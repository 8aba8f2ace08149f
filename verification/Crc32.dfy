/** The checksum the flasher compares sectors and images by, and boot headers carry, as host
    and loader compute it: reflected polynomial, no table, the running value not inverted. */
module Crc32 {
  import opened Common
  import opened Bits
  import opened Polynomials

  type Word = w: nat | w < 0x1_0000_0000

  const POLY: Word := 0xEDB8_8320
  const INIT: Word := 0xFFFF_FFFF

  function Inverted(w: Word): Word { 0xFFFF_FFFF - w }

  function Xor32(a: Word, b: Word): Word {
    Pow2Is();
    XorBound(a, b, 32);
    Xor(a, b)
  }

  lemma Pow2Is()
    ensures Pow2(32) == 0x1_0000_0000 && Pow2(8) == 0x100
  {
    assert Pow2(4) == 0x10 && Pow2(8) == 0x100 && Pow2(12) == 0x1000;
    assert Pow2(16) == 0x1_0000 && Pow2(20) == 0x10_0000;
    assert Pow2(24) == 0x100_0000 && Pow2(28) == 0x1000_0000;
  }

  function Shift(crc: Word, n: nat): Word {
    if n == 0 then crc
    else
      var c := Shift(crc, n - 1);
      if c % 2 == 1 then Xor32(c / 2, POLY) else c / 2
  }

  function UpdateByte(crc: Word, b: Byte): Word { Shift(Xor32(crc, b as nat), 8) }

  function Update(crc: Word, data: seq<Byte>): Word {
    if data == [] then crc
    else UpdateByte(Update(crc, data[..|data| - 1]), data[|data| - 1])
  }

  function Checksum(data: seq<Byte>): Word { Inverted(Update(INIT, data)) }

  method ComputeUpdate(crc: Word, data: seq<Byte>) returns (r: Word)
    ensures r == Update(crc, data)
  {
    r := crc;
    for i := 0 to |data|
      invariant r == Update(crc, data[..i])
    {
      r := Xor32(r, data[i] as nat);
      ghost var start := r;
      for bit := 0 to 8
        invariant r == Shift(start, bit)
      {
        r := if r % 2 == 1 then Xor32(r / 2, POLY) else r / 2;
      }
      assert data[..i + 1][..i] == data[..i];
    }
    assert data[..|data|] == data;
  }

  /** A checksum over two pieces taken one after the other is the checksum of both. */
  lemma {:induction false} UpdateComposes(crc: Word, a: seq<Byte>, b: seq<Byte>)
    ensures Update(crc, a + b) == Update(Update(crc, a), b)
    decreases |b|
  {
    if b == [] {
      assert a + b == a;
    } else {
      var n := |b| - 1;
      assert (a + b)[..|a + b| - 1] == a + b[..n];
      UpdateComposes(crc, a, b[..n]);
    }
  }

  /** So a region's bytes and then its padding are compared as one string. */
  lemma {:induction false} PaddedChecksum(data: seq<Byte>, pad: seq<Byte>)
    ensures Inverted(Update(Update(INIT, data), pad)) == Checksum(data + pad)
  {
    UpdateComposes(INIT, data, pad);
  }

  // ------------------------------------------------------------- bit by bit

  function BitStep(r: Word, b: bool): Word {
    if (r % 2 == 1) != b then Xor32(r / 2, POLY) else r / 2
  }

  function BitRun(r: Word, bits: seq<bool>): Word
    decreases |bits|
  {
    if bits == [] then r else BitStep(BitRun(r, bits[..|bits| - 1]), bits[|bits| - 1])
  }

  /** The generator of IEEE 802.3. */
  predicate InGenerator(power: nat) { power in {32, 26, 23, 22, 16, 12, 11, 10, 8, 7, 5, 4, 2, 1, 0} }

  /** Its coefficients, highest power first. */
  function Generator(): (g: seq<bool>)
    ensures |g| == 33 && g[0] && forall j :: 0 <= j < 33 ==> g[j] == InGenerator(32 - j)
  {
    seq(33, j requires 0 <= j < 33 => InGenerator(32 - j))
  }

  /** What is left of the polynomial after its first 4k bits. */
  function PolyFrom(k: nat): nat
    requires k < 8
  {
    [0xEDB8_8320, 0xEDB_8832, 0xED_B883, 0xE_DB88, 0xEDB8, 0xEDB, 0xED, 0xE][k]
  }

  lemma {:induction false} PolyNibble(k: nat, j: nat)
    requires k < 8 && j < 4
    ensures Bit(PolyFrom(k), j) == InGenerator(31 - 4 * k - j)
  {
    Nibble(PolyFrom(k), 0);
    match k
    case 0 => case 1 => case 2 => case 3 => case 4 => case 5 => case 6 => case 7 =>
  }

  lemma {:induction false} PolyBit(k: nat, j: nat)
    requires k < 8 && j + 4 * k < 32
    ensures Bit(PolyFrom(k), j) == InGenerator(31 - 4 * k - j)
    decreases j
  {
    if j < 4 {
      PolyNibble(k, j);
    } else {
      Nibble(PolyFrom(k), j - 4);
      assert PolyFrom(k) / 16 == PolyFrom(k + 1);
      PolyBit(k + 1, j - 4);
    }
  }

  lemma {:induction false} StepBit(r: Word, b: bool, j: nat)
    requires j < 32
    ensures Bit(BitStep(r, b), j) == (Bit(r, j + 1) != (Bit(r, 0) != b && InGenerator(31 - j)))
  {
    XorBit(r / 2, POLY, j);
    PolyBit(0, j);
  }

  // ------------------------------------------------------- a polynomial's remainder

  /** The feedback at each bit. */
  function Quotient(bits: seq<bool>): (q: seq<bool>)
    ensures |q| == |bits|
    decreases |bits|
  {
    if bits == [] then []
    else
      var before := bits[..|bits| - 1];
      Quotient(before) + [(BitRun(INIT, before) % 2 == 1) != bits[|bits| - 1]]
  }

  lemma {:induction false} InitBits(j: nat)
    ensures Bit(INIT, j) == (j < 32)
    decreases j
  {
    Pow2Is();
    if j < 32 {
      OnesBit(32, j);
      assert INIT == Pow2(32) - 1;
    } else {
      BitsAbove(INIT, 32, j);
    }
  }

  lemma {:induction false} OnesBit(n: nat, j: nat)
    requires j < n
    ensures Bit(Pow2(n) - 1, j)
    decreases n
  {
    assert (Pow2(n) - 1) / 2 == Pow2(n - 1) - 1 && (Pow2(n) - 1) % 2 == 1;
    if j > 0 {
      OnesBit(n - 1, j - 1);
    }
  }

  /** The register holds the product's lower half, the first 32 places counted as ones. */
  lemma {:induction false} RegisterBit(bits: seq<bool>, j: nat)
    requires j < 32
    ensures Bit(BitRun(INIT, bits), j)
         == (Product(Quotient(bits), Generator(), |bits| + j) != (|bits| + j < 32))
    decreases |bits|
  {
    if bits == [] {
      InitBits(j);
    } else {
      var n := |bits| - 1;
      if j < 31 {
        RegisterBit(bits[..n], j + 1);
      } else {
        NothingAbove(BitRun(INIT, bits[..n]), Quotient(bits[..n]));
      }
      RegisterNext(BitRun(INIT, bits[..n]), Quotient(bits[..n]), bits[n], j);
      LastBit(bits);
    }
  }

  lemma {:induction false} LastBit(bits: seq<bool>)
    requires bits != []
    ensures
      var n := |bits| - 1;
      var r, q := BitRun(INIT, bits[..n]), Quotient(bits[..n]);
      && BitRun(INIT, bits) == BitStep(r, bits[n]) && |q| + 1 == |bits|
      && Quotient(bits) == q + [(r % 2 == 1) != bits[n]]
  {
  }

  lemma {:induction false} RegisterNext(r: Word, q: seq<bool>, b: bool, j: nat)
    requires j < 32 && Bit(r, j + 1) == (Product(q, Generator(), |q| + 1 + j) != (|q| + 1 + j < 32))
    ensures
      var f := (r % 2 == 1) != b;
      Bit(BitStep(r, b), j) == (Product(q + [f], Generator(), |q| + 1 + j) != (|q| + 1 + j < 32))
  {
    StepBit(r, b, j);
    OneMoreTerm(q, (r % 2 == 1) != b, Generator(), |q| + 1 + j);
    assert Shr(r, 0) == r;
  }

  lemma {:induction false} NothingAbove(r: Word, q: seq<bool>)
    ensures !Bit(r, 32) && !Product(q, Generator(), |q| + 32)
  {
    Pow2Is();
    BitsAbove(r, 32, 32);
    NoTerms(q, Generator(), |q| + 32);
  }

  /** And each bit taken in is one of the upper half's. */
  lemma {:induction false} QuotientBit(bits: seq<bool>, t: nat)
    requires t < |bits|
    ensures Product(Quotient(bits), Generator(), t) == (bits[t] != (t < 32))
  {
    QuotientAt(bits, t);
    TopTerm(Quotient(bits), Generator(), t);
    RegisterBit(bits[..t], 0);
  }

  lemma {:induction false} QuotientAt(bits: seq<bool>, t: nat)
    requires t < |bits|
    ensures Quotient(bits)[..t] == Quotient(bits[..t])
    ensures Quotient(bits)[t] == (Bit(BitRun(INIT, bits[..t]), 0) != bits[t])
  {
    QuotientPrefix(bits, t);
    QuotientPrefix(bits, t + 1);
    assert bits[..t + 1][..t] == bits[..t];
    assert Quotient(bits)[t] == Quotient(bits)[..t + 1][t];
    assert Shr(BitRun(INIT, bits[..t]), 0) == BitRun(INIT, bits[..t]);
  }

  lemma {:induction false} QuotientPrefix(bits: seq<bool>, n: nat)
    requires n <= |bits|
    ensures Quotient(bits)[..n] == Quotient(bits[..n])
    decreases |bits|
  {
    if n < |bits| {
      QuotientPrefix(bits[..|bits| - 1], n);
      assert bits[..|bits| - 1][..n] == bits[..n];
    } else {
      assert bits[..n] == bits;
    }
  }

  /** The bits with their remainder behind, the first 32 of all those turned, are a multiple of
      the generator. */
  lemma {:induction false} RunDivides(bits: seq<bool>)
    ensures Divides(Generator(), Flipped(bits + BitsOf(BitRun(INIT, bits), 32), 32))
  {
    var r, q := BitRun(INIT, bits), Quotient(bits);
    var b := Flipped(bits + BitsOf(r, 32), 32);
    forall t: nat | t < |b| ensures Product(q, Generator(), t) == b[t] {
      if t < |bits| {
        QuotientBit(bits, t);
      } else {
        RegisterBit(bits, t - |bits|);
      }
    }
    assert IsQuotient(q, Generator(), b);
  }

  // ------------------------------------------------------------------ of bytes

  /** The bits of bytes, each from its lowest on. */
  function ByteBits(data: seq<Byte>): (b: seq<bool>)
    ensures |b| == 8 * |data|
  {
    if data == [] then [] else ByteBits(data[..|data| - 1]) + BitsOf(data[|data| - 1] as nat, 8)
  }

  lemma {:induction false} RunOn(r: Word, a: seq<bool>, b: seq<bool>)
    ensures BitRun(r, a + b) == BitRun(BitRun(r, a), b)
    decreases |b|
  {
    if b == [] {
      assert a + b == a;
    } else {
      var n := |b| - 1;
      assert (a + b)[..|a + b| - 1] == a + b[..n];
      RunOn(r, a, b[..n]);
    }
  }

  /** Mixing a number in at once is mixing in its bits one by one. */
  lemma {:induction false} MixedIsBits(r: Word, b: Word, n: nat)
    ensures Shr(b, n) <= b && Shift(Xor32(r, b), n) == Xor32(BitRun(r, BitsOf(b, n)), Shr(b, n))
    decreases n
  {
    if n == 0 {
      assert BitsOf(b, 0) == [];
    } else {
      MixedIsBits(r, b, n - 1);
      var y, c := BitRun(r, BitsOf(b, n - 1)), Shr(b, n - 1);
      assert BitsOf(b, n)[..n - 1] == BitsOf(b, n - 1);
      ShrNext(b, n - 1);
      XorHalves(y, c);
      XorSwap(y / 2, c / 2, POLY);
    }
  }

  lemma {:induction false} BytesAreBits(crc: Word, data: seq<Byte>)
    ensures Update(crc, data) == BitRun(crc, ByteBits(data))
  {
    if data != [] {
      var n := |data| - 1;
      BytesAreBits(crc, data[..n]);
      var b, r := data[n] as nat, Update(crc, data[..n]);
      MixedIsBits(r, b, 8);
      Pow2Is();
      ShrGone(b, 8);
      XorNone(BitRun(r, BitsOf(b, 8)));
      RunOn(crc, ByteBits(data[..n]), BitsOf(b, 8));
    }
  }

  lemma XorNone(r: Word)
    ensures Xor32(r, 0) == r
  {
  }

  lemma {:induction false} SameBits(a: Word, b: Word)
    requires BitsOf(a, 32) == BitsOf(b, 32)
    ensures a == b
  {
    Pow2Is();
    NatOfBitsOf(a, 32);
    NatOfBitsOf(b, 32);
  }

  /** Bytes and a word behind them make a multiple of the generator of IEEE 802.3, the word
      turned over and then the first 32 bits of all. */
  ghost predicate Fits(data: seq<Byte>, c: Word) {
    Divides(Generator(), Flipped(ByteBits(data) + BitsOf(Inverted(c), 32), 32))
  }

  lemma {:induction false} ChecksumFits(data: seq<Byte>)
    ensures Fits(data, Checksum(data))
  {
    BytesAreBits(INIT, data);
    RunDivides(ByteBits(data));
    assert Inverted(Checksum(data)) == BitRun(INIT, ByteBits(data));
  }

  /** What a checksum is, whatever computes it: the one word that so fits the bytes. */
  lemma {:induction false} ChecksumIs(data: seq<Byte>, c: Word)
    ensures Fits(data, c) <==> c == Checksum(data)
  {
    ChecksumFits(data);
    if Fits(data, c) {
      var k := Checksum(data);
      OneRemainder(ByteBits(data), BitsOf(Inverted(c), 32), BitsOf(Inverted(k), 32), Generator(), 32);
      SameBits(Inverted(c), Inverted(k));
    }
  }
}
