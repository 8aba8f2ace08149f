/** DAP frames: the bit-at-a-time builder, the packed word the fast path sends
    instead, and the decoder both must satisfy. */
module Frame {
  import opened Common
  import opened Bits
  import opened Crc6

  const MAX_BITS: nat := 1 + 5 + 6 + 63 + 6 + 1

  /** What the CRC covers.  Wide mode pads CMD, and DATA of odd length, to pairs. */
  function Payload(cmd: nat, lenField: nat, data: nat, dataBits: nat, wide: bool): seq<bool> {
    BitsOf(cmd, 5) + (if wide then [false] else []) + BitsOf(lenField, 6)
    + BitsOf(data, dataBits) + (if wide && dataBits % 2 == 1 then [false] else [])
  }

  function Edge(wide: bool): nat { if wide then 2 else 1 }

  /** Start bit (on both lines when wide), payload, CRC6 LSB first, trailing zero. */
  function FrameBits(cmd: nat, lenField: nat, data: nat, dataBits: nat, wide: bool): seq<bool> {
    var p := Payload(cmd, lenField, data, dataBits, wide);
    seq(Edge(wide), _ => true) + p + Lsb6(Crc(p)) + seq(Edge(wide), _ => false)
  }

  lemma NarrowFrame(c: nat, l: nat, d: nat, n: nat, p: seq<bool>, crc: State)
    requires p == Payload(c, l, d, n, false) && crc == Crc(p)
    ensures FrameBits(c, l, d, n, false) == [true] + p + Lsb6(crc) + [false]
  {
    assert seq(1, _ => true) == [true] && seq(1, _ => false) == [false];
  }

  // ------------------------------------------------------------- the builder

  lemma OneBit()
    ensures BitsOf(1, 1) == [true] && BitsOf(0, 1) == [false]
  {
  }

  class DapFrame {
    const bit: array<bool>
    var len: nat
    var cmd: nat
    var lenField: nat
    var data: nat
    var dataBits: nat

    ghost predicate Valid()
      reads this
    {
      bit.Length == MAX_BITS && len <= MAX_BITS
    }

    ghost function Contents(): seq<bool>
      reads this, bit
      requires Valid()
    {
      bit[..len]
    }

    constructor ()
      ensures Valid() && Contents() == [] && fresh(bit)
    {
      bit := new bool[MAX_BITS];
      len := 0;
      cmd, lenField, data, dataBits := 0, 0, 0, 0;
    }

    method Put(value: nat, nbits: nat) returns (ok: bool)
      requires Valid()
      modifies this`len, bit
      ensures Valid()
      ensures ok <==> old(len) + nbits <= MAX_BITS
      ensures Contents() == old(Contents()) + if ok then BitsOf(value, nbits) else []
    {
      if len + nbits > MAX_BITS {
        return false;
      }
      ghost var before := len;
      for i := 0 to nbits
        invariant Valid() && len == before + i && before + nbits <= MAX_BITS
        invariant Contents() == old(Contents()) + BitsOf(value, nbits)[..i]
      {
        bit[len] := Bit(value, i);
        len := len + 1;
      }
      ok := true;
    }

    method Build(c: nat, l: nat, d: nat, n: nat) returns (ok: bool)
      requires Valid()
      modifies this, bit
      ensures Valid()
      ensures ok <==> c <= 0x1F && l <= 63 && n <= 63
      ensures ok ==> Contents() == FrameBits(c, l, d, n, false)
      ensures ok ==> (cmd, lenField, data, dataBits) == (c, l, d, n)
      ensures !ok ==> Contents() == old(Contents())
    {
      if c > 0x1F || l > 63 || n > 63 {
        return false;
      }
      cmd, lenField, data, dataBits := c, l, d, n;
      var p, crc := Assemble(c, l, d, n, false);
      len := 0;
      OneBit();
      ok := Put(1, 1);
      assert Contents() == [true];
      PutPayload(p);
      ok := Put(NatOf(Lsb6(crc)), 6);
      BitsOfNatOf(Lsb6(crc));
      ok := Put(0, 1);
      NarrowFrame(c, l, d, n, p, crc);
    }

    method PutPayload(p: seq<bool>)
      requires Valid() && len + |p| <= MAX_BITS
      modifies this`len, bit
      ensures Valid() && Contents() == old(Contents()) + p
    {
      for i := 0 to |p|
        invariant Valid() && len == old(len) + i
        invariant Contents() == old(Contents()) + p[..i]
      {
        bit[len] := p[i];
        len := len + 1;
      }
    }

    /** The first 64 bits as an integer, first transmitted bit lowest. */
    method Word() returns (word: nat)
      requires Valid()
      ensures word == NatOf(Contents()[..if len < 64 then len else 64])
    {
      word := 0;
      var i := 0;
      while i < len && i < 64
        invariant i <= len && i <= 64
        invariant word == NatOf(Contents()[..i])
      {
        NatOfSnoc(Contents()[..i], bit[i]);
        NatOfBound(Contents()[..i]);
        assert Contents()[..i + 1] == Contents()[..i] + [bit[i]];
        word := if bit[i] then SetBit(word, i) else word;
        i := i + 1;
      }
      assert i == if len < 64 then len else 64;
    }
  }

  /** The payload and its CRC, as both frame paths compute them. */
  method Assemble(cmd: nat, lenField: nat, data: nat, dataBits: nat, wide: bool)
    returns (p: seq<bool>, crc: State)
    requires dataBits <= 63
    ensures p == Payload(cmd, lenField, data, dataBits, wide)
    ensures crc == Crc(p)
  {
    var payload := new bool[5 + 1 + 6 + 63 + 1];
    FillPayload(payload, cmd, lenField, data, dataBits, wide);
    var n := 11 + dataBits + (if wide then 1 + dataBits % 2 else 0);
    p := payload[..n];
    crc := ComputeCrc(p);
  }

  method FillPayload(payload: array<bool>, cmd: nat, lenField: nat, data: nat, dataBits: nat, wide: bool)
    requires dataBits <= 63 && payload.Length >= |Payload(cmd, lenField, data, dataBits, wide)|
    modifies payload
    ensures payload[..|Payload(cmd, lenField, data, dataBits, wide)|]
         == Payload(cmd, lenField, data, dataBits, wide)
  {
    StoreBits(payload, 0, cmd, 5);
    var n := 5;
    if wide {
      payload[n] := false;
      n := n + 1;
    }
    StoreBits(payload, n, lenField, 6);
    n := n + 6;
    StoreBits(payload, n, data, dataBits);
    n := n + dataBits;
    if wide && dataBits % 2 == 1 {
      payload[n] := false;
    }
  }

  method StoreBits(a: array<bool>, at: nat, v: nat, n: nat)
    requires at + n <= a.Length
    modifies a
    ensures a[..at + n] == old(a[..at]) + BitsOf(v, n)
  {
    for i := 0 to n
      invariant a[..at + i] == old(a[..at]) + BitsOf(v, n)[..i]
    {
      a[at + i] := Bit(v, i);
    }
  }

  // -------------------------------------------------------------- the fast path

  /** The whole frame as one 63-bit register value. */
  method RawFrame(cmd: nat, lenField: nat, data: nat, dataBits: nat, wide: bool)
    returns (ok: bool, word: nat, bits: nat)
    ensures ok <==> dataBits <= if wide then 40 else 44
    ensures ok ==> bits == |FrameBits(cmd, lenField, data, dataBits, wide)| <= 63
    ensures ok ==> word == NatOf(FrameBits(cmd, lenField, data, dataBits, wide))
  {
    word, bits := 0, 0;
    if dataBits > 63 {
      return false, 0, 0;
    }
    var p, crc := Assemble(cmd, lenField, data, dataBits, wide);
    var n, edge := |p|, Edge(wide);
    var total := edge + n + 6 + edge;
    if total > 63 {
      return false, 0, 0;
    }
    var t := Lsb6(crc);
    word := if wide then 3 else 1;
    ghost var head := seq(edge, _ => true);
    StartBits(wide);
    word := OrBits(word, edge, p, head);
    word := OrBits(word, edge + n, t, head + p);
    TrailingZeros(head + p + t, edge);
    ok, bits := true, total;
  }

  /** word |= bits << at, above the bits `sent` already in it. */
  method OrBits(word: nat, at: nat, bits: seq<bool>, ghost sent: seq<bool>) returns (w: nat)
    requires at == |sent| && word == NatOf(sent)
    ensures w == NatOf(sent + bits)
  {
    w := word;
    assert sent + bits[..0] == sent;
    for i := 0 to |bits|
      invariant w == NatOf(sent + bits[..i])
    {
      NextBit(sent + bits[..i], bits[i]);
      assert sent + bits[..i + 1] == sent + bits[..i] + [bits[i]];
      w := if bits[i] then SetBit(w, at + i) else w;
    }
    assert bits[..|bits|] == bits;
  }

  lemma StartBits(wide: bool)
    ensures NatOf(seq(Edge(wide), _ => true)) == if wide then 3 else 1
  {
    var s := seq(Edge(wide), _ => true);
    assert s[1..] == if wide then [true] else [];
    assert [true][1..] == [];
  }

  lemma {:induction false} NextBit(sent: seq<bool>, b: bool)
    ensures NatOf(sent) < Pow2(|sent|)
    ensures NatOf(sent + [b]) == if b then SetBit(NatOf(sent), |sent|) else NatOf(sent)
  {
    NatOfSnoc(sent, b);
    NatOfBound(sent);
  }

  lemma {:induction false} TrailingZeros(s: seq<bool>, n: nat)
    ensures NatOf(s + seq(n, _ => false)) == NatOf(s)
  {
    if n == 0 {
      assert s + seq(n, _ => false) == s;
    } else {
      assert s + seq(n, _ => false) == s + seq(n - 1, _ => false) + [false];
      NatOfSnoc(s + seq(n - 1, _ => false), false);
      TrailingZeros(s, n - 1);
    }
  }

  /** In narrow mode the register value is the built frame's word, bit for bit. */
  method SendBothWays(f: DapFrame, c: nat, l: nat, d: nat, n: nat)
    returns (built: bool, fits: bool, builtWord: nat, rawWord: nat, bits: nat)
    requires f.Valid()
    modifies f, f.bit
    ensures built && fits ==> builtWord == rawWord && bits == f.len
    ensures built && fits <==> c <= 0x1F && l <= 63 && n <= 44
    ensures !built && fits <==> (c > 0x1F || l > 63) && n <= 44
  {
    built := f.Build(c, l, d, n);
    builtWord := f.Word();
    fits, rawWord, bits := RawFrame(c, l, d, n, false);
    if built && fits {
      assert f.Contents()[..f.len] == f.Contents();
    }
  }

  // ------------------------------------------------------------------ decoding

  datatype Message = Message(cmd: nat, lenField: nat, data: nat)

  /** A receiver that knows only the layout and the CRC rule. */
  function Decode(s: seq<bool>, wide: bool): Option<Message> {
    var e := Edge(wide);
    var pad := if wide then 1 else 0;
    if |s| < 2 * e + 17 + pad then None
    else
      var p := s[e..|s| - e];
      if s[..e] != seq(e, _ => true) || s[|s| - e..] != seq(e, _ => false) then None
      else if !ResidueOk(p) || (wide && p[5]) then None
      else Some(Message(NatOf(p[..5]), NatOf(p[5 + pad..11 + pad]), NatOf(p[11 + pad..|p| - 6])))
  }

  lemma Slices(a: seq<bool>, gap: seq<bool>, b: seq<bool>, rest: seq<bool>)
    ensures
      var q := a + gap + b + rest;
      && q[..|a|] == a && (forall i :: 0 <= i < |gap| ==> q[|a| + i] == gap[i])
      && q[|a| + |gap|..|a| + |gap| + |b|] == b && q[|a| + |gap| + |b|..] == rest
  {
  }

  /** Where the fields of a payload lie. */
  lemma {:induction false} PayloadFields(cmd: nat, lenField: nat, data: nat, n: nat, wide: bool)
    ensures
      var q := Payload(cmd, lenField, data, n, wide);
      var pad := if wide then 1 else 0;
      && |q| >= 11 + pad
      && NatOf(q[..5]) == cmd % 32 && (wide ==> !q[5])
      && NatOf(q[5 + pad..11 + pad]) == lenField % 64
      && NatOf(q[11 + pad..]) == data % Pow2(n)
  {
    var q := Payload(cmd, lenField, data, n, wide);
    var pad := if wide then 1 else 0;
    var tail := seq(if wide && n % 2 == 1 then 1 else 0, _ => false);
    Slices(BitsOf(cmd, 5), if wide then [false] else [], BitsOf(lenField, 6), BitsOf(data, n) + tail);
    assert q == BitsOf(cmd, 5) + (if wide then [false] else []) + BitsOf(lenField, 6)
                + (BitsOf(data, n) + tail);
    NatOfBitsOf(cmd, 5);
    NatOfBitsOf(lenField, 6);
    NatOfBitsOf(data, n);
    TrailingZeros(BitsOf(data, n), |tail|);
    assert Pow2(3) == 8;
    assert Pow2(6) == 64;
  }

  lemma Framed(head: seq<bool>, q: seq<bool>, t: seq<bool>, tail: seq<bool>)
    ensures
      var f := head + q + t + tail;
      && f[..|head|] == head && f[|f| - |tail|..] == tail
      && f[|head|..|f| - |tail|] == q + t
  {
  }

  lemma Nested(q: seq<bool>, t: seq<bool>, i: nat, j: nat)
    requires i <= j <= |q|
    ensures (q + t)[i..j] == q[i..j]
  {
  }

  /** Every frame decodes to the fields it was built from, each at its wire width. */
  lemma {:induction false} FrameDecodes(cmd: nat, lenField: nat, data: nat, n: nat, wide: bool)
    ensures Decode(FrameBits(cmd, lenField, data, n, wide), wide)
         == Some(Message(cmd % 32, lenField % 64, data % Pow2(n)))
  {
    var pad := if wide then 1 else 0;
    var q := Payload(cmd, lenField, data, n, wide);
    var t := Lsb6(Crc(q));
    Framed(seq(Edge(wide), _ => true), q, t, seq(Edge(wide), _ => false));
    ExactlyOneTrailer(q, t);
    PayloadFields(cmd, lenField, data, n, wide);
    Nested(q, t, 0, 5);
    Nested(q, t, 5 + pad, 11 + pad);
    Nested(q, t, 11 + pad, |q|);
    assert q[11 + pad..|q|] == q[11 + pad..];
  }

  /** The register value and its length say as much as the frame does. */
  lemma {:induction false} WordDecodes(cmd: nat, lenField: nat, data: nat, n: nat, wide: bool, word: nat, bits: nat)
    requires bits == |FrameBits(cmd, lenField, data, n, wide)|
    requires word == NatOf(FrameBits(cmd, lenField, data, n, wide))
    ensures Decode(BitsOf(word, bits), wide)
         == Some(Message(cmd % 32, lenField % 64, data % Pow2(n)))
  {
    BitsOfNatOf(FrameBits(cmd, lenField, data, n, wide));
    FrameDecodes(cmd, lenField, data, n, wide);
  }

  // -------------------------------------------------- block-read commands

  const CMD_BLOCKREAD: nat := 0x0A
  const BLOCKREAD_BITS: nat := 40

  /** (count & 0xFF) << 2 | (addr >> 2) << 10: the fields do not overlap. */
  function BlockReadPayload(addr: nat, count: nat): (p: nat)
    requires addr < 0x1_0000_0000
    ensures p < 0x100_0000_0000
  {
    count % 0x100 * 4 + addr / 4 * 0x400
  }

  /** The device's reading of it: word address, and 0 standing for 256. */
  function BlockReadCount(p: nat): nat {
    var c := p / 4 % 0x100;
    if c == 0 then 256 else c
  }

  function BlockReadAddress(p: nat): nat { p / 0x400 * 4 }

  /** Fields that fit come back as they were. */
  lemma {:induction false} FieldsDecode(cmd: nat, lenField: nat, data: nat, n: nat, wide: bool)
    requires cmd < 32 && lenField < 64 && data % Pow2(n) == data && n <= 40
    ensures |FrameBits(cmd, lenField, data, n, wide)| <= 63
    ensures Decode(FrameBits(cmd, lenField, data, n, wide), wide) == Some(Message(cmd, lenField, data))
  {
    FrameDecodes(cmd, lenField, data, n, wide);
    FrameLength(cmd, lenField, data, n, wide);
  }

  lemma FitsForty(p: nat)
    requires p < 0x100_0000_0000
    ensures p % Pow2(BLOCKREAD_BITS) == p
  {
    Pow2Forty();
  }

  /** A block-read command survives either frame form: the device gets the word
      address and the count back, and the frame always fits the register. */
  lemma BlockReadDecodes(addr: nat, count: nat, wide: bool)
    requires addr < 0x1_0000_0000 && 1 <= count <= 256
    ensures |FrameBits(CMD_BLOCKREAD, 40, BlockReadPayload(addr, count), BLOCKREAD_BITS, wide)| <= 63
    ensures Decode(FrameBits(CMD_BLOCKREAD, 40, BlockReadPayload(addr, count), BLOCKREAD_BITS, wide), wide)
         == Some(Message(CMD_BLOCKREAD, 40, BlockReadPayload(addr, count)))
    ensures BlockReadCount(BlockReadPayload(addr, count)) == count
    ensures BlockReadAddress(BlockReadPayload(addr, count)) == addr - addr % 4
  {
    var p := BlockReadPayload(addr, count);
    FitsForty(p);
    FieldsDecode(CMD_BLOCKREAD, 40, p, BLOCKREAD_BITS, wide);
    PayloadRoundTrip(addr, count);
  }

  lemma FrameLength(cmd: nat, lenField: nat, data: nat, n: nat, wide: bool)
    ensures |FrameBits(cmd, lenField, data, n, wide)| == if wide then 22 + n + n % 2 else 19 + n
  {
  }

  lemma PayloadRoundTrip(addr: nat, count: nat)
    requires addr < 0x1_0000_0000 && 1 <= count <= 256
    ensures BlockReadCount(BlockReadPayload(addr, count)) == count
    ensures BlockReadAddress(BlockReadPayload(addr, count)) == addr - addr % 4
  {
    var p, c := BlockReadPayload(addr, count), count % 0x100;
    assert p == 0x400 * (addr / 4) + 4 * c;
    assert p / 4 == 0x100 * (addr / 4) + c;
  }

  lemma Pow2Forty()
    ensures Pow2(40) == 0x100_0000_0000
  {
    assert Pow2(8) == 0x100;
    assert Pow2(16) == 0x1_0000;
    assert Pow2(24) == 0x100_0000;
    assert Pow2(32) == 0x1_0000_0000;
  }
}
