/** Unsigned machine words as naturals, and their bits, least significant first. */
module Bits {
  import opened Arith

  function Pow2(n: nat): (p: nat)
    ensures p > 0
  {
    if n == 0 then 1 else 2 * Pow2(n - 1)
  }

  /** v >> i */
  function Shr(v: nat, i: nat): nat {
    if i == 0 then v else Shr(v / 2, i - 1)
  }

  predicate Bit(v: nat, i: nat) { Shr(v, i) % 2 == 1 }

  lemma {:induction false} BitPlus(v: nat, i: nat, j: nat)
    ensures Bit(v, i + j) == Bit(Shr(v, i), j)
    decreases i
  {
    if i > 0 {
      BitPlus(v / 2, i - 1, j);
    }
  }

  /** Four bits at a time. */
  lemma {:induction false} Nibble(v: nat, j: nat)
    ensures Bit(v, 4 + j) == Bit(v / 16, j)
    ensures Bit(v, 0) == (v % 2 == 1) && Bit(v, 1) == (v / 2 % 2 == 1)
    ensures Bit(v, 2) == (v / 4 % 2 == 1) && Bit(v, 3) == (v / 8 % 2 == 1)
  {
    BitPlus(v, 4, j);
    assert Shr(v, 1) == Shr(v / 2, 0) == v / 2;
    assert Shr(v, 2) == Shr(v / 2, 1) == Shr(v / 2 / 2, 0);
    assert Shr(v, 3) == Shr(v / 2, 2) == Shr(v / 4, 1) == Shr(v / 8, 0);
    assert Shr(v, 4) == Shr(v / 2, 3) == Shr(v / 4, 2) == Shr(v / 8, 1) == Shr(v / 16, 0);
  }

  /** The low n bits of v in transmission order. */
  function BitsOf(v: nat, n: nat): (s: seq<bool>)
    ensures |s| == n
  {
    seq(n, i requires 0 <= i => Bit(v, i))
  }

  function NatOf(s: seq<bool>): nat {
    if s == [] then 0 else (if s[0] then 1 else 0) + 2 * NatOf(s[1..])
  }

  /** w | (1 << i) for a word none of whose bits from i up is set. */
  function SetBit(w: nat, i: nat): nat
    requires w < Pow2(i)
  {
    w + Pow2(i)
  }

  lemma BitsOfSplit(v: nat, n: nat)
    requires n > 0
    ensures BitsOf(v, n) == [v % 2 == 1] + BitsOf(v / 2, n - 1)
  {
    assert Shr(v, 0) == v;
  }

  lemma {:induction false} NatOfBitsOf(v: nat, n: nat)
    ensures NatOf(BitsOf(v, n)) == v % Pow2(n)
  {
    if n > 0 {
      BitsOfSplit(v, n);
      assert BitsOf(v, n)[1..] == BitsOf(v / 2, n - 1);
      NatOfBitsOf(v / 2, n - 1);
      ModTwice(v, Pow2(n - 1));
    }
  }

  lemma ModTwice(v: nat, m: nat)
    requires m > 0
    ensures v % (2 * m) == v % 2 + 2 * (v / 2 % m)
  {
    var q, r := v / 2 / m, v / 2 % m;
    assert v / 2 == q * m + r;
    assert v == (2 * m) * q + (v % 2 + 2 * r) by {
      assert v == 2 * (v / 2) + v % 2;
      assert 2 * (q * m) == (2 * m) * q;
    }
    DivModUnique(v, 2 * m, q, v % 2 + 2 * r);
  }

  lemma {:induction false} BitsOfNatOf(s: seq<bool>)
    ensures BitsOf(NatOf(s), |s|) == s
  {
    if s != [] {
      BitsOfSplit(NatOf(s), |s|);
      BitsOfNatOf(s[1..]);
    }
  }

  lemma {:induction false} NatOfSnoc(s: seq<bool>, b: bool)
    ensures NatOf(s + [b]) == NatOf(s) + (if b then Pow2(|s|) else 0)
  {
    if s == [] {
      assert [b][1..] == [];
    } else {
      assert (s + [b])[1..] == s[1..] + [b];
      NatOfSnoc(s[1..], b);
    }
  }

  lemma {:induction false} NatOfBound(s: seq<bool>)
    ensures NatOf(s) < Pow2(|s|)
  {
    if s != [] {
      NatOfBound(s[1..]);
    }
  }

  // ------------------------------------------------------------- exclusive or

  function Xor(a: nat, b: nat): nat
    decreases a + b
  {
    if a == 0 then b else if b == 0 then a
    else (if a % 2 != b % 2 then 1 else 0) + 2 * Xor(a / 2, b / 2)
  }

  lemma {:induction false} XorHalves(a: nat, b: nat)
    ensures Xor(a, b) / 2 == Xor(a / 2, b / 2) && (Xor(a, b) % 2 == 1 <==> a % 2 != b % 2)
  {
  }

  lemma {:induction false} XorBit(a: nat, b: nat, i: nat)
    ensures Bit(Xor(a, b), i) == (Bit(a, i) != Bit(b, i))
    decreases i
  {
    XorHalves(a, b);
    if i > 0 {
      XorBit(a / 2, b / 2, i - 1);
    }
  }

  lemma {:induction false} XorBound(a: nat, b: nat, n: nat)
    requires a < Pow2(n) && b < Pow2(n)
    ensures Xor(a, b) < Pow2(n)
  {
    if n > 0 {
      XorHalves(a, b);
      XorBound(a / 2, b / 2, n - 1);
    }
  }

  lemma {:induction false} BitsAbove(v: nat, n: nat, i: nat)
    requires v < Pow2(n) && n <= i
    ensures !Bit(v, i)
    decreases i
  {
    if i > 0 {
      if n == 0 {
        BitsAbove(v / 2, 0, i - 1);
      } else {
        BitsAbove(v / 2, n - 1, i - 1);
      }
    }
  }

  /** The order of two arguments does not matter. */
  lemma {:induction false} XorSwap(a: nat, b: nat, c: nat)
    ensures Xor(Xor(a, b), c) == Xor(Xor(a, c), b)
    decreases a + b + c
  {
    XorHalves(a, b);
    XorHalves(a, c);
    XorHalves(Xor(a, b), c);
    XorHalves(Xor(a, c), b);
    if a / 2 + b / 2 + c / 2 < a + b + c {
      XorSwap(a / 2, b / 2, c / 2);
    }
  }

  lemma {:induction false} ShrNext(v: nat, i: nat)
    ensures Shr(v, i + 1) == Shr(v, i) / 2
    decreases i
  {
    if i > 0 {
      ShrNext(v / 2, i - 1);
    }
  }

  lemma {:induction false} ShrGone(v: nat, n: nat)
    requires v < Pow2(n)
    ensures Shr(v, n) == 0
    decreases n
  {
    if n > 0 {
      ShrGone(v / 2, n - 1);
    }
  }
}
