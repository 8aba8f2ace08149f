/** The frame check of the DAP wire protocol: a Galois LFSR generates the six
    trailer bits, a Fibonacci LFSR judges payload and trailer together. */
module Crc6 {
  import opened Polynomials

  type State = bv6

  const GALOIS_POLY: State := 0x30
  const GALOIS_SEED: State := 0x20
  const FIBO_SEED: State := 0x3F

  function Wire(bit: bool): State { if bit then 1 else 0 }

  function Lsb(s: State): bool { s & 1 == 1 }

  function GaloisStep(crc: State, bit: bool): State {
    if Lsb(crc) != bit then (crc >> 1) ^ GALOIS_POLY else crc >> 1
  }

  /** The taps of polynomial 0x03 are state bits 0 and 1. */
  function FiboStep(s: State, bit: bool): State {
    (s >> 1) | (((s ^ (s >> 1) ^ Wire(bit)) & 1) << 5)
  }

  function Galois(crc: State, bits: seq<bool>): State
    decreases |bits|
  {
    if bits == [] then crc else GaloisStep(Galois(crc, bits[..|bits| - 1]), bits[|bits| - 1])
  }

  function Fibo(s: State, bits: seq<bool>): State
    decreases |bits|
  {
    if bits == [] then s else FiboStep(Fibo(s, bits[..|bits| - 1]), bits[|bits| - 1])
  }

  /** The generator's value for a payload, and the checker's verdict on a string. */
  function Crc(bits: seq<bool>): State { Galois(GALOIS_SEED, bits) }
  predicate ResidueOk(bits: seq<bool>) { Fibo(FIBO_SEED, bits) == 0 }

  function Lsb6(crc: State): (t: seq<bool>)
    ensures |t| == 6
  {
    [Lsb(crc), Lsb(crc >> 1), Lsb(crc >> 2), Lsb(crc >> 3), Lsb(crc >> 4), Lsb(crc >> 5)]
  }

  // ---------------------------------------------------------------- loops

  method ComputeCrc(bits: seq<bool>) returns (crc: State)
    ensures crc == Crc(bits)
  {
    crc := GALOIS_SEED;
    for i := 0 to |bits|
      invariant crc == Galois(GALOIS_SEED, bits[..i])
    {
      var feedback := Lsb(crc) != bits[i];
      crc := crc >> 1;
      if feedback {
        crc := crc ^ GALOIS_POLY;
      }
      assert bits[..i + 1][..i] == bits[..i];
    }
    assert bits[..|bits|] == bits;
  }

  /** The tap mask of the checker's polynomial, bit by bit. */
  predicate Tapped(tap: nat) { tap < 2 }

  method CheckResidue(bits: seq<bool>) returns (ok: bool)
    ensures ok <==> ResidueOk(bits)
  {
    var state: State := FIBO_SEED;
    for i := 0 to |bits|
      invariant state == Fibo(FIBO_SEED, bits[..i])
    {
      var feedback := bits[i];
      for tap := 0 to 6
        invariant feedback == (bits[i]
                               != ((tap > 0 && Lsb(state)) != (tap > 1 && Lsb(state >> 1))))
      {
        if Tapped(tap) {
          feedback := feedback != Lsb(state >> tap);
        }
      }
      state := (state >> 1) | (if feedback then 0x20 else 0);
      assert bits[..i + 1][..i] == bits[..i];
    }
    assert bits[..|bits|] == bits;
    ok := state == 0;
  }

  // ------------------------------------------------- the two LFSRs agree

  /** The generator's state is a fixed linear image of the checker's, seeds included. */
  lemma {:induction false} Coupled(bits: seq<bool>)
    ensures Crc(bits) == Fibo(FIBO_SEED, bits) ^ (Fibo(FIBO_SEED, bits) >> 1)
  {
    if bits != [] {
      Coupled(bits[..|bits| - 1]);
    }
  }

  lemma {:induction false} FiboConcat(s: State, a: seq<bool>, b: seq<bool>)
    ensures Fibo(s, a + b) == Fibo(Fibo(s, a), b)
    decreases |b|
  {
    if b == [] {
      assert a + b == a;
    } else {
      var n := |b| - 1;
      assert (a + b)[..|a + b| - 1] == a + b[..n];
      FiboConcat(s, a, b[..n]);
    }
  }

  lemma {:induction false} FiboThree(s: State, t: seq<bool>)
    requires |t| == 3
    ensures Fibo(s, t) == FiboStep(FiboStep(FiboStep(s, t[0]), t[1]), t[2])
  {
    assert t[..2][..1] == t[..1] && t[..1][..0] == [];
    assert Fibo(s, t[..1]) == FiboStep(s, t[0]);
  }

  /** Six steps spelled out, last bit outermost. */
  lemma {:induction false} FiboSix(s: State, t: seq<bool>)
    requires |t| == 6
    ensures Fibo(s, t) == FiboStep(FiboStep(FiboStep(FiboStep(FiboStep(FiboStep(s,
                            t[0]), t[1]), t[2]), t[3]), t[4]), t[5])
  {
    assert t == t[..3] + t[3..];
    FiboConcat(s, t[..3], t[3..]);
    FiboThree(s, t[..3]);
    FiboThree(Fibo(s, t[..3]), t[3..]);
  }

  /** Every payload is accepted with exactly one trailer: the generator's value, LSB first. */
  lemma ExactlyOneTrailer(payload: seq<bool>, trailer: seq<bool>)
    requires |trailer| == 6
    ensures ResidueOk(payload + trailer) <==> trailer == Lsb6(Crc(payload))
  {
    FiboConcat(FIBO_SEED, payload, trailer);
    Coupled(payload);
    var f := Fibo(FIBO_SEED, payload);
    FiboSix(f, trailer);
    var c := Lsb6(f ^ (f >> 1));
    assert trailer == c <==> forall i :: 0 <= i < 6 ==> trailer[i] == c[i];
  }

  // ------------------------------------------------------ error detection

  function Xor(a: seq<bool>, b: seq<bool>): (r: seq<bool>)
    requires |a| == |b|
    ensures |r| == |a|
    ensures forall i :: 0 <= i < |a| ==> r[i] == (a[i] != b[i])
  {
    seq(|a|, i requires 0 <= i < |a| => a[i] != b[i])
  }

  lemma StepLinear(s: State, a: bool, t: State, b: bool)
    ensures FiboStep(s ^ t, a != b) == FiboStep(s, a) ^ FiboStep(t, b)
  {
  }

  lemma XorPrefix(a: seq<bool>, b: seq<bool>, n: nat)
    requires |a| == |b| && n < |a|
    ensures Xor(a, b)[..n] == Xor(a[..n], b[..n])
    ensures Xor(a, b)[n] == (a[n] != b[n])
  {
  }

  lemma FiboLinearStep(s: State, a: seq<bool>, t: State, b: seq<bool>, c: seq<bool>, n: nat)
    requires |a| == |b| == |c| == n + 1 && c[n] == (a[n] != b[n])
    requires Fibo(s ^ t, c[..n]) == Fibo(s, a[..n]) ^ Fibo(t, b[..n])
    ensures Fibo(s ^ t, c) == Fibo(s, a) ^ Fibo(t, b)
  {
    StepLinear(Fibo(s, a[..n]), a[n], Fibo(t, b[..n]), b[n]);
  }

  lemma {:induction false} FiboLinear(s: State, a: seq<bool>, t: State, b: seq<bool>)
    requires |a| == |b|
    ensures Fibo(s ^ t, Xor(a, b)) == Fibo(s, a) ^ Fibo(t, b)
    decreases |a|
  {
    if a != [] {
      var n := |a| - 1;
      XorPrefix(a, b, n);
      FiboLinear(s, a[..n], t, b[..n]);
      FiboLinearStep(s, a, t, b, Xor(a, b), n);
    }
  }

  /** Whether damage `e` to an accepted string goes unnoticed depends on `e` alone. */
  lemma {:induction false} UndetectedIffZeroSyndrome(b: seq<bool>, e: seq<bool>)
    requires |b| == |e| && ResidueOk(b)
    ensures ResidueOk(Xor(b, e)) <==> Fibo(0, e) == 0
  {
    FiboLinear(FIBO_SEED, b, 0, e);
    assert FIBO_SEED ^ 0 == FIBO_SEED;
  }

  function Zeros(n: nat): (z: seq<bool>)
    ensures |z| == n
  {
    seq(n, _ => false)
  }

  lemma {:induction false} ZerosKeepZero(n: nat)
    ensures Fibo(0, Zeros(n)) == 0
  {
    if n > 0 {
      assert Zeros(n)[..n - 1] == Zeros(n - 1);
      ZerosKeepZero(n - 1);
    }
  }

  lemma {:induction false} ZerosKeepNonzero(s: State, n: nat)
    requires s != 0
    ensures Fibo(s, Zeros(n)) != 0
  {
    if n > 0 {
      assert Zeros(n)[..n - 1] == Zeros(n - 1);
      ZerosKeepNonzero(s, n - 1);
    }
  }

  /** A burst: every damaged bit lies among six consecutive positions. */
  lemma DetectsBursts(b: seq<bool>, before: nat, burst: seq<bool>, after: nat)
    requires |b| == before + 6 + after && |burst| == 6
    requires exists i :: 0 <= i < 6 && burst[i]
    requires ResidueOk(b)
    ensures !ResidueOk(Xor(b, Zeros(before) + burst + Zeros(after)))
  {
    UndetectedIffZeroSyndrome(b, Zeros(before) + burst + Zeros(after));
    FiboConcat(0, Zeros(before) + burst, Zeros(after));
    FiboConcat(0, Zeros(before), burst);
    ZerosKeepZero(before);
    FiboSix(0, burst);
    ZerosKeepNonzero(Fibo(0, burst), after);
  }

  /** One flipped bit anywhere. */
  lemma DetectsSingleFlip(b: seq<bool>, i: nat)
    requires i < |b| && ResidueOk(b)
    ensures !ResidueOk(b[i := !b[i]])
  {
    var after := |b| - i - 1;
    var e := Zeros(i) + [true] + Zeros(after);
    assert Xor(b, e) == b[i := !b[i]];
    UndetectedIffZeroSyndrome(b, e);
    FiboConcat(0, Zeros(i) + [true], Zeros(after));
    FiboConcat(0, Zeros(i), [true]);
    ZerosKeepZero(i);
    assert [true][..0] == [];
    assert Fibo(0, [true]) == FiboStep(0, true);
    ZerosKeepNonzero(0x20, after);
  }

  // Two flipped bits: the state left by the first walks the register's cycle.

  function Walk(s: State): State { FiboStep(s, false) }

  function After(s: State, n: nat): State {
    if n == 0 then s else Walk(After(s, n - 1))
  }

  lemma {:induction false} AfterIsFibo(s: State, n: nat)
    ensures Fibo(s, Zeros(n)) == After(s, n)
  {
    if n > 0 {
      assert Zeros(n)[..n - 1] == Zeros(n - 1);
      AfterIsFibo(s, n - 1);
    }
  }

  lemma {:induction false} AfterAdds(s: State, m: nat, n: nat)
    ensures After(s, m + n) == After(After(s, m), n)
  {
    if n > 0 {
      AfterAdds(s, m, n - 1);
    }
  }

  /** Nine steps from `s` reach `t` and pass `avoid` on none of the first eight. */
  predicate NineTo(s: State, t: State, avoid: State) {
    var s1 := Walk(s);  var s2 := Walk(s1); var s3 := Walk(s2);
    var s4 := Walk(s3); var s5 := Walk(s4); var s6 := Walk(s5);
    var s7 := Walk(s6); var s8 := Walk(s7);
    && avoid !in {s1, s2, s3, s4, s5, s6, s7, s8}
    && t == Walk(s8)
  }

  lemma {:induction false} NineSteps(s: State, t: State, avoid: State, n: nat)
    requires NineTo(s, t, avoid) && n <= 9
    ensures 0 < n < 9 ==> After(s, n) != avoid
    ensures After(s, 9) == t
  {
    var s1 := Walk(s);  var s2 := Walk(s1); var s3 := Walk(s2);
    var s4 := Walk(s3); var s5 := Walk(s4); var s6 := Walk(s5);
    var s7 := Walk(s6); var s8 := Walk(s7);
    assert After(s, 1) == s1; assert After(s, 2) == s2; assert After(s, 3) == s3;
    assert After(s, 4) == s4; assert After(s, 5) == s5; assert After(s, 6) == s6;
    assert After(s, 7) == s7; assert After(s, 8) == s8; assert After(s, 9) == t;
  }

  /** Where the lap is after every ninth step. */
  function Milestone(k: nat): State
    requires k <= 7
  {
    [0x20, 0x06, 0x3C, 0x1C, 0x1A, 0x26, 0x3A, 0x20][k]
  }

  lemma NextMilestone(k: nat)
    requires k < 7
    ensures NineTo(Milestone(k), Milestone(k + 1), 0x20)
  {
  }

  lemma {:induction false} Milestones(k: nat)
    requires k <= 7
    ensures After(0x20, 9 * k) == Milestone(k)
  {
    if k > 0 {
      Milestones(k - 1);
      NextMilestone(k - 1);
      NineSteps(Milestone(k - 1), Milestone(k), 0x20, 9);
      AfterAdds(0x20, 9 * (k - 1), 9);
    }
  }

  /** The first lap: 63 steps return to the start, none sooner. */
  lemma {:induction false} FirstLap(n: nat)
    requires n <= 63
    ensures After(0x20, n) == 0x20 <==> n == 0 || n == 63
  {
    var k, r := n / 9, n % 9;
    assert n == 9 * k + r;
    Milestones(k);
    AfterAdds(0x20, 9 * k, r);
    if k < 7 {
      NextMilestone(k);
      NineSteps(Milestone(k), Milestone(k + 1), 0x20, r);
      assert r == 0 ==> (Milestone(k) == 0x20 <==> k == 0);
    }
  }

  lemma {:induction false} Laps(n: nat)
    ensures After(0x20, n) == 0x20 <==> n % 63 == 0
    decreases n
  {
    if n <= 63 {
      FirstLap(n);
    } else {
      FirstLap(63);
      AfterAdds(0x20, 63, n - 63);
      Laps(n - 63);
    }
  }

  /** Two flipped bits escape exactly when their distance is a multiple of 63. */
  lemma DoubleFlips(b: seq<bool>, i: nat, j: nat)
    requires i < j < |b| && ResidueOk(b)
    ensures ResidueOk(b[i := !b[i]][j := !b[j]]) <==> (j - i) % 63 == 0
  {
    var gap, after := j - i - 1, |b| - j - 1;
    var head := Zeros(i) + [true] + Zeros(gap);
    var e := head + [true] + Zeros(after);
    assert Xor(b, e) == b[i := !b[i]][j := !b[j]];
    UndetectedIffZeroSyndrome(b, e);
    FiboConcat(0, head + [true], Zeros(after));
    FiboConcat(0, head, [true]);
    FiboConcat(0, Zeros(i) + [true], Zeros(gap));
    FiboConcat(0, Zeros(i), [true]);
    ZerosKeepZero(i);
    ZerosKeepZero(after);
    AfterIsFibo(0x20, gap);
    Laps(gap + 1);
    var mid := Fibo(0x20, Zeros(gap));
    assert [true][..0] == [];
    assert Fibo(0, [true]) == 0x20;
    assert Fibo(mid, [true]) == FiboStep(mid, true);
    SecondFlip(mid);
    if Fibo(mid, [true]) != 0 {
      ZerosKeepNonzero(Fibo(mid, [true]), after);
    }
  }

  lemma SecondFlip(mid: State)
    ensures FiboStep(mid, true) == 0 <==> FiboStep(mid, false) == 0x20
  {
  }

  // ------------------------------------------------------- what the seeds are for

  lemma WalkOneToOne(s: State, t: State)
    requires Walk(s) == Walk(t)
    ensures s == t
  {
  }

  lemma {:induction false} AfterOneToOne(s: State, t: State, n: nat)
    requires After(s, n) == After(t, n)
    ensures s == t
  {
    if n > 0 {
      WalkOneToOne(After(s, n - 1), After(t, n - 1));
      AfterOneToOne(s, t, n - 1);
    }
  }

  lemma {:induction false} SeedOnTheWay()
    ensures After(0x20, 57) == FIBO_SEED
  {
    Milestones(6);
    AfterAdds(0x20, 54, 3);
    assert After(0x3A, 1) == Walk(0x3A) && After(0x3A, 2) == Walk(Walk(0x3A));
    assert After(0x3A, 3) == Walk(Walk(Walk(0x3A)));
  }

  /** Zeros in front of an accepted string are noticed, up to a whole lap of them. */
  lemma {:induction false} LeadingZerosSeen(b: seq<bool>, k: nat)
    requires ResidueOk(b)
    ensures ResidueOk(Zeros(k) + b) <==> k % 63 == 0
  {
    var s := After(FIBO_SEED, k);
    FiboConcat(FIBO_SEED, Zeros(k), b);
    AfterIsFibo(FIBO_SEED, k);
    SeedOnTheWay();
    AfterAdds(0x20, 57, k);
    AfterAdds(0x20, k, 57);
    Laps(k);
    if s == FIBO_SEED {
      AfterOneToOne(After(0x20, k), 0x20, 57);
    }
    if Fibo(s, b) == 0 {
      FiboLinear(s, b, FIBO_SEED, b);
      assert Xor(b, b) == Zeros(|b|);
      if s ^ FIBO_SEED != 0 {
        ZerosKeepNonzero(s ^ FIBO_SEED, |b|);
      }
    }
  }

  // ------------------------------------------------------------- as polynomials

  /** 1 + x^5 + x^6, in powers of one bit's delay. */
  const GENERATOR: seq<bool> := [true, false, false, false, false, true, true]

  /** What the register has taken in at each bit. */
  function Taken(bits: seq<bool>): (w: seq<bool>)
    ensures |w| == |bits|
    decreases |bits|
  {
    if bits == [] then [] else Taken(bits[..|bits| - 1]) + [Lsb6(Fibo(FIBO_SEED, bits))[5]]
  }

  /** Six ones, then that. */
  predicate Ahead(w: seq<bool>, e: nat) { e < 6 || (e - 6 < |w| && w[e - 6]) }

  lemma StepLsb6(s: State, b: bool)
    ensures
      var x, y := Lsb6(s), Lsb6(FiboStep(s, b));
      && y[0] == x[1] && y[1] == x[2] && y[2] == x[3] && y[3] == x[4] && y[4] == x[5]
      && (y[5] <==> (x[0] != x[1]) != b)
  {
  }

  /** The register is the last six of those. */
  lemma {:induction false} RegisterHolds(bits: seq<bool>)
    ensures forall j: nat :: j < 6 ==> Lsb6(Fibo(FIBO_SEED, bits))[j] == Ahead(Taken(bits), |bits| + j)
    decreases |bits|
  {
    if bits != [] {
      var n := |bits| - 1;
      RegisterHolds(bits[..n]);
      StepLsb6(Fibo(FIBO_SEED, bits[..n]), bits[n]);
      var s, x, w := Lsb6(Fibo(FIBO_SEED, bits)), Lsb6(Fibo(FIBO_SEED, bits[..n])), Taken(bits[..n]);
      assert forall e: nat :: e < n + 6 ==> Ahead(Taken(bits), e) == Ahead(w, e);
      assert s[0] == x[1] && s[1] == x[2] && s[2] == x[3] && s[3] == x[4] && s[4] == x[5];
    }
  }

  /** Each bit, from what was taken in then and before. */
  lemma {:induction false} BitIs(bits: seq<bool>, t: nat)
    requires t < |bits|
    ensures
      var w := Taken(bits);
      bits[t] == ((w[t] != Ahead(w, t)) != Ahead(w, t + 1))
    decreases |bits|
  {
    var n := |bits| - 1;
    var w := Taken(bits[..n]);
    assert forall e: nat :: e < n + 6 ==> Ahead(Taken(bits), e) == Ahead(w, e);
    if t < n {
      BitIs(bits[..n], t);
    } else {
      RegisterHolds(bits[..n]);
      StepLsb6(Fibo(FIBO_SEED, bits[..n]), bits[n]);
      var x := Lsb6(Fibo(FIBO_SEED, bits[..n]));
      assert x[0] == Ahead(w, n) && x[1] == Ahead(w, n + 1);
    }
  }

  predicate Coefficient(q: seq<bool>, t: int) { 0 <= t < |q| && q[t] }

  lemma {:induction false} ProductIs(q: seq<bool>, t: nat)
    ensures Product(q, GENERATOR, t)
         == ((Coefficient(q, t) != Coefficient(q, t - 5)) != Coefficient(q, t - 6))
  {
    if q != [] {
      ProductIs(q[..|q| - 1], t);
    }
  }

  lemma ZeroState(s: State)
    ensures s == 0 <==> forall j :: 0 <= j < 6 ==> !Lsb6(s)[j]
  {
    assert s == 0 <==> !Lsb(s) && !Lsb(s >> 1) && !Lsb(s >> 2) && !Lsb(s >> 3) && !Lsb(s >> 4) && !Lsb(s >> 5);
    var l := Lsb6(s);
    assert l[0] == Lsb(s) && l[1] == Lsb(s >> 1) && l[2] == Lsb(s >> 2);
    assert l[3] == Lsb(s >> 3) && l[4] == Lsb(s >> 4) && l[5] == Lsb(s >> 5);
  }

  function SixthFlipped(b: seq<bool>): seq<bool> { if |b| < 6 then b else b[5 := !b[5]] }

  /** What was taken in is the quotient, as far as that goes. */
  lemma {:induction false} TakenIsQuotient(b: seq<bool>, q: seq<bool>, t: nat)
    requires |b| >= 6 && IsQuotient(q, GENERATOR, SixthFlipped(b)) && t < |b|
    ensures Taken(b)[t] == Coefficient(q, t)
    decreases t
  {
    BitIs(b, t);
    ProductIs(q, t);
    if t >= 5 {
      TakenIsQuotient(b, q, t - 5);
    }
    if t >= 6 {
      TakenIsQuotient(b, q, t - 6);
    }
  }

  predicate NothingLeft(w: seq<bool>, n: nat) { forall e: nat :: n <= e < n + 6 ==> !Ahead(w, e) }

  lemma {:induction false} ResidueIs(b: seq<bool>)
    ensures ResidueOk(b) <==> NothingLeft(Taken(b), |b|)
  {
    var s, w := Fibo(FIBO_SEED, b), Taken(b);
    RegisterHolds(b);
    ZeroState(s);
    if s == 0 {
      forall e: nat | |b| <= e < |b| + 6 ensures !Ahead(w, e) {
        assert !Lsb6(s)[e - |b|];
      }
    }
    if NothingLeft(w, |b|) {
      forall j | 0 <= j < 6 ensures !Lsb6(s)[j] {
        assert !Ahead(w, |b| + j);
      }
    }
  }

  /** The accepted strings, without a register: those of six bits or more that are a multiple of
      the generator once their sixth bit is turned. */
  lemma {:induction false} AcceptedIffMultiple(b: seq<bool>)
    ensures ResidueOk(b) <==> |b| >= 6 && Divides(GENERATOR, SixthFlipped(b))
  {
    ResidueIs(b);
    if ResidueOk(b) {
      assert !Ahead(Taken(b), |b|);
      QuotientTaken(b);
    }
    if |b| >= 6 && Divides(GENERATOR, SixthFlipped(b)) {
      var q: seq<bool> :| IsQuotient(q, GENERATOR, SixthFlipped(b));
      forall e: nat | |b| <= e < |b| + 6 ensures !Ahead(Taken(b), e) {
        TakenIsQuotient(b, q, e - 6);
      }
    }
  }

  lemma {:induction false} QuotientTaken(b: seq<bool>)
    requires |b| >= 6 && NothingLeft(Taken(b), |b|)
    ensures Divides(GENERATOR, SixthFlipped(b))
  {
    var w, n := Taken(b), |b|;
    var q := w[..n - 6];
    forall t: nat | t < n ensures Product(q, GENERATOR, t) == SixthFlipped(b)[t] {
      BitIs(b, t);
      ProductIs(q, t);
      assert t >= n - 6 ==> !Ahead(w, t + 6);
    }
    assert IsQuotient(q, GENERATOR, SixthFlipped(b));
  }
}
