/** Polynomials over the field of two elements, as their coefficients from the highest down:
    what a CRC is a remainder of. */
module Polynomials {

  /** The product's coefficient t places below its highest. */
  function Product(q: seq<bool>, g: seq<bool>, t: nat): bool {
    if q == [] then false
    else var n := |q| - 1; Product(q[..n], g, t) != (n <= t < n + |g| && q[n] && g[t - n])
  }

  /** b is q times g. */
  predicate IsQuotient(q: seq<bool>, g: seq<bool>, b: seq<bool>) {
    |b| + 1 == |q| + |g| && forall t: nat :: t < |b| ==> Product(q, g, t) == b[t]
  }

  ghost predicate Divides(g: seq<bool>, b: seq<bool>) { exists q: seq<bool> :: IsQuotient(q, g, b) }

  /** b with its first n bits turned. */
  function Flipped(b: seq<bool>, n: nat): (r: seq<bool>)
    ensures |r| == |b| && forall t :: 0 <= t < |b| ==> r[t] == (b[t] != (t < n))
  {
    seq(|b|, t requires 0 <= t < |b| => b[t] != (t < n))
  }

  /** Terms too low to reach a coefficient do not count. */
  lemma {:induction false} LowTerms(q: seq<bool>, g: seq<bool>, t: nat)
    requires t < |q|
    ensures Product(q, g, t) == Product(q[..t + 1], g, t)
    decreases |q|
  {
    var n := |q| - 1;
    if t < n {
      LowTerms(q[..n], g, t);
      assert q[..n][..t + 1] == q[..t + 1];
    } else {
      assert q[..t + 1] == q;
    }
  }

  /** The terms up to the t-th: the last one, and those before it. */
  lemma {:induction false} TopTerm(q: seq<bool>, g: seq<bool>, t: nat)
    requires t < |q| && g != [] && g[0]
    ensures Product(q, g, t) == (Product(q[..t], g, t) != q[t])
  {
    LowTerms(q, g, t);
    assert q[..t + 1][..t] == q[..t];
  }

  lemma {:induction false} NoTerms(q: seq<bool>, g: seq<bool>, t: nat)
    requires t + 1 >= |q| + |g|
    ensures !Product(q, g, t)
    decreases |q|
  {
    if q != [] {
      NoTerms(q[..|q| - 1], g, t);
    }
  }

  lemma {:induction false} OneMoreTerm(q: seq<bool>, b: bool, g: seq<bool>, t: nat)
    ensures Product(q + [b], g, t) == (Product(q, g, t) != (|q| <= t < |q| + |g| && b && g[t - |q|]))
  {
    assert (q + [b])[..|q|] == q;
  }

  /** High coefficients of a product are only the quotient's: equal ones mean equal quotients. */
  lemma {:induction false} SameQuotient(p: seq<bool>, q: seq<bool>, g: seq<bool>)
    requires |p| == |q| && g != [] && g[0] && forall t: nat :: t < |p| ==> Product(p, g, t) == Product(q, g, t)
    ensures p == q
    decreases |p|
  {
    if p != [] {
      var n := |p| - 1;
      forall t: nat | t < n ensures Product(p[..n], g, t) == Product(q[..n], g, t) {
        LowTerms(p, g, t);
        LowTerms(q, g, t);
        LowTerms(p[..n], g, t);
        LowTerms(q[..n], g, t);
        assert p[..n][..t + 1] == p[..t + 1] && q[..n][..t + 1] == q[..t + 1];
      }
      SameQuotient(p[..n], q[..n], g);
      TopTerm(p, g, n);
      TopTerm(q, g, n);
    }
  }

  /** What makes a string divisible when added at its end is determined by it. */
  lemma {:induction false} OneRemainder(a: seq<bool>, r: seq<bool>, s: seq<bool>, g: seq<bool>, k: nat)
    requires g != [] && g[0] && |r| == |s| == |g| - 1
    requires Divides(g, Flipped(a + r, k)) && Divides(g, Flipped(a + s, k))
    ensures r == s
  {
    var x, y := Flipped(a + r, k), Flipped(a + s, k);
    var p: seq<bool> :| IsQuotient(p, g, x);
    var q: seq<bool> :| IsQuotient(q, g, y);
    forall t: nat | t < |p| ensures Product(p, g, t) == Product(q, g, t) {
      assert x[t] == y[t];
    }
    SameQuotient(p, q, g);
    forall j | 0 <= j < |r| ensures r[j] == s[j] {
      assert x[|a| + j] == Product(p, g, |a| + j) == y[|a| + j];
    }
  }
}
