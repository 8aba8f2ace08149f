/** Division facts the solver does not find by itself. */
module Arith {

  lemma MulMono(m: nat, a: nat, b: nat)
    requires a <= b
    ensures m * a <= m * b
    ensures m * (a + 1) == m * a + m
  {
  }

  lemma DivModUnique(v: nat, m: nat, q: nat, r: nat)
    requires r < m && v == m * q + r
    ensures v / m == q && v % m == r
  {
    var q' := v / m;
    assert v == m * q' + v % m;
    if q < q' {
      MulMono(m, q + 1, q');
    } else if q' < q {
      MulMono(m, q' + 1, q);
    }
  }

  lemma ModMultiple(x: nat, q: nat, m: nat)
    requires m > 0
    ensures (m * q + x) % m == x % m && (m * q + x) / m == q + x / m
  {
    var v := m * q + x;
    assert x == m * (x / m) + x % m;
    assert m * (q + x / m) == m * q + m * (x / m);
    DivModUnique(v, m, q + x / m, x % m);
  }

  lemma ModAdds(a: nat, b: nat, m: nat)
    requires m > 0
    ensures (a % m + b) % m == (a + b) % m
  {
    assert a + b == m * (a / m) + (a % m + b);
    ModMultiple(a % m + b, a / m, m);
  }

  /** x % m by repeated subtraction: where the divisor is not a constant, this keeps the
      arithmetic around it linear. */
  function Mod(x: nat, m: nat): (r: nat)
    requires m > 0
    ensures r < m && r <= x
  {
    if x < m then x else Mod(x - m, m)
  }

  lemma {:induction false} ModIsRemainder(x: nat, m: nat)
    requires m > 0
    ensures Mod(x, m) == x % m
  {
    if x < m {
      DivModUnique(x, m, 0, x);
    } else {
      ModIsRemainder(x - m, m);
      ModMultiple(x - m, 1, m);
    }
  }

  lemma {:induction false} ModSum(a: nat, b: nat, m: nat)
    requires m > 0
    ensures Mod(Mod(a, m) + b, m) == Mod(a + b, m)
  {
    if a >= m {
      ModSum(a - m, b, m);
      assert Mod(a + b, m) == Mod(a + b - m, m);
    }
  }

  /** What (b mod m + m - a mod m) mod m says of the distance from a to b. */
  lemma {:induction false} ModDistance(a: nat, d: nat, m: nat)
    requires m > 0
    ensures Mod(Mod(a + d, m) + m - Mod(a, m), m) == Mod(d, m)
  {
    if a >= m {
      ModDistance(a - m, d, m);
    } else if d >= m {
      ModDistance(a, d - m, m);
      assert Mod(a + d, m) == Mod(a + d - m, m);
    }
  }

  /** Whole laps do not move a slot. */
  lemma {:induction false} ModLaps(a: nat, d: nat, m: nat)
    requires m > 0
    ensures Mod(a + d - Mod(d, m), m) == Mod(a, m)
  {
    if d >= m {
      ModLaps(a, d - m, m);
      var x := a + (d - m) - Mod(d - m, m);
      assert Mod(x + m, m) == Mod(x, m);
    }
  }

  /** Counters less than a lap apart are in different slots. */
  lemma {:induction false} ModApart(a: nat, b: nat, m: nat)
    requires a < b < a + m
    ensures Mod(a, m) != Mod(b, m)
  {
    ModDistance(a, b - a, m);
  }

  /** One step round the ring, by comparison instead of division. */
  lemma ModStep(a: nat, m: nat)
    requires m > 0
    ensures Mod(a + 1, m) == if Mod(a, m) + 1 == m then 0 else Mod(a, m) + 1
  {
    ModSum(a, 1, m);
  }
}
