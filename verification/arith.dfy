/** Small facts of integer arithmetic that the index computations rely on. */
module Arith {

  function Max(a: int, b: int): int { if a > b then a else b }
  function Min(a: int, b: int): int { if a < b then a else b }

  lemma MulAssoc(a: int, b: int, c: int)
    ensures a * b * c == a * (b * c)
  {
  }

  lemma MulNonneg(a: int, b: int)
    ensures a >= 0 && b >= 0 ==> a * b >= 0
  {
  }

  lemma MulMonotone(a: nat, b: nat, c: nat)
    requires b <= c
    ensures a * b <= a * c
  {
  }

  /** Quotient and remainder are the unique pair with `x == q * m + r`, `0 <= r < m`. */
  lemma DivModUnique(x: int, m: int, q: int, r: int)
    requires m > 0 && 0 <= r < m && x == q * m + r
    ensures x / m == q && x % m == r
  {
    var q0, r0 := x / m, x % m;
    var d := q - q0;
    assert d * m == r0 - r by {
      assert q * m - q0 * m == (q - q0) * m;
    }
    MulNonneg(d - 1, m);
    MulNonneg(-d - 1, m);
    assert d * m == (d - 1) * m + m;
    assert d * m == -((-d - 1) * m) - m;
  }

  lemma ModOfMultiplePlus(q: nat, m: nat, r: nat)
    requires 0 <= r < m
    ensures (q * m + r) % m == r
  {
    DivModUnique(q * m + r, m, q, r);
  }

  lemma DivOfMultiplePlus(x: nat, k: nat, h: nat)
    requires h >= 1
    ensures (x + k * h) / h == x / h + k
    ensures (x + k * h) % h == x % h
  {
    DivModUnique(x + k * h, h, x / h + k, x % h);
  }

  /** Shifting `x` by `8 * w * h` keeps `x % 8` and `(x / h) % w`. */
  lemma ShiftByPeriod(x: nat, w: nat, h: nat)
    requires w >= 1 && h >= 1
    ensures (x + 8 * w * h) % 8 == x % 8
    ensures ((x + 8 * w * h) / h) % w == (x / h) % w
  {
    ShiftKeepsBit(x, w, h);
    ShiftKeepsColumn(x, w, h);
  }

  lemma ShiftKeepsBit(x: nat, w: nat, h: nat)
    requires w >= 1 && h >= 1
    ensures (x + 8 * w * h) % 8 == x % 8
  {
    var k: nat := w * h;
    assert 8 * w * h == k * 8 by { MulAssoc(8, w, h); }
    DivOfMultiplePlus(x, k, 8);
  }

  lemma ShiftKeepsColumn(x: nat, w: nat, h: nat)
    requires w >= 1 && h >= 1
    ensures ((x + 8 * w * h) / h) % w == (x / h) % w
  {
    var k: nat := 8 * w;
    assert 8 * w * h == k * h;
    DivOfMultiplePlus(x, k, h);
    var q: nat := x / h;
    assert (x + k * h) / h == q + 8 * w;
    DivOfMultiplePlus(q, 8, w);
  }

  /** A multiple `k * m` that fits under `a` has `k` at most `a / m`. */
  lemma DivLowerBound(a: int, m: int, k: int)
    requires m >= 1 && k * m <= a
    ensures k <= a / m
  {
    var q := a / m;
    assert (k - q - 1) * m == k * m - q * m - m;
    MulNonneg(k - q - 1, m);
  }

  /** A positive multiple of `m` minus `m` is a multiple of `m`. */
  lemma MultipleStep(a: int, m: int)
    requires m >= 1 && a % m == 0 && a > 0
    ensures a >= m && (a - m) % m == 0
  {
    var q := a / m;
    assert a == q * m;
    MulNonneg(-q, m);
    assert (q - 1) * m == a - m;
    MulNonneg(q - 1, m);
    DivModUnique(a - m, m, q - 1, 0);
  }
  /** `b` is reached from `a` by steps of `m`, as a counter `for (t = a; ; t += m)` does. */
  predicate Reaches(a: int, b: int, m: int)
    requires m >= 1
    decreases b - a
  {
    a <= b && (a == b || Reaches(a + m, b, m))
  }

  /** One more step extends a walk. */
  lemma {:induction false} ReachesStep(a: int, b: int, m: int)
    requires m >= 1 && Reaches(a, b, m)
    ensures Reaches(a, b + m, m)
    decreases b - a
  {
    if a < b {
      ReachesStep(a + m, b, m);
    }
  }

  /** Every multiple of `m` is reached from zero. */
  lemma {:induction false} ReachesMultiple(t: nat, m: int)
    requires m >= 1 && t % m == 0
    ensures Reaches(0, t, m)
    decreases t
  {
    if t > 0 {
      MultipleStep(t, m);
      ReachesMultiple(t - m, m);
      ReachesStep(0, t - m, m);
    }
  }
}
