/**
 * Integer facts the board and the heuristics lean on: the floor square root that
 * stands in for `int(math.sqrt(n))`, Python's negative list indices, and the
 * uniqueness of quotient and remainder.
 */
module Arith {

  /** `int(math.sqrt(n))`: the largest `r` with `r * r <= n`. */
  function ISqrt(n: nat): (r: nat)
    ensures r * r <= n < (r + 1) * (r + 1)
  {
    if n == 0 then 0
    else
      var r := ISqrt(n - 1);
      if (r + 1) * (r + 1) <= n then
        assert (r + 2) * (r + 2) == (r + 1) * (r + 1) + 2 * r + 3;
        r + 1
      else r
  }

  /** The floor square root of a perfect square is its side. */
  lemma ISqrtOfSquare(s: nat)
    ensures ISqrt(s * s) == s
  {
    var r := ISqrt(s * s);
    if r < s {
      assert r + 1 <= s;
      MulMonotone(r + 1, s);
    } else if r > s {
      assert s + 1 <= r;
      MulMonotone(s + 1, r);
    }
  }

  lemma MulMonotone(a: nat, b: nat)
    requires a <= b
    ensures a * a <= b * b
  {
    assert a * a <= a * b <= b * b;
  }

  /** `xs[i]` in Python is defined for `-|xs| <= i < |xs|`. */
  predicate ValidIndex(i: int, n: nat)
  {
    0 <= i + n && i < n
  }

  /** The position Python reads for index `i` into a list of length `n`. */
  function PyIndex(i: int, n: nat): (j: nat)
    requires ValidIndex(i, n)
    ensures j < n
    ensures i >= 0 ==> j == i
    ensures i < 0 ==> j == i + n
  {
    if i < 0 then i + n else i
  }

  /** Quotient and remainder are unique: dividing `q * n + r` by `n` gives back `q` and `r`. */
  lemma DivModOf(q: int, r: int, n: int)
    requires n > 0 && 0 <= r < n
    ensures (q * n + r) / n == q
    ensures (q * n + r) % n == r
  {
    var x := q * n + r;
    var Q := x / n;
    var R := x % n;
    assert x == Q * n + R;
    if Q > q {
      MulAtLeast(Q - q, n);
      assert false;
    } else if Q < q {
      MulAtLeast(q - Q, n);
      assert false;
    }
  }

  lemma MulAtLeast(a: int, n: int)
    requires a >= 1 && n > 0
    ensures a * n >= n
  {
    assert a * n == (a - 1) * n + n;
    assert (a - 1) * n >= 0;
  }

  /** Every `x >= 0` splits as `(x / n) * n + x % n`, with the quotient below `m` when `x < m * n`. */
  lemma DivBound(x: int, n: int, m: int)
    requires n > 0 && 0 <= x < m * n
    ensures 0 <= x / n < m
  {
    var q := x / n;
    assert x == q * n + x % n;
    if q < 0 {
      MulAtLeast(-q, n);
      assert false;
    }
    if q >= m {
      MulAtLeast(q - m + 1, n);
      assert false;
    }
  }

  /** `x / n == q` exactly when `x` lies in `[q * n, q * n + n)`. */
  lemma DivIff(x: int, n: int, q: int)
    requires n > 0
    ensures x / n == q <==> q * n <= x < q * n + n
  {
    if q * n <= x < q * n + n {
      DivModOf(q, x - q * n, n);
    }
    assert x == (x / n) * n + x % n;
  }

  /** Moving one whole `n` between quotient and remainder. */
  lemma DivStep(t: int, n: int)
    requires n > 0 && t >= n
    ensures (t - n) / n == t / n - 1
    ensures (t - n) % n == t % n
  {
    assert t == (t / n) * n + t % n;
    DivModOf(t / n - 1, t % n, n);
    assert (t / n - 1) * n + t % n == t - n;
  }

  lemma MulLeft(a: int, b: int, n: nat)
    requires a <= b
    ensures a * n <= b * n
  {
    assert b * n - a * n == (b - a) * n;
  }

  /** For `n > 0`, `x / n >= m` exactly when `x >= m * n`. */
  lemma DivLower(x: int, n: int, m: int)
    requires n > 0
    ensures x / n >= m <==> x >= m * n
  {
    var q := x / n;
    assert x == q * n + x % n;
    if q >= m {
      assert q * n - m * n == (q - m) * n;
      MulLeft(0, q - m, n);
    } else {
      assert m * n - (q + 1) * n == (m - q - 1) * n;
      MulLeft(0, m - q - 1, n);
    }
  }
}
