/**
 * The integer conversions of the grid code on exact reals: `static_cast<int>` truncates
 * toward zero, `ceil` rounds up, `fabs` drops the sign; and the facts about division by
 * a positive cell size that the grid lemmas need.
 */
module GridArith {

  /** `static_cast<int>(x)`: truncation toward zero. */
  function Trunc(x: real): (n: int)
    ensures x >= 0.0 ==> n >= 0 && n as real <= x < n as real + 1.0
    ensures x < 0.0 ==> n <= 0 && n as real - 1.0 < x <= n as real
  {
    if x >= 0.0 then x.Floor else -((-x).Floor)
  }

  /** `ceil(x)`: the least integer not below `x`. */
  function Ceil(x: real): (n: int)
    ensures n as real - 1.0 < x <= n as real
  {
    if x.Floor as real == x then x.Floor else x.Floor + 1
  }

  /** `fabs(x)`. */
  function Abs(x: real): (r: real)
    ensures r >= 0.0 && (r == x || r == -x)
  {
    if x < 0.0 then -x else x
  }

  /** The number of loop rounds `for (int i = 0; i < n; i++)` makes. */
  function Rounds(n: int): (r: nat)
    ensures n > 0 ==> r == n
    ensures n <= 0 ==> r == 0
  {
    if n > 0 then n else 0
  }

  /** Dividing by a positive number keeps a strict order. */
  lemma DivLess(a: real, b: real, d: real)
    requires d > 0.0 && a < b
    ensures a / d < b / d
  {
  }

  /** Dividing by a positive number keeps a weak order. */
  lemma DivAtMost(a: real, b: real, d: real)
    requires d > 0.0 && a <= b
    ensures a / d <= b / d
  {
  }

  /** Bounds on a quotient give bounds on the dividend. */
  lemma TimesBack(x: real, d: real, k: real)
    requires d > 0.0
    ensures k <= x / d ==> k * d <= x
    ensures x / d < k ==> x < k * d
    ensures x / d <= k ==> x <= k * d
  {
  }

  /** A point strictly below `hi`, where `[lo, hi]` is at most `n` bands of width `d`,
      lies in a band whose truncated index is below `n`. */
  lemma BandBelow(lo: real, x: real, hi: real, d: real, n: int, i: int)
    requires d > 0.0 && lo <= x < hi && hi - lo <= n as real * d
    requires i as real <= (x - lo) / d
    ensures i < n
  {
    DivLess(x - lo, hi - lo, d);
    assert (hi - lo) / d <= n as real by {
      TimesBack(hi - lo, d, n as real);
    }
  }

  /** The next multiple of `d`. */
  lemma NextMultiple(i: int, d: real)
    ensures (i + 1) as real * d == i as real * d + d
  {
  }

  /** Row-major numbering `i * n + j` with `0 <= j < n` is one-to-one. */
  lemma RowMajorInjective(i: int, j: int, i': int, j': int, n: int)
    requires 0 <= j < n && 0 <= j' < n
    requires i * n + j == i' * n + j'
    ensures i == i' && j == j'
  {
    if i < i' {
      MulAtMost(i + 1, i', n);
    } else if i' < i {
      MulAtMost(i' + 1, i, n);
    }
  }

  /** Multiplying by a non-negative number keeps a weak order. */
  lemma MulAtMost(a: int, b: int, n: int)
    requires a <= b && n >= 0
    ensures a * n <= b * n
  {
  }

  /** Row-major numbers of an `m` by `n` block run from 0 to `m * n - 1`. */
  lemma RowMajorRange(i: int, j: int, m: int, n: int)
    requires 0 <= i < m && 0 <= j < n
    ensures 0 <= i * n + j < m * n
  {
    MulAtMost(i, m - 1, n);
    MulAtMost(0, i, n);
  }
}
