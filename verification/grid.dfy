/**
  The sample grid: two evenly spaced axes with both endpoints included
  (`np.linspace`), combined into a height x width grid of complex samples
  c = x[col] + i*y[row] (`np.meshgrid` followed by `X + 1j * Y`).
 */
module Grid {
  import opened Orbits

  /** The viewed rectangle [xmin, xmax] x [ymin, ymax] of the complex plane. */
  datatype Rect = Rect(xmin: real, xmax: real, ymin: real, ymax: real)

  /**
    The j-th of n evenly spaced points from a to b: a plus j steps of
    (b - a) / (n - 1); the single point a when n == 1.
   */
  function LinspacePoint(a: real, b: real, n: nat, j: nat): real
  {
    if n <= 1 then a else a + (j as real) * ((b - a) / ((n - 1) as real))
  }

  /** `np.linspace(a, b, n)`: n points, the first a, the last b, evenly spaced. */
  function Linspace(a: real, b: real, n: nat): (xs: seq<real>)
    ensures |xs| == n
    ensures n >= 1 ==> xs[0] == a
    ensures n >= 2 ==> xs[n - 1] == b
  {
    if n >= 2 then
      MulDivCancel((n - 1) as real, b - a);
      seq(n, j requires 0 <= j < n => LinspacePoint(a, b, n, j))
    else
      seq(n, j requires 0 <= j < n => LinspacePoint(a, b, n, j))
  }

  /** n - 1 steps of (b - a) / (n - 1) cover the whole interval. */
  lemma MulDivCancel(d: real, w: real)
    requires d != 0.0
    ensures d * (w / d) == w
  {
  }

  /** Scaling by a non-negative factor keeps the order of 0 <= j <= d. */
  lemma ScaleBelow(j: real, d: real, s: real)
    requires 0.0 <= j <= d && 0.0 <= s
    ensures 0.0 <= j * s <= d * s
  {
    assert d * s - j * s == (d - j) * s;
  }

  /** At most d steps of w / d stay within [0, w]. */
  lemma StepsWithin(j: real, d: real, w: real)
    requires 0.0 <= j <= d && d > 0.0 && w >= 0.0
    ensures 0.0 <= j * (w / d) <= w
  {
    ScaleBelow(j, d, w / d);
    MulDivCancel(d, w);
  }

  /** Consecutive points are (b - a) / (n - 1) apart. */
  lemma LinspaceEvenlySpaced(a: real, b: real, n: nat, j: nat)
    requires j + 1 < n
    ensures Linspace(a, b, n)[j + 1] - Linspace(a, b, n)[j] == (b - a) / ((n - 1) as real)
  {
    var s := (b - a) / ((n - 1) as real);
    var xs := Linspace(a, b, n);
    assert xs[j] == a + (j as real) * s;
    assert xs[j + 1] == a + ((j + 1) as real) * s;
    assert ((j + 1) as real) * s == (j as real) * s + s;
  }

  /** For a <= b every point lies in [a, b]. */
  lemma LinspaceInRange(a: real, b: real, n: nat, j: nat)
    requires a <= b && j < n
    ensures a <= Linspace(a, b, n)[j] <= b
  {
    if n >= 2 {
      StepsWithin(j as real, (n - 1) as real, b - a);
      assert Linspace(a, b, n)[j] == a + (j as real) * ((b - a) / ((n - 1) as real));
    }
  }

  /** For an odd number of at least three points the middle one is the midpoint of [a, b]. */
  lemma LinspaceMiddle(a: real, b: real, n: nat)
    requires n >= 3 && n % 2 == 1
    ensures Linspace(a, b, n)[(n - 1) / 2] == (a + b) / 2.0
  {
    var j := (n - 1) / 2;
    assert (n - 1) as real == 2.0 * (j as real);
    HalfOfDouble(j as real, b - a);
    assert LinspacePoint(a, b, n, j) == a + (b - a) / 2.0;
  }

  /** Half of the 2j steps of w / (2j) cover half of w. */
  lemma HalfOfDouble(j: real, w: real)
    requires j > 0.0
    ensures j * (w / (2.0 * j)) == w / 2.0
  {
  }

  /** The sample `C[row, col]` of a height x width grid over the rectangle. */
  function Sample(rect: Rect, width: nat, height: nat, row: nat, col: nat): Complex
    requires row < height && col < width
  {
    Complex(Linspace(rect.xmin, rect.xmax, width)[col], Linspace(rect.ymin, rect.ymax, height)[row])
  }

  /** The four corners of the grid are the four corners of the rectangle. */
  lemma SampleCorners(rect: Rect, width: nat, height: nat)
    requires width >= 2 && height >= 2
    ensures Sample(rect, width, height, 0, 0).re == rect.xmin && Sample(rect, width, height, 0, 0).im == rect.ymin
    ensures Sample(rect, width, height, height - 1, width - 1).re == rect.xmax
    ensures Sample(rect, width, height, height - 1, width - 1).im == rect.ymax
    ensures Sample(rect, width, height, 0, width - 1).re == rect.xmax
    ensures Sample(rect, width, height, 0, width - 1).im == rect.ymin
    ensures Sample(rect, width, height, height - 1, 0).re == rect.xmin
    ensures Sample(rect, width, height, height - 1, 0).im == rect.ymax
  {
  }

  /** For ordered bounds every sample lies in the rectangle. */
  lemma SampleInRect(rect: Rect, width: nat, height: nat, row: nat, col: nat)
    requires row < height && col < width
    requires rect.xmin <= rect.xmax && rect.ymin <= rect.ymax
    ensures rect.xmin <= Sample(rect, width, height, row, col).re <= rect.xmax
    ensures rect.ymin <= Sample(rect, width, height, row, col).im <= rect.ymax
  {
    LinspaceInRange(rect.xmin, rect.xmax, width, col);
    LinspaceInRange(rect.ymin, rect.ymax, height, row);
  }
}
