/**
 * The evaluation grid: the bounding box of the cases widened by a fixed
 * margin, and a 100 × 100 lattice over it (`np.mgrid[lo:hi:100j, ...]`)
 * flattened row-major into 10,000 points.
 */
module GridSampler {
  import opened Points

  /** Degrees added on each side of the cases' bounding box. */
  const Margin: real := 0.005
  /** Lattice points per axis, both endpoints included. */
  const Resolution: nat := 100
  const GridSize: nat := 10000

  /** An axis-aligned box in degrees. */
  datatype Box = Box(latMin: real, latMax: real, lonMin: real, lonMax: real)

  predicate StrictlyInside(b: Box, p: Point)
  {
    b.latMin < p.lat < b.latMax && b.lonMin < p.lon < b.lonMax
  }

  predicate Within(b: Box, p: Point)
  {
    b.latMin <= p.lat <= b.latMax && b.lonMin <= p.lon <= b.lonMax
  }

  /**
   * The bounding box of the cases widened by Margin on every side: each
   * bound sits exactly Margin beyond the most extreme case on its side, so
   * every case lies strictly inside it.
   */
  function ExpandedBox(coords: seq<Point>): (b: Box)
    requires |coords| > 0
    ensures b.latMin < b.latMax && b.lonMin < b.lonMax
    ensures forall i :: 0 <= i < |coords| ==> StrictlyInside(b, coords[i])
    ensures b.latMin + Margin in Lats(coords) && b.latMax - Margin in Lats(coords)
    ensures b.lonMin + Margin in Lons(coords) && b.lonMax - Margin in Lons(coords)
    ensures forall i :: 0 <= i < |coords| ==>
      b.latMin + Margin <= coords[i].lat <= b.latMax - Margin &&
      b.lonMin + Margin <= coords[i].lon <= b.lonMax - Margin
  {
    var lats, lons := Lats(coords), Lons(coords);
    Box(MinOf(lats) - Margin, MaxOf(lats) + Margin, MinOf(lons) - Margin, MaxOf(lons) + Margin)
  }

  /** `n` evenly spaced values from `lo` to `hi`, both included (`lo:hi:nj`). */
  function Linspace(lo: real, hi: real, n: nat): (r: seq<real>)
    requires n >= 2
    ensures |r| == n
  {
    var step := (hi - lo) / ((n - 1) as real);
    seq(n, k requires 0 <= k < n => lo + (k as real) * step)
  }

  /** The first value is `lo` and the last is exactly `hi`. */
  lemma LinspaceEndpoints(lo: real, hi: real, n: nat)
    requires n >= 2
    ensures Linspace(lo, hi, n)[0] == lo && Linspace(lo, hi, n)[n - 1] == hi
  {
    var step := (hi - lo) / ((n - 1) as real);
    assert ((n - 1) as real) * step == hi - lo;
  }

  /** Multiplying by a quotient is dividing a product. */
  lemma MulQuotient(x: real, d: real, m: real)
    requires m > 0.0
    ensures x * (d / m) == x * d / m
    ensures m * (d / m) == d
    ensures d >= 0.0 ==> d / m >= 0.0
  {
    var q := d / m;
    assert d == m * q;
    assert x * d == m * (x * q);
  }

  /** A non-negative step taken at most m times goes at most m steps. */
  lemma ScaleMonotone(x: real, m: real, step: real)
    requires 0.0 <= x <= m && step >= 0.0
    ensures 0.0 <= x * step <= m * step
  {
    assert m * step - x * step == (m - x) * step;
  }

  /** Value `k` is `lo + k·(hi − lo)/(n − 1)` and, when `lo <= hi`, lies in [lo, hi]. */
  lemma LinspaceAt(lo: real, hi: real, n: nat, k: nat)
    requires n >= 2 && k < n
    ensures Linspace(lo, hi, n)[k] == lo + (k as real) * (hi - lo) / ((n - 1) as real)
    ensures lo <= hi ==> lo <= Linspace(lo, hi, n)[k] <= hi
  {
    var d, m, x := hi - lo, (n - 1) as real, k as real;
    var v := Linspace(lo, hi, n)[k];
    assert v == lo + x * (d / m);
    MulQuotient(x, d, m);
    if lo <= hi {
      StepWithin(lo, hi, x, m, v);
    }
  }

  lemma StepWithin(lo: real, hi: real, x: real, m: real, v: real)
    requires lo <= hi && 0.0 <= x <= m && m > 0.0
    requires v == lo + x * ((hi - lo) / m)
    ensures lo <= v <= hi
  {
    var step := (hi - lo) / m;
    MulQuotient(x, hi - lo, m);
    ScaleMonotone(x, m, step);
  }

  /** When `lo < hi` the values strictly increase, so no two coincide. */
  lemma LinspaceIncreasing(lo: real, hi: real, n: nat, k: nat, m: nat)
    requires n >= 2 && lo < hi && k < m < n
    ensures Linspace(lo, hi, n)[k] < Linspace(lo, hi, n)[m]
  {
    var step := (hi - lo) / ((n - 1) as real);
    assert step > 0.0;
    assert ((m - k) as real) * step > 0.0;
    assert (m as real) * step == (k as real) * step + ((m - k) as real) * step;
  }

  /** The lattice over `b`, flattened row-major: latitude row i, longitude column j at i·100 + j. */
  function Grid(b: Box): (g: seq<Point>)
    ensures |g| == GridSize
  {
    var lats := Linspace(b.latMin, b.latMax, Resolution);
    var lons := Linspace(b.lonMin, b.lonMax, Resolution);
    seq(GridSize, k requires 0 <= k < GridSize => Point(lats[k / Resolution], lons[k % Resolution]))
  }

  /** Row-major flattening: flat index i·100 + j is row i, column j. */
  lemma FlatIndex(i: nat, j: nat)
    requires i < Resolution && j < Resolution
    ensures i * Resolution + j < GridSize
    ensures (i * Resolution + j) / Resolution == i && (i * Resolution + j) % Resolution == j
  {
  }

  /** Flat index i·100 + j holds latitude step i and longitude step j of the lattice. */
  lemma GridCell(b: Box, i: nat, j: nat)
    requires i < Resolution && j < Resolution
    ensures i * Resolution + j < GridSize
    ensures Grid(b)[i * Resolution + j] ==
      Point(b.latMin + (i as real) * (b.latMax - b.latMin) / 99.0,
            b.lonMin + (j as real) * (b.lonMax - b.lonMin) / 99.0)
  {
    FlatIndex(i, j);
    LinspaceAt(b.latMin, b.latMax, Resolution, i);
    LinspaceAt(b.lonMin, b.lonMax, Resolution, j);
  }

  /** The first grid point is the lower corner of the box and the last is the upper corner. */
  lemma GridCorners(b: Box)
    ensures Grid(b)[0] == Point(b.latMin, b.lonMin)
    ensures Grid(b)[GridSize - 1] == Point(b.latMax, b.lonMax)
  {
    LinspaceEndpoints(b.latMin, b.latMax, Resolution);
    LinspaceEndpoints(b.lonMin, b.lonMax, Resolution);
    assert (GridSize - 1) / Resolution == Resolution - 1;
    assert (GridSize - 1) % Resolution == Resolution - 1;
  }

  /** Every grid point lies within the box the grid was laid over. */
  lemma GridWithinBox(b: Box)
    requires b.latMin <= b.latMax && b.lonMin <= b.lonMax
    ensures forall k :: 0 <= k < GridSize ==> Within(b, Grid(b)[k])
  {
    forall k | 0 <= k < GridSize
      ensures Within(b, Grid(b)[k])
    {
      LinspaceAt(b.latMin, b.latMax, Resolution, k / Resolution);
      LinspaceAt(b.lonMin, b.lonMax, Resolution, k % Resolution);
    }
  }

  /** Over a box of positive extent the 10,000 grid points are pairwise distinct. */
  lemma GridInjective(b: Box)
    requires b.latMin < b.latMax && b.lonMin < b.lonMax
    ensures forall k, m :: 0 <= k < m < GridSize ==> Grid(b)[k] != Grid(b)[m]
  {
    forall k, m | 0 <= k < m < GridSize
      ensures Grid(b)[k] != Grid(b)[m]
    {
      var ki, kj, mi, mj := k / Resolution, k % Resolution, m / Resolution, m % Resolution;
      assert k == ki * Resolution + kj && m == mi * Resolution + mj;
      if ki < mi {
        LinspaceIncreasing(b.latMin, b.latMax, Resolution, ki, mi);
      } else {
        assert ki == mi && kj < mj;
        LinspaceIncreasing(b.lonMin, b.lonMax, Resolution, kj, mj);
      }
    }
  }

  /**
   * Every case lies strictly between the first and the last grid point on
   * both axes, so the grid laid over the widened box covers all the cases.
   */
  lemma CasesInsideGrid(coords: seq<Point>)
    requires |coords| > 0
    ensures forall i :: 0 <= i < |coords| ==>
      Grid(ExpandedBox(coords))[0].lat < coords[i].lat < Grid(ExpandedBox(coords))[GridSize - 1].lat &&
      Grid(ExpandedBox(coords))[0].lon < coords[i].lon < Grid(ExpandedBox(coords))[GridSize - 1].lon
  {
    GridCorners(ExpandedBox(coords));
  }
}
