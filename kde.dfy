/**
 * `calculate_kde`: lay the grid over the cases, score every grid point with
 * the fitted density model and keep the five best-scoring points.
 */
module Kde {
  import opened Points
  import opened GridSampler
  import opened Peaks

  /**
   * A kernel density model fitted to the cases with a bandwidth, as the
   * density (not its logarithm) it assigns to a coordinate.
   */
  type Fit = (seq<Point>, real) -> Point -> real

  /** The score of every grid point, co-indexed with the grid. */
  function Densities(grid: seq<Point>, density: Point -> real): (dens: seq<real>)
    ensures |dens| == |grid|
    ensures forall k :: 0 <= k < |grid| ==> dens[k] == density(grid[k])
  {
    seq(|grid|, k requires 0 <= k < |grid| => density(grid[k]))
  }

  /** The grid points at the given indices (`grid_points[indices]`). */
  function Gather(grid: seq<Point>, indices: seq<nat>): (pts: seq<Point>)
    requires forall t :: 0 <= t < |indices| ==> indices[t] < |grid|
    ensures |pts| == |indices|
    ensures forall t :: 0 <= t < |indices| ==> pts[t] == grid[indices[t]]
  {
    seq(|indices|, t requires 0 <= t < |indices| => grid[indices[t]])
  }

  /** The indices of the five best grid cells for these cases and bandwidth. */
  function PeakIndices(coords: seq<Point>, bandwidth: real, fit: Fit): (top: seq<nat>)
    requires |coords| > 0
    ensures |top| == PeakCount
    ensures forall t :: 0 <= t < |top| ==> top[t] < GridSize
  {
    var grid := Grid(ExpandedBox(coords));
    TopK(Densities(grid, fit(coords, bandwidth)), PeakCount)
  }

  /** The five hotspot coordinates and the cases, handed back as they came in. */
  function CalculateKde(coords: seq<Point>, bandwidth: real, fit: Fit): (r: (seq<Point>, seq<Point>))
    requires |coords| > 0
    ensures |r.0| == PeakCount
    ensures r.1 == coords
  {
    var grid := Grid(ExpandedBox(coords));
    (Gather(grid, PeakIndices(coords, bandwidth, fit)), coords)
  }

  /**
   * The hotspots are five distinct points of the grid, inside the widened
   * box, listed from the highest density down; no grid point left out has a
   * higher density than any of them.
   */
  lemma PeaksAreBestGridPoints(coords: seq<Point>, bandwidth: real, fit: Fit)
    requires |coords| > 0
    ensures var box, peaks, density := ExpandedBox(coords), CalculateKde(coords, bandwidth, fit).0, fit(coords, bandwidth);
      && |peaks| == PeakCount
      && (forall t :: 0 <= t < |peaks| ==> peaks[t] in Grid(box) && Within(box, peaks[t]))
      && (forall s, t :: 0 <= s < t < |peaks| ==> peaks[s] != peaks[t])
      && (forall s, t :: 0 <= s <= t < |peaks| ==> density(peaks[t]) <= density(peaks[s]))
      && (forall q :: q in Grid(box) && q !in peaks ==>
            forall t :: 0 <= t < |peaks| ==> density(q) <= density(peaks[t]))
  {
    var box, density := ExpandedBox(coords), fit(coords, bandwidth);
    var grid := Grid(box);
    var dens := Densities(grid, density);
    var top := PeakIndices(coords, bandwidth, fit);
    var peaks := CalculateKde(coords, bandwidth, fit).0;
    assert top == TopK(dens, PeakCount) && IsTopK(dens, PeakCount, top);
    assert peaks == Gather(grid, top);
    GridWithinBox(box);
    GridInjective(box);
    forall t | 0 <= t < |peaks|
      ensures peaks[t] in grid && Within(box, peaks[t])
    {
      assert peaks[t] == grid[top[t]];
    }
    forall s, t | 0 <= s < t < |peaks|
      ensures peaks[s] != peaks[t]
    {
      assert top[s] != top[t];
      if top[s] < top[t] {
        assert grid[top[s]] != grid[top[t]];
      } else {
        assert grid[top[t]] != grid[top[s]];
      }
    }
    forall q | q in grid && q !in peaks
      ensures forall t :: 0 <= t < |peaks| ==> density(q) <= density(peaks[t])
    {
      var j :| 0 <= j < |grid| && grid[j] == q;
      assert j !in top;
      assert dens[j] == density(q);
    }
  }
}
