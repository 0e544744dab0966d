/**
 * What is shown for the hotspots: the ranking table (rank, latitude,
 * longitude, address) and the centre of the map.
 */
module Ranking {
  import opened Wrappers
  import opened Points

  /** One line of the ranking table; `rank` counts from 1. */
  datatype RankRow = RankRow(rank: nat, lat: real, lon: real, address: string)

  /**
   * `enumerate(zip(lats, lons, addresses), 1)`: one row per hotspot that has
   * an address (zip stops at the shorter list), the row ranked r carrying
   * hotspot r − 1 and address r − 1.
   */
  method BuildRanking(peaks: seq<Point>, addresses: seq<string>) returns (rows: seq<RankRow>)
    ensures |rows| == Min(|peaks|, |addresses|)
    ensures forall k :: 0 <= k < |rows| ==>
      rows[k] == RankRow(k + 1, peaks[k].lat, peaks[k].lon, addresses[k])
  {
    var n := Min(|peaks|, |addresses|);
    rows := [];
    for i := 0 to n
      invariant |rows| == i
      invariant forall k :: 0 <= k < i ==>
        rows[k] == RankRow(k + 1, peaks[k].lat, peaks[k].lon, addresses[k])
    {
      rows := rows + [RankRow(i + 1, peaks[i].lat, peaks[i].lon, addresses[i])];
    }
  }

  /**
   * The map centre, the mean latitude and mean longitude of the cases: it
   * lies within the cases' range on each axis.
   */
  function MapCentre(coords: seq<Point>): (c: Point)
    requires |coords| > 0
    ensures MinOf(Lats(coords)) <= c.lat <= MaxOf(Lats(coords))
    ensures MinOf(Lons(coords)) <= c.lon <= MaxOf(Lons(coords))
  {
    var lats, lons := Lats(coords), Lons(coords);
    MeanWithinRange(lats);
    MeanWithinRange(lons);
    Point(Mean(lats), Mean(lons))
  }
}
