/**
 * The whole analysis for one uploaded table and one bandwidth: validate and
 * clean the cases, find the five hotspots, geocode them, and assemble the
 * ranking table and the map centre.
 */
module Pipeline {
  import opened Wrappers
  import opened Points
  import opened Intake
  import opened Peaks
  import opened Kde
  import opened Geocode
  import opened Ranking

  /** Everything the page shows once the analysis has run. */
  datatype Report = Report(
    coords: seq<Point>,
    peaks: seq<Point>,
    addresses: seq<string>,
    table: seq<RankRow>,
    centre: Point)

  /**
   * Stops with the column error or the too-few-points warning exactly when
   * those checks fail, returning only that halt and no report; otherwise
   * reports five hotspots, one address per hotspot in the same order, a
   * five-row table aligned with both, and the mean of the cleaned cases as
   * the map centre.
   */
  method Analyse(columns: seq<string>, rows: seq<Row>, bandwidth: real, fit: Fit, service: Geolocator)
    returns (r: Result<Report, Halt>)
    ensures r.Failure? <==> !(Latitude in columns && Longitude in columns) || |DropNa(rows)| < MinPoints
    ensures r.Failure? ==> r == Failure(Prepare(columns, rows).error)
    ensures r.Success? ==>
      var report := r.value;
      && report.coords == DropNa(rows)
      && report.peaks == CalculateKde(report.coords, bandwidth, fit).0
      && |report.peaks| == |report.addresses| == |report.table| == PeakCount
      && (forall i :: 0 <= i < PeakCount ==>
            report.addresses[i] == AddressText(service(i, report.peaks[i])))
      && (forall k :: 0 <= k < PeakCount ==>
            report.table[k] == RankRow(k + 1, report.peaks[k].lat, report.peaks[k].lon, report.addresses[k]))
      && report.centre == MapCentre(report.coords)
  {
    var prepared := Prepare(columns, rows);
    if prepared.Failure? {
      return Failure(prepared.error);
    }
    var kde := CalculateKde(prepared.value, bandwidth, fit);
    var peaks, coords := kde.0, kde.1;
    var addresses := ReverseGeocode(peaks, service);
    var table := BuildRanking(peaks, addresses);
    r := Success(Report(coords, peaks, addresses, table, MapCentre(coords)));
  }
}
