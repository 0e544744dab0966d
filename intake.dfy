/**
 * Intake of the uploaded table: the required-column check, the removal of
 * rows with a missing coordinate (`dropna(subset=...)`) and the minimum
 * number of points the analysis needs.
 */
module Intake {
  import opened Wrappers
  import opened Points

  /** The two cells of one table row that the analysis reads; None is a missing value. */
  datatype Row = Row(lat: Option<real>, lon: Option<real>)

  const Latitude: string := "latitude"
  const Longitude: string := "longitude"
  const RequiredColumns: seq<string> := [Latitude, Longitude]

  /** Fewer valid points than this stop the analysis. */
  const MinPoints: nat := 2

  /** Why the analysis stopped at intake. */
  datatype Halt =
    | MissingColumns(message: string)
    | TooFewPoints(message: string)

  /** `sep.join(names)`. */
  function Join(names: seq<string>, sep: string): string
  {
    if |names| == 0 then ""
    else if |names| == 1 then names[0]
    else names[0] + sep + Join(names[1..], sep)
  }

  const MissingColumnsMessage: string :=
    "O arquivo CSV deve conter as colunas: " + Join(RequiredColumns, ", ")
  const TooFewPointsMessage: string :=
    "É necessário pelo menos 2 pontos de dados válidos para a análise."

  /** The error for a missing column names both required columns. */
  lemma MissingColumnsMessageNamesBoth()
    ensures MissingColumnsMessage == "O arquivo CSV deve conter as colunas: latitude, longitude"
  {
    assert Join(RequiredColumns, ", ") == Latitude + ", " + Longitude;
  }

  /** Every required column is among the table's columns. */
  predicate HasRequiredColumns(columns: seq<string>)
  {
    forall c :: c in RequiredColumns ==> c in columns
  }

  predicate Complete(row: Row)
  {
    row.lat.Some? && row.lon.Some?
  }

  function ToPoint(row: Row): Point
    requires Complete(row)
  {
    Point(row.lat.value, row.lon.value)
  }

  /** The coordinates of the rows that have both cells, in table order. */
  function DropNa(rows: seq<Row>): (r: seq<Point>)
    ensures |r| <= |rows|
  {
    if |rows| == 0 then []
    else
      var kept := DropNa(rows[..|rows| - 1]);
      var last := rows[|rows| - 1];
      if Complete(last) then kept + [ToPoint(last)] else kept
  }

  /** The positions of the complete rows, collected one position at a time. */
  ghost function CompleteRows(rows: seq<Row>): seq<nat>
  {
    if |rows| == 0 then []
    else
      var kept := CompleteRows(rows[..|rows| - 1]);
      if Complete(rows[|rows| - 1]) then kept + [|rows| - 1] else kept
  }

  ghost predicate StrictlyIncreasing(s: seq<nat>)
  {
    forall i, j :: 0 <= i < j < |s| ==> s[i] < s[j]
  }

  /** The positions of the complete rows increase, and a position is listed exactly when its row is complete. */
  lemma {:induction false} CompleteRowsExact(rows: seq<Row>)
    ensures var idx := CompleteRows(rows);
      && StrictlyIncreasing(idx)
      && (forall k :: 0 <= k < |idx| ==> idx[k] < |rows|)
      && (forall i :: 0 <= i < |rows| ==> (i in idx <==> Complete(rows[i])))
  {
    if |rows| > 0 {
      var init := rows[..|rows| - 1];
      CompleteRowsExact(init);
      assert forall i :: 0 <= i < |init| ==> init[i] == rows[i];
    }
  }

  /**
   * Cleaning keeps exactly the complete rows and keeps them in table order:
   * the k-th cleaned point is the coordinate pair of the k-th complete row,
   * the positions of the kept rows increase, and a row is kept if and only
   * if both its cells are present.
   */
  lemma {:induction false} DropNaKeepsCompleteRowsInOrder(rows: seq<Row>)
    ensures var idx := CompleteRows(rows);
      && |DropNa(rows)| == |idx|
      && StrictlyIncreasing(idx)
      && (forall k :: 0 <= k < |idx| ==> idx[k] < |rows|)
      && (forall i :: 0 <= i < |rows| ==> (i in idx <==> Complete(rows[i])))
      && (forall k :: 0 <= k < |idx| ==> Complete(rows[idx[k]]) && DropNa(rows)[k] == ToPoint(rows[idx[k]]))
  {
    CompleteRowsExact(rows);
    DropNaAligned(rows);
  }

  lemma {:induction false} DropNaAligned(rows: seq<Row>)
    ensures var idx := CompleteRows(rows);
      && |DropNa(rows)| == |idx|
      && (forall k :: 0 <= k < |idx| ==> idx[k] < |rows| && Complete(rows[idx[k]]) && DropNa(rows)[k] == ToPoint(rows[idx[k]]))
  {
    if |rows| > 0 {
      var init := rows[..|rows| - 1];
      DropNaAligned(init);
      assert forall i :: 0 <= i < |init| ==> init[i] == rows[i];
    }
  }

  /**
   * The checks made before any analysis: both required columns must exist,
   * and at least two rows must remain after cleaning.
   */
  function Prepare(columns: seq<string>, rows: seq<Row>): (r: Result<seq<Point>, Halt>)
    ensures r.Failure? <==> !(Latitude in columns && Longitude in columns) || |DropNa(rows)| < MinPoints
    ensures !(Latitude in columns && Longitude in columns) ==> r == Failure(MissingColumns(MissingColumnsMessage))
    ensures Latitude in columns && Longitude in columns && |DropNa(rows)| < MinPoints
      ==> r == Failure(TooFewPoints(TooFewPointsMessage))
    ensures r.Success? ==> r.value == DropNa(rows) && |r.value| >= MinPoints
  {
    if !HasRequiredColumns(columns) then Failure(MissingColumns(MissingColumnsMessage))
    else
      var coords := DropNa(rows);
      if |coords| < MinPoints then Failure(TooFewPoints(TooFewPointsMessage))
      else Success(coords)
  }
}
