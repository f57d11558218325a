/** The flat marks table of the Pix4Dmatic script (`Marks_creator`). */
module FlatMarks {
  import opened Wrappers
  import opened Records

  /** One row `{'im', 'gcp', 'px', 'py', 't'}`. */
  datatype Mark = Mark(im: string, gcp: Option<string>, px: Option<string>, py: Option<string>, t: int)

  /** The constant weight column `t`. */
  const Weight: int := 10

  /** The rows of one record. `point['Measurement']` raises on a record without
      measurements; `point['Name']` is read once per measurement, so it raises on
      a marker-only record only when that record has a measurement. */
  function RecordMarks(rec: Merged<Pix4dMeasurement>): Result<seq<Mark>, Error> {
    match rec
    case ControlPointOnly(_) => Fail(MissingKey("Measurement"))
    case MarkerOnly(m) => if |m.measurements| == 0 then Ok([]) else Fail(MissingKey("Name"))
    case Integrated(cp, m) =>
      Ok(seq(|m.measurements|, j requires 0 <= j < |m.measurements| =>
        Mark(m.measurements[j].photoId, cp.name, m.measurements[j].x, m.measurements[j].y, Weight)))
  }

  /** The record makes `Marks_creator` raise. */
  predicate Blocks(rec: Merged<Pix4dMeasurement>) {
    rec.ControlPointOnly? || (rec.MarkerOnly? && |rec.marker.measurements| > 0)
  }

  /** The number of measurements a record holds (none for a control point alone). */
  function MeasurementCount<M>(rec: Merged<M>): nat {
    match rec.Measurement()
    case Some(ms) => |ms|
    case None => 0
  }

  /** The sum of the measurement counts. */
  function TotalMeasurements<M>(rs: seq<Merged<M>>): nat {
    if |rs| == 0 then 0 else MeasurementCount(rs[0]) + TotalMeasurements(rs[1..])
  }

  /** `Marks_creator(control_points)`: raises exactly when some record blocks;
      otherwise emits one row per measurement. */
  function MarksCreator(rs: seq<Merged<Pix4dMeasurement>>): (r: Result<seq<Mark>, Error>)
    ensures r.Fail? <==> exists i :: 0 <= i < |rs| && Blocks(rs[i])
    ensures r.Ok? ==> |r.value| == TotalMeasurements(rs)
  {
    if |rs| == 0 then Ok([])
    else
      assert forall i :: 0 < i < |rs| ==> rs[i] == rs[1..][i - 1];
      var first :- RecordMarks(rs[0]);
      var rest :- MarksCreator(rs[1..]);
      Ok(first + rest)
  }

  /** The rows are ordered by record, then by measurement: the row of
      measurement `j` of record `i` sits after all rows of the records before
      `i`, names the photo, the control point's name, the two pixel values, and
      weight 10. */
  lemma {:induction false} MarksCreatorRows(rs: seq<Merged<Pix4dMeasurement>>, i: nat, j: nat)
    requires MarksCreator(rs).Ok?
    requires i < |rs| && j < MeasurementCount(rs[i])
    ensures rs[i].Integrated?
    ensures TotalMeasurements(rs[..i]) + j < |MarksCreator(rs).value|
    ensures MarksCreator(rs).value[TotalMeasurements(rs[..i]) + j] ==
              Mark(rs[i].marker.measurements[j].photoId, rs[i].cp.name,
                   rs[i].marker.measurements[j].x, rs[i].marker.measurements[j].y, 10)
  {
    var first := RecordMarks(rs[0]).value;
    var rest := MarksCreator(rs[1..]);
    assert MarksCreator(rs).value == first + rest.value;
    assert |first| == MeasurementCount(rs[0]);
    if i == 0 {
      assert rs[..0] == [];
    } else {
      assert rs[..i] == [rs[0]] + rs[1..][..i - 1];
      assert rs[i] == rs[1..][i - 1];
      MarksCreatorRows(rs[1..], i - 1, j);
    }
  }
}
