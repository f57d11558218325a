/** The iTwin survey document (`create_survey_xml`), as a tree of typed nodes
    rather than XML text. */
module SurveyTree {
  import opened Wrappers
  import opened Strings
  import opened Records

  /** `<Measurement>`: `<PhotoId>`, `<ImagePath>`, `<x>`, `<y>`. */
  datatype MeasurementNode = MeasurementNode(photoId: string, imagePath: string, x: string, y: string)

  /** `<Position>`: `<x>`, `<y>`, `<z>`. */
  datatype Position = Position(x: string, y: string, z: string)

  /** `<ControlPoint>` with its children in document order, the measurements last. */
  datatype ControlPointNode = ControlPointNode(
    id: string,
    srsId: string,
    name: string,
    category: string,
    position: Position,
    horizontalAccuracy: string,
    verticalAccuracy: string,
    checkPoint: string,
    measurements: seq<MeasurementNode>)

  /** `<SRS>`: `<Id>`, `<Name>`, `<Definition>`. */
  datatype Srs = Srs(id: string, name: string, definition: string)

  /** `<SurveysData>`: `<SpatialReferenceSystems>` and `<ControlPoints>`. */
  datatype SurveysData = SurveysData(spatialReferenceSystems: seq<Srs>, controlPoints: seq<ControlPointNode>)

  /** The one spatial reference system the document declares. */
  const Utm39N: Srs := Srs("2", "WGS 84 / UTM zone 39N (EPSG:32639)", "EPSG:32639")

  /** A `<Measurement>` node; `meas['ImagePath']` raises when no path was attached. */
  function MeasurementNodeOf(meas: ITwinMeasurement): Result<MeasurementNode, Error> {
    match meas.imagePath
    case None => Fail(MissingKey("ImagePath"))
    case Some(path) => Ok(MeasurementNode(Str(meas.photoId), path, Str(meas.x), Str(meas.y)))
  }

  /** The node a measurement becomes: every value through `str`, the path as is. */
  predicate IsMeasurementNodeOf(node: MeasurementNode, meas: ITwinMeasurement) {
    && meas.imagePath.Some?
    && node.photoId == Str(meas.photoId)
    && node.imagePath == meas.imagePath.value
    && node.x == Str(meas.x)
    && node.y == Str(meas.y)
  }

  /** The `for meas in cp['Measurement']` loop: one node per measurement, in
      order; raises exactly when some measurement has no image path. */
  function MeasurementNodes(ms: seq<ITwinMeasurement>): (r: Result<seq<MeasurementNode>, Error>)
    ensures r.Fail? <==> exists j :: 0 <= j < |ms| && ms[j].imagePath.None?
    ensures r.Ok? ==> |r.value| == |ms| && forall j :: 0 <= j < |ms| ==> IsMeasurementNodeOf(r.value[j], ms[j])
  {
    if |ms| == 0 then Ok([])
    else
      assert forall j :: 0 < j < |ms| ==> ms[j] == ms[1..][j - 1];
      var first :- MeasurementNodeOf(ms[0]);
      var rest :- MeasurementNodes(ms[1..]);
      Ok([first] + rest)
  }

  /** The `<ControlPoint>` node without measurements. lxml's builder raises on a
      `None` name; every other value goes through `str`, so `None` becomes "None". */
  function PointNode(cp: ControlPoint): Result<ControlPointNode, Error> {
    match cp.name
    case None => Fail(NoneText("Name"))
    case Some(name) =>
      Ok(ControlPointNode(
        Str(cp.id), "2", name, "Full",
        Position(Str(cp.x), Str(cp.y), Str(cp.z)),
        Str(cp.horizontalAccuracy), Str(cp.verticalAccuracy),
        Lower(Str(cp.checkPoint)),
        []))
  }

  /** The node of one merged record. `cp['ID']` raises on a marker-only record;
      only a record with a `Measurement` key gets measurement children. */
  function NodeOf(rec: Merged<ITwinMeasurement>): Result<ControlPointNode, Error> {
    match rec
    case MarkerOnly(_) => Fail(MissingKey("ID"))
    case ControlPointOnly(cp) => PointNode(cp)
    case Integrated(cp, m) =>
      var node :- PointNode(cp);
      var ms :- MeasurementNodes(m.measurements);
      Ok(node.(measurements := ms))
  }

  /** The record makes `create_survey_xml` raise. */
  predicate Blocks(rec: Merged<ITwinMeasurement>) {
    || rec.MarkerOnly?
    || rec.cp.name.None?
    || (rec.Integrated? && exists j :: 0 <= j < |rec.marker.measurements| && rec.marker.measurements[j].imagePath.None?)
  }

  /** The node a record becomes: its control point's values as text, the SRS id
      "2", category "Full", the check-point flag lower-cased, and one measurement
      child per measurement, in order, when the record has measurements. */
  predicate IsNodeOf(node: ControlPointNode, rec: Merged<ITwinMeasurement>) {
    && rec.HasControlPoint()
    && node.id == Str(rec.cp.id)
    && node.srsId == "2"
    && Some(node.name) == rec.cp.name
    && node.category == "Full"
    && node.position == Position(Str(rec.cp.x), Str(rec.cp.y), Str(rec.cp.z))
    && node.horizontalAccuracy == Str(rec.cp.horizontalAccuracy)
    && node.verticalAccuracy == Str(rec.cp.verticalAccuracy)
    && node.checkPoint == Lower(Str(rec.cp.checkPoint))
    && (rec.ControlPointOnly? ==> node.measurements == [])
    && (rec.Integrated? ==>
          |node.measurements| == |rec.marker.measurements| &&
          forall j :: 0 <= j < |node.measurements| ==> IsMeasurementNodeOf(node.measurements[j], rec.marker.measurements[j]))
  }

  /** The loop over the merged records: one node per record, in order; raises
      exactly when some record blocks. */
  function ControlPointNodes(rs: seq<Merged<ITwinMeasurement>>): (r: Result<seq<ControlPointNode>, Error>)
    ensures r.Fail? <==> exists i :: 0 <= i < |rs| && Blocks(rs[i])
    ensures r.Ok? ==> |r.value| == |rs| && forall i :: 0 <= i < |rs| ==> IsNodeOf(r.value[i], rs[i])
  {
    if |rs| == 0 then Ok([])
    else
      NodeOfSpec(rs[0]);
      BlocksCons(rs);
      var first :- NodeOf(rs[0]);
      var rest :- ControlPointNodes(rs[1..]);
      NodesCons(rs, first, rest);
      Ok([first] + rest)
  }

  lemma NodeOfSpec(rec: Merged<ITwinMeasurement>)
    ensures NodeOf(rec).Fail? <==> Blocks(rec)
    ensures NodeOf(rec).Ok? ==> IsNodeOf(NodeOf(rec).value, rec)
  {
  }

  lemma BlocksCons(rs: seq<Merged<ITwinMeasurement>>)
    requires |rs| > 0
    ensures (exists i :: 0 <= i < |rs| && Blocks(rs[i])) <==>
              Blocks(rs[0]) || exists i :: 0 <= i < |rs| - 1 && Blocks(rs[1..][i])
  {
    assert forall i :: 0 < i < |rs| ==> rs[i] == rs[1..][i - 1];
  }

  lemma NodesCons(rs: seq<Merged<ITwinMeasurement>>, first: ControlPointNode, rest: seq<ControlPointNode>)
    requires |rs| > 0 && IsNodeOf(first, rs[0])
    requires |rest| == |rs| - 1 && forall i :: 0 <= i < |rest| ==> IsNodeOf(rest[i], rs[1..][i])
    ensures forall i :: 0 <= i < |rs| ==> IsNodeOf(([first] + rest)[i], rs[i])
  {
    forall i | 0 < i < |rs| ensures IsNodeOf(([first] + rest)[i], rs[i]) {
      assert ([first] + rest)[i] == rest[i - 1] && rs[i] == rs[1..][i - 1];
    }
  }

  /** `create_survey_xml(control_points, ...)`, up to writing the tree out. */
  function CreateSurveyXml(rs: seq<Merged<ITwinMeasurement>>): (r: Result<SurveysData, Error>)
    ensures r.Fail? <==> exists i :: 0 <= i < |rs| && Blocks(rs[i])
    ensures r.Ok? ==> r.value.spatialReferenceSystems == [Utm39N]
    ensures r.Ok? ==> |r.value.controlPoints| == |rs|
    ensures r.Ok? ==> forall i :: 0 <= i < |rs| ==> IsNodeOf(r.value.controlPoints[i], rs[i])
  {
    var nodes :- ControlPointNodes(rs);
    Ok(SurveysData([Utm39N], nodes))
  }

  /** No marker-only record reaches the document: one in the input makes the
      whole run raise. */
  lemma SurveyRejectsMarkerOnly(rs: seq<Merged<ITwinMeasurement>>, i: nat)
    requires i < |rs| && rs[i].MarkerOnly?
    ensures CreateSurveyXml(rs).Fail?
  {
    assert Blocks(rs[i]);
  }
}
