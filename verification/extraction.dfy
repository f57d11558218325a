/** Record extraction (`GCPfinder`): each `<marker>` element becomes either a
    control-point record or a marker record. The two scripts differ only in how
    a `<location>` becomes a measurement, so the extraction is generic in that step. */
module Extraction {
  import opened Wrappers
  import opened OrderedDict
  import opened Records
  import opened CameraIndex
  import opened ImageResolver

  /** `point.get('id') is not None`: the classification test. */
  predicate IsControlPointElement(e: MarkerElement) {
    e.id.Some?
  }

  /** `point.get('id') or point.get('marker_id')`: an empty `id` is falsy and
      gives way to `marker_id`. */
  function PointId(e: MarkerElement): Option<string> {
    if e.id.Some? && e.id.value != "" then e.id else e.markerId
  }

  /** The control-point record of an element; `reference.get` on a missing
      `<reference>` raises. */
  function ControlPointOf(e: MarkerElement): Result<ControlPoint, Error> {
    match e.reference
    case None => Fail(MissingReference)
    case Some(ref) =>
      Ok(ControlPoint(PointId(e), e.pointLabel, "Full", ref.x, ref.y, ref.z, ref.sxy, ref.sz, ref.enabled))
  }

  /** The `for loc in point.xpath('./location')` loop: one measurement per
      location, in order; the first location whose measurement raises aborts. */
  function MeasurementsOf<M>(locs: seq<Location>, measure: Location -> Result<M, Error>): (r: Result<seq<M>, Error>)
    ensures r.Ok? <==> forall j :: 0 <= j < |locs| ==> measure(locs[j]).Ok?
    ensures r.Ok? ==> |r.value| == |locs| && forall j :: 0 <= j < |locs| ==> measure(locs[j]) == Ok(r.value[j])
    ensures r.Fail? ==> exists j :: 0 <= j < |locs| && measure(locs[j]) == Fail(r.error) &&
                          forall j' :: 0 <= j' < j ==> measure(locs[j']).Ok?
  {
    if |locs| == 0 then Ok([])
    else
      assert forall j :: 0 < j < |locs| ==> locs[j] == locs[1..][j - 1];
      var m :- measure(locs[0]);
      var rest := MeasurementsOf(locs[1..], measure);
      assert rest.Fail? ==> exists j :: 0 <= j < |locs| && measure(locs[j]) == Fail(rest.error) &&
                              forall j' :: 0 <= j' < j ==> measure(locs[j']).Ok? by {
        if rest.Fail? {
          var j :| 0 <= j < |locs[1..]| && measure(locs[1..][j]) == Fail(rest.error) &&
                   forall j' :: 0 <= j' < j ==> measure(locs[1..][j']).Ok?;
          assert measure(locs[j + 1]) == Fail(rest.error);
        }
      }
      var ms :- rest;
      Ok([m] + ms)
  }

  /** The marker record of an element with no `id`. */
  function MarkerOf<M>(e: MarkerElement, measure: Location -> Result<M, Error>): Result<Marker<M>, Error> {
    var ms :- MeasurementsOf(e.locations, measure);
    Ok(Marker(e.markerId, ms))
  }

  /** The loop over `root.xpath('//marker')`, appending to `points_info` or
      `marker_info`; the first element that raises aborts the run. */
  function ExtractRecords<M>(es: seq<MarkerElement>, measure: Location -> Result<M, Error>)
    : Result<(seq<ControlPoint>, seq<Marker<M>>), Error>
  {
    if |es| == 0 then Ok(([], []))
    else if IsControlPointElement(es[0]) then
      var cp :- ControlPointOf(es[0]);
      var rest :- ExtractRecords(es[1..], measure);
      Ok(([cp] + rest.0, rest.1))
    else
      var m :- MarkerOf(es[0], measure);
      var rest :- ExtractRecords(es[1..], measure);
      Ok((rest.0, [m] + rest.1))
  }

  /** The elements that carry an `id`, in document order. */
  function ControlPointElements(es: seq<MarkerElement>): seq<MarkerElement> {
    if |es| == 0 then []
    else (if IsControlPointElement(es[0]) then [es[0]] else []) + ControlPointElements(es[1..])
  }

  /** The elements that carry no `id`, in document order. */
  function MarkerElements(es: seq<MarkerElement>): seq<MarkerElement> {
    if |es| == 0 then []
    else (if IsControlPointElement(es[0]) then [] else [es[0]]) + MarkerElements(es[1..])
  }

  /** Building the record of `e` raises. */
  predicate ElementFails<M>(e: MarkerElement, measure: Location -> Result<M, Error>) {
    if IsControlPointElement(e) then e.reference.None?
    else exists j :: 0 <= j < |e.locations| && measure(e.locations[j]).Fail?
  }

  /** The control-point record of an element with a `<reference>`: id with its
      fallback, the label as name, category "Full", and the six reference
      attributes copied verbatim. */
  predicate IsControlPointRecordOf(cp: ControlPoint, e: MarkerElement) {
    && e.reference.Some?
    && cp.id == (if e.id.Some? && e.id.value != "" then e.id else e.markerId)
    && cp.name == e.pointLabel
    && cp.category == "Full"
    && cp.x == e.reference.value.x && cp.y == e.reference.value.y && cp.z == e.reference.value.z
    && cp.horizontalAccuracy == e.reference.value.sxy
    && cp.verticalAccuracy == e.reference.value.sz
    && cp.checkPoint == e.reference.value.enabled
  }

  /** The marker record of an element: its `marker_id`, and one measurement per
      location, in order. */
  ghost predicate IsMarkerRecordOf<M>(m: Marker<M>, e: MarkerElement, measure: Location -> Result<M, Error>) {
    && m.markerId == e.markerId
    && |m.measurements| == |e.locations|
    && forall j :: 0 <= j < |e.locations| ==> measure(e.locations[j]) == Ok(m.measurements[j])
  }

  /** Extraction raises exactly when some element's record raises. Otherwise the
      elements with an `id` become the control points and the others the
      markers, each list in document order and one record per element. */
  lemma {:induction false} ExtractRecordsSpec<M>(es: seq<MarkerElement>, measure: Location -> Result<M, Error>)
    ensures ExtractRecords(es, measure).Fail? <==> exists i :: 0 <= i < |es| && ElementFails(es[i], measure)
    ensures ExtractRecords(es, measure).Ok? ==>
              var (cps, ms) := ExtractRecords(es, measure).value;
              && |cps| == |ControlPointElements(es)|
              && (forall k :: 0 <= k < |cps| ==> IsControlPointRecordOf(cps[k], ControlPointElements(es)[k]))
              && |ms| == |MarkerElements(es)|
              && (forall k :: 0 <= k < |ms| ==> IsMarkerRecordOf(ms[k], MarkerElements(es)[k], measure))
  {
    if |es| > 0 {
      ExtractRecordsSpec(es[1..], measure);
      var e := es[0];
      assert forall i :: 0 < i < |es| ==> es[i] == es[1..][i - 1];
      var r := ExtractRecords(es, measure);
      var rest := ExtractRecords(es[1..], measure);
      if IsControlPointElement(e) {
        if e.reference.Some? {
          assert r.Fail? <==> rest.Fail?;
          if r.Ok? {
            assert ControlPointElements(es) == [e] + ControlPointElements(es[1..]);
            assert MarkerElements(es) == MarkerElements(es[1..]);
          }
        } else {
          assert ElementFails(es[0], measure);
        }
      } else {
        var mr := MeasurementsOf(e.locations, measure);
        if mr.Ok? {
          assert !ElementFails(e, measure);
          assert r.Fail? <==> rest.Fail?;
          if r.Ok? {
            assert ControlPointElements(es) == ControlPointElements(es[1..]);
            assert MarkerElements(es) == [e] + MarkerElements(es[1..]);
          }
        } else {
          assert ElementFails(es[0], measure);
        }
      }
    }
  }

  // ----- the Pix4Dmatic script -----

  /** A Pix4Dmatic measurement: the photo is the first label mapped to the
      location's camera id, followed by ".JPG"; a camera id no label maps to
      makes `None + '.JPG'` raise. */
  function Pix4dMeasurementOf(lookup: Dict<string, string>, loc: Location): (r: Result<Pix4dMeasurement, Error>)
    ensures r.Ok? <==> loc.cameraId.Some? && exists i :: 0 <= i < |lookup| && lookup[i].1 == loc.cameraId.value
    ensures r.Fail? ==> r.error == UnlabelledCamera
    ensures r.Ok? ==> r.value.x == loc.x && r.value.y == loc.y
    ensures r.Ok? ==>
              exists i :: 0 <= i < |lookup| && lookup[i].1 == loc.cameraId.value &&
                (forall j :: 0 <= j < i ==> lookup[j].1 != loc.cameraId.value) &&
                r.value.photoId == lookup[i].0 + ".JPG"
  {
    match loc.cameraId
    case None => Fail(UnlabelledCamera)
    case Some(id) =>
      match LabelOf(lookup, id)
      case None => Fail(UnlabelledCamera)
      case Some(lbl) => Ok(Pix4dMeasurement(lbl + ".JPG", loc.x, loc.y))
  }

  /** `GCPfinder` of the Pix4Dmatic script. */
  function Pix4dGcpFinder(es: seq<MarkerElement>, lookup: Dict<string, string>)
    : Result<(seq<ControlPoint>, seq<Marker<Pix4dMeasurement>>), Error>
  {
    ExtractRecords(es, loc => Pix4dMeasurementOf(lookup, loc))
  }

  /** The Pix4Dmatic extraction raises exactly when a control point lacks its
      `<reference>` or a marker has a location whose camera id no label maps to. */
  lemma Pix4dGcpFinderFails(es: seq<MarkerElement>, lookup: Dict<string, string>)
    ensures Pix4dGcpFinder(es, lookup).Fail? <==>
              exists i :: 0 <= i < |es| &&
                if IsControlPointElement(es[i]) then es[i].reference.None?
                else exists j :: 0 <= j < |es[i].locations| && !CameraKnown(lookup, es[i].locations[j])
  {
    var measure := loc => Pix4dMeasurementOf(lookup, loc);
    ExtractRecordsSpec(es, measure);
    forall i | 0 <= i < |es| && !IsControlPointElement(es[i])
      ensures ElementFails(es[i], measure) <==> exists j :: 0 <= j < |es[i].locations| && !CameraKnown(lookup, es[i].locations[j])
    {
      assert forall j :: 0 <= j < |es[i].locations| ==>
        (measure(es[i].locations[j]).Fail? <==> !CameraKnown(lookup, es[i].locations[j]));
    }
  }

  /** Some label in the lookup maps to the location's camera id. */
  predicate CameraKnown(lookup: Dict<string, string>, loc: Location) {
    loc.cameraId.Some? && loc.cameraId.value in Values(lookup)
  }

  // ----- the iTwin script -----

  /** An iTwin measurement: the camera id and pixel values as given, and an
      `ImagePath` only when the camera id is among the matched photos AND the
      first label mapped to it is non-empty AND is exactly the name of an image file. */
  function ITwinMeasurementOf(loc: Location, res: Resolution): (r: ITwinMeasurement)
    ensures r.photoId == loc.cameraId && r.x == loc.x && r.y == loc.y
    ensures r.imagePath.Some? <==>
              && loc.cameraId.Some? && loc.cameraId.value in res.matchedPhotos
              && LabelOf(res.cameraLookup, loc.cameraId.value).Some?
              && LabelOf(res.cameraLookup, loc.cameraId.value).value != ""
              && LabelOf(res.cameraLookup, loc.cameraId.value).value in Keys(res.imagePaths)
    ensures r.imagePath.Some? ==> Get(res.imagePaths, LabelOf(res.cameraLookup, loc.cameraId.value).value) == r.imagePath
  {
    var path :=
      if loc.cameraId.Some? && loc.cameraId.value in res.matchedPhotos then
        match LabelOf(res.cameraLookup, loc.cameraId.value)
        case Some(lbl) => if lbl != "" && lbl in Keys(res.imagePaths) then Get(res.imagePaths, lbl) else None
        case None => None
      else None;
    ITwinMeasurement(loc.cameraId, loc.x, loc.y, path)
  }

  /** An attached image path always comes from an exact name match: the path
      found for the first label of camera `id` belongs to the last image whose
      name equals that label character for character, and the label is that of
      the last camera carrying it, which has this id. */
  lemma ITwinImagePathOrigin(images: seq<ImageFile>, cameras: seq<Camera>, id: string, path: string)
    requires LabelOf(CameraLookup(cameras), id).Some?
    requires Get(ImagePaths(images), LabelOf(CameraLookup(cameras), id).value) == Some(path)
    ensures exists i, k :: 0 <= i < |images| && 0 <= k < |cameras|
              && cameras[k] == Camera(id, images[i].name)
              && IsLastWithLabel(cameras, k)
              && images[i].path == path
              && IsLastImageNamed(images, i)
  {
    var lbl := LabelOf(CameraLookup(cameras), id).value;
    LabelOfLastCamera(cameras, id);
    ImagePathsLastWins(images, lbl, path);
  }

  /** `GCPfinder` of the iTwin script. */
  function ITwinGcpFinder(es: seq<MarkerElement>, res: Resolution)
    : Result<(seq<ControlPoint>, seq<Marker<ITwinMeasurement>>), Error>
  {
    ExtractRecords(es, loc => Ok(ITwinMeasurementOf(loc, res)))
  }

  /** The iTwin extraction raises exactly when a control point lacks its `<reference>`. */
  lemma ITwinGcpFinderFails(es: seq<MarkerElement>, res: Resolution)
    ensures ITwinGcpFinder(es, res).Fail? <==>
              exists i :: 0 <= i < |es| && IsControlPointElement(es[i]) && es[i].reference.None?
  {
    ExtractRecordsSpec(es, loc => Ok(ITwinMeasurementOf(loc, res)));
  }
}
