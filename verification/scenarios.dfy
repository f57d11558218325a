/** Worked examples: the Pix4Dmatic pipeline carried end to end on one control
    point, and single iTwin measurements. */
module Scenarios {
  import opened Wrappers
  import opened OrderedDict
  import opened Records
  import opened CameraIndex
  import opened ImageResolver
  import opened Extraction
  import opened MergeEngine
  import opened FlatMarks

  /** A suffixed label is matched by substring, which puts the camera among the
      matched photos, yet the measurement gets no image path: the label itself is
      not the name of any image file. */
  lemma SubstringMatchAloneInsufficient()
    ensures var images := [ImageFile("IMG_001", "/a/IMG_001.jpg")];
            var cameras := [Camera("c1", "IMG_001_extra")];
            var res := MatchImagesToCameras(images, cameras);
            && "c1" in res.matchedPhotos
            && ITwinMeasurementOf(Location(Some("c1"), Some("50.5"), Some("60.2")), res).imagePath.None?
  {
    var images := [ImageFile("IMG_001", "/a/IMG_001.jpg")];
    var cameras := [Camera("c1", "IMG_001_extra")];
    var lookup := CameraLookup(cameras);
    assert LabelPairs(cameras) == [("IMG_001_extra", "c1")];
    assert lookup == [("IMG_001_extra", "c1")];
    assert "IMG_001_extra"[..7] == "IMG_001";
    assert IdForStem(lookup, "IMG_001") == Some("c1");
    var res := MatchImagesToCameras(images, cameras);
    assert res.imagePaths == [("IMG_001", "/a/IMG_001.jpg")];
    assert "IMG_001_extra" !in Keys(res.imagePaths);
  }

  // The worked example of a single control point seen on a single camera.
  const ExampleCameras: seq<Camera> := [Camera("c1", "IMG_001")]
  const ExampleLocation: Location := Location(Some("c1"), Some("50.5"), Some("60.2"))
  const ExampleControlElement: MarkerElement :=
    MarkerElement(Some("1"), None, Some("GCP1"),
      Some(Reference(Some("100"), Some("200"), Some("10"), Some("0.02"), Some("0.05"), Some("true"))), [])
  const ExampleMarkerElement: MarkerElement := MarkerElement(None, Some("1"), None, None, [ExampleLocation])
  const ExampleControlPoint: ControlPoint :=
    ControlPoint(Some("1"), Some("GCP1"), "Full", Some("100"), Some("200"), Some("10"), Some("0.02"), Some("0.05"), Some("true"))
  const ExampleMarker: Marker<Pix4dMeasurement> :=
    Marker(Some("1"), [Pix4dMeasurement("IMG_001.JPG", Some("50.5"), Some("60.2"))])
  const ExampleRow: Mark := Mark("IMG_001.JPG", Some("GCP1"), Some("50.5"), Some("60.2"), 10)

  lemma ExampleMeasurement(lookup: Dict<string, string>, measure: Location -> Result<Pix4dMeasurement, Error>)
    requires lookup == CameraLookup(ExampleCameras)
    requires forall l :: measure(l) == Pix4dMeasurementOf(lookup, l)
    ensures MarkerOf(ExampleMarkerElement, measure) == Ok(ExampleMarker)
  {
    assert LabelPairs(ExampleCameras) == [("IMG_001", "c1")];
    assert lookup == [("IMG_001", "c1")];
    assert LabelOf(lookup, "c1") == Some("IMG_001");
    assert "IMG_001" + ".JPG" == "IMG_001.JPG";
    assert measure(ExampleLocation) == Ok(ExampleMarker.measurements[0]);
    var mr := MeasurementsOf([ExampleLocation], measure);
    assert mr.Ok? && |mr.value| == 1 && mr.value[0] == ExampleMarker.measurements[0];
    assert mr.value == ExampleMarker.measurements;
  }

  lemma ExampleExtraction()
    ensures Pix4dGcpFinder([ExampleControlElement, ExampleMarkerElement], CameraLookup(ExampleCameras))
            == Ok(([ExampleControlPoint], [ExampleMarker]))
  {
    var lookup := CameraLookup(ExampleCameras);
    var measure := loc => Pix4dMeasurementOf(lookup, loc);
    ExampleMeasurement(lookup, measure);
    var es := [ExampleControlElement, ExampleMarkerElement];
    assert es[1..] == [ExampleMarkerElement] && [ExampleMarkerElement][1..] == [];
    assert !IsControlPointElement(ExampleMarkerElement) && IsControlPointElement(ExampleControlElement);
    assert ExtractRecords([], measure) == Ok(([], []));
    assert [ExampleMarker] + [] == [ExampleMarker] && [ExampleControlPoint] + [] == [ExampleControlPoint];
    assert ExtractRecords([ExampleMarkerElement], measure) == Ok(([], [ExampleMarker]));
    assert ControlPointOf(ExampleControlElement) == Ok(ExampleControlPoint);
    assert ExtractRecords(es, measure) == Ok(([ExampleControlPoint], [ExampleMarker]));
  }

  lemma ExampleMerge()
    ensures MergeGcpData([ExampleControlPoint], [ExampleMarker]) == [Integrated(ExampleControlPoint, ExampleMarker)]
  {
    var cps := [ExampleControlPoint];
    assert IdPairs(cps) == [(Some("1"), ExampleControlPoint)];
    FromDistinctPairs(IdPairs(cps));
    var d := ControlPointDict(cps);
    assert d == [(Some("1"), ExampleControlPoint)];
    assert Remove(d, Some("1")) == [];
    assert [ExampleMarker][1..] == [];
    assert MergeGcpData(cps, [ExampleMarker]) == [Integrated(ExampleControlPoint, ExampleMarker)] + MergeFrom([], []);
  }

  lemma ExampleMarks()
    ensures MarksCreator([Integrated(ExampleControlPoint, ExampleMarker)]) == Ok([ExampleRow])
  {
    var merged := [Integrated(ExampleControlPoint, ExampleMarker)];
    var rows := RecordMarks(merged[0]).value;
    assert |rows| == 1 && rows[0] == ExampleRow;
    assert rows == [ExampleRow];
    assert merged[1..] == [];
    assert MarksCreator(merged[1..]) == Ok([]);
    assert MarksCreator(merged) == Ok([ExampleRow] + []);
    assert [ExampleRow] + [] == [ExampleRow];
  }

  /** One control point "1" named GCP1 and one marker "1" seen on camera c1
      (label IMG_001) give the single row IMG_001.JPG, GCP1, 50.5, 60.2, 10. */
  lemma Pix4dSingleMarkRow()
    ensures var found := Pix4dGcpFinder([ExampleControlElement, ExampleMarkerElement], CameraLookup(ExampleCameras));
            && found.Ok?
            && MarksCreator(MergeGcpData(found.value.0, found.value.1)) == Ok([ExampleRow])
  {
    ExampleExtraction();
    ExampleMerge();
    ExampleMarks();
  }
}
