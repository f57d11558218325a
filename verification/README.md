# Marker correlation pipeline — a Dafny model

The repository converts photogrammetry marker data (an Agisoft Metashape marker
XML file) into two target formats: a flat marks table for Pix4Dmatic
(`Marker-XML-to-Pix4dMatic-marks-txt.py`) and an iTwin survey XML document
(`Marker-XML-to-iTwin-Markers-XML.py`). Both scripts share one pipeline,
which this project models on in-memory values:

1. a camera lookup `label → id`, and two linear scans over it (the reverse
   lookup `id → first label`, and the iTwin image matcher `stem → first label containing it`);
2. record extraction (`GCPfinder`): a `<marker>` element with an `id` attribute
   becomes a control point, any other becomes a marker with one measurement per
   `<location>`;
3. the merge engine (`merge_gcp_data`), which joins markers to control points by
   id, consuming each control point at most once, and tags every result
   `Integrated`, `MarkerOnly` or `ControlPointOnly`;
4. the two output shapers: `Marks_creator` (flat rows) and `create_survey_xml`
   (a tree of typed nodes instead of XML text).

Python dicts are association lists (`OrderedDict.Dict`) that keep insertion
order: a dict comprehension keeps each key at its first position and gives it the
last value. Every `<marker>`, `<reference>` and `<location>` attribute is an
`Option<string>`; a camera's id and label are plain strings; coordinates and
pixel values stay opaque strings. Where Python raises (KeyError, TypeError,
AttributeError), the model returns `Result.Fail` with the first error the script
would hit.

Modules: `Wrappers` (Option, Result), `Strings` (substring test, `str`,
`lower`), `OrderedDict`, `Records` (all record types), `CameraIndex`,
`ImageResolver`, `Extraction` (both `GCPfinder`s), `MergeEngine`, `FlatMarks`,
`SurveyTree`, `Scenarios` (worked examples).

## Behaviour worth knowing

- Duplicate camera labels: the comprehension keeps the id of the LAST camera
  with a label, at the label's first position
  (`CameraIndex.CameraLookupLastWins`, `CameraIndex.CameraLookupFirstPosition`).
- An unknown camera id in the Pix4Dmatic script: the code evaluates
  `None + '.JPG'` and raises (`Error.UnlabelledCamera`).
- Records without a name or without measurements are not dropped:
  `Marks_creator` raises a KeyError on every `ControlPointOnly` record and on a
  `MarkerOnly` record with a measurement, and `create_survey_xml` raises on
  every `MarkerOnly` record (`cp['ID']`).
- The iTwin image path: the code attaches `image_paths[label]`, which needs an
  image whose name is exactly the label, so a substring match alone attaches
  nothing (`Scenarios.SubstringMatchAloneInsufficient`).
- Leftover control points come in dict order, so of several control points
  with one id only the last survives, at the first one's position.
- The merge writes three tags.

## Model

| member | source | states |
|---|---|---|
| `Strings.Contains` | Marker-XML-to-iTwin-Markers-XML.py:49 | `stem in label` holds exactly when the stem occurs at some offset of the label; the empty stem occurs in every label |
| `Strings.Lower` | Marker-XML-to-iTwin-Markers-XML.py:174 | `.lower()` keeps the length, leaves no upper-case ASCII letter, maps each upper-case letter to its lower-case form and keeps every other character |
| `OrderedDict.FromPairsSpec` | Marker-XML-to-Pix4dMatic-marks-txt.py:85 | a dict comprehension has distinct keys, exactly the keys of the pairs, in order of first occurrence, each mapped to the value of its last pair |
| `OrderedDict.RemoveValues` | Marker-XML-to-Pix4dMatic-marks-txt.py:98 | `del cp_dict[id]` on a present id takes exactly that id's value out of the dict's values |
| `CameraIndex.CameraLookupLastWins` | Marker-XML-to-iTwin-Markers-XML.py:40 | the lookup maps a label to an id exactly when the last camera carrying that label has that id, and has no entry for a label no camera carries |
| `CameraIndex.CameraLookupFirstPosition` | Marker-XML-to-Pix4dMatic-marks-txt.py:127 | the lookup holds exactly the cameras' labels, each at the position of its first occurrence among the cameras |
| `CameraIndex.LabelOf` | Marker-XML-to-iTwin-Markers-XML.py:97-100 | the reverse lookup returns the first label, in lookup order, whose id equals the one sought, and none exactly when no label maps to it |
| `CameraIndex.LabelOfLastCamera` | Marker-XML-to-Pix4dMatic-marks-txt.py:62-65 | a label found by the reverse lookup belongs to a camera with the sought id, the last camera carrying that label |
| `CameraIndex.IdForStem` | Marker-XML-to-iTwin-Markers-XML.py:48-51 | an image stem yields the id of the first label, in lookup order, containing it, and none exactly when no label contains it |
| `ImageResolver.AppendLoopFrom` | Marker-XML-to-iTwin-Markers-XML.py:47-53 | the append loop run from a list already holding entries yields those entries followed by exactly what it builds from the empty list, so each image's entry lands after every earlier image's |
| `ImageResolver.MatchLoop` | Marker-XML-to-iTwin-Markers-XML.py:47-54 | the camera list is exactly what the append loop builds: one entry per accepted image (a stem contained in some label whose first such label maps to a non-empty id), in image order; the matched set is exactly the set of its PhotoIds; each entry comes from an accepted image with that image's path, and every accepted image contributes its entry |
| `ImageResolver.MatchImagesToCameras` | Marker-XML-to-iTwin-Markers-XML.py:37-56 | the returned cameras are one entry per accepted image in image order, each from an accepted image and every accepted image present; the matched set equals their PhotoIds; `image_paths` is the name-to-path comprehension and the lookup is the label-to-id comprehension |
| `ImageResolver.ImagePathsLastWins` | Marker-XML-to-iTwin-Markers-XML.py:41 | `image_paths` has each name once; it maps a name to a path exactly when the last image with that name has that path, and has no entry for a name no image has |
| `Extraction.MeasurementsOf` | Marker-XML-to-iTwin-Markers-XML.py:87-104 | the location loop yields one measurement per location, in order, and fails exactly when some location fails, with the error of the first failing one |
| `Extraction.ExtractRecordsSpec` | Marker-XML-to-iTwin-Markers-XML.py:67-110 | extraction fails exactly when some element fails; otherwise the elements with an `id` become the control points (ID with its `marker_id` fallback, name, category "Full", the six reference values verbatim) and the others become the markers (their `marker_id`, one measurement per location in order), each list in document order |
| `Extraction.Pix4dMeasurementOf` | Marker-XML-to-Pix4dMatic-marks-txt.py:58-71 | a measurement succeeds exactly when some label maps to the camera id; its PhotoId is the first such label followed by ".JPG" and its pixel values are copied; otherwise it fails with the `None + '.JPG'` TypeError |
| `Extraction.Pix4dGcpFinderFails` | Marker-XML-to-Pix4dMatic-marks-txt.py:38-79 | the Pix4Dmatic extraction fails exactly when a control point has no `<reference>` or a marker location has a camera id no label maps to |
| `Extraction.ITwinMeasurementOf` | Marker-XML-to-iTwin-Markers-XML.py:88-102 | PhotoId and pixel values are copied; ImagePath is attached exactly when the camera id is a matched photo AND its first label is non-empty AND that label is an image name, and is then that image's path |
| `Extraction.ITwinImagePathOrigin` | Marker-XML-to-iTwin-Markers-XML.py:96-102 | an attached ImagePath belongs to the last image whose name equals exactly the label found for this id, and that label is carried by a camera with this id that is the last camera with that label (the two dicts of lines 40-41 keep the last entry) |
| `Extraction.ITwinGcpFinderFails` | Marker-XML-to-iTwin-Markers-XML.py:67-83 | the iTwin extraction fails exactly when a control point has no `<reference>` |
| `MergeEngine.MergeFromSpec` | Marker-XML-to-iTwin-Markers-XML.py:117-141 | from any working dict, record i is Integrated with marker i exactly when its id is still in the dict and no earlier marker had it, else MarkerOnly; then come the dict entries no marker names, in dict order |
| `MergeEngine.MergeFromCarries` | Marker-XML-to-iTwin-Markers-XML.py:114-143 | the records carry the markers exactly, in order, and a permutation of the working dict's control points |
| `MergeEngine.MergeMarkerSide` | Marker-XML-to-iTwin-Markers-XML.py:117-135 | record i is Integrated, with the last control point of that id, exactly when some control point has marker i's id and no earlier marker has it; otherwise it is marker i alone |
| `MergeEngine.MergeLeftovers` | Marker-XML-to-iTwin-Markers-XML.py:137-141 | after the marker records come, unchanged and in dict order, the control points whose id no marker names; so the length is markers plus unmatched control points |
| `MergeEngine.MergeConsumesOnce` | Marker-XML-to-iTwin-Markers-XML.py:120-129 | two Integrated records never share a marker id: a later marker with a consumed id is MarkerOnly |
| `MergeEngine.MergeConsumedNotLeftOver` | Marker-XML-to-iTwin-Markers-XML.py:129-141 | every record after the marker records is ControlPointOnly, and none has the id of an Integrated record |
| `MergeEngine.MergeCarries` | Marker-XML-to-Pix4dMatic-marks-txt.py:83-112 | every marker appears once, in order; every dict entry appears once; records + Integrated = markers + distinct control-point ids; each carried control point is the last input with its id |
| `MergeEngine.MergeUniqueIds` | Marker-XML-to-Pix4dMatic-marks-txt.py:82-111 | with unique control-point ids every input control point appears in exactly one record, and the output holds one record per marker plus one per unmatched control point |
| `MergeEngine.MergeUniqueLeftovers` | Marker-XML-to-Pix4dMatic-marks-txt.py:104-109 | with unique control-point ids the records after the markers are the unmatched control points in input order |
| `FlatMarks.MarksCreator` | Marker-XML-to-Pix4dMatic-marks-txt.py:114-120 | `Marks_creator` fails exactly when some record is ControlPointOnly or is a MarkerOnly record with a measurement; otherwise it emits as many rows as there are measurements |
| `FlatMarks.MarksCreatorRows` | Marker-XML-to-Pix4dMatic-marks-txt.py:116-118 | the row of measurement j of record i sits after all rows of earlier records and holds the PhotoId, the control point's name, both pixel values and weight 10 |
| `SurveyTree.MeasurementNodes` | Marker-XML-to-iTwin-Markers-XML.py:178-186 | one Measurement node per measurement, in order, with PhotoId, ImagePath, x and y; fails exactly when a measurement has no ImagePath |
| `SurveyTree.ControlPointNodes` | Marker-XML-to-iTwin-Markers-XML.py:161-188 | one ControlPoint node per record, in order, with its control point's values as text, SRSId "2", category "Full", CheckPoint lower-cased and measurement children only for Integrated records; fails exactly when a record is MarkerOnly, has no name, or has a measurement without ImagePath |
| `SurveyTree.CreateSurveyXml` | Marker-XML-to-iTwin-Markers-XML.py:148-188 | the document declares the one SRS (id "2", EPSG:32639) and holds the control-point nodes of all records, with the same failure condition |
| `SurveyTree.SurveyRejectsMarkerOnly` | Marker-XML-to-iTwin-Markers-XML.py:163 | a MarkerOnly record anywhere makes the document fail: none ever becomes a node |
| `Scenarios.SubstringMatchAloneInsufficient` | Marker-XML-to-iTwin-Markers-XML.py:96-102 | image IMG_001 matches the camera labelled IMG_001_extra, yet a location on that camera gets no ImagePath |
| `Scenarios.Pix4dSingleMarkRow` | Marker-XML-to-Pix4dMatic-marks-txt.py:126-132 | one control point GCP1 and one marker on camera IMG_001 give the single row IMG_001.JPG, GCP1, 50.5, 60.2, 10 |

## Left out

- XML parsing and XPath (`cameraIDfinder`, `etree.parse`, `find`, `xpath`): the
  parsed elements are the input datatypes `Camera` and `MarkerElement`.
- Cameras without an `id` or `label` attribute: `Camera` holds two strings, so
  the TypeError that `stem in None` would raise is not modelled.
- The filesystem walk `get_image_paths` and its extension filter: the image files
  are an input sequence of (name stem, path).
- pandas DataFrames, `to_csv`, `tree.write` and pretty-printing, the unused
  `sqldf` lambda, `Files_Path`, `network` and the `__main__` blocks; the
  survey document is a tree of typed nodes, not XML text.
- lxml's rejection of text with characters XML cannot hold (ValueError): text
  values are taken as valid.
- Strings.Lower: lower-cases ASCII letters only, because Python's `str.lower`
  maps the full Unicode range.
