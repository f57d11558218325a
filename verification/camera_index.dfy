/** The label-to-id camera lookup and the two linear scans over it. */
module CameraIndex {
  import opened Wrappers
  import opened Strings
  import opened OrderedDict
  import opened Records

  /** The (label, id) pair each camera contributes, in camera order. */
  function LabelPairs(cameras: seq<Camera>): (ps: seq<(string, string)>)
    ensures |ps| == |cameras|
    ensures forall i :: 0 <= i < |cameras| ==> ps[i] == (cameras[i].cameraLabel, cameras[i].id)
  {
    seq(|cameras|, i requires 0 <= i < |cameras| => (cameras[i].cameraLabel, cameras[i].id))
  }

  /** `camera_lookup = {row['label']: row['id'] for _, row in camera_info.iterrows()}`. */
  function CameraLookup(cameras: seq<Camera>): Dict<string, string> {
    FromPairs(LabelPairs(cameras))
  }

  /** `cameras[i]` is the last camera carrying its label. */
  predicate IsLastWithLabel(cameras: seq<Camera>, i: int)
    requires 0 <= i < |cameras|
  {
    IsLastWithKey(LabelPairs(cameras), i)
  }

  /** The lookup has each label once; it maps a label to the id of the last
      camera carrying it, and holds no label no camera carries. */
  lemma CameraLookupLastWins(cameras: seq<Camera>, lbl: string, id: string)
    ensures DistinctKeys(CameraLookup(cameras))
    ensures Get(CameraLookup(cameras), lbl) == Some(id) <==>
              exists i :: 0 <= i < |cameras| && cameras[i] == Camera(id, lbl) && IsLastWithLabel(cameras, i)
    ensures Get(CameraLookup(cameras), lbl).None? <==> forall i :: 0 <= i < |cameras| ==> cameras[i].cameraLabel != lbl
  {
    var ps := LabelPairs(cameras);
    FromPairsSpec(ps);
    var r := LastValue(ps, lbl);
    assert Get(CameraLookup(cameras), lbl) == r;
    if r == Some(id) {
      var i :| 0 <= i < |ps| && ps[i] == (lbl, id) && IsLastWithKey(ps, i);
      assert cameras[i] == Camera(id, lbl) && IsLastWithLabel(cameras, i);
    }
    if i :| 0 <= i < |cameras| && cameras[i] == Camera(id, lbl) && IsLastWithLabel(cameras, i) {
      assert ps[i].0 == lbl;
      assert r.Some?;
      var i' :| 0 <= i' < |ps| && ps[i'] == (lbl, r.value) && IsLastWithKey(ps, i');
      assert i' == i by {
        assert !(i' < i) && !(i < i');
      }
    }
  }

  /** The label the reverse lookup returns belongs to a camera with the id
      looked up, the last camera carrying that label. */
  lemma LabelOfLastCamera(cameras: seq<Camera>, id: string)
    requires LabelOf(CameraLookup(cameras), id).Some?
    ensures exists k :: 0 <= k < |cameras| && cameras[k] == Camera(id, LabelOf(CameraLookup(cameras), id).value) &&
              IsLastWithLabel(cameras, k)
  {
    var lookup := CameraLookup(cameras);
    var lbl := LabelOf(lookup, id).value;
    var idx :| 0 <= idx < |lookup| && lookup[idx] == (lbl, id) && forall j :: 0 <= j < idx ==> lookup[j].1 != id;
    FromPairsSpec(LabelPairs(cameras));
    GetEntry(lookup, idx);
    CameraLookupLastWins(cameras, lbl, id);
  }

  /** Each label sits where it first occurred among the cameras, however often it recurs. */
  lemma CameraLookupFirstPosition(cameras: seq<Camera>)
    ensures forall lbl :: lbl in Keys(CameraLookup(cameras)) <==> exists i :: 0 <= i < |cameras| && cameras[i].cameraLabel == lbl
    ensures forall i, j :: 0 <= i < j < |CameraLookup(cameras)| ==>
              FirstIndex(Keys(LabelPairs(cameras)), CameraLookup(cameras)[i].0)
              < FirstIndex(Keys(LabelPairs(cameras)), CameraLookup(cameras)[j].0)
  {
    var ps := LabelPairs(cameras);
    FromPairsSpec(ps);
    forall lbl ensures lbl in Keys(CameraLookup(cameras)) <==> exists i :: 0 <= i < |cameras| && cameras[i].cameraLabel == lbl {
      if i :| 0 <= i < |cameras| && cameras[i].cameraLabel == lbl {
        assert Keys(ps)[i] == lbl;
      }
    }
  }

  /** `next((label for label, cam_id in camera_lookup.items() if cam_id == id), None)`:
      the first label, in lookup order, mapped to `id`. */
  function LabelOf(lookup: Dict<string, string>, id: string): (r: Option<string>)
    ensures r.None? <==> forall i :: 0 <= i < |lookup| ==> lookup[i].1 != id
    ensures r.Some? ==> exists i :: 0 <= i < |lookup| && lookup[i] == (r.value, id) &&
                          forall j :: 0 <= j < i ==> lookup[j].1 != id
  {
    if |lookup| == 0 then None
    else if lookup[0].1 == id then Some(lookup[0].0)
    else
      var r := LabelOf(lookup[1..], id);
      assert forall i :: 0 < i < |lookup| ==> lookup[i] == lookup[1..][i - 1];
      assert r.Some? ==> exists i :: 0 <= i < |lookup| && lookup[i] == (r.value, id) &&
                          forall j :: 0 <= j < i ==> lookup[j].1 != id by {
        if r.Some? {
          var i :| 0 <= i < |lookup[1..]| && lookup[1..][i] == (r.value, id) &&
                   forall j :: 0 <= j < i ==> lookup[1..][j].1 != id;
          assert lookup[i + 1] == (r.value, id);
        }
      }
      r
  }

  /** `next((cam_id for label, cam_id in camera_lookup.items() if stem in label), None)`:
      the id of the first label, in lookup order, that contains `stem`. */
  function IdForStem(lookup: Dict<string, string>, stem: string): (r: Option<string>)
    ensures r.None? <==> forall i :: 0 <= i < |lookup| ==> !Contains(lookup[i].0, stem)
    ensures r.Some? ==> exists i :: 0 <= i < |lookup| && lookup[i].1 == r.value && Contains(lookup[i].0, stem) &&
                          forall j :: 0 <= j < i ==> !Contains(lookup[j].0, stem)
  {
    if |lookup| == 0 then None
    else if Contains(lookup[0].0, stem) then Some(lookup[0].1)
    else
      var r := IdForStem(lookup[1..], stem);
      assert forall i :: 0 < i < |lookup| ==> lookup[i] == lookup[1..][i - 1];
      assert r.Some? ==> exists i :: 0 <= i < |lookup| && lookup[i].1 == r.value && Contains(lookup[i].0, stem) &&
                          forall j :: 0 <= j < i ==> !Contains(lookup[j].0, stem) by {
        if r.Some? {
          var i :| 0 <= i < |lookup[1..]| && lookup[1..][i].1 == r.value && Contains(lookup[1..][i].0, stem) &&
                   forall j :: 0 <= j < i ==> !Contains(lookup[1..][j].0, stem);
          assert lookup[i + 1] == lookup[1..][i];
        }
      }
      r
  }
}
