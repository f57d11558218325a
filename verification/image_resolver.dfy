/** Matching image files on disk to cameras (`match_images_to_cameras`). */
module ImageResolver {
  import opened Wrappers
  import opened OrderedDict
  import opened Records
  import opened CameraIndex

  /** One entry of the `cameras` list: `{'PhotoId': ..., 'ImagePath': ...}`. */
  datatype CameraMatch = CameraMatch(photoId: string, imagePath: string)

  /** The four values `match_images_to_cameras` returns. */
  datatype Resolution = Resolution(
    cameras: seq<CameraMatch>,
    imagePaths: Dict<string, string>,
    matchedPhotos: set<string>,
    cameraLookup: Dict<string, string>)

  /** The id the scan finds for an image, when Python's `if photo_id:` accepts it
      (present and not the empty string). */
  predicate AcceptedId(lookup: Dict<string, string>, image: ImageFile, id: string) {
    IdForStem(lookup, image.name) == Some(id) && id != ""
  }

  /** The loop over the image files: each image whose name stem is contained in
      some label, and whose first such label maps to a non-empty id, adds one
      `(id, path)` entry and adds the id to the matched set. */
  function MatchLoop(images: seq<ImageFile>, lookup: Dict<string, string>): (r: (seq<CameraMatch>, set<string>))
    ensures r.1 == set c | c in r.0 :: c.photoId
    ensures |r.0| <= |images|
    ensures forall k :: 0 <= k < |r.0| ==> FromAcceptedImage(images, lookup, r.0[k])
    ensures forall i, id :: 0 <= i < |images| && AcceptedId(lookup, images[i], id) ==> CameraMatch(id, images[i].path) in r.0
    ensures r.0 == AppendLoop(images, lookup, [])
  {
    if |images| == 0 then ([], {})
    else
      var rest := MatchLoop(images[1..], lookup);
      AppendLoopFrom(images[1..], lookup, EntryOf(lookup, images[0]));
      assert [] + EntryOf(lookup, images[0]) == EntryOf(lookup, images[0]);
      match IdForStem(lookup, images[0].name)
      case Some(id) =>
        if id != "" then
          MatchAccepted(images, lookup, id, rest);
          ([CameraMatch(id, images[0].path)] + rest.0, {id} + rest.1)
        else
          MatchSkipped(images, lookup, rest);
          rest
      case None =>
        MatchSkipped(images, lookup, rest);
        rest
  }

  /** The entry one image appends to `cameras`: one when the scan accepts it, none otherwise. */
  function EntryOf(lookup: Dict<string, string>, image: ImageFile): seq<CameraMatch> {
    match IdForStem(lookup, image.name)
    case Some(id) => if id != "" then [CameraMatch(id, image.path)] else []
    case None => []
  }

  /** The `for img in imagfiles: ... cameras.append(...)` loop as written:
      `acc` is the list built so far, each image appends its entry at the end. */
  function AppendLoop(images: seq<ImageFile>, lookup: Dict<string, string>, acc: seq<CameraMatch>): seq<CameraMatch> {
    if |images| == 0 then acc
    else AppendLoop(images[1..], lookup, acc + EntryOf(lookup, images[0]))
  }

  /** The loop started from any list only prefixes that list to what it builds from `[]`. */
  lemma {:induction false} AppendLoopFrom(images: seq<ImageFile>, lookup: Dict<string, string>, acc: seq<CameraMatch>)
    ensures AppendLoop(images, lookup, acc) == acc + AppendLoop(images, lookup, [])
    decreases |images|
  {
    if |images| > 0 {
      var e, tail := EntryOf(lookup, images[0]), images[1..];
      assert AppendLoop(images, lookup, acc) == AppendLoop(tail, lookup, acc + e);
      assert AppendLoop(images, lookup, []) == AppendLoop(tail, lookup, [] + e);
      assert [] + e == e;
      AppendLoopFrom(tail, lookup, acc + e);
      AppendLoopFrom(tail, lookup, e);
      var built := AppendLoop(tail, lookup, []);
      assert (acc + e) + built == acc + (e + built);
    }
  }

  /** Some image, accepted with this id, has this path. */
  predicate FromAcceptedImage(images: seq<ImageFile>, lookup: Dict<string, string>, c: CameraMatch) {
    exists i :: 0 <= i < |images| && AcceptedId(lookup, images[i], c.photoId) && images[i].path == c.imagePath
  }

  /** The step of `MatchLoop` for an accepted first image. */
  lemma MatchAccepted(images: seq<ImageFile>, lookup: Dict<string, string>, id: string, rest: (seq<CameraMatch>, set<string>))
    requires |images| > 0 && AcceptedId(lookup, images[0], id)
    requires rest.1 == set c | c in rest.0 :: c.photoId
    requires |rest.0| <= |images| - 1
    requires forall k :: 0 <= k < |rest.0| ==> FromAcceptedImage(images[1..], lookup, rest.0[k])
    requires forall i, id' :: 0 <= i < |images| - 1 && AcceptedId(lookup, images[1..][i], id') ==> CameraMatch(id', images[1..][i].path) in rest.0
    ensures var r := ([CameraMatch(id, images[0].path)] + rest.0, {id} + rest.1);
            && r.1 == (set c | c in r.0 :: c.photoId)
            && (forall k :: 0 <= k < |r.0| ==> FromAcceptedImage(images, lookup, r.0[k]))
            && (forall i, id' :: 0 <= i < |images| && AcceptedId(lookup, images[i], id') ==> CameraMatch(id', images[i].path) in r.0)
  {
    var r := ([CameraMatch(id, images[0].path)] + rest.0, {id} + rest.1);
    forall k | 0 <= k < |r.0| ensures FromAcceptedImage(images, lookup, r.0[k]) {
      if k == 0 {
        assert AcceptedId(lookup, images[0], r.0[0].photoId);
      } else {
        ConsIndex(CameraMatch(id, images[0].path), rest.0, k);
        var i :| 0 <= i < |images| - 1 && AcceptedId(lookup, images[1..][i], rest.0[k - 1].photoId) && images[1..][i].path == rest.0[k - 1].imagePath;
        assert images[i + 1] == images[1..][i];
      }
    }
    forall i, id' | 0 <= i < |images| && AcceptedId(lookup, images[i], id') ensures CameraMatch(id', images[i].path) in r.0 {
      if i == 0 {
        assert id' == id;
        assert r.0[0] == CameraMatch(id, images[0].path);
      } else {
        assert images[i] == images[1..][i - 1];
        assert CameraMatch(id', images[i].path) in rest.0;
      }
    }
  }

  lemma ConsIndex<T>(x: T, s: seq<T>, k: int)
    requires 0 < k <= |s|
    ensures ([x] + s)[k] == s[k - 1]
  {
  }

  /** The step of `MatchLoop` for a first image the scan does not accept. */
  lemma MatchSkipped(images: seq<ImageFile>, lookup: Dict<string, string>, rest: (seq<CameraMatch>, set<string>))
    requires |images| > 0 && forall id :: !AcceptedId(lookup, images[0], id)
    requires forall k :: 0 <= k < |rest.0| ==> FromAcceptedImage(images[1..], lookup, rest.0[k])
    requires forall i, id' :: 0 <= i < |images| - 1 && AcceptedId(lookup, images[1..][i], id') ==> CameraMatch(id', images[1..][i].path) in rest.0
    ensures forall k :: 0 <= k < |rest.0| ==> FromAcceptedImage(images, lookup, rest.0[k])
    ensures forall i, id' :: 0 <= i < |images| && AcceptedId(lookup, images[i], id') ==> CameraMatch(id', images[i].path) in rest.0
  {
    forall k | 0 <= k < |rest.0| ensures FromAcceptedImage(images, lookup, rest.0[k]) {
      var i :| 0 <= i < |images| - 1 && AcceptedId(lookup, images[1..][i], rest.0[k].photoId) && images[1..][i].path == rest.0[k].imagePath;
      assert images[i + 1] == images[1..][i];
    }
    forall i, id' | 0 <= i < |images| && AcceptedId(lookup, images[i], id') ensures CameraMatch(id', images[i].path) in rest.0 {
      assert images[i] == images[1..][i - 1];
    }
  }

  /** `match_images_to_cameras(imagfiles, camera_info)`. */
  function MatchImagesToCameras(images: seq<ImageFile>, cameras: seq<Camera>): (r: Resolution)
    ensures r.matchedPhotos == set c | c in r.cameras :: c.photoId
    ensures r.cameras == AppendLoop(images, CameraLookup(cameras), [])
    ensures forall k :: 0 <= k < |r.cameras| ==> FromAcceptedImage(images, CameraLookup(cameras), r.cameras[k])
    ensures forall i, id :: 0 <= i < |images| && AcceptedId(CameraLookup(cameras), images[i], id) ==>
              CameraMatch(id, images[i].path) in r.cameras
    ensures r.imagePaths == ImagePaths(images)
    ensures r.cameraLookup == CameraLookup(cameras)
  {
    var lookup := CameraLookup(cameras);
    var (found, matched) := MatchLoop(images, lookup);
    Resolution(found, ImagePaths(images), matched, lookup)
  }

  /** The (name, path) pair of each image, in order. */
  function ImagePairs(images: seq<ImageFile>): (ps: seq<(string, string)>)
    ensures |ps| == |images|
    ensures forall i :: 0 <= i < |images| ==> ps[i] == (images[i].name, images[i].path)
  {
    seq(|images|, i requires 0 <= i < |images| => (images[i].name, images[i].path))
  }

  /** `image_paths = {img['name']: img['path'] for img in imagfiles}`. */
  function ImagePaths(images: seq<ImageFile>): Dict<string, string> {
    FromPairs(ImagePairs(images))
  }

  /** `images[i]` is the last image with its name. */
  predicate IsLastImageNamed(images: seq<ImageFile>, i: int)
    requires 0 <= i < |images|
  {
    IsLastWithKey(ImagePairs(images), i)
  }

  /** `image_paths` has each name once; it maps a name to the path of the last
      image with that name, and holds no name no image has. */
  lemma ImagePathsLastWins(images: seq<ImageFile>, name: string, path: string)
    ensures DistinctKeys(ImagePaths(images))
    ensures Get(ImagePaths(images), name) == Some(path) <==>
              exists i :: 0 <= i < |images| && images[i] == ImageFile(name, path) && IsLastImageNamed(images, i)
    ensures Get(ImagePaths(images), name).None? <==> forall i :: 0 <= i < |images| ==> images[i].name != name
  {
    var ps := ImagePairs(images);
    FromPairsSpec(ps);
    var r := LastValue(ps, name);
    assert Get(ImagePaths(images), name) == r;
    if r == Some(path) {
      var i :| 0 <= i < |ps| && ps[i] == (name, path) && IsLastWithKey(ps, i);
      assert images[i] == ImageFile(name, path);
    }
    if i :| 0 <= i < |images| && images[i] == ImageFile(name, path) && IsLastImageNamed(images, i) {
      assert ps[i].0 == name;
      assert r.Some?;
      var i' :| 0 <= i' < |ps| && ps[i'] == (name, r.value) && IsLastWithKey(ps, i');
      assert i' == i by {
        assert !(i' < i) && !(i < i');
      }
    }
  }
}
