/** The storage path of a Landsat 8 scene on the public bucket
    (landsat8/core.py, construct_scene_url_path and the request path of
    is_scene_available). A scene id such as "LC80440342016259LGN00" carries
    the WRS path at offsets 3..6 and the row at offsets 6..9. */
module SceneUrl {

  function Min(a: nat, b: nat): nat {
    if a <= b then a else b
  }

  /** Python's `s[start:stop]` for non-negative bounds: both bounds are
      clamped to `len(s)`, so a text that is too short gives a shorter or
      empty slice instead of an error. */
  function Slice(s: string, start: nat, stop: nat): (r: string)
    requires start <= stop
    ensures |r| == if |s| <= start then 0 else Min(stop, |s|) - start
    ensures forall i :: 0 <= i < |r| ==> r[i] == s[start + i]
  {
    if |s| <= start then "" else s[start..Min(stop, |s|)]
  }

  /** `"/L8/" + id[3:6] + "/" + id[6:9] + "/" + id`: the directory of a scene. */
  function ConstructSceneUrlPath(sceneId: string): (r: string)
    ensures |sceneId| + 6 <= |r| <= |sceneId| + 12
    ensures r[..4] == "/L8/"
    ensures r[|r| - |sceneId|..] == sceneId
    ensures |sceneId| >= 9 ==> |r| == |sceneId| + 12
  {
    "/L8/" + Slice(sceneId, 3, 6) + "/" + Slice(sceneId, 6, 9) + "/" + sceneId
  }

  /** For a full-length id the path, row and id sit at fixed offsets of the path. */
  lemma UrlPathFields(sceneId: string)
    requires |sceneId| >= 9
    ensures var r := ConstructSceneUrlPath(sceneId);
      r[4..7] == sceneId[3..6] && r[7] == '/' &&
      r[8..11] == sceneId[6..9] && r[11] == '/' &&
      r[12..] == sceneId
  {
    var r := ConstructSceneUrlPath(sceneId);
    assert r == "/L8/" + sceneId[3..6] + "/" + sceneId[6..9] + "/" + sceneId;
  }

  /** Short ids are not rejected: Python's slice clamping gives empty fields. */
  lemma ShortIdPaths()
    ensures ConstructSceneUrlPath("") == "/L8///"
    ensures ConstructSceneUrlPath("LC8044") == "/L8/044//LC8044"
  {
    assert Slice("", 3, 6) == "" && Slice("", 6, 9) == "";
    assert Slice("LC8044", 3, 6) == "044" && Slice("LC8044", 6, 9) == "";
  }

  /** Distinct scene ids always give distinct paths, whatever their length:
      the path's length grows strictly with the id's, and the id is the
      path's suffix of its own length. */
  lemma UrlPathInjective(a: string, b: string)
    requires ConstructSceneUrlPath(a) == ConstructSceneUrlPath(b)
    ensures a == b
  {
  }

  /** The text after the last '/', or all of `p` when it has none. */
  function AfterLastSlash(p: string): (r: string)
    ensures '/' !in r
    ensures |r| <= |p| && r == p[|p| - |r|..]
    ensures |r| < |p| ==> p[|p| - |r| - 1] == '/'
  {
    if p == [] || p[|p| - 1] == '/' then ""
    else AfterLastSlash(p[..|p| - 1]) + [p[|p| - 1]]
  }

  lemma {:induction false} AfterLastSlashOfSegment(a: string, b: string)
    requires '/' !in b
    ensures AfterLastSlash(a + "/" + b) == b
    decreases |b|
  {
    var p := a + "/" + b;
    if b != [] {
      var b' := b[..|b| - 1];
      assert p[..|p| - 1] == a + "/" + b';
      AfterLastSlashOfSegment(a, b');
      assert b == b' + [b[|b| - 1]];
    }
  }

  /** The scene id can be read back from its path as the last segment,
      for every id without a '/' in it. */
  lemma UrlPathRoundTrip(sceneId: string)
    requires '/' !in sceneId
    ensures AfterLastSlash(ConstructSceneUrlPath(sceneId)) == sceneId
  {
    AfterLastSlashOfSegment("/L8/" + Slice(sceneId, 3, 6) + "/" + Slice(sceneId, 6, 9), sceneId);
  }

  /** The page requested to tell whether a scene is published. */
  function IndexPagePath(sceneId: string): (r: string)
    ensures |r| >= |sceneId| + 17
    ensures r[..4] == "/L8/"
    ensures r[|r| - 11..] == "/index.html"
    ensures r[|r| - 11 - |sceneId|..|r| - 11] == sceneId
  {
    ConstructSceneUrlPath(sceneId) + "/index.html"
  }

  /** Probing two different scenes never requests the same page. */
  lemma IndexPagePathInjective(a: string, b: string)
    requires IndexPagePath(a) == IndexPagePath(b)
    ensures a == b
  {
    var pa, pb := IndexPagePath(a), IndexPagePath(b);
    assert ConstructSceneUrlPath(a) == pa[..|pa| - 11];
    assert ConstructSceneUrlPath(b) == pb[..|pb| - 11];
    UrlPathInjective(a, b);
  }
}
