/** Finding the newest published scene in the Landsat 8 RSS feed
    (landsat8/core.py, bisect_scenes). The feed lists entries newest first;
    the search looks for the earliest entry whose scene the availability
    probe reports as published. The probe, an HTTP request in the program,
    is a parameter here: a deterministic predicate on scene ids. */
module LatestScene {
  import opened SceneDescription

  /** One entry of the feed; only its free-text description is read. */
  datatype FeedEntry = FeedEntry(description: string)

  /** The scene id of entry i, as the search extracts it. */
  function SceneIdAt(scenes: seq<FeedEntry>, i: nat): string
    requires i < |scenes|
  {
    ExtractSceneId(scenes[i].description)
  }

  /** is_scene_available: whether the scene's index page is published. The
      HTTP request is the injected, deterministic `probe`. */
  predicate IsSceneAvailable(probe: string -> bool, sceneId: string) {
    probe(sceneId)
  }

  predicate Available(scenes: seq<FeedEntry>, probe: string -> bool, i: nat)
    requires i < |scenes|
  {
    IsSceneAvailable(probe, SceneIdAt(scenes, i))
  }

  /** k is a place where availability switches from false to true: the
      entry at k (if any) is available and the one before it (if any) is not. */
  predicate IsBoundary(scenes: seq<FeedEntry>, probe: string -> bool, k: nat) {
    k <= |scenes| &&
    (k == |scenes| || Available(scenes, probe, k)) &&
    (k == 0 || !Available(scenes, probe, k - 1))
  }

  /** Publication lag is monotone: once an entry is available, so are all
      older ones after it in the feed. */
  predicate Monotone(scenes: seq<FeedEntry>, probe: string -> bool) {
    forall i, j :: 0 <= i <= j < |scenes| && Available(scenes, probe, i) ==> Available(scenes, probe, j)
  }

  /** The reference answer: a linear scan for the first available entry at
      or after `from`, or |scenes| when there is none. */
  function FirstAvailable(scenes: seq<FeedEntry>, probe: string -> bool, from: nat): (k: nat)
    requires from <= |scenes|
    ensures from <= k <= |scenes|
    ensures k < |scenes| ==> Available(scenes, probe, k)
    ensures forall i :: from <= i < k ==> !Available(scenes, probe, i)
    decreases |scenes| - from
  {
    if from == |scenes| || Available(scenes, probe, from) then from
    else FirstAvailable(scenes, probe, from + 1)
  }

  /** The first available entry is always a boundary. */
  lemma FirstAvailableIsBoundary(scenes: seq<FeedEntry>, probe: string -> bool)
    ensures IsBoundary(scenes, probe, FirstAvailable(scenes, probe, 0))
  {
  }

  /** When no entry is available, the only boundary is the end of the feed. */
  lemma BoundaryWhenNoneAvailable(scenes: seq<FeedEntry>, probe: string -> bool, k: nat)
    requires forall i :: 0 <= i < |scenes| ==> !Available(scenes, probe, i)
    requires IsBoundary(scenes, probe, k)
    ensures k == |scenes|
  {
  }

  /** Under monotone availability the boundary is unique: it is the first
      available entry. */
  lemma MonotoneBoundaryIsFirst(scenes: seq<FeedEntry>, probe: string -> bool, k: nat)
    requires Monotone(scenes, probe)
    requires IsBoundary(scenes, probe, k)
    ensures k == FirstAvailable(scenes, probe, 0)
  {
  }

  /** Without monotonicity a feed can have several boundaries, so the search
      may return an entry other than the first available one: in a feed of
      three entries where only the middle one is unavailable, both 0 and 2
      are boundaries. */
  lemma {:induction false} BoundaryNotUniqueWithoutMonotone(scenes: seq<FeedEntry>, probe: string -> bool)
    requires |scenes| == 3
    requires Available(scenes, probe, 0) && !Available(scenes, probe, 1) && Available(scenes, probe, 2)
    ensures !Monotone(scenes, probe)
    ensures IsBoundary(scenes, probe, 0) && IsBoundary(scenes, probe, 2)
    ensures FirstAvailable(scenes, probe, 0) == 0
  {
    assert !(Available(scenes, probe, 0) ==> Available(scenes, probe, 1));
  }

  /** Binary digits of n, i.e. the ceiling of log2(n + 1): the number of
      halvings that bring n down to 0. */
  function Bits(n: nat): nat {
    if n == 0 then 0 else 1 + Bits(n / 2)
  }

  function Pow2(m: nat): (p: nat)
    ensures p >= 1
  {
    if m == 0 then 1 else 2 * Pow2(m - 1)
  }

  /** Bits(n) is the least m with n < 2^m. */
  lemma {:induction false} BitsIsCeilLog2(n: nat)
    ensures n < Pow2(Bits(n))
    ensures n > 0 ==> Pow2(Bits(n) - 1) <= n
  {
    if n > 0 {
      BitsIsCeilLog2(n / 2);
    }
  }

  /** One step of the search at least halves a range of size k < 2^b, so
      the new range fits in one binary digit fewer. */
  lemma HalvingWithinBudget(k: nat, k': nat, b: nat)
    requires 0 < k < Pow2(b) && 2 * k' <= k
    ensures 0 < b && k' < Pow2(b - 1)
  {
  }

  /** The search as a recursive reference: the index where bisection over
      [lo, hi) settles. Entry (lo + hi) / 2 is probed; the search goes on in
      [lo, mid) when it is available and in [mid + 1, hi) otherwise. */
  function Bisect(scenes: seq<FeedEntry>, probe: string -> bool, lo: nat, hi: nat): (k: nat)
    requires lo <= hi <= |scenes|
    ensures lo <= k <= hi
    decreases hi - lo
  {
    if lo == hi then lo
    else
      var mid := (lo + hi) / 2;
      if Available(scenes, probe, mid) then Bisect(scenes, probe, lo, mid)
      else Bisect(scenes, probe, mid + 1, hi)
  }

  /** The number of passes the bisection makes over [lo, hi). */
  function BisectSteps(scenes: seq<FeedEntry>, probe: string -> bool, lo: nat, hi: nat): nat
    requires lo <= hi <= |scenes|
    decreases hi - lo
  {
    if lo == hi then 0
    else
      var mid := (lo + hi) / 2;
      if Available(scenes, probe, mid) then 1 + BisectSteps(scenes, probe, lo, mid)
      else 1 + BisectSteps(scenes, probe, mid + 1, hi)
  }

  /** Started from a range whose ends satisfy the boundary conditions, the
      bisection settles on a boundary. */
  lemma {:induction false} BisectIsBoundary(scenes: seq<FeedEntry>, probe: string -> bool, lo: nat, hi: nat)
    requires lo <= hi <= |scenes|
    requires hi == |scenes| || Available(scenes, probe, hi)
    requires lo == 0 || !Available(scenes, probe, lo - 1)
    ensures IsBoundary(scenes, probe, Bisect(scenes, probe, lo, hi))
    decreases hi - lo
  {
    if lo < hi {
      var mid := (lo + hi) / 2;
      if Available(scenes, probe, mid) {
        BisectIsBoundary(scenes, probe, lo, mid);
      } else {
        BisectIsBoundary(scenes, probe, mid + 1, hi);
      }
    }
  }

  lemma {:induction false} BisectStepsWithinBudget(scenes: seq<FeedEntry>, probe: string -> bool, lo: nat, hi: nat, b: nat)
    requires lo <= hi <= |scenes|
    requires hi - lo < Pow2(b)
    ensures BisectSteps(scenes, probe, lo, hi) <= b
    decreases hi - lo
  {
    if lo < hi {
      var mid := (lo + hi) / 2;
      if Available(scenes, probe, mid) {
        HalvingWithinBudget(hi - lo, mid - lo, b);
        BisectStepsWithinBudget(scenes, probe, lo, mid, b - 1);
      } else {
        HalvingWithinBudget(hi - lo, hi - mid - 1, b);
        BisectStepsWithinBudget(scenes, probe, mid + 1, hi, b - 1);
      }
    }
  }

  /** The loop of bisect_scenes runs at most ceil(log2(n + 1)) times on a
      feed of n entries. */
  lemma BisectStepsBound(scenes: seq<FeedEntry>, probe: string -> bool)
    ensures BisectSteps(scenes, probe, 0, |scenes|) <= Bits(|scenes|)
  {
    BitsIsCeilLog2(|scenes|);
    BisectStepsWithinBudget(scenes, probe, 0, |scenes|, Bits(|scenes|));
  }

  /** A pass that keeps [lo, mid) when entry mid is available and
      [mid + 1, hi) otherwise leaves the reference's answer unchanged and
      uses up one of its passes. */
  lemma PassOfBisect(scenes: seq<FeedEntry>, probe: string -> bool, lo: nat, hi: nat, lo': nat, hi': nat)
    requires lo < hi <= |scenes|
    requires Available(scenes, probe, (lo + hi) / 2) ==> lo' == lo && hi' == (lo + hi) / 2
    requires !Available(scenes, probe, (lo + hi) / 2) ==> lo' == (lo + hi) / 2 + 1 && hi' == hi
    ensures lo' <= hi' <= |scenes|
    ensures Bisect(scenes, probe, lo', hi') == Bisect(scenes, probe, lo, hi)
    ensures BisectSteps(scenes, probe, lo, hi) == 1 + BisectSteps(scenes, probe, lo', hi')
  {
  }

  /** One pass of the loop of bisect_scenes: probe entry (lo + hi) / 2 and
      keep [lo, mid) when it is available, [mid + 1, hi) otherwise. */
  method NarrowStep(scenes: seq<FeedEntry>, probe: string -> bool, lo: nat, hi: nat)
    returns (lo': nat, hi': nat)
    requires lo < hi <= |scenes|
    requires hi == |scenes| || Available(scenes, probe, hi)
    requires lo == 0 || !Available(scenes, probe, lo - 1)
    ensures Available(scenes, probe, (lo + hi) / 2) ==> lo' == lo && hi' == (lo + hi) / 2
    ensures !Available(scenes, probe, (lo + hi) / 2) ==> lo' == (lo + hi) / 2 + 1 && hi' == hi
    ensures lo <= lo' <= hi' <= hi && 2 * (hi' - lo') <= hi - lo
    ensures hi' == |scenes| || Available(scenes, probe, hi')
    ensures lo' == 0 || !Available(scenes, probe, lo' - 1)
  {
    var mid := (lo + hi) / 2;
    var candidate := SceneIdAt(scenes, mid);
    if IsSceneAvailable(probe, candidate) {
      lo', hi' := lo, mid;
    } else {
      lo', hi' := mid + 1, hi;
    }
  }

  /** bisect_scenes. `sceneId` is the program's result; the ghost outputs
      name the index the search settled on and count the probe calls. */
  method BisectScenes(scenes: seq<FeedEntry>, probe: string -> bool)
    returns (sceneId: string, ghost boundary: nat, ghost probes: nat)
    ensures boundary == Bisect(scenes, probe, 0, |scenes|)
    ensures IsBoundary(scenes, probe, boundary)
    ensures sceneId == if boundary < |scenes| then SceneIdAt(scenes, boundary) else ""
    ensures boundary < |scenes| ==> IsSceneAvailable(probe, sceneId)
    ensures (forall i :: 0 <= i < |scenes| ==> !Available(scenes, probe, i)) ==> sceneId == ""
    ensures Monotone(scenes, probe) ==> boundary == FirstAvailable(scenes, probe, 0)
    ensures probes == BisectSteps(scenes, probe, 0, |scenes|) + if boundary < |scenes| then 1 else 0
    ensures probes <= Bits(|scenes|) + 1
  {
    var lo: nat, hi: nat := 0, |scenes|;
    probes := 0;
    while lo < hi
      invariant 0 <= lo <= hi <= |scenes|
      invariant hi == |scenes| || Available(scenes, probe, hi)
      invariant lo == 0 || !Available(scenes, probe, lo - 1)
      invariant Bisect(scenes, probe, lo, hi) == Bisect(scenes, probe, 0, |scenes|)
      invariant probes + BisectSteps(scenes, probe, lo, hi) == BisectSteps(scenes, probe, 0, |scenes|)
      decreases hi - lo
    {
      ghost var lo0, hi0 := lo, hi;
      lo, hi := NarrowStep(scenes, probe, lo, hi);
      PassOfBisect(scenes, probe, lo0, hi0, lo, hi);
      probes := probes + 1;
    }
    boundary := lo;
    sceneId := "";
    if lo < |scenes| {
      var resultSceneId := SceneIdAt(scenes, lo);
      probes := probes + 1;
      if IsSceneAvailable(probe, resultSceneId) {
        sceneId := resultSceneId;
      }
    }
    BisectStepsBound(scenes, probe);
    if forall i :: 0 <= i < |scenes| ==> !Available(scenes, probe, i) {
      BoundaryWhenNoneAvailable(scenes, probe, boundary);
    }
    if Monotone(scenes, probe) {
      MonotoneBoundaryIsFirst(scenes, probe, boundary);
    }
  }

  /** In a feed of three entries where only the middle one is unavailable,
      the search probes entry 1, then entry 2, and settles on entry 2,
      although entry 0 is the first available one. */
  lemma ThreeEntryFeedSettlesLate(scenes: seq<FeedEntry>, probe: string -> bool)
    requires |scenes| == 3
    requires Available(scenes, probe, 0) && !Available(scenes, probe, 1) && Available(scenes, probe, 2)
    ensures Bisect(scenes, probe, 0, |scenes|) == 2
    ensures FirstAvailable(scenes, probe, 0) == 0
  {
    assert Bisect(scenes, probe, 2, 3) == Bisect(scenes, probe, 2, 2);
  }

  /** In the feed of eight entries whose last four are published, the search
      probes entries 4, 2 and 3, settles on entry 4 and confirms it. */
  lemma EightEntrySearch(scenes: seq<FeedEntry>, probe: string -> bool)
    requires |scenes| == 8
    requires forall i :: 0 <= i < 8 ==> (Available(scenes, probe, i) <==> 4 <= i)
    ensures Bisect(scenes, probe, 0, 8) == 4
    ensures BisectSteps(scenes, probe, 0, 8) == 3
  {
    assert Available(scenes, probe, 4);
    assert !Available(scenes, probe, 2) && !Available(scenes, probe, 3);
    assert Bisect(scenes, probe, 3, 4) == 4 && BisectSteps(scenes, probe, 3, 4) == 1;
    assert Bisect(scenes, probe, 0, 4) == 4 && BisectSteps(scenes, probe, 0, 4) == 2;
  }

  /** The feed of eight entries whose last four are published: the search
      returns the scene of entry 4 after four probes. */
  method EightEntryFeed(scenes: seq<FeedEntry>, probe: string -> bool)
    returns (sceneId: string, ghost probes: nat)
    requires |scenes| == 8
    requires forall i :: 0 <= i < 8 ==> (Available(scenes, probe, i) <==> 4 <= i)
    ensures sceneId == SceneIdAt(scenes, 4)
    ensures probes == 4
  {
    ghost var boundary;
    EightEntrySearch(scenes, probe);
    sceneId, boundary, probes := BisectScenes(scenes, probe);
  }
}
