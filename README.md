# Landsat 8 latest-scene finder

This project models the part of `landsat8/core.py` that finds the newest published Landsat 8 scene. It has three pieces.

- **Scene path.** `construct_scene_url_path` builds the directory of a scene on the public bucket from its id: `"/L8/" + id[3:6] + "/" + id[6:9] + "/" + id`. Python slices clamp, so short ids are not rejected. The page that `is_scene_available` requests is that path plus `"/index.html"`.
- **Scene id extraction.** `extract_scene_id_from_description` reads the scene id out of an RSS entry's description. It uses the regular expression `^Scene ID: (.*)$` with the MULTILINE and IGNORECASE flags, and gives `""` when nothing matches.
- **Bisection.** `bisect_scenes` binary-searches the feed, which lists scenes newest first. It looks for the earliest entry whose scene is already published, then probes that entry once more before returning its id.

The modules are:

- `SceneUrl` (`scene_url.dfy`): the path builder, with Python's slice clamping written out.
- `SceneDescription` (`scene_description.dfy`): the regular-expression search as `re.search` performs it, trying every start position in order. It is proved equal to a second, line-by-line reading: split at `'\n'`, then take the rest of the first line that starts with the tag.
- `LatestScene` (`latest_scene.dfy`): the search, as a method with a loop.
  - The availability check is a parameter `probe: string -> bool`. It is deterministic and total.
  - Each feed entry is a `FeedEntry` holding its description.
  - Ghost outputs name the index the search settles on and count the probe calls.

## Model

| member | source | states |
|---|---|---|
| SceneUrl.Slice | landsat8/core.py:38 | Python's `s[start:stop]` with both bounds clamped to the length: the result has length 0 when start is past the end and min(stop, len) - start otherwise, and its i-th character is s[start + i]. |
| SceneUrl.ConstructSceneUrlPath | landsat8/core.py:37-38 | The path starts with "/L8/" and ends with the id. It is 6 to 12 characters longer than the id, and exactly 12 longer when the id has at least 9 characters. |
| SceneUrl.UrlPathFields | landsat8/core.py:38 | For an id of 9 or more characters, the path holds id[3:6] at offsets 4..7, '/' at 7, id[6:9] at 8..11, '/' at 11, and then the whole id. |
| SceneUrl.ShortIdPaths | landsat8/core.py:38 | Slice clamping: "" gives "/L8///", and the 6-character id "LC8044" gives "/L8/044//LC8044". |
| SceneUrl.UrlPathInjective | landsat8/core.py:37-38 | Two ids with the same path are equal, for ids of any length. |
| SceneUrl.UrlPathRoundTrip | landsat8/core.py:38 | For an id without '/', the text after the path's last '/' is the id again. |
| SceneUrl.IndexPagePath | landsat8/core.py:42 | The probed page starts with "/L8/" and ends with "/index.html", with the scene id just before that suffix. |
| SceneUrl.IndexPagePathInjective | landsat8/core.py:40-42 | Probing two different scenes never requests the same page. |
| SceneDescription.ExtractSceneId | landsat8/core.py:46-51 | The extractor itself, the search from position 0. Its contract is given by the lemmas in the following rows: ExtractFirstTaggedLine, ExtractWithoutTag, ExtractedIdIsOneLine, ExtractedIdIsTagged and ExtractMatchesLineScan. |
| SceneDescription.SearchFrom | landsat8/core.py:47 | `re.search` from position p: every position is tried in order, and the first where the pattern matches gives the result. Positions without a match are skipped (SearchSkips), and the result never spans a newline (SearchResultIsOneLine). |
| SceneDescription.LineEnd | landsat8/core.py:47 | Where the greedy `(.*)$` stops under MULTILINE: the first newline at or after i, or the end of the text, with no newline in between. |
| SceneDescription.ExtractFirstTaggedLine | landsat8/core.py:46-49 | If the first position where "Scene ID: " starts a line (ignoring ASCII case) is p, the result is the rest of that line after the tag, up to the next newline or the end of the text. |
| SceneDescription.ExtractWithoutTag | landsat8/core.py:46-51 | If no line starts with the tag, the result is "". |
| SceneDescription.ExtractedIdIsOneLine | landsat8/core.py:47-49 | The result never contains a newline and is never longer than the description. |
| SceneDescription.ExtractedIdIsTagged | landsat8/core.py:47-49 | A non-empty result is always the group of a tagged line. |
| SceneDescription.ExtractMatchesLineScan | landsat8/core.py:47-51 | On every description, the regular-expression search equals the line-by-line reading. |
| SceneDescription.Lines | landsat8/core.py:47 | The split of the description at every newline: at least one line, and no line contains a newline. |
| SceneDescription.FirstTagged | landsat8/core.py:47-51 | The line-by-line reading: the rest of the first line that starts with the tag (ignoring ASCII case), or "" when no line does. It is tied to the search by ExtractMatchesLineScan. |
| SceneDescription.LinesRoundTrip | landsat8/core.py:47 | Joining the split lines with "\n" gives back the description. |
| SceneDescription.JoinLinesRoundTrip | landsat8/core.py:47 | Splitting joined newline-free lines gives back the same lines. |
| SceneDescription.Examples | landsat8/core.py:46-51 | Concrete cases. "" gives "". A lower-case "scene id: " tag matches, and the match stops at the newline. An empty first tagged line gives "", even when a later line is also tagged. |
| LatestScene.IsSceneAvailable | landsat8/core.py:40-44 | The availability check, a deterministic predicate on scene ids given as a parameter. The page it stands for is IndexPagePath. |
| LatestScene.SceneIdAt | landsat8/core.py:58 | The scene id of entry i, extracted from its description as at lines 58 and 63. Indexing is in bounds by its precondition, which every caller meets. |
| LatestScene.FirstAvailable | landsat8/core.py:53-65 | The reference answer: the least available index at or after `from`, or the feed length when there is none. |
| LatestScene.FirstAvailableIsBoundary | landsat8/core.py:53-65 | Every feed has a boundary: the first available entry, or the end of the feed when there is none. |
| LatestScene.BoundaryWhenNoneAvailable | landsat8/core.py:62-65 | When no entry is available, the only boundary is the end of the feed. |
| LatestScene.MonotoneBoundaryIsFirst | landsat8/core.py:53-65 | Under monotone availability, every boundary is the first available entry. |
| LatestScene.BoundaryNotUniqueWithoutMonotone | landsat8/core.py:60-61 | Without monotonicity a feed can have two boundaries: in the feed available, unavailable, available, both 0 and 2 are boundaries, so the boundary property alone does not fix which one is returned. |
| LatestScene.Bisect | landsat8/core.py:56-61 | The recursive reference for the loop: probe entry (lo + hi) // 2, go on in [lo, mid) when it is available and in [mid + 1, hi) otherwise, and settle on an index within [lo, hi]. |
| LatestScene.BisectSteps | landsat8/core.py:56-61 | The number of passes of the same recursion. It is bounded by BisectStepsBound. |
| LatestScene.BisectIsBoundary | landsat8/core.py:56-61 | Started from a range whose ends satisfy the boundary conditions, Bisect settles on a boundary. |
| LatestScene.BisectStepsBound | landsat8/core.py:56-61 | On a feed of n entries the loop makes at most ceil(log2(n + 1)) passes. |
| LatestScene.PassOfBisect | landsat8/core.py:57-61 | A pass that keeps [lo, mid) when entry mid is available and [mid + 1, hi) otherwise leaves Bisect's answer unchanged and uses up exactly one of its passes. |
| LatestScene.ThreeEntryFeedSettlesLate | landsat8/core.py:56-65 | On the feed available, unavailable, available, the search settles on entry 2, while the first available entry is 0. By BisectScenes's first ensures, that is the entry BisectScenes returns. |
| LatestScene.BitsIsCeilLog2 | landsat8/core.py:56-61 | Bits(n) is the least m with n < 2^m, i.e. the ceiling of log2(n+1). |
| LatestScene.NarrowStep | landsat8/core.py:57-61 | One pass probes entry mid = (lo + hi) // 2. It keeps [lo, mid) when that entry is available and [mid + 1, hi) otherwise, so the range at least halves. It keeps the two boundary invariants: hi is the end or available, and lo-1 is the start or unavailable. |
| LatestScene.BisectScenes | landsat8/core.py:53-65 | The index the search settles on is Bisect's answer over the whole feed. The search returns "" or the id of the entry at the boundary index. The boundary is a switch from unavailable to available, and the result, when non-empty, was reported available. An empty feed or a feed with nothing available gives "". Under monotone availability the index is the first available entry. Exactly BisectSteps passes are made, plus one confirming probe when the index is inside the feed, so at most ceil(log2(n+1)) + 1 probes. |
| LatestScene.EightEntrySearch | landsat8/core.py:56-61 | In an 8-entry feed whose last four entries are published, the loop probes entries 4, 2 and 3 and settles on entry 4 after 3 passes. |
| LatestScene.EightEntryFeed | landsat8/core.py:53-65 | In the same feed, the search returns the id of entry 4 after exactly 4 probes. |

## Left out

- `is_scene_available` (landsat8/core.py:40-44): the HTTP request to `landsat-pds.s3.amazonaws.com` is not modelled. It becomes the deterministic predicate `probe`, and only the page path it requests is modelled (`IndexPagePath`). Because the probe is deterministic, the confirming second probe in `bisect_scenes` always agrees with the last probe of the same entry. A flaky network, where the two could disagree, is not captured.
- `find_latest_scene_id` (landsat8/core.py:67-75) is not modelled: it fetches and parses the RSS feed with `feedparser`. The feed is a parameter of `BisectScenes`.
- `download_scene`, `convert_scene` and `clean_up_scene` (landsat8/core.py:77-103) are not modelled. They are thin wrappers over the `landsat-util` downloader and image processor, a shell `convert` command, and file-system removal.
- `print_scene_result` and all console output are not modelled. This includes the "Trying ..." line inside the bisection loop and the colorama colouring.
- `setup.py` is packaging configuration and is not part of this model.
- Regular expressions in general are not modelled. Only the one fixed pattern is, with ASCII-only case folding, as Python 2 applies IGNORECASE without the UNICODE flag.
- The metadata-file parser, the geographic midpoint, country lookup and catalog sampling are not part of this model, because their source is not among the modelled files.
- An entry without a `description` attribute makes lines 58 and 63 raise `AttributeError`, which escapes `bisect_scenes`. Every `FeedEntry` here has a description, so that error path is not modelled.
- A failed connection or request in `is_scene_available` (landsat8/core.py:41-43) raises out of `bisect_scenes`. The probe here is a total predicate, so that error path is not modelled either.
- LatestScene.BisectScenes: a scene id that is the empty string is passed to the probe like any other. The model makes no assumption that the probe reports such an id as unavailable.
