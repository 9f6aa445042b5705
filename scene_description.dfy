/** Reading the scene id out of a feed entry's description
    (landsat8/core.py, extract_scene_id_from_description): the first match of
    the pattern `^Scene ID: (.*)$` under the MULTILINE and IGNORECASE flags,
    or "" when there is none. */
module SceneDescription {

  /** The literal part of the pattern. */
  const Tag: string := "Scene ID: "

  /** IGNORECASE without the UNICODE flag folds only ASCII letters. */
  function Lower(c: char): char {
    if 'A' <= c <= 'Z' then (c as int + 32) as char else c
  }

  predicate EqualsIgnoringCase(a: string, b: string) {
    |a| == |b| && forall i :: 0 <= i < |a| ==> Lower(a[i]) == Lower(b[i])
  }

  /** `^` under MULTILINE: the start of the text or just after a newline. */
  predicate AtLineStart(d: string, p: nat) {
    p == 0 || (p <= |d| && d[p - 1] == '\n')
  }

  /** `^Scene ID: ` matches at position p. */
  predicate TagAt(d: string, p: nat) {
    AtLineStart(d, p) && p + |Tag| <= |d| && EqualsIgnoringCase(d[p..p + |Tag|], Tag)
  }

  /** Where a greedy `.*` starting at i stops, and `$` then matches: the
      first newline at or after i, or the end of the text. */
  function LineEnd(d: string, i: nat): (e: nat)
    requires i <= |d|
    ensures i <= e <= |d|
    ensures e == |d| || d[e] == '\n'
    ensures forall j :: i <= j < e ==> d[j] != '\n'
    decreases |d| - i
  {
    if i == |d| || d[i] == '\n' then i else LineEnd(d, i + 1)
  }

  /** Group 1 of the match at p: the rest of that line. */
  function Group(d: string, p: nat): string
    requires TagAt(d, p)
  {
    d[p + |Tag|..LineEnd(d, p + |Tag|)]
  }

  /** `re.search` from position p on: every position is tried in order, and
      the first one where the pattern matches gives the result. */
  function SearchFrom(d: string, p: nat): string
    requires p <= |d|
    decreases |d| - p
  {
    if TagAt(d, p) then Group(d, p)
    else if p == |d| then ""
    else SearchFrom(d, p + 1)
  }

  function ExtractSceneId(description: string): string {
    SearchFrom(description, 0)
  }

  lemma {:induction false} SearchResultIsOneLine(d: string, p: nat)
    requires p <= |d|
    ensures '\n' !in SearchFrom(d, p)
    ensures |SearchFrom(d, p)| <= |d| - p
    decreases |d| - p
  {
    if !TagAt(d, p) && p < |d| {
      SearchResultIsOneLine(d, p + 1);
    }
  }

  /** The id never runs past the end of its line. */
  lemma ExtractedIdIsOneLine(description: string)
    ensures '\n' !in ExtractSceneId(description)
    ensures |ExtractSceneId(description)| <= |description|
  {
    SearchResultIsOneLine(description, 0);
  }

  lemma {:induction false} SearchSkips(d: string, s: nat, t: nat)
    requires s <= t <= |d|
    requires forall q :: s <= q < t ==> !TagAt(d, q)
    ensures SearchFrom(d, s) == SearchFrom(d, t)
    decreases t - s
  {
    if s < t {
      SearchSkips(d, s + 1, t);
    }
  }

  /** When the first tagged line starts at p, the id is the rest of that line. */
  lemma ExtractFirstTaggedLine(d: string, p: nat)
    requires p <= |d| && TagAt(d, p)
    requires forall q :: 0 <= q < p ==> !TagAt(d, q)
    ensures ExtractSceneId(d) == d[p + |Tag|..LineEnd(d, p + |Tag|)]
  {
    SearchSkips(d, 0, p);
  }

  /** When no line starts with the tag, the id is "". */
  lemma ExtractWithoutTag(d: string)
    requires forall q :: 0 <= q <= |d| ==> !TagAt(d, q)
    ensures ExtractSceneId(d) == ""
  {
    SearchSkips(d, 0, |d|);
  }

  /** A non-empty id always comes from a line that starts with the tag. */
  lemma ExtractedIdIsTagged(d: string)
    requires ExtractSceneId(d) != ""
    ensures exists p :: 0 <= p <= |d| && TagAt(d, p) && ExtractSceneId(d) == Group(d, p)
  {
    if forall q :: 0 <= q <= |d| ==> !TagAt(d, q) {
      ExtractWithoutTag(d);
    } else {
      var p := FirstTag(d, 0);
      ExtractFirstTaggedLine(d, p);
    }
  }

  /** The least position at or after s where the tag matches, if any. */
  function FirstTag(d: string, s: nat): (p: nat)
    requires s <= |d|
    requires exists q :: s <= q <= |d| && TagAt(d, q)
    ensures s <= p <= |d| && TagAt(d, p)
    ensures forall q :: s <= q < p ==> !TagAt(d, q)
    decreases |d| - s
  {
    if TagAt(d, s) then s
    else
      assert exists q :: s + 1 <= q <= |d| && TagAt(d, q);
      FirstTag(d, s + 1)
  }

  // An independent, line-oriented reading of the same pattern.

  /** The text cut at every newline, as `description.split("\n")`. */
  function Lines(d: string): (ls: seq<string>)
    ensures |ls| >= 1
    ensures forall i :: 0 <= i < |ls| ==> '\n' !in ls[i]
    decreases |d|
  {
    var e := LineEnd(d, 0);
    if e == |d| then [d] else [d[..e]] + Lines(d[e + 1..])
  }

  /** `"\n".join(lines)`. */
  function JoinLines(ls: seq<string>): string
    requires |ls| >= 1
  {
    if |ls| == 1 then ls[0] else ls[0] + "\n" + JoinLines(ls[1..])
  }

  lemma {:induction false} LinesRoundTrip(d: string)
    ensures JoinLines(Lines(d)) == d
    decreases |d|
  {
    var e := LineEnd(d, 0);
    if e < |d| {
      LinesRoundTrip(d[e + 1..]);
      assert d == d[..e] + "\n" + d[e + 1..];
    }
  }

  /** In `x + "\n" + rest` with a newline-free x, the first line is x. */
  lemma FirstLineOfJoin(x: string, rest: string)
    requires '\n' !in x
    ensures var d := x + "\n" + rest;
      LineEnd(d, 0) == |x| && d[..|x|] == x && d[|x| + 1..] == rest
  {
    var d := x + "\n" + rest;
    var e := LineEnd(d, 0);
    assert d[|x|] == '\n';
    assert forall j :: 0 <= j < |x| ==> d[j] == x[j];
    assert d[..|x|] == x;
    assert d[|x| + 1..] == rest;
  }

  lemma {:induction false} JoinLinesRoundTrip(ls: seq<string>)
    requires |ls| >= 1
    requires forall i :: 0 <= i < |ls| ==> '\n' !in ls[i]
    ensures Lines(JoinLines(ls)) == ls
    decreases |ls|
  {
    if |ls| > 1 {
      FirstLineOfJoin(ls[0], JoinLines(ls[1..]));
      JoinLinesRoundTrip(ls[1..]);
      assert ls == [ls[0]] + ls[1..];
    }
  }

  /** Whether a line starts with the tag, ignoring case. */
  predicate Tagged(line: string) {
    |Tag| <= |line| && EqualsIgnoringCase(line[..|Tag|], Tag)
  }

  /** The rest of the first tagged line, or "" when no line is tagged. */
  function FirstTagged(lines: seq<string>): string {
    if lines == [] then ""
    else if Tagged(lines[0]) then lines[0][|Tag|..]
    else FirstTagged(lines[1..])
  }

  lemma {:induction false} LineEndShift(a: string, b: string, i: nat)
    requires i <= |b|
    ensures LineEnd(a + b, |a| + i) == |a| + LineEnd(b, i)
    decreases |b| - i
  {
    if i < |b| {
      assert (a + b)[|a| + i] == b[i];
      LineEndShift(a, b, i + 1);
    }
  }

  lemma TagAtShift(a: string, b: string, q: nat)
    requires a == [] || a[|a| - 1] == '\n'
    requires q <= |b|
    ensures TagAt(a + b, |a| + q) == TagAt(b, q)
  {
    var d := a + b;
    if q > 0 {
      assert d[|a| + q - 1] == b[q - 1];
    }
    if q + |Tag| <= |b| {
      assert d[|a| + q..|a| + q + |Tag|] == b[q..q + |Tag|];
    }
  }

  lemma SliceAfterPrefix(a: string, b: string, s: nat, t: nat)
    requires s <= t <= |b|
    ensures (a + b)[|a| + s..|a| + t] == b[s..t]
  {
    var x, y := (a + b)[|a| + s..|a| + t], b[s..t];
    forall i | 0 <= i < |x|
      ensures x[i] == y[i]
    {
      assert x[i] == (a + b)[|a| + s + i];
    }
  }

  lemma GroupShift(a: string, b: string, q: nat)
    requires q <= |b| && TagAt(b, q) && TagAt(a + b, |a| + q)
    ensures Group(a + b, |a| + q) == Group(b, q)
  {
    var e := LineEnd(b, q + |Tag|);
    LineEndShift(a, b, q + |Tag|);
    SliceAfterPrefix(a, b, q + |Tag|, e);
  }

  /** Searching past a block of complete lines is searching what follows. */
  lemma {:induction false} SearchShift(a: string, b: string, q: nat)
    requires a == [] || a[|a| - 1] == '\n'
    requires q <= |b|
    ensures SearchFrom(a + b, |a| + q) == SearchFrom(b, q)
    decreases |b| - q
  {
    TagAtShift(a, b, q);
    if TagAt(b, q) {
      GroupShift(a, b, q);
    } else if q < |b| {
      SearchShift(a, b, q + 1);
    }
  }

  /** No character that folds to a character of the tag is a newline. */
  lemma TagHasNoNewline(s: string)
    requires EqualsIgnoringCase(s, Tag)
    ensures '\n' !in s
  {
  }

  /** The regular-expression search and the line-by-line reading agree on
      every description. */
  lemma {:induction false} ExtractMatchesLineScan(d: string)
    ensures ExtractSceneId(d) == FirstTagged(Lines(d))
    decreases |d|
  {
    var e := LineEnd(d, 0);
    var line := d[..e];
    assert Lines(d)[0] == line;
    // No position inside the first line is a line start.
    forall q | 1 <= q <= e
      ensures !TagAt(d, q)
    {
      assert d[q - 1] != '\n';
    }
    if TagAt(d, 0) {
      TagHasNoNewline(d[..|Tag|]);
      assert line[..|Tag|] == d[..|Tag|];
      assert Tagged(line);
      assert LineEnd(d, |Tag|) == e;
    } else {
      if e == |d| {
        SearchSkips(d, 0, |d|);
      } else {
        var rest := d[e + 1..];
        SearchSkips(d, 0, e + 1);
        assert d == d[..e + 1] + rest;
        SearchShift(d[..e + 1], rest, 0);
        ExtractMatchesLineScan(rest);
        assert Lines(d) == [line] + Lines(rest);
        assert Lines(d)[1..] == Lines(rest);
      }
    }
  }

  /** A few descriptions: the match is case-insensitive, must start a line,
      and stops at the newline; a line without the tag gives "". */
  lemma Examples()
    ensures ExtractSceneId("") == ""
    ensures ExtractSceneId("scene id: LC8\nx") == "LC8"
    ensures ExtractSceneId("Scene ID: \nScene ID: LC8") == ""
  {
    ExtractWithoutTag("");
    var d1 := "scene id: LC8\nx";
    assert TagAt(d1, 0);
    assert LineEnd(d1, 10) == 13;
    var d2 := "Scene ID: \nScene ID: LC8";
    assert TagAt(d2, 0);
  }
}
