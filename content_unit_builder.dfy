/** Assembly of content units from a parsed PDF layout
    (`ContentUnitBuilder` in ingestion/processing/content_unit_builder.py):
    image units with fused text, text-only units packed greedily under a
    token budget, section titles and paths from the page's headings, and
    keyword tags. */
module ContentUnitBuilder {
  import opened Text
  import opened Models
  import opened Lists
  import ImageExtractor

  // ---------------------------------------------------------------------
  // Filtering text away from images (`_filter_text_away_from_images`)
  // ---------------------------------------------------------------------

  /** Distance, in page units, under which a text block counts as part of an image. */
  const FilterThreshold: real := 50.0

  /** The text block lies on the image's page and their vertical centres are
      closer than the threshold. */
  predicate NearImage(tb: TextBlock, img: ImageBlock) {
    img.pageNumber == tb.pageNumber
    && ImageExtractor.Abs(CentreY(tb.bbox) - CentreY(img.bbox)) < FilterThreshold
  }

  predicate NearAnyImage(tb: TextBlock, images: seq<ImageBlock>) {
    exists j :: 0 <= j < |images| && NearImage(tb, images[j])
  }

  /** The blocks near no image, in input order. */
  function KeepFar(blocks: seq<TextBlock>, images: seq<ImageBlock>): seq<TextBlock>
    decreases |blocks|
  {
    if blocks == [] then []
    else
      KeepFar(blocks[..|blocks| - 1], images)
      + (if NearAnyImage(Last(blocks), images) then [] else [Last(blocks)])
  }

  /** What `_filter_text_away_from_images` returns: the input itself when
      there are no images, the far blocks otherwise. */
  function AwayFromImages(blocks: seq<TextBlock>, images: seq<ImageBlock>): seq<TextBlock> {
    if images == [] then blocks else KeepFar(blocks, images)
  }

  method FilterTextAwayFromImages(textBlocks: seq<TextBlock>, images: seq<ImageBlock>)
    returns (filtered: seq<TextBlock>)
    ensures filtered == AwayFromImages(textBlocks, images)
  {
    if images == [] {
      return textBlocks;
    }
    filtered := [];
    for i := 0 to |textBlocks|
      invariant filtered == KeepFar(textBlocks[..i], images)
    {
      var tb := textBlocks[i];
      var isNearImage := false;
      for j := 0 to |images|
        invariant !isNearImage ==> forall k :: 0 <= k < j ==> !NearImage(tb, images[k])
        invariant isNearImage ==> NearAnyImage(tb, images)
      {
        var image := images[j];
        if image.pageNumber != tb.pageNumber {
          continue;
        }
        var textCentre := (tb.bbox.y1 + tb.bbox.y2) / 2.0;
        var imgCentre := (image.bbox.y1 + image.bbox.y2) / 2.0;
        var distance := ImageExtractor.Abs(textCentre - imgCentre);
        if distance < FilterThreshold {
          isNearImage := true;
          break;
        }
      }
      if !isNearImage {
        filtered := filtered + [tb];
      }
      assert textBlocks[..i + 1][..i] == textBlocks[..i];
    }
    assert textBlocks[..|textBlocks|] == textBlocks;
  }

  /** A block survives the filter exactly when it is one of the input blocks
      and near no image of the list. */
  lemma {:induction false} AwayFromImagesMembership(blocks: seq<TextBlock>, images: seq<ImageBlock>, tb: TextBlock)
    ensures tb in AwayFromImages(blocks, images) <==> tb in blocks && !NearAnyImage(tb, images)
  {
    if images != [] {
      KeepFarMembership(blocks, images, tb);
    }
  }

  lemma {:induction false} KeepFarMembership(blocks: seq<TextBlock>, images: seq<ImageBlock>, tb: TextBlock)
    ensures tb in KeepFar(blocks, images) <==> tb in blocks && !NearAnyImage(tb, images)
    decreases |blocks|
  {
    if blocks != [] {
      var front := blocks[..|blocks| - 1];
      KeepFarMembership(front, images, tb);
      assert blocks == front + [Last(blocks)];
    }
  }

  /** The filter keeps the original order: filtering a concatenation is the
      concatenation of the filtered parts. */
  lemma {:induction false} KeepFarAppend(a: seq<TextBlock>, b: seq<TextBlock>, images: seq<ImageBlock>)
    ensures KeepFar(a + b, images) == KeepFar(a, images) + KeepFar(b, images)
    decreases |b|
  {
    if b == [] {
      assert a + b == a;
    } else {
      var front := b[..|b| - 1];
      KeepFarAppend(a, front, images);
      assert (a + b)[..|a + b| - 1] == a + front;
      assert Last(a + b) == Last(b);
    }
  }

  /** When no block is near an image, every block is kept. */
  lemma {:induction false} AllFarKeptUnchanged(blocks: seq<TextBlock>, images: seq<ImageBlock>)
    requires forall i :: 0 <= i < |blocks| ==> !NearAnyImage(blocks[i], images)
    ensures AwayFromImages(blocks, images) == blocks
    decreases |blocks|
  {
    if images != [] && blocks != [] {
      var front := blocks[..|blocks| - 1];
      AllFarKeptUnchanged(front, images);
      assert !NearAnyImage(Last(blocks), images);
      assert front + [Last(blocks)] == blocks;
    }
  }

  // ---------------------------------------------------------------------
  // Section title for a position (`_get_section_for_position`)
  // ---------------------------------------------------------------------

  /** The heading the scan settles on: among headings whose bottom edge is at
      or above `y`, one with the smallest gap, the earliest on ties. */
  function Closest(headings: seq<Heading>, y: real): Option<Heading>
    decreases |headings|
  {
    if headings == [] then None
    else
      var c := Closest(headings[..|headings| - 1], y);
      var h := Last(headings);
      if h.bbox.y2 <= y && (c.None? || y - h.bbox.y2 < y - c.value.bbox.y2) then Some(h) else c
  }

  /** What `_get_section_for_position` returns. */
  function SectionFor(headings: seq<Heading>, y: real): Option<string> {
    if headings == [] then None
    else
      match Closest(headings, y)
      case None => None
      case Some(h) => Some(h.text)
  }

  method GetSectionForPosition(headings: seq<Heading>, y: real) returns (r: Option<string>)
    ensures r == SectionFor(headings, y)
  {
    if headings == [] {
      return None;
    }
    // `min_distance` starts at infinity; it is only read once `closest` is set.
    var closest: Option<Heading> := None;
    var minDistance: real := 0.0;
    for i := 0 to |headings|
      invariant closest == Closest(headings[..i], y)
      invariant closest.Some? ==> minDistance == y - closest.value.bbox.y2
    {
      var heading := headings[i];
      if heading.bbox.y2 <= y {
        var distance := y - heading.bbox.y2;
        if closest.None? || distance < minDistance {
          minDistance := distance;
          closest := Some(heading);
        }
      }
      assert headings[..i + 1][..i] == headings[..i];
    }
    assert headings[..|headings|] == headings;
    r := if closest.Some? then Some(closest.value.text) else None;
  }

  /** No heading is chosen exactly when every heading's bottom edge lies below `y`. */
  lemma {:induction false} ClosestNoneIff(headings: seq<Heading>, y: real)
    ensures Closest(headings, y).None? <==> forall i :: 0 <= i < |headings| ==> headings[i].bbox.y2 > y
    decreases |headings|
  {
    if headings != [] {
      var n := |headings| - 1;
      var front := headings[..n];
      ClosestNoneIff(front, y);
      assert forall i :: 0 <= i < n ==> front[i] == headings[i];
    }
  }

  /** The title is None exactly when no heading ends at or above the position. */
  lemma SectionNoneIff(headings: seq<Heading>, y: real)
    ensures SectionFor(headings, y).None? <==> forall i :: 0 <= i < |headings| ==> headings[i].bbox.y2 > y
  {
    ClosestNoneIff(headings, y);
  }

  /** Heading `i` ends at or above `y`, no heading ending at or above `y`
      is closer, and every earlier one is strictly farther. */
  predicate NearestEarliestAt(headings: seq<Heading>, y: real, i: int) {
    && 0 <= i < |headings| && headings[i].bbox.y2 <= y
    && (forall j :: 0 <= j < |headings| && headings[j].bbox.y2 <= y ==>
          y - headings[i].bbox.y2 <= y - headings[j].bbox.y2)
    && (forall j :: 0 <= j < i && headings[j].bbox.y2 <= y ==>
          y - headings[i].bbox.y2 < y - headings[j].bbox.y2)
  }

  /** A last heading strictly closer than the front's choice is the choice. */
  lemma LastNearest(headings: seq<Heading>, y: real, i0: nat)
    requires headings != [] && NearestEarliestAt(headings[..|headings| - 1], y, i0)
    requires Last(headings).bbox.y2 <= y
    requires y - Last(headings).bbox.y2 < y - headings[i0].bbox.y2
    ensures NearestEarliestAt(headings, y, |headings| - 1)
  {
    var n := |headings| - 1;
    assert forall j :: 0 <= j < n ==> headings[..n][j] == headings[j];
  }

  /** A last heading ending at or above `y` after none did is the choice. */
  lemma LastNearestAlone(headings: seq<Heading>, y: real)
    requires headings != [] && Last(headings).bbox.y2 <= y
    requires Closest(headings[..|headings| - 1], y).None?
    ensures NearestEarliestAt(headings, y, |headings| - 1)
  {
    var n := |headings| - 1;
    ClosestNoneIff(headings[..n], y);
    assert forall j :: 0 <= j < n ==> headings[..n][j] == headings[j];
  }

  /** The front's choice stays when the last heading is not strictly closer. */
  lemma FrontNearest(headings: seq<Heading>, y: real, i: nat)
    requires headings != [] && NearestEarliestAt(headings[..|headings| - 1], y, i)
    requires !(Last(headings).bbox.y2 <= y && y - Last(headings).bbox.y2 < y - headings[i].bbox.y2)
    ensures NearestEarliestAt(headings, y, i)
  {
    var n := |headings| - 1;
    assert forall j :: 0 <= j < n ==> headings[..n][j] == headings[j];
  }

  /** The position of the chosen heading. */
  lemma {:induction false} ClosestWitness(headings: seq<Heading>, y: real) returns (i: nat)
    requires Closest(headings, y).Some?
    ensures NearestEarliestAt(headings, y, i) && headings[i] == Closest(headings, y).value
    decreases |headings|
  {
    var n := |headings| - 1;
    var front := headings[..n];
    var c := Closest(front, y);
    var h := headings[n];
    if h.bbox.y2 <= y && (c.None? || y - h.bbox.y2 < y - c.value.bbox.y2) {
      if c.None? {
        LastNearestAlone(headings, y);
      } else {
        var i0 := ClosestWitness(front, y);
        assert front[i0] == headings[i0];
        LastNearest(headings, y, i0);
      }
      i := n;
    } else {
      i := ClosestWitness(front, y);
      assert front[i] == headings[i];
      FrontNearest(headings, y, i);
    }
  }

  /** The chosen heading ends at or above `y`, no heading ending at or above
      `y` is closer, and every earlier one is strictly farther (the
      comparison is strict, so the first of equally close headings wins). */
  lemma ClosestIsNearestEarliest(headings: seq<Heading>, y: real)
    requires Closest(headings, y).Some?
    ensures exists i :: (0 <= i < |headings| && headings[i] == Closest(headings, y).value
      && headings[i].bbox.y2 <= y
      && (forall j :: 0 <= j < |headings| && headings[j].bbox.y2 <= y ==>
            y - headings[i].bbox.y2 <= y - headings[j].bbox.y2)
      && (forall j :: 0 <= j < i && headings[j].bbox.y2 <= y ==>
            y - headings[i].bbox.y2 < y - headings[j].bbox.y2))
  {
    var i := ClosestWitness(headings, y);
  }

  /** The returned title is the text of a heading that ends at or above the
      position with the smallest gap. */
  lemma SectionIsNearestAbove(headings: seq<Heading>, y: real)
    requires SectionFor(headings, y).Some?
    ensures exists i :: (0 <= i < |headings| && headings[i].text == SectionFor(headings, y).value
      && headings[i].bbox.y2 <= y
      && forall j :: 0 <= j < |headings| && headings[j].bbox.y2 <= y ==>
           y - headings[i].bbox.y2 <= y - headings[j].bbox.y2)
  {
    ClosestIsNearestEarliest(headings, y);
  }

  // ---------------------------------------------------------------------
  // Section path (`_build_section_path`)
  // ---------------------------------------------------------------------

  /** Sort key `(page_number, y1, level)`, compared lexicographically. */
  predicate KeyLe(a: Heading, b: Heading) {
    a.pageNumber < b.pageNumber
    || (a.pageNumber == b.pageNumber
        && (a.bbox.y1 < b.bbox.y1 || (a.bbox.y1 == b.bbox.y1 && a.level <= b.level)))
  }

  predicate SortedByKey(s: seq<Heading>) {
    forall i, j :: 0 <= i < j < |s| ==> KeyLe(s[i], s[j])
  }

  /** Insert `h` after every element whose key is at most its own. */
  function Insert(h: Heading, s: seq<Heading>): seq<Heading>
    decreases |s|
  {
    if s == [] then [h]
    else if KeyLe(s[0], h) then [s[0]] + Insert(h, s[1..])
    else [h] + s
  }

  /** `sorted(headings, key=...)`: later elements go after earlier ones of equal key. */
  function SortByKey(s: seq<Heading>): seq<Heading>
    decreases |s|
  {
    if s == [] then [] else Insert(Last(s), SortByKey(s[..|s| - 1]))
  }

  lemma KeyLeTrans(a: Heading, b: Heading, c: Heading)
    requires KeyLe(a, b) && KeyLe(b, c)
    ensures KeyLe(a, c)
  {
  }

  lemma {:induction false} InsertPermutes(h: Heading, s: seq<Heading>)
    ensures multiset(Insert(h, s)) == multiset(s) + multiset{h}
    decreases |s|
  {
    if s != [] {
      InsertPermutes(h, s[1..]);
      assert s == [s[0]] + s[1..];
    }
  }

  lemma {:induction false} InsertSorted(h: Heading, s: seq<Heading>)
    requires SortedByKey(s)
    ensures SortedByKey(Insert(h, s))
    decreases |s|
  {
    if s != [] {
      if KeyLe(s[0], h) {
        assert SortedByKey(s[1..]);
        InsertSorted(h, s[1..]);
        InsertPermutes(h, s[1..]);
        HeadBelowInsert(h, s);
        ConsSorted(s[0], Insert(h, s[1..]));
      } else {
        HeadAboveAll(h, s);
        ConsSorted(h, s);
      }
    }
  }

  /** An element at most every element of a sorted list stays sorted in front of it. */
  lemma ConsSorted(x: Heading, t: seq<Heading>)
    requires SortedByKey(t) && forall j :: 0 <= j < |t| ==> KeyLe(x, t[j])
    ensures SortedByKey([x] + t)
  {
    var r := [x] + t;
    forall i, j | 0 <= i < j < |r| ensures KeyLe(r[i], r[j]) {
      assert r[j] == t[j - 1];
      if i > 0 {
        assert r[i] == t[i - 1];
      }
    }
  }

  /** The head of a sorted list, at most `h`, is at most everything
      inserting `h` into the tail gives. */
  lemma HeadBelowInsert(h: Heading, s: seq<Heading>)
    requires s != [] && SortedByKey(s) && KeyLe(s[0], h)
    requires multiset(Insert(h, s[1..])) == multiset(s[1..]) + multiset{h}
    ensures forall j :: 0 <= j < |Insert(h, s[1..])| ==> KeyLe(s[0], Insert(h, s[1..])[j])
  {
    var t := Insert(h, s[1..]);
    forall j | 0 <= j < |t| ensures KeyLe(s[0], t[j]) {
      assert t[j] in multiset(s[1..]) + multiset{h};
      if t[j] in s[1..] {
        var m :| 0 <= m < |s[1..]| && s[1..][m] == t[j];
        assert s[m + 1] == t[j];
      }
    }
  }

  /** A heading whose key is below the head of a sorted list is below all of it. */
  lemma HeadAboveAll(h: Heading, s: seq<Heading>)
    requires s != [] && SortedByKey(s) && !KeyLe(s[0], h)
    ensures forall j :: 0 <= j < |s| ==> KeyLe(h, s[j])
  {
    forall j | 0 <= j < |s| ensures KeyLe(h, s[j]) {
      if j > 0 {
        KeyLeTrans(h, s[0], s[j]);
      }
    }
  }

  /** Sorting orders the headings by key and keeps exactly the same headings. */
  lemma {:induction false} SortByKeySortsAndPermutes(s: seq<Heading>)
    ensures SortedByKey(SortByKey(s))
    ensures multiset(SortByKey(s)) == multiset(s)
    decreases |s|
  {
    if s != [] {
      var front := s[..|s| - 1];
      SortByKeySortsAndPermutes(front);
      InsertSorted(Last(s), SortByKey(front));
      InsertPermutes(Last(s), SortByKey(front));
      assert s == front + [Last(s)];
    }
  }

  /** Python's `p[:n]` for any integer `n`, negative ones counting from the end. */
  function PySlicePrefix<T>(p: seq<T>, n: int): (r: seq<T>)
    ensures |r| <= |p| && r == p[..|r|]
  {
    if n >= 0 then (if n <= |p| then p[..n] else p)
    else if |p| + n >= 0 then p[..|p| + n]
    else []
  }

  /** One heading's effect on the path: level 1 restarts it, a level at most
      one below the current depth cuts the path and appends, deeper ones are
      ignored. */
  function PathStep(path: seq<string>, h: Heading): seq<string> {
    if h.level == 1 then [h.text]
    else if h.level <= |path| + 1 then PySlicePrefix(path, h.level - 1) + [h.text]
    else path
  }

  function PathAfter(headings: seq<Heading>): seq<string>
    decreases |headings|
  {
    if headings == [] then []
    else PathStep(PathAfter(headings[..|headings| - 1]), Last(headings))
  }

  /** What `_build_section_path` returns. */
  function SectionPath(headings: seq<Heading>): Option<string> {
    if headings == [] then None
    else
      var parts := PathAfter(SortByKey(headings));
      if parts == [] then None else Some(Join(parts, " > "))
  }

  method BuildSectionPath(headings: seq<Heading>) returns (r: Option<string>)
    ensures r == SectionPath(headings)
  {
    if headings == [] {
      return None;
    }
    var sorted := SortByKey(headings);
    var parts: seq<string> := [];
    for i := 0 to |sorted|
      invariant parts == PathAfter(sorted[..i])
    {
      var heading := sorted[i];
      if heading.level == 1 {
        parts := [heading.text];
      } else if heading.level <= |parts| + 1 {
        parts := PySlicePrefix(parts, heading.level - 1) + [heading.text];
      }
      assert sorted[..i + 1][..i] == sorted[..i];
    }
    assert sorted[..|sorted|] == sorted;
    r := if parts != [] then Some(Join(parts, " > ")) else None;
  }

  /** Some heading of level `k + 1` has the text `text`. */
  predicate HasHeadingAt(headings: seq<Heading>, k: int, text: string) {
    exists i :: 0 <= i < |headings| && headings[i].level == k + 1 && headings[i].text == text
  }

  /** With levels of at least 1, the entry at depth `k` of the path is the
      text of a heading of level `k + 1`: the path never skips a level. */
  lemma PathDepthIsLevel(headings: seq<Heading>)
    requires forall i :: 0 <= i < |headings| ==> headings[i].level >= 1
    ensures forall k :: 0 <= k < |PathAfter(headings)| ==> HasHeadingAt(headings, k, PathAfter(headings)[k])
  {
    forall k | 0 <= k < |PathAfter(headings)|
      ensures HasHeadingAt(headings, k, PathAfter(headings)[k])
    {
      var i := PathEntrySource(headings, k);
    }
  }

  /** Entry k after one heading is the entry of the old path or the heading
      itself, at depth level - 1. */
  lemma PathStepEntry(p: seq<string>, h: Heading, k: nat)
    requires h.level >= 1 && k < |PathStep(p, h)|
    ensures (k < |p| && PathStep(p, h)[k] == p[k]) || (h.level == k + 1 && PathStep(p, h)[k] == h.text)
  {
  }

  /** The heading entry k of the path comes from. */
  lemma {:induction false} PathEntrySource(headings: seq<Heading>, k: nat) returns (i: nat)
    requires forall i :: 0 <= i < |headings| ==> headings[i].level >= 1
    requires k < |PathAfter(headings)|
    ensures i < |headings| && headings[i].level == k + 1 && headings[i].text == PathAfter(headings)[k]
    decreases |headings|
  {
    var n := |headings| - 1;
    var front := headings[..n];
    var p := PathAfter(front);
    assert PathAfter(headings) == PathStep(p, headings[n]);
    PathStepEntry(p, headings[n], k);
    if headings[n].level == k + 1 && PathAfter(headings)[k] == headings[n].text {
      i := n;
    } else {
      assert forall j :: 0 <= j < n ==> front[j] == headings[j];
      i := PathEntrySource(front, k);
      assert headings[i] == front[i];
    }
  }

  /** With no level above `m`, the path has at most `m` entries. */
  lemma {:induction false} PathAtMostDeepest(headings: seq<Heading>, m: int)
    requires m >= 1
    requires forall i :: 0 <= i < |headings| ==> headings[i].level <= m
    ensures |PathAfter(headings)| <= m
    decreases |headings|
  {
    if headings != [] {
      var n := |headings| - 1;
      assert forall i :: 0 <= i < n ==> headings[..n][i] == headings[i];
      PathAtMostDeepest(headings[..n], m);
      assert Last(headings).level <= m;
    }
  }

  /** With levels of at most 6, as the parser produces them, the path has
      at most six entries. */
  lemma PathAtMostSix(headings: seq<Heading>)
    requires forall i :: 0 <= i < |headings| ==> headings[i].level <= 6
    ensures |PathAfter(SortByKey(headings))| <= 6
  {
    var sorted := SortByKey(headings);
    SortByKeySortsAndPermutes(headings);
    forall i | 0 <= i < |sorted| ensures sorted[i].level <= 6 {
      assert sorted[i] in multiset(headings);
    }
    PathAtMostDeepest(sorted, 6);
  }

  // ---------------------------------------------------------------------
  // Keyword tags (`_extract_tags`)
  // ---------------------------------------------------------------------

  /** Machine keywords and their tags, in dictionary order. */
  const MachineKeywords: seq<(string, string)> := [
    ("ptl007", "machine_ptl007"),
    ("ptl008", "machine_ptl008"),
    ("rom27", "machine_rom27"),
    ("rom28", "machine_rom28"),
    ("stgh", "machine_stgh")
  ]

  const SafetyWords: seq<string> := ["safety", "warning", "danger", "caution"]

  const ProcedureWords: seq<string> := ["procedure", "step", "instruction", "how to"]

  /** Tags of the machine keywords found in `low`, in table order. */
  function MachineTagsOf(low: string, table: seq<(string, string)>): seq<string>
    decreases |table|
  {
    if table == [] then []
    else
      MachineTagsOf(low, table[..|table| - 1])
      + (if Contains(low, Last(table).0) then [Last(table).1] else [])
  }

  /** What `_extract_tags` returns. */
  function Tags(text: string): seq<string> {
    var low := Lower(text);
    MachineTagsOf(low, MachineKeywords)
    + (if ContainsAny(low, SafetyWords) then ["safety"] else [])
    + (if ContainsAny(low, ProcedureWords) then ["procedure"] else [])
  }

  method ExtractTags(text: string) returns (tags: seq<string>)
    ensures tags == Tags(text)
  {
    tags := [];
    var textLower := Lower(text);
    for k := 0 to |MachineKeywords|
      invariant tags == MachineTagsOf(textLower, MachineKeywords[..k])
    {
      var (keyword, tag) := MachineKeywords[k];
      if Contains(textLower, keyword) {
        tags := tags + [tag];
      }
      assert MachineKeywords[..k + 1][..k] == MachineKeywords[..k];
    }
    assert MachineKeywords[..|MachineKeywords|] == MachineKeywords;
    if ContainsAny(textLower, SafetyWords) {
      tags := tags + ["safety"];
    }
    if ContainsAny(textLower, ProcedureWords) {
      tags := tags + ["procedure"];
    }
  }

  /** A tag rule: the tag fires when the text contains any of the words. */
  datatype TagRule = TagRule(tag: string, words: seq<string>)

  /** All tag rules in the order their tags are emitted. */
  const AllRules: seq<TagRule> := [
    TagRule("machine_ptl007", ["ptl007"]),
    TagRule("machine_ptl008", ["ptl008"]),
    TagRule("machine_rom27", ["rom27"]),
    TagRule("machine_rom28", ["rom28"]),
    TagRule("machine_stgh", ["stgh"]),
    TagRule("safety", SafetyWords),
    TagRule("procedure", ProcedureWords)
  ]

  /** Reference definition: the tags of the rules that fire, in rule order. */
  function FiredTags(low: string, rules: seq<TagRule>): seq<string>
    decreases |rules|
  {
    if rules == [] then []
    else
      FiredTags(low, rules[..|rules| - 1])
      + (if ContainsAny(low, Last(rules).words) then [Last(rules).tag] else [])
  }

  lemma {:induction false} MachineTagsAreFired(low: string, k: nat)
    requires k <= |MachineKeywords|
    ensures MachineTagsOf(low, MachineKeywords[..k]) == FiredTags(low, AllRules[..k])
  {
    if k > 0 {
      MachineTagsAreFired(low, k - 1);
      assert MachineKeywords[..k][..k - 1] == MachineKeywords[..k - 1];
      assert AllRules[..k][..k - 1] == AllRules[..k - 1];
      var kw := MachineKeywords[k - 1].0;
      assert AllRules[k - 1].words == [kw];
      assert ContainsAny(low, [kw]) <==> Contains(low, kw) by {
        if Contains(low, kw) {
          assert Contains(low, [kw][0]);
        }
      }
    }
  }

  /** The tags are exactly those of the fired rules, in rule order. */
  lemma TagsAreFiredRules(text: string)
    ensures Tags(text) == FiredTags(Lower(text), AllRules)
  {
    var low := Lower(text);
    MachineTagsAreFired(low, 5);
    assert MachineKeywords[..5] == MachineKeywords;
    assert AllRules[..7][..6] == AllRules[..6];
    assert AllRules[..6][..5] == AllRules[..5];
    assert AllRules[..7] == AllRules;
  }

  lemma {:induction false} FiredTagsMembership(low: string, rules: seq<TagRule>, t: string)
    ensures t in FiredTags(low, rules) <==>
      exists k :: 0 <= k < |rules| && rules[k].tag == t && ContainsAny(low, rules[k].words)
    decreases |rules|
  {
    if rules != [] {
      var n := |rules| - 1;
      var front := rules[..n];
      FiredTagsMembership(low, front, t);
      assert forall k :: 0 <= k < n ==> front[k] == rules[k];
    }
  }

  lemma {:induction false} FiredTagsDistinct(low: string, rules: seq<TagRule>)
    requires forall i, j :: 0 <= i < j < |rules| ==> rules[i].tag != rules[j].tag
    ensures forall i, j :: 0 <= i < j < |FiredTags(low, rules)| ==>
      FiredTags(low, rules)[i] != FiredTags(low, rules)[j]
    decreases |rules|
  {
    if rules != [] {
      var n := |rules| - 1;
      var front := rules[..n];
      FiredTagsDistinct(low, front);
      var before := FiredTags(low, front);
      if ContainsAny(low, rules[n].words) {
        forall i | 0 <= i < |before| ensures before[i] != rules[n].tag {
          FiredTagsMembership(low, front, before[i]);
          var k :| 0 <= k < n && front[k].tag == before[i] && ContainsAny(low, front[k].words);
          assert rules[k] == front[k];
        }
      }
    }
  }

  /** Each tag appears at most once. */
  lemma TagsDistinct(text: string)
    ensures forall i, j :: 0 <= i < j < |Tags(text)| ==> Tags(text)[i] != Tags(text)[j]
  {
    TagsAreFiredRules(text);
    FiredTagsDistinct(Lower(text), AllRules);
  }

  /** A tag is present exactly when one of its words occurs in the lowercased text. */
  lemma TagsMembership(text: string, t: string)
    ensures t in Tags(text) <==>
      exists k :: 0 <= k < |AllRules| && AllRules[k].tag == t && ContainsAny(Lower(text), AllRules[k].words)
  {
    TagsAreFiredRules(text);
    FiredTagsMembership(Lower(text), AllRules, t);
  }
  // ---------------------------------------------------------------------
  // Greedy packing of the remaining blocks (`_build_text_only_units`)
  // ---------------------------------------------------------------------

  /** The texts of one text-only unit and its running token total. */
  datatype Group = Group(texts: seq<string>, tokens: int)

  /** Loop state: groups closed so far, the open group and its token total. */
  datatype Packing = Packing(closed: seq<Group>, current: seq<string>, tokens: int)

  /** One block: close the open group first when it is non-empty and the
      block would push it over the budget. */
  function PackStep(st: Packing, text: string, chunkSize: int, count: string -> nat): Packing {
    var blockTokens := count(text);
    if st.tokens + blockTokens > chunkSize && st.current != [] then
      Packing(st.closed + [Group(st.current, st.tokens)], [text], blockTokens)
    else
      Packing(st.closed, st.current + [text], st.tokens + blockTokens)
  }

  function PackFold(texts: seq<string>, chunkSize: int, count: string -> nat): Packing
    decreases |texts|
  {
    if texts == [] then Packing([], [], 0)
    else PackStep(PackFold(texts[..|texts| - 1], chunkSize, count), Last(texts), chunkSize, count)
  }

  /** The groups in emission order, the open group emitted last. */
  function Groups(texts: seq<string>, chunkSize: int, count: string -> nat): seq<Group> {
    var st := PackFold(texts, chunkSize, count);
    st.closed + (if st.current != [] then [Group(st.current, st.tokens)] else [])
  }

  function Flatten(groups: seq<Group>): seq<string>
    decreases |groups|
  {
    if groups == [] then [] else Flatten(groups[..|groups| - 1]) + Last(groups).texts
  }

  function SumCounts(texts: seq<string>, count: string -> nat): nat
    decreases |texts|
  {
    if texts == [] then 0 else SumCounts(texts[..|texts| - 1], count) + count(Last(texts))
  }

  /** A well-formed group: non-empty, its total is the sum of its block
      counts, and it is within budget unless it is a single block. */
  predicate GoodGroup(g: Group, chunkSize: int, count: string -> nat) {
    g.texts != [] && g.tokens == SumCounts(g.texts, count)
    && (|g.texts| == 1 || g.tokens <= chunkSize)
  }

  /** Greedy maximality: no group could have taken the first block of the next one. */
  predicate Maximal(groups: seq<Group>, chunkSize: int, count: string -> nat)
    requires forall k :: 0 <= k < |groups| ==> groups[k].texts != []
  {
    forall k :: 0 <= k < |groups| - 1 ==> groups[k].tokens + count(groups[k + 1].texts[0]) > chunkSize
  }

  lemma FlattenAppend(groups: seq<Group>, g: Group)
    ensures Flatten(groups + [g]) == Flatten(groups) + g.texts
  {
    assert (groups + [g])[..|groups|] == groups;
  }

  lemma SumCountsAppend(texts: seq<string>, t: string, count: string -> nat)
    ensures SumCounts(texts + [t], count) == SumCounts(texts, count) + count(t)
  {
    assert (texts + [t])[..|texts|] == texts;
  }

  /** The last step of the fold is one `PackStep` on the last text. */
  lemma PackFoldLast(texts: seq<string>, i: nat, chunkSize: int, count: string -> nat)
    requires i < |texts|
    ensures PackFold(texts[..i + 1], chunkSize, count)
      == PackStep(PackFold(texts[..i], chunkSize, count), texts[i], chunkSize, count)
  {
    assert texts[..i + 1][..i] == texts[..i];
  }

  /** The closed groups followed by the open one give back the texts. */
  lemma {:induction false} PackFlatten(texts: seq<string>, chunkSize: int, count: string -> nat)
    ensures Flatten(PackFold(texts, chunkSize, count).closed) + PackFold(texts, chunkSize, count).current == texts
    decreases |texts|
  {
    if texts != [] {
      var n := |texts| - 1;
      PackFlatten(texts[..n], chunkSize, count);
      PackFoldLast(texts, n, chunkSize, count);
      PackStepFlatten(PackFold(texts[..n], chunkSize, count), texts[n], chunkSize, count);
      FrontLast(texts);
    }
  }

  /** One packing step appends its text to the flattened state. */
  lemma PackStepFlatten(st: Packing, t: string, chunkSize: int, count: string -> nat)
    ensures var st' := PackStep(st, t, chunkSize, count);
      Flatten(st'.closed) + st'.current == Flatten(st.closed) + st.current + [t]
  {
    if st.tokens + count(t) > chunkSize && st.current != [] {
      FlattenAppend(st.closed, Group(st.current, st.tokens));
    }
  }

  /** The open group's total is the sum of its block counts. */
  lemma {:induction false} PackTokens(texts: seq<string>, chunkSize: int, count: string -> nat)
    ensures PackFold(texts, chunkSize, count).tokens == SumCounts(PackFold(texts, chunkSize, count).current, count)
    decreases |texts|
  {
    if texts != [] {
      var front := texts[..|texts| - 1];
      var t := Last(texts);
      PackTokens(front, chunkSize, count);
      var st := PackFold(front, chunkSize, count);
      if st.tokens + count(t) > chunkSize && st.current != [] {
        SumCountsAppend([], t, count);
        assert [] + [t] == [t];
      } else {
        SumCountsAppend(st.current, t, count);
      }
    }
  }

  /** The open group, together with its total, is within budget unless it
      is a single block, and it is non-empty once a block has been seen. */
  lemma {:induction false} PackCurrent(texts: seq<string>, chunkSize: int, count: string -> nat)
    ensures var st := PackFold(texts, chunkSize, count);
      st.tokens == SumCounts(st.current, count)
      && (|st.current| <= 1 || st.tokens <= chunkSize)
      && (texts != [] ==> st.current != [])
    decreases |texts|
  {
    PackTokens(texts, chunkSize, count);
    if texts != [] {
      PackCurrent(texts[..|texts| - 1], chunkSize, count);
    }
  }

  /** Every closed group is well formed. */
  lemma {:induction false} PackClosedGood(texts: seq<string>, chunkSize: int, count: string -> nat)
    ensures var st := PackFold(texts, chunkSize, count);
      forall k :: 0 <= k < |st.closed| ==> GoodGroup(st.closed[k], chunkSize, count)
    decreases |texts|
  {
    if texts != [] {
      var front := texts[..|texts| - 1];
      var t := Last(texts);
      PackClosedGood(front, chunkSize, count);
      PackCurrent(front, chunkSize, count);
      var st := PackFold(front, chunkSize, count);
      if st.tokens + count(t) > chunkSize && st.current != [] {
        AppendGoodGroup(st.closed, Group(st.current, st.tokens), chunkSize, count);
      }
    }
  }

  /** Appending a well-formed group keeps every group well formed. */
  lemma AppendGoodGroup(groups: seq<Group>, g: Group, chunkSize: int, count: string -> nat)
    requires forall k :: 0 <= k < |groups| ==> GoodGroup(groups[k], chunkSize, count)
    requires GoodGroup(g, chunkSize, count)
    ensures forall k :: 0 <= k < |groups + [g]| ==> GoodGroup((groups + [g])[k], chunkSize, count)
  {
    assert forall k :: 0 <= k < |groups| ==> (groups + [g])[k] == groups[k];
  }

  /** Closed groups are maximal, and the last one could not have taken the
      first block of the open group. */
  lemma {:induction false} PackMaximal(texts: seq<string>, chunkSize: int, count: string -> nat)
    ensures var st := PackFold(texts, chunkSize, count);
      (forall k :: 0 <= k < |st.closed| ==> st.closed[k].texts != [])
      && Maximal(st.closed, chunkSize, count)
      && (st.closed != [] && st.current != [] ==> Last(st.closed).tokens + count(st.current[0]) > chunkSize)
    decreases |texts|
  {
    if texts != [] {
      var front := texts[..|texts| - 1];
      var t := Last(texts);
      PackMaximal(front, chunkSize, count);
      var st := PackFold(front, chunkSize, count);
      if st.tokens + count(t) > chunkSize && st.current != [] {
        var g := Group(st.current, st.tokens);
        var closed' := st.closed + [g];
        assert forall k :: 0 <= k < |st.closed| ==> closed'[k] == st.closed[k];
        assert Last(closed') == g;
      } else {
        assert (st.current + [t])[0] == (if st.current == [] then t else st.current[0]);
      }
    }
  }

  /** Emitting a well-formed open group that the last closed group could
      not absorb keeps the groups well formed and maximal. */
  lemma CloseOpenGroup(closed: seq<Group>, g: Group, chunkSize: int, count: string -> nat)
    requires forall k :: 0 <= k < |closed| ==> closed[k].texts != [] && GoodGroup(closed[k], chunkSize, count)
    requires Maximal(closed, chunkSize, count)
    requires GoodGroup(g, chunkSize, count)
    requires closed != [] ==> Last(closed).tokens + count(g.texts[0]) > chunkSize
    ensures forall k :: 0 <= k < |closed + [g]| ==> GoodGroup((closed + [g])[k], chunkSize, count)
    ensures Maximal(closed + [g], chunkSize, count)
  {
    var all := closed + [g];
    assert forall k :: 0 <= k < |closed| ==> all[k] == closed[k];
    assert all[|closed|] == g;
  }

  /** The groups, concatenated in order, give back the blocks; every group is
      well formed; no group could have taken the next block; and there are
      no groups exactly when there are no blocks. */
  lemma GroupsProperties(texts: seq<string>, chunkSize: int, count: string -> nat)
    ensures var groups := Groups(texts, chunkSize, count);
      Flatten(groups) == texts
      && (forall k :: 0 <= k < |groups| ==> GoodGroup(groups[k], chunkSize, count))
      && Maximal(groups, chunkSize, count)
      && (groups == [] <==> texts == [])
  {
    PackFlatten(texts, chunkSize, count);
    PackCurrent(texts, chunkSize, count);
    PackClosedGood(texts, chunkSize, count);
    PackMaximal(texts, chunkSize, count);
    var st := PackFold(texts, chunkSize, count);
    var groups := Groups(texts, chunkSize, count);
    if st.current != [] {
      var g := Group(st.current, st.tokens);
      FlattenAppend(st.closed, g);
      CloseOpenGroup(st.closed, g, chunkSize, count);
      assert groups == st.closed + [g];
    } else {
      assert groups == st.closed;
      assert Flatten(st.closed) + [] == Flatten(st.closed);
    }
  }

  function TextsOf(blocks: seq<TextBlock>): (r: seq<string>)
    ensures |r| == |blocks| && forall k :: 0 <= k < |blocks| ==> r[k] == blocks[k].text
  {
    seq(|blocks|, k requires 0 <= k < |blocks| => blocks[k].text)
  }

  /** One text-only unit built from a group. */
  function TextUnit(document: Document, docId: string, page: PageLayout, title: Option<string>, g: Group): ContentUnit {
    var text := Join(g.texts, " ");
    ContentUnit(document.id, docId, page.pageNumber, title, SectionPath(page.headings),
      text, TextOnly, None, g.tokens, None, Tags(text))
  }

  /** `TextUnit` for one page and title, as a function value. */
  function TextUnitFn(document: Document, docId: string, page: PageLayout, title: Option<string>): Group -> ContentUnit {
    g => TextUnit(document, docId, page, title, g)
  }

  function TextUnits(document: Document, docId: string, page: PageLayout, title: Option<string>, groups: seq<Group>): seq<ContentUnit> {
    Map(TextUnitFn(document, docId, page, title), groups)
  }

  /** The section title shared by all text-only units of a page: the one
      for the top edge of the first block that survives the filter. */
  function TextTitle(page: PageLayout, blocks: seq<TextBlock>): Option<string> {
    if blocks == [] then None else SectionFor(page.headings, blocks[0].bbox.y1)
  }

  /** What `_build_text_only_units` returns. */
  function TextOnlyUnits(page: PageLayout, document: Document, docId: string, pageImages: seq<ImageBlock>,
                         chunkSize: int, count: string -> nat): seq<ContentUnit>
  {
    var blocks := AwayFromImages(page.textBlocks, pageImages);
    if blocks == [] then []
    else TextUnits(document, docId, page, TextTitle(page, blocks), Groups(TextsOf(blocks), chunkSize, count))
  }

  method BuildTextOnlyUnits(page: PageLayout, document: Document, docId: string, pageImages: seq<ImageBlock>,
                            chunkSize: int, count: string -> nat)
    returns (units: seq<ContentUnit>)
    ensures units == TextOnlyUnits(page, document, docId, pageImages, chunkSize, count)
  {
    units := [];
    var textBlocks := FilterTextAwayFromImages(page.textBlocks, pageImages);
    if textBlocks == [] {
      return;
    }
    var currentSection := GetSectionForPosition(page.headings, textBlocks[0].bbox.y1);
    units := PackTextUnits(page, document, docId, currentSection, textBlocks, chunkSize, count);
  }

  /** The packing loop of `_build_text_only_units` and the emission of the
      last group: one unit per group, in order. */
  method PackTextUnits(page: PageLayout, document: Document, docId: string, currentSection: Option<string>,
                       textBlocks: seq<TextBlock>, chunkSize: int, count: string -> nat)
    returns (units: seq<ContentUnit>)
    ensures units == TextUnits(document, docId, page, currentSection, Groups(TextsOf(textBlocks), chunkSize, count))
  {
    units := [];
    ghost var texts := TextsOf(textBlocks);
    ghost var unitFn := TextUnitFn(document, docId, page, currentSection);
    ghost var st := Packing([], [], 0);
    var currentChunk: seq<string> := [];
    var currentTokens := 0;
    for i := 0 to |textBlocks|
      invariant st == PackFold(texts[..i], chunkSize, count)
      invariant currentChunk == st.current && currentTokens == st.tokens
      invariant units == Map(unitFn, st.closed)
    {
      var text := textBlocks[i].text;
      var blockTokens := count(text);
      PackFoldLast(texts, i, chunkSize, count);
      if currentTokens + blockTokens > chunkSize && currentChunk != [] {
        var unit := MakeTextUnit(page, document, docId, currentSection, currentChunk, currentTokens);
        MapAppend(unitFn, st.closed, Group(currentChunk, currentTokens));
        units := units + [unit];
        currentChunk := [];
        currentTokens := 0;
      }
      currentChunk := currentChunk + [text];
      currentTokens := currentTokens + blockTokens;
      st := PackStep(st, text, chunkSize, count);
    }
    TakeAll(texts);
    if currentChunk != [] {
      var unit := MakeTextUnit(page, document, docId, currentSection, currentChunk, currentTokens);
      MapAppend(unitFn, st.closed, Group(currentChunk, currentTokens));
      units := units + [unit];
    }
  }

  /** The unit `_build_text_only_units` emits for one group of block texts. */
  method MakeTextUnit(page: PageLayout, document: Document, docId: string, currentSection: Option<string>,
                      currentChunk: seq<string>, currentTokens: int)
    returns (unit: ContentUnit)
    ensures unit == TextUnit(document, docId, page, currentSection, Group(currentChunk, currentTokens))
  {
    var chunkText := Join(currentChunk, " ");
    var sectionPath := BuildSectionPath(page.headings);
    var tags := ExtractTags(chunkText);
    unit := ContentUnit(document.id, docId, page.pageNumber, currentSection, sectionPath,
      chunkText, TextOnly, None, currentTokens, None, tags);
  }

  lemma TextUnitsShape(document: Document, docId: string, page: PageLayout, title: Option<string>, groups: seq<Group>)
    ensures var units := TextUnits(document, docId, page, title, groups);
      |units| == |groups|
      && forall k :: 0 <= k < |units| ==> units[k] == TextUnit(document, docId, page, title, groups[k])
  {
    MapAt(TextUnitFn(document, docId, page, title), groups);
  }

  /** Text-only units: one per group, each of type TEXT_ONLY without an image
      id, all with the same section title and path, each carrying its group's
      token total, and none at all when every block was filtered away. */
  lemma TextOnlyUnitsProperties(page: PageLayout, document: Document, docId: string, pageImages: seq<ImageBlock>,
                                chunkSize: int, count: string -> nat)
    ensures var blocks := AwayFromImages(page.textBlocks, pageImages);
      var units := TextOnlyUnits(page, document, docId, pageImages, chunkSize, count);
      var groups := Groups(TextsOf(blocks), chunkSize, count);
      (units == [] <==> blocks == [])
      && |units| == |groups|
      && forall k :: 0 <= k < |units| ==>
        units[k].unitType == TextOnly && units[k].imageId == None && !units[k].HasImage()
        && units[k].pageNumber == page.pageNumber
        && units[k].sectionTitle == TextTitle(page, blocks)
        && units[k].sectionPath == SectionPath(page.headings)
        && units[k].tokenCount == groups[k].tokens
        && units[k].text == Join(groups[k].texts, " ")
  {
    var blocks := AwayFromImages(page.textBlocks, pageImages);
    var groups := Groups(TextsOf(blocks), chunkSize, count);
    GroupsProperties(TextsOf(blocks), chunkSize, count);
    TextUnitsShape(document, docId, page, TextTitle(page, blocks), groups);
  }
  // ---------------------------------------------------------------------
  // Image assets and image units (`build_content_units`)
  // ---------------------------------------------------------------------

  /** The asset recorded for an extracted image. The asset id (a fresh UUID)
      is given, and `fileHash` stands for hashing the saved file: None when
      the file does not exist. */
  function AssetFor(document: Document, docId: string, img: ImageBlock, id: string,
                    fileHash: string -> Option<string>): ImageAsset
  {
    var path := img.imagePath;
    ImageAsset(id, document.id, docId, img.pageNumber, img.bbox, path, None,
      if path != "" then fileHash(path) else None)
  }

  /** One asset per extracted image, in extraction order; `assetId(k)` is
      the id generated for the k-th. */
  function AssetsOf(document: Document, docId: string, images: seq<ImageBlock>,
                    assetId: nat -> string, fileHash: string -> Option<string>): (r: seq<ImageAsset>)
    ensures |r| == |images|
  {
    seq(|images|, k requires 0 <= k < |images| => AssetFor(document, docId, images[k], assetId(k), fileHash))
  }

  /** The path-to-asset map: assets with an empty path are not entered, and a
      later asset with the same path replaces an earlier one. */
  function ImageMapOf(assets: seq<ImageAsset>): map<string, ImageAsset>
    decreases |assets|
  {
    if assets == [] then map[]
    else
      var m := ImageMapOf(assets[..|assets| - 1]);
      var a := Last(assets);
      if a.imagePath != "" then m[a.imagePath := a] else m
  }

  /** The parts of an image unit's text: the caption when present and
      non-empty, then the nearby texts. */
  function FusedParts(caption: Option<string>, nearby: seq<string>): seq<string> {
    (if caption.Some? && caption.value != "" then [caption.value] else []) + nearby
  }

  function FusedText(caption: Option<string>, nearby: seq<string>): string {
    var parts := FusedParts(caption, nearby);
    if parts != [] then Join(parts, " ") else "Image"
  }

  /** The image id for an image: that of the asset registered under its
      path, None when the path is empty or unregistered. */
  function ImageIdFor(img: ImageBlock, imageMap: map<string, ImageAsset>): Option<string> {
    var path := img.imagePath;
    if path != "" && path in imageMap then Some(imageMap[path].id) else None
  }

  /** The IMAGE_WITH_CONTEXT unit for one image of a page. */
  function ImageUnit(document: Document, docId: string, page: PageLayout, img: ImageBlock,
                     imageMap: map<string, ImageAsset>, count: string -> nat): ContentUnit
  {
    var fusion := ImageExtractor.NearbyText(img, page.textBlocks, page.pageNumber);
    var text := FusedText(fusion.0, fusion.1);
    ContentUnit(document.id, docId, page.pageNumber, SectionFor(page.headings, img.bbox.y1),
      SectionPath(page.headings), text, ImageWithContext, ImageIdFor(img, imageMap),
      count(text), None, Tags(text))
  }

  /** `ImageUnit` for one page, as a function value. */
  function ImageUnitFn(document: Document, docId: string, page: PageLayout,
                       imageMap: map<string, ImageAsset>, count: string -> nat): ImageBlock -> ContentUnit
  {
    img => ImageUnit(document, docId, page, img, imageMap, count)
  }

  function ImageUnits(document: Document, docId: string, page: PageLayout, images: seq<ImageBlock>,
                      imageMap: map<string, ImageAsset>, count: string -> nat): seq<ContentUnit>
  {
    Map(ImageUnitFn(document, docId, page, imageMap, count), images)
  }

  /** The extracted images that lie on page `page`, in extraction order. */
  function ImagesOnPage(images: seq<ImageBlock>, page: int): seq<ImageBlock>
    decreases |images|
  {
    if images == [] then []
    else
      ImagesOnPage(images[..|images| - 1], page)
      + (if Last(images).pageNumber == page then [Last(images)] else [])
  }

  /** The units of one page: its image units first, then its text-only units. */
  function PageUnits(document: Document, docId: string, page: PageLayout, images: seq<ImageBlock>,
                     imageMap: map<string, ImageAsset>, chunkSize: int, count: string -> nat): seq<ContentUnit>
  {
    var pageImages := ImagesOnPage(images, page.pageNumber);
    ImageUnits(document, docId, page, pageImages, imageMap, count)
    + TextOnlyUnits(page, document, docId, pageImages, chunkSize, count)
  }

  /** The units of all pages, page after page. */
  function AllUnits(document: Document, docId: string, pages: seq<PageLayout>, images: seq<ImageBlock>,
                    imageMap: map<string, ImageAsset>, chunkSize: int, count: string -> nat): seq<ContentUnit>
    decreases |pages|
  {
    if pages == [] then []
    else
      AllUnits(document, docId, pages[..|pages| - 1], images, imageMap, chunkSize, count)
      + PageUnits(document, docId, Last(pages), images, imageMap, chunkSize, count)
  }

  lemma ImageUnitsLast(document: Document, docId: string, page: PageLayout, images: seq<ImageBlock>, j: nat,
                        imageMap: map<string, ImageAsset>, count: string -> nat)
    requires j < |images|
    ensures ImageUnits(document, docId, page, images[..j + 1], imageMap, count)
      == ImageUnits(document, docId, page, images[..j], imageMap, count)
         + [ImageUnit(document, docId, page, images[j], imageMap, count)]
  {
    MapStep(ImageUnitFn(document, docId, page, imageMap, count), images, j);
  }

  lemma AllUnitsLast(document: Document, docId: string, pages: seq<PageLayout>, p: nat, images: seq<ImageBlock>,
                     imageMap: map<string, ImageAsset>, chunkSize: int, count: string -> nat)
    requires p < |pages|
    ensures AllUnits(document, docId, pages[..p + 1], images, imageMap, chunkSize, count)
      == AllUnits(document, docId, pages[..p], images, imageMap, chunkSize, count)
         + PageUnits(document, docId, pages[p], images, imageMap, chunkSize, count)
  {
    assert pages[..p + 1][..p] == pages[..p];
  }

  lemma ImageMapLast(assets: seq<ImageAsset>, a: ImageAsset)
    ensures ImageMapOf(assets + [a])
      == if a.imagePath != "" then ImageMapOf(assets)[a.imagePath := a] else ImageMapOf(assets)
  {
    assert (assets + [a])[..|assets|] == assets;
  }

  /** The first loop of `build_content_units`: one asset per extracted
      image, and the path-to-asset map. */
  method CreateImageAssets(document: Document, docId: string, imageBlocks: seq<ImageBlock>,
                           assetId: nat -> string, fileHash: string -> Option<string>)
    returns (imageAssets: seq<ImageAsset>, imageMap: map<string, ImageAsset>)
    ensures imageAssets == AssetsOf(document, docId, imageBlocks, assetId, fileHash)
    ensures imageMap == ImageMapOf(imageAssets)
  {
    imageAssets := [];
    imageMap := map[];
    for k := 0 to |imageBlocks|
      invariant |imageAssets| == k
      invariant forall j :: 0 <= j < k ==>
        imageAssets[j] == AssetFor(document, docId, imageBlocks[j], assetId(j), fileHash)
      invariant imageMap == ImageMapOf(imageAssets)
    {
      var imgBlock := imageBlocks[k];
      var imagePath := imgBlock.imagePath;
      var imageHash: Option<string> := None;
      if imagePath != "" {
        imageHash := fileHash(imagePath);
      }
      var imageAsset := ImageAsset(assetId(k), document.id, docId, imgBlock.pageNumber,
        imgBlock.bbox, imagePath, None, imageHash);
      ImageMapLast(imageAssets, imageAsset);
      imageAssets := imageAssets + [imageAsset];
      if imagePath != "" {
        imageMap := imageMap[imagePath := imageAsset];
      }
    }
  }

  /** The image loop of one page in `build_content_units`: one
      IMAGE_WITH_CONTEXT unit per image of the page, in order. */
  method BuildImageUnits(document: Document, docId: string, pageLayout: PageLayout, pageImages: seq<ImageBlock>,
                         imageMap: map<string, ImageAsset>, count: string -> nat)
    returns (units: seq<ContentUnit>)
    ensures units == ImageUnits(document, docId, pageLayout, pageImages, imageMap, count)
  {
    units := [];
    for j := 0 to |pageImages|
      invariant units == ImageUnits(document, docId, pageLayout, pageImages[..j], imageMap, count)
    {
      var unit := BuildImageUnit(document, docId, pageLayout, pageImages[j], imageMap, count);
      ImageUnitsLast(document, docId, pageLayout, pageImages, j, imageMap, count);
      units := units + [unit];
    }
    assert pageImages[..|pageImages|] == pageImages;
  }

  /** The body of the image loop of `_build_image_units`, for one image. */
  method BuildImageUnit(document: Document, docId: string, pageLayout: PageLayout, imgBlock: ImageBlock,
                        imageMap: map<string, ImageAsset>, count: string -> nat)
    returns (unit: ContentUnit)
    ensures unit == ImageUnit(document, docId, pageLayout, imgBlock, imageMap, count)
  {
    var textBlocks := pageLayout.textBlocks;
    var caption, nearbyText := ImageExtractor.FindNearbyText(imgBlock, textBlocks, pageLayout.pageNumber);
    var fusedTextParts: seq<string> := [];
    if caption.Some? && caption.value != "" {
      fusedTextParts := fusedTextParts + [caption.value];
    }
    fusedTextParts := fusedTextParts + nearbyText;
    assert fusedTextParts == FusedParts(caption, nearbyText);
    var sectionTitle := GetSectionForPosition(pageLayout.headings, imgBlock.bbox.y1);
    var fusedText := if fusedTextParts != [] then Join(fusedTextParts, " ") else "Image";
    assert fusedText == FusedText(caption, nearbyText);
    var imagePath := imgBlock.imagePath;
    var imageAsset: Option<ImageAsset> :=
      if imagePath != "" && imagePath in imageMap then Some(imageMap[imagePath]) else None;
    var sectionPath := BuildSectionPath(pageLayout.headings);
    var tags := ExtractTags(fusedText);
    unit := ContentUnit(document.id, docId, pageLayout.pageNumber, sectionTitle,
      sectionPath, fusedText, ImageWithContext,
      if imageAsset.Some? then Some(imageAsset.value.id) else None,
      count(fusedText), None, tags);
  }

  /** `build_content_units`. The extracted images (with the paths they were
      saved under) are an input; `assetId` and `fileHash` stand for UUID
      generation and file hashing. */
  method BuildContentUnits(parsed: ParsedPDF, document: Document, imageBlocks: seq<ImageBlock>,
                           assetId: nat -> string, fileHash: string -> Option<string>,
                           chunkSize: int, count: string -> nat)
    returns (contentUnits: seq<ContentUnit>, imageAssets: seq<ImageAsset>)
    ensures imageAssets == AssetsOf(document, parsed.docId, imageBlocks, assetId, fileHash)
    ensures contentUnits == AllUnits(document, parsed.docId, parsed.pages, imageBlocks,
      ImageMapOf(imageAssets), chunkSize, count)
  {
    contentUnits := [];
    var imageMap;
    imageAssets, imageMap := CreateImageAssets(document, parsed.docId, imageBlocks, assetId, fileHash);
    var pages := parsed.pages;
    for p := 0 to |pages|
      invariant contentUnits == AllUnits(document, parsed.docId, pages[..p], imageBlocks, imageMap, chunkSize, count)
    {
      var pageLayout := pages[p];
      var pageImages := ImagesOnPage(imageBlocks, pageLayout.pageNumber);
      var imageUnits := BuildImageUnits(document, parsed.docId, pageLayout, pageImages, imageMap, count);
      var textUnits := BuildTextOnlyUnits(pageLayout, document, parsed.docId, pageImages, chunkSize, count);
      AllUnitsLast(document, parsed.docId, pages, p, imageBlocks, imageMap, chunkSize, count);
      ConcatAssoc(contentUnits, imageUnits, textUnits);
      contentUnits := contentUnits + imageUnits + textUnits;
    }
    assert pages[..|pages|] == pages;
  }
  // ---------------------------------------------------------------------
  // Properties of the assembled units
  // ---------------------------------------------------------------------

  /** An image unit's text: exactly "Image" when there is neither a
      non-empty caption nor nearby text; otherwise it starts with the
      caption when there is one, and contains every nearby text. */
  lemma FusedTextShape(caption: Option<string>, nearby: seq<string>)
    ensures caption.Some? && caption.value != "" ==> StartsWith(FusedText(caption, nearby), caption.value)
    ensures forall k :: 0 <= k < |nearby| ==> Contains(FusedText(caption, nearby), nearby[k])
    ensures (caption.None? || caption.value == "") && nearby == [] ==> FusedText(caption, nearby) == "Image"
  {
    var parts := FusedParts(caption, nearby);
    JoinContainsParts(parts, " ");
    var off := if caption.Some? && caption.value != "" then 1 else 0;
    forall k | 0 <= k < |nearby| ensures Contains(FusedText(caption, nearby), nearby[k]) {
      assert parts[k + off] == nearby[k];
    }
  }

  /** A path is in the map exactly when it is non-empty and some asset has
      it; it then maps to the last such asset. */
  lemma {:induction false} ImageMapLastWins(assets: seq<ImageAsset>, path: string)
    ensures path in ImageMapOf(assets) <==>
      path != "" && exists k :: 0 <= k < |assets| && assets[k].imagePath == path
    ensures path in ImageMapOf(assets) ==>
      exists k :: (0 <= k < |assets| && assets[k].imagePath == path
        && ImageMapOf(assets)[path] == assets[k]
        && forall j :: k < j < |assets| ==> assets[j].imagePath != path)
    decreases |assets|
  {
    if assets != [] {
      var n := |assets| - 1;
      var front := assets[..n];
      ImageMapLastWins(front, path);
      assert forall k :: 0 <= k < n ==> front[k] == assets[k];
      if assets[n].imagePath == path && path != "" {
        assert ImageMapOf(assets)[path] == assets[n];
      } else if path in ImageMapOf(front) {
        var k :| 0 <= k < n && front[k].imagePath == path
          && ImageMapOf(front)[path] == front[k]
          && forall j :: k < j < n ==> front[j].imagePath != path;
        assert ImageMapOf(assets)[path] == assets[k];
      }
    }
  }

  /** An image unit carries an image id exactly when the image has a
      non-empty path that some asset has; the id is then that of the last
      asset with that path. Otherwise its image id is None. */
  lemma ImageUnitId(document: Document, docId: string, page: PageLayout, img: ImageBlock,
                    assets: seq<ImageAsset>, count: string -> nat)
    ensures var u := ImageUnit(document, docId, page, img, ImageMapOf(assets), count);
      u.unitType == ImageWithContext
      && (u.HasImage() <==>
        img.imagePath != "" && exists k :: 0 <= k < |assets| && assets[k].imagePath == img.imagePath)
      && (u.HasImage() ==> exists k :: (0 <= k < |assets| && assets[k].imagePath == img.imagePath
        && u.imageId == Some(assets[k].id)
        && forall j :: k < j < |assets| ==> assets[j].imagePath != img.imagePath))
  {
    var u := ImageUnit(document, docId, page, img, ImageMapOf(assets), count);
    ImageUnitFields(document, docId, page, img, ImageMapOf(assets), count);
    ImageIdFromAssets(img, assets);
    if u.HasImage() {
      var k := LastAssetWitness(img, assets);
    }
  }

  /** The fields of an image unit that say which image it carries. */
  lemma ImageUnitFields(document: Document, docId: string, page: PageLayout, img: ImageBlock,
                        imageMap: map<string, ImageAsset>, count: string -> nat)
    ensures ImageUnit(document, docId, page, img, imageMap, count).unitType == ImageWithContext
    ensures ImageUnit(document, docId, page, img, imageMap, count).imageId == ImageIdFor(img, imageMap)
  {
  }

  /** Asset `k` has the path, and no later asset has it. */
  predicate LastAssetWith(assets: seq<ImageAsset>, path: string, k: int) {
    && 0 <= k < |assets| && assets[k].imagePath == path
    && forall j :: k < j < |assets| ==> assets[j].imagePath != path
  }

  /** The image id found through the map built from `assets`. */
  lemma ImageIdFromAssets(img: ImageBlock, assets: seq<ImageAsset>)
    ensures ImageIdFor(img, ImageMapOf(assets)).Some? <==>
      img.imagePath != "" && exists k :: 0 <= k < |assets| && assets[k].imagePath == img.imagePath
  {
    ImageMapLastWins(assets, img.imagePath);
  }

  /** The asset whose id an image gets. */
  lemma LastAssetWitness(img: ImageBlock, assets: seq<ImageAsset>) returns (k: nat)
    requires ImageIdFor(img, ImageMapOf(assets)).Some?
    ensures LastAssetWith(assets, img.imagePath, k) && ImageIdFor(img, ImageMapOf(assets)) == Some(assets[k].id)
  {
    ImageMapLastWins(assets, img.imagePath);
    k :| 0 <= k < |assets| && assets[k].imagePath == img.imagePath
      && ImageMapOf(assets)[img.imagePath] == assets[k]
      && forall j :: k < j < |assets| ==> assets[j].imagePath != img.imagePath;
  }

  /** Unit k is the unit of image k. */
  lemma ImageUnitsAt(document: Document, docId: string, page: PageLayout, images: seq<ImageBlock>,
                     imageMap: map<string, ImageAsset>, count: string -> nat)
    ensures |ImageUnits(document, docId, page, images, imageMap, count)| == |images|
    ensures forall k :: 0 <= k < |images| ==>
      ImageUnits(document, docId, page, images, imageMap, count)[k] == ImageUnit(document, docId, page, images[k], imageMap, count)
  {
    MapAt(ImageUnitFn(document, docId, page, imageMap, count), images);
  }

  /** Image units: one per image, in order, each IMAGE_WITH_CONTEXT with the
      page's number and section path and the image id found for its image. */
  lemma ImageUnitsShape(document: Document, docId: string, page: PageLayout, images: seq<ImageBlock>,
                        imageMap: map<string, ImageAsset>, count: string -> nat)
    ensures var units := ImageUnits(document, docId, page, images, imageMap, count);
      |units| == |images|
      && forall k :: 0 <= k < |units| ==>
        units[k].unitType == ImageWithContext && units[k].pageNumber == page.pageNumber
        && units[k].sectionPath == SectionPath(page.headings)
        && units[k].imageId == ImageIdFor(images[k], imageMap)
  {
    ImageUnitsAt(document, docId, page, images, imageMap, count);
  }

  /** Exactly the extracted images of the page are used, in extraction order. */
  lemma {:induction false} ImagesOnPageMembership(images: seq<ImageBlock>, page: int, img: ImageBlock)
    ensures img in ImagesOnPage(images, page) <==> img in images && img.pageNumber == page
    decreases |images|
  {
    if images != [] {
      var front := images[..|images| - 1];
      ImagesOnPageMembership(front, page, img);
      assert images == front + [Last(images)];
    }
  }

  /** The units of a page: one IMAGE_WITH_CONTEXT unit per image of the page
      come first, then the TEXT_ONLY units, which carry no image id; every
      unit has the page's number and the same section path. */
  lemma PageUnitsLayout(document: Document, docId: string, page: PageLayout, images: seq<ImageBlock>,
                        imageMap: map<string, ImageAsset>, chunkSize: int, count: string -> nat)
    ensures var units := PageUnits(document, docId, page, images, imageMap, chunkSize, count);
      var n := |ImagesOnPage(images, page.pageNumber)|;
      n <= |units|
      && forall k :: 0 <= k < |units| ==>
        (units[k].unitType == ImageWithContext <==> k < n)
        && (units[k].unitType == TextOnly ==> units[k].imageId == None)
        && units[k].pageNumber == page.pageNumber
        && units[k].sectionPath == SectionPath(page.headings)
  {
    var pageImages := ImagesOnPage(images, page.pageNumber);
    ImageUnitsShape(document, docId, page, pageImages, imageMap, count);
    TextOnlyUnitsProperties(page, document, docId, pageImages, chunkSize, count);
    var iu := ImageUnits(document, docId, page, pageImages, imageMap, count);
    var tu := TextOnlyUnits(page, document, docId, pageImages, chunkSize, count);
    var units := PageUnits(document, docId, page, images, imageMap, chunkSize, count);
    assert units == iu + tu;
    forall k | 0 <= k < |units|
      ensures (units[k].unitType == ImageWithContext <==> k < |pageImages|)
        && (units[k].unitType == TextOnly ==> units[k].imageId == None)
        && units[k].pageNumber == page.pageNumber
        && units[k].sectionPath == SectionPath(page.headings)
    {
      if k < |iu| {
        assert units[k] == iu[k];
      } else {
        assert units[k] == tu[k - |iu|];
      }
    }
  }

  /** No TEXT_ONLY unit of the list carries an image id. */
  predicate TextOnlyWithoutImage(units: seq<ContentUnit>) {
    forall k :: 0 <= k < |units| && units[k].unitType == TextOnly ==> units[k].imageId == None
  }

  lemma TextOnlyWithoutImageConcat(a: seq<ContentUnit>, b: seq<ContentUnit>)
    requires TextOnlyWithoutImage(a) && TextOnlyWithoutImage(b)
    ensures TextOnlyWithoutImage(a + b)
  {
    forall k | 0 <= k < |a + b| && (a + b)[k].unitType == TextOnly ensures (a + b)[k].imageId == None {
      if k >= |a| {
        assert (a + b)[k] == b[k - |a|];
      }
    }
  }

  /** Across the whole document, no TEXT_ONLY unit carries an image id. */
  lemma {:induction false} TextOnlyUnitsHaveNoImage(document: Document, docId: string, pages: seq<PageLayout>,
                                                    images: seq<ImageBlock>, imageMap: map<string, ImageAsset>,
                                                    chunkSize: int, count: string -> nat)
    ensures TextOnlyWithoutImage(AllUnits(document, docId, pages, images, imageMap, chunkSize, count))
    decreases |pages|
  {
    if pages != [] {
      var front := pages[..|pages| - 1];
      TextOnlyUnitsHaveNoImage(document, docId, front, images, imageMap, chunkSize, count);
      PageUnitsLayout(document, docId, Last(pages), images, imageMap, chunkSize, count);
      TextOnlyWithoutImageConcat(AllUnits(document, docId, front, images, imageMap, chunkSize, count),
        PageUnits(document, docId, Last(pages), images, imageMap, chunkSize, count));
    } else {
      assert AllUnits(document, docId, pages, images, imageMap, chunkSize, count) == [];
    }
  }
}
