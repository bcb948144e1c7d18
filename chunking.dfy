/** The markdown chunker (`SemanticChunker` in ingestion/processing/chunking.py):
    sections at markdown headings, a section path from a backward scan over
    the sections, a page estimate by linear interpolation, and paragraph
    splitting of oversized sections under token limits. */
module Chunking {
  import opened Text
  import opened Models
  import opened Lists

  /** The chunker's settings; `count` is the tokenizer. The settings are
      only read after construction. */
  datatype SemanticChunker = SemanticChunker(
    chunkSize: int,
    chunkOverlap: int,
    minChunkSize: int,
    maxChunkSize: int,
    count: string -> nat)

  /** `SemanticChunker()` with its default limits. */
  function DefaultChunker(count: string -> nat): (c: SemanticChunker)
    ensures c.minChunkSize <= c.chunkSize <= c.maxChunkSize
  {
    SemanticChunker(600, 100, 100, 1000, count)
  }

  /** The fields of a parsed document that chunking reads. */
  datatype ParsedDocument = ParsedDocument(docId: string, totalPages: int, markdownContent: string)

  /** A chunk; `chunkIdx` is the `chunk_idx` metadata entry, absent when the
      whole section fitted in one chunk. */
  datatype DocumentChunk = DocumentChunk(
    chunkId: string,
    docId: string,
    text: string,
    page: int,
    sectionPath: string,
    tokenCount: int,
    sectionIdx: nat,
    chunkIdx: Option<nat>)

  /** A `(heading, content, level)` tuple. */
  datatype Section = Section(heading: string, content: string, level: int)

  // ---------------------------------------------------------------------
  // Sections (`_split_by_headings`)
  // ---------------------------------------------------------------------

  /** The line matches `^(#{1,6})\s+(.+)$`: one to six '#', then
      whitespace, then at least one more character on the line. */
  predicate IsHeadingLine(line: string) {
    var n := HashRun(line);
    1 <= n <= 6 && n + 2 <= |line| && IsSpace(line[n])
  }

  /** The level a line matches with, if it is a heading line. */
  function HeadingMatch(line: string): Option<nat> {
    if IsHeadingLine(line) then Some(HashRun(line)) else None
  }

  /** Positions of the heading lines, in order. */
  function HeadingIndices(lines: seq<string>): (r: seq<nat>)
    ensures forall k :: 0 <= k < |r| ==> r[k] < |lines|
    ensures forall k, l :: 0 <= k < l < |r| ==> r[k] < r[l]
  {
    Sources(HeadingMatch, lines)
  }

  /** The section of the k-th heading: its level, its text stripped, and the
      stripped lines up to the next heading or the end of the document. */
  function SectionAt(lines: seq<string>, idx: seq<nat>, k: nat): Section
    requires forall m :: 0 <= m < |idx| ==> idx[m] < |lines|
    requires forall m, l :: 0 <= m < l < |idx| ==> idx[m] < idx[l]
    requires k < |idx|
  {
    var h := idx[k];
    var end := if k + 1 < |idx| then idx[k + 1] else |lines|;
    var level := HashRun(lines[h]);
    Section(Strip(lines[h][level..]), Strip(Join(lines[h + 1..end], "\n")), level)
  }

  /** What `_split_by_headings` returns. */
  function SectionsOf(markdown: string): seq<Section> {
    var lines := Split(markdown, "\n");
    var idx := HeadingIndices(lines);
    if idx == [] then [Section("Document", markdown, 0)]
    else seq(|idx|, k requires 0 <= k < |idx| => SectionAt(lines, idx, k))
  }

  /** `list(heading_pattern.finditer(markdown))`, as positions of lines. */
  method FindHeadingLines(lines: seq<string>) returns (matches: seq<nat>)
    ensures matches == HeadingIndices(lines)
  {
    matches := [];
    for i := 0 to |lines|
      invariant matches == HeadingIndices(lines[..i])
    {
      SourcesStep(HeadingMatch, lines, i);
      if IsHeadingLine(lines[i]) {
        matches := matches + [i];
      }
    }
    assert lines[..|lines|] == lines;
  }

  /** `SectionsOf` element by element. */
  lemma SectionsOfAt(markdown: string)
    ensures var lines := Split(markdown, "\n");
      var idx := HeadingIndices(lines);
      && (idx == [] ==> SectionsOf(markdown) == [Section("Document", markdown, 0)])
      && (idx != [] ==> |SectionsOf(markdown)| == |idx|)
      && (forall k :: 0 <= k < |idx| ==> SectionsOf(markdown)[k] == SectionAt(lines, idx, k))
  {
  }

  method SplitByHeadings(markdown: string) returns (sections: seq<Section>)
    ensures sections == SectionsOf(markdown)
  {
    var lines := Split(markdown, "\n");
    var matches := FindHeadingLines(lines);
    SectionsOfAt(markdown);
    if matches == [] {
      return [Section("Document", markdown, 0)];
    }
    sections := SectionsAtMatches(lines, matches);
  }

  /** The loop over the matches of `_split_by_headings`: one section per
      match, from its line to the next match. */
  method SectionsAtMatches(lines: seq<string>, matches: seq<nat>) returns (sections: seq<Section>)
    requires forall m :: 0 <= m < |matches| ==> matches[m] < |lines|
    requires forall m, l :: 0 <= m < l < |matches| ==> matches[m] < matches[l]
    ensures |sections| == |matches|
    ensures forall k :: 0 <= k < |matches| ==> sections[k] == SectionAt(lines, matches, k)
  {
    sections := [];
    for i := 0 to |matches|
      invariant |sections| == i
      invariant forall k :: 0 <= k < i ==> sections[k] == SectionAt(lines, matches, k)
    {
      var start := matches[i];
      var level := HashRun(lines[start]);
      var heading := Strip(lines[start][level..]);
      var end := if i + 1 < |matches| then matches[i + 1] else |lines|;
      var content := Strip(Join(lines[start + 1..end], "\n"));
      sections := sections + [Section(heading, content, level)];
    }
  }

  /** Exactly the heading lines are found, in order. */
  lemma HeadingIndicesExact(lines: seq<string>)
    ensures forall k :: 0 <= k < |HeadingIndices(lines)| ==> IsHeadingLine(lines[HeadingIndices(lines)[k]])
    ensures forall i :: 0 <= i < |lines| && IsHeadingLine(lines[i]) ==> i in HeadingIndices(lines)
  {
    KeptInOrder(HeadingMatch, lines);
  }

  /** No heading is found exactly when no line is a heading line. */
  lemma NoHeadingIndicesIff(lines: seq<string>)
    ensures HeadingIndices(lines) == [] <==> forall i :: 0 <= i < |lines| ==> !IsHeadingLine(lines[i])
  {
    SourcesEmptyIff(HeadingMatch, lines);
  }

  /** Without heading lines the whole document is one level-0 section
      named "Document" holding the unstripped markdown. */
  lemma NoHeadingsOneSection(markdown: string)
    requires forall i :: 0 <= i < |Split(markdown, "\n")| ==> !IsHeadingLine(Split(markdown, "\n")[i])
    ensures SectionsOf(markdown) == [Section("Document", markdown, 0)]
  {
    NoHeadingIndicesIff(Split(markdown, "\n"));
  }

  /** A section found at a heading: level 1 to 6, heading and content free
      of surrounding whitespace. */
  predicate HeadingSection(s: Section) {
    1 <= s.level <= 6 && NoOuterSpace(s.heading) && NoOuterSpace(s.content)
  }

  /** With heading lines, there is one section per heading line, each with
      a level from 1 to 6 and heading and content free of surrounding
      whitespace. */
  lemma SectionPerHeading(markdown: string)
    requires exists i :: 0 <= i < |Split(markdown, "\n")| && IsHeadingLine(Split(markdown, "\n")[i])
    ensures |SectionsOf(markdown)| == |HeadingIndices(Split(markdown, "\n"))|
    ensures forall k :: 0 <= k < |SectionsOf(markdown)| ==> HeadingSection(SectionsOf(markdown)[k])
  {
    var lines := Split(markdown, "\n");
    var idx := HeadingIndices(lines);
    HeadingIndicesExact(lines);
    var i :| 0 <= i < |lines| && IsHeadingLine(lines[i]);
    assert i in idx;
    var sections := SectionsOf(markdown);
    assert sections == seq(|idx|, k requires 0 <= k < |idx| => SectionAt(lines, idx, k));
    forall k | 0 <= k < |sections|
      ensures HeadingSection(sections[k])
    {
      SectionAtShape(lines, idx, k);
    }
  }

  lemma SectionAtShape(lines: seq<string>, idx: seq<nat>, k: nat)
    requires forall m :: 0 <= m < |idx| ==> idx[m] < |lines|
    requires forall m, l :: 0 <= m < l < |idx| ==> idx[m] < idx[l]
    requires k < |idx| && IsHeadingLine(lines[idx[k]])
    ensures HeadingSection(SectionAt(lines, idx, k))
  {
    var h := idx[k];
    var end := if k + 1 < |idx| then idx[k + 1] else |lines|;
    StripNoOuterSpace(lines[h][HashRun(lines[h])..]);
    StripNoOuterSpace(Join(lines[h + 1..end], "\n"));
  }

  // ---------------------------------------------------------------------
  // Section path (`_build_section_path`)
  // ---------------------------------------------------------------------

  /** Indices of the sections the backward scan from `i` down to 0 puts in
      front of the path, in path order: a section is taken when its level is
      below the level of the last one taken (initially `level`). */
  function Ancestors(sections: seq<Section>, i: int, level: int): (r: seq<nat>)
    requires i < |sections|
    ensures forall k :: 0 <= k < |r| ==> r[k] <= i
    decreases i + 1
  {
    if i < 0 then []
    else if sections[i].level < level then Ancestors(sections, i - 1, sections[i].level) + [i]
    else Ancestors(sections, i - 1, level)
  }

  /** The sections on the path of section `idx`, root first, `idx` last. */
  function PathIndices(sections: seq<Section>, idx: nat): (r: seq<nat>)
    requires idx < |sections|
    ensures forall k :: 0 <= k < |r| ==> r[k] < |sections|
  {
    Ancestors(sections, idx - 1, sections[idx].level) + [idx]
  }

  function HeadingsAt(sections: seq<Section>, ids: seq<nat>): (r: seq<string>)
    requires forall k :: 0 <= k < |ids| ==> ids[k] < |sections|
    ensures |r| == |ids| && forall k :: 0 <= k < |ids| ==> r[k] == sections[ids[k]].heading
  {
    seq(|ids|, k requires 0 <= k < |ids| => sections[ids[k]].heading)
  }

  /** What `_build_section_path` returns. */
  function SectionPathOf(sections: seq<Section>, idx: nat): string
    requires idx < |sections|
  {
    Join(HeadingsAt(sections, PathIndices(sections, idx)), " > ")
  }

  method BuildSectionPath(sections: seq<Section>, currentIdx: nat) returns (path: string)
    requires currentIdx < |sections|
    ensures path == SectionPathOf(sections, currentIdx)
  {
    var currentHeading := sections[currentIdx].heading;
    var currentLevel := sections[currentIdx].level;
    var pathParts := [currentHeading];
    ghost var ids: seq<nat> := [currentIdx];
    var i := currentIdx - 1;
    while i >= 0
      invariant -1 <= i < currentIdx
      invariant forall k :: 0 <= k < |ids| ==> ids[k] < |sections|
      invariant pathParts == HeadingsAt(sections, ids)
      invariant Ancestors(sections, i, currentLevel) + ids == PathIndices(sections, currentIdx)
      decreases i + 1
    {
      var heading := sections[i].heading;
      var level := sections[i].level;
      if level < currentLevel {
        ConcatAssoc(Ancestors(sections, i - 1, level), [i], ids);
        pathParts := [heading] + pathParts;
        ids := [i] + ids;
        currentLevel := level;
      }
      i := i - 1;
    }
    assert Ancestors(sections, i, currentLevel) == [];
    assert ids == PathIndices(sections, currentIdx);
    path := Join(pathParts, " > ");
  }

  /** Level of path position `m`, the level the scan started with standing
      after the last position. */
  function LevelAfter(sections: seq<Section>, r: seq<nat>, m: nat, level: int): int
    requires forall k :: 0 <= k < |r| ==> r[k] < |sections|
  {
    if m < |r| then sections[r[m]].level else level
  }

  predicate Increasing(r: seq<nat>) {
    forall k, l :: 0 <= k < l < |r| ==> r[k] < r[l]
  }

  /** Each entry's level is below that of the next entry, the last one's
      below `level`. */
  predicate LevelsBelowNext(sections: seq<Section>, r: seq<nat>, level: int)
    requires forall k :: 0 <= k < |r| ==> r[k] < |sections|
  {
    forall k :: 0 <= k < |r| ==> sections[r[k]].level < LevelAfter(sections, r, k + 1, level)
  }

  /** Every section strictly between two entries (or after the last entry,
      up to `i`) has a level at least the later entry's (or `level`). */
  predicate SkippedNotLower(sections: seq<Section>, r: seq<nat>, i: int, level: int)
    requires i < |sections|
    requires forall k :: 0 <= k < |r| ==> r[k] < |sections|
  {
    forall k, j :: 0 <= k < |r| && r[k] < j < (if k + 1 < |r| then r[k + 1] else i + 1) ==>
      sections[j].level >= LevelAfter(sections, r, k + 1, level)
  }

  predicate BelowLevel(sections: seq<Section>, r: seq<nat>, level: int)
    requires forall k :: 0 <= k < |r| ==> r[k] < |sections|
  {
    forall k :: 0 <= k < |r| ==> sections[r[k]].level < level
  }

  /** Every section before the first entry (or up to `i` when there is
      none) has a level at least the first entry's (or `level`). */
  predicate RootLowest(sections: seq<Section>, r: seq<nat>, i: int, level: int)
    requires i < |sections|
    requires forall k :: 0 <= k < |r| ==> r[k] < |sections|
  {
    forall j :: 0 <= j < (if r != [] then r[0] else i + 1) ==>
      sections[j].level >= LevelAfter(sections, r, 0, level)
  }

  /** The path indices taken by the scan increase. */
  lemma {:induction false} AncestorsIncrease(sections: seq<Section>, i: int, level: int)
    requires i < |sections|
    ensures Increasing(Ancestors(sections, i, level))
    decreases i + 1
  {
    if i >= 0 {
      var r := Ancestors(sections, i, level);
      if sections[i].level < level {
        var r' := Ancestors(sections, i - 1, sections[i].level);
        AncestorsIncrease(sections, i - 1, sections[i].level);
        assert r == r' + [i];
        assert Increasing(r');
      } else {
        AncestorsIncrease(sections, i - 1, level);
      }
    }
  }

  /** Each taken section's level is below that of the next path entry (or
      the starting level, after the last entry). */
  lemma {:induction false} AncestorsLevelBelowNext(sections: seq<Section>, i: int, level: int)
    requires i < |sections|
    ensures LevelsBelowNext(sections, Ancestors(sections, i, level), level)
    decreases i + 1
  {
    if i >= 0 {
      var anc := Ancestors(sections, i, level);
      if sections[i].level < level {
        var lv := sections[i].level;
        var anc' := Ancestors(sections, i - 1, lv);
        AncestorsLevelBelowNext(sections, i - 1, lv);
        assert anc == anc' + [i];
        forall k | 0 <= k < |anc|
          ensures sections[anc[k]].level < LevelAfter(sections, anc, k + 1, level)
        {
          if k < |anc'| {
            assert anc[k] == anc'[k];
            if k + 1 < |anc'| {
              assert anc[k + 1] == anc'[k + 1];
            }
            assert LevelAfter(sections, anc, k + 1, level) == LevelAfter(sections, anc', k + 1, lv);
          }
        }
      } else {
        var anc' := Ancestors(sections, i - 1, level);
        AncestorsLevelBelowNext(sections, i - 1, level);
        assert anc == anc';
      }
    }
  }

  /** Every section the scan skips between two path entries has a level at
      least the later entry's (or the starting level, after the last entry):
      each ancestor is the nearest earlier section of lower level. */
  lemma {:induction false} AncestorsSkipNotLower(sections: seq<Section>, i: int, level: int)
    requires i < |sections|
    ensures SkippedNotLower(sections, Ancestors(sections, i, level), i, level)
    decreases i + 1
  {
    if i >= 0 {
      if sections[i].level < level {
        AncestorsSkipNotLower(sections, i - 1, sections[i].level);
        TakenKeepsSkipped(sections, Ancestors(sections, i - 1, sections[i].level), i, level);
      } else {
        AncestorsSkipNotLower(sections, i - 1, level);
        SkippedKeepsSkipped(sections, Ancestors(sections, i - 1, level), i, level);
      }
    }
  }

  /** Taking section `i` as an ancestor keeps the skipped sections no lower. */
  lemma TakenKeepsSkipped(sections: seq<Section>, r: seq<nat>, i: nat, level: int)
    requires i < |sections| && sections[i].level < level
    requires forall k :: 0 <= k < |r| ==> r[k] <= i - 1
    requires SkippedNotLower(sections, r, i - 1, sections[i].level)
    ensures SkippedNotLower(sections, r + [i], i, level)
  {
    var r' := r + [i];
    forall k, j | 0 <= k < |r'| && r'[k] < j < (if k + 1 < |r'| then r'[k + 1] else i + 1)
      ensures sections[j].level >= LevelAfter(sections, r', k + 1, level)
    {
      assert k < |r| && r'[k] == r[k];
      if k + 1 < |r| {
        assert r'[k + 1] == r[k + 1];
      }
      assert LevelAfter(sections, r', k + 1, level) == LevelAfter(sections, r, k + 1, sections[i].level);
    }
  }

  /** Skipping section `i`, of level no lower than `level`, keeps the skipped
      sections no lower. */
  lemma SkippedKeepsSkipped(sections: seq<Section>, r: seq<nat>, i: nat, level: int)
    requires i < |sections| && sections[i].level >= level
    requires forall k :: 0 <= k < |r| ==> r[k] <= i - 1
    requires SkippedNotLower(sections, r, i - 1, level)
    ensures SkippedNotLower(sections, r, i, level)
  {
    forall k, j | 0 <= k < |r| && r[k] < j < (if k + 1 < |r| then r[k + 1] else i + 1)
      ensures sections[j].level >= LevelAfter(sections, r, k + 1, level)
    {
      if j == i {
        assert k + 1 == |r|;
      }
    }
  }

  /** Every taken section's level is below the starting level. */
  lemma {:induction false} AncestorsBelowStart(sections: seq<Section>, i: int, level: int)
    requires i < |sections|
    ensures BelowLevel(sections, Ancestors(sections, i, level), level)
    decreases i + 1
  {
    if i >= 0 {
      var anc := Ancestors(sections, i, level);
      if sections[i].level < level {
        var anc' := Ancestors(sections, i - 1, sections[i].level);
        AncestorsBelowStart(sections, i - 1, sections[i].level);
        assert anc == anc' + [i];
        assert forall k :: 0 <= k < |anc'| ==> anc[k] == anc'[k];
      } else {
        var anc' := Ancestors(sections, i - 1, level);
        AncestorsBelowStart(sections, i - 1, level);
        assert anc == anc';
      }
    }
  }

  /** Every section before the first path entry (or every section scanned,
      when nothing was taken) has a level at least the first entry's (or the
      starting level): the root is the first section of the lowest level. */
  lemma {:induction false} AncestorsRootLowest(sections: seq<Section>, i: int, level: int)
    requires i < |sections|
    ensures RootLowest(sections, Ancestors(sections, i, level), i, level)
    decreases i + 1
  {
    if i >= 0 {
      var anc := Ancestors(sections, i, level);
      if sections[i].level < level {
        var lv := sections[i].level;
        var anc' := Ancestors(sections, i - 1, lv);
        AncestorsRootLowest(sections, i - 1, lv);
        assert anc == anc' + [i];
        if anc' != [] {
          assert anc[0] == anc'[0];
        }
      } else {
        var anc' := Ancestors(sections, i - 1, level);
        AncestorsRootLowest(sections, i - 1, level);
        assert anc == anc';
      }
    }
  }

  /** The path ends with the current section, and levels strictly increase
      from the root to the current section. */
  lemma PathLevelsIncrease(sections: seq<Section>, idx: nat)
    requires idx < |sections|
    ensures var p := PathIndices(sections, idx);
      Last(p) == idx
      && Last(HeadingsAt(sections, p)) == sections[idx].heading
      && forall k :: 0 <= k < |p| - 1 ==> p[k] < p[k + 1] && sections[p[k]].level < sections[p[k + 1]].level
  {
    var level := sections[idx].level;
    var r := Ancestors(sections, idx - 1, level);
    AncestorsIncrease(sections, idx - 1, level);
    AncestorsLevelBelowNext(sections, idx - 1, level);
    var p := PathIndices(sections, idx);
    forall k | 0 <= k < |p| - 1
      ensures p[k] < p[k + 1] && sections[p[k]].level < sections[p[k + 1]].level
    {
      assert p[k] == r[k];
      assert sections[r[k]].level < LevelAfter(sections, r, k + 1, level);
      if k + 1 < |r| {
        assert p[k + 1] == r[k + 1];
      } else {
        assert p[k + 1] == idx;
      }
    }
  }

  /** When every section has a level of at least 1, as sections found at
      headings do, the path of a section is no longer than its level. */
  lemma PathNoLongerThanLevel(sections: seq<Section>, idx: nat)
    requires idx < |sections|
    requires forall i :: 0 <= i < |sections| ==> sections[i].level >= 1
    ensures |PathIndices(sections, idx)| <= sections[idx].level
  {
    var p := PathIndices(sections, idx);
    PathLevelsIncrease(sections, idx);
    for k := 0 to |p|
      invariant forall m :: 0 <= m < k ==> sections[p[m]].level >= m + 1
    {
      if k > 0 {
        assert sections[p[k - 1]].level < sections[p[k]].level;
      }
    }
  }

  // ---------------------------------------------------------------------
  // Page estimate (`_estimate_page`)
  // ---------------------------------------------------------------------

  /** Python's `int(a / b)` for a positive `b`: division truncated toward zero. */
  function TruncDiv(a: int, b: int): int
    requires b > 0
  {
    if a >= 0 then a / b else -((-a) / b)
  }

  /** `int((section_idx / total_sections) * total_pages) + 1`, capped at
      `total_pages`, and 1 when there are no sections. For a section of the
      document and at least one page the result is a page of the document. */
  function EstimatePage(sectionIdx: nat, totalSections: nat, totalPages: int): (page: int)
    ensures totalSections == 0 ==> page == 1
    ensures sectionIdx < totalSections && totalPages >= 1 ==> 1 <= page <= totalPages
  {
    if totalSections == 0 then 1
    else
      var page := TruncDiv(sectionIdx * totalPages, totalSections) + 1;
      if page < totalPages then page else totalPages
  }

  /** Later sections never get an earlier page. */
  lemma EstimatePageMonotone(i: nat, j: nat, totalSections: nat, totalPages: nat)
    requires i <= j
    ensures EstimatePage(i, totalSections, totalPages) <= EstimatePage(j, totalSections, totalPages)
  {
    if totalSections > 0 {
      assert i * totalPages <= j * totalPages;
      DivMonotone(i * totalPages, j * totalPages, totalSections);
    }
  }

  lemma DivMonotone(a: nat, b: nat, d: nat)
    requires a <= b && d > 0
    ensures a / d <= b / d
  {
    var qa := a / d;
    var qb := b / d;
    assert a == d * qa + a % d;
    assert b == d * qb + b % d;
    assert d * qa < d * (qb + 1);
    MulStrictCancel(d, qa, qb + 1);
  }

  lemma MulMonotone(d: nat, x: int, y: int)
    requires x <= y
    ensures d * x <= d * y
  {
    assert d * y - d * x == d * (y - x);
  }

  lemma MulStrictCancel(d: nat, x: int, y: int)
    requires d * x < d * y
    ensures x < y
  {
    if x >= y {
      MulMonotone(d, y, x);
    }
  }

  // ---------------------------------------------------------------------
  // Paragraph splitting (`_split_section`)
  // ---------------------------------------------------------------------

  /** Paragraph separator, and the suffix put after every paragraph. */
  const Sep: string := "\n\n"

  /** What every chunk of one section shares. */
  datatype ChunkOrigin = ChunkOrigin(docId: string, sectionPath: string, page: int, sectionIdx: nat)

  /** `f"{doc_id}_s{section_idx}_c{chunk_idx}"`. */
  function ChunkId(docId: string, sectionIdx: nat, chunkIdx: nat): string {
    docId + "_s" + NatToString(sectionIdx) + "_c" + NatToString(chunkIdx)
  }

  /** A chunk of the section `o`; without `chunkIdx` it is the whole-section chunk `c0`. */
  function MakeChunk(o: ChunkOrigin, text: string, tokens: int, chunkIdx: Option<nat>): DocumentChunk {
    var c := if chunkIdx.Some? then chunkIdx.value else 0;
    DocumentChunk(ChunkId(o.docId, o.sectionIdx, c), o.docId, text, o.page, o.sectionPath, tokens, o.sectionIdx, chunkIdx)
  }

  /** The "last paragraph" the source carries over into a new chunk. */
  function Overlap(text: string): string {
    if Contains(text, Sep) then Last(Split(text, Sep)) else ""
  }

  /** The running chunk text and token count, the next chunk index, and the
      chunks emitted so far. */
  datatype SplitState = SplitState(text: string, tokens: int, chunkIdx: nat, chunks: seq<DocumentChunk>)

  /** One paragraph of the splitting loop. */
  function ParaStep(c: SemanticChunker, o: ChunkOrigin, st: SplitState, para: string): SplitState {
    var paraTokens := c.count(para);
    if st.tokens + paraTokens <= c.chunkSize then
      SplitState(st.text + para + Sep, st.tokens + paraTokens, st.chunkIdx, st.chunks)
    else
      var emit := st.tokens >= c.minChunkSize;
      var chunks := if emit then st.chunks + [MakeChunk(o, Strip(st.text), st.tokens, Some(st.chunkIdx))] else st.chunks;
      var text := Overlap(st.text) + Sep + para + Sep;
      SplitState(text, c.count(text), if emit then st.chunkIdx + 1 else st.chunkIdx, chunks)
  }

  /** The loop state after the paragraphs `paras`. */
  function SplitFold(c: SemanticChunker, o: ChunkOrigin, paras: seq<string>): SplitState
    decreases |paras|
  {
    if paras == [] then SplitState("", 0, 0, [])
    else ParaStep(c, o, SplitFold(c, o, paras[..|paras| - 1]), Last(paras))
  }

  /** The last partial chunk, kept under the same minimum as the others. */
  function Flush(c: SemanticChunker, o: ChunkOrigin, st: SplitState): seq<DocumentChunk> {
    if st.tokens >= c.minChunkSize then [MakeChunk(o, Strip(st.text), st.tokens, Some(st.chunkIdx))] else []
  }

  /** What `_split_section` returns. */
  function SectionChunks(c: SemanticChunker, o: ChunkOrigin, content: string): seq<DocumentChunk> {
    var tokens := c.count(content);
    if tokens <= c.maxChunkSize then
      (if tokens >= c.minChunkSize then [MakeChunk(o, content, tokens, None)] else [])
    else
      var st := SplitFold(c, o, Split(content, Sep));
      st.chunks + Flush(c, o, st)
  }

  method SplitSection(c: SemanticChunker, content: string, docId: string, sectionPath: string, page: int, sectionIdx: nat)
    returns (chunks: seq<DocumentChunk>)
    ensures chunks == SectionChunks(c, ChunkOrigin(docId, sectionPath, page, sectionIdx), content)
  {
    ghost var o := ChunkOrigin(docId, sectionPath, page, sectionIdx);
    chunks := [];
    var tokenCount := c.count(content);
    if tokenCount <= c.maxChunkSize {
      if tokenCount >= c.minChunkSize {
        var chunkId := docId + "_s" + NatToString(sectionIdx) + "_c" + NatToString(0);
        chunks := chunks + [DocumentChunk(chunkId, docId, content, page, sectionPath, tokenCount, sectionIdx, None)];
      }
    } else {
      var paragraphs := Split(content, Sep);
      var currentText := "";
      var currentTokens := 0;
      var chunkIdx := 0;
      for i := 0 to |paragraphs|
        invariant SplitState(currentText, currentTokens, chunkIdx, chunks) == SplitFold(c, o, paragraphs[..i])
      {
        var para := paragraphs[i];
        var paraTokens := c.count(para);
        if currentTokens + paraTokens <= c.chunkSize {
          currentText := currentText + para + Sep;
          currentTokens := currentTokens + paraTokens;
        } else {
          if currentTokens >= c.minChunkSize {
            var chunkId := docId + "_s" + NatToString(sectionIdx) + "_c" + NatToString(chunkIdx);
            chunks := chunks + [DocumentChunk(chunkId, docId, Strip(currentText), page, sectionPath, currentTokens, sectionIdx, Some(chunkIdx))];
            chunkIdx := chunkIdx + 1;
          }
          var overlapText := if Contains(currentText, Sep) then Last(Split(currentText, Sep)) else "";
          currentText := overlapText + Sep + para + Sep;
          currentTokens := c.count(currentText);
        }
        assert paragraphs[..i + 1][..i] == paragraphs[..i];
      }
      assert paragraphs[..|paragraphs|] == paragraphs;
      if currentTokens >= c.minChunkSize {
        var chunkId := docId + "_s" + NatToString(sectionIdx) + "_c" + NatToString(chunkIdx);
        chunks := chunks + [DocumentChunk(chunkId, docId, Strip(currentText), page, sectionPath, currentTokens, sectionIdx, Some(chunkIdx))];
      }
    }
  }

  /** A paragraph that can be followed by `Sep` without the split moving:
      it holds no `Sep` and does not end with a newline. */
  predicate CleanPiece(p: string) {
    !Contains(p, Sep) && (p == [] || Last(p) != '\n')
  }

  /** The text is empty or ends exactly at a paragraph boundary, so that
      splitting it at `Sep` leaves an empty last piece. */
  predicate EndsAtBoundary(text: string) {
    text == "" || Last(Split(text, Sep)) == ""
  }

  lemma OverlapAtBoundary(text: string)
    requires EndsAtBoundary(text)
    ensures Overlap(text) == ""
  {
    if text == "" {
      assert !StartsWith(text, Sep);
    }
  }

  lemma AppendCleanPiece(text: string, p: string)
    requires EndsAtBoundary(text) && CleanPiece(p)
    ensures EndsAtBoundary(text + p + Sep)
  {
    SplitCleanPiece(p, "", Sep);
    assert p + Sep + "" == p + Sep;
    assert Split("", Sep) == [""];
    if text == "" {
      assert text + p + Sep == p + Sep;
    } else {
      SplitAfterBoundary(text, p + Sep, Sep);
      ConcatAssoc(text, p, Sep);
    }
  }

  /** Every paragraph but the last one of a split is clean. */
  lemma InnerParagraphClean(content: string, i: nat)
    requires i < |Split(content, Sep)| - 1
    ensures CleanPiece(Split(content, Sep)[i])
  {
    SplitPiecesFree(content, Sep);
    SplitPiecesNoTrailing(content, Sep);
  }

  /** Over clean paragraphs the running text always ends at a paragraph
      boundary. */
  lemma {:induction false} FoldEndsAtBoundary(c: SemanticChunker, o: ChunkOrigin, paras: seq<string>)
    requires forall k :: 0 <= k < |paras| ==> CleanPiece(paras[k])
    ensures EndsAtBoundary(SplitFold(c, o, paras).text)
    decreases |paras|
  {
    if paras != [] {
      var front := paras[..|paras| - 1];
      var p := Last(paras);
      assert forall k :: 0 <= k < |front| ==> front[k] == paras[k];
      FoldEndsAtBoundary(c, o, front);
      var st := SplitFold(c, o, front);
      if st.tokens + c.count(p) <= c.chunkSize {
        AppendCleanPiece(st.text, p);
      } else {
        OverlapAtBoundary(st.text);
        AppendCleanPiece("", "");
        assert "" + "" + Sep == Sep;
        AppendCleanPiece(Sep, p);
        assert Overlap(st.text) + Sep + p + Sep == Sep + p + Sep;
      }
    }
  }

  /** The carried-over "last paragraph" is always empty: whenever the loop
      computes it, the running text ends with `Sep`. */
  lemma OverlapAlwaysEmpty(c: SemanticChunker, o: ChunkOrigin, content: string, i: nat)
    requires i < |Split(content, Sep)|
    ensures Overlap(SplitFold(c, o, Split(content, Sep)[..i]).text) == ""
  {
    var paras := Split(content, Sep);
    forall k | 0 <= k < i
      ensures CleanPiece(paras[..i][k])
    {
      InnerParagraphClean(content, k);
    }
    FoldEndsAtBoundary(c, o, paras[..i]);
    OverlapAtBoundary(SplitFold(c, o, paras[..i]).text);
  }

  /** A paragraph that does not fit starts a new running text holding just
      that paragraph between separators, and its count is recomputed. */
  lemma RestartText(c: SemanticChunker, o: ChunkOrigin, content: string, i: nat)
    requires i < |Split(content, Sep)|
    requires SplitFold(c, o, Split(content, Sep)[..i]).tokens + c.count(Split(content, Sep)[i]) > c.chunkSize
    ensures SplitFold(c, o, Split(content, Sep)[..i + 1]).text == Sep + Split(content, Sep)[i] + Sep
    ensures SplitFold(c, o, Split(content, Sep)[..i + 1]).tokens == c.count(Sep + Split(content, Sep)[i] + Sep)
  {
    var paras := Split(content, Sep);
    OverlapAlwaysEmpty(c, o, content, i);
    assert paras[..i + 1][..i] == paras[..i];
    assert Last(paras[..i + 1]) == paras[i];
    assert "" + Sep + paras[i] + Sep == Sep + paras[i] + Sep;
  }

  /** The chunk belongs to the section `o`. */
  predicate FromOrigin(o: ChunkOrigin, ch: DocumentChunk) {
    ch.docId == o.docId && ch.page == o.page && ch.sectionPath == o.sectionPath && ch.sectionIdx == o.sectionIdx
  }

  /** Chunk k of the section is `c{k}`, carries `chunk_idx` k and has at
      least the minimum size. */
  predicate Numbered(c: SemanticChunker, o: ChunkOrigin, chunks: seq<DocumentChunk>) {
    forall k :: 0 <= k < |chunks| ==>
      chunks[k].chunkId == ChunkId(o.docId, o.sectionIdx, k) && chunks[k].chunkIdx == Some(k)
      && chunks[k].tokenCount >= c.minChunkSize && FromOrigin(o, chunks[k])
  }

  /** `chunk_idx` counts exactly the chunks emitted so far. */
  lemma {:induction false} FoldNumbered(c: SemanticChunker, o: ChunkOrigin, paras: seq<string>)
    ensures |SplitFold(c, o, paras).chunks| == SplitFold(c, o, paras).chunkIdx
    ensures Numbered(c, o, SplitFold(c, o, paras).chunks)
    decreases |paras|
  {
    if paras != [] {
      var front := paras[..|paras| - 1];
      FoldNumbered(c, o, front);
      var st := SplitFold(c, o, front);
      var st' := SplitFold(c, o, paras);
      if st.tokens + c.count(Last(paras)) > c.chunkSize && st.tokens >= c.minChunkSize {
        var ch := MakeChunk(o, Strip(st.text), st.tokens, Some(st.chunkIdx));
        assert st'.chunks == st.chunks + [ch];
        forall k | 0 <= k < |st'.chunks|
          ensures st'.chunks[k].chunkId == ChunkId(o.docId, o.sectionIdx, k) && st'.chunks[k].chunkIdx == Some(k)
            && st'.chunks[k].tokenCount >= c.minChunkSize && FromOrigin(o, st'.chunks[k])
        {
          if k < |st.chunks| {
            assert st'.chunks[k] == st.chunks[k];
          }
        }
      }
    }
  }

  /** Every chunk of a section belongs to it, has at least the minimum
      token count (at all three places chunks are emitted), and chunk k has
      the id `{doc}_s{section}_c{k}`: the ids are contiguous from `c0`. */
  lemma SectionChunksNumbered(c: SemanticChunker, o: ChunkOrigin, content: string)
    ensures forall k :: 0 <= k < |SectionChunks(c, o, content)| ==>
      FromOrigin(o, SectionChunks(c, o, content)[k])
      && SectionChunks(c, o, content)[k].tokenCount >= c.minChunkSize
      && SectionChunks(c, o, content)[k].chunkId == ChunkId(o.docId, o.sectionIdx, k)
    ensures c.count(content) > c.maxChunkSize ==>
      forall k :: 0 <= k < |SectionChunks(c, o, content)| ==> SectionChunks(c, o, content)[k].chunkIdx == Some(k)
  {
    if c.count(content) > c.maxChunkSize {
      var st := SplitFold(c, o, Split(content, Sep));
      FoldNumbered(c, o, Split(content, Sep));
      var all := st.chunks + Flush(c, o, st);
      assert SectionChunks(c, o, content) == all;
      assert Numbered(c, o, all);
    }
  }

  /** A section within the maximum is one chunk `c0` holding the whole
      unstripped content and its count, kept only at the minimum size. */
  lemma SectionFitsOneChunk(c: SemanticChunker, o: ChunkOrigin, content: string)
    requires c.count(content) <= c.maxChunkSize
    ensures |SectionChunks(c, o, content)| == (if c.count(content) >= c.minChunkSize then 1 else 0)
    ensures forall k :: 0 <= k < |SectionChunks(c, o, content)| ==>
      SectionChunks(c, o, content)[k].text == content
      && SectionChunks(c, o, content)[k].tokenCount == c.count(content)
      && SectionChunks(c, o, content)[k].chunkId == ChunkId(o.docId, o.sectionIdx, 0)
      && SectionChunks(c, o, content)[k].chunkIdx == None
  {
  }

  /** No upper bound holds for split chunks: with the default limits and a
      tokenizer counting 2000 tokens for any text, the one-paragraph
      content "x" is split and becomes a single chunk of 2000 tokens, twice
      the maximum. */
  lemma OversizedParagraphKept(o: ChunkOrigin)
    ensures |SectionChunks(DefaultChunker(s => 2000), o, "x")| == 1
    ensures SectionChunks(DefaultChunker(s => 2000), o, "x")[0].tokenCount
      > DefaultChunker(s => 2000).maxChunkSize
  {
    var c := DefaultChunker(s => 2000);
    assert !StartsWith("x", Sep);
    assert "x"[1..] == "";
    assert !StartsWith("", Sep);
    var t := Split("x"[1..], Sep);
    assert t == [""];
    assert ["x"[0]] + t[0] == "x";
    assert Split("x", Sep) == ["x"];
    var st := SplitFold(c, o, ["x"]);
    assert ["x"][..0] == [];
    assert st.tokens == 2000;
  }

  // ---------------------------------------------------------------------
  // Whole document (`chunk`)
  // ---------------------------------------------------------------------

  /** Path, estimated page and index shared by the chunks of section `i`. */
  function OriginOf(docId: string, totalPages: int, sections: seq<Section>, i: nat): ChunkOrigin
    requires i < |sections|
  {
    ChunkOrigin(docId, SectionPathOf(sections, i), EstimatePage(i, |sections|, totalPages), i)
  }

  /** The chunks of the first `n` sections, in section order. */
  function ChunksUpTo(c: SemanticChunker, docId: string, totalPages: int, sections: seq<Section>, n: nat): seq<DocumentChunk>
    requires n <= |sections|
  {
    if n == 0 then []
    else
      ChunksUpTo(c, docId, totalPages, sections, n - 1)
      + SectionChunks(c, OriginOf(docId, totalPages, sections, n - 1), sections[n - 1].content)
  }

  /** What `chunk` returns. */
  function DocumentChunks(c: SemanticChunker, doc: ParsedDocument): seq<DocumentChunk> {
    var sections := SectionsOf(doc.markdownContent);
    ChunksUpTo(c, doc.docId, doc.totalPages, sections, |sections|)
  }

  method Chunk(c: SemanticChunker, parsedDoc: ParsedDocument) returns (chunks: seq<DocumentChunk>)
    ensures chunks == DocumentChunks(c, parsedDoc)
  {
    var sections := SplitByHeadings(parsedDoc.markdownContent);
    chunks := [];
    for sectionIdx := 0 to |sections|
      invariant chunks == ChunksUpTo(c, parsedDoc.docId, parsedDoc.totalPages, sections, sectionIdx)
    {
      var sectionPath := BuildSectionPath(sections, sectionIdx);
      var page := EstimatePage(sectionIdx, |sections|, parsedDoc.totalPages);
      var sectionChunks := SplitSection(c, sections[sectionIdx].content, parsedDoc.docId, sectionPath, page, sectionIdx);
      chunks := chunks + sectionChunks;
    }
  }

  /** The chunk comes from a section of the document: it carries that
      section's path and estimated page, the document id, and at least the
      minimum token count. */
  predicate ChunkOfSection(c: SemanticChunker, docId: string, totalPages: int, sections: seq<Section>, ch: DocumentChunk) {
    ch.sectionIdx < |sections|
    && ch.docId == docId
    && ch.sectionPath == SectionPathOf(sections, ch.sectionIdx)
    && ch.page == EstimatePage(ch.sectionIdx, |sections|, totalPages)
    && ch.tokenCount >= c.minChunkSize
  }

  /** The chunks a section contributes come from that section. */
  lemma SectionChunksOfSection(c: SemanticChunker, docId: string, totalPages: int, sections: seq<Section>, i: nat)
    requires i < |sections|
    ensures forall k :: 0 <= k < |SectionChunks(c, OriginOf(docId, totalPages, sections, i), sections[i].content)| ==>
      ChunkOfSection(c, docId, totalPages, sections, SectionChunks(c, OriginOf(docId, totalPages, sections, i), sections[i].content)[k])
      && SectionChunks(c, OriginOf(docId, totalPages, sections, i), sections[i].content)[k].sectionIdx == i
  {
    SectionChunksNumbered(c, OriginOf(docId, totalPages, sections, i), sections[i].content);
  }

  /** Chunks of sections before `i` followed by chunks of section `i` stay
      in section order and come from sections up to `i`. */
  lemma AppendSectionRun(c: SemanticChunker, docId: string, totalPages: int, sections: seq<Section>,
                         before: seq<DocumentChunk>, added: seq<DocumentChunk>, i: nat)
    requires forall k :: 0 <= k < |before| ==> ChunkOfSection(c, docId, totalPages, sections, before[k]) && before[k].sectionIdx < i
    requires forall k, l :: 0 <= k < l < |before| ==> before[k].sectionIdx <= before[l].sectionIdx
    requires forall k :: 0 <= k < |added| ==> ChunkOfSection(c, docId, totalPages, sections, added[k]) && added[k].sectionIdx == i
    ensures forall k :: 0 <= k < |before + added| ==>
      ChunkOfSection(c, docId, totalPages, sections, (before + added)[k]) && (before + added)[k].sectionIdx < i + 1
    ensures forall k, l :: 0 <= k < l < |before + added| ==> (before + added)[k].sectionIdx <= (before + added)[l].sectionIdx
  {
    var all := before + added;
    forall k | 0 <= k < |all|
      ensures ChunkOfSection(c, docId, totalPages, sections, all[k]) && all[k].sectionIdx < i + 1
    {
      if k >= |before| {
        assert all[k] == added[k - |before|];
      }
    }
    forall k, l | 0 <= k < l < |all|
      ensures all[k].sectionIdx <= all[l].sectionIdx
    {
      if l >= |before| {
        assert all[l] == added[l - |before|];
        assert all[k].sectionIdx < i + 1;
      }
    }
  }

  lemma {:induction false} ChunksUpToFromSections(c: SemanticChunker, docId: string, totalPages: int, sections: seq<Section>, n: nat)
    requires n <= |sections|
    ensures forall k :: 0 <= k < |ChunksUpTo(c, docId, totalPages, sections, n)| ==>
      ChunkOfSection(c, docId, totalPages, sections, ChunksUpTo(c, docId, totalPages, sections, n)[k])
      && ChunksUpTo(c, docId, totalPages, sections, n)[k].sectionIdx < n
    ensures forall k, l :: 0 <= k < l < |ChunksUpTo(c, docId, totalPages, sections, n)| ==>
      ChunksUpTo(c, docId, totalPages, sections, n)[k].sectionIdx <= ChunksUpTo(c, docId, totalPages, sections, n)[l].sectionIdx
  {
    if n > 0 {
      ChunksUpToFromSections(c, docId, totalPages, sections, n - 1);
      SectionChunksOfSection(c, docId, totalPages, sections, n - 1);
      AppendSectionRun(c, docId, totalPages, sections, ChunksUpTo(c, docId, totalPages, sections, n - 1),
        SectionChunks(c, OriginOf(docId, totalPages, sections, n - 1), sections[n - 1].content), n - 1);
    }
  }

  /** Every chunk of a document comes from one of its sections, with that
      section's path, at least the minimum token count, and an estimated
      page within the document when it has pages; chunks follow section
      order. */
  lemma DocumentChunksProperties(c: SemanticChunker, doc: ParsedDocument)
    ensures forall k :: 0 <= k < |DocumentChunks(c, doc)| ==>
      ChunkOfSection(c, doc.docId, doc.totalPages, SectionsOf(doc.markdownContent), DocumentChunks(c, doc)[k])
    ensures doc.totalPages >= 1 ==> forall k :: 0 <= k < |DocumentChunks(c, doc)| ==>
      1 <= DocumentChunks(c, doc)[k].page <= doc.totalPages
    ensures forall k, l :: 0 <= k < l < |DocumentChunks(c, doc)| ==>
      DocumentChunks(c, doc)[k].sectionIdx <= DocumentChunks(c, doc)[l].sectionIdx
  {
    var sections := SectionsOf(doc.markdownContent);
    ChunksUpToFromSections(c, doc.docId, doc.totalPages, sections, |sections|);
  }
}
