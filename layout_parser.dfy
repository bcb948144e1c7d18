/** The layout parser (`LayoutParser` in ingestion/processing/layout_parser.py):
    text blocks from the page's text dictionary, headings from the page's
    markdown rendering, and the assembly of the parsed document. The PDF
    library's outputs (the text dictionary and the markdown of each page)
    are inputs here. */
module LayoutParser {
  import opened Text
  import opened Models
  import opened Lists
  import Chunking
  import ImageExtractor

  // ---------------------------------------------------------------------
  // Text blocks (`_extract_text_blocks`)
  // ---------------------------------------------------------------------

  /** A span of the text dictionary; its "text" key may be missing. */
  datatype RawSpan = RawSpan(text: Option<string>)

  /** A line of the text dictionary; its "spans" key may be missing. */
  datatype RawLine = RawLine(spans: Option<seq<RawSpan>>)

  /** A block of the text dictionary: image blocks have no "lines" key. */
  datatype RawBlock = RawBlock(lines: Option<seq<RawLine>>, bbox: BBox)

  /** Words whose presence in the lower-cased text makes a block a caption. */
  const CaptionWords: seq<string> := ["figure", "fig", "image", "diagram"]

  /** The bullet prefix as the source spells it: the three characters a UTF-8
      bullet becomes when read as Windows-1252. */
  const Bullet: string := "\U{e2}\U{20ac}\U{a2}"

  /** `span.get("text", "")`. */
  function SpanText(span: RawSpan): string {
    if span.text.Some? then span.text.value else ""
  }

  /** The texts of the spans of one line, in order. */
  function LineTexts(line: RawLine): (r: seq<string>)
    ensures line.spans.None? ==> r == []
    ensures line.spans.Some? ==> |r| == |line.spans.value|
    ensures line.spans.Some? ==> forall j :: 0 <= j < |r| ==> r[j] == SpanText(line.spans.value[j])
  {
    var spans := if line.spans.Some? then line.spans.value else [];
    seq(|spans|, j requires 0 <= j < |spans| => SpanText(spans[j]))
  }

  /** `text_parts` after the loops over lines and spans. */
  function PartsOf(lines: seq<RawLine>): seq<string>
    decreases |lines|
  {
    if lines == [] then [] else PartsOf(lines[..|lines| - 1]) + LineTexts(Last(lines))
  }

  /** One more line adds the texts of its spans. */
  lemma PartsStep(lines: seq<RawLine>, j: nat)
    requires j < |lines|
    ensures PartsOf(lines[..j + 1]) == PartsOf(lines[..j]) + LineTexts(lines[j])
  {
    assert lines[..j + 1][..j] == lines[..j];
    assert Last(lines[..j + 1]) == lines[j];
  }

  /** The block type the keyword and prefix tests give a (stripped) text. */
  function Classify(text: string): BlockType {
    if ContainsAny(Lower(text), CaptionWords) then Caption
    else if StartsWith(text, "-") || StartsWith(text, Bullet) then ListItem
    else Paragraph
  }

  /** The text block one raw block yields, if any. */
  function BlockOf(b: RawBlock, page: int): Option<TextBlock> {
    if b.lines.None? then None
    else
      var text := Strip(Join(PartsOf(b.lines.value), " "));
      if text == "" then None else Some(TextBlock(text, b.bbox, page, Classify(text)))
  }

  /** `BlockOf` for page `page`, as a function value. */
  function BlockFn(page: int): RawBlock -> Option<TextBlock> {
    b => BlockOf(b, page)
  }

  /** What `_extract_text_blocks` returns: the text blocks the raw blocks
      yield, in order. */
  function TextBlocksOf(blocks: seq<RawBlock>, page: int): seq<TextBlock> {
    Kept(BlockFn(page), blocks)
  }

  /** The loops over a block's lines and their spans, collecting
      `text_parts`. */
  method CollectParts(lines: seq<RawLine>) returns (textParts: seq<string>)
    ensures textParts == PartsOf(lines)
  {
    textParts := [];
    for j := 0 to |lines|
      invariant textParts == PartsOf(lines[..j])
    {
      PartsStep(lines, j);
      var spans := if lines[j].spans.Some? then lines[j].spans.value else [];
      for m := 0 to |spans|
        invariant textParts == PartsOf(lines[..j]) + LineTexts(lines[j])[..m]
      {
        assert LineTexts(lines[j])[..m + 1] == LineTexts(lines[j])[..m] + [SpanText(spans[m])];
        textParts := textParts + [SpanText(spans[m])];
      }
      assert LineTexts(lines[j])[..|spans|] == LineTexts(lines[j]);
    }
    assert lines[..|lines|] == lines;
  }

  method ExtractTextBlocks(rawBlocks: seq<RawBlock>, pageNumber: int) returns (blocks: seq<TextBlock>)
    ensures blocks == TextBlocksOf(rawBlocks, pageNumber)
  {
    blocks := [];
    for i := 0 to |rawBlocks|
      invariant blocks == TextBlocksOf(rawBlocks[..i], pageNumber)
    {
      KeptStep(BlockFn(pageNumber), rawBlocks, i);
      var block := rawBlocks[i];
      if block.lines.None? {
        continue;
      }
      var textParts := CollectParts(block.lines.value);
      var text := Strip(Join(textParts, " "));
      if text == "" {
        continue;
      }
      var blockType := Paragraph;
      var textLower := Lower(text);
      if ContainsAny(textLower, CaptionWords) {
        blockType := Caption;
      } else if StartsWith(text, "-") || StartsWith(text, Bullet) {
        blockType := ListItem;
      }
      blocks := blocks + [TextBlock(text, block.bbox, pageNumber, blockType)];
    }
    assert rawBlocks[..|rawBlocks|] == rawBlocks;
  }

  /** Positions of the raw blocks that yield a text block, in order. */
  function BlockSources(blocks: seq<RawBlock>, page: int): seq<nat> {
    Sources(BlockFn(page), blocks)
  }

  /** The output is the yielded blocks in input order: output block k comes
      from the k-th yielding raw block, and every yielding raw block is
      used. */
  lemma TextBlocksInOrder(blocks: seq<RawBlock>, page: int)
    ensures |TextBlocksOf(blocks, page)| == |BlockSources(blocks, page)|
    ensures forall k :: 0 <= k < |BlockSources(blocks, page)| ==>
      BlockOf(blocks[BlockSources(blocks, page)[k]], page) == Some(TextBlocksOf(blocks, page)[k])
    ensures forall i :: 0 <= i < |blocks| && BlockOf(blocks[i], page).Some? ==> i in BlockSources(blocks, page)
  {
    KeptInOrder(BlockFn(page), blocks);
  }

  /** A block yielded by a raw block has a non-empty text without
      surrounding whitespace, the type its text classifies as, and the
      given page number. */
  lemma BlockOfShape(b: RawBlock, page: int)
    requires BlockOf(b, page).Some?
    ensures BlockOf(b, page).value.text != "" && NoOuterSpace(BlockOf(b, page).value.text)
    ensures BlockOf(b, page).value.blockType == Classify(BlockOf(b, page).value.text)
    ensures BlockOf(b, page).value.pageNumber == page
  {
    StripNoOuterSpace(Join(PartsOf(b.lines.value), " "));
  }

  /** Every extracted block has a non-empty text without surrounding
      whitespace, the type its text classifies as, and the page number it
      was extracted for; blocks without lines never yield one. */
  lemma TextBlocksShape(blocks: seq<RawBlock>, page: int)
    ensures forall k :: 0 <= k < |TextBlocksOf(blocks, page)| ==>
      TextBlocksOf(blocks, page)[k].text != ""
      && NoOuterSpace(TextBlocksOf(blocks, page)[k].text)
      && TextBlocksOf(blocks, page)[k].blockType == Classify(TextBlocksOf(blocks, page)[k].text)
      && TextBlocksOf(blocks, page)[k].pageNumber == page
    ensures forall i :: 0 <= i < |blocks| && blocks[i].lines.None? ==> i !in BlockSources(blocks, page)
  {
    TextBlocksInOrder(blocks, page);
    var out, src := TextBlocksOf(blocks, page), BlockSources(blocks, page);
    forall k | 0 <= k < |out|
      ensures out[k].text != "" && NoOuterSpace(out[k].text)
        && out[k].blockType == Classify(out[k].text) && out[k].pageNumber == page
    {
      BlockOfShape(blocks[src[k]], page);
    }
    forall i, k | 0 <= i < |blocks| && blocks[i].lines.None? && 0 <= k < |src|
      ensures src[k] != i
    {
      assert BlockOf(blocks[src[k]], page).Some? && BlockOf(blocks[i], page).None?;
    }
  }

  /** A block the layout parser types as a caption also looks like a caption
      to the image-text fusion rule, whose keyword list is a superset. */
  lemma CaptionLooksLikeCaption(text: string)
    requires NoOuterSpace(text) && Classify(text) == Caption
    ensures ImageExtractor.LooksLikeCaption(text)
  {
    LowerNoOuterSpace(text);
    StripKeeps(Lower(text));
    var k :| 0 <= k < |CaptionWords| && Contains(Lower(text), CaptionWords[k]);
    assert ImageExtractor.CaptionKeywords[k] == CaptionWords[k];
  }

  /** The converse fails: "Scheme 1" is a caption to the fusion rule but a
      paragraph to the layout parser. */
  lemma SchemeIsNotCaptionBlock()
    ensures ImageExtractor.LooksLikeCaption("Scheme 1")
    ensures Classify("Scheme 1") == Paragraph
  {
    var lower := Lower("Scheme 1");
    assert lower == "scheme 1";
    assert StartsWith(lower, "scheme");
    StripKeeps(lower);
    assert Contains(lower, ImageExtractor.CaptionKeywords[4]);
    NotContains(lower);
  }

  /** None of the layout parser's caption words occurs in "scheme 1". */
  lemma NotContains(lower: string)
    requires lower == "scheme 1"
    ensures !ContainsAny(lower, CaptionWords)
  {
    forall k | 0 <= k < |CaptionWords| ensures !Contains(lower, CaptionWords[k]) {
      NoLetterNoContains(lower, CaptionWords[k], 'i');
    }
  }

  /** A text without the letter `c` contains no word that has it. */
  lemma {:induction false} NoLetterNoContains(s: string, w: string, c: char)
    requires c in w && c !in s
    ensures !Contains(s, w)
    decreases |s|
  {
    if s != [] {
      NoLetterNoContains(s[1..], w, c);
    } else {
      assert !StartsWith(s, w);
    }
  }

  // ---------------------------------------------------------------------
  // Headings (`_extract_headings`)
  // ---------------------------------------------------------------------

  /** The estimated box of the k-th heading of a page. */
  function HeadingBox(k: nat): BBox {
    BBox(0.0, 50.0 * k as real, 1000.0, 50.0 * k as real + 30.0)
  }

  /** The heading text and level one markdown line yields, if any: the
      stripped line must start with '#', and after the run of '#' there
      must be text, with at most six '#'. */
  function HeadingLine(line: string): Option<(string, nat)> {
    var l := Strip(line);
    if l == "" || !StartsWith(l, "#") then None
    else
      var level := HashRun(l);
      var text := Strip(l[level..]);
      if text != "" && level <= 6 then Some((text, level)) else None
  }

  /** What `_extract_headings` returns for the lines of the page's markdown. */
  function HeadingsOf(lines: seq<string>, page: int): seq<Heading>
    decreases |lines|
  {
    if lines == [] then []
    else
      var found := HeadingsOf(lines[..|lines| - 1], page);
      var h := HeadingLine(Last(lines));
      if h.Some? then found + [Heading(h.value.0, h.value.1, HeadingBox(|found|), page)] else found
  }

  /** One more line adds at most the heading it yields. */
  lemma HeadingsStep(lines: seq<string>, i: nat, page: int)
    requires i < |lines|
    ensures HeadingsOf(lines[..i + 1], page)
      == if HeadingLine(lines[i]).Some?
         then HeadingsOf(lines[..i], page)
           + [Heading(HeadingLine(lines[i]).value.0, HeadingLine(lines[i]).value.1,
                      HeadingBox(|HeadingsOf(lines[..i], page)|), page)]
         else HeadingsOf(lines[..i], page)
  {
    assert lines[..i + 1][..i] == lines[..i];
    assert Last(lines[..i + 1]) == lines[i];
  }

  method ExtractHeadings(markdown: string, pageNumber: int) returns (headings: seq<Heading>)
    ensures headings == HeadingsOf(Split(markdown, "\n"), pageNumber)
  {
    headings := [];
    var lines := Split(markdown, "\n");
    var currentLevel := 0;
    for i := 0 to |lines|
      invariant headings == HeadingsOf(lines[..i], pageNumber)
      invariant currentLevel == |headings|
    {
      HeadingsStep(lines, i, pageNumber);
      var line := Strip(lines[i]);
      if line == "" {
        continue;
      }
      if StartsWith(line, "#") {
        var level := HashRun(line);
        var headingText := Strip(line[level..]);
        if headingText != "" && level <= 6 {
          var bbox := HeadingBox(currentLevel);
          headings := headings + [Heading(headingText, level, bbox, pageNumber)];
          currentLevel := currentLevel + 1;
        }
      }
    }
    assert lines[..|lines|] == lines;
  }

  /** Positions of the lines that yield a heading, in order. */
  function HeadingSources(lines: seq<string>): seq<nat> {
    Sources(HeadingLine, lines)
  }

  /** Heading k is built from the k-th (text, level) the lines yield, with
      the box of position k. */
  lemma {:induction false} HeadingsAsKept(lines: seq<string>, page: int)
    ensures |HeadingsOf(lines, page)| == |Kept(HeadingLine, lines)|
    ensures forall k :: 0 <= k < |HeadingsOf(lines, page)| ==>
      HeadingsOf(lines, page)[k]
        == Heading(Kept(HeadingLine, lines)[k].0, Kept(HeadingLine, lines)[k].1, HeadingBox(k), page)
    decreases |lines|
  {
    if lines != [] {
      var n := |lines| - 1;
      HeadingsAsKept(lines[..n], page);
      var all, found := HeadingsOf(lines, page), HeadingsOf(lines[..n], page);
      var kept, keptF := Kept(HeadingLine, lines), Kept(HeadingLine, lines[..n]);
      var h := HeadingLine(lines[n]);
      assert kept == keptF + (if h.Some? then [h.value] else []);
      if h.Some? {
        assert all == found + [Heading(h.value.0, h.value.1, HeadingBox(|found|), page)];
        forall k | 0 <= k < |all|
          ensures all[k] == Heading(kept[k].0, kept[k].1, HeadingBox(k), page)
        {
          if k < |found| {
            assert all[k] == found[k] && kept[k] == keptF[k];
          }
        }
      }
    }
  }

  /** Headings keep line order: there is one heading per yielding line,
      heading k has the text and level of the k-th yielding line, and every
      yielding line is used. */
  lemma HeadingsInOrder(lines: seq<string>, page: int)
    ensures |HeadingsOf(lines, page)| == |HeadingSources(lines)|
    ensures forall k :: 0 <= k < |HeadingSources(lines)| ==>
      HeadingLine(lines[HeadingSources(lines)[k]])
        == Some((HeadingsOf(lines, page)[k].text, HeadingsOf(lines, page)[k].level))
    ensures forall i :: 0 <= i < |lines| && HeadingLine(lines[i]).Some? ==> i in HeadingSources(lines)
  {
    HeadingsAsKept(lines, page);
    KeptInOrder(HeadingLine, lines);
  }

  /** Heading k of a page has the box of position k and the page's number:
      the estimated boxes go down the page in steps of 50. */
  lemma HeadingsPlaced(lines: seq<string>, page: int)
    ensures forall k :: 0 <= k < |HeadingsOf(lines, page)| ==>
      HeadingsOf(lines, page)[k].bbox == HeadingBox(k) && HeadingsOf(lines, page)[k].pageNumber == page
  {
    HeadingsAsKept(lines, page);
  }

  /** A yielded heading has a level from 1 to 6 and a non-empty text
      without surrounding whitespace. */
  lemma HeadingLineShape(line: string)
    requires HeadingLine(line).Some?
    ensures 1 <= HeadingLine(line).value.1 <= 6
    ensures HeadingLine(line).value.0 != "" && NoOuterSpace(HeadingLine(line).value.0)
  {
    var l := Strip(line);
    StripNoOuterSpace(l[HashRun(l)..]);
  }

  /** Every line the chunker takes for a heading with a non-blank title
      yields the same level and title here. */
  lemma ChunkerHeadingAccepted(line: string)
    requires Chunking.IsHeadingLine(line) && Strip(line[HashRun(line)..]) != ""
    ensures HeadingLine(line) == Some((Strip(line[HashRun(line)..]), HashRun(line)))
  {
    var n := HashRun(line);
    var e := StripThenSuffix(line, n);
    HashRunPrefix(line, e);
    assert line[..e][..1] == "#";
  }

  /** The two parsers differ on a blank title: the chunker takes "#  " for a heading
      with the empty title, the layout parser drops the line. */
  lemma BlankTitleOnlyChunker()
    ensures Chunking.IsHeadingLine("#  ") && Strip("#  "[HashRun("#  ")..]) == ""
    ensures HeadingLine("#  ") == None
  {
    var line := "#  ";
    assert HashRun(line[1..]) == 0;
    assert HashRun(line) == 1;
    assert line[1..] == "  ";
    LStripAt("  ", 2);
    assert "  "[2..] == [];
    LStripAt(line, 0);
    RStripAt(line, 1);
    assert line[..1] == "#";
    assert Strip(line) == "#";
    assert HashRun("#") == 1 && "#"[1..] == [];
  }

  /** The converse fails: "#Title" has no space after the '#', so the
      chunker does not take it for a heading, while the layout parser reads
      a level-1 heading "Title". */
  lemma HashWithoutSpaceIsHeading(page: int)
    ensures HeadingsOf(["#Title"], page) == [Heading("Title", 1, HeadingBox(0), page)]
    ensures !Chunking.IsHeadingLine("#Title")
  {
    var line := "#Title";
    StripKeeps(line);
    assert HashRun(line[1..]) == 0;
    assert HashRun(line) == 1;
    assert line[1..] == "Title";
    StripKeeps("Title");
    assert ["#Title"][..0] == [];
  }

  // ---------------------------------------------------------------------
  // The parsed document (`parse`)
  // ---------------------------------------------------------------------

  /** What the PDF library gives for one page: its text dictionary blocks
      and its markdown rendering. */
  datatype RawPage = RawPage(blocks: seq<RawBlock>, markdown: string)

  /** The layout of page `number` (1-based); image positions are not filled in. */
  function PageOf(raw: RawPage, number: int): PageLayout {
    PageLayout(number, TextBlocksOf(raw.blocks, number), [], HeadingsOf(Split(raw.markdown, "\n"), number))
  }

  /** What `parse` returns for a document `docId` (the file's stem). */
  function ParsedOf(docId: string, filePath: string, raw: seq<RawPage>): ParsedPDF {
    ParsedPDF(docId, ReplaceChar(docId, '_', ' '), filePath, |raw|,
      seq(|raw|, k requires 0 <= k < |raw| => PageOf(raw[k], k + 1)))
  }

  method Parse(docId: string, filePath: string, rawPages: seq<RawPage>) returns (parsed: ParsedPDF)
    ensures parsed == ParsedOf(docId, filePath, rawPages)
  {
    var pages: seq<PageLayout> := [];
    for pageNum := 0 to |rawPages|
      invariant |pages| == pageNum
      invariant forall k :: 0 <= k < pageNum ==> pages[k] == PageOf(rawPages[k], k + 1)
    {
      var textBlocks := ExtractTextBlocks(rawPages[pageNum].blocks, pageNum + 1);
      var headings := ExtractHeadings(rawPages[pageNum].markdown, pageNum + 1);
      pages := pages + [PageLayout(pageNum + 1, textBlocks, [], headings)];
    }
    parsed := ParsedPDF(docId, ReplaceChar(docId, '_', ' '), filePath, |rawPages|, pages);
  }

  /** Pages are numbered 1 to the page count in order, every block and
      heading carries its page's number, and the title is the id with
      underscores turned into spaces. */
  lemma ParsedPagesNumbered(docId: string, filePath: string, raw: seq<RawPage>)
    ensures ParsedOf(docId, filePath, raw).totalPages == |ParsedOf(docId, filePath, raw).pages|
    ensures forall k :: 0 <= k < |raw| ==>
      var p := ParsedOf(docId, filePath, raw).pages[k];
      p.pageNumber == k + 1 && p.images == []
      && (forall j :: 0 <= j < |p.textBlocks| ==> p.textBlocks[j].pageNumber == k + 1)
      && (forall j :: 0 <= j < |p.headings| ==> p.headings[j].pageNumber == k + 1)
    ensures '_' !in ParsedOf(docId, filePath, raw).title
    ensures |ParsedOf(docId, filePath, raw).title| == |docId|
    ensures forall i :: 0 <= i < |docId| ==>
      ParsedOf(docId, filePath, raw).title[i] == (if docId[i] == '_' then ' ' else docId[i])
    ensures ParsedOf(docId, filePath, raw).docId == docId && ParsedOf(docId, filePath, raw).filePath == filePath
  {
    forall k | 0 <= k < |raw|
      ensures var p := ParsedOf(docId, filePath, raw).pages[k];
        (forall j :: 0 <= j < |p.textBlocks| ==> p.textBlocks[j].pageNumber == k + 1)
        && (forall j :: 0 <= j < |p.headings| ==> p.headings[j].pageNumber == k + 1)
    {
      TextBlocksShape(raw[k].blocks, k + 1);
      HeadingsPlaced(Split(raw[k].markdown, "\n"), k + 1);
    }
  }
}
