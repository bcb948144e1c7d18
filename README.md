# Layout-aware segmentation of machine manuals, modelled in Dafny

This project models the segmentation engine of the ingestion pipeline of
`Apk_RAG_Navodila_Stroji_Celice`. The pipeline is a retrieval-augmented
assistant for machine manuals. The engine is the part that turns an
already-parsed PDF into retrievable units:

- **Layout parser** (`layout_parser.dfy`, module `LayoutParser`): turns the
  PDF library's block / line / span records into `TextBlock`s with a type
  (caption, list item, paragraph). It turns each page's markdown into
  `Heading`s with synthetic boxes, and assembles the `ParsedPDF`.
- **Image–text fusion** (`image_extractor.dfy`, module `ImageExtractor`):
  for one image, finds a caption and up to three nearby texts among the
  text blocks of its page.
- **Content-unit builder** (`content_unit_builder.dfy`, module
  `ContentUnitBuilder`): emits, page by page, one `IMAGE_WITH_CONTEXT` unit
  per image, then `TEXT_ONLY` units. These pack the text blocks that lie
  away from images greedily under a token budget. Each unit gets a
  section title, a section path and keyword tags.
- **Markdown chunker** (`chunking.dfy`, module `Chunking`): splits the
  markdown rendering of a document into heading sections. It builds each
  section's path by a backward scan, estimates its page, and splits large
  sections on blank lines under min / target / max token limits.
- **Records** (`models.dfy`, module `Models`): the records shared by the
  above, and `has_image`.
- `lists.dfy` (module `Lists`): the loop shape "for each element, append
  what it yields", shared by several loops above. It proves which
  positions contribute and in what order.
- `text.dfy` (module `Text`): the Python string operations the code relies
  on (`strip`, `lower`, `in`, `startswith`, `split`, `join`,
  `lstrip("#")`, `replace`), with lemmas about them.

Each loop of the source is a `method` with its loop and invariants. The
method is proved equal to a specification function that mirrors the loop
one element at a time. The behaviour the source promises is then proved
about that function in lemmas. The source mutates only local lists and
counters, so there are no classes. The configuration objects
(`SemanticChunker`, the builder's `chunk_size`) are immutable values.

Foreign code becomes parameters:
- the tokenizer is `count: string -> nat`;
- the UUID of each new image asset is `assetId: nat -> string`, indexed by
  the image's position;
- the SHA-256 of an image file, or its absence, is
  `fileHash: string -> Option<string>`;
- the output of the PDF library (block dictionaries, the page's markdown,
  the extracted images) is an input.

Coordinates are `real`.

### Behaviour of the code that the lemmas pin down

Each bullet states what the code does and names the lemma that proves it.

- **Caption choice.** Every caption-like block above an image overwrites
  the caption found so far (`image_extractor.py:129-133`), so the last one
  wins (`ImageExtractor.CaptionIsLastCaptionBlock`).
- **Unit section path.** A heading more than one level deeper than the
  current path is skipped (`content_unit_builder.py:273-278`), so entry k
  of a path always comes from a level-(k+1) heading
  (`ContentUnitBuilder.PathDepthIsLevel`).
- **Chunk overlap.** The comments at `chunking.py:182-184` say a new chunk
  starts with the last paragraph of the previous one as overlap. The
  running text always ends in a blank line, so that last paragraph, and
  with it the overlap, is always empty (`Chunking.OverlapAlwaysEmpty`,
  `Chunking.RestartText`).
- **Chunk size.** A split chunk may exceed the maximum size: a paragraph
  larger than the maximum is kept whole (`chunking.py:152-203`,
  `Chunking.OversizedParagraphKept`).
- **Chunk numbering.** The chunk index advances only when a chunk is
  emitted (`chunking.py:159-187`), so chunk ids are contiguous
  (`Chunking.SectionChunksNumbered`).
- **Image ids.** An image unit has no image id when the image has no path
  or no asset has that path (`content_unit_builder.py:104-116`,
  `ContentUnitBuilder.ImageUnitId`).
- **Page estimate.** The estimate is clamped only from above
  (`chunking.py:218-225`), so a document with no pages gets page 0
  (`Chunking.EstimatePage`).
- **Token fallback.** `_count_tokens` is annotated to return an `int`
  (`chunking.py:207`), but its fallback returns the float
  `len(text.split()) * 1.3` (`chunking.py:215`). The model keeps the count
  abstract.

## Model

| member | source | states |
|---|---|---|
| Models.ParseUnitType | ingestion/models.py:9-12 | `UnitType` has exactly two members and each one's value is its own name: a string parses to the member whose value it is, and to none otherwise |
| Models.DefaultContentUnit | ingestion/models.py:42-61 | a content unit built with defaults is `TEXT_ONLY`, has no image id, no section title or path and no tags, so `has_image` is false |
| ImageExtractor.FindNearbyText | ingestion/processing/image_extractor.py:91-147 | the loop's caption and nearby list are those of `NearbyText`: no result for an image on another page or a page without text blocks, else the caption rule and the first three nearby texts |
| ImageExtractor.NoCaptionIff | ingestion/processing/image_extractor.py:120-133 | there is no caption exactly when no block on the page is above the image, within 100 of its centre and caption-like |
| ImageExtractor.CaptionIsLastCaptionBlock | ingestion/processing/image_extractor.py:129-133 | a caption is the unchanged text of a caption-role block, and no later block is caption-role: the last caption-like block wins |
| ImageExtractor.EachBlockOneRole | ingestion/processing/image_extractor.py:124-145 | by the if/elif chain every block is caption candidate, nearby text or ignored, exactly one of them; the nearby list has one entry per nearby-role block |
| ImageExtractor.NearbyFromNearbyBlocks | ingestion/processing/image_extractor.py:134-145 | every nearby text is the text of a block that is above and close but not caption-like, below and close, or overlapping horizontally within 50 |
| ImageExtractor.NearbyAsKept | ingestion/processing/image_extractor.py:124-145 | the nearby list is built block by block: each nearby-role block adds its text, every other block adds nothing |
| ImageExtractor.NearbyInOrder | ingestion/processing/image_extractor.py:124-145 | entry k of the nearby list is the text of the k-th nearby-role block; the positions increase, and every nearby-role block contributes, so no text is repeated, dropped or reordered |
| ImageExtractor.NearbyIsFirstThree | ingestion/processing/image_extractor.py:147 | the nearby list has at most three entries and is the prefix of all matches in input order, not the closest ones |
| ImageExtractor.OnPageIdempotent | ingestion/processing/image_extractor.py:112 | filtering the blocks to the page twice equals filtering once |
| ImageExtractor.OtherPagesIgnored | ingestion/processing/image_extractor.py:108-115 | blocks of other pages do not change the result |
| ImageExtractor.NoTextNoFusion | ingestion/processing/image_extractor.py:111-115 | with no text block on the page the result is no caption and no nearby text |
| ContentUnitBuilder.FilterTextAwayFromImages | ingestion/processing/content_unit_builder.py:213-244 | the flag-and-break loop returns the blocks `AwayFromImages` keeps: all of them without images, else those near no image |
| ContentUnitBuilder.AwayFromImagesMembership | ingestion/processing/content_unit_builder.py:219-244 | a block is kept exactly when it is an input block whose centre is at least 50 from the centre of every image on its page |
| ContentUnitBuilder.KeepFarMembership | ingestion/processing/content_unit_builder.py:225-242 | with images, a block is kept iff it is in the input and near no same-page image |
| ContentUnitBuilder.KeepFarAppend | ingestion/processing/content_unit_builder.py:225-242 | the filter works block by block: filtering a concatenation concatenates the filtered parts, so input order is kept |
| ContentUnitBuilder.AllFarKeptUnchanged | ingestion/processing/content_unit_builder.py:219-244 | when no block is near an image, the blocks come back unchanged |
| ContentUnitBuilder.GetSectionForPosition | ingestion/processing/content_unit_builder.py:246-262 | the closest-heading loop returns `SectionFor(headings, y)` |
| ContentUnitBuilder.ClosestNoneIff | ingestion/processing/content_unit_builder.py:252-262 | the scan finds no heading exactly when every heading ends below `y` |
| ContentUnitBuilder.SectionNoneIff | ingestion/processing/content_unit_builder.py:246-262 | the section title is None exactly when no heading has `y2 <= y`, including when there are no headings |
| ContentUnitBuilder.ClosestIsNearestEarliest | ingestion/processing/content_unit_builder.py:252-260 | the heading found is above `y` and at the least distance of all headings above, and every earlier heading above is strictly farther: ties go to the earliest |
| ContentUnitBuilder.SectionIsNearestAbove | ingestion/processing/content_unit_builder.py:246-262 | a section title is the text of a heading above `y` whose distance is minimal among headings above |
| ContentUnitBuilder.SortByKeySortsAndPermutes | ingestion/processing/content_unit_builder.py:270 | the headings are ordered by (page, y1, level) and are a permutation of the input |
| ContentUnitBuilder.BuildSectionPath | ingestion/processing/content_unit_builder.py:264-280 | the level-stack loop over the sorted headings returns `SectionPath`: None without headings or with an empty path, else the parts joined by " > " |
| ContentUnitBuilder.PathDepthIsLevel | ingestion/processing/content_unit_builder.py:273-278 | entry k of the path is the text of a heading of level k+1, so a heading more than one level deeper than the path never enters it |
| ContentUnitBuilder.PathAtMostDeepest | ingestion/processing/content_unit_builder.py:271-278 | the path is never longer than the deepest heading level, because entry k comes from a heading of level k+1 |
| ContentUnitBuilder.PathAtMostSix | ingestion/processing/content_unit_builder.py:264-280 | when no heading is deeper than level 6, the path has at most six parts |
| ContentUnitBuilder.ExtractTags | ingestion/processing/content_unit_builder.py:293-319 | the tag loop returns `Tags(text)` |
| ContentUnitBuilder.TagsAreFiredRules | ingestion/processing/content_unit_builder.py:296-317 | the tags are the rules in the order ptl007, ptl008, rom27, rom28, stgh, safety, procedure whose words occur in the lowercased text |
| ContentUnitBuilder.TagsMembership | ingestion/processing/content_unit_builder.py:296-317 | a tag is present exactly when one of its keywords occurs, case-insensitively |
| ContentUnitBuilder.TagsDistinct | ingestion/processing/content_unit_builder.py:307-317 | no tag appears twice |
| ContentUnitBuilder.PackFlatten | ingestion/processing/content_unit_builder.py:164-193 | at every step the closed groups followed by the open one reproduce the blocks read so far |
| ContentUnitBuilder.PackTokens | ingestion/processing/content_unit_builder.py:165-193 | the running token total is the sum of the counts of the open group's blocks |
| ContentUnitBuilder.PackCurrent | ingestion/processing/content_unit_builder.py:168-193 | the open group has a matching total, is a single block or within the budget, and is non-empty once a block was read |
| ContentUnitBuilder.PackClosedGood | ingestion/processing/content_unit_builder.py:171-190 | every closed group has a token count equal to the sum of its blocks' counts and is within `chunk_size` or a single block |
| ContentUnitBuilder.PackMaximal | ingestion/processing/content_unit_builder.py:171-193 | closed groups are non-empty and each was closed only because the next block would have pushed it over `chunk_size` |
| ContentUnitBuilder.GroupsProperties | ingestion/processing/content_unit_builder.py:164-209 | the groups reproduce the blocks in order, each is within budget or one block, each was closed only when the next block did not fit, and there are none exactly when there are no blocks |
| ContentUnitBuilder.BuildTextOnlyUnits | ingestion/processing/content_unit_builder.py:139-211 | the packing loop returns `TextOnlyUnits` of the page |
| ContentUnitBuilder.PackTextUnits | ingestion/processing/content_unit_builder.py:164-209 | the packing loop and the final flush emit one unit per group of `Groups` of the block texts, in group order |
| ContentUnitBuilder.MakeTextUnit | ingestion/processing/content_unit_builder.py:174-186 | a closed or final group becomes the `TEXT_ONLY` unit of `TextUnit`: its texts joined by spaces, its running token total, the page's section title and path, and the tags of the joined text |
| ContentUnitBuilder.TextOnlyUnitsProperties | ingestion/processing/content_unit_builder.py:139-211 | one `TEXT_ONLY` unit per group, none without kept blocks; each unit has no image, the page's number and section path, the one title of the first kept block, its group's token total and its texts joined by spaces |
| ContentUnitBuilder.CreateImageAssets | ingestion/processing/content_unit_builder.py:50-71 | the asset loop returns one asset per image and the path map `ImageMapOf` of those assets |
| ContentUnitBuilder.ImageMapLastWins | ingestion/processing/content_unit_builder.py:51-71 | a path is in the map iff it is non-empty and some asset has it, and it maps to the last such asset |
| ContentUnitBuilder.BuildImageUnits | ingestion/processing/content_unit_builder.py:82-121 | the per-image loop returns `ImageUnits` of the page's images |
| ContentUnitBuilder.BuildImageUnit | ingestion/processing/content_unit_builder.py:83-121 | the body for one image gives `ImageUnit`: the fused caption and nearby text, the section above the image, the page's path, the id of the asset under the image's path, and that text's token count and tags |
| ContentUnitBuilder.FusedTextShape | ingestion/processing/content_unit_builder.py:88-101 | the fused text starts with a non-empty caption, contains every nearby text, and is "Image" when there is neither |
| ContentUnitBuilder.ImageUnitId | ingestion/processing/content_unit_builder.py:103-116 | an image unit is `IMAGE_WITH_CONTEXT`; it has an image iff its path is non-empty and some asset has that path, and then its id is that of the last such asset |
| ContentUnitBuilder.ImageIdFromAssets | ingestion/processing/content_unit_builder.py:104-116 | the lookup by path finds an id exactly when the image has a non-empty path that some asset has |
| ContentUnitBuilder.ImageUnitsShape | ingestion/processing/content_unit_builder.py:82-121 | one image unit per image of the page, in order, each with the page's number and section path |
| ContentUnitBuilder.ImagesOnPageMembership | ingestion/processing/content_unit_builder.py:76 | the page's images are exactly the extracted images with that page number |
| ContentUnitBuilder.PageUnitsLayout | ingestion/processing/content_unit_builder.py:74-130 | a page's units are its image units first and its text-only units after, all with the page's number and section path, the text-only ones without image id |
| ContentUnitBuilder.BuildContentUnits | ingestion/processing/content_unit_builder.py:30-137 | the builder returns the assets of all images and the units of all pages in page order |
| ContentUnitBuilder.TextOnlyUnitsHaveNoImage | ingestion/processing/content_unit_builder.py:175-185 | no `TEXT_ONLY` unit of the document carries an image id |
| Chunking.DefaultChunker | ingestion/processing/chunking.py:16-26 | the default limits satisfy minimum <= target <= maximum |
| Chunking.FindHeadingLines | ingestion/processing/chunking.py:80-83 | the matching loop returns the heading-line indices `HeadingIndices`, increasing and in range |
| Chunking.HeadingIndicesExact | ingestion/processing/chunking.py:80-83 | the indices found are exactly the lines of one to six `#`, a whitespace character and at least one more character on the line |
| Chunking.NoHeadingIndicesIff | ingestion/processing/chunking.py:83-85 | no heading is found exactly when no line is a heading line |
| Chunking.SplitByHeadings | ingestion/processing/chunking.py:70-101 | the section loop returns `SectionsOf(markdown)` |
| Chunking.SectionsAtMatches | ingestion/processing/chunking.py:90-99 | one section per match, in order; section k holds the text from heading k up to the next heading or the end |
| Chunking.NoHeadingsOneSection | ingestion/processing/chunking.py:85-87 | without heading lines the document is one section ("Document", whole markdown, 0) |
| Chunking.SectionPerHeading | ingestion/processing/chunking.py:89-101 | with heading lines there is one section per heading line, each with a level 1..6 and stripped heading and content |
| Chunking.BuildSectionPath | ingestion/processing/chunking.py:103-120 | the backward scan returns `SectionPathOf`: the headings of the ancestors found and the current one, joined by " > " |
| Chunking.AncestorsIncrease | ingestion/processing/chunking.py:114-118 | the scan's ancestors come out in document order |
| Chunking.AncestorsLevelBelowNext | ingestion/processing/chunking.py:114-118 | each ancestor's level is below that of the next path entry |
| Chunking.AncestorsSkipNotLower | ingestion/processing/chunking.py:114-118 | a section the scan skips has a level no lower than the next ancestor taken after it |
| Chunking.AncestorsBelowStart | ingestion/processing/chunking.py:114-118 | every ancestor's level is below the current section's level |
| Chunking.AncestorsRootLowest | ingestion/processing/chunking.py:114-118 | no section before the first ancestor has a level below the root's |
| Chunking.PathLevelsIncrease | ingestion/processing/chunking.py:103-120 | the path ends with the current heading and levels strictly increase from root to leaf |
| Chunking.PathNoLongerThanLevel | ingestion/processing/chunking.py:103-120 | with levels of at least 1, a path has at most as many parts as the section's level |
| Chunking.EstimatePage | ingestion/processing/chunking.py:218-225 | page 1 when there are no sections; for a section index below the count and at least one page, a page within `[1, total_pages]` |
| Chunking.EstimatePageMonotone | ingestion/processing/chunking.py:218-225 | later sections never get an earlier page |
| Chunking.SplitSection | ingestion/processing/chunking.py:122-205 | the paragraph loop returns `SectionChunks` for the section |
| Chunking.FoldEndsAtBoundary | ingestion/processing/chunking.py:159-187 | the running text always ends in a blank line |
| Chunking.OverlapAlwaysEmpty | ingestion/processing/chunking.py:183-187 | the "last paragraph" overlap taken when a paragraph does not fit is always empty |
| Chunking.RestartText | ingestion/processing/chunking.py:183-187 | after a paragraph that does not fit, the running text is a blank line, the paragraph and a blank line, and its count is recounted |
| Chunking.FoldNumbered | ingestion/processing/chunking.py:159-187 | `chunk_idx` equals the number of chunks emitted, and chunk k has index k, id `c{k}` and at least the minimum count |
| Chunking.SectionChunksNumbered | ingestion/processing/chunking.py:136-203 | every chunk of a section belongs to it, has at least the minimum count, and chunk k has id `{doc}_s{section}_c{k}` (and chunk index k when split) |
| Chunking.SectionFitsOneChunk | ingestion/processing/chunking.py:136-151 | a section within the maximum gives one chunk `c0` with the whole content and its count if it reaches the minimum, else none |
| Chunking.OversizedParagraphKept | ingestion/processing/chunking.py:152-203 | a split section may give a chunk above the maximum size |
| Chunking.Chunk | ingestion/processing/chunking.py:34-68 | the section loop returns `DocumentChunks`, each section's chunks appended in order |
| Chunking.DocumentChunksProperties | ingestion/processing/chunking.py:34-68 | every chunk comes from a section with its path, estimated page and at least the minimum count; pages lie within the document when it has pages; chunks follow section order |
| Chunking.ChunksUpToFromSections | ingestion/processing/chunking.py:45-66 | after the first n sections, every chunk comes from one of them with its path, page and minimum count, and chunks follow section order |
| LayoutParser.ExtractTextBlocks | ingestion/processing/layout_parser.py:72-119 | the nested block/line/span loops return `TextBlocksOf` the raw blocks |
| LayoutParser.CollectParts | ingestion/processing/layout_parser.py:84-87 | the line and span loops collect the text of every span of every line, in order, as `PartsOf` |
| LayoutParser.BlockOfShape | ingestion/processing/layout_parser.py:80-117 | a raw block that gives a text block gives one with non-empty stripped text, the classification of that text as its type, and the given page |
| LayoutParser.TextBlocksInOrder | ingestion/processing/layout_parser.py:79-117 | one text block per raw block with lines and non-blank text, in input order, built from that block |
| LayoutParser.TextBlocksShape | ingestion/processing/layout_parser.py:79-117 | every block's text is non-empty and stripped, its type is the classification of its text, its page is the given one; blocks without lines give nothing |
| LayoutParser.CaptionLooksLikeCaption | ingestion/processing/layout_parser.py:101-108 | a block classified as caption also looks like a caption to the fusion rule |
| LayoutParser.SchemeIsNotCaptionBlock | ingestion/processing/layout_parser.py:105 | "Scheme 1" is a caption for fusion but a paragraph for the parser, whose word list lacks "scheme" |
| LayoutParser.ExtractHeadings | ingestion/processing/layout_parser.py:121-169 | the line loop returns `HeadingsOf` the markdown lines |
| LayoutParser.HeadingsInOrder | ingestion/processing/layout_parser.py:137-164 | one heading per accepted line, in line order, with that line's title and `#` count as level |
| LayoutParser.HeadingsAsKept | ingestion/processing/layout_parser.py:137-164 | heading k is the k-th accepted line's title and level, placed in box k on the given page |
| LayoutParser.HeadingsPlaced | ingestion/processing/layout_parser.py:149-164 | the k-th heading has box (0, 50k, 1000, 50k+30) and the given page |
| LayoutParser.HeadingLineShape | ingestion/processing/layout_parser.py:143-147 | an accepted line gives a level 1..6 and a non-empty stripped title |
| LayoutParser.ChunkerHeadingAccepted | ingestion/processing/layout_parser.py:143-147 | a heading line of the chunker with a non-blank title is a heading for the parser too, with the same `#` count as level and the stripped rest as title |
| LayoutParser.BlankTitleOnlyChunker | ingestion/processing/layout_parser.py:143-147 | "#  " is a heading with an empty title for the chunker's pattern, while the parser drops it |
| LayoutParser.HashWithoutSpaceIsHeading | ingestion/processing/layout_parser.py:143-147 | "#Title" is a level-1 heading for the parser although the chunker's pattern rejects it |
| LayoutParser.Parse | ingestion/processing/layout_parser.py:20-70 | the page loop returns `ParsedOf` the raw pages |
| LayoutParser.ParsedPagesNumbered | ingestion/processing/layout_parser.py:35-59 | pages are numbered 1..n in order, every block and heading carries its page's number, the total is the number of pages, the document id and file path are kept, and the title is the document id with each underscore replaced by a space and every other character kept |

## Left out

- PDF access: opening the PDF, the library's text dictionaries and the
  markdown rendering (`layout_parser.py:20-70`, `127-131`) are inputs.
  So is the exception path of `_extract_headings`, because the markdown
  is given.
- Image extraction (`image_extractor.py:22-89`) is file I/O: the model
  takes the extracted image blocks, with their paths, as an input. As
  written, that code passes `image_hash=` to `ImageBlock`, which has no
  such field. The resulting exception is caught per image, so every
  image is skipped. The model does not depend on this.
- Image-file existence checks and SHA-256 hashing (`content_unit_builder.py:53-59`)
  are the `fileHash` parameter. UUIDs of documents, assets and units
  are parameters or not modelled. `created_at`, `metadata` dictionaries
  and text bounding boxes of units are not modelled. A chunk's
  `section_idx` and `chunk_idx` metadata are fields of the chunk.
- Token counting (tiktoken, and its fallback `len(text.split()) * 1.3`,
  which is a float) is the abstract parameter `count`.
- Floating point: coordinates are exact reals. `int(idx / total * pages)`
  is exact integer floor division.
- `Text.Lower` maps only ASCII letters. Python lowercases all of Unicode.
- Chunking.SectionsOf: the heading pattern is matched line by line. In the
  source regex, `\s+` may cross a newline. Section content is the stripped
  join of the lines between headings. That equals the stripped character
  slice for line-based matches.
- ContentUnitBuilder.SortByKeySortsAndPermutes: does not state the
  stability of Python's sort. Headings with equal keys may come out in
  another order.
- LayoutParser.ChunkerHeadingAccepted: proved only for lines with a
  non-blank title. The chunker's pattern takes "#  " for a heading with
  the empty title, and the parser drops it
  (`LayoutParser.BlankTitleOnlyChunker`).
- Chunking.SemanticChunker: `chunk_overlap` is stored and never used, so
  it has no effect in the model.
- `get_chunker`, `get_layout_parser`, `get_image_extractor`,
  `get_content_unit_builder` and the settings singletons are configuration
  plumbing. Logging is omitted.
- Models: the dataclass defaults of `TextBlock.block_type`, `ImageBlock`
  and `Heading` are not modelled. The parser always sets them. The 1..6
  range of heading levels is proved for parsed headings
  (`LayoutParser.HeadingLineShape`) instead.
