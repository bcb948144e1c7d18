/** The records of the ingestion pipeline: layout primitives extracted from a
    PDF page (text blocks, image blocks, headings), the parsed document, and
    the content units handed on to embedding and storage. */
module Models {

  datatype Option<T> = None | Some(value: T)

  /** Kind of a content unit; a string enum whose values are the member names. */
  datatype UnitType = TextOnly | ImageWithContext {
    function Value(): string {
      match this
      case TextOnly => "TEXT_ONLY"
      case ImageWithContext => "IMAGE_WITH_CONTEXT"
    }
  }

  /** `UnitType(s)`: the enum member whose value is `s`, if any. */
  function ParseUnitType(s: string): (r: Option<UnitType>)
    ensures r.Some? ==> r.value.Value() == s
    ensures forall t: UnitType :: t.Value() == s ==> r == Some(t)
  {
    if s == "TEXT_ONLY" then Some(TextOnly)
    else if s == "IMAGE_WITH_CONTEXT" then Some(ImageWithContext)
    else None
  }

  /** Axis-aligned box in page space, y growing downwards. */
  datatype BBox = BBox(x1: real, y1: real, x2: real, y2: real)

  /** Vertical centre of a box. */
  function CentreY(b: BBox): real {
    (b.y1 + b.y2) / 2.0
  }

  /** Classification given to a text block by the layout parser. */
  datatype BlockType = Paragraph | Caption | ListItem

  datatype TextBlock = TextBlock(text: string, bbox: BBox, pageNumber: int, blockType: BlockType)

  /** An image on a page. `imagePath` is the attribute the image extractor
      attaches after saving the image; it is empty when none was attached. */
  datatype ImageBlock = ImageBlock(
    bbox: BBox,
    pageNumber: int,
    imageId: Option<string>,
    caption: Option<string>,
    nearbyText: seq<string>,
    imagePath: string)

  /** A section heading; the parser produces levels 1 to 6. */
  datatype Heading = Heading(text: string, level: int, bbox: BBox, pageNumber: int)

  datatype PageLayout = PageLayout(
    pageNumber: int,
    textBlocks: seq<TextBlock>,
    images: seq<ImageBlock>,
    headings: seq<Heading>)

  datatype ParsedPDF = ParsedPDF(
    docId: string,
    title: string,
    filePath: string,
    totalPages: int,
    pages: seq<PageLayout>)

  datatype Document = Document(
    id: string,
    docId: string,
    title: string,
    filePath: string,
    domain: Option<string>,
    totalPages: int)

  datatype ImageAsset = ImageAsset(
    id: string,
    documentId: string,
    docId: string,
    pageNumber: int,
    bbox: BBox,
    imagePath: string,
    autoCaption: Option<string>,
    imageHash: Option<string>)

  /** The retrievable unit: text only, or an image fused with nearby text. */
  datatype ContentUnit = ContentUnit(
    documentId: string,
    docId: string,
    pageNumber: int,
    sectionTitle: Option<string>,
    sectionPath: Option<string>,
    text: string,
    unitType: UnitType,
    imageId: Option<string>,
    tokenCount: int,
    bbox: Option<BBox>,
    tags: seq<string>)
  {
    /** `has_image()`. */
    predicate HasImage() {
      imageId.Some? && unitType == ImageWithContext
    }
  }

  /** `ContentUnit()` with every field at its declared default. */
  function DefaultContentUnit(): (u: ContentUnit)
    ensures u.unitType == TextOnly && u.imageId == None && !u.HasImage()
    ensures u.sectionTitle == None && u.sectionPath == None && u.tags == []
  {
    ContentUnit("", "", 0, None, None, "", TextOnly, None, 0, None, [])
  }
}
