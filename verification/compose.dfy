/**
 * Page composition in `eml_to_pdf`: the header and body paragraphs are
 * rendered into base pages, then every attachment in walk order appends its
 * pages: all pages of a PDF, one centred page per JPEG/PNG image.
 */
module Compose {
  import opened Wrappers
  import opened Codec
  import opened Mime
  import opened Headers
  import opened Body

  /** US Letter in PostScript points, the page size of the rendered document;
      added image pages take the size of its first page. */
  const PageWidth: real := 612.0
  const PageHeight: real := 792.0

  type PageCount = n: nat | n >= 1 witness 1

  /** The libraries the conversion delegates to, left abstract: the codecs,
      the paragraph renderer (it always yields at least one page), the PDF
      reader's page count and the image decoder's pixel size. */
  datatype Libraries = Libraries(
    decode: Decoder,
    render: seq<string> -> PageCount,
    pdfPages: Bytes -> nat,
    imageSize: Bytes -> (nat, nat))

  /** A page of the output: a rendered page of the story, a page taken from a
      PDF attachment, or a blank page with an image drawn at an offset. */
  datatype Page =
    | Rendered(index: nat)
    | FromPdf(document: Bytes, number: nat)
    | WithImage(image: Bytes, imageWidth: nat, imageHeight: nat, xOffset: real, yOffset: real)

  /** The closed dispatch over a walked part. */
  datatype Attachment = PdfAttachment | ImageAttachment | Skipped

  const ImageTypes: seq<string> := ["image/jpeg", "image/jpg", "image/png"]

  /** Only a non-multipart part with a Content-Disposition header is looked at. */
  predicate Considered(p: Part) {
    MainType(p.contentType) != "multipart" && p.disposition.Some?
  }

  function Classify(p: Part): (r: Attachment)
    ensures r == PdfAttachment <==> Considered(p) && p.contentType == "application/pdf"
    ensures r == ImageAttachment <==> Considered(p) && p.contentType in ImageTypes
    ensures !Considered(p) ==> r == Skipped
  {
    if !Considered(p) then Skipped
    else if p.contentType == "application/pdf" then PdfAttachment
    else if p.contentType in ImageTypes then ImageAttachment
    else Skipped
  }

  /** The offset that centres an image of `image` units on a page of `page`
      units: exact halving of the difference, negative for an image larger
      than the page. */
  function CentreOffset(page: real, image: nat): (r: real)
    ensures 2.0 * r + image as real == page
    ensures r < 0.0 <==> image as real > page
  {
    (page - image as real) / 2.0
  }

  /** `add_attachment`: every page of the attached PDF, in order. */
  function AddAttachment(data: Bytes, libs: Libraries): (r: seq<Page>)
    ensures |r| == libs.pdfPages(data)
    ensures forall i :: 0 <= i < |r| ==> r[i] == FromPdf(data, i)
  {
    seq(libs.pdfPages(data), i requires 0 <= i => FromPdf(data, i))
  }

  /** `add_images`: one page of the document's size with the image centred. */
  function AddImage(data: Bytes, libs: Libraries): (r: Page)
    ensures r.WithImage? && r.image == data
    ensures (r.imageWidth, r.imageHeight) == libs.imageSize(data)
    ensures 2.0 * r.xOffset + r.imageWidth as real == PageWidth
    ensures 2.0 * r.yOffset + r.imageHeight as real == PageHeight
  {
    var (w, h) := libs.imageSize(data);
    WithImage(data, w, h, CentreOffset(PageWidth, w), CentreOffset(PageHeight, h))
  }

  /** The pages one walked part appends. A PDF or image type on a container
      has no bytes to read, which aborts. */
  function AttachmentPages(p: Part, libs: Libraries): (r: Result<seq<Page>, Fatal>)
    ensures Classify(p) == Skipped ==> r == Success([])
    ensures r.Failure? <==> Classify(p) != Skipped && IsMultipart(p)
    ensures Classify(p) == PdfAttachment && !IsMultipart(p) ==> r == Success(AddAttachment(p.content.payload, libs))
    ensures Classify(p) == ImageAttachment && !IsMultipart(p) ==> r == Success([AddImage(p.content.payload, libs)])
  {
    match Classify(p)
    case Skipped => Success([])
    case PdfAttachment =>
      if IsMultipart(p) then Failure(NoPayload) else Success(AddAttachment(p.content.payload, libs))
    case ImageAttachment =>
      if IsMultipart(p) then Failure(NoPayload) else Success([AddImage(p.content.payload, libs)])
  }

  /** How many pages a part adds, stated from its type alone. */
  function PagesAdded(p: Part, libs: Libraries): nat {
    match Classify(p)
    case Skipped => 0
    case ImageAttachment => 1
    case PdfAttachment => match p.content
      case Leaf(data) => libs.pdfPages(data)
      case Multi(_) => 0
  }

  function TotalPagesAdded(parts: seq<Part>, libs: Libraries): nat {
    if |parts| == 0 then 0 else PagesAdded(parts[0], libs) + TotalPagesAdded(parts[1..], libs)
  }

  /** The page count stated from the type agrees with the pages actually appended. */
  lemma PagesAddedCounts(p: Part, libs: Libraries)
    ensures AttachmentPages(p, libs).Success? ==> |AttachmentPages(p, libs).value| == PagesAdded(p, libs)
  {
  }

  /** `chunk` occupies `pages` from index `k` on. */
  predicate PlacedAt(pages: seq<Page>, k: nat, chunk: seq<Page>) {
    k + |chunk| <= |pages| && pages[k..k + |chunk|] == chunk
  }

  /** Appending, for every part in order, the pages `pages` gives it; the
      first part that fails aborts. */
  function AppendEach(doc: seq<Page>, parts: seq<Part>, pages: Part -> Result<seq<Page>, Fatal>): (r: Result<seq<Page>, Fatal>)
    ensures r.Success? <==> forall i :: 0 <= i < |parts| ==> pages(parts[i]).Success?
    ensures r.Success? ==> doc <= r.value
    decreases |parts|
  {
    if |parts| == 0 then Success(doc)
    else
      assert forall i :: 1 <= i < |parts| ==> parts[1..][i - 1] == parts[i];
      var added :- pages(parts[0]);
      AppendEach(doc + added, parts[1..], pages)
  }

  /** How many pages `pages` gives `parts` altogether. */
  function Appended(parts: seq<Part>, pages: Part -> Result<seq<Page>, Fatal>): nat {
    if |parts| == 0 then 0
    else (if pages(parts[0]).Success? then |pages(parts[0]).value| else 0) + Appended(parts[1..], pages)
  }

  lemma {:induction false} AppendedPrefix(parts: seq<Part>, i: nat, pages: Part -> Result<seq<Page>, Fatal>)
    requires 0 < i <= |parts|
    ensures Appended(parts[..i], pages)
            == (if pages(parts[0]).Success? then |pages(parts[0]).value| else 0) + Appended(parts[1..][..i - 1], pages)
  {
    assert parts[..i][0] == parts[0];
    assert parts[..i][1..] == parts[1..][..i - 1];
  }

  /** The pages of `parts[i]` sit right after `doc` and the pages of `parts[..i]`. */
  lemma {:induction false} AppendEachPlaces(doc: seq<Page>, parts: seq<Part>, i: nat, pages: Part -> Result<seq<Page>, Fatal>)
    requires i < |parts|
    ensures AppendEach(doc, parts, pages).Success? ==>
              && pages(parts[i]).Success?
              && PlacedAt(AppendEach(doc, parts, pages).value, |doc| + Appended(parts[..i], pages), pages(parts[i]).value)
    decreases i
  {
    if AppendEach(doc, parts, pages).Success? {
      var added := pages(parts[0]).value;
      var mid := doc + added;
      assert AppendEach(doc, parts, pages) == AppendEach(mid, parts[1..], pages);
      var r := AppendEach(doc, parts, pages).value;
      if i == 0 {
        assert parts[..0] == [];
        assert mid <= r;
        assert r[|doc|..|doc| + |added|] == mid[|doc|..];
      } else {
        AppendEachPlaces(mid, parts[1..], i - 1, pages);
        AppendedPrefix(parts, i, pages);
        assert parts[1..][i - 1] == parts[i];
      }
    }
  }

  /** The length of the result is `doc`'s plus every part's pages. */
  lemma {:induction false} AppendEachLength(doc: seq<Page>, parts: seq<Part>, pages: Part -> Result<seq<Page>, Fatal>)
    ensures AppendEach(doc, parts, pages).Success? ==> |AppendEach(doc, parts, pages).value| == |doc| + Appended(parts, pages)
    decreases |parts|
  {
    if |parts| > 0 && pages(parts[0]).Success? {
      AppendEachLength(doc + pages(parts[0]).value, parts[1..], pages);
    }
  }

  lemma {:induction false} AppendEachSplit(doc: seq<Page>, a: seq<Part>, b: seq<Part>, pages: Part -> Result<seq<Page>, Fatal>)
    ensures AppendEach(doc, a + b, pages) ==
            match AppendEach(doc, a, pages)
            case Failure(e) => Failure(e)
            case Success(mid) => AppendEach(mid, b, pages)
    decreases |a|
  {
    if |a| == 0 {
      assert a + b == b;
    } else {
      assert (a + b)[0] == a[0];
      assert (a + b)[1..] == a[1..] + b;
      match pages(a[0])
      case Failure(_) =>
      case Success(added) =>
        AppendEachSplit(doc + added, a[1..], b, pages);
    }
  }

  /** The per-part step of the dispatch loop. */
  function Dispatch(libs: Libraries): Part -> Result<seq<Page>, Fatal> {
    p => AttachmentPages(p, libs)
  }

  /** Where every part succeeds, counting appended pages agrees with the
      count stated from the types. */
  lemma {:induction false} AppendedIsTotal(parts: seq<Part>, libs: Libraries)
    ensures (forall i :: 0 <= i < |parts| ==> AttachmentPages(parts[i], libs).Success?)
            ==> Appended(parts, Dispatch(libs)) == TotalPagesAdded(parts, libs)
    decreases |parts|
  {
    if |parts| > 0 && forall i :: 0 <= i < |parts| ==> AttachmentPages(parts[i], libs).Success? {
      assert forall i :: 0 <= i < |parts| - 1 ==> parts[1..][i] == parts[i + 1];
      AppendedIsTotal(parts[1..], libs);
      PagesAddedCounts(parts[0], libs);
    }
  }

  lemma AppendedIsTotalPrefix(parts: seq<Part>, i: nat, libs: Libraries)
    requires i <= |parts|
    ensures (forall j :: 0 <= j < |parts| ==> AttachmentPages(parts[j], libs).Success?)
            ==> Appended(parts[..i], Dispatch(libs)) == TotalPagesAdded(parts[..i], libs)
  {
    if forall j :: 0 <= j < |parts| ==> AttachmentPages(parts[j], libs).Success? {
      assert forall j :: 0 <= j < i ==> parts[..i][j] == parts[j];
      AppendedIsTotal(parts[..i], libs);
    }
  }

  /** The dispatch loop of `eml_to_pdf`: each part's pages are appended to the
      writer's pages in walk order. */
  function AppendAttachments(doc: seq<Page>, parts: seq<Part>, libs: Libraries): (r: Result<seq<Page>, Fatal>)
    ensures r.Success? <==> forall i :: 0 <= i < |parts| ==> AttachmentPages(parts[i], libs).Success?
    ensures r.Success? ==> doc <= r.value
    ensures r.Success? ==> |r.value| == |doc| + TotalPagesAdded(parts, libs)
  {
    AppendEachLength(doc, parts, Dispatch(libs));
    AppendedIsTotal(parts, libs);
    AppendEach(doc, parts, Dispatch(libs))
  }

  /** Each part's own pages, in walk order: the pages of `parts[i]` sit right
      after `doc` and the pages of `parts[..i]`. */
  lemma AppendAttachmentsPlacesPart(doc: seq<Page>, parts: seq<Part>, i: nat, libs: Libraries)
    requires i < |parts|
    ensures AppendAttachments(doc, parts, libs).Success? ==>
              && AttachmentPages(parts[i], libs).Success?
              && PlacedAt(AppendAttachments(doc, parts, libs).value, |doc| + TotalPagesAdded(parts[..i], libs),
                          AttachmentPages(parts[i], libs).value)
  {
    var pages := Dispatch(libs);
    assert AppendAttachments(doc, parts, libs) == AppendEach(doc, parts, pages);
    if AppendEach(doc, parts, pages).Success? {
      AppendEachPlaces(doc, parts, i, pages);
      assert pages(parts[i]) == AttachmentPages(parts[i], libs);
      AppendedIsTotalPrefix(parts, i, libs);
    }
  }

  /** Dispatching a concatenation of part lists dispatches the first list, then the second. */
  lemma AppendAttachmentsSplit(doc: seq<Page>, a: seq<Part>, b: seq<Part>, libs: Libraries)
    ensures AppendAttachments(doc, a + b, libs) ==
            match AppendAttachments(doc, a, libs)
            case Failure(e) => Failure(e)
            case Success(mid) => AppendAttachments(mid, b, libs)
  {
    AppendEachSplit(doc, a, b, Dispatch(libs));
  }

  /** A part of an unsupported type, or one not marked as an attachment,
      changes nothing. */
  lemma UnsupportedAddsNothing(doc: seq<Page>, parts: seq<Part>, p: Part, libs: Libraries)
    requires Classify(p) == Skipped
    ensures AppendAttachments(doc, parts + [p], libs) == AppendAttachments(doc, parts, libs)
  {
    AppendAttachmentsSplit(doc, parts, [p], libs);
    match AppendAttachments(doc, parts, libs)
    case Failure(_) =>
    case Success(mid) =>
      assert Dispatch(libs)(p) == Success([]);
      assert [p][1..] == [];
      assert AppendEach(mid, [p], Dispatch(libs)) == AppendEach(mid + [], [], Dispatch(libs));
      assert mid + [] == mid;
  }

  /** The paragraphs handed to the renderer: the header lines, then the body lines. */
  function Story(msg: Message, decode: Decoder): (r: Result<seq<string>, Fatal>)
    ensures r.Success? <==> ParseHeaders(msg.headers, decode).Success?
                            && ParseBody(msg.root, ParseHeaders(msg.headers, decode).value.encoding, decode).Success?
    ensures r.Success? ==>
              r.value == ParseHeaders(msg.headers, decode).value.paragraphs
                         + ParseBody(msg.root, ParseHeaders(msg.headers, decode).value.encoding, decode).value
  {
    var headers :- ParseHeaders(msg.headers, decode);
    var body :- ParseBody(msg.root, headers.encoding, decode);
    Success(headers.paragraphs + body)
  }

  /** The rendered pages of a story. */
  function BasePages(count: nat): (r: seq<Page>)
    ensures |r| == count
    ensures forall i :: 0 <= i < count ==> r[i] == Rendered(i)
  {
    seq(count, i requires 0 <= i => Rendered(i))
  }

  /** The last step of `eml_to_pdf`: the rendered story's pages, then every
      walked part's pages; a story that failed aborts. */
  function Assemble(story: Result<seq<string>, Fatal>, parts: seq<Part>, libs: Libraries): (r: Result<seq<Page>, Fatal>)
    ensures r.Success? <==> story.Success? && forall i :: 0 <= i < |parts| ==> AttachmentPages(parts[i], libs).Success?
    ensures r.Success? ==>
              && |r.value| == libs.render(story.value) + TotalPagesAdded(parts, libs)
              && forall i :: 0 <= i < libs.render(story.value) ==> r.value[i] == Rendered(i)
  {
    match story
    case Failure(e) => Failure(e)
    case Success(text) => AppendAttachments(BasePages(libs.render(text)), parts, libs)
  }

  /** After the rendered story, each part's own pages follow in order. */
  lemma AssemblePlacesPart(story: Result<seq<string>, Fatal>, parts: seq<Part>, i: nat, libs: Libraries)
    requires i < |parts|
    ensures Assemble(story, parts, libs).Success? ==>
              && AttachmentPages(parts[i], libs).Success?
              && PlacedAt(Assemble(story, parts, libs).value,
                          libs.render(story.value) + TotalPagesAdded(parts[..i], libs),
                          AttachmentPages(parts[i], libs).value)
  {
    if story.Success? {
      var base := BasePages(libs.render(story.value));
      assert Assemble(story, parts, libs) == AppendAttachments(base, parts, libs);
      AppendAttachmentsPlacesPart(base, parts, i, libs);
    }
  }

  /** `eml_to_pdf`, up to serialising the pages. */
  function EmlToPdf(msg: Message, libs: Libraries): (r: Result<seq<Page>, Fatal>)
    ensures r.Success? <==> Story(msg, libs.decode).Success?
                            && forall p :: p in Walk(msg.root) ==> AttachmentPages(p, libs).Success?
    ensures r.Success? ==>
              var base := libs.render(Story(msg, libs.decode).value);
              && |r.value| == base + TotalPagesAdded(Walk(msg.root), libs)
              && forall i :: 0 <= i < base ==> r.value[i] == Rendered(i)
  {
    var parts := Walk(msg.root);
    assert (forall p :: p in parts ==> AttachmentPages(p, libs).Success?)
           <==> (forall i :: 0 <= i < |parts| ==> AttachmentPages(parts[i], libs).Success?);
    Assemble(Story(msg, libs.decode), parts, libs)
  }

  /** After the rendered story, each walked part's own pages follow in walk
      order: a PDF's pages, an image's one centred page. */
  lemma EmlToPdfPlacesPart(msg: Message, libs: Libraries, i: nat)
    requires i < |Walk(msg.root)|
    ensures EmlToPdf(msg, libs).Success? ==>
              && AttachmentPages(Walk(msg.root)[i], libs).Success?
              && PlacedAt(EmlToPdf(msg, libs).value,
                          libs.render(Story(msg, libs.decode).value) + TotalPagesAdded(Walk(msg.root)[..i], libs),
                          AttachmentPages(Walk(msg.root)[i], libs).value)
  {
    AssemblePlacesPart(Story(msg, libs.decode), Walk(msg.root), i, libs);
  }
}
