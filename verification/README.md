# pdf-converter: the email-to-PDF decisions, in Dafny

This project models the decision logic of the email-to-PDF path of
pdf-converter (`py/pdf_converter/utils/process_eml.py`). That path takes a
parsed email message and builds a PDF from it:

- the four header lines Subject, From, To and Date;
- the plain-text body, one paragraph per line;
- every page of each attached PDF;
- one centred page for each attached JPEG or PNG image.

Parsing, rendering, PDF and image handling belong to libraries. The model
keeps what the module itself decides and proves properties of it.

Modules, in dependency order:

- `Wrappers` (`wrappers.dfy`): `Option` for Python's value-or-`None`. `Result` for a value or an uncaught exception.
- `Codec` (`codec.dfy`): `decode_payload`. It builds the candidate-encoding list and takes the first decode that succeeds. Byte decoding is an abstract `Decoder` with three outcomes: `Decoded(text)`, `Malformed` (UnicodeDecodeError, which is caught) and `UnknownCodec` (LookupError, which is not caught). The `Fatal` datatype lists the errors that abort the conversion.
- `Mime` (`mime.dfy`): the parsed message that is the input. A message is a tree of parts, and `Walk` gives the order `walk()` visits them. Header fields are stored as the segment lists the RFC 2047 decoder returns. `Lookup` behaves like `message[name]`: it finds the first field with that name, ignoring case.
- `Headers` (`headers.dfy`): `decode_headers` folds one value's segments into text and an encoding. `parse_headers` builds the four paragraphs, cleans up From/To addresses and picks the single common encoding.
- `Body` (`body.dfy`): `parse_body` joins the decoded `text/plain` parts in walk order and splits the result at each `'\n'`.
- `Compose` (`compose.dfy`): `eml_to_pdf`. It classifies each walked part as PDF, image or skipped, appends pages, and centres images with exact `real` arithmetic. The libraries it calls are fields of a `Libraries` value: the codecs, the renderer's page count, the PDF reader's page count and the image size.

How the source behaves where that is easy to misread:

- A header lookup that finds nothing hands `None` to `decode_header`, and that raises. So a message missing any of Subject, From, To or Date aborts (`MissingHeader`).
- `encoding or "utf-8"` applies Python truthiness: an empty charset also means UTF-8 (`CodecName`). `decode_payload`, however, tests the hint with `is not None`, so an empty hint is still put first, and a codec name nobody knows aborts the conversion.
- An uncaught header decode error aborts the conversion. So does asking a multipart container for its payload (`get_payload(decode=True)` is `None`).
- Two more aborts sit in the libraries and are outside the model (see "Left out"): reportlab's `Paragraph` raises on text that is not valid paragraph markup, and `decode_header` raises on a malformed base64 encoded-word.
- The candidate list always contains latin-1, which maps every byte to a character. Against a real codec library, "no decoding succeeded" therefore never happens (`LatinOneMakesDecodeTotal`). A payload in an encoding outside the list is not reported as undecodable: it decodes with the first fallback that accepts it, utf-8, else windows-1252, at the latest latin-1.
- A hint that is already in the fallback list is not skipped. It is moved to the front, and its earlier place is removed.

## Model

| member | source | states |
|---|---|---|
| `Codec.Candidates` | py/pdf_converter/utils/process_eml.py:15-19 | With no hint the list is exactly the five fallbacks in order. With a hint, the hint comes first, followed by the fallbacks without it in their original order. The list has no duplicates, contains every fallback, and has length 5 if the hint was a fallback and 6 otherwise. |
| `Codec.RemoveFirstIsWithout` | py/pdf_converter/utils/process_eml.py:17-18 | On a duplicate-free list, `list.remove` (modelled by `RemoveFirst`, which drops the first occurrence) equals the filter `Without`: it drops every occurrence of the value and keeps the order of the rest. |
| `Codec.TryEach` | py/pdf_converter/utils/process_eml.py:21-29 | The result is `None` exactly when every candidate raises UnicodeDecodeError. Otherwise the first candidate that does not raise it decides the result: its text if it decodes, an abort naming it if it is an unknown codec. |
| `Codec.DecodePayload` | py/pdf_converter/utils/process_eml.py:13-29 | First-success semantics over the candidate list. A hint that decodes gives its own decode. A multipart payload aborts. |
| `Codec.LatinOneMakesDecodeTotal` | py/pdf_converter/utils/process_eml.py:15-29 | If latin-1 decodes the bytes, `decode_payload` never reports that no decoding succeeded, whatever the hint. |
| `Mime.MainType` | py/pdf_converter/utils/process_eml.py:152 | The main type is the longest prefix of the content type that has no '/' and ends just before the first '/'. |
| `Mime.Lookup` | py/pdf_converter/utils/process_eml.py:74 | `message[field]` is `None` exactly when no field has that name, ignoring case. Otherwise it is the value of the first field that has the name. |
| `Mime.LookupOrderIndependent` | py/pdf_converter/utils/process_eml.py:74 | When a name occurs at most once, reordering the header fields does not change what a lookup finds. |
| `Headers.CodecName` | py/pdf_converter/utils/process_eml.py:39 | A non-empty charset is used as given. A missing or empty charset falls back to UTF-8. |
| `Headers.DecodeSegment` | py/pdf_converter/utils/process_eml.py:37-43 | Text segments pass through unchanged. A bytes segment gives the codec's text, or aborts when the codec fails. |
| `Headers.DecodeHeaders` | py/pdf_converter/utils/process_eml.py:32-46 | Decoding a header succeeds exactly when every segment decodes. |
| `Headers.DecodeHeadersEncoding` | py/pdf_converter/utils/process_eml.py:36-40 | The reported encoding is the charset of the last bytes segment, whatever earlier segments carried. It is `None` when there is no bytes segment. |
| `Headers.DecodeHeadersAppend` | py/pdf_converter/utils/process_eml.py:34-46 | Decoding a concatenation of segment lists concatenates the texts in order. The encoding is the second list's, unless that list has only text segments. |
| `Headers.DecodeSingleSegment` | py/pdf_converter/utils/process_eml.py:36-43 | A single segment decodes to its own text and reports its own charset, or `None` for a text segment. |
| `Headers.FoldEncoding` | py/pdf_converter/utils/process_eml.py:36-40 | After the loop, the encoding is the charset of the last bytes segment, or `None` if every segment was text. |
| `Headers.FoldAppend` | py/pdf_converter/utils/process_eml.py:34-46 | Folding a concatenation gives the two texts in order. The encoding is the second part's unless that part has only text segments. |
| `Headers.LastBytesSegmentWins` | py/pdf_converter/utils/process_eml.py:40 | An illustrative instance of the last-bytes-segment rule: a utf-8 encoded-word followed by bytes that have no charset reports `None`. |
| `Headers.StripBrackets` | py/pdf_converter/utils/process_eml.py:79 | The result contains no '<' or '>'. A value without brackets is returned unchanged. |
| `Headers.StripBracketsCounts` | py/pdf_converter/utils/process_eml.py:79 | Every other character keeps its number of occurrences. The length drops by exactly the number of brackets. |
| `Headers.StripBracketsAppend` | py/pdf_converter/utils/process_eml.py:79 | Stripping works character by character (it distributes over concatenation), so the remaining characters keep their order. |
| `Headers.NormaliseAddress` | py/pdf_converter/utils/process_eml.py:78-79 | Only From/To values that contain '<', '>' and '@' change. They become the value with its brackets filtered out, every other character kept in order. |
| `Headers.NormaliseIdempotent` | py/pdf_converter/utils/process_eml.py:78-79 | Normalising twice gives the same result as normalising once. |
| `Headers.CommonEncoding` | py/pdf_converter/utils/process_eml.py:83-87 | The result is `e` only when the set of collected encodings is exactly `{e}`. It is `None` when that set is empty or has two or more members. |
| `Headers.DecodeField` | py/pdf_converter/utils/process_eml.py:74 | A missing field aborts with `MissingHeader`. A present field is decoded from the segments of its first occurrence. |
| `Headers.FieldParagraph` | py/pdf_converter/utils/process_eml.py:81 | Every header paragraph starts with the field name followed by ": ". |
| `Headers.MapFields` | py/pdf_converter/utils/process_eml.py:73-74 | One result per field, in order, each the field's own decode. The step fails exactly when some field fails. |
| `Headers.DecodeFields` | py/pdf_converter/utils/process_eml.py:73-74 | The fields are decoded in the given order, one result per field. The whole step fails when any field fails. |
| `Headers.KnownEncodings` | py/pdf_converter/utils/process_eml.py:75-76 | The collected list holds exactly the encodings that are not `None`. |
| `Headers.ReportedEncodingsOfFields` | py/pdf_converter/utils/process_eml.py:73-76 | The encodings the loop collects are exactly the non-`None` encodings the four fields report when each is decoded on its own. |
| `Headers.ParseHeaders` | py/pdf_converter/utils/process_eml.py:69-87 | There are always four paragraphs, Subject, From, To, Date, each "Field: " followed by the normalised value. The encoding is `e` only when the fields' set of non-`None` encodings is `{e}`. The result fails exactly when a field is missing or undecodable. |
| `Headers.ParseHeadersDependsOnFields` | py/pdf_converter/utils/process_eml.py:72-74 | The header block depends only on what the four fields look up to. |
| `Headers.ParseHeadersOrderIndependent` | py/pdf_converter/utils/process_eml.py:72-81 | Reordering the header fields leaves the header block unchanged, provided none of the four fields is repeated. |
| `Body.Split` | py/pdf_converter/utils/process_eml.py:64 | Splitting always yields at least one paragraph. |
| `Body.SplitProperties` | py/pdf_converter/utils/process_eml.py:64 | The paragraph count is the number of '\n' plus one. No paragraph contains '\n'. Joining the paragraphs with '\n' gives the text back. |
| `Body.SplitJoin` | py/pdf_converter/utils/process_eml.py:64 | Splitting the '\n'-join of newline-free lines gives those lines back. |
| `Body.PartText` | py/pdf_converter/utils/process_eml.py:54-57 | A part adds its decode only if its content type is exactly `text/plain`. A part whose decode fails adds "". A fatal decode error aborts. |
| `Body.Concat` | py/pdf_converter/utils/process_eml.py:53-57 | The loop succeeds exactly when every part's text succeeds. |
| `Body.ConcatAppend` | py/pdf_converter/utils/process_eml.py:53-57 | The body of a concatenation of part lists is the first list's body followed by the second's. |
| `Body.PlainText` | py/pdf_converter/utils/process_eml.py:52-57 | The multipart body succeeds exactly when every walked part's text succeeds. |
| `Body.PlainTextAppend` | py/pdf_converter/utils/process_eml.py:53-57 | The texts of walked parts are concatenated in walk order. |
| `Body.PlainTextSingle` | py/pdf_converter/utils/process_eml.py:53-57 | One walked part contributes exactly its own text. |
| `Body.BodyText` | py/pdf_converter/utils/process_eml.py:51-62 | A multipart message's body is the walk's plain text. A single-part message's body is its decode, or "" when nothing decodes. |
| `Body.ParseBody` | py/pdf_converter/utils/process_eml.py:49-66 | There is one paragraph per '\n' plus one. The paragraphs hold no newline, and joining them gives back the body text. |
| `Compose.Classify` | py/pdf_converter/utils/process_eml.py:151-160 | A part counts as a PDF exactly when it is non-multipart, has a Content-Disposition and has type `application/pdf`. It counts as an image exactly when it meets the first two conditions and has type `image/jpeg`, `image/jpg` or `image/png`. Every other part is skipped. |
| `Compose.CentreOffset` | py/pdf_converter/utils/process_eml.py:116-117 | Twice the offset plus the image size equals the page size. The offset is negative exactly when the image is larger than the page. |
| `Compose.AddAttachment` | py/pdf_converter/utils/process_eml.py:101-106 | The attachment appends exactly as many pages as it has, page i of the attachment in position i. |
| `Compose.AddImage` | py/pdf_converter/utils/process_eml.py:109-125 | An image adds one page, placed at the image's size and centred on both axes of the letter page. |
| `Compose.AttachmentPages` | py/pdf_converter/utils/process_eml.py:151-160 | A skipped part appends nothing. A PDF leaf appends exactly `AddAttachment`'s pages of its bytes, and an image leaf appends exactly the one `AddImage` page. A PDF or image type aborts only on a container that has no bytes. |
| `Compose.AppendAttachments` | py/pdf_converter/utils/process_eml.py:151-160 | The existing pages stay a prefix. The final count is the existing count plus each part's pages: all of a PDF's pages, one per image, none otherwise. |
| `Compose.PagesAddedCounts` | py/pdf_converter/utils/process_eml.py:151-160 | The page count stated from a part's type alone (all of a PDF's pages, one per image, none otherwise) is the number of pages the part actually appends. |
| `Compose.AppendEachPlaces` | py/pdf_converter/utils/process_eml.py:151-160 | In the dispatch loop, the pages of the i-th part sit immediately after the existing pages and the pages of every earlier part. |
| `Compose.AppendAttachmentsPlacesPart` | py/pdf_converter/utils/process_eml.py:151-160 | After a successful dispatch, the i-th part's own pages occupy the slice that starts after the existing pages plus the type-stated page count of the parts before it. |
| `Compose.AppendAttachmentsSplit` | py/pdf_converter/utils/process_eml.py:151-160 | Dispatching two part lists in a row is the same as dispatching their concatenation. |
| `Compose.UnsupportedAddsNothing` | py/pdf_converter/utils/process_eml.py:151-160 | A part that is not a PDF or image attachment leaves the output unchanged. |
| `Compose.Story` | py/pdf_converter/utils/process_eml.py:134-139 | The story is the header paragraphs followed by the body paragraphs. The body is decoded with the header-derived encoding. |
| `Compose.BasePages` | py/pdf_converter/utils/process_eml.py:90-98 | The writer starts with every rendered page, in order. |
| `Compose.Assemble` | py/pdf_converter/utils/process_eml.py:139-160 | The output starts with the rendered story's pages and has that many pages plus each part's type-stated count. It fails exactly when the story fails or some PDF or image part is a container. |
| `Compose.AssemblePlacesPart` | py/pdf_converter/utils/process_eml.py:139-160 | After the rendered story, the i-th part's own pages follow at the offset given by the parts before it. |
| `Compose.EmlToPdf` | py/pdf_converter/utils/process_eml.py:128-167 | The output has the rendered story's page count plus every walked part's pages, and starts with the rendered pages. It fails exactly when the story fails or some attachment has no bytes. |
| `Compose.EmlToPdfPlacesPart` | py/pdf_converter/utils/process_eml.py:128-167 | After the rendered story, each walked part's own pages follow in walk order: all pages of a PDF in order, or the one centred page of an image. |

## Left out

- RFC 2047 encoded-word decoding (section 2 of RFC 2047), MIME parsing and the character codecs belong to Python's `email` package and codec library. The model takes their results as input: segment lists, a part tree with normalised content types, and an abstract `Decoder`.
- Header names compare case-insensitively over ASCII letters only. Python's `str.lower` also folds other letters, but header names are ASCII.
- `Paragraph(...)` (process_eml.py lines 64 and 81) raises ValueError on text that is not valid reportlab markup, such as a Subject containing an unclosed `<b>`. `decode_header` raises HeaderParseError on a malformed base64 encoded-word such as `=?utf-8?b?abcde?=`. The model renders every story and takes segment lists as given, so `ParseHeaders`, `ParseBody`, `Story`, `Assemble` and `EmlToPdf` never fail for these reasons. Their "fails exactly when" clauses hold of the model only up to these two library aborts.
- reportlab layout and rendering are left out. The renderer is a function from the story to a page count of at least one. Paragraph markup and the page content are not modelled.
- PyPDF4 reading, merging and serialising to bytes are left out. The output is the list of pages, each recording where it came from.
- PIL decoding and PDF conversion are left out. Only the image's pixel size is an input. The image is taken as the single page PIL writes.
- Malformed PDF or image attachments make the libraries raise, and the model does not cover that. The page count and image size are total functions.
- The page size is fixed at US Letter (612 by 792 points), the size reportlab's `letter` gives the first rendered page.
- `py/cli.py` (file I/O and command wiring) and `py/pdf_converter/utils/process_txt.py` (UTF-8 decode and rendering) are not part of this model. The newline split the text converter shares is covered by `Body.Split`.
