# reMarkable notebook export, modelled in Dafny

This project models the core of remarkable-console, a Java tool that pulls
notebooks off a reMarkable tablet's cloud storage and exports every page as
an SVG drawing. The model covers these parts of the chain:

- **Decoding.** A downloaded archive is read: its `.content`, `.pagedata` and
  `.rm` entries become a notebook. Each `.rm` page blob is decoded from the
  device's `.lines` format: a printable header line, then little-endian layer,
  stroke and segment records.
- **Code tables.** Pencil, colour and document-type codes are resolved.
- **Rendering.** Each page is drawn as SVG polylines. Highlighter strokes are
  drawn first, under everything else. The page is upright for "portrait"
  notebooks and turned 90 degrees otherwise.
- **Merging.** The page is merged into its template: the template's black
  grid is recoloured, its title is set, and the page goes on top.
- **Naming.** The export file names and the download paths are built from the
  notebook's folders, its name and the zero-padded page number.
- **Lookups.** The manager looks up metadata and notebooks, walks the parent
  chain of a record and keeps only the documents.

Modules, in dependency order:

| module | models |
|---|---|
| `Wrappers` | Option (Java null), the first-match search loop |
| `Text` | String.replace, trim, starts/ends-with |
| `Decimal` | Integer.parseInt, Integer.toString, the `%03d` format, Integer.decode of one digit |
| `Codes` | PencilType, StrokeColor, Type |
| `Ink` | Segment, Stroke, Java float bits and int arithmetic in hashCode |
| `PageFormat` | the `.lines` decoder as a function, with an encoder used to state round trips |
| `ContentModel` | content.Layer, content.Page (the decoding constructor as loops over the byte array), Content |
| `SvgDocument` | SvgDocument: the SVG written as a sequence of records |
| `SvgMerger` | SvgMerger on a value tree of DOM nodes |
| `ExportPaths` | Util.createFolderStructure, getFilename, createSvg |
| `NotebookModel` | notebook.Layer, notebook.Notebook |
| `RemarkableManager` | RemarkableManager: lookups, getDocuments, the parent chain, the download path, readNotebook |

Java semantics that are modelled explicitly:

- Bytes are unsigned 0..255. Java's signed test `b >= 32` is the range 32..127.
- Floats are kept as their raw 32-bit words. `Float.floatToIntBits` maps every
  NaN to one canonical pattern, so two segments that differ only in their NaN
  payload are equal.
- `int` arithmetic in the hashCode methods wraps modulo 2^32.
- Integer division truncates toward zero.
- Java `null` is `None`. An exception that the code catches, or that ends an
  operation the model follows through (a malformed page, a missing notebook
  in readNotebook), is a `None` result or a `false` success flag. An
  exception that comes from state the caller must have set up (the metadata
  list read, a type set, an orientation present) is a precondition instead.
  "## Left out" names each such member and the exception it stands for.

## Model

| member | source | states |
|---|---|---|
| Wrappers.FirstIndex | src/main/java/org/rogatio/productivity/remarkable/RemarkableManager.java:146-153 | the search loops return the first index whose element passes the test: every earlier element fails it, and there is no index exactly when every element fails |
| Wrappers.FirstIndexAt | src/main/java/org/rogatio/productivity/remarkable/RemarkableManager.java:147-151 | a loop that stops at the first passing index stops where FirstIndex says |
| Wrappers.FirstIndexAppend | src/main/java/org/rogatio/productivity/remarkable/model/content/Content.java:178-195 | appending an element changes the first match only when no earlier element passed the test |
| Codes.OpacityPercent | src/main/java/org/rogatio/productivity/remarkable/model/notebook/PencilType.java:26-44 | the opacity in percent is at most 100; it is below 100 exactly for highlighter (20), marker (90) and eraser, and 0 exactly for the eraser |
| Codes.FindPencil | src/main/java/org/rogatio/productivity/remarkable/model/notebook/PencilType.java:74-83 | the loop over the values returns a listed type carrying the code, or null when no listed type carries it |
| Codes.GetPencil | src/main/java/org/rogatio/productivity/remarkable/model/notebook/PencilType.java:74-83 | PencilType.get returns the type with this code, or null when no type has it |
| Codes.PencilRoundTrip | src/main/java/org/rogatio/productivity/remarkable/model/notebook/PencilType.java:26-44 | each pencil type is found again from its own code, so the nine codes are distinct |
| Codes.PencilCodes | src/main/java/org/rogatio/productivity/remarkable/model/notebook/PencilType.java:26-44 | a code is known exactly when it is one of 6, 12, 13, 14, 15, 16, 17, 18, 21 |
| Codes.FindColor | src/main/java/org/rogatio/productivity/remarkable/model/notebook/StrokeColor.java:62-71 | the loop over the colours returns a listed colour carrying the code, or null when none carries it |
| Codes.ColorCodes | src/main/java/org/rogatio/productivity/remarkable/model/notebook/StrokeColor.java:28-37 | StrokeColor.get knows a code exactly when it is 0..3 |
| Codes.TypeString | src/main/java/org/rogatio/productivity/remarkable/model/notebook/Type.java:29-31 | the type string is the display word followed by "Type" |
| Codes.FindType | src/main/java/org/rogatio/productivity/remarkable/model/notebook/Type.java:33-42 | the loop over the types returns a listed type whose string equals the argument, or null |
| Codes.TypeStrings | src/main/java/org/rogatio/productivity/remarkable/model/notebook/Type.java:22-42 | Type.get gives DOCUMENT exactly for "DocumentType", COLLECTION exactly for "CollectionType", and null for every other string |
| Codes.ColorRoundTrip | src/main/java/org/rogatio/productivity/remarkable/model/notebook/StrokeColor.java:28-37 | each stroke colour is found again from its own code |
| Codes.TypeRoundTrip | src/main/java/org/rogatio/productivity/remarkable/model/notebook/Type.java:22-42 | each document type is found again from its type string |
| Decimal.ParseInt | src/main/java/org/rogatio/productivity/remarkable/RemarkableManager.java:271 | Integer.parseInt succeeds only with a value in the int range |
| Decimal.IntTextRoundTrip | src/main/java/org/rogatio/productivity/remarkable/RemarkableManager.java:269-271 | Integer.parseInt reads back the decimal text of every int |
| Decimal.Format03 | src/main/java/org/rogatio/productivity/remarkable/io/file/Util.java:180 | String.format("%03d") pads a non-negative number to three digits with zeros, and a negative one to two digits after the minus sign |
| Decimal.Format03RoundTrip | src/main/java/org/rogatio/productivity/remarkable/io/file/Util.java:180 | the %03d text of an int parses back to the same int, so the width never truncates |
| Decimal.Format03Shape | src/main/java/org/rogatio/productivity/remarkable/io/file/Util.java:180 | a non-negative number keeps all its digits, at the end of a text at least three characters long |
| Decimal.DecodeChar | src/main/java/org/rogatio/productivity/remarkable/model/content/Page.java:156 | Integer.decode of one character succeeds exactly on a digit and gives its value |
| Decimal.IntText | src/main/java/org/rogatio/productivity/remarkable/RemarkableManager.java:269 | the decimal text of an int is never empty and starts with a minus sign exactly when the number is negative |
| Text.ReplaceAbsent | src/main/java/org/rogatio/productivity/remarkable/RemarkableManager.java:269 | String.replace leaves text without the target unchanged |
| Text.ReplaceAtStart | src/main/java/org/rogatio/productivity/remarkable/RemarkableManager.java:269 | String.replace replaces an occurrence at the start and carries on after it |
| Text.ReplaceSkipsPrefix | src/main/java/org/rogatio/productivity/remarkable/RemarkableManager.java:269 | String.replace copies a prefix where no occurrence starts |
| Text.Trim | src/main/java/org/rogatio/productivity/remarkable/model/content/Page.java:152 | String.trim drops the characters up to the space at both ends and keeps the middle as it is |
| Ink.FloatToIntBits | src/main/java/org/rogatio/productivity/remarkable/model/content/Segment.java:165-178 | every NaN maps to the single canonical pattern, and every other pattern is unchanged |
| Ink.WrapInt | src/main/java/org/rogatio/productivity/remarkable/model/content/Segment.java:137-148 | Java int arithmetic: the result is in the int range and congruent to the exact value modulo 2^32 |
| Ink.SegmentEqualsIsEquivalence | src/main/java/org/rogatio/productivity/remarkable/model/content/Segment.java:156-180 | Segment.equals is reflexive (NaN fields included), symmetric and transitive; it is false for null and for another class |
| Ink.NaNPayloadsCompareEqual | src/main/java/org/rogatio/productivity/remarkable/model/content/Segment.java:165-166 | two segments that differ only in the NaN payload of a field are equal |
| Ink.SegmentHashAgrees | src/main/java/org/rogatio/productivity/remarkable/model/content/Segment.java:137-180 | equal segments have equal hash codes |
| Ink.StrokePencil | src/main/java/org/rogatio/productivity/remarkable/model/content/Stroke.java:74-76 | getPencilType gives the table entry of the stroke's pencil code, or null when no type has the code |
| Ink.StrokeColorOf | src/main/java/org/rogatio/productivity/remarkable/model/content/Stroke.java:83-85 | getStrokeColor is defined exactly for codes 0..3 and gives the colour with that code |
| Ink.FirstSegment | src/main/java/org/rogatio/productivity/remarkable/model/content/Stroke.java:101-103 | getFirstSegment returns the first segment, segments.get(0); the stroke must have one |
| Ink.SegmentsHashAgrees | src/main/java/org/rogatio/productivity/remarkable/model/content/Stroke.java:114-120 | segment lists that are equal element by element hash alike |
| Ink.StrokeEqualityIgnoresCodes | src/main/java/org/rogatio/productivity/remarkable/model/content/Stroke.java:114-137 | Stroke.equals and hashCode look only at the segments: number, pencil, colour and pen width make no difference |
| Ink.StrokeHashAgrees | src/main/java/org/rogatio/productivity/remarkable/model/content/Stroke.java:114-137 | equal strokes have equal hash codes |
| Ink.StrokesHashAgrees | src/main/java/org/rogatio/productivity/remarkable/model/content/Layer.java:79-86 | stroke lists that are equal element by element hash alike |
| Ink.Signed | src/main/java/org/rogatio/productivity/remarkable/model/content/Page.java:224-228 | a 4-byte word read as a Java int lies in the int range |
| PageFormat.HeaderEnd | src/main/java/org/rogatio/productivity/remarkable/model/content/Page.java:84-97 | the header is the run of printable bytes (32..127 as signed Java bytes) before the first other byte, at most 100 bytes; with no such byte in a shorter input the scan runs off the array and fails |
| PageFormat.HeaderText | src/main/java/org/rogatio/productivity/remarkable/model/content/Page.java:152 | new String(bytes) on the header makes one character per byte |
| PageFormat.HeaderVersion | src/main/java/org/rogatio/productivity/remarkable/model/content/Page.java:147-165 | the version is a digit 0..9, and it is non-zero only when the trimmed header starts with the fixed header text |
| PageFormat.SegmentsFrom | src/main/java/org/rogatio/productivity/remarkable/model/content/Page.java:232-243 | the segment loop reads six little-endian floats per segment and its cursor never leaves the buffer |
| PageFormat.StrokesFrom | src/main/java/org/rogatio/productivity/remarkable/model/content/Page.java:223-247 | the stroke loop reads six header fields, then that stroke's segments, and its cursor never leaves the buffer |
| PageFormat.LayersFrom | src/main/java/org/rogatio/productivity/remarkable/model/content/Page.java:217-250 | the layer loop reads a stroke count, then that layer's strokes, and its cursor never leaves the buffer |
| PageFormat.DecodePayload | src/main/java/org/rogatio/productivity/remarkable/model/content/Page.java:211-251 | a decoded payload carries the constructor's page number and the header's version, and holds at least the four bytes of the layer count |
| PageFormat.DecodePage | src/main/java/org/rogatio/productivity/remarkable/model/content/Page.java:206-252 | a decoded page has the given number and a version 0..9; decoding needs a header and four more bytes after it |
| PageFormat.SegmentsFromShape | src/main/java/org/rogatio/productivity/remarkable/model/content/Page.java:232-243 | the segment loop returns one segment per iteration, numbered 1, 2, ... |
| PageFormat.StrokesFromShape | src/main/java/org/rogatio/productivity/remarkable/model/content/Page.java:223-247 | the stroke loop returns one stroke per iteration, numbered 1, 2, ... |
| PageFormat.LayersFromShape | src/main/java/org/rogatio/productivity/remarkable/model/content/Page.java:219-250 | the layer loop returns one layer per iteration, numbered 1, 2, ... |
| PageFormat.DecodedPageShape | src/main/java/org/rogatio/productivity/remarkable/model/content/Page.java:217-250 | a decoded page has as many layers as its layer count says (none for a count below 1), numbered 1, 2, ... |
| PageFormat.HeaderCut | src/main/java/org/rogatio/productivity/remarkable/model/content/Page.java:211-213 | once the header end is known, the page decodes as the bytes after the header do |
| PageFormat.PayloadIgnoresJunk | src/main/java/org/rogatio/productivity/remarkable/model/content/Page.java:213-250 | bytes after the last layer record do not change the decoded payload |
| PageFormat.TrailingBytesIgnored | src/main/java/org/rogatio/productivity/remarkable/model/content/Page.java:206-252 | appending bytes to a decodable page does not change what it decodes to |
| PageFormat.HeaderVersionRoundTrip | src/main/java/org/rogatio/productivity/remarkable/model/content/Page.java:147-165 | the version digit of a header line written in the device format is read back |
| PageFormat.DecodeEncodedPage | src/main/java/org/rogatio/productivity/remarkable/model/content/Page.java:206-252 | a page written in the device format decodes back to the same page, whatever bytes follow it |
| PageFormat.PrintableInputFails | src/main/java/org/rogatio/productivity/remarkable/model/content/Page.java:84-92 | an input shorter than 100 bytes and printable throughout fails to decode |
| PageFormat.TruncatedPageFails | src/main/java/org/rogatio/productivity/remarkable/model/content/Page.java:206-252 | every strict prefix of an encoded page fails to decode |
| PageFormat.HeaderLine | src/main/java/org/rogatio/productivity/remarkable/model/content/Page.java:43 | the device header line is 43 printable characters |
| PageFormat.WordRoundTrip | src/main/java/org/rogatio/productivity/remarkable/model/content/Page.java:224-243 | a little-endian word laid out in the buffer is read back |
| ContentModel.Layer.constructor | src/main/java/org/rogatio/productivity/remarkable/model/content/Layer.java:39-41 | a new layer has its number and no strokes |
| ContentModel.Layer.Add | src/main/java/org/rogatio/productivity/remarkable/model/content/Layer.java:48-50 | the stroke is appended and the earlier strokes stay as they were |
| ContentModel.Layer.Describe | src/main/java/org/rogatio/productivity/remarkable/model/content/Layer.java:75-77 | toString is the layer text of the number and the stroke count |
| ContentModel.Layer.Equals | src/main/java/org/rogatio/productivity/remarkable/model/content/Layer.java:89-105 | Layer.equals holds for a layer and itself; equal layers have the same number and stroke count, and the same hashCode |
| ContentModel.LayerTextReports | src/main/java/org/rogatio/productivity/remarkable/model/content/Layer.java:75-77 | the layer number and the stroke count can both be read back from the text |
| ContentModel.LayerEqualsIsEquivalence | src/main/java/org/rogatio/productivity/remarkable/model/content/Layer.java:88-105 | Layer.equals is reflexive, symmetric and transitive |
| ContentModel.StrokeEqualsIsEquivalence | src/main/java/org/rogatio/productivity/remarkable/model/content/Stroke.java:122-137 | Stroke.equals is reflexive, symmetric and transitive |
| ContentModel.LayerHashAgrees | src/main/java/org/rogatio/productivity/remarkable/model/content/Layer.java:79-105 | equal layers have equal hash codes |
| ContentModel.LayerListHashAgrees | src/main/java/org/rogatio/productivity/remarkable/model/content/Page.java:344-376 | layer lists that are equal element by element hash alike |
| ContentModel.PageEquality | src/main/java/org/rogatio/productivity/remarkable/model/content/Page.java:344-376 | Page.equals is an equivalence, ignores the page number, and equal pages hash alike |
| ContentModel.Page.Equals | src/main/java/org/rogatio/productivity/remarkable/model/content/Page.java:360-376 | Page.equals holds for a page and itself; equal pages have the same version and layer count, and the same hashCode |
| ContentModel.Page.Init | src/main/java/org/rogatio/productivity/remarkable/model/content/Page.java:206-209 | the constructor starts with the given number and notebook, version 0 and no layers |
| ContentModel.Page.SetNotebook | src/main/java/org/rogatio/productivity/remarkable/model/content/Page.java:191-193 | the back-reference is the given notebook |
| ContentModel.Page.ExtractHeader | src/main/java/org/rogatio/productivity/remarkable/model/content/Page.java:84-97 | the header bytes are the prefix up to the header end, and the scan fails exactly when the header end does |
| ContentModel.Page.CutBytes | src/main/java/org/rogatio/productivity/remarkable/model/content/Page.java:133-139 | the new array holds bytes[start..end] |
| ContentModel.Page.ParseVersion | src/main/java/org/rogatio/productivity/remarkable/model/content/Page.java:147-165 | the returned end is the header end, and the version field is the header's version |
| ContentModel.Page.ReadSegments | src/main/java/org/rogatio/productivity/remarkable/model/content/Page.java:232-243 | the segment loop over the buffer computes the segment reader's result |
| ContentModel.Page.ReadStrokes | src/main/java/org/rogatio/productivity/remarkable/model/content/Page.java:223-247 | the stroke loop fails exactly when the stroke reader does, and otherwise leaves the layer holding the read strokes |
| ContentModel.Page.ReadLayers | src/main/java/org/rogatio/productivity/remarkable/model/content/Page.java:217-250 | the layer loop fails exactly when the layer reader does, and otherwise the page's layers hold the read layers |
| ContentModel.Page.DecodeSplits | src/main/java/org/rogatio/productivity/remarkable/model/content/Page.java:211-213 | decoding cuts at the header end and decodes the rest |
| ContentModel.Page.PayloadOutcome | src/main/java/org/rogatio/productivity/remarkable/model/content/Page.java:214-250 | the layer loop's outcome decides the payload's: a payload under four bytes fails |
| ContentModel.Page.Decode | src/main/java/org/rogatio/productivity/remarkable/model/content/Page.java:206-252 | the constructor throws exactly when the page decoder fails; otherwise the new page holds the decoded value and the given notebook |
| ContentModel.Page.GetTemplateName | src/main/java/org/rogatio/productivity/remarkable/model/content/Page.java:113-123 | the notebook's name at the page number when it is set and not empty, otherwise the default; an index outside the list throws |
| ContentModel.PageNumbered | src/main/java/org/rogatio/productivity/remarkable/model/content/Content.java:178-185 | getPage returns a listed page with the number, the first one, or null exactly when none has it |
| ContentModel.PageNumberedAt | src/main/java/org/rogatio/productivity/remarkable/model/content/Content.java:179-182 | where the getPage loop stops is the page the lookup returns |
| ContentModel.PageNumberedAfterAppend | src/main/java/org/rogatio/productivity/remarkable/model/content/Content.java:178-195 | after add, a lookup changes only when no earlier page had the number: the first page with a number wins |
| ContentModel.LastTemplate | src/main/java/org/rogatio/productivity/remarkable/model/content/Content.java:136-141 | the last template name, or null for an empty list |
| ContentModel.TemplateAt | src/main/java/org/rogatio/productivity/remarkable/model/content/Content.java:149-152 | the entry at the page number, defined exactly for an index inside the list |
| ContentModel.PageValues | src/main/java/org/rogatio/productivity/remarkable/model/content/Content.java:219-221 | the values of the listed pages, one per page and in the same positions |
| ContentModel.Content.constructor | src/main/java/org/rogatio/productivity/remarkable/model/content/Content.java:70-73 | a new notebook has its id and name, no pages, templates or folders, no type and current page 0 |
| ContentModel.Content.FromMetaData | src/main/java/org/rogatio/productivity/remarkable/model/content/Content.java:57-62 | the id, visible name and current page come from the metadata record |
| ContentModel.Content.SetCurrentPageNumber | src/main/java/org/rogatio/productivity/remarkable/model/content/Content.java:79-81 | the current page is the given number |
| ContentModel.Content.SetFolders | src/main/java/org/rogatio/productivity/remarkable/model/content/Content.java:101-103 | the folders are the given list |
| ContentModel.Content.SetTemplateNames | src/main/java/org/rogatio/productivity/remarkable/model/content/Content.java:168-170 | the template names are the given list |
| ContentModel.Content.SetType | src/main/java/org/rogatio/productivity/remarkable/model/content/Content.java:244-246 | the type string is the given one |
| ContentModel.Content.SetOrientation | src/main/java/org/rogatio/productivity/remarkable/model/content/Content.java:117-119 | the content data reports the given orientation |
| ContentModel.Content.DefaultTemplate | src/main/java/org/rogatio/productivity/remarkable/model/content/Content.java:136-141 | the last template name, or null when there is none |
| ContentModel.Content.TemplateName | src/main/java/org/rogatio/productivity/remarkable/model/content/Content.java:149-152 | the name at the page number; an index outside the list throws |
| ContentModel.Content.GetPage | src/main/java/org/rogatio/productivity/remarkable/model/content/Content.java:178-185 | the loop returns the first page with the number, or null |
| ContentModel.Content.Add | src/main/java/org/rogatio/productivity/remarkable/model/content/Content.java:192-195 | the page gets this notebook as back-reference and is appended |
| ContentModel.Content.SetPages | src/main/java/org/rogatio/productivity/remarkable/model/content/Content.java:197-203 | setPages takes the list as it is and sets every page's back-reference; each page keeps its version and its layers |
| ContentModel.Content.ThumbnailPage | src/main/java/org/rogatio/productivity/remarkable/model/content/Content.java:223-230 | the current page when there is one, otherwise page 0, otherwise null |
| ContentModel.Content.HashCode | src/main/java/org/rogatio/productivity/remarkable/model/content/Content.java:249-255 | Content.hashCode folds the id's String.hashCode and the page list's List.hashCode with the prime 31, and stays in the int range |
| ContentModel.Content.Equals | src/main/java/org/rogatio/productivity/remarkable/model/content/Content.java:258-277 | Content.equals holds for a notebook and itself; equal notebooks have the same id and page count, and the same hashCode |
| ContentModel.ContentEqualsIsEquivalence | src/main/java/org/rogatio/productivity/remarkable/model/content/Content.java:258-277 | Content.equals is symmetric and transitive, so with the identity case it is an equivalence |
| ContentModel.PageListEquality | src/main/java/org/rogatio/productivity/remarkable/model/content/Content.java:271-275 | pages.equals, element by element with Page.equals, is an equivalence |
| ContentModel.PageListHashAgrees | src/main/java/org/rogatio/productivity/remarkable/model/content/Content.java:253 | element-wise equal page lists have the same List.hashCode |
| SvgDocument.SvgWriter.constructor | src/main/java/org/rogatio/productivity/remarkable/io/file/SvgDocument.java:182 | a new file holds nothing |
| SvgDocument.SvgWriter.Write | src/main/java/org/rogatio/productivity/remarkable/io/file/SvgDocument.java:83-88 | a write appends one record and keeps everything written before |
| SvgDocument.WriteSegments | src/main/java/org/rogatio/productivity/remarkable/io/file/SvgDocument.java:110-124 | the segment loop writes each segment's point, closing and reopening the polyline at every 8th segment |
| SvgDocument.AddStroke | src/main/java/org/rogatio/productivity/remarkable/io/file/SvgDocument.java:98-128 | addStroke writes the stroke's polylines exactly when its pencil type is the pass's, and nothing otherwise |
| SvgDocument.CountAppend | src/main/java/org/rogatio/productivity/remarkable/io/file/SvgDocument.java:110-124 | record counts add up over concatenation |
| SvgDocument.SplitSegmentCount | src/main/java/org/rogatio/productivity/remarkable/io/file/SvgDocument.java:117-120 | a segment numbered a multiple of 8 writes two points, one close and one open |
| SvgDocument.PlainSegmentCount | src/main/java/org/rogatio/productivity/remarkable/io/file/SvgDocument.java:121-123 | any other segment writes only its point |
| SvgDocument.SegmentsCounts | src/main/java/org/rogatio/productivity/remarkable/io/file/SvgDocument.java:110-124 | the segment loop opens and closes one polyline per split and writes one point per segment plus one per split |
| SvgDocument.NumberedSplits | src/main/java/org/rogatio/productivity/remarkable/io/file/SvgDocument.java:117 | segments numbered 1..n hold n/8 multiples of 8 |
| SvgDocument.PolylinesCounts | src/main/java/org/rogatio/productivity/remarkable/io/file/SvgDocument.java:105-127 | a stroke of S segments numbered 1..S gives 1 + S/8 polylines and S + S/8 points |
| SvgDocument.PolylineSplitting | src/main/java/org/rogatio/productivity/remarkable/io/file/SvgDocument.java:98-128 | a drawn stroke opens and closes 1 + S/8 polylines and writes S + S/8 points |
| SvgDocument.LastPolylineRepeatsPoint | src/main/java/org/rogatio/productivity/remarkable/io/file/SvgDocument.java:117-126 | when the last segment is a multiple of 8, the document ends with a one-point polyline repeating that point |
| SvgDocument.PolylinesStyled | src/main/java/org/rogatio/productivity/remarkable/io/file/SvgDocument.java:105-127 | every polyline of a drawn stroke has the stroke's colour and opacity, and there is at least one |
| SvgDocument.StrokeStyle | src/main/java/org/rogatio/productivity/remarkable/io/file/SvgDocument.java:100-108 | the highlighter pass draws with the HIGHLIGHT colour, the other pass with the stroke's own colour |
| SvgDocument.EraserIsTransparent | src/main/java/org/rogatio/productivity/remarkable/io/file/SvgDocument.java:107-114 | an eraser stroke is drawn, but every one of its polylines has opacity 0 |
| SvgDocument.JavaDiv | src/main/java/org/rogatio/productivity/remarkable/io/file/SvgDocument.java:138 | Java integer division truncates toward zero |
| SvgDocument.WritePassStroke | src/main/java/org/rogatio/productivity/remarkable/io/file/SvgDocument.java:147-158 | the inner loop body draws the stroke in the highlighter pass, and in the other pass only a stroke of another type |
| SvgDocument.LayerPassStep | src/main/java/org/rogatio/productivity/remarkable/io/file/SvgDocument.java:147-158 | one more stroke of the layer extends the pass by that stroke's records |
| SvgDocument.PagePassStep | src/main/java/org/rogatio/productivity/remarkable/io/file/SvgDocument.java:146-159 | one more layer extends the pass by that layer's records |
| SvgDocument.WriteLayerPass | src/main/java/org/rogatio/productivity/remarkable/io/file/SvgDocument.java:147-149 | the strokes of one layer are drawn in list order |
| SvgDocument.WritePass | src/main/java/org/rogatio/productivity/remarkable/io/file/SvgDocument.java:146-150 | the layers of the page are drawn in list order |
| SvgDocument.WriteBody | src/main/java/org/rogatio/productivity/remarkable/io/file/SvgDocument.java:145-159 | the highlighter pass is written first, then the pass of the other strokes |
| SvgDocument.WriteDocument | src/main/java/org/rogatio/productivity/remarkable/io/file/SvgDocument.java:130-169 | the svg element, the group, both passes, the frame rectangle and the closing tags, in this order |
| SvgDocument.CreatePortrait | src/main/java/org/rogatio/productivity/remarkable/io/file/SvgDocument.java:179-215 | the upright document: a 1404 x 1872 view box and a group without transform |
| SvgDocument.CreateLandscape | src/main/java/org/rogatio/productivity/remarkable/io/file/SvgDocument.java:130-169 | the turned document: a 1872 x 1404 view box and a group rotated about the centre |
| SvgDocument.DeviceLandscape | src/main/java/org/rogatio/productivity/remarkable/io/file/SvgDocument.java:138-143 | on the 1404 x 1872 screen the group is rotate(90 702 936) translate(-234 -234) |
| SvgDocument.TranslationSymmetric | src/main/java/org/rogatio/productivity/remarkable/io/file/SvgDocument.java:138 | the translation is the same in both directions, never positive, and the same with the sides swapped |
| SvgDocument.DocumentFrames | src/main/java/org/rogatio/productivity/remarkable/io/file/SvgDocument.java:130-215 | both layouts open with the svg element and group and close with the frame; the body between them is the same |
| SvgDocument.HighlighterCode | src/main/java/org/rogatio/productivity/remarkable/model/notebook/PencilType.java:30 | a stroke is a highlighter exactly when its pencil code is 18 |
| SvgDocument.HighlightersAppend | src/main/java/org/rogatio/productivity/remarkable/io/file/SvgDocument.java:145-159 | the two stroke filters distribute over concatenation |
| SvgDocument.DrawingsAppend | src/main/java/org/rogatio/productivity/remarkable/io/file/SvgDocument.java:145-159 | drawing a concatenation concatenates the drawings |
| SvgDocument.LayerPassFilters | src/main/java/org/rogatio/productivity/remarkable/io/file/SvgDocument.java:147-158 | a layer's pass draws exactly that layer's strokes of the pass's kind, in order |
| SvgDocument.PagePassFilters | src/main/java/org/rogatio/productivity/remarkable/io/file/SvgDocument.java:146-159 | a page pass draws exactly the page's strokes of the pass's kind, in layer and stroke order |
| SvgDocument.DrawOrder | src/main/java/org/rogatio/productivity/remarkable/io/file/SvgDocument.java:145-159 | the body is all highlighter strokes, then all other strokes, each group in page order |
| SvgDocument.EachStrokeOnce | src/main/java/org/rogatio/productivity/remarkable/io/file/SvgDocument.java:145-159 | every stroke of the page is offered to exactly one of the two passes |
| SvgMerger.TextNode | src/main/java/org/rogatio/productivity/remarkable/io/file/SvgMerger.java:81 | a text node holds the given data and nothing else |
| SvgMerger.TextChildren | src/main/java/org/rogatio/productivity/remarkable/io/file/SvgMerger.java:81 | setTextContent leaves one text node, or none for the empty string |
| SvgMerger.TextContentRoundTrip | src/main/java/org/rogatio/productivity/remarkable/io/file/SvgMerger.java:78-81 | what setTextContent stores is what getTextContent reads back, and the node keeps its name and attributes |
| SvgMerger.RecolorPlain | src/main/java/org/rogatio/productivity/remarkable/io/file/SvgMerger.java:79-80 | text without either black declaration is left as it is |
| SvgMerger.RecolorDeclarations | src/main/java/org/rogatio/productivity/remarkable/io/file/SvgMerger.java:79-80 | each black declaration on its own becomes the grid colour declaration |
| SvgMerger.RecolorAttrs | src/main/java/org/rogatio/productivity/remarkable/io/file/SvgMerger.java:85-99 | every attribute keeps its name and place; only the values of style attributes are recoloured |
| SvgMerger.ReplaceAttrColors | src/main/java/org/rogatio/productivity/remarkable/io/file/SvgMerger.java:88-97 | the attribute loop gives the recoloured attribute list |
| SvgMerger.ReplaceColor | src/main/java/org/rogatio/productivity/remarkable/io/file/SvgMerger.java:76-109 | replaceColor gives the recoloured tree: style text, style attributes, then every element child |
| SvgMerger.RecoloredShape | src/main/java/org/rogatio/productivity/remarkable/io/file/SvgMerger.java:76-109 | a recoloured node keeps its name and kind and its attribute names |
| SvgMerger.RecoloredStyleText | src/main/java/org/rogatio/productivity/remarkable/io/file/SvgMerger.java:77-83 | a style element ends up holding its recoloured text as its only content |
| SvgMerger.RecolorEach | src/main/java/org/rogatio/productivity/remarkable/io/file/SvgMerger.java:93-94 | each style value is recoloured where it stands |
| SvgMerger.RecolorEachAppend | src/main/java/org/rogatio/productivity/remarkable/io/file/SvgMerger.java:93-94 | recolouring a concatenation concatenates the recoloured parts |
| SvgMerger.AttrStyleValuesRecolored | src/main/java/org/rogatio/productivity/remarkable/io/file/SvgMerger.java:85-99 | the style attribute values after the loop are the recoloured values before it |
| SvgMerger.RecolorReachesEveryStyle | src/main/java/org/rogatio/productivity/remarkable/io/file/SvgMerger.java:76-109 | every style attribute of every element of the tree is recoloured, in document order |
| SvgMerger.RecolorReachesAll | src/main/java/org/rogatio/productivity/remarkable/io/file/SvgMerger.java:101-108 | the same for each element child in turn |
| SvgMerger.RecolorAttrsPlain | src/main/java/org/rogatio/productivity/remarkable/io/file/SvgMerger.java:85-99 | attributes without black declarations are left as they are |
| SvgMerger.RecolorClean | src/main/java/org/rogatio/productivity/remarkable/io/file/SvgMerger.java:76-109 | replaceColor changes nothing in a tree without black declarations |
| SvgMerger.RecolorCleanAll | src/main/java/org/rogatio/productivity/remarkable/io/file/SvgMerger.java:101-108 | the same for a list of children |
| SvgMerger.RetitleNone | src/main/java/org/rogatio/productivity/remarkable/io/file/SvgMerger.java:140-144 | a template without a title element is left as it is |
| SvgMerger.RetitleNoneAll | src/main/java/org/rogatio/productivity/remarkable/io/file/SvgMerger.java:140-144 | the same for a list of children |
| SvgMerger.RetitleSingle | src/main/java/org/rogatio/productivity/remarkable/io/file/SvgMerger.java:140-144 | with exactly one title element, it ends up holding exactly the new title |
| SvgMerger.RetitleSingleAll | src/main/java/org/rogatio/productivity/remarkable/io/file/SvgMerger.java:140-144 | the same for a list of children |
| SvgMerger.PageTitle | src/main/java/org/rogatio/productivity/remarkable/io/file/SvgMerger.java:66-67 | the title starts with the notebook name and " - Page " |
| SvgMerger.PageTitleNumber | src/main/java/org/rogatio/productivity/remarkable/io/file/SvgMerger.java:66-67 | the notebook name and the page number can both be read back from the title |
| SvgMerger.MergeSvg | src/main/java/org/rogatio/productivity/remarkable/io/file/SvgMerger.java:119-162 | mergeSvg writes nothing exactly for a missing template or one named Blank.svg in any case; otherwise the page document is the last child of the merged document element |
| SvgMerger.MergeSkips | src/main/java/org/rogatio/productivity/remarkable/io/file/SvgMerger.java:123-131 | nothing is written exactly for a missing template and for one named Blank.svg in any case |
| SvgMerger.MergeForegroundLast | src/main/java/org/rogatio/productivity/remarkable/io/file/SvgMerger.java:146-150 | the page document is the last child and unchanged; the children before it are the recoloured template's |
| SvgMerger.MergeTitle | src/main/java/org/rogatio/productivity/remarkable/io/file/SvgMerger.java:140-144 | the title is set only when the template has exactly one title element; otherwise it has no effect |
| ExportPaths.FolderPrefixAppend | src/main/java/org/rogatio/productivity/remarkable/io/file/Util.java:110-114 | the folder prefix of a concatenation is the concatenation of the prefixes |
| ExportPaths.FolderPrefixInjective | src/main/java/org/rogatio/productivity/remarkable/io/file/Util.java:110-114 | for folder names without the separator, the prefix determines the folder list |
| ExportPaths.CreateFolderStructure | src/main/java/org/rogatio/productivity/remarkable/io/file/Util.java:109-119 | the loop builds each folder name followed by the separator, in list order ("" for none) |
| ExportPaths.GetFilename | src/main/java/org/rogatio/productivity/remarkable/io/file/Util.java:172-184 | export folder, separator, folder prefix, notebook name, separator, "Page_", the %03d number, the suffix ("" for null), "." and the ending |
| ExportPaths.GetFilenameNoSuffix | src/main/java/org/rogatio/productivity/remarkable/io/file/Util.java:193-195 | the two-argument form names the same file as an empty suffix |
| ExportPaths.FileNameNumber | src/main/java/org/rogatio/productivity/remarkable/io/file/Util.java:180-182 | the page number can be read back from between the head and the tail of the file name |
| ExportPaths.DistinctPagesDistinctFiles | src/main/java/org/rogatio/productivity/remarkable/io/file/Util.java:180-182 | pages of one notebook with different numbers get different file names |
| ExportPaths.LayoutFor | src/main/java/org/rogatio/productivity/remarkable/io/file/Util.java:279-284 | only the exact orientation "portrait" renders upright |
| ExportPaths.ExportPage | src/main/java/org/rogatio/productivity/remarkable/io/file/Util.java:278-286 | one page of createSvg: the render chosen by orientation, the page's svg file name, the template name and the page title |
| ExportPaths.CreateSvg | src/main/java/org/rogatio/productivity/remarkable/io/file/Util.java:276-288 | one export per page of the notebook, in page order, each the page export of that page |
| ExportPaths.PageExportLayout | src/main/java/org/rogatio/productivity/remarkable/io/file/Util.java:279-286 | a portrait page gets the 1404 x 1872 frame without transform, any other the 1872 x 1404 frame with the rotation, and the page number is in the title |
| NotebookModel.Layer.constructor | src/main/java/org/rogatio/productivity/remarkable/model/notebook/Layer.java:39-41 | a new layer has its number and no strokes |
| NotebookModel.Layer.Add | src/main/java/org/rogatio/productivity/remarkable/model/notebook/Layer.java:48-50 | the stroke is appended and the earlier strokes stay |
| NotebookModel.Layer.Describe | src/main/java/org/rogatio/productivity/remarkable/model/notebook/Layer.java:75-77 | toString gives the same layer text as the content layer |
| NotebookModel.Notebook.constructor | src/main/java/org/rogatio/productivity/remarkable/model/notebook/Notebook.java:53-56 | a new notebook has its id and name and nothing else set |
| NotebookModel.Notebook.SetCurrentPageNumber | src/main/java/org/rogatio/productivity/remarkable/model/notebook/Notebook.java:62-64 | the current page is the given number |
| NotebookModel.Notebook.SetFolders | src/main/java/org/rogatio/productivity/remarkable/model/notebook/Notebook.java:84-86 | the folders are the given list |
| NotebookModel.Notebook.SetTemplateNames | src/main/java/org/rogatio/productivity/remarkable/model/notebook/Notebook.java:135-137 | the template names are the given list |
| NotebookModel.Notebook.SetType | src/main/java/org/rogatio/productivity/remarkable/model/notebook/Notebook.java:193-195 | the type string is the given one |
| NotebookModel.Notebook.DefaultTemplate | src/main/java/org/rogatio/productivity/remarkable/model/notebook/Notebook.java:103-108 | the last template name, or null when there is none |
| NotebookModel.Notebook.TemplateName | src/main/java/org/rogatio/productivity/remarkable/model/notebook/Notebook.java:116-119 | the name at the page number; an index outside the list throws |
| NotebookModel.Notebook.GetPage | src/main/java/org/rogatio/productivity/remarkable/model/notebook/Notebook.java:145-152 | the loop returns the first page with the number, or null |
| NotebookModel.Notebook.Add | src/main/java/org/rogatio/productivity/remarkable/model/notebook/Notebook.java:159-161 | the page is appended |
| NotebookModel.Notebook.GetDocType | src/main/java/org/rogatio/productivity/remarkable/model/notebook/Notebook.java:189-191 | getType gives the type whose string is the stored one, and that type when there is one |
| NotebookModel.Notebook.CurrentPageFile | src/main/java/org/rogatio/productivity/remarkable/model/notebook/Notebook.java:181-187 | null exactly when no page has the current number, otherwise the "_thumbnail" png file name of that page |
| NotebookModel.PageWithNumber | src/main/java/org/rogatio/productivity/remarkable/model/notebook/Notebook.java:145-152 | a listed page with the number, or null exactly when none has it |
| NotebookModel.PageWithNumberAt | src/main/java/org/rogatio/productivity/remarkable/model/notebook/Notebook.java:146-149 | where the getPage loop stops is the page the lookup returns |
| NotebookModel.PageWithNumberAfterAdd | src/main/java/org/rogatio/productivity/remarkable/model/notebook/Notebook.java:145-161 | after add, a lookup changes only when no earlier page had the number |
| NotebookModel.TypeStringsDistinct | src/main/java/org/rogatio/productivity/remarkable/model/notebook/Type.java:33-42 | a type string names exactly one type |
| NotebookModel.CurrentPageFileNumber | src/main/java/org/rogatio/productivity/remarkable/model/notebook/Notebook.java:181-187 | the current page file ends in "_thumbnail.png" and the current page number reads back from it |
| RemarkableManager.Find | src/main/java/org/rogatio/productivity/remarkable/RemarkableManager.java:146-153 | the first element satisfying the test, or none exactly when no element does |
| RemarkableManager.FindAt | src/main/java/org/rogatio/productivity/remarkable/RemarkableManager.java:147-151 | where a search loop stops is the element Find returns |
| RemarkableManager.DocumentsMembers | src/main/java/org/rogatio/productivity/remarkable/RemarkableManager.java:184-195 | getDocuments keeps exactly the notebooks of type DOCUMENT |
| RemarkableManager.DocumentsAppend | src/main/java/org/rogatio/productivity/remarkable/RemarkableManager.java:184-195 | the filter keeps the list order |
| RemarkableManager.ChainFuel | src/main/java/org/rogatio/productivity/remarkable/RemarkableManager.java:515-532 | more fuel does not change a parent chain that has ended |
| RemarkableManager.ChainEnds | src/main/java/org/rogatio/productivity/remarkable/RemarkableManager.java:515-532 | the chain ends with the item's own name and starts with the name of a root: a record with an empty parent or one that names no listed record |
| RemarkableManager.ParentFoldersOfParent | src/main/java/org/rogatio/productivity/remarkable/RemarkableManager.java:474-486 | a record's folders are the whole chain of its parent, root first; none for an empty parent |
| RemarkableManager.SelfParentDiverges | src/main/java/org/rogatio/productivity/remarkable/RemarkableManager.java:521-530 | a record that is its own parent never ends the recursion |
| RemarkableManager.DownloadPathInjective | src/main/java/org/rogatio/productivity/remarkable/RemarkableManager.java:363-372 | for folder names without the separator, different folder lists give different download paths |
| RemarkableManager.TemplateLines | src/main/java/org/rogatio/productivity/remarkable/RemarkableManager.java:252-257 | one template name per line of the .pagedata entry, in order |
| RemarkableManager.ScanFailureFinal | src/main/java/org/rogatio/productivity/remarkable/RemarkableManager.java:241-289 | an exception ends the read: when some prefix of the entries fails, the whole archive does |
| RemarkableManager.EntryPageNumber | src/main/java/org/rogatio/productivity/remarkable/RemarkableManager.java:269-271 | the page number of an entry "id/N.rm" is N, whatever the id |
| RemarkableManager.EmptyBlobSkipped | src/main/java/org/rogatio/productivity/remarkable/RemarkableManager.java:273-274 | an empty page blob with a readable number leaves the notebook as it was |
| RemarkableManager.ContentRestarts | src/main/java/org/rogatio/productivity/remarkable/RemarkableManager.java:245-249 | a later .content entry starts a new notebook: what was read before it is dropped |
| RemarkableManager.Complete | src/main/java/org/rogatio/productivity/remarkable/RemarkableManager.java:291-304 | after the entry loop: it fails without a metadata listing, a scanned notebook, a record with its id, a type on that record or a parent chain that ends; a completed notebook keeps the scanned book and always has a type |
| RemarkableManager.ReadPageData | src/main/java/org/rogatio/productivity/remarkable/RemarkableManager.java:251-257 | the .pagedata branch sets the template names from the lines and changes nothing else of the notebook |
| RemarkableManager.ReadPage | src/main/java/org/rogatio/productivity/remarkable/RemarkableManager.java:275-283 | a non-empty blob is decoded and appended; a blob that does not decode throws and adds nothing |
| RemarkableManager.ReadEntry | src/main/java/org/rogatio/productivity/remarkable/RemarkableManager.java:242-287 | one pass of the entry loop computes the scan step on the id and the notebook built so far |
| RemarkableManager.ReadEntries | src/main/java/org/rogatio/productivity/remarkable/RemarkableManager.java:241-289 | the entry loop fails exactly when the scan of the entries does, and otherwise ends with the scanned id and notebook |
| RemarkableManager.Manager.constructor | src/main/java/org/rogatio/productivity/remarkable/RemarkableManager.java:91 | no metadata listing and no notebooks |
| RemarkableManager.Manager.SetMetaData | src/main/java/org/rogatio/productivity/remarkable/RemarkableManager.java:112 | the metadata listing is the given one |
| RemarkableManager.Manager.MetaDataById | src/main/java/org/rogatio/productivity/remarkable/RemarkableManager.java:146-153 | the first record with the id, or null |
| RemarkableManager.Manager.MetaDataByName | src/main/java/org/rogatio/productivity/remarkable/RemarkableManager.java:161-170 | the first record with the visible name, or null; null when there is no listing |
| RemarkableManager.Manager.GetNotebookById | src/main/java/org/rogatio/productivity/remarkable/RemarkableManager.java:197-204 | the first notebook with the id, or null |
| RemarkableManager.Manager.GetNotebookByName | src/main/java/org/rogatio/productivity/remarkable/RemarkableManager.java:212-219 | the first notebook with the name, or null |
| RemarkableManager.Manager.GetDocuments | src/main/java/org/rogatio/productivity/remarkable/RemarkableManager.java:184-195 | the notebooks of type DOCUMENT, in list order |
| RemarkableManager.Manager.GetPage | src/main/java/org/rogatio/productivity/remarkable/RemarkableManager.java:401-403 | the page lookup in the first notebook with the name |
| RemarkableManager.Manager.CollectParents | src/main/java/org/rogatio/productivity/remarkable/RemarkableManager.java:515-532 | the private getParentFolders puts the parent chain in front of the list, or does not end |
| RemarkableManager.ChainStep | src/main/java/org/rogatio/productivity/remarkable/RemarkableManager.java:515-532 | one recursive step of the private getParentFolders: the item's name goes in front of the list, then the parent's chain in front of that, which is the item's whole chain |
| RemarkableManager.Manager.GetParentFolders | src/main/java/org/rogatio/productivity/remarkable/RemarkableManager.java:474-486 | the chain of the record with the id without the record's own name |
| RemarkableManager.Manager.CompleteRead | src/main/java/org/rogatio/productivity/remarkable/RemarkableManager.java:291-304 | the metadata stage of readNotebook on the notebook object succeeds exactly when Complete does, and leaves the notebook holding Complete's result |
| RemarkableManager.Manager.ReadNotebook | src/main/java/org/rogatio/productivity/remarkable/RemarkableManager.java:226-322 | readNotebook appends one new notebook holding the scanned id, name, templates and pages, the metadata's current page and type and the parent folders, or throws and leaves the list unchanged; every listed notebook keeps a type |
| RemarkableManager.Manager.DownloadTarget | src/main/java/org/rogatio/productivity/remarkable/RemarkableManager.java:361-372 | the download file is storage, separator, each parent folder with a separator, the visible name and ".zip" |
| RemarkableManager.FolderList.constructor | src/main/java/org/rogatio/productivity/remarkable/RemarkableManager.java:475 | a new list is empty |
| RemarkableManager.FolderList.Prepend | src/main/java/org/rogatio/productivity/remarkable/RemarkableManager.java:521 | the name is put in front |
| RemarkableManager.FolderList.RemoveLast | src/main/java/org/rogatio/productivity/remarkable/RemarkableManager.java:481-483 | the last name is removed |

## Left out

- File, zip and network I/O are left out. The archive is given as a list of entries, each with its name, bytes and text lines. The Scanner's line splitting is not modelled. Downloads, file existence checks and writing the SVG to disk are not modelled either.
- The order of actions inside readNotebook is simplified. In Java, a page blob is decoded before the missing-notebook check throws. Both orders fail, and leave the notebook list as it was.
- Logging is not modelled, including the thumbnail lookup that readNotebook makes only for its log line. The debug output of the type is not modelled either.
- Settings from the properties file are parameters: the palette, the grid colour, the export folder, the storage folder and the file separator.
- The random UUID of each SVG group is a parameter.
- XML parsing and serialisation of templates are not modelled. A template is already a tree of element and text nodes.
- The in-place DOM update of replaceColor is not modelled. replaceColor returns a new tree. Aliasing between DOM nodes is therefore not modelled either.
- Loading templates from the template folder is not modelled. A template is given, or missing.
- PNG and PDF export (Util.createPng, createPdf) are not modelled. They go through Batik and PDFBox.
- model.notebook.Page is not part of this model, and neither is the notebook package's metadata class. A notebook keeps each page as the value the page decoder gives. Metadata fields are the ones the manager reads.
- Util.createSvg takes a content.Content. The model keeps that signature, as the Java code does. The manager's notebook class does not go through it.
- RemarkableManager.Manager.CollectParents, GetParentFolders, DownloadTarget: the recursion of the private getParentFolders has a fuel bound. A chain that does not end within the fuel gives None. A record that names itself as parent provably never ends (SelfParentDiverges), where Java would overflow the stack.
- RemarkableManager.Manager.ReadNotebook: the parent chain is read with a fuel bound. Running out of fuel is a failure, as above.
- SvgDocument.WritePass, WriteBody, WriteDocument, CreatePortrait, CreateLandscape: these require every stroke to have a known pencil type, a known colour and at least one segment. These are exactly the pages Java draws without an exception: the highlighter pass looks up the colour of every stroke, an unknown type fails in the other pass, and an empty stroke fails on getFirstSegment. The model states the exception as a precondition rather than as a failure result.
- SvgDocument.AddStroke: the width and opacity formulas are kept as symbolic records of which fields they use. Floating-point arithmetic and the `%f` formatting of the numbers are not modelled.
- Decimal.ParseInt: accepts an optional sign and then ASCII digits only. Integer.parseInt also accepts the decimal digits of other Unicode scripts.
- Text.Trim: models String.trim on characters up to the space, as Java defines it. It is not a Unicode whitespace trim.
- RemarkableManager.Manager.MetaDataById, CollectParents, GetParentFolders, DownloadTarget: these require the metadata list to have been read. getMetaDataById loops over the list without a null check, so Java throws a NullPointerException on a null list. getMetaDataByName checks for null, and the model does too.
- RemarkableManager.Manager.GetDocuments: requires every notebook to have its type set. Type.get calls equals on the type string, so a null type throws a NullPointerException.
- RemarkableManager.Manager.GetPage: requires a notebook with that name. getNotebookByName returns null otherwise, and the call on it throws a NullPointerException.
- NotebookModel.Notebook.GetDocType: requires the type to be set, for the same reason as GetDocuments.
- ContentModel.Page.GetTemplateName: requires the page to belong to a notebook. Java dereferences `notebook`, which throws a NullPointerException when it is null. An out-of-range page number is modelled: the result is None, standing for the IndexOutOfBoundsException of List.get.
- ExportPaths.ExportPage, PageExport, CreateSvg: these require each page to have a notebook, an orientation and a template name at its page number. They also require pages that SvgDocument can draw. Util.createSvg calls equals on a null orientation (a NullPointerException), and getTemplateName throws IndexOutOfBoundsException for a page number outside the template list.
- Text.EqualsIgnoreCase: folds ASCII letters only. String.equalsIgnoreCase also folds other Unicode letters, some across scripts: KELVIN SIGN (U+212A) matches "k", and LATIN SMALL LETTER LONG S (U+017F) matches "s".
- SvgMerger.TextContent: the node tree holds element and text nodes only, because template parsing is left out. getTextContent skips comment and processing-instruction children, and such nodes cannot occur in the model.
- ContentModel.StringHash: String.hashCode folds UTF-16 code units. A character outside the Basic Multilingual Plane is one character here but two code units in Java, so its hash differs.
- notebook.Notebook has no equals method, so the `contains` test in readNotebook compares identity. The notebook that readNotebook has just built is new, so it is always appended.

## Malformed pages

A malformed page ends the whole read. The page decoder throws on a malformed
page blob. The exception leaves readNotebook, which then returns no
notebook, and the notebook list stays as it was. No page is skipped
(`RemarkableManager.Manager.ReadNotebook`, `RemarkableManager.ReadPage`).
