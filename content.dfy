/**
 * The content model of a synchronised notebook: Content (a notebook with its
 * pages and template names), Page (one page, built by the decoding
 * constructor from the bytes of a ".lines" file) and Layer (the strokes of
 * one layer of a page, collected while the page is decoded).
 *
 * The classes keep the Java objects' mutable state; `Value()` reads that
 * state back as the values of PageFormat, against which the decoder is proved.
 */
module ContentModel {
  import opened Wrappers
  import opened Text
  import opened Decimal
  import opened Ink
  import opened PageFormat

  /** Page.horizontalWidth and Page.verticalWidth: the device screen, never changed. */
  const HorizontalWidth: int := 1404
  const VerticalWidth: int := 1872

  // ------------------------------------------------------------- layers

  class Layer {
    const number: int
    var strokes: seq<Stroke>

    /** A new layer has its number and no strokes. */
    constructor (number: int)
      ensures this.number == number && strokes == []
    {
      this.number := number;
      strokes := [];
    }

    /** Layer.add: the stroke goes at the end; the earlier strokes stay as they were. */
    method Add(s: Stroke)
      modifies this
      ensures strokes == old(strokes) + [s]
    {
      strokes := strokes + [s];
    }

    function Value(): LayerValue
      reads this
    {
      LayerValue(number, strokes)
    }

    /** Layer.toString. */
    function Describe(): (s: String)
      reads this
      ensures s == LayerText(number, |strokes|)
    {
      LayerText(number, |strokes|)
    }

    /**
     * Layer.equals on two layers: a layer equals itself, equal layers have
     * the same number and stroke count, and they hash alike.
     */
    function Equals(other: Layer): (r: bool)
      reads this, other
      ensures this == other ==> r
      ensures r ==> number == other.number && |strokes| == |other.strokes|
      ensures r ==> LayerHash(Value()) == LayerHash(other.Value())
    {
      LayerEqualsIsEquivalence(Value(), Value(), Value());
      if LayerValueEquals(Value(), other.Value())
      then LayerHashAgrees(Value(), other.Value()); true
      else false
    }
  }

  /** The text of Layer.toString for a layer number and a stroke count. */
  function LayerText(number: int, count: nat): String {
    "Layer [no=" + IntText(number) + ", Strokes (" + IntText(count) + ")]"
  }

  /** The description reports the layer number and the stroke count, and both read back. */
  lemma LayerTextReports(number: int, count: nat)
    requires IsInt32(number) && count <= INT_MAX
    ensures var t := LayerText(number, count);
            var a := 10 + |IntText(number)|;
            && a + 13 <= |t|
            && ParseInt(t[10..a]) == Some(number)
            && ParseInt(t[a + 11..|t| - 2]) == Some(count)
  {
    var x, y := IntText(number), IntText(count);
    var t := LayerText(number, count);
    var tail := ", Strokes (" + y + ")]";
    assert t == "Layer [no=" + x + tail;
    Middle("Layer [no=", x, tail);
    var head := "Layer [no=" + x + ", Strokes (";
    assert t == head + y + ")]";
    Middle(head, y, ")]");
    IntTextRoundTrip(number);
    IntTextRoundTrip(count);
  }

  /** Layer.equals: the same number and, stroke by stroke, equal strokes. */
  predicate LayerValueEquals(a: LayerValue, b: LayerValue) {
    a.number == b.number && StrokesEqual(a.strokes, b.strokes)
  }

  /** Layer.hashCode: the number, then the hash of the stroke list. */
  function LayerHash(l: LayerValue): int {
    HashStep(HashStep(1, l.number), StrokesHash(l.strokes))
  }

  lemma LayerEqualsIsEquivalence(a: LayerValue, b: LayerValue, c: LayerValue)
    ensures LayerValueEquals(a, a)
    ensures LayerValueEquals(a, b) ==> LayerValueEquals(b, a)
    ensures LayerValueEquals(a, b) && LayerValueEquals(b, c) ==> LayerValueEquals(a, c)
  {
    forall i | 0 <= i < |a.strokes| ensures StrokeEquals(a.strokes[i], a.strokes[i]) {
      StrokeEqualsIsEquivalence(a.strokes[i], a.strokes[i], a.strokes[i]);
    }
    if LayerValueEquals(a, b) {
      forall i | 0 <= i < |a.strokes| ensures StrokeEquals(b.strokes[i], a.strokes[i]) {
        StrokeEqualsIsEquivalence(a.strokes[i], b.strokes[i], a.strokes[i]);
      }
      if LayerValueEquals(b, c) {
        forall i | 0 <= i < |a.strokes| ensures StrokeEquals(a.strokes[i], c.strokes[i]) {
          StrokeEqualsIsEquivalence(a.strokes[i], b.strokes[i], c.strokes[i]);
        }
      }
    }
  }

  lemma StrokeEqualsIsEquivalence(a: Stroke, b: Stroke, c: Stroke)
    ensures StrokeEquals(a, a)
    ensures StrokeEquals(a, b) ==> StrokeEquals(b, a)
    ensures StrokeEquals(a, b) && StrokeEquals(b, c) ==> StrokeEquals(a, c)
  {
    forall i | 0 <= i < |a.segments| ensures SegmentEquals(a.segments[i], a.segments[i]) {
      SegmentEqualsIsEquivalence(a.segments[i], a.segments[i], a.segments[i]);
    }
    if StrokeEquals(a, b) {
      forall i | 0 <= i < |a.segments| ensures SegmentEquals(b.segments[i], a.segments[i]) {
        SegmentEqualsIsEquivalence(a.segments[i], b.segments[i], a.segments[i]);
      }
      if StrokeEquals(b, c) {
        forall i | 0 <= i < |a.segments| ensures SegmentEquals(a.segments[i], c.segments[i]) {
          SegmentEqualsIsEquivalence(a.segments[i], b.segments[i], c.segments[i]);
        }
      }
    }
  }

  lemma LayerHashAgrees(a: LayerValue, b: LayerValue)
    requires LayerValueEquals(a, b)
    ensures LayerHash(a) == LayerHash(b)
  {
    StrokesHashAgrees(a.strokes, b.strokes);
  }

  /** The values of a list of layer objects, in list order. */
  function LayerValues(ls: seq<Layer>): (vs: seq<LayerValue>)
    reads ls
    ensures |vs| == |ls|
  {
    if |ls| == 0 then [] else LayerValues(ls[..|ls| - 1]) + [ls[|ls| - 1].Value()]
  }

  // -------------------------------------------------------------- pages

  /** List.equals over layers: same length and Layer.equals position by position. */
  predicate LayerListEquals(a: seq<LayerValue>, b: seq<LayerValue>) {
    |a| == |b| && forall i :: 0 <= i < |a| ==> LayerValueEquals(a[i], b[i])
  }

  function LayerListHash(ls: seq<LayerValue>): int {
    if ls == [] then 1 else HashStep(LayerListHash(ls[..|ls| - 1]), LayerHash(ls[|ls| - 1]))
  }

  /** Page.equals: the layer lists and the version; the page number is not compared. */
  predicate PageValueEquals(a: PageValue, b: PageValue) {
    LayerListEquals(a.layers, b.layers) && a.version == b.version
  }

  /** Page.hashCode: the layer list, then the version. */
  function PageHash(p: PageValue): int {
    HashStep(HashStep(1, LayerListHash(p.layers)), p.version)
  }

  lemma {:induction false} LayerListHashAgrees(a: seq<LayerValue>, b: seq<LayerValue>)
    requires LayerListEquals(a, b)
    ensures LayerListHash(a) == LayerListHash(b)
  {
    if a != [] {
      var n := |a| - 1;
      assert LayerListEquals(a[..n], b[..n]) by {
        forall i | 0 <= i < n ensures LayerValueEquals(a[..n][i], b[..n][i]) {
          assert LayerValueEquals(a[i], b[i]);
        }
      }
      LayerListHashAgrees(a[..n], b[..n]);
      LayerHashAgrees(a[n], b[n]);
    }
  }

  /** Page equality is an equivalence, ignores the page number, and equal pages hash alike. */
  lemma PageEquality(a: PageValue, b: PageValue, c: PageValue, otherNumber: int)
    ensures PageValueEquals(a, a)
    ensures PageValueEquals(a, b) ==> PageValueEquals(b, a)
    ensures PageValueEquals(a, b) && PageValueEquals(b, c) ==> PageValueEquals(a, c)
    ensures PageValueEquals(a, a.(pageNumber := otherNumber))
    ensures PageValueEquals(a, b) ==> PageHash(a) == PageHash(b)
  {
    forall i | 0 <= i < |a.layers| ensures LayerValueEquals(a.layers[i], a.layers[i]) {
      LayerEqualsIsEquivalence(a.layers[i], a.layers[i], a.layers[i]);
    }
    if PageValueEquals(a, b) {
      forall i | 0 <= i < |a.layers| ensures LayerValueEquals(b.layers[i], a.layers[i]) {
        LayerEqualsIsEquivalence(a.layers[i], b.layers[i], a.layers[i]);
      }
      if PageValueEquals(b, c) {
        forall i | 0 <= i < |a.layers| ensures LayerValueEquals(a.layers[i], c.layers[i]) {
          LayerEqualsIsEquivalence(a.layers[i], b.layers[i], c.layers[i]);
        }
      }
      LayerListHashAgrees(a.layers, b.layers);
    }
  }

  class Page {
    const pageNumber: int
    var version: int
    var layers: seq<Layer>
    var notebook: Content?

    /** The field initialisers and the first two assignments of the decoding constructor. */
    constructor Init(pageNumber: int, notebook: Content?)
      ensures this.pageNumber == pageNumber && this.notebook == notebook
      ensures version == 0 && layers == []
    {
      this.pageNumber := pageNumber;
      this.notebook := notebook;
      version := 0;
      layers := [];
    }

    function Value(): PageValue
      reads this`version, this`layers, layers
    {
      PageValue(pageNumber, version, LayerValues(layers))
    }

    /** Page.setNotebook. */
    method SetNotebook(c: Content?)
      modifies this`notebook
      ensures notebook == c
    {
      notebook := c;
    }

    /**
     * extractHeader: the bytes of the scan loop, which stops at the first
     * byte below 32 (as a signed Java byte) or after 100 bytes. Indexing past
     * the end of the array first is the ArrayIndexOutOfBoundsException (None).
     */
    static method ExtractHeader(bytes: array<byte>) returns (r: Option<seq<byte>>)
      ensures r.None? <==> HeaderEnd(bytes[..]).None?
      ensures r.Some? ==> r.value == bytes[..HeaderEnd(bytes[..]).value]
    {
      var tmp: seq<byte> := [];
      var i := 0;
      while i < HeaderScanLimit
        invariant i <= HeaderScanLimit && i <= bytes.Length
        invariant tmp == bytes[..i]
        invariant ScanHeader(bytes[..], 0) == ScanHeader(bytes[..], i)
      {
        if i >= bytes.Length {
          return None;
        }
        if !Printable(bytes[i]) {
          break;
        }
        tmp := tmp + [bytes[i]];
        i := i + 1;
      }
      return Some(tmp);
    }

    /** cutBytes: a new array holding bytes[start..end]. */
    static method CutBytes(start: nat, end: nat, bytes: array<byte>) returns (out: array<byte>)
      requires start <= end <= bytes.Length
      ensures out[..] == bytes[start..end]
    {
      out := new byte[end - start];
      var i := 0;
      while i < out.Length
        invariant i <= out.Length
        invariant out[..i] == bytes[start..start + i]
      {
        out[i] := bytes[start + i];
        i := i + 1;
      }
    }

    /**
     * parseVersion: sets the version from the header line and returns the
     * length of the untrimmed header, where the payload begins.
     */
    method ParseVersion(bytes: array<byte>) returns (endOfHeader: Option<nat>)
      modifies this`version
      ensures endOfHeader == HeaderEnd(bytes[..])
      ensures endOfHeader.Some? ==> version == HeaderVersion(bytes[..endOfHeader.value])
    {
      var header := ExtractHeader(bytes);
      if header.None? {
        return None;
      }
      endOfHeader := Some(|header.value|);
      version := HeaderVersion(header.value);
    }

    /**
     * The segment loop of the decoding constructor, from the cursor `start`
     * for `count` segments; None is a buffer underflow.
     */
    static method ReadSegments(buffer: seq<byte>, start: nat, count: int) returns (r: Option<Parsed<seq<Segment>>>)
      requires start <= |buffer|
      ensures r == SegmentsFrom(buffer, start, 1, count, [])
    {
      var segments: seq<Segment> := [];
      var pos := start;
      var no := 1;
      while no <= count
        invariant start <= pos <= |buffer|
        invariant SegmentsFrom(buffer, start, 1, count, []) == SegmentsFrom(buffer, pos, no, count, segments)
        decreases |buffer| - pos
      {
        if pos + SegmentSize > |buffer| {
          return None;
        }
        segments := segments + [SegmentAt(buffer, pos, no)];
        pos := pos + SegmentSize;
        no := no + 1;
      }
      return Some(Parsed(segments, pos));
    }

    /**
     * The stroke loop of the decoding constructor: `count` stroke records
     * from the cursor `start`, each added to `layer`.
     */
    static method ReadStrokes(buffer: seq<byte>, start: nat, count: int, layer: Layer) returns (next: Option<nat>)
      requires start <= |buffer| && layer.strokes == []
      modifies layer
      ensures next.Some? <==> StrokesFrom(buffer, start, 1, count, []).Some?
      ensures next.Some? ==> Yields(StrokesFrom(buffer, start, 1, count, []), layer.strokes, next.value)
    {
      var pos := start;
      var no := 1;
      while no <= count
        invariant start <= pos <= |buffer|
        invariant StrokesFrom(buffer, start, 1, count, []) == StrokesFrom(buffer, pos, no, count, layer.strokes)
        decreases |buffer| - pos
      {
        if pos + StrokeHeaderSize > |buffer| {
          return None;
        }
        var header := StrokeHeaderAt(buffer, pos);
        var segments := ReadSegments(buffer, pos + StrokeHeaderSize, header.count);
        if segments.None? {
          return None;
        }
        StrokesStep(buffer, pos, no, count, layer.strokes, segments.value.value, segments.value.next);
        layer.Add(Stroke(no, header.pencilCode, header.colorCode, header.penWidth, segments.value.value));
        pos := segments.value.next;
        no := no + 1;
      }
      return Some(pos);
    }

    /**
     * The layer loop of the decoding constructor: `count` layers from
     * offset 4 of the payload, each a stroke count and its stroke records.
     */
    method ReadLayers(buffer: seq<byte>, count: int) returns (ok: bool)
      requires 4 <= |buffer| && layers == []
      modifies this`layers
      ensures ok <==> LayersFrom(buffer, 4, 1, count, []).Some?
      ensures ok ==> LayersFrom(buffer, 4, 1, count, []).value.value == LayerValues(layers)
    {
      var pos := 4;
      var no := 1;
      while no <= count
        invariant 4 <= pos <= |buffer|
        invariant LayersFrom(buffer, 4, 1, count, []) == LayersFrom(buffer, pos, no, count, LayerValues(layers))
        decreases |buffer| - pos
      {
        var layer := new Layer(no);
        if pos + 4 > |buffer| {
          return false;
        }
        ghost var done := LayerValues(layers);
        var numberOfStrokes := IntAt(buffer, pos);
        var next := ReadStrokes(buffer, pos + 4, numberOfStrokes, layer);
        assert LayerValues(layers) == done;
        if next.None? {
          return false;
        }
        LayersStep(buffer, pos, no, count, done, layer.strokes, next.value);
        layers := layers + [layer];
        assert LayerValues(layers) == done + [layer.Value()];
        pos := next.value;
        no := no + 1;
      }
      return true;
    }

    /**
     * The decoding constructor Page(pageNumber, bytes, notebook). It throws
     * (None) when the header scan runs off the end of the bytes or the
     * payload runs out in the middle of a record; bytes after the last
     * declared record are ignored.
     */
    static lemma DecodeSplits(number: int, d: seq<byte>, e: nat, c: seq<byte>)
      requires HeaderEnd(d) == Some(e) && c == d[e..|d|]
      ensures DecodePage(number, d) == DecodePayload(number, d[..e], c)
    {
      assert d[e..|d|] == d[e..];
    }

    /** How the outcome of the layer loop decides the outcome of decoding the payload. */
    static lemma PayloadOutcome(number: int, h: seq<byte>, c: seq<byte>, ok: bool, vals: seq<LayerValue>)
      requires |c| >= 4 ==> (ok <==> LayersFrom(c, 4, 1, IntAt(c, 0), []).Some?)
      requires |c| >= 4 && ok ==> LayersFrom(c, 4, 1, IntAt(c, 0), []).value.value == vals
      requires |c| < 4 ==> !ok
      ensures ok <==> DecodePayload(number, h, c).Some?
      ensures ok ==> DecodePayload(number, h, c).value == PageValue(number, HeaderVersion(h), vals)
    {
    }

    static method Decode(pageNumber: int, bytes: array<byte>, notebook: Content?) returns (r: Option<Page>)
      ensures r.None? <==> DecodePage(pageNumber, bytes[..]).None?
      ensures r.Some? ==> fresh(r.value) && r.value.notebook == notebook
      ensures r.Some? ==> r.value.Value() == DecodePage(pageNumber, bytes[..]).value
    {
      var p: Page := new Page.Init(pageNumber, notebook);
      var endOfHeader := p.ParseVersion(bytes);
      if endOfHeader.None? {
        return None;
      }
      var e := endOfHeader.value;
      var content := CutBytes(e, bytes.Length, bytes);
      var buffer := content[..];
      var ok := false;
      if |buffer| >= 4 {
        ok := p.ReadLayers(buffer, IntAt(buffer, 0));
      }
      DecodeSplits(pageNumber, bytes[..], e, buffer);
      PayloadOutcome(pageNumber, bytes[..e], buffer, ok, LayerValues(p.layers));
      r := if ok then Some(p) else None;
    }

    /**
     * Page.getTemplateName: the notebook's template name at the page number
     * when it is set and not empty, otherwise the notebook's default. An
     * index outside the list is the IndexOutOfBoundsException (None).
     */
    function GetTemplateName(): (r: Option<Option<String>>)
      requires notebook != null
      reads this, notebook
      ensures r.Some? <==> 0 <= pageNumber < |notebook.templateNames|
      ensures r.Some? && r.value != notebook.DefaultTemplate() ==>
                r.value == notebook.templateNames[pageNumber] && r.value.Some? && r.value.value != ""
      ensures r.Some? && notebook.TemplateName(this).value.Some? && notebook.TemplateName(this).value.value != "" ==>
                r.value == notebook.TemplateName(this).value
    {
      if 0 <= pageNumber < |notebook.templateNames| then
        var name := notebook.templateNames[pageNumber];
        if name.Some? && name.value != "" then Some(name) else Some(notebook.DefaultTemplate())
      else None
    }

    /**
     * Page.equals on two pages: a page equals itself, equal pages have the
     * same version and layer count, and they hash alike.
     */
    function Equals(other: Page): (r: bool)
      reads this`version, this`layers, layers, other`version, other`layers, other.layers
      ensures this == other ==> r
      ensures r ==> version == other.version && |layers| == |other.layers|
      ensures r ==> PageHash(Value()) == PageHash(other.Value())
    {
      PageEquality(Value(), Value(), Value(), pageNumber);
      if PageValueEquals(Value(), other.Value())
      then PageEquality(Value(), other.Value(), Value(), pageNumber); true
      else false
    }
  }

  // ---------------------------------------------------------- notebooks

  /** getPage as a value: the first page numbered `n`, in list order, or null. */
  function PageNumbered(ps: seq<Page>, n: int): (p: Page?)
    ensures p != null ==> p in ps && p.pageNumber == n
    ensures p == null <==> forall j :: 0 <= j < |ps| ==> ps[j].pageNumber != n
  {
    match FirstIndex(ps, (q: Page) => q.pageNumber == n)
    case None => null
    case Some(i) => ps[i]
  }

  /** Where the loop of getPage stops: the page there is the one PageNumbered returns. */
  lemma PageNumberedAt(ps: seq<Page>, n: int, i: nat)
    requires i < |ps| && ps[i].pageNumber == n
    requires forall j :: 0 <= j < i ==> ps[j].pageNumber != n
    ensures PageNumbered(ps, n) == ps[i]
  {
    FirstIndexAt(ps, (q: Page) => q.pageNumber == n, i);
  }

  /** Appending a page changes a lookup only when no earlier page had that number. */
  lemma PageNumberedAfterAppend(ps: seq<Page>, p: Page, n: int)
    ensures PageNumbered(ps + [p], n) == if PageNumbered(ps, n) != null then PageNumbered(ps, n)
                                           else if p.pageNumber == n then p else null
  {
    FirstIndexAppend(ps, p, (q: Page) => q.pageNumber == n);
    match FirstIndex(ps, (q: Page) => q.pageNumber == n)
    case None =>
    case Some(i) => assert (ps + [p])[i] == ps[i];
  }

  /** getDefaultTemplate on a list of template names: the last one, or null for an empty list. */
  function LastTemplate(ts: seq<Option<String>>): (r: Option<String>)
    ensures |ts| == 0 ==> r.None?
    ensures |ts| > 0 ==> r == ts[|ts| - 1]
  {
    if |ts| > 0 then ts[|ts| - 1] else None
  }

  /** getTemplateName on a list of template names: the entry at the page number; outside the list it throws (None). */
  function TemplateAt(ts: seq<Option<String>>, n: int): (r: Option<Option<String>>)
    ensures r.Some? <==> 0 <= n < |ts|
    ensures r.Some? ==> r.value == ts[n]
  {
    if 0 <= n < |ts| then Some(ts[n]) else None
  }

  /** Content.equals: the same id and, page by page, equal pages. */
  predicate PageListEquals(a: seq<PageValue>, b: seq<PageValue>) {
    |a| == |b| && forall i :: 0 <= i < |a| ==> PageValueEquals(a[i], b[i])
  }

  /** List.hashCode over page hashes, as Content.hashCode uses it. */
  function PageListHash(ps: seq<PageValue>): int {
    if ps == [] then 1 else HashStep(PageListHash(ps[..|ps| - 1]), PageHash(ps[|ps| - 1]))
  }

  /** List.equals on pages is an equivalence, because Page.equals is. */
  lemma PageListEquality(a: seq<PageValue>, b: seq<PageValue>, c: seq<PageValue>)
    ensures PageListEquals(a, a)
    ensures PageListEquals(a, b) ==> PageListEquals(b, a)
    ensures PageListEquals(a, b) && PageListEquals(b, c) ==> PageListEquals(a, c)
  {
    forall i | 0 <= i < |a| ensures PageValueEquals(a[i], a[i]) {
      PageEquality(a[i], a[i], a[i], 0);
    }
    if PageListEquals(a, b) {
      forall i | 0 <= i < |a| ensures PageValueEquals(b[i], a[i]) {
        PageEquality(a[i], b[i], a[i], 0);
      }
      if PageListEquals(b, c) {
        forall i | 0 <= i < |a| ensures PageValueEquals(a[i], c[i]) {
          PageEquality(a[i], b[i], c[i], 0);
        }
      }
    }
  }

  /** Element-wise equal page lists have the same List.hashCode. */
  lemma {:induction false} PageListHashAgrees(a: seq<PageValue>, b: seq<PageValue>)
    requires PageListEquals(a, b)
    ensures PageListHash(a) == PageListHash(b)
  {
    if a != [] {
      var n := |a| - 1;
      assert PageListEquals(a[..n], b[..n]) by {
        forall i | 0 <= i < n ensures PageValueEquals(a[..n][i], b[..n][i]) {
          assert PageValueEquals(a[i], b[i]);
        }
      }
      PageListHashAgrees(a[..n], b[..n]);
      PageEquality(a[n], b[n], a[n], 0);
    }
  }

  /** String.hashCode: the characters folded with the prime 31 in Java int arithmetic, from 0. */
  function StringHash(s: String): (h: int)
    ensures IsInt32(h)
  {
    if s == [] then 0 else HashStep(StringHash(s[..|s| - 1]), s[|s| - 1] as int)
  }

  /** Everything the values of the pages in `ps` depend on. */
  function PagesFootprint(ps: seq<Page>): set<object>
    reads ps
  {
    (set p | p in ps :: p as object) + (set p, l | p in ps && l in p.layers :: l as object)
  }

  function PageValues(ps: seq<Page>): (vs: seq<PageValue>)
    reads ps, PagesFootprint(ps)
    decreases |ps|
    ensures |vs| == |ps|
    ensures forall i :: 0 <= i < |ps| ==> vs[i] == ps[i].Value()
  {
    if |ps| == 0 then []
    else
      var p := ps[|ps| - 1];
      assert forall l :: l in p.layers ==> l in PagesFootprint(ps);
      PageValues(ps[..|ps| - 1]) + [p.Value()]
  }

  class Content {
    const id: String
    const name: String
    var docType: Option<String>
    var currentPage: int
    var templateNames: seq<Option<String>>
    var folders: seq<String>
    var pages: seq<Page>
    /** The orientation its content data reports; None while no content data is set. */
    var orientation: Option<String>

    /** Content(id, name): no pages, no templates, no folders, current page 0. */
    constructor (id: String, name: String)
      ensures this.id == id && this.name == name
      ensures docType.None? && currentPage == 0 && templateNames == [] && folders == [] && pages == []
      ensures orientation.None?
    {
      this.id := id;
      this.name := name;
      docType := None;
      currentPage := 0;
      templateNames := [];
      folders := [];
      pages := [];
      orientation := None;
    }

    /** Content(metaData): the id, visible name and current page of the metadata. */
    constructor FromMetaData(id: String, visibleName: String, currentPage: int)
      ensures this.id == id && this.name == visibleName && this.currentPage == currentPage
      ensures docType.None? && templateNames == [] && folders == [] && pages == [] && orientation.None?
    {
      this.id := id;
      this.name := visibleName;
      docType := None;
      this.currentPage := currentPage;
      templateNames := [];
      folders := [];
      pages := [];
      orientation := None;
    }

    method SetCurrentPageNumber(n: int)
      modifies this`currentPage
      ensures currentPage == n
    {
      currentPage := n;
    }

    method SetFolders(fs: seq<String>)
      modifies this`folders
      ensures folders == fs
    {
      folders := fs;
    }

    method SetTemplateNames(ts: seq<Option<String>>)
      modifies this`templateNames
      ensures templateNames == ts
    {
      templateNames := ts;
    }

    method SetType(t: Option<String>)
      modifies this`docType
      ensures docType == t
    {
      docType := t;
    }

    method SetOrientation(o: String)
      modifies this`orientation
      ensures orientation == Some(o)
    {
      orientation := Some(o);
    }

    /** getDefaultTemplate: the last template name, or null for an empty list. */
    function DefaultTemplate(): (r: Option<String>)
      reads this`templateNames
      ensures |templateNames| == 0 ==> r.None?
      ensures |templateNames| > 0 ==> r == templateNames[|templateNames| - 1]
    {
      LastTemplate(templateNames)
    }

    /** getTemplateName(page): the name at the page number; an index outside the list throws (None). */
    function TemplateName(page: Page): (r: Option<Option<String>>)
      reads this`templateNames
      ensures r.Some? <==> 0 <= page.pageNumber < |templateNames|
      ensures r.Some? ==> r.value == templateNames[page.pageNumber]
    {
      TemplateAt(templateNames, page.pageNumber)
    }

    /** getPage: the first page in insertion order with this number, or null. */
    method GetPage(number: int) returns (r: Page?)
      ensures r == PageNumbered(pages, number)
    {
      var i := 0;
      while i < |pages|
        invariant i <= |pages|
        invariant forall j :: 0 <= j < i ==> pages[j].pageNumber != number
      {
        if pages[i].pageNumber == number {
          PageNumberedAt(pages, number, i);
          return pages[i];
        }
        i := i + 1;
      }
      return null;
    }

    /** Content.add: the page's back-reference is set to this notebook, then the page is appended. */
    method Add(page: Page)
      modifies this`pages, page`notebook
      ensures pages == old(pages) + [page] && page.notebook == this
    {
      page.notebook := this;
      pages := pages + [page];
    }

    /** setPages: the list is taken as it is and every page's back-reference is set. */
    method SetPages(ps: seq<Page>)
      modifies this`pages, ps
      ensures pages == ps
      ensures forall p :: p in ps ==> p.notebook == this
      ensures forall p :: p in ps ==> p.version == old(p.version) && p.layers == old(p.layers)
    {
      pages := ps;
      var i := 0;
      while i < |ps|
        invariant i <= |ps| && pages == ps
        invariant forall j :: 0 <= j < i ==> ps[j].notebook == this
        invariant forall p :: p in ps ==> p.version == old(p.version) && p.layers == old(p.layers)
      {
        ps[i].notebook := this;
        i := i + 1;
      }
    }

    /** The page getThumbnail makes the thumbnail of: the current page, else page 0, else none. */
    method ThumbnailPage() returns (r: Page?)
      ensures PageNumbered(pages, currentPage) != null ==> r == PageNumbered(pages, currentPage)
      ensures PageNumbered(pages, currentPage) == null ==> r == PageNumbered(pages, 0)
    {
      r := GetPage(currentPage);
      if r == null {
        r := GetPage(0);
      }
    }

    /** Content.hashCode: the id's String.hashCode, then the page list's List.hashCode. */
    function HashCode(): (h: int)
      reads this, pages, PagesFootprint(pages)
      ensures IsInt32(h)
    {
      HashStep(HashStep(1, StringHash(id)), PageListHash(PageValues(pages)))
    }

    /**
     * Content.equals on two notebooks: a notebook equals itself, equal
     * notebooks have the same id and page count, and they hash alike.
     */
    function Equals(other: Content): (r: bool)
      reads this, other, pages, other.pages, PagesFootprint(pages), PagesFootprint(other.pages)
      ensures this == other ==> r
      ensures r ==> id == other.id && |pages| == |other.pages|
      ensures r ==> HashCode() == other.HashCode()
    {
      var a, b := PageValues(pages), PageValues(other.pages);
      PageListEquality(a, a, a);
      if id == other.id && PageListEquals(a, b)
      then PageListHashAgrees(a, b); true
      else false
    }
  }

  /** Content.equals is symmetric and transitive; with the identity case above, an equivalence. */
  lemma ContentEqualsIsEquivalence(x: Content, y: Content, z: Content)
    ensures x.Equals(y) ==> y.Equals(x)
    ensures x.Equals(y) && y.Equals(z) ==> x.Equals(z)
  {
    PageListEquality(PageValues(x.pages), PageValues(y.pages), PageValues(z.pages));
  }
}
