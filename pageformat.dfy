/**
 * The reMarkable ".lines" page format as the page decoder reads it.
 *
 * A page file is a printable header line followed by a little-endian
 * payload of nested counted records:
 *
 *   int32 layer count, then per layer
 *     int32 stroke count, then per stroke
 *       int32 pencil code, int32 colour code, int32 (unused), float pen width,
 *       int32 (unused), int32 segment count, then per segment
 *         six floats: x, y, speed, direction, width, pressure.
 *
 * This module gives the reading functions (one step of each decoding loop
 * per call, with the loop's cursor and accumulator as parameters), an
 * encoder, and the properties that tie them together.
 */
module PageFormat {
  import opened Wrappers
  import opened Text
  import opened Decimal
  import opened Ink

  newtype byte = b: int | 0 <= b < 256

  /** Java's signed test `byteArray[i] >= 32`: the bytes 32..127 (a byte above 127 is negative in Java). */
  predicate Printable(b: byte) {
    32 <= b <= 127
  }

  /** The header scan never looks past this many bytes. */
  const HeaderScanLimit: nat := 100

  const Header: String := "reMarkable .lines file, version=X"

  /** The header without its final placeholder character. */
  const HeaderPrefix: String := Header[..|Header| - 1]

  // ------------------------------------------------------------- header

  /**
   * The scan loop of extractHeader from index `i` on: it ends at the first
   * byte that is not printable, or at the scan limit, and fails when it
   * indexes past the end of the array first.
   */
  function ScanHeader(d: seq<byte>, i: nat): (r: Option<nat>)
    requires i <= HeaderScanLimit && i <= |d|
    ensures r.Some? ==> i <= r.value <= HeaderScanLimit && r.value <= |d|
    ensures r.Some? ==> forall k :: i <= k < r.value ==> Printable(d[k])
    ensures r.Some? && r.value < HeaderScanLimit ==> r.value < |d| && !Printable(d[r.value])
    ensures r.None? <==> |d| < HeaderScanLimit && forall k :: i <= k < |d| ==> Printable(d[k])
    decreases HeaderScanLimit - i
  {
    if i == HeaderScanLimit then Some(HeaderScanLimit)
    else if i >= |d| then None
    else if Printable(d[i]) then ScanHeader(d, i + 1)
    else Some(i)
  }

  /**
   * The length of the header, which is also where the payload begins: the
   * longest run of printable bytes at the start, capped at the scan limit.
   * It is absent exactly when a shorter input is printable throughout.
   */
  function HeaderEnd(d: seq<byte>): (r: Option<nat>)
    ensures r.Some? ==> r.value <= HeaderScanLimit && r.value <= |d|
    ensures r.Some? ==> forall k :: 0 <= k < r.value ==> Printable(d[k])
    ensures r.Some? && r.value < HeaderScanLimit ==> r.value < |d| && !Printable(d[r.value])
    ensures r.None? <==> |d| < HeaderScanLimit && forall k :: 0 <= k < |d| ==> Printable(d[k])
  {
    ScanHeader(d, 0)
  }

  /** new String(headerBytes) on printable bytes: one character per byte. */
  function HeaderText(h: seq<byte>): (s: String)
    ensures |s| == |h|
    ensures forall k :: 0 <= k < |h| ==> s[k] == h[k] as int as char
  {
    if h == [] then [] else [h[0] as int as char] + HeaderText(h[1..])
  }

  /**
   * parseVersion: the value of the last character of the trimmed header when
   * the trimmed header starts with the header prefix and that character is a
   * decimal digit; 0 in every other case.
   */
  function HeaderVersion(h: seq<byte>): (v: int)
    ensures 0 <= v <= 9
    ensures v != 0 ==> StartsWith(Trim(HeaderText(h)), HeaderPrefix)
  {
    var line := Trim(HeaderText(h));
    if StartsWith(line, HeaderPrefix) then
      match DecodeChar(line[|line| - 1])
      case Some(v) => v
      case None => 0
    else 0
  }

  // ------------------------------------------------------------ payload

  /** Four bytes at `pos`, least significant first. */
  function WordAt(d: seq<byte>, pos: nat): Word
    requires pos + 4 <= |d|
  {
    (d[pos] as int + 256 * (d[pos + 1] as int + 256 * (d[pos + 2] as int + 256 * d[pos + 3] as int))) as Word
  }

  /** ByteBuffer.getInt in little-endian order. */
  function IntAt(d: seq<byte>, pos: nat): int
    requires pos + 4 <= |d|
  {
    Signed(WordAt(d, pos))
  }

  const SegmentSize: nat := 24
  const StrokeHeaderSize: nat := 24

  /** The six floats of one segment, given the number the loop assigns it. */
  function SegmentAt(d: seq<byte>, pos: nat, number: int): Segment
    requires pos + SegmentSize <= |d|
  {
    Segment(number, WordAt(d, pos), WordAt(d, pos + 4), WordAt(d, pos + 8),
            WordAt(d, pos + 12), WordAt(d, pos + 16), WordAt(d, pos + 20))
  }

  /** A reading loop's result: the collected children and the cursor after them. */
  datatype Parsed<T> = Parsed(value: T, next: nat)

  /** The number of iterations of `for (no = k; no <= n; no++)`. */
  function Remaining(k: int, n: int): nat {
    if k <= n then n - k + 1 else 0
  }

  /**
   * The segment loop from segment number `k` to `n`, with the cursor at `pos`
   * and the segments read so far in `acc`. Running out of bytes is a buffer
   * underflow (None).
   */
  function SegmentsFrom(d: seq<byte>, pos: nat, k: int, n: int, acc: seq<Segment>): (r: Option<Parsed<seq<Segment>>>)
    requires pos <= |d|
    ensures r.Some? ==> pos <= r.value.next <= |d|
    decreases |d| - pos
  {
    if k > n then Some(Parsed(acc, pos))
    else if pos + SegmentSize > |d| then None
    else SegmentsFrom(d, pos + SegmentSize, k + 1, n, acc + [SegmentAt(d, pos, k)])
  }

  /** Segment numbers run 1, 2, ... in list order. */
  predicate NumberedSegments(ss: seq<Segment>) {
    forall j :: 0 <= j < |ss| ==> ss[j].number == j + 1
  }

  predicate NumberedStrokes(ss: seq<Stroke>) {
    forall j :: 0 <= j < |ss| ==> ss[j].number == j + 1 && NumberedSegments(ss[j].segments)
  }

  /** The four fields of a stroke header record that the decoder keeps. */
  datatype StrokeHeader = StrokeHeader(pencilCode: int, colorCode: int, penWidth: Word, count: int)

  /** The six header fields of a stroke record; the third and fifth are read and dropped. */
  function StrokeHeaderAt(d: seq<byte>, pos: nat): StrokeHeader
    requires pos + StrokeHeaderSize <= |d|
  {
    StrokeHeader(IntAt(d, pos), IntAt(d, pos + 4), WordAt(d, pos + 12), IntAt(d, pos + 20))
  }

  /** The stroke loop: six header fields, then that stroke's segment loop. */
  function StrokesFrom(d: seq<byte>, pos: nat, k: int, n: int, acc: seq<Stroke>): (r: Option<Parsed<seq<Stroke>>>)
    requires pos <= |d|
    ensures r.Some? ==> pos <= r.value.next <= |d|
    decreases |d| - pos
  {
    if k > n then Some(Parsed(acc, pos))
    else if pos + StrokeHeaderSize > |d| then None
    else
      var hd := StrokeHeaderAt(d, pos);
      match SegmentsFrom(d, pos + StrokeHeaderSize, 1, hd.count, [])
      case None => None
      case Some(segs) =>
        var stroke := Stroke(k, hd.pencilCode, hd.colorCode, hd.penWidth, segs.value);
        StrokesFrom(d, segs.next, k + 1, n, acc + [stroke])
  }

  /** A decoded layer: its number and its strokes in read order. */
  datatype LayerValue = LayerValue(number: int, strokes: seq<Stroke>)

  predicate NumberedLayers(ls: seq<LayerValue>) {
    forall j :: 0 <= j < |ls| ==> ls[j].number == j + 1 && NumberedStrokes(ls[j].strokes)
  }

  /** The layer loop: a stroke count, then that layer's stroke loop. */
  function LayersFrom(d: seq<byte>, pos: nat, k: int, n: int, acc: seq<LayerValue>): (r: Option<Parsed<seq<LayerValue>>>)
    requires pos <= |d|
    ensures r.Some? ==> pos <= r.value.next <= |d|
    decreases |d| - pos
  {
    if k > n then Some(Parsed(acc, pos))
    else if pos + 4 > |d| then None
    else
      match StrokesFrom(d, pos + 4, 1, IntAt(d, pos), [])
      case None => None
      case Some(strokes) => LayersFrom(d, strokes.next, k + 1, n, acc + [LayerValue(k, strokes.value)])
  }

  /** A decoded page: the number it was created with, the header version and the layers. */
  datatype PageValue = PageValue(pageNumber: int, version: int, layers: seq<LayerValue>)

  /**
   * The decoding constructor once the header is cut off: the layer count at
   * the start of the payload, then the layer loop.
   */
  function DecodePayload(number: int, header: seq<byte>, payload: seq<byte>): (r: Option<PageValue>)
    ensures r.Some? ==> r.value.pageNumber == number && r.value.version == HeaderVersion(header)
    ensures r.Some? ==> |payload| >= 4
  {
    if |payload| < 4 then None
    else
      match LayersFrom(payload, 4, 1, IntAt(payload, 0), [])
      case None => None
      case Some(layers) => Some(PageValue(number, HeaderVersion(header), layers.value))
  }

  /** The whole decoding constructor: header, version, then the payload after the untrimmed header. */
  function DecodePage(number: int, d: seq<byte>): (r: Option<PageValue>)
    ensures r.Some? ==> r.value.pageNumber == number && 0 <= r.value.version <= 9
    ensures r.Some? ==> HeaderEnd(d).Some? && |d| >= HeaderEnd(d).value + 4
  {
    match HeaderEnd(d)
    case None => None
    case Some(e) => DecodePayload(number, d[..e], d[e..])
  }

  // ------------------------------------------------ shape of a decoded page

  // The loop invariants of the three reading loops: the next number is one
  // more than the children read so far, and those are numbered 1, 2, ...

  lemma {:induction false} SegmentsFromShape(d: seq<byte>, pos: nat, k: int, n: int, acc: seq<Segment>)
    requires pos <= |d| && k == |acc| + 1 && NumberedSegments(acc)
    ensures var r := SegmentsFrom(d, pos, k, n, acc);
      r.Some? ==> |r.value.value| == |acc| + Remaining(k, n) && NumberedSegments(r.value.value)
    decreases |d| - pos
  {
    if k <= n && pos + SegmentSize <= |d| {
      var more := acc + [SegmentAt(d, pos, k)];
      assert NumberedSegments(more) by {
        forall j | 0 <= j < |more| ensures more[j].number == j + 1 {
          if j < |acc| { assert more[j] == acc[j]; }
        }
      }
      SegmentsFromShape(d, pos + SegmentSize, k + 1, n, more);
    }
  }

  lemma {:induction false} StrokesFromShape(d: seq<byte>, pos: nat, k: int, n: int, acc: seq<Stroke>)
    requires pos <= |d| && k == |acc| + 1 && NumberedStrokes(acc)
    ensures var r := StrokesFrom(d, pos, k, n, acc);
      r.Some? ==> |r.value.value| == |acc| + Remaining(k, n) && NumberedStrokes(r.value.value)
    decreases |d| - pos
  {
    if k <= n && pos + StrokeHeaderSize <= |d| {
      var hd := StrokeHeaderAt(d, pos);
      var segs := SegmentsFrom(d, pos + StrokeHeaderSize, 1, hd.count, []);
      SegmentsFromShape(d, pos + StrokeHeaderSize, 1, hd.count, []);
      if segs.Some? {
        var more := acc + [Stroke(k, hd.pencilCode, hd.colorCode, hd.penWidth, segs.value.value)];
        assert NumberedStrokes(more) by {
          forall j | 0 <= j < |more| ensures more[j].number == j + 1 && NumberedSegments(more[j].segments) {
            if j < |acc| { assert more[j] == acc[j]; }
          }
        }
        StrokesFromShape(d, segs.value.next, k + 1, n, more);
      }
    }
  }

  lemma {:induction false} LayersFromShape(d: seq<byte>, pos: nat, k: int, n: int, acc: seq<LayerValue>)
    requires pos <= |d| && k == |acc| + 1 && NumberedLayers(acc)
    ensures var r := LayersFrom(d, pos, k, n, acc);
      r.Some? ==> |r.value.value| == |acc| + Remaining(k, n) && NumberedLayers(r.value.value)
    decreases |d| - pos
  {
    if k <= n && pos + 4 <= |d| {
      var strokes := StrokesFrom(d, pos + 4, 1, IntAt(d, pos), []);
      StrokesFromShape(d, pos + 4, 1, IntAt(d, pos), []);
      if strokes.Some? {
        var more := acc + [LayerValue(k, strokes.value.value)];
        assert NumberedLayers(more) by {
          forall j | 0 <= j < |more| ensures more[j].number == j + 1 && NumberedStrokes(more[j].strokes) {
            if j < |acc| { assert more[j] == acc[j]; }
          }
        }
        LayersFromShape(d, strokes.value.next, k + 1, n, more);
      }
    }
  }

  /**
   * A decoded page holds exactly as many layers as its layer count declares
   * (none for a count below 1), numbered 1, 2, ... in read order, and so are
   * the strokes of every layer and the segments of every stroke.
   */
  lemma DecodedPageShape(number: int, d: seq<byte>)
    requires DecodePage(number, d).Some?
    ensures var e := HeaderEnd(d).value;
      && |DecodePage(number, d).value.layers| == Remaining(1, IntAt(d, e))
      && NumberedLayers(DecodePage(number, d).value.layers)
  {
    var e := HeaderEnd(d).value;
    var x := d[e..];
    assert IntAt(x, 0) == IntAt(d, e) by {
      assert x[0] == d[e] && x[1] == d[e + 1] && x[2] == d[e + 2] && x[3] == d[e + 3];
    }
    LayersFromShape(x, 4, 1, IntAt(x, 0), []);
  }

  // ------------------------------------------------ reading a prefix of the input

  /** A reading result as seen by a reader that holds only the first `limit` bytes. */
  function Within<T>(r: Option<Parsed<T>>, limit: nat): Option<Parsed<T>> {
    if r.Some? && r.value.next <= limit then r else None
  }

  /** A reader that holds only the first `limit` bytes reads the same words below `limit`. */
  lemma WordOfPrefix(d: seq<byte>, limit: nat, pos: nat)
    requires pos + 4 <= limit <= |d|
    ensures WordAt(d[..limit], pos) == WordAt(d, pos) && IntAt(d[..limit], pos) == IntAt(d, pos)
  {
    var p := d[..limit];
    assert p[pos] == d[pos] && p[pos + 1] == d[pos + 1] && p[pos + 2] == d[pos + 2] && p[pos + 3] == d[pos + 3];
  }

  lemma {:induction false} SegmentsPrefix(d: seq<byte>, limit: nat, pos: nat, k: int, n: int, acc: seq<Segment>)
    requires pos <= limit <= |d|
    ensures SegmentsFrom(d[..limit], pos, k, n, acc) == Within(SegmentsFrom(d, pos, k, n, acc), limit)
    decreases |d| - pos
  {
    if k <= n && pos + SegmentSize <= limit {
      assert SegmentAt(d[..limit], pos, k) == SegmentAt(d, pos, k);
      SegmentsPrefix(d, limit, pos + SegmentSize, k + 1, n, acc + [SegmentAt(d, pos, k)]);
    }
  }

  lemma {:induction false} StrokesPrefix(d: seq<byte>, limit: nat, pos: nat, k: int, n: int, acc: seq<Stroke>)
    requires pos <= limit <= |d|
    ensures StrokesFrom(d[..limit], pos, k, n, acc) == Within(StrokesFrom(d, pos, k, n, acc), limit)
    decreases |d| - pos
  {
    if k <= n && pos + StrokeHeaderSize <= limit {
      WordOfPrefix(d, limit, pos);
      WordOfPrefix(d, limit, pos + 4);
      WordOfPrefix(d, limit, pos + 12);
      WordOfPrefix(d, limit, pos + 20);
      var hd := StrokeHeaderAt(d, pos);
      assert StrokeHeaderAt(d[..limit], pos) == hd;
      var count := hd.count;
      SegmentsPrefix(d, limit, pos + StrokeHeaderSize, 1, count, []);
      var full := SegmentsFrom(d, pos + StrokeHeaderSize, 1, count, []);
      if full.Some? && full.value.next <= limit {
        var stroke := Stroke(k, hd.pencilCode, hd.colorCode, hd.penWidth, full.value.value);
        StrokesPrefix(d, limit, full.value.next, k + 1, n, acc + [stroke]);
      }
    }
  }

  lemma {:induction false} LayersPrefix(d: seq<byte>, limit: nat, pos: nat, k: int, n: int, acc: seq<LayerValue>)
    requires pos <= limit <= |d|
    ensures LayersFrom(d[..limit], pos, k, n, acc) == Within(LayersFrom(d, pos, k, n, acc), limit)
    decreases |d| - pos
  {
    if k <= n && pos + 4 <= limit {
      assert IntAt(d[..limit], pos) == IntAt(d, pos);
      var count := IntAt(d, pos);
      StrokesPrefix(d, limit, pos + 4, 1, count, []);
      var full := StrokesFrom(d, pos + 4, 1, count, []);
      if full.Some? && full.value.next <= limit {
        LayersPrefix(d, limit, full.value.next, k + 1, n, acc + [LayerValue(k, full.value.value)]);
      }
    }
  }

  /** Once the header is known, a page decodes as its payload does. */
  lemma HeaderCut(number: int, d: seq<byte>, h: seq<byte>, x: seq<byte>)
    requires HeaderEnd(d) == Some(|h|) && |h| <= |d| && d[..|h|] == h && d[|h|..] == x
    ensures DecodePage(number, d) == DecodePayload(number, h, x)
  {
  }

  /** Bytes after the last layer record of a payload are never looked at. */
  lemma PayloadIgnoresJunk(number: int, h: seq<byte>, c: seq<byte>, junk: seq<byte>)
    requires DecodePayload(number, h, c).Some?
    ensures DecodePayload(number, h, c + junk) == DecodePayload(number, h, c)
  {
    var cj := c + junk;
    assert cj[..|c|] == c;
    WordOfPrefix(cj, |c|, 0);
    LayersPrefix(cj, |c|, 4, 1, IntAt(c, 0), []);
  }

  /** Cutting `d + junk` at a point inside `d`. */
  lemma SplitWithJunk(d: seq<byte>, junk: seq<byte>, e: nat)
    requires e <= |d|
    ensures (d + junk)[..e] == d[..e] && (d + junk)[e..] == d[e..] + junk
  {
    assert (d + junk)[..e] == d[..e];
    assert (d + junk)[e..] == d[e..] + junk;
  }

  /** Bytes after the last declared record are never looked at. */
  lemma TrailingBytesIgnored(number: int, d: seq<byte>, junk: seq<byte>)
    requires DecodePage(number, d).Some?
    ensures DecodePage(number, d + junk) == DecodePage(number, d)
  {
    var e := HeaderEnd(d).value;
    HeaderUnchanged(d, junk, 0);
    SplitWithJunk(d, junk, e);
    HeaderCut(number, d, d[..e], d[e..]);
    HeaderCut(number, d + junk, d[..e], d[e..] + junk);
    PayloadIgnoresJunk(number, d[..e], d[e..], junk);
  }

  /** Appending bytes after a complete header does not move where the header ends. */
  lemma {:induction false} HeaderUnchanged(d: seq<byte>, junk: seq<byte>, i: nat)
    requires i <= HeaderScanLimit && i <= |d|
    requires ScanHeader(d, i).Some?
    ensures ScanHeader(d + junk, i) == ScanHeader(d, i)
    decreases HeaderScanLimit - i
  {
    if i < HeaderScanLimit {
      assert (d + junk)[i] == d[i];
      if Printable(d[i]) {
        HeaderUnchanged(d, junk, i + 1);
      }
    }
  }

  // ----------------------------------------------------------------- encoder

  /** Two's complement of a Java int as 32 raw bits. */
  function IntWord(i: int): (w: Word)
    requires IsInt32(i)
    ensures Signed(w) == i
  {
    if i >= 0 then i as Word else (i + 0x1_0000_0000) as Word
  }

  /** The four little-endian bytes of a word. */
  function WordBytes(w: Word): (b: seq<byte>)
    ensures |b| == 4
  {
    var w0 := w as int;
    var w1 := w0 / 256;
    var w2 := w1 / 256;
    [(w0 % 256) as byte, (w1 % 256) as byte, (w2 % 256) as byte, (w2 / 256) as byte]
  }

  function EncodeWords(ws: seq<Word>): (b: seq<byte>)
    ensures |b| == 4 * |ws|
  {
    if |ws| == 0 then [] else WordBytes(ws[0]) + EncodeWords(ws[1..])
  }

  function SegmentWords(s: Segment): seq<Word> {
    [s.x, s.y, s.speed, s.direction, s.width, s.pressure]
  }

  function EncodeSegment(s: Segment): (b: seq<byte>)
    ensures |b| == SegmentSize
  {
    EncodeWords(SegmentWords(s))
  }

  function EncodeSegments(ss: seq<Segment>): (b: seq<byte>)
    ensures |b| == SegmentSize * |ss|
  {
    if |ss| == 0 then [] else EncodeSegment(ss[0]) + EncodeSegments(ss[1..])
  }

  /** The counts and codes of a stroke fit in Java ints, as the format stores them. */
  predicate StrokeFits(s: Stroke) {
    IsInt32(s.pencilCode) && IsInt32(s.colorCode) && |s.segments| <= INT_MAX
  }

  /** The six header fields of a stroke; the two unused ints are written as 0. */
  function StrokeHeaderWords(s: Stroke): seq<Word>
    requires StrokeFits(s)
  {
    [IntWord(s.pencilCode), IntWord(s.colorCode), 0, s.penWidth, 0, IntWord(|s.segments|)]
  }

  /** Bytes of one stroke record: the six header fields, then six floats per segment. */
  function StrokeSize(s: Stroke): nat {
    StrokeHeaderSize + SegmentSize * |s.segments|
  }

  function StrokesSize(ss: seq<Stroke>): nat {
    if |ss| == 0 then 0 else StrokeSize(ss[0]) + StrokesSize(ss[1..])
  }

  /** Bytes of one layer record: its stroke count, then its strokes. */
  function LayerSize(l: LayerValue): nat {
    4 + StrokesSize(l.strokes)
  }

  function LayersSize(ls: seq<LayerValue>): nat {
    if |ls| == 0 then 0 else LayerSize(ls[0]) + LayersSize(ls[1..])
  }

  function EncodeStroke(s: Stroke): (b: seq<byte>)
    requires StrokeFits(s)
    ensures |b| == StrokeSize(s)
  {
    EncodeWords(StrokeHeaderWords(s)) + EncodeSegments(s.segments)
  }

  function EncodeStrokes(ss: seq<Stroke>): (b: seq<byte>)
    requires forall j :: 0 <= j < |ss| ==> StrokeFits(ss[j])
    ensures |b| == StrokesSize(ss)
  {
    if |ss| == 0 then [] else EncodeStroke(ss[0]) + EncodeStrokes(ss[1..])
  }

  predicate LayerFits(l: LayerValue) {
    |l.strokes| <= INT_MAX && forall j :: 0 <= j < |l.strokes| ==> StrokeFits(l.strokes[j])
  }

  function EncodeLayer(l: LayerValue): (b: seq<byte>)
    requires LayerFits(l)
    ensures |b| == LayerSize(l)
  {
    WordBytes(IntWord(|l.strokes|)) + EncodeStrokes(l.strokes)
  }

  function EncodeLayers(ls: seq<LayerValue>): (b: seq<byte>)
    requires forall j :: 0 <= j < |ls| ==> LayerFits(ls[j])
    ensures |b| == LayersSize(ls)
  {
    if |ls| == 0 then [] else EncodeLayer(ls[0]) + EncodeLayers(ls[1..])
  }

  /** Characters of a header made of ASCII text, one byte each. */
  function TextBytes(s: String): (b: seq<byte>)
    requires forall k :: 0 <= k < |s| ==> s[k] as int < 128
    ensures |b| == |s|
  {
    seq(|s|, k requires 0 <= k < |s| => s[k] as int as byte)
  }

  /** The header line as the device writes it: prefix, version digit, ten blanks (43 bytes). */
  function HeaderLine(version: int): (s: String)
    requires 0 <= version <= 9
    ensures |s| == 43
    ensures forall k :: 0 <= k < |s| ==> ' ' <= s[k] <= '~'
  {
    var s := HeaderPrefix + [DigitChar(version)] + "          ";
    assert forall k :: 0 <= k < |s| ==> ' ' <= s[k] <= '~' by {
      assert forall c :: c in Header ==> ' ' <= c <= '~';
      forall k | 0 <= k < |s| ensures ' ' <= s[k] <= '~' {
        if k < 32 {
          assert s[k] == Header[k] && Header[k] in Header;
        }
      }
    }
    s
  }

  function EncodeHeader(version: int): (b: seq<byte>)
    requires 0 <= version <= 9
    ensures |b| == 43
  {
    TextBytes(HeaderLine(version))
  }

  /**
   * A page the format can represent and the decoder reads back: a one-digit
   * version, counts that fit in Java ints, children numbered 1..n as the
   * loops number them, and a layer count whose first byte is not printable
   * (otherwise the header scan would swallow it).
   */
  predicate Encodable(p: PageValue) {
    && 0 <= p.version <= 9
    && |p.layers| <= INT_MAX
    && !Printable((|p.layers| % 256) as byte)
    && NumberedLayers(p.layers)
    && forall j :: 0 <= j < |p.layers| ==> LayerFits(p.layers[j])
  }

  function EncodePage(p: PageValue): seq<byte>
    requires Encodable(p)
  {
    EncodeHeader(p.version) + WordBytes(IntWord(|p.layers|)) + EncodeLayers(p.layers)
  }

  // ---------------------------------------------------------- round trip

  /** `x + y` found at `pos` means `x` at `pos` and `y` right after it. */
  lemma SliceSplit(d: seq<byte>, pos: nat, x: seq<byte>, y: seq<byte>)
    requires pos + |x| + |y| <= |d| && d[pos..pos + |x| + |y|] == x + y
    ensures d[pos..pos + |x|] == x && d[pos + |x|..pos + |x| + |y|] == y
  {
    var z := d[pos..pos + |x| + |y|];
    assert d[pos..pos + |x|] == z[..|x|];
    assert d[pos + |x|..pos + |x| + |y|] == z[|x|..];
  }

  lemma WordRoundTrip(d: seq<byte>, pos: nat, w: Word)
    requires pos + 4 <= |d| && d[pos..pos + 4] == WordBytes(w)
    ensures WordAt(d, pos) == w
  {
    var w0 := w as int;
    var w1 := w0 / 256;
    var w2 := w1 / 256;
    var b := d[pos..pos + 4];
    assert d[pos] == b[0] && d[pos + 1] == b[1] && d[pos + 2] == b[2] && d[pos + 3] == b[3];
    assert d[pos] as int == w0 % 256 && d[pos + 1] as int == w1 % 256;
    assert d[pos + 2] as int == w2 % 256 && d[pos + 3] as int == w2 / 256;
  }

  lemma {:induction false} WordsRoundTrip(d: seq<byte>, pos: nat, ws: seq<Word>, j: nat)
    requires pos + 4 * |ws| <= |d| && d[pos..pos + 4 * |ws|] == EncodeWords(ws)
    requires j < |ws|
    ensures WordAt(d, pos + 4 * j) == ws[j]
    decreases j
  {
    SliceSplit(d, pos, WordBytes(ws[0]), EncodeWords(ws[1..]));
    if j == 0 {
      WordRoundTrip(d, pos, ws[0]);
    } else {
      WordsRoundTrip(d, pos + 4, ws[1..], j - 1);
    }
  }

  /** A reading loop that succeeds with exactly `value`, leaving the cursor at `next`. */
  predicate Yields<T(==)>(r: Option<Parsed<T>>, value: T, next: nat) {
    (r.Some? && r.value.value == value && r.value.next == next) == true
  }

  // The field layout of the payload: which word sits at which offset. The
  // decoder reads back exactly what the layout describes, and the encoder
  // produces bytes with that layout; the two halves meet in DecodeEncodedPage.

  predicate SegmentLaidOut(d: seq<byte>, pos: nat, s: Segment) {
    pos + SegmentSize <= |d| && SegmentAt(d, pos, s.number) == s
  }

  predicate SegmentsLaidOut(d: seq<byte>, pos: nat, ss: seq<Segment>)
    decreases ss
  {
    (if |ss| == 0 then pos <= |d|
     else SegmentLaidOut(d, pos, ss[0]) && SegmentsLaidOut(d, pos + SegmentSize, ss[1..])) == true
  }

  /** The header fields a stroke is read from. */
  function HeaderOf(s: Stroke): StrokeHeader {
    StrokeHeader(s.pencilCode, s.colorCode, s.penWidth, |s.segments|)
  }

  predicate StrokeLaidOut(d: seq<byte>, pos: nat, s: Stroke) {
    (&& pos + StrokeHeaderSize <= |d| && StrokeHeaderAt(d, pos) == HeaderOf(s)
     && SegmentsLaidOut(d, pos + StrokeHeaderSize, s.segments)) == true
  }

  predicate StrokesLaidOut(d: seq<byte>, pos: nat, ss: seq<Stroke>)
    decreases ss
  {
    (if |ss| == 0 then pos <= |d|
     else StrokeLaidOut(d, pos, ss[0]) && StrokesLaidOut(d, pos + StrokeSize(ss[0]), ss[1..])) == true
  }

  predicate LayerLaidOut(d: seq<byte>, pos: nat, l: LayerValue) {
    (pos + 4 <= |d| && IntAt(d, pos) == |l.strokes| && StrokesLaidOut(d, pos + 4, l.strokes)) == true
  }

  predicate LayersLaidOut(d: seq<byte>, pos: nat, ls: seq<LayerValue>)
    decreases ls
  {
    (if |ls| == 0 then pos <= |d|
     else LayerLaidOut(d, pos, ls[0]) && LayersLaidOut(d, pos + LayerSize(ls[0]), ls[1..])) == true
  }

  // --- the decoder reads a laid-out payload

  lemma {:induction false} SegmentsRead(d: seq<byte>, pos: nat, ss: seq<Segment>, k: int, n: int, acc: seq<Segment>)
    requires pos + SegmentSize * |ss| <= |d| && SegmentsLaidOut(d, pos, ss)
    requires n == k + |ss| - 1 && forall j :: 0 <= j < |ss| ==> ss[j].number == k + j
    ensures Yields(SegmentsFrom(d, pos, k, n, acc), acc + ss, pos + SegmentSize * |ss|)
    decreases ss
  {
    if |ss| == 0 {
      assert acc + ss == acc;
    } else {
      assert SegmentAt(d, pos, k) == ss[0];
      SegmentsRead(d, pos + SegmentSize, ss[1..], k + 1, n, acc + [ss[0]]);
      assert acc + [ss[0]] + ss[1..] == acc + ss;
    }
  }

  /**
   * One laid-out stroke record is read whole: when the stroke loop, resumed
   * after the record, yields `v`, the loop started at the record yields `v` too.
   */
  lemma StrokeRead(d: seq<byte>, pos: nat, s: Stroke, k: int, n: int, acc: seq<Stroke>, v: seq<Stroke>, next: nat)
    requires pos + StrokeSize(s) <= |d| && StrokeLaidOut(d, pos, s)
    requires NumberedSegments(s.segments) && s.number == k && k <= n
    requires Yields(StrokesFrom(d, pos + StrokeSize(s), k + 1, n, acc + [s]), v, next)
    ensures Yields(StrokesFrom(d, pos, k, n, acc), v, next)
  {
    assert [] + s.segments == s.segments;
    SegmentsRead(d, pos + StrokeHeaderSize, s.segments, 1, |s.segments|, []);
  }

  lemma {:induction false} StrokesRead(d: seq<byte>, pos: nat, ss: seq<Stroke>, k: int, n: int, acc: seq<Stroke>)
    requires pos + StrokesSize(ss) <= |d| && StrokesLaidOut(d, pos, ss)
    requires n == k + |ss| - 1 && forall j :: 0 <= j < |ss| ==> ss[j].number == k + j && NumberedSegments(ss[j].segments)
    ensures Yields(StrokesFrom(d, pos, k, n, acc), acc + ss, pos + StrokesSize(ss))
    decreases ss
  {
    if |ss| == 0 {
      assert acc + ss == acc;
    } else {
      var s := ss[0];
      StrokesRead(d, pos + StrokeSize(s), ss[1..], k + 1, n, acc + [s]);
      assert acc + [s] + ss[1..] == acc + ss;
      StrokeRead(d, pos, s, k, n, acc, acc + ss, pos + StrokesSize(ss));
    }
  }

  /** One step of the layer loop: a layer whose stroke loop yields `strokes`, then the rest of the loop. */
  lemma LayersStep(d: seq<byte>, pos: nat, k: int, n: int, acc: seq<LayerValue>, strokes: seq<Stroke>, next: nat)
    requires k <= n && pos + 4 <= |d|
    requires Yields(StrokesFrom(d, pos + 4, 1, IntAt(d, pos), []), strokes, next)
    ensures LayersFrom(d, pos, k, n, acc) == LayersFrom(d, next, k + 1, n, acc + [LayerValue(k, strokes)])
  {
  }

  /** One step of the stroke loop: a stroke header, a segment loop that yields `segments`, then the rest of the loop. */
  lemma StrokesStep(d: seq<byte>, pos: nat, k: int, n: int, acc: seq<Stroke>, segments: seq<Segment>, next: nat)
    requires k <= n && pos + StrokeHeaderSize <= |d|
    requires Yields(SegmentsFrom(d, pos + StrokeHeaderSize, 1, StrokeHeaderAt(d, pos).count, []), segments, next)
    ensures StrokesFrom(d, pos, k, n, acc) == StrokesFrom(d, next, k + 1, n, acc + [Stroke(k, StrokeHeaderAt(d, pos).pencilCode,
              StrokeHeaderAt(d, pos).colorCode, StrokeHeaderAt(d, pos).penWidth, segments)])
  {
  }

  /** One laid-out layer record is read whole; the layer loop resumed after it decides the rest. */
  lemma LayerRead(d: seq<byte>, pos: nat, l: LayerValue, k: int, n: int, acc: seq<LayerValue>, v: seq<LayerValue>, next: nat)
    requires pos + LayerSize(l) <= |d| && LayerLaidOut(d, pos, l)
    requires NumberedStrokes(l.strokes) && l.number == k && k <= n
    requires Yields(LayersFrom(d, pos + LayerSize(l), k + 1, n, acc + [l]), v, next)
    ensures Yields(LayersFrom(d, pos, k, n, acc), v, next)
  {
    assert [] + l.strokes == l.strokes;
    StrokesRead(d, pos + 4, l.strokes, 1, |l.strokes|, []);
    LayersStep(d, pos, k, n, acc, l.strokes, pos + LayerSize(l));
    assert LayerValue(k, l.strokes) == l;
  }

  lemma {:induction false} LayersRead(d: seq<byte>, pos: nat, ls: seq<LayerValue>, k: int, n: int, acc: seq<LayerValue>)
    requires pos + LayersSize(ls) <= |d| && LayersLaidOut(d, pos, ls)
    requires n == k + |ls| - 1 && forall j :: 0 <= j < |ls| ==> ls[j].number == k + j && NumberedStrokes(ls[j].strokes)
    ensures Yields(LayersFrom(d, pos, k, n, acc), acc + ls, pos + LayersSize(ls))
    decreases ls
  {
    if |ls| == 0 {
      assert acc + ls == acc;
    } else {
      var l := ls[0];
      LayersRead(d, pos + LayerSize(l), ls[1..], k + 1, n, acc + [l]);
      assert acc + [l] + ls[1..] == acc + ls;
      LayerRead(d, pos, l, k, n, acc, acc + ls, pos + LayersSize(ls));
    }
  }

  // --- a layout found inside a larger input

  // Each lemma below carries a layout of `e` found at `pos` of `d` over to
  // `d`; `at` names the position in `d`, `pos + q`, as the caller writes it.

  /** A word of `e` is the same word of `d` once `e` is found at `pos` of `d`. */
  lemma ShiftWord(d: seq<byte>, pos: nat, e: seq<byte>, q: nat, at: nat)
    requires pos + |e| <= |d| && d[pos..pos + |e|] == e
    requires q + 4 <= |e| && at == pos + q
    ensures WordAt(d, at) == WordAt(e, q)
  {
    assert d[at] == e[q] && d[at + 1] == e[q + 1];
    assert d[at + 2] == e[q + 2] && d[at + 3] == e[q + 3];
  }

  lemma ShiftSegment(d: seq<byte>, pos: nat, e: seq<byte>, q: nat, at: nat, s: Segment)
    requires pos + |e| <= |d| && d[pos..pos + |e|] == e
    requires SegmentLaidOut(e, q, s) && at == pos + q
    ensures SegmentLaidOut(d, at, s)
  {
    ShiftWord(d, pos, e, q, at);
    ShiftWord(d, pos, e, q + 4, at + 4);
    ShiftWord(d, pos, e, q + 8, at + 8);
    ShiftWord(d, pos, e, q + 12, at + 12);
    ShiftWord(d, pos, e, q + 16, at + 16);
    ShiftWord(d, pos, e, q + 20, at + 20);
  }

  lemma {:induction false} ShiftSegments(d: seq<byte>, pos: nat, e: seq<byte>, q: nat, at: nat, ss: seq<Segment>)
    requires pos + |e| <= |d| && d[pos..pos + |e|] == e
    requires SegmentsLaidOut(e, q, ss) && at == pos + q
    ensures SegmentsLaidOut(d, at, ss)
    decreases ss
  {
    if |ss| > 0 {
      ShiftSegment(d, pos, e, q, at, ss[0]);
      ShiftSegments(d, pos, e, q + SegmentSize, at + SegmentSize, ss[1..]);
    }
  }

  lemma ShiftHeader(d: seq<byte>, pos: nat, e: seq<byte>, q: nat, at: nat)
    requires pos + |e| <= |d| && d[pos..pos + |e|] == e
    requires q + StrokeHeaderSize <= |e| && at == pos + q
    ensures StrokeHeaderAt(d, at) == StrokeHeaderAt(e, q)
  {
    ShiftWord(d, pos, e, q, at);
    ShiftWord(d, pos, e, q + 4, at + 4);
    ShiftWord(d, pos, e, q + 12, at + 12);
    ShiftWord(d, pos, e, q + 20, at + 20);
  }

  lemma ShiftStroke(d: seq<byte>, pos: nat, e: seq<byte>, q: nat, at: nat, s: Stroke)
    requires pos + |e| <= |d| && d[pos..pos + |e|] == e
    requires StrokeLaidOut(e, q, s) && at == pos + q
    ensures StrokeLaidOut(d, at, s)
  {
    ShiftHeader(d, pos, e, q, at);
    ShiftSegments(d, pos, e, q + StrokeHeaderSize, at + StrokeHeaderSize, s.segments);
  }

  lemma {:induction false} ShiftStrokes(d: seq<byte>, pos: nat, e: seq<byte>, q: nat, at: nat, ss: seq<Stroke>)
    requires pos + |e| <= |d| && d[pos..pos + |e|] == e
    requires StrokesLaidOut(e, q, ss) && at == pos + q
    ensures StrokesLaidOut(d, at, ss)
    decreases ss
  {
    if |ss| > 0 {
      ShiftStroke(d, pos, e, q, at, ss[0]);
      ShiftStrokes(d, pos, e, q + StrokeSize(ss[0]), at + StrokeSize(ss[0]), ss[1..]);
    }
  }

  lemma ShiftLayer(d: seq<byte>, pos: nat, e: seq<byte>, q: nat, at: nat, l: LayerValue)
    requires pos + |e| <= |d| && d[pos..pos + |e|] == e
    requires LayerLaidOut(e, q, l) && at == pos + q
    ensures LayerLaidOut(d, at, l)
  {
    ShiftWord(d, pos, e, q, at);
    ShiftStrokes(d, pos, e, q + 4, at + 4, l.strokes);
  }

  lemma {:induction false} ShiftLayers(d: seq<byte>, pos: nat, e: seq<byte>, q: nat, at: nat, ls: seq<LayerValue>)
    requires pos + |e| <= |d| && d[pos..pos + |e|] == e
    requires LayersLaidOut(e, q, ls) && at == pos + q
    ensures LayersLaidOut(d, at, ls)
    decreases ls
  {
    if |ls| > 0 {
      ShiftLayer(d, pos, e, q, at, ls[0]);
      ShiftLayers(d, pos, e, q + LayerSize(ls[0]), at + LayerSize(ls[0]), ls[1..]);
    }
  }

  /** `a + b` holds `a` at its start and `b` right after it. */
  lemma Halves(a: seq<byte>, b: seq<byte>)
    ensures (a + b)[0..|a|] == a && (a + b)[|a|..|a| + |b|] == b
  {
    assert (a + b)[0..|a|] == a;
    assert (a + b)[|a|..|a| + |b|] == b;
  }

  /** `a + b + c` holds `a` at its start and `b` right after it. */
  lemma Thirds(a: seq<byte>, b: seq<byte>, c: seq<byte>)
    ensures (a + b + c)[0..|a|] == a && (a + b + c)[|a|..|a| + |b|] == b
  {
    assert (a + b + c)[0..|a|] == a;
    assert (a + b + c)[|a|..|a| + |b|] == b;
  }

  // --- the encoder lays the payload out

  lemma SegmentsConcat(a: seq<byte>, b: seq<byte>, ss: seq<Segment>)
    requires |ss| > 0
    requires |a| == SegmentSize && SegmentLaidOut(a, 0, ss[0])
    requires |b| == SegmentSize * |ss[1..]| && SegmentsLaidOut(b, 0, ss[1..])
    ensures SegmentsLaidOut(a + b, 0, ss)
  {
    assert SegmentLaidOut(a + b, 0, ss[0]) by {
      Halves(a, b);
      ShiftSegment(a + b, 0, a, 0, 0, ss[0]);
    }
    assert SegmentsLaidOut(a + b, SegmentSize, ss[1..]) by {
      Halves(a, b);
      ShiftSegments(a + b, |a|, b, 0, SegmentSize, ss[1..]);
    }
  }

  lemma EncodedSegmentLaidOut(s: Segment)
    ensures SegmentLaidOut(EncodeSegment(s), 0, s)
  {
    var e := EncodeSegment(s);
    var ws := SegmentWords(s);
    assert e[0..|e|] == e;
    WordsRoundTrip(e, 0, ws, 0);
    WordsRoundTrip(e, 0, ws, 1);
    WordsRoundTrip(e, 0, ws, 2);
    WordsRoundTrip(e, 0, ws, 3);
    WordsRoundTrip(e, 0, ws, 4);
    WordsRoundTrip(e, 0, ws, 5);
  }

  lemma {:induction false} EncodedSegmentsLaidOut(ss: seq<Segment>)
    ensures SegmentsLaidOut(EncodeSegments(ss), 0, ss)
    decreases ss
  {
    if |ss| > 0 {
      EncodedSegmentLaidOut(ss[0]);
      EncodedSegmentsLaidOut(ss[1..]);
      SegmentsConcat(EncodeSegment(ss[0]), EncodeSegments(ss[1..]), ss);
    }
  }

  lemma StrokeHeaderRoundTrip(d: seq<byte>, pos: nat, s: Stroke)
    requires StrokeFits(s)
    requires pos + StrokeHeaderSize <= |d| && d[pos..pos + StrokeHeaderSize] == EncodeWords(StrokeHeaderWords(s))
    ensures StrokeHeaderAt(d, pos) == HeaderOf(s)
  {
    var ws := StrokeHeaderWords(s);
    WordsRoundTrip(d, pos, ws, 0);
    WordsRoundTrip(d, pos, ws, 1);
    WordsRoundTrip(d, pos, ws, 3);
    WordsRoundTrip(d, pos, ws, 5);
  }

  /** A stroke header record followed by the segment records makes one stroke record. */
  lemma StrokeConcat(h: seq<byte>, g: seq<byte>, s: Stroke)
    requires |h| == StrokeHeaderSize && |g| == SegmentSize * |s.segments|
    requires StrokeHeaderAt(h, 0) == HeaderOf(s)
    requires SegmentsLaidOut(g, 0, s.segments)
    ensures StrokeLaidOut(h + g, 0, s)
  {
    Halves(h, g);
    ShiftHeader(h + g, 0, h, 0, 0);
    ShiftSegments(h + g, |h|, g, 0, StrokeHeaderSize, s.segments);
  }

  lemma EncodedStrokeLaidOut(s: Stroke)
    requires StrokeFits(s)
    ensures StrokeLaidOut(EncodeStroke(s), 0, s)
  {
    var h := EncodeWords(StrokeHeaderWords(s));
    assert h[0..StrokeHeaderSize] == h;
    StrokeHeaderRoundTrip(h, 0, s);
    EncodedSegmentsLaidOut(s.segments);
    StrokeConcat(h, EncodeSegments(s.segments), s);
  }

  lemma StrokesConcat(a: seq<byte>, b: seq<byte>, ss: seq<Stroke>)
    requires |ss| > 0
    requires |a| == StrokeSize(ss[0]) && StrokeLaidOut(a, 0, ss[0])
    requires |b| == StrokesSize(ss[1..]) && StrokesLaidOut(b, 0, ss[1..])
    ensures StrokesLaidOut(a + b, 0, ss)
  {
    assert StrokeLaidOut(a + b, 0, ss[0]) by {
      Halves(a, b);
      ShiftStroke(a + b, 0, a, 0, 0, ss[0]);
    }
    assert StrokesLaidOut(a + b, StrokeSize(ss[0]), ss[1..]) by {
      Halves(a, b);
      ShiftStrokes(a + b, |a|, b, 0, StrokeSize(ss[0]), ss[1..]);
    }
  }

  lemma {:induction false} EncodedStrokesLaidOut(ss: seq<Stroke>)
    requires forall j :: 0 <= j < |ss| ==> StrokeFits(ss[j])
    ensures StrokesLaidOut(EncodeStrokes(ss), 0, ss)
    decreases ss
  {
    if |ss| > 0 {
      EncodedStrokeLaidOut(ss[0]);
      EncodedStrokesLaidOut(ss[1..]);
      StrokesConcat(EncodeStroke(ss[0]), EncodeStrokes(ss[1..]), ss);
    }
  }

  /** A stroke count followed by the stroke records makes one layer record. */
  lemma LayerConcat(c: seq<byte>, g: seq<byte>, l: LayerValue)
    requires |c| == 4 && IntAt(c, 0) == |l.strokes|
    requires |g| == StrokesSize(l.strokes) && StrokesLaidOut(g, 0, l.strokes)
    ensures LayerLaidOut(c + g, 0, l)
  {
    Halves(c, g);
    ShiftWord(c + g, 0, c, 0, 0);
    ShiftStrokes(c + g, |c|, g, 0, 4, l.strokes);
  }

  lemma EncodedLayerLaidOut(l: LayerValue)
    requires LayerFits(l)
    ensures LayerLaidOut(EncodeLayer(l), 0, l)
  {
    var c := WordBytes(IntWord(|l.strokes|));
    assert c[0..4] == c;
    WordRoundTrip(c, 0, IntWord(|l.strokes|));
    EncodedStrokesLaidOut(l.strokes);
    LayerConcat(c, EncodeStrokes(l.strokes), l);
  }

  lemma LayersConcat(a: seq<byte>, b: seq<byte>, ls: seq<LayerValue>)
    requires |ls| > 0
    requires |a| == LayerSize(ls[0]) && LayerLaidOut(a, 0, ls[0])
    requires |b| == LayersSize(ls[1..]) && LayersLaidOut(b, 0, ls[1..])
    ensures LayersLaidOut(a + b, 0, ls)
  {
    assert LayerLaidOut(a + b, 0, ls[0]) by {
      Halves(a, b);
      ShiftLayer(a + b, 0, a, 0, 0, ls[0]);
    }
    assert LayersLaidOut(a + b, LayerSize(ls[0]), ls[1..]) by {
      Halves(a, b);
      ShiftLayers(a + b, |a|, b, 0, LayerSize(ls[0]), ls[1..]);
    }
  }

  lemma {:induction false} EncodedLayersLaidOut(ls: seq<LayerValue>)
    requires forall j :: 0 <= j < |ls| ==> LayerFits(ls[j])
    ensures LayersLaidOut(EncodeLayers(ls), 0, ls)
    decreases ls
  {
    if |ls| > 0 {
      EncodedLayerLaidOut(ls[0]);
      EncodedLayersLaidOut(ls[1..]);
      LayersConcat(EncodeLayer(ls[0]), EncodeLayers(ls[1..]), ls);
    }
  }

  /** The scan from `i` stops at the first byte that is not printable, when that comes before the limit. */
  lemma {:induction false} ScanStops(d: seq<byte>, i: nat, e: nat)
    requires i <= e < HeaderScanLimit && e < |d|
    requires forall k :: i <= k < e ==> Printable(d[k])
    requires !Printable(d[e])
    ensures ScanHeader(d, i) == Some(e)
    decreases e - i
  {
    if i < e {
      ScanStops(d, i + 1, e);
    }
  }

  /** A printable run shorter than the scan limit, ended by a byte that is not printable, is the header. */
  lemma PrefixHeaderEnd(h: seq<byte>, x: seq<byte>)
    requires |h| < HeaderScanLimit && forall k :: 0 <= k < |h| ==> Printable(h[k])
    requires |x| > 0 && !Printable(x[0])
    ensures HeaderEnd(h + x) == Some(|h|)
    ensures (h + x)[..|h|] == h && (h + x)[|h|..] == x
  {
    var d := h + x;
    assert forall k :: 0 <= k < |h| ==> Printable(d[k]) by {
      forall k | 0 <= k < |h| ensures Printable(d[k]) { assert d[k] == h[k]; }
    }
    assert d[|h|] == x[0];
    ScanStops(d, 0, |h|);
    assert d[..|h|] == h;
    assert d[|h|..] == x;
  }

  /** Every byte of the written header line is printable. */
  lemma EncodedHeaderPrintable(version: int)
    requires 0 <= version <= 9
    ensures forall k :: 0 <= k < |EncodeHeader(version)| ==> Printable(EncodeHeader(version)[k])
  {
    var line := HeaderLine(version);
    forall k | 0 <= k < |EncodeHeader(version)| ensures Printable(EncodeHeader(version)[k]) {
      assert EncodeHeader(version)[k] == line[k] as int as byte;
    }
  }

  /** The version digit of the written header line is read back. */
  lemma HeaderVersionRoundTrip(version: int)
    requires 0 <= version <= 9
    ensures HeaderVersion(EncodeHeader(version)) == version
  {
    var h := EncodeHeader(version);
    var line := HeaderLine(version);
    HeaderLineShape(version);
    assert HeaderText(h) == line by {
      forall k | 0 <= k < |h| ensures HeaderText(h)[k] == line[k] {
        assert h[k] == line[k] as int as byte;
      }
    }
    assert LeadingBlanks(line) == 0;
    assert line[LeadingBlanks(line)..] == line;
    TrailingCutAt(line, 33);
    var t := Trim(line);
    assert t == line[..33];
    assert StartsWith(t, HeaderPrefix) by { assert t[..32] == line[..32]; }
    assert t[32] == DigitChar(version);
  }

  /** The written header line: the prefix, the version digit, then ten blanks. */
  lemma HeaderLineShape(version: int)
    requires 0 <= version <= 9
    ensures |HeaderPrefix| == 32 && HeaderPrefix[0] == 'r'
    ensures HeaderLine(version)[..32] == HeaderPrefix && HeaderLine(version)[32] == DigitChar(version)
    ensures forall k :: 33 <= k < 43 ==> HeaderLine(version)[k] == ' '
  {
    var line := HeaderLine(version);
    assert line == HeaderPrefix + [DigitChar(version)] + "          ";
    assert line[..32] == HeaderPrefix;
  }

  /** The low byte of a non-negative count is the first byte written for it. */
  lemma CountFirstByte(n: nat, rest: seq<byte>)
    requires n <= INT_MAX
    ensures (WordBytes(IntWord(n)) + rest)[0] == (n % 256) as byte
  {
  }

  /** A payload from which the layer loop reads `ls` decodes to a page holding `ls`. */
  lemma PayloadParts(number: int, h: seq<byte>, x: seq<byte>, ls: seq<LayerValue>, next: nat)
    requires |x| >= 4 && Yields(LayersFrom(x, 4, 1, IntAt(x, 0), []), ls, next)
    ensures DecodePayload(number, h, x) == Some(PageValue(number, HeaderVersion(h), ls))
  {
  }

  /** A payload that starts with the layer count and continues with laid-out layer records is read back whole. */
  lemma PayloadRead(x: seq<byte>, ls: seq<LayerValue>)
    requires NumberedLayers(ls)
    requires 4 + LayersSize(ls) <= |x| && IntAt(x, 0) == |ls| && LayersLaidOut(x, 4, ls)
    ensures Yields(LayersFrom(x, 4, 1, IntAt(x, 0), []), ls, 4 + LayersSize(ls))
  {
    LayersRead(x, 4, ls, 1, |ls|, []);
    assert [] + ls == ls;
  }

  /** A layer count followed by laid-out layer records, whatever comes after them. */
  lemma CountThenLayers(c: seq<byte>, body: seq<byte>, rest: seq<byte>, ls: seq<LayerValue>)
    requires |ls| <= INT_MAX && c == WordBytes(IntWord(|ls|))
    requires |body| == LayersSize(ls) && LayersLaidOut(body, 0, ls)
    ensures IntAt(c + body + rest, 0) == |ls| && LayersLaidOut(c + body + rest, 4, ls)
  {
    var x := c + body + rest;
    Thirds(c, body, rest);
    WordRoundTrip(x, 0, IntWord(|ls|));
    ShiftLayers(x, 4, body, 0, 4, ls);
  }

  /** The payload of an encoded page: the layer count, the layer records, then whatever follows. */
  lemma EncodedPayloadRead(p: PageValue, rest: seq<byte>)
    requires Encodable(p)
    ensures var x := WordBytes(IntWord(|p.layers|)) + EncodeLayers(p.layers) + rest;
      && IntAt(x, 0) == |p.layers|
      && Yields(LayersFrom(x, 4, 1, IntAt(x, 0), []), p.layers, 4 + LayersSize(p.layers))
  {
    var c := WordBytes(IntWord(|p.layers|));
    var body := EncodeLayers(p.layers);
    EncodedLayersLaidOut(p.layers);
    CountThenLayers(c, body, rest, p.layers);
    PayloadRead(c + body + rest, p.layers);
  }

  /** Decoding an encoded page, with any bytes after it, gives the page back. */
  lemma DecodeEncodedPage(p: PageValue, junk: seq<byte>)
    requires Encodable(p)
    ensures DecodePage(p.pageNumber, EncodePage(p) + junk) == Some(p)
  {
    var h := EncodeHeader(p.version);
    var c := WordBytes(IntWord(|p.layers|));
    var body := EncodeLayers(p.layers);
    var x := c + body + junk;
    assert EncodePage(p) + junk == h + x;
    CountFirstByte(|p.layers|, body + junk);
    assert x[0] == (c + (body + junk))[0];
    EncodedHeaderPrintable(p.version);
    PrefixHeaderEnd(h, x);
    HeaderVersionRoundTrip(p.version);
    EncodedPayloadRead(p, junk);
    HeaderCut(p.pageNumber, h + x, h, x);
    PayloadParts(p.pageNumber, h, x, p.layers, 4 + LayersSize(p.layers));
  }

  /** An input shorter than the scan limit and printable throughout has no header. */
  lemma PrintableInputFails(number: int, t: seq<byte>)
    requires |t| < HeaderScanLimit && forall k :: 0 <= k < |t| ==> Printable(t[k])
    ensures DecodePage(number, t).None?
  {
  }

  /** The layer loop of payload `x` succeeds and stops exactly at its end. */
  predicate PayloadExact(x: seq<byte>) {
    (|x| >= 4 && LayersFrom(x, 4, 1, IntAt(x, 0), []).Some? && LayersFrom(x, 4, 1, IntAt(x, 0), []).value.next == |x|) == true
  }

  /** A payload cut before the point where its layer loop ends does not decode. */
  lemma PayloadCutFails(number: int, h: seq<byte>, x: seq<byte>, m: nat)
    requires PayloadExact(x)
    requires m < |x|
    ensures DecodePayload(number, h, x[..m]).None?
  {
    if m >= 4 {
      WordOfPrefix(x, m, 0);
      LayersPrefix(x, m, 4, 1, IntAt(x, 0), []);
    }
  }

  /** Cutting `h + x` inside `x`. */
  lemma CutInSecond(h: seq<byte>, x: seq<byte>, limit: nat)
    requires |h| < limit <= |h| + |x|
    ensures (h + x)[..limit] == h + x[..limit - |h|]
  {
  }

  /** A cut inside the header leaves a printable input with no header. */
  lemma CutInHeaderFails(number: int, h: seq<byte>, x: seq<byte>, limit: nat)
    requires |h| < HeaderScanLimit && forall k :: 0 <= k < |h| ==> Printable(h[k])
    requires limit <= |h|
    ensures DecodePage(number, (h + x)[..limit]).None?
  {
    var t := (h + x)[..limit];
    assert forall k :: 0 <= k < |t| ==> Printable(t[k]) by {
      forall k | 0 <= k < |t| ensures Printable(t[k]) {
        assert t[k] == h[k];
      }
    }
    PrintableInputFails(number, t);
  }

  /** A cut inside the payload leaves the header intact: the cut page decodes as the cut payload. */
  lemma CutPageIsPayload(number: int, h: seq<byte>, x: seq<byte>, limit: nat)
    requires |h| < HeaderScanLimit && forall k :: 0 <= k < |h| ==> Printable(h[k])
    requires |x| > 0 && !Printable(x[0])
    requires |h| < limit < |h| + |x|
    ensures DecodePage(number, (h + x)[..limit]) == DecodePayload(number, h, x[..limit - |h|])
  {
    var y := x[..limit - |h|];
    CutInSecond(h, x, limit);
    assert y[0] == x[0];
    PrefixHeaderEnd(h, y);
    HeaderCut(number, h + y, h, y);
  }

  /** Every strict prefix of an encoded page fails to decode: the decoder needs every byte. */
  lemma TruncatedPageFails(p: PageValue, limit: nat)
    requires Encodable(p) && limit < |EncodePage(p)|
    ensures DecodePage(p.pageNumber, EncodePage(p)[..limit]).None?
  {
    var h := EncodeHeader(p.version);
    var c := WordBytes(IntWord(|p.layers|));
    var body := EncodeLayers(p.layers);
    var x := c + body + [];
    assert EncodePage(p) == h + x;
    CountFirstByte(|p.layers|, body + []);
    assert x[0] == (c + (body + []))[0];
    EncodedHeaderPrintable(p.version);
    EncodedPayloadRead(p, []);
    if limit <= |h| {
      CutInHeaderFails(p.pageNumber, h, x, limit);
    } else {
      CutPageIsPayload(p.pageNumber, h, x, limit);
      PayloadCutFails(p.pageNumber, h, x, limit - |h|);
    }
  }
}
