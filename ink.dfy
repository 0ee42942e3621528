/**
 * The immutable values of a decoded page: Segment (one sampled pen point)
 * and Stroke (one pen gesture), with Java's equality and hash codes.
 *
 * Float fields are kept as their raw IEEE-754 bit patterns (`Word`), exactly
 * as ByteBuffer.getFloat reads them; no floating-point arithmetic is modelled.
 */
module Ink {
  import opened Wrappers
  import opened Codes

  /** The 32 raw bits of one little-endian field of the page format. */
  newtype Word = w: int | 0 <= w < 0x1_0000_0000

  /** The single NaN bit pattern that Float.floatToIntBits reports for every NaN. */
  const CanonicalNaN: Word := 0x7fc0_0000

  /** All exponent bits set and a non-zero fraction. */
  predicate IsNaN(w: Word) {
    (w as int / 0x80_0000) % 0x100 == 0xff && w as int % 0x80_0000 != 0
  }

  /** Float.floatToIntBits: the bits unchanged, except that every NaN collapses to one pattern. */
  function FloatToIntBits(w: Word): (b: Word)
    ensures IsNaN(w) ==> b == CanonicalNaN
    ensures !IsNaN(w) ==> b == w
    ensures IsNaN(b) == IsNaN(w)
  {
    if IsNaN(w) then CanonicalNaN else w
  }

  /** Java int arithmetic: reduce to 32 bits, two's complement. */
  function WrapInt(x: int): (r: int)
    ensures -0x8000_0000 <= r < 0x8000_0000
    ensures (r - x) % 0x1_0000_0000 == 0
  {
    var m := x % 0x1_0000_0000;
    if m >= 0x8000_0000 then m - 0x1_0000_0000 else m
  }

  /** A 32-bit pattern read as a Java int: two's complement, the top bit is the sign. */
  function Signed(w: Word): (r: int)
    ensures -0x8000_0000 <= r < 0x8000_0000
  {
    if w < 0x8000_0000 then w as int else w as int - 0x1_0000_0000
  }

  datatype Segment = Segment(number: int, x: Word, y: Word, speed: Word, direction: Word, width: Word, pressure: Word)

  /** Segment.equals between two segments: the number and the floatToIntBits of every float field. */
  predicate SegmentEquals(a: Segment, b: Segment) {
    && FloatToIntBits(a.x) == FloatToIntBits(b.x)
    && FloatToIntBits(a.pressure) == FloatToIntBits(b.pressure)
    && FloatToIntBits(a.speed) == FloatToIntBits(b.speed)
    && a.number == b.number
    && FloatToIntBits(a.direction) == FloatToIntBits(b.direction)
    && FloatToIntBits(a.width) == FloatToIntBits(b.width)
    && FloatToIntBits(a.y) == FloatToIntBits(b.y)
  }

  /** What Segment.equals may be handed: null, a segment, or an object of another class. */
  datatype Argument = NullArgument | SegmentArgument(segment: Segment) | OtherClassArgument

  /** Segment.equals(Object): false for null and for another class. */
  predicate SegmentEqualsObject(a: Segment, obj: Argument) {
    obj.SegmentArgument? && SegmentEquals(a, obj.segment)
  }

  function HashStep(acc: int, field: int): int {
    WrapInt(31 * acc + field)
  }

  /** Segment.hashCode: the same seven fields, folded with the prime 31 in Java int arithmetic. */
  function SegmentHash(s: Segment): int {
    var h1 := HashStep(1, Signed(FloatToIntBits(s.x)));
    var h2 := HashStep(h1, Signed(FloatToIntBits(s.pressure)));
    var h3 := HashStep(h2, Signed(FloatToIntBits(s.speed)));
    var h4 := HashStep(h3, s.number);
    var h5 := HashStep(h4, Signed(FloatToIntBits(s.direction)));
    var h6 := HashStep(h5, Signed(FloatToIntBits(s.width)));
    HashStep(h6, Signed(FloatToIntBits(s.y)))
  }

  /** Segment.equals is an equivalence: reflexive even on NaN fields, symmetric and transitive. */
  lemma SegmentEqualsIsEquivalence(a: Segment, b: Segment, c: Segment)
    ensures SegmentEquals(a, a)
    ensures SegmentEquals(a, b) ==> SegmentEquals(b, a)
    ensures SegmentEquals(a, b) && SegmentEquals(b, c) ==> SegmentEquals(a, c)
    ensures SegmentEqualsObject(a, SegmentArgument(a))
    ensures !SegmentEqualsObject(a, NullArgument) && !SegmentEqualsObject(a, OtherClassArgument)
  {
  }

  /** Two different NaN payloads in the same field still give equal segments. */
  lemma NaNPayloadsCompareEqual(s: Segment)
    ensures SegmentEquals(s.(x := 0x7f80_0001), s.(x := 0xffc0_0000))
  {
    assert IsNaN(0x7f80_0001) && IsNaN(0xffc0_0000);
  }

  lemma SegmentHashAgrees(a: Segment, b: Segment)
    requires SegmentEquals(a, b)
    ensures SegmentHash(a) == SegmentHash(b)
  {
  }

  // ---------------------------------------------------------------- strokes

  datatype Stroke = Stroke(number: int, pencilCode: int, colorCode: int, penWidth: Word, segments: seq<Segment>)

  /** Stroke.getPencilType: the table entry of the pencil code, None when unknown. */
  function StrokePencil(s: Stroke): (r: Option<PencilType>)
    ensures r.Some? ==> PencilCode(r.value) == s.pencilCode
    ensures r.None? ==> forall t :: PencilCode(t) != s.pencilCode
  {
    GetPencil(s.pencilCode)
  }

  /** Stroke.getStrokeColor: the table entry of the colour code, None when unknown. */
  function StrokeColorOf(s: Stroke): (r: Option<StrokeColor>)
    ensures r.Some? <==> 0 <= s.colorCode <= 3
    ensures r.Some? ==> ColorCode(r.value) == s.colorCode
  {
    ColorCodes(s.colorCode);
    GetColor(s.colorCode)
  }

  /** Stroke.getFirstSegment: segments.get(0), the earliest segment drawn, which needs a segment. */
  function FirstSegment(s: Stroke): (seg: Segment)
    requires |s.segments| > 0
    ensures seg == s.segments[0] && seg in s.segments
  {
    s.segments[0]
  }

  /** List.equals over segments: same length and Segment.equals position by position. */
  predicate SegmentsEqual(a: seq<Segment>, b: seq<Segment>) {
    |a| == |b| && forall i :: 0 <= i < |a| ==> SegmentEquals(a[i], b[i])
  }

  /** List.hashCode over segments: 1, then 31 * h + hash of each element in order. */
  function SegmentsHash(s: seq<Segment>): int {
    if s == [] then 1 else HashStep(SegmentsHash(s[..|s| - 1]), SegmentHash(s[|s| - 1]))
  }

  /** Stroke.equals: only the segment lists are compared. */
  predicate StrokeEquals(a: Stroke, b: Stroke) {
    SegmentsEqual(a.segments, b.segments)
  }

  function StrokeHash(s: Stroke): int {
    HashStep(1, SegmentsHash(s.segments))
  }

  /** Equal segment lists hash alike, even when the segments differ in NaN payloads. */
  lemma {:induction false} SegmentsHashAgrees(a: seq<Segment>, b: seq<Segment>)
    requires SegmentsEqual(a, b)
    ensures SegmentsHash(a) == SegmentsHash(b)
  {
    if a != [] {
      var n := |a| - 1;
      assert SegmentsEqual(a[..n], b[..n]) by {
        forall i | 0 <= i < n ensures SegmentEquals(a[..n][i], b[..n][i]) {
          assert SegmentEquals(a[i], b[i]);
        }
      }
      SegmentsHashAgrees(a[..n], b[..n]);
      SegmentHashAgrees(a[n], b[n]);
    }
  }

  /** Stroke equality ignores number, pencil, colour and pen width; equal strokes hash alike. */
  lemma StrokeEqualityIgnoresCodes(a: Stroke, number: int, pencil: int, color: int, width: Word)
    ensures StrokeEquals(a, Stroke(number, pencil, color, width, a.segments))
    ensures StrokeHash(a) == StrokeHash(Stroke(number, pencil, color, width, a.segments))
  {
  }

  lemma StrokeHashAgrees(a: Stroke, b: Stroke)
    requires StrokeEquals(a, b)
    ensures StrokeHash(a) == StrokeHash(b)
  {
    SegmentsHashAgrees(a.segments, b.segments);
  }

  /** List.equals over strokes, element by element with Stroke.equals. */
  predicate StrokesEqual(a: seq<Stroke>, b: seq<Stroke>) {
    |a| == |b| && forall i :: 0 <= i < |a| ==> StrokeEquals(a[i], b[i])
  }

  function StrokesHash(s: seq<Stroke>): int {
    if s == [] then 1 else HashStep(StrokesHash(s[..|s| - 1]), StrokeHash(s[|s| - 1]))
  }

  lemma {:induction false} StrokesHashAgrees(a: seq<Stroke>, b: seq<Stroke>)
    requires StrokesEqual(a, b)
    ensures StrokesHash(a) == StrokesHash(b)
  {
    if a != [] {
      var n := |a| - 1;
      assert StrokesEqual(a[..n], b[..n]) by {
        forall i | 0 <= i < n ensures StrokeEquals(a[..n][i], b[..n][i]) {
          assert StrokeEquals(a[i], b[i]);
        }
      }
      StrokesHashAgrees(a[..n], b[..n]);
      StrokeHashAgrees(a[n], b[n]);
    }
  }
}
