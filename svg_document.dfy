/**
 * SvgDocument: the SVG file written for one page, as the sequence of records
 * the writer emits (the svg element with its viewBox, the group with its
 * transform, each polyline start with its style, each point, each polyline
 * end, the transparent frame rectangle and the closing tags).
 *
 * Number formatting and the floating-point width and opacity formulas are
 * kept symbolic: a width or opacity record names the formula and the raw
 * 32-bit fields it is computed from.
 */
module SvgDocument {
  import opened Wrappers
  import opened Text
  import opened Codes
  import opened Ink
  import opened PageFormat
  import opened ContentModel

  /** rotate(angle cx cy) translate(dx dy). */
  datatype Transform = Transform(angle: int, cx: int, cy: int, dx: int, dy: int)

  /** The stroke-width of a polyline start. */
  datatype Width =
    | SegmentWidth(width: Word)              // the first segment's width, unchanged
    | SplitWidth(width: Word, speed: Word)   // 0.9 * (width + 0.6 * speed) of the splitting segment

  /** The opacity of a polyline start; `percent` is the pencil type's opacity in hundredths. */
  datatype Opacity =
    | TypeOpacity(percent: nat)                   // the pencil type's opacity
    | PressureOpacity(percent: nat, pressure: Word) // round(opacity * pressure * 100) / 100

  datatype SvgItem =
    | SvgOpen(viewWidth: int, viewHeight: int)
    | GroupOpen(id: String, transform: Option<Transform>)
    | PolylineOpen(color: String, width: Width, opacity: Opacity)
    | Point(x: Word, y: Word)
    | PolylineClose
    | Rect(rectWidth: int, rectHeight: int)
    | GroupClose
    | SvgClose

  /**
   * A zero opacity multiplier gives opacity 0 for every pressure: 0 times any
   * float is 0 or NaN, and Math.round maps both to 0.
   */
  predicate Transparent(o: Opacity) {
    o.percent == 0
  }

  /** The open file: everything written so far, in order. */
  class SvgWriter {
    var written: seq<SvgItem>

    constructor ()
      ensures written == []
    {
      written := [];
    }

    method Write(item: SvgItem)
      modifies this
      ensures written == old(written) + [item]
    {
      written := written + [item];
    }
  }

  // ------------------------------------------------------------- one stroke

  /** What one segment adds: its point, and at every 8th segment a split into a new polyline. */
  function SegmentItems(seg: Segment, color: String, percent: nat): seq<SvgItem> {
    if seg.number % 8 == 0 then
      [Point(seg.x, seg.y)] + [PolylineClose]
      + [PolylineOpen(color, SplitWidth(seg.width, seg.speed), PressureOpacity(percent, seg.pressure))]
      + [Point(seg.x, seg.y)]
    else [Point(seg.x, seg.y)]
  }

  /**
   * Two appends in a row append their concatenation; stated over plain
   * variables so that callers need not unfold what was appended.
   */
  lemma AppendStep(w0: seq<SvgItem>, w1: seq<SvgItem>, w2: seq<SvgItem>, a: seq<SvgItem>, b: seq<SvgItem>, c: seq<SvgItem>)
    requires w1 == w0 + a && w2 == w1 + b && c == a + b
    ensures w2 == w0 + c
  {
  }

  /** The segment loop of addStroke, over `segs` in order. */
  function SegmentsItems(segs: seq<Segment>, color: String, percent: nat): seq<SvgItem> {
    if |segs| == 0 then []
    else SegmentsItems(segs[..|segs| - 1], color, percent) + SegmentItems(segs[|segs| - 1], color, percent)
  }

  /** The colour addStroke draws with: HIGHLIGHT in the highlighter pass, otherwise the stroke's own. */
  function DrawColor(s: Stroke, pass: PencilType, palette: Palette): String
    requires StrokeColorOf(s).Some?
  {
    if pass == Highlighter then ColorName(Highlight, palette) else ColorName(StrokeColorOf(s).value, palette)
  }

  /** addStroke(stroke, pass): nothing unless the stroke's pencil type is the one asked for. */
  function StrokeItems(s: Stroke, pass: PencilType, palette: Palette): seq<SvgItem>
    requires StrokeColorOf(s).Some?
    requires StrokePencil(s) == Some(pass) ==> |s.segments| > 0
  {
    if StrokePencil(s) == Some(pass) then Polylines(s.segments, DrawColor(s, pass, palette), OpacityPercent(pass))
    else []
  }

  /**
   * A drawn stroke: a polyline started with the first segment's width and the
   * type's opacity, the segments' records, and the closing of the last polyline.
   */
  function Polylines(segs: seq<Segment>, color: String, percent: nat): seq<SvgItem>
    requires |segs| > 0
  {
    [PolylineOpen(color, SegmentWidth(segs[0].width), TypeOpacity(percent))]
    + SegmentsItems(segs, color, percent)
    + [PolylineClose]
  }

  lemma SegmentsStep(segs: seq<Segment>, i: nat, color: String, percent: nat)
    requires i < |segs|
    ensures SegmentsItems(segs[..i + 1], color, percent)
            == SegmentsItems(segs[..i], color, percent) + SegmentItems(segs[i], color, percent)
  {
    assert segs[..i + 1][..i] == segs[..i];
  }

  /** The segment loop of addStroke: each segment's point, splitting at every 8th. */
  method WriteSegments(w: SvgWriter, segs: seq<Segment>, color: String, percent: nat)
    modifies w
    ensures w.written == old(w.written) + SegmentsItems(segs, color, percent)
  {
    var i := 0;
    while i < |segs|
      invariant 0 <= i <= |segs|
      invariant w.written == old(w.written) + SegmentsItems(segs[..i], color, percent)
    {
      var seg := segs[i];
      ghost var before := w.written;
      if seg.number % 8 == 0 {
        w.Write(Point(seg.x, seg.y));
        w.Write(PolylineClose);
        w.Write(PolylineOpen(color, SplitWidth(seg.width, seg.speed), PressureOpacity(percent, seg.pressure)));
        w.Write(Point(seg.x, seg.y));
      } else {
        w.Write(Point(seg.x, seg.y));
      }
      assert w.written == before + SegmentItems(seg, color, percent);
      SegmentsStep(segs, i, color, percent);
      AppendStep(old(w.written), before, w.written, SegmentsItems(segs[..i], color, percent),
                 SegmentItems(seg, color, percent), SegmentsItems(segs[..i + 1], color, percent));
      i := i + 1;
    }
    assert segs[..i] == segs;
  }

  method AddStroke(w: SvgWriter, s: Stroke, pass: PencilType, palette: Palette)
    requires StrokeColorOf(s).Some?
    requires StrokePencil(s) == Some(pass) ==> |s.segments| > 0
    modifies w
    ensures w.written == old(w.written) + StrokeItems(s, pass, palette)
  {
    var color := ColorName(StrokeColorOf(s).value, palette);
    if pass == Highlighter {
      color := ColorName(Highlight, palette);
    }
    if StrokePencil(s) == Some(pass) {
      var percent := OpacityPercent(pass);
      var start := PolylineOpen(color, SegmentWidth(FirstSegment(s).width), TypeOpacity(percent));
      w.Write(start);
      ghost var w1 := w.written;
      WriteSegments(w, s.segments, color, percent);
      ghost var w2 := w.written;
      w.Write(PolylineClose);
      ghost var body := SegmentsItems(s.segments, color, percent);
      AppendStep(old(w.written), w1, w2, [start], body, [start] + body);
      AppendStep(old(w.written), w2, w.written, [start] + body, [PolylineClose], [start] + body + [PolylineClose]);
    }
  }

  // ------------------------------------------------------------- counting

  datatype Kind = OpenKind | PointKind | CloseKind | OtherKind

  function KindOf(item: SvgItem): Kind {
    match item
    case PolylineOpen(_, _, _) => OpenKind
    case Point(_, _) => PointKind
    case PolylineClose => CloseKind
    case _ => OtherKind
  }

  /** How many records of kind `k` the sequence holds. */
  function Count(items: seq<SvgItem>, k: Kind): nat {
    if |items| == 0 then 0
    else Count(items[..|items| - 1], k) + (if KindOf(items[|items| - 1]) == k then 1 else 0)
  }

  lemma {:induction false} CountAppend(a: seq<SvgItem>, b: seq<SvgItem>, k: Kind)
    ensures Count(a + b, k) == Count(a, k) + Count(b, k)
    decreases |b|
  {
    if |b| == 0 {
      assert a + b == a;
    } else {
      var n := |b| - 1;
      assert (a + b)[..|a + b| - 1] == a + b[..n];
      assert (a + b)[|a + b| - 1] == b[n];
      CountAppend(a, b[..n], k);
    }
  }

  /** How many of the segments have a number divisible by 8. */
  function Splits(segs: seq<Segment>): nat {
    if |segs| == 0 then 0
    else Splits(segs[..|segs| - 1]) + (if segs[|segs| - 1].number % 8 == 0 then 1 else 0)
  }

  lemma CountSingleton(x: SvgItem, k: Kind)
    ensures Count([x], k) == if KindOf(x) == k then 1 else 0
  {
    assert [x][..0] == [];
  }

  /** A split segment adds two points, one close and one open. */
  lemma SplitSegmentCount(seg: Segment, color: String, percent: nat, k: Kind)
    requires seg.number % 8 == 0
    ensures Count(SegmentItems(seg, color, percent), k) ==
      if k == PointKind then 2 else if k == OpenKind || k == CloseKind then 1 else 0
  {
    var pt := Point(seg.x, seg.y);
    var open := PolylineOpen(color, SplitWidth(seg.width, seg.speed), PressureOpacity(percent, seg.pressure));
    CountAppend([pt] + [PolylineClose] + [open], [pt], k);
    CountAppend([pt] + [PolylineClose], [open], k);
    CountAppend([pt], [PolylineClose], k);
    CountSingleton(pt, k);
    CountSingleton(PolylineClose, k);
    CountSingleton(open, k);
  }

  /** Any other segment adds its point only. */
  lemma PlainSegmentCount(seg: Segment, color: String, percent: nat, k: Kind)
    requires seg.number % 8 != 0
    ensures Count(SegmentItems(seg, color, percent), k) == if k == PointKind then 1 else 0
  {
    CountSingleton(Point(seg.x, seg.y), k);
  }

  /** Every split closes a polyline, opens one and repeats its point. */
  lemma {:induction false} SegmentsCounts(segs: seq<Segment>, color: String, percent: nat)
    ensures Count(SegmentsItems(segs, color, percent), OpenKind) == Splits(segs)
    ensures Count(SegmentsItems(segs, color, percent), CloseKind) == Splits(segs)
    ensures Count(SegmentsItems(segs, color, percent), PointKind) == |segs| + Splits(segs)
  {
    if |segs| > 0 {
      var n := |segs| - 1;
      SegmentsCounts(segs[..n], color, percent);
      var front := SegmentsItems(segs[..n], color, percent);
      var tail := SegmentItems(segs[n], color, percent);
      assert SegmentsItems(segs, color, percent) == front + tail;
      CountAppend(front, tail, OpenKind);
      CountAppend(front, tail, CloseKind);
      CountAppend(front, tail, PointKind);
      if segs[n].number % 8 == 0 {
        SplitSegmentCount(segs[n], color, percent, OpenKind);
        SplitSegmentCount(segs[n], color, percent, CloseKind);
        SplitSegmentCount(segs[n], color, percent, PointKind);
      } else {
        PlainSegmentCount(segs[n], color, percent, OpenKind);
        PlainSegmentCount(segs[n], color, percent, CloseKind);
        PlainSegmentCount(segs[n], color, percent, PointKind);
      }
    }
  }

  /** Segments numbered 1..n contain ⌊n/8⌋ multiples of 8. */
  lemma {:induction false} NumberedSplits(segs: seq<Segment>)
    requires NumberedSegments(segs)
    ensures Splits(segs) == |segs| / 8
  {
    if |segs| > 0 {
      var n := |segs| - 1;
      assert NumberedSegments(segs[..n]) by {
        forall j | 0 <= j < n ensures segs[..n][j].number == j + 1 {
          assert segs[j].number == j + 1;
        }
      }
      NumberedSplits(segs[..n]);
      assert segs[n].number == n + 1;
    }
  }

  /** The polylines of S segments numbered 1..S: 1 + ⌊S/8⌋ opened and closed, S + ⌊S/8⌋ points. */
  lemma PolylinesCounts(segs: seq<Segment>, color: String, percent: nat)
    requires |segs| > 0 && NumberedSegments(segs)
    ensures Count(Polylines(segs, color, percent), OpenKind) == 1 + |segs| / 8
    ensures Count(Polylines(segs, color, percent), CloseKind) == 1 + |segs| / 8
    ensures Count(Polylines(segs, color, percent), PointKind) == |segs| + |segs| / 8
  {
    var open := PolylineOpen(color, SegmentWidth(segs[0].width), TypeOpacity(percent));
    var body := SegmentsItems(segs, color, percent);
    SegmentsCounts(segs, color, percent);
    NumberedSplits(segs);
    CountAppend([open], body, OpenKind);
    CountAppend([open], body, CloseKind);
    CountAppend([open], body, PointKind);
    CountAppend([open] + body, [PolylineClose], OpenKind);
    CountAppend([open] + body, [PolylineClose], CloseKind);
    CountAppend([open] + body, [PolylineClose], PointKind);
    CountSingleton(open, OpenKind);
    CountSingleton(open, CloseKind);
    CountSingleton(open, PointKind);
    CountSingleton(PolylineClose, OpenKind);
    CountSingleton(PolylineClose, CloseKind);
    CountSingleton(PolylineClose, PointKind);
  }

  /**
   * A drawn stroke of S segments numbered 1..S gives 1 + ⌊S/8⌋ polylines, each
   * opened and closed once, holding S + ⌊S/8⌋ points.
   */
  lemma PolylineSplitting(s: Stroke, pass: PencilType, palette: Palette)
    requires StrokeColorOf(s).Some? && StrokePencil(s) == Some(pass) && |s.segments| > 0
    requires NumberedSegments(s.segments)
    ensures Count(StrokeItems(s, pass, palette), OpenKind) == 1 + |s.segments| / 8
    ensures Count(StrokeItems(s, pass, palette), CloseKind) == 1 + |s.segments| / 8
    ensures Count(StrokeItems(s, pass, palette), PointKind) == |s.segments| + |s.segments| / 8
  {
    PolylinesCounts(s.segments, DrawColor(s, pass, palette), OpacityPercent(pass));
  }

  /**
   * When the last segment's number is a multiple of 8, the last polyline holds
   * only the repeated point of that segment.
   */
  lemma LastPolylineRepeatsPoint(segs: seq<Segment>, color: String, percent: nat)
    requires |segs| > 0 && segs[|segs| - 1].number % 8 == 0
    ensures var items := Polylines(segs, color, percent);
            var last := segs[|segs| - 1];
            |items| >= 5 &&
            items[|items| - 5..] == [Point(last.x, last.y), PolylineClose,
              PolylineOpen(color, SplitWidth(last.width, last.speed), PressureOpacity(percent, last.pressure)),
              Point(last.x, last.y), PolylineClose]
  {
    var n := |segs| - 1;
    var head := [PolylineOpen(color, SegmentWidth(segs[0].width), TypeOpacity(percent))]
                + SegmentsItems(segs[..n], color, percent);
    var tail := SegmentItems(segs[n], color, percent);
    assert segs[..n + 1] == segs;
    assert Polylines(segs, color, percent) == head + tail + [PolylineClose];
  }

  /** Every polyline start inside the segment records has the stroke's colour and opacity multiplier. */
  predicate Styled(items: seq<SvgItem>, color: String, percent: nat) {
    forall i :: 0 <= i < |items| && items[i].PolylineOpen? ==>
      items[i].color == color && items[i].opacity.percent == percent
  }

  lemma {:induction false} SegmentsStyled(segs: seq<Segment>, color: String, percent: nat)
    ensures Styled(SegmentsItems(segs, color, percent), color, percent)
  {
    if |segs| > 0 {
      SegmentsStyled(segs[..|segs| - 1], color, percent);
    }
  }

  /** Every polyline of a drawn stroke has its colour and opacity multiplier, and there is at least one. */
  lemma PolylinesStyled(segs: seq<Segment>, color: String, percent: nat)
    requires |segs| > 0
    ensures Styled(Polylines(segs, color, percent), color, percent)
    ensures Count(Polylines(segs, color, percent), OpenKind) >= 1
  {
    var open := PolylineOpen(color, SegmentWidth(segs[0].width), TypeOpacity(percent));
    var body := SegmentsItems(segs, color, percent);
    SegmentsStyled(segs, color, percent);
    CountAppend([open], body, OpenKind);
    CountAppend([open] + body, [PolylineClose], OpenKind);
    CountSingleton(open, OpenKind);
    var items := [open] + body + [PolylineClose];
    forall i | 0 <= i < |items| && items[i].PolylineOpen?
      ensures items[i].color == color && items[i].opacity.percent == percent
    {
      if 0 < i < |items| - 1 {
        assert items[i] == body[i - 1];
      }
    }
  }

  /**
   * A highlighter is drawn in the palette's HIGHLIGHT colour whatever its own
   * colour code; any other stroke in its own colour. All its polylines share
   * that colour and the type's opacity.
   */
  lemma StrokeStyle(s: Stroke, pass: PencilType, palette: Palette)
    requires StrokeColorOf(s).Some? && StrokePencil(s) == Some(pass) && |s.segments| > 0
    ensures Styled(StrokeItems(s, pass, palette), DrawColor(s, pass, palette), OpacityPercent(pass))
    ensures pass == Highlighter ==> DrawColor(s, pass, palette) == palette.highlight
    ensures pass != Highlighter ==> DrawColor(s, pass, palette) == ColorName(StrokeColorOf(s).value, palette)
  {
    PolylinesStyled(s.segments, DrawColor(s, pass, palette), OpacityPercent(pass));
  }

  /** Eraser strokes are drawn, but every one of their polylines is transparent. */
  lemma EraserIsTransparent(s: Stroke, palette: Palette)
    requires StrokeColorOf(s).Some? && StrokePencil(s) == Some(Eraser) && |s.segments| > 0
    ensures Count(StrokeItems(s, Eraser, palette), OpenKind) >= 1
    ensures forall i :: 0 <= i < |StrokeItems(s, Eraser, palette)| && StrokeItems(s, Eraser, palette)[i].PolylineOpen? ==>
              Transparent(StrokeItems(s, Eraser, palette)[i].opacity)
  {
    PolylinesStyled(s.segments, DrawColor(s, Eraser, palette), OpacityPercent(Eraser));
  }

  // ------------------------------------------------------------- a page

  /** The strokes createPortrait and createLandscape can draw without an exception. */
  predicate Drawable(s: Stroke) {
    StrokePencil(s).Some? && StrokeColorOf(s).Some? && |s.segments| > 0
  }

  predicate AllDrawable(layers: seq<LayerValue>) {
    forall i, j :: 0 <= i < |layers| && 0 <= j < |layers[i].strokes| ==> Drawable(layers[i].strokes[j])
  }

  /** The first pass draws highlighters only; the second every stroke of another type. */
  datatype Pass = HighlighterPass | OtherPass

  /**
   * The body of one pass's inner loop for one stroke. A stroke that is not
   * Drawable makes the source throw; the methods require that none occurs,
   * and the functions give such a stroke no records.
   */
  function PassStroke(s: Stroke, pass: Pass, palette: Palette): seq<SvgItem> {
    if !Drawable(s) then []
    else match pass
      case HighlighterPass => StrokeItems(s, Highlighter, palette)
      case OtherPass => if !IsHighlighter(s) then StrokeItems(s, StrokePencil(s).value, palette) else []
  }

  function LayerPass(strokes: seq<Stroke>, pass: Pass, palette: Palette): seq<SvgItem> {
    if |strokes| == 0 then []
    else LayerPass(strokes[..|strokes| - 1], pass, palette) + PassStroke(strokes[|strokes| - 1], pass, palette)
  }

  /** One pass: every layer in order, every stroke of the layer in order. */
  function PagePass(layers: seq<LayerValue>, pass: Pass, palette: Palette): seq<SvgItem> {
    if |layers| == 0 then []
    else PagePass(layers[..|layers| - 1], pass, palette) + LayerPass(layers[|layers| - 1].strokes, pass, palette)
  }

  /** Highlighters beneath everything else. */
  function Body(layers: seq<LayerValue>, palette: Palette): seq<SvgItem> {
    PagePass(layers, HighlighterPass, palette) + PagePass(layers, OtherPass, palette)
  }

  /** Integer division in Java: the quotient is truncated toward zero. */
  function JavaDiv(a: int, b: int): (q: int)
    requires b > 0
    ensures a >= 0 ==> q == a / b
    ensures a < 0 ==> q == -((-a) / b)
  {
    if a >= 0 then a / b else -((-a) / b)
  }

  /** rotate(90 h/2 v/2) translate(d d) with d = -|(v - h) / 2|. */
  function LandscapeTransform(h: int, v: int): Transform {
    var delta := -Abs(JavaDiv(v - h, 2));
    Transform(90, JavaDiv(h, 2), JavaDiv(v, 2), delta, delta)
  }

  function Abs(x: int): (r: int)
    ensures r >= 0
  {
    if x < 0 then -x else x
  }

  /** The svg element with its viewBox, the group, the body, the H x V frame and the closing tags. */
  function Framed(viewWidth: int, viewHeight: int, group: SvgItem, body: seq<SvgItem>): seq<SvgItem> {
    [SvgOpen(viewWidth, viewHeight), group] + body + [Rect(HorizontalWidth, VerticalWidth), GroupClose, SvgClose]
  }

  function PortraitItems(p: PageValue, palette: Palette, groupId: String): seq<SvgItem> {
    Framed(HorizontalWidth, VerticalWidth, GroupOpen(groupId, None), Body(p.layers, palette))
  }

  function LandscapeItems(p: PageValue, palette: Palette, groupId: String): seq<SvgItem> {
    Framed(VerticalWidth, HorizontalWidth,
           GroupOpen(groupId, Some(LandscapeTransform(HorizontalWidth, VerticalWidth))), Body(p.layers, palette))
  }

  /** The layer values of the page's layer objects, position by position. */
  lemma {:induction false} LayerValuesAt(ls: seq<Layer>, i: nat)
    requires i < |ls|
    ensures LayerValues(ls)[i] == ls[i].Value()
    decreases |ls|
  {
    if i < |ls| - 1 {
      LayerValuesAt(ls[..|ls| - 1], i);
    }
  }

  /** The inner loop's body: the highlighter pass offers every stroke, the other pass every non-highlighter. */
  method WritePassStroke(w: SvgWriter, s: Stroke, pass: Pass, palette: Palette)
    requires Drawable(s)
    modifies w
    ensures w.written == old(w.written) + PassStroke(s, pass, palette)
  {
    if pass == HighlighterPass {
      AddStroke(w, s, Highlighter, palette);
    } else if !IsHighlighter(s) {
      AddStroke(w, s, StrokePencil(s).value, palette);
    }
  }

  lemma LayerPassStep(strokes: seq<Stroke>, j: nat, pass: Pass, palette: Palette)
    requires j < |strokes|
    ensures LayerPass(strokes[..j + 1], pass, palette) == LayerPass(strokes[..j], pass, palette) + PassStroke(strokes[j], pass, palette)
  {
    assert strokes[..j + 1][..j] == strokes[..j];
  }

  lemma PagePassStep(layers: seq<LayerValue>, i: nat, pass: Pass, palette: Palette)
    requires i < |layers|
    ensures PagePass(layers[..i + 1], pass, palette) == PagePass(layers[..i], pass, palette) + LayerPass(layers[i].strokes, pass, palette)
  {
    assert layers[..i + 1][..i] == layers[..i];
  }

  /** The inner loop of one pass: the strokes of one layer in order. */
  method WriteLayerPass(w: SvgWriter, strokes: seq<Stroke>, pass: Pass, palette: Palette)
    requires forall j :: 0 <= j < |strokes| ==> Drawable(strokes[j])
    modifies w
    ensures w.written == old(w.written) + LayerPass(strokes, pass, palette)
  {
    var j := 0;
    while j < |strokes|
      invariant 0 <= j <= |strokes|
      invariant w.written == old(w.written) + LayerPass(strokes[..j], pass, palette)
    {
      ghost var before := w.written;
      WritePassStroke(w, strokes[j], pass, palette);
      LayerPassStep(strokes, j, pass, palette);
      AppendStep(old(w.written), before, w.written, LayerPass(strokes[..j], pass, palette),
                 PassStroke(strokes[j], pass, palette), LayerPass(strokes[..j + 1], pass, palette));
      j := j + 1;
    }
    assert strokes[..j] == strokes;
  }

  /** The outer loop of one pass: the page's layers in order. */
  method WritePass(w: SvgWriter, page: Page, pass: Pass, palette: Palette)
    requires AllDrawable(page.Value().layers)
    modifies w
    ensures w.written == old(w.written) + PagePass(page.Value().layers, pass, palette)
  {
    var layers := page.layers;
    ghost var values := page.Value().layers;
    var i := 0;
    while i < |layers|
      invariant 0 <= i <= |layers|
      invariant w.written == old(w.written) + PagePass(values[..i], pass, palette)
    {
      LayerValuesAt(layers, i);
      ghost var before := w.written;
      WriteLayerPass(w, layers[i].strokes, pass, palette);
      PagePassStep(values, i, pass, palette);
      AppendStep(old(w.written), before, w.written, PagePass(values[..i], pass, palette),
                 LayerPass(values[i].strokes, pass, palette), PagePass(values[..i + 1], pass, palette));
      i := i + 1;
    }
    assert values[..i] == values;
  }

  /** Both passes: highlighters first, then the rest. */
  method WriteBody(w: SvgWriter, page: Page, palette: Palette)
    requires AllDrawable(page.Value().layers)
    modifies w
    ensures w.written == old(w.written) + Body(page.Value().layers, palette)
  {
    ghost var layers := page.Value().layers;
    WritePass(w, page, HighlighterPass, palette);
    ghost var w1 := w.written;
    WritePass(w, page, OtherPass, palette);
    AppendStep(old(w.written), w1, w.written, PagePass(layers, HighlighterPass, palette),
               PagePass(layers, OtherPass, palette), Body(layers, palette));
  }

  /** Five writes around the body give the framed document. */
  lemma FrameWrites(a: SvgItem, b: SvgItem, body: seq<SvgItem>, c: SvgItem, d: SvgItem, e: SvgItem)
    ensures [] + [a] + [b] + body + [c] + [d] + [e] == [a, b] + body + [c, d, e]
  {
  }

  /** The svg element and group opened, the body, the frame rectangle and the closing tags. */
  method WriteDocument(page: Page, palette: Palette, viewWidth: int, viewHeight: int, group: SvgItem)
    returns (doc: seq<SvgItem>)
    requires AllDrawable(page.Value().layers)
    ensures doc == Framed(viewWidth, viewHeight, group, Body(page.Value().layers, palette))
  {
    ghost var v := page.Value();
    ghost var body := Body(v.layers, palette);
    var w := new SvgWriter();
    assert page.Value() == v;
    w.Write(SvgOpen(viewWidth, viewHeight));
    assert page.Value() == v;
    w.Write(group);
    assert page.Value() == v;
    WriteBody(w, page, palette);
    assert page.Value() == v;
    assert w.written == [] + [SvgOpen(viewWidth, viewHeight)] + [group] + body;
    w.Write(Rect(HorizontalWidth, VerticalWidth));
    w.Write(GroupClose);
    w.Write(SvgClose);
    FrameWrites(SvgOpen(viewWidth, viewHeight), group, body, Rect(HorizontalWidth, VerticalWidth), GroupClose, SvgClose);
    doc := w.written;
    assert page.Value() == v;
    assert doc == Framed(viewWidth, viewHeight, group, body);
  }

  /** createPortrait(page, file): the records of the page drawn upright. */
  method CreatePortrait(page: Page, palette: Palette, groupId: String) returns (doc: seq<SvgItem>)
    requires AllDrawable(page.Value().layers)
    ensures doc == PortraitItems(page.Value(), palette, groupId)
  {
    doc := WriteDocument(page, palette, HorizontalWidth, VerticalWidth, GroupOpen(groupId, None));
  }

  /** createLandscape(page, file): the records of the page turned a quarter. */
  method CreateLandscape(page: Page, palette: Palette, groupId: String) returns (doc: seq<SvgItem>)
    requires AllDrawable(page.Value().layers)
    ensures doc == LandscapeItems(page.Value(), palette, groupId)
  {
    var delta: int := -Abs(JavaDiv(VerticalWidth - HorizontalWidth, 2));
    var transform := Transform(90, JavaDiv(HorizontalWidth, 2), JavaDiv(VerticalWidth, 2), delta, delta);
    doc := WriteDocument(page, palette, VerticalWidth, HorizontalWidth, GroupOpen(groupId, Some(transform)));
  }

  // ------------------------------------------------------------- page properties

  /** On the device's 1404 x 1872 screen the landscape group is rotate(90 702 936) translate(-234 -234). */
  lemma DeviceLandscape()
    ensures LandscapeTransform(HorizontalWidth, VerticalWidth) == Transform(90, 702, 936, -234, -234)
  {
  }

  /**
   * Because Java's division truncates, the translation is the same whichever
   * side is the longer one, and never positive.
   */
  lemma TranslationSymmetric(h: int, v: int)
    ensures LandscapeTransform(h, v).dx == LandscapeTransform(v, h).dx <= 0
    ensures LandscapeTransform(h, v).dx == LandscapeTransform(h, v).dy
  {
    assert JavaDiv(h - v, 2) == -JavaDiv(v - h, 2) by {
      assert h - v == -(v - h);
    }
  }

  /** The svg element, the group and the frame of both layouts. */
  lemma DocumentFrames(p: PageValue, palette: Palette, groupId: String)
    ensures var d := PortraitItems(p, palette, groupId);
            |d| >= 5 && d[0] == SvgOpen(1404, 1872) && d[1] == GroupOpen(groupId, None)
            && d[|d| - 3..] == [Rect(1404, 1872), GroupClose, SvgClose]
    ensures var d := LandscapeItems(p, palette, groupId);
            |d| >= 5 && d[0] == SvgOpen(1872, 1404)
            && d[1] == GroupOpen(groupId, Some(Transform(90, 702, 936, -234, -234)))
            && d[|d| - 3..] == [Rect(1404, 1872), GroupClose, SvgClose]
    ensures PortraitItems(p, palette, groupId)[2..|PortraitItems(p, palette, groupId)| - 3] == Body(p.layers, palette)
    ensures LandscapeItems(p, palette, groupId)[2..|LandscapeItems(p, palette, groupId)| - 3] == Body(p.layers, palette)
  {
    DeviceLandscape();
  }

  // ------------------------------------------------------------- draw order

  /** Every stroke of the page, layer by layer, each layer's strokes in order. */
  function AllStrokes(layers: seq<LayerValue>): seq<Stroke> {
    if |layers| == 0 then [] else AllStrokes(layers[..|layers| - 1]) + layers[|layers| - 1].strokes
  }

  /** The stroke's pencil code is the highlighter's. */
  predicate IsHighlighter(s: Stroke) {
    s.pencilCode == PencilCode(Highlighter)
  }

  lemma HighlighterCode(s: Stroke)
    ensures IsHighlighter(s) <==> StrokePencil(s) == Some(Highlighter)
  {
  }

  function Highlighters(ss: seq<Stroke>): seq<Stroke> {
    if |ss| == 0 then []
    else Highlighters(ss[..|ss| - 1]) + (if IsHighlighter(ss[|ss| - 1]) then [ss[|ss| - 1]] else [])
  }

  function Others(ss: seq<Stroke>): seq<Stroke> {
    if |ss| == 0 then []
    else Others(ss[..|ss| - 1]) + (if IsHighlighter(ss[|ss| - 1]) then [] else [ss[|ss| - 1]])
  }

  /** Each stroke drawn with its own pencil type, in list order. */
  function Drawing(s: Stroke, palette: Palette): seq<SvgItem> {
    if Drawable(s) then StrokeItems(s, StrokePencil(s).value, palette) else []
  }

  function Drawings(ss: seq<Stroke>, palette: Palette): seq<SvgItem> {
    if |ss| == 0 then [] else Drawings(ss[..|ss| - 1], palette) + Drawing(ss[|ss| - 1], palette)
  }

  lemma {:induction false} HighlightersAppend(a: seq<Stroke>, b: seq<Stroke>)
    ensures Highlighters(a + b) == Highlighters(a) + Highlighters(b)
    ensures Others(a + b) == Others(a) + Others(b)
    decreases |b|
  {
    if |b| == 0 {
      assert a + b == a;
    } else {
      var n := |b| - 1;
      assert (a + b)[..|a + b| - 1] == a + b[..n];
      assert (a + b)[|a + b| - 1] == b[n];
      HighlightersAppend(a, b[..n]);
    }
  }

  lemma {:induction false} DrawingsAppend(a: seq<Stroke>, b: seq<Stroke>, palette: Palette)
    ensures Drawings(a + b, palette) == Drawings(a, palette) + Drawings(b, palette)
    decreases |b|
  {
    if |b| == 0 {
      assert a + b == a;
    } else {
      var n := |b| - 1;
      assert (a + b)[..|a + b| - 1] == a + b[..n];
      assert (a + b)[|a + b| - 1] == b[n];
      DrawingsAppend(a, b[..n], palette);
      AppendStep(Drawings(a, palette), Drawings(a + b[..n], palette), Drawings(a + b, palette),
                 Drawings(b[..n], palette), Drawing(b[n], palette), Drawings(b, palette));
    }
  }

  /** One layer's pass draws exactly that layer's strokes of the pass's kind, in order. */
  lemma {:induction false} LayerPassFilters(ss: seq<Stroke>, palette: Palette)
    ensures LayerPass(ss, HighlighterPass, palette) == Drawings(Highlighters(ss), palette)
    ensures LayerPass(ss, OtherPass, palette) == Drawings(Others(ss), palette)
  {
    if |ss| > 0 {
      var n := |ss| - 1;
      var s := ss[n];
      LayerPassFilters(ss[..n], palette);
      var h := if IsHighlighter(s) then [s] else [];
      var o := if IsHighlighter(s) then [] else [s];
      HighlighterCode(s);
      DrawingsAppend(Highlighters(ss[..n]), h, palette);
      DrawingsAppend(Others(ss[..n]), o, palette);
      assert Drawings(h, palette) == PassStroke(s, HighlighterPass, palette) by {
        if IsHighlighter(s) { assert h[..0] == []; }
      }
      assert Drawings(o, palette) == PassStroke(s, OtherPass, palette) by {
        if !IsHighlighter(s) { assert o[..0] == []; }
      }
    }
  }

  lemma {:induction false} PagePassFilters(layers: seq<LayerValue>, palette: Palette)
    ensures PagePass(layers, HighlighterPass, palette) == Drawings(Highlighters(AllStrokes(layers)), palette)
    ensures PagePass(layers, OtherPass, palette) == Drawings(Others(AllStrokes(layers)), palette)
  {
    if |layers| > 0 {
      var n := |layers| - 1;
      var front := layers[..n];
      var last := layers[n].strokes;
      PagePassFilters(front, palette);
      LayerPassFilters(last, palette);
      HighlightersAppend(AllStrokes(front), last);
      DrawingsAppend(Highlighters(AllStrokes(front)), Highlighters(last), palette);
      DrawingsAppend(Others(AllStrokes(front)), Others(last), palette);
    }
  }

  /**
   * The page body: every highlighter stroke first, then every other stroke,
   * each group in layer-then-stroke order, each drawn with its own type.
   */
  lemma DrawOrder(layers: seq<LayerValue>, palette: Palette)
    ensures Body(layers, palette) == Drawings(Highlighters(AllStrokes(layers)), palette)
                                     + Drawings(Others(AllStrokes(layers)), palette)
  {
    PagePassFilters(layers, palette);
  }

  /** Each stroke of the page is drawn in exactly one of the two passes. */
  lemma {:induction false} EachStrokeOnce(ss: seq<Stroke>)
    ensures multiset(Highlighters(ss)) + multiset(Others(ss)) == multiset(ss)
  {
    if |ss| > 0 {
      var n := |ss| - 1;
      var init := ss[..n];
      EachStrokeOnce(init);
      assert ss == init + [ss[n]];
      if IsHighlighter(ss[n]) {
        assert Highlighters(ss) == Highlighters(init) + [ss[n]];
        assert Others(ss) == Others(init);
      } else {
        assert Highlighters(ss) == Highlighters(init);
        assert Others(ss) == Others(init) + [ss[n]];
      }
    }
  }
}
