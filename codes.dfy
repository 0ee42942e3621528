/**
 * The closed code tables of the notebook model: pencil types and stroke
 * colours, keyed by the integer codes of the page format, and the document
 * types, keyed by the type string of the cloud metadata.
 */
module Codes {
  import opened Wrappers
  import opened Text

  // ---------------------------------------------------------------- pencils

  datatype PencilType =
    | BallpointPen | CalligraphyPen | Highlighter | Paintbrush
    | MechanicalPencil | Pencil | Marker | Fineliner | Eraser

  /** PencilType.values(), in declaration order. */
  const PencilTypes: seq<PencilType> :=
    [BallpointPen, CalligraphyPen, Highlighter, Paintbrush, MechanicalPencil, Pencil, Marker, Fineliner, Eraser]

  function PencilCode(t: PencilType): int {
    match t
    case BallpointPen => 15
    case CalligraphyPen => 21
    case Highlighter => 18
    case Paintbrush => 12
    case MechanicalPencil => 13
    case Pencil => 14
    case Marker => 16
    case Fineliner => 17
    case Eraser => 6
  }

  function PencilName(t: PencilType): string {
    match t
    case BallpointPen => "Ballpoint pen"
    case CalligraphyPen => "Calligraphy pen"
    case Highlighter => "Highlighter"
    case Paintbrush => "Paintbrush"
    case MechanicalPencil => "Mechanical pencil"
    case Pencil => "Pencil"
    case Marker => "Marker"
    case Fineliner => "Fineliner"
    case Eraser => "Eraser"
  }

  /** The opacity multiplier, in hundredths (1.0 is 100). */
  function OpacityPercent(t: PencilType): (p: nat)
    ensures p <= 100
    ensures p < 100 <==> t in {Highlighter, Marker, Eraser}
    ensures p == 0 <==> t == Eraser
  {
    match t
    case Highlighter => 20
    case Marker => 90
    case Eraser => 0
    case _ => 100
  }

  /** The loop of PencilType.get over `types`: the first whose code is `code`. */
  function FindPencil(types: seq<PencilType>, code: int): (r: Option<PencilType>)
    ensures r.Some? ==> r.value in types && PencilCode(r.value) == code
    ensures r.None? ==> forall t :: t in types ==> PencilCode(t) != code
  {
    if types == [] then None
    else if PencilCode(types[0]) == code then Some(types[0])
    else FindPencil(types[1..], code)
  }

  lemma PencilsListed(t: PencilType)
    ensures t in PencilTypes
  {
  }

  /** PencilType.get: the type with this code, null (None) for a code outside the table. */
  function GetPencil(code: int): (r: Option<PencilType>)
    ensures r.Some? ==> PencilCode(r.value) == code
    ensures r.None? ==> forall t :: PencilCode(t) != code
  {
    assert forall t :: t in PencilTypes by {
      forall t ensures t in PencilTypes { PencilsListed(t); }
    }
    FindPencil(PencilTypes, code)
  }

  /** Every pencil type is found again from its own code: the codes are distinct. */
  lemma PencilRoundTrip(t: PencilType)
    ensures GetPencil(PencilCode(t)) == Some(t)
  {
    assert t in PencilTypes;
  }

  /** The table: a code is known exactly when it is one of the nine listed codes. */
  lemma PencilCodes(code: int)
    ensures GetPencil(code).Some? <==> code in {6, 12, 13, 14, 15, 16, 17, 18, 21}
  {
    if code in {6, 12, 13, 14, 15, 16, 17, 18, 21} {
      var t := match code
        case 6 => Eraser case 12 => Paintbrush case 13 => MechanicalPencil
        case 14 => Pencil case 15 => BallpointPen case 16 => Marker
        case 17 => Fineliner case 18 => Highlighter case _ => CalligraphyPen;
      PencilRoundTrip(t);
    }
  }

  // ---------------------------------------------------------------- colours

  datatype StrokeColor = Primary | Secondary | Background | Highlight

  /** StrokeColor.values(), in declaration order. */
  const StrokeColors: seq<StrokeColor> := [Primary, Secondary, Background, Highlight]

  function ColorCode(c: StrokeColor): int {
    match c
    case Primary => 0
    case Secondary => 1
    case Background => 2
    case Highlight => 3
  }

  /**
   * The configured colour values, read once from the application properties
   * when the enum is initialised.
   */
  datatype Palette = Palette(primary: string, secondary: string, background: string, highlight: string)

  /** The values used when the properties file sets none. */
  const DefaultPalette := Palette("black", "#b93059", "white", "#76b72a")

  /** StrokeColor.getName: the palette value captured for this colour. */
  function ColorName(c: StrokeColor, palette: Palette): string {
    match c
    case Primary => palette.primary
    case Secondary => palette.secondary
    case Background => palette.background
    case Highlight => palette.highlight
  }

  function FindColor(colors: seq<StrokeColor>, code: int): (r: Option<StrokeColor>)
    ensures r.Some? ==> r.value in colors && ColorCode(r.value) == code
    ensures r.None? ==> forall c :: c in colors ==> ColorCode(c) != code
  {
    if colors == [] then None
    else if ColorCode(colors[0]) == code then Some(colors[0])
    else FindColor(colors[1..], code)
  }

  /** StrokeColor.get: null (None) for a code outside 0..3. */
  function GetColor(code: int): Option<StrokeColor> {
    FindColor(StrokeColors, code)
  }

  lemma ColorRoundTrip(c: StrokeColor)
    ensures GetColor(ColorCode(c)) == Some(c)
  {
    assert c in StrokeColors;
  }

  lemma ColorCodes(code: int)
    ensures GetColor(code).Some? <==> 0 <= code <= 3
  {
    if 0 <= code <= 3 {
      ColorRoundTrip(StrokeColors[code]);
    }
  }

  // ------------------------------------------------------------ doc types

  /** Type: the kind of a cloud entry. */
  datatype DocType = Document | Collection

  const DocTypes: seq<DocType> := [Document, Collection]

  function DisplayWord(t: DocType): string {
    match t
    case Document => "Document"
    case Collection => "Collection"
  }

  /** Type.getType: the display word followed by "Type". */
  function TypeString(t: DocType): (s: string)
    ensures EndsWith(s, "Type") && s[..|s| - 4] == DisplayWord(t)
  {
    DisplayWord(t) + "Type"
  }

  function FindType(types: seq<DocType>, s: string): (r: Option<DocType>)
    ensures r.Some? ==> r.value in types && TypeString(r.value) == s
    ensures r.None? ==> forall t :: t in types ==> TypeString(t) != s
  {
    if types == [] then None
    else if s == TypeString(types[0]) then Some(types[0])
    else FindType(types[1..], s)
  }

  /**
   * Type.get: exact string comparison. The Java method dereferences its
   * argument, so it is only defined on a present string.
   */
  function GetType(s: string): Option<DocType> {
    FindType(DocTypes, s)
  }

  lemma TypeRoundTrip(t: DocType)
    ensures GetType(TypeString(t)) == Some(t)
  {
    assert t in DocTypes;
  }

  lemma TypeStrings(s: string)
    ensures GetType(s) == Some(Document) <==> s == "DocumentType"
    ensures GetType(s) == Some(Collection) <==> s == "CollectionType"
    ensures GetType(s).None? <==> s != "DocumentType" && s != "CollectionType"
  {
    TypeRoundTrip(Document);
    TypeRoundTrip(Collection);
  }
}
