/**
 * The template compositor (SvgMerger): a notebook page is laid over the
 * SVG of its page template.  The parsed documents are trees of `Node`
 * values; parsing and serialising the XML are outside the model.
 */
module SvgMerger {
  import opened Wrappers
  import opened Text
  import opened Decimal

  datatype Attr = Attr(name: String, value: String)

  /** A DOM node: an element (with attributes and children) or a text node (with its data). */
  datatype Node = Node(name: String, text: String, attrs: seq<Attr>, children: seq<Node>, isElement: bool)

  function TextNode(s: String): (t: Node)
    ensures !t.isElement && t.text == s && t.children == [] && t.attrs == []
  {
    Node("#text", s, [], [], false)
  }

  /** Node.getTextContent: the data of a text node, the concatenated text of an element's children. */
  function TextContent(n: Node): String
    decreases n, 1
  {
    if n.isElement then ChildrenText(n.children) else n.text
  }

  function ChildrenText(cs: seq<Node>): String
    decreases cs, 0
  {
    if |cs| == 0 then [] else ChildrenText(cs[..|cs| - 1]) + TextContent(cs[|cs| - 1])
  }

  /** The children an element is left with by Node.setTextContent(s): one text node, none for "". */
  function TextChildren(s: String): (cs: seq<Node>)
    ensures |s| == 0 ==> cs == []
    ensures |s| > 0 ==> cs == [TextNode(s)]
  {
    if |s| == 0 then [] else [TextNode(s)]
  }

  /** Node.setTextContent: an element's children are all replaced, a text node's data is overwritten. */
  function SetTextContent(n: Node, s: String): Node {
    if n.isElement then n.(children := TextChildren(s)) else n.(text := s)
  }

  /** What setTextContent stores is what getTextContent reads back, and nothing else of the node changes. */
  lemma TextContentRoundTrip(n: Node, s: String)
    ensures TextContent(SetTextContent(n, s)) == s
    ensures var m := SetTextContent(n, s);
      m.name == n.name && m.attrs == n.attrs && m.isElement == n.isElement
  {
    if n.isElement && |s| > 0 {
      var cs := TextChildren(s);
      assert cs[..0] == [];
      assert ChildrenText(cs) == ChildrenText(cs[..0]) + TextContent(cs[0]);
    }
  }

  // ---------------------------------------------------------------------
  // Stroke colour substitution (replaceColor)
  // ---------------------------------------------------------------------

  const BlackStroke: String := "stroke:#000000"
  const RgbBlackStroke: String := "stroke:rgb(0%,0%,0%)"

  /** The two black stroke declarations become `stroke:` followed by the grid colour, in this order. */
  function Recolor(s: String, gridColor: String): String {
    ReplaceAll(ReplaceAll(s, BlackStroke, "stroke:" + gridColor), RgbBlackStroke, "stroke:" + gridColor)
  }

  predicate Plain(s: String) {
    !Occurs(s, BlackStroke) && !Occurs(s, RgbBlackStroke)
  }

  /** Text containing neither black declaration is left as it is. */
  lemma RecolorPlain(s: String, gridColor: String)
    requires Plain(s)
    ensures Recolor(s, gridColor) == s
  {
    ReplaceAbsent(s, BlackStroke, "stroke:" + gridColor);
    ReplaceAbsent(s, RgbBlackStroke, "stroke:" + gridColor);
  }

  /** Each black declaration on its own becomes the grid colour declaration. */
  lemma RecolorDeclarations(gridColor: String)
    requires !Occurs("stroke:" + gridColor, RgbBlackStroke)
    ensures Recolor(BlackStroke, gridColor) == "stroke:" + gridColor
    ensures Recolor(RgbBlackStroke, gridColor) == "stroke:" + gridColor
  {
    var c := "stroke:" + gridColor;
    ReplaceAtStart(BlackStroke, [], c);
    assert BlackStroke + [] == BlackStroke;
    ReplaceAbsent([], BlackStroke, c);
    assert c + [] == c;
    ReplaceAbsent(c, RgbBlackStroke, c);
    assert !Occurs(RgbBlackStroke, BlackStroke) by {
      forall i: nat | i <= |RgbBlackStroke| ensures !MatchAt(RgbBlackStroke, BlackStroke, i) {
        if i + |BlackStroke| <= |RgbBlackStroke| {
          var w := RgbBlackStroke[i..i + |BlackStroke|];
          assert w[0] == RgbBlackStroke[i] && w[7] == RgbBlackStroke[i + 7];
        }
      }
    }
    ReplaceAbsent(RgbBlackStroke, BlackStroke, c);
    ReplaceAtStart(RgbBlackStroke, [], c);
    assert RgbBlackStroke + [] == RgbBlackStroke;
    ReplaceAbsent([], RgbBlackStroke, c);
  }

  predicate IsStyleName(name: String) {
    EqualsIgnoreCase(name, "style")
  }

  function RecolorAttr(a: Attr, gridColor: String): Attr {
    if IsStyleName(a.name) then a.(value := Recolor(a.value, gridColor)) else a
  }

  /** Every attribute keeps its name and place; only the values of `style` attributes are recoloured. */
  function RecolorAttrs(attrs: seq<Attr>, gridColor: String): (r: seq<Attr>)
    ensures |r| == |attrs|
    ensures forall j :: 0 <= j < |r| ==> r[j].name == attrs[j].name
    ensures forall j :: 0 <= j < |r| && !IsStyleName(attrs[j].name) ==> r[j] == attrs[j]
    ensures forall j :: 0 <= j < |r| && IsStyleName(attrs[j].name) ==> r[j].value == Recolor(attrs[j].value, gridColor)
  {
    seq(|attrs|, j requires 0 <= j < |attrs| => RecolorAttr(attrs[j], gridColor))
  }

  /**
   * replaceColor on an element tree.  A `style` element first has its text
   * recoloured and stored back with setTextContent, which leaves it with
   * text children only; then the `style` attributes are recoloured; then
   * the recursion enters every element child and passes over the others.
   */
  function Recolored(n: Node, gridColor: String): Node
    decreases n, 1
  {
    if IsStyleName(n.name) then
      var styled := SetTextContent(n, Recolor(TextContent(n), gridColor));
      styled.(attrs := RecolorAttrs(styled.attrs, gridColor))
    else
      n.(attrs := RecolorAttrs(n.attrs, gridColor), children := RecoloredAll(n.children, gridColor))
  }

  function RecoloredAll(cs: seq<Node>, gridColor: String): seq<Node>
    decreases cs, 0
  {
    seq(|cs|, i requires 0 <= i < |cs| => if cs[i].isElement then Recolored(cs[i], gridColor) else cs[i])
  }

  /** The attribute loop of replaceColor: each `style` value is rewritten where it stands. */
  method ReplaceAttrColors(attrs: seq<Attr>, gridColor: String) returns (r: seq<Attr>)
    ensures r == RecolorAttrs(attrs, gridColor)
  {
    r := attrs;
    var j := 0;
    while j < |r|
      invariant 0 <= j <= |r| == |attrs|
      invariant forall k :: 0 <= k < j ==> r[k] == RecolorAttr(attrs[k], gridColor)
      invariant forall k :: j <= k < |r| ==> r[k] == attrs[k]
    {
      if IsStyleName(r[j].name) {
        r := r[j := r[j].(value := Recolor(r[j].value, gridColor))];
      }
      j := j + 1;
    }
  }

  /** replaceColor: the `style` text, the attributes, then each element child by a recursive call. */
  method ReplaceColor(n: Node, gridColor: String) returns (r: Node)
    requires n.isElement
    ensures r == Recolored(n, gridColor)
    decreases n
  {
    var node := n;
    var isStyle := IsStyleName(n.name);
    if isStyle {
      var content := TextContent(node);
      content := Recolor(content, gridColor);
      node := SetTextContent(node, content);
    }
    var attrs := ReplaceAttrColors(node.attrs, gridColor);
    var children := node.children;
    assert isStyle ==> forall k :: 0 <= k < |children| ==> !children[k].isElement;
    var i := 0;
    while i < |children|
      invariant 0 <= i <= |children| == |node.children|
      invariant forall k :: 0 <= k < i ==> children[k] == if node.children[k].isElement then Recolored(node.children[k], gridColor) else node.children[k]
      invariant forall k :: i <= k < |children| ==> children[k] == node.children[k]
      invariant !isStyle ==> node.children == n.children
      invariant isStyle ==> forall k :: 0 <= k < |children| ==> !node.children[k].isElement
    {
      if children[i].isElement {
        var c := ReplaceColor(children[i], gridColor);
        children := children[i := c];
      }
      i := i + 1;
    }
    if isStyle {
      assert children == node.children;
    } else {
      assert children == RecoloredAll(n.children, gridColor);
    }
    r := node.(attrs := attrs, children := children);
  }

  /** A recoloured node keeps its name and kind; every attribute keeps its name, and only `style` values change. */
  lemma RecoloredShape(n: Node, gridColor: String)
    ensures var r := Recolored(n, gridColor);
      r.name == n.name && r.isElement == n.isElement && |r.attrs| == |n.attrs|
      && (forall j :: 0 <= j < |r.attrs| ==> r.attrs[j].name == n.attrs[j].name)
      && (forall j :: 0 <= j < |r.attrs| && !IsStyleName(n.attrs[j].name) ==> r.attrs[j] == n.attrs[j])
    ensures !IsStyleName(n.name) ==> |Recolored(n, gridColor).children| == |n.children|
  {
  }

  /** A `style` element ends up holding its recoloured text as its only content. */
  lemma RecoloredStyleText(n: Node, gridColor: String)
    requires n.isElement && IsStyleName(n.name)
    ensures TextContent(Recolored(n, gridColor)) == Recolor(TextContent(n), gridColor)
    ensures Recolored(n, gridColor).children == TextChildren(Recolor(TextContent(n), gridColor))
  {
    var s := Recolor(TextContent(n), gridColor);
    TextContentRoundTrip(n, s);
    var styled := SetTextContent(n, s);
    assert Recolored(n, gridColor) == styled.(attrs := RecolorAttrs(styled.attrs, gridColor));
    assert TextContent(Recolored(n, gridColor)) == ChildrenText(styled.children);
  }

  // ---------------------------------------------------------------------
  // Which values the recursion reaches
  // ---------------------------------------------------------------------

  /** The values of the `style` attributes, in attribute order. */
  function AttrStyleValues(attrs: seq<Attr>): seq<String> {
    if |attrs| == 0 then []
    else
      var a := attrs[|attrs| - 1];
      AttrStyleValues(attrs[..|attrs| - 1]) + (if IsStyleName(a.name) then [a.value] else [])
  }

  /**
   * Every `style` attribute value the recursion of replaceColor visits, in
   * document order: the node's own, then those of each element child.  The
   * children of a `style` element are replaced by its text before the
   * recursion reaches them.
   */
  function StyleValues(n: Node): seq<String>
    decreases n, 1
  {
    AttrStyleValues(n.attrs) + (if IsStyleName(n.name) then [] else StyleValuesAll(n.children))
  }

  function StyleValuesAll(cs: seq<Node>): seq<String>
    decreases cs, 0
  {
    if |cs| == 0 then []
    else StyleValuesAll(cs[..|cs| - 1]) + (if cs[|cs| - 1].isElement then StyleValues(cs[|cs| - 1]) else [])
  }

  function RecolorEach(ss: seq<String>, gridColor: String): (r: seq<String>)
    ensures |r| == |ss|
    ensures forall i :: 0 <= i < |ss| ==> r[i] == Recolor(ss[i], gridColor)
  {
    seq(|ss|, i requires 0 <= i < |ss| => Recolor(ss[i], gridColor))
  }

  lemma RecolorEachAppend(a: seq<String>, b: seq<String>, gridColor: String)
    ensures RecolorEach(a + b, gridColor) == RecolorEach(a, gridColor) + RecolorEach(b, gridColor)
  {
  }

  lemma {:induction false} AttrStyleValuesRecolored(attrs: seq<Attr>, gridColor: String)
    ensures AttrStyleValues(RecolorAttrs(attrs, gridColor)) == RecolorEach(AttrStyleValues(attrs), gridColor)
  {
    if |attrs| > 0 {
      var n := |attrs| - 1;
      var init := attrs[..n];
      var r := RecolorAttrs(attrs, gridColor);
      AttrStyleValuesRecolored(init, gridColor);
      assert r[..n] == RecolorAttrs(init, gridColor);
      assert r[n].name == attrs[n].name;
      var tail := if IsStyleName(attrs[n].name) then [attrs[n].value] else [];
      RecolorEachAppend(AttrStyleValues(init), tail, gridColor);
    }
  }

  /**
   * The recursion reaches every `style` attribute below the root, except
   * under a `style` element, and recolours each value it reaches.
   */
  lemma {:induction false} RecolorReachesEveryStyle(n: Node, gridColor: String)
    ensures StyleValues(Recolored(n, gridColor)) == RecolorEach(StyleValues(n), gridColor)
    decreases n, 1
  {
    var r := Recolored(n, gridColor);
    AttrStyleValuesRecolored(n.attrs, gridColor);
    if IsStyleName(n.name) {
      var styled := SetTextContent(n, Recolor(TextContent(n), gridColor));
      assert styled.attrs == n.attrs;
      assert r.attrs == RecolorAttrs(n.attrs, gridColor);
      assert StyleValues(r) == AttrStyleValues(r.attrs);
      assert StyleValues(n) == AttrStyleValues(n.attrs);
    } else {
      RecolorReachesAll(n.children, gridColor);
      RecolorEachAppend(AttrStyleValues(n.attrs), StyleValuesAll(n.children), gridColor);
    }
  }

  lemma {:induction false} RecolorReachesAll(cs: seq<Node>, gridColor: String)
    ensures StyleValuesAll(RecoloredAll(cs, gridColor)) == RecolorEach(StyleValuesAll(cs), gridColor)
    decreases cs, 0
  {
    if |cs| > 0 {
      var n := |cs| - 1;
      var init := cs[..n];
      var rs := RecoloredAll(cs, gridColor);
      RecolorReachesAll(init, gridColor);
      assert rs[..n] == RecoloredAll(init, gridColor);
      var last := cs[n];
      if last.isElement {
        RecolorReachesEveryStyle(last, gridColor);
        assert rs[n] == Recolored(last, gridColor);
        RecoloredShape(last, gridColor);
        RecolorEachAppend(StyleValuesAll(init), StyleValues(last), gridColor);
      } else {
        assert rs[n] == last;
        assert StyleValuesAll(cs) == StyleValuesAll(init);
      }
    }
  }

  // ---------------------------------------------------------------------
  // Trees that replaceColor leaves alone
  // ---------------------------------------------------------------------

  predicate PlainAttrs(attrs: seq<Attr>) {
    forall j :: 0 <= j < |attrs| && IsStyleName(attrs[j].name) ==> Plain(attrs[j].value)
  }

  /**
   * No black declaration in any visited `style` attribute or `style`
   * element, and every `style` element already holds its text as a single
   * text node (the form setTextContent gives it).
   */
  predicate Clean(n: Node)
    decreases n, 1
  {
    PlainAttrs(n.attrs)
    && if IsStyleName(n.name) then
      n.isElement && Plain(TextContent(n)) && n.children == TextChildren(TextContent(n))
    else
      CleanAll(n.children)
  }

  predicate CleanAll(cs: seq<Node>)
    decreases cs, 0
  {
    forall i :: 0 <= i < |cs| ==> (cs[i].isElement ==> Clean(cs[i]))
  }

  lemma RecolorAttrsPlain(attrs: seq<Attr>, gridColor: String)
    requires PlainAttrs(attrs)
    ensures RecolorAttrs(attrs, gridColor) == attrs
  {
    var r := RecolorAttrs(attrs, gridColor);
    forall j | 0 <= j < |attrs| ensures r[j] == attrs[j] {
      if IsStyleName(attrs[j].name) {
        RecolorPlain(attrs[j].value, gridColor);
      }
    }
  }

  /** replaceColor changes nothing in a clean tree. */
  lemma {:induction false} RecolorClean(n: Node, gridColor: String)
    requires Clean(n)
    ensures Recolored(n, gridColor) == n
    decreases n, 1
  {
    RecolorAttrsPlain(n.attrs, gridColor);
    if IsStyleName(n.name) {
      RecolorPlain(TextContent(n), gridColor);
      assert SetTextContent(n, TextContent(n)) == n;
    } else {
      RecolorCleanAll(n.children, gridColor);
    }
  }

  lemma {:induction false} RecolorCleanAll(cs: seq<Node>, gridColor: String)
    requires CleanAll(cs)
    ensures RecoloredAll(cs, gridColor) == cs
    decreases cs, 0
  {
    var rs := RecoloredAll(cs, gridColor);
    forall i | 0 <= i < |cs| ensures rs[i] == cs[i] {
      if cs[i].isElement {
        RecolorClean(cs[i], gridColor);
      }
    }
  }

  // ---------------------------------------------------------------------
  // The title (getElementsByTagName("title") and setTextContent)
  // ---------------------------------------------------------------------

  predicate IsTitle(n: Node) {
    n.isElement && n.name == "title"
  }

  /** The text of every `title` element, the node itself included, in document order. */
  function TitleTexts(n: Node): seq<String>
    decreases n, 1
  {
    (if IsTitle(n) then [TextContent(n)] else []) + TitleTextsAll(n.children)
  }

  function TitleTextsAll(cs: seq<Node>): seq<String>
    decreases cs, 0
  {
    if |cs| == 0 then [] else TitleTextsAll(cs[..|cs| - 1]) + TitleTexts(cs[|cs| - 1])
  }

  /** setTextContent(title) on the `title` elements; with a single one, on exactly that element. */
  function Retitled(n: Node, title: String): Node
    decreases n, 1
  {
    if IsTitle(n) then SetTextContent(n, title) else n.(children := RetitledAll(n.children, title))
  }

  function RetitledAll(cs: seq<Node>, title: String): seq<Node>
    decreases cs, 0
  {
    seq(|cs|, i requires 0 <= i < |cs| => Retitled(cs[i], title))
  }

  lemma {:induction false} RetitleNone(n: Node, title: String)
    requires |TitleTexts(n)| == 0
    ensures Retitled(n, title) == n
    decreases n, 1
  {
    RetitleNoneAll(n.children, title);
  }

  lemma {:induction false} RetitleNoneAll(cs: seq<Node>, title: String)
    requires |TitleTextsAll(cs)| == 0
    ensures RetitledAll(cs, title) == cs
    decreases cs, 0
  {
    if |cs| > 0 {
      var n := |cs| - 1;
      RetitleNoneAll(cs[..n], title);
      RetitleNone(cs[n], title);
      var rs := RetitledAll(cs, title);
      assert rs[..n] == RetitledAll(cs[..n], title);
      assert rs == rs[..n] + [rs[n]];
      assert cs == cs[..n] + [cs[n]];
    }
  }

  /** A template with exactly one `title` element ends up with that element holding exactly the new title. */
  lemma {:induction false} RetitleSingle(n: Node, title: String)
    requires |TitleTexts(n)| == 1
    ensures TitleTexts(Retitled(n, title)) == [title]
    decreases n, 1
  {
    if IsTitle(n) {
      assert |TitleTextsAll(n.children)| == 0;
      var m := SetTextContent(n, title);
      TextContentRoundTrip(n, title);
      var cs := TextChildren(title);
      if |cs| > 0 {
        assert cs[..0] == [];
        assert TitleTextsAll(cs) == TitleTextsAll(cs[..0]) + TitleTexts(cs[0]);
        assert TitleTexts(cs[0]) == [] + TitleTextsAll(cs[0].children);
      }
      assert TitleTexts(m) == [title] + TitleTextsAll(cs);
    } else {
      RetitleSingleAll(n.children, title);
    }
  }

  lemma {:induction false} RetitleSingleAll(cs: seq<Node>, title: String)
    requires |TitleTextsAll(cs)| == 1
    ensures TitleTextsAll(RetitledAll(cs, title)) == [title]
    decreases cs, 0
  {
    var n := |cs| - 1;
    var init := cs[..n];
    var rs := RetitledAll(cs, title);
    assert rs[..n] == RetitledAll(init, title);
    assert rs[n] == Retitled(cs[n], title);
    assert TitleTextsAll(cs) == TitleTextsAll(init) + TitleTexts(cs[n]);
    assert TitleTextsAll(rs) == TitleTextsAll(rs[..n]) + TitleTexts(rs[n]);
    if |TitleTextsAll(init)| == 1 {
      RetitleSingleAll(init, title);
      RetitleNone(cs[n], title);
    } else {
      RetitleNoneAll(init, title);
      RetitleSingle(cs[n], title);
    }
  }

  /** merge: the page title is the notebook name, " - Page " and the page number formatted with %03d. */
  function PageTitle(notebookName: String, pageNumber: int): (t: String)
    ensures StartsWith(t, notebookName + " - Page ")
  {
    notebookName + " - Page " + Format03(pageNumber)
  }

  /** The notebook name and the page number can both be read back from the title. */
  lemma PageTitleNumber(notebookName: String, pageNumber: int)
    requires IsInt32(pageNumber)
    ensures var t := PageTitle(notebookName, pageNumber);
      t[..|notebookName|] == notebookName && ParseInt(t[|notebookName| + 8..]) == Some(pageNumber)
  {
    var t := PageTitle(notebookName, pageNumber);
    assert t[|notebookName| + 8..] == Format03(pageNumber);
    Format03RoundTrip(pageNumber);
  }

  // ---------------------------------------------------------------------
  // mergeSvg
  // ---------------------------------------------------------------------

  /** A template file found by the template loader: its file name and its parsed document element. */
  datatype TemplateFile = TemplateFile(fileName: String, root: Node)

  /** Skipped: nothing is written and the page SVG stays as it is; Merged: the document written to the target. */
  datatype MergeResult = Skipped | Merged(root: Node)

  predicate IsBlank(t: TemplateFile) {
    EqualsIgnoreCase(t.fileName, "Blank.svg")
  }

  /**
   * mergeSvg: no template or the blank template writes nothing.  Otherwise
   * the title is set when the template has exactly one `title` element, the
   * template is recoloured, and the page's document element is appended as
   * the last child of the template's.
   */
  function MergeSvg(template: Option<TemplateFile>, foreground: Node, title: String, gridColor: String): (r: MergeResult)
    ensures r.Skipped? <==> template.None? || IsBlank(template.value)
    ensures r.Merged? ==> |r.root.children| > 0 && r.root.children[|r.root.children| - 1] == foreground
  {
    if template.None? || IsBlank(template.value) then Skipped
    else
      var root := template.value.root;
      var titled := if |TitleTexts(root)| == 1 then Retitled(root, title) else root;
      var recolored := Recolored(titled, gridColor);
      Merged(recolored.(children := recolored.children + [foreground]))
  }

  /** Skip rules: exactly a missing template and a template named Blank.svg (in any case) produce no output. */
  lemma MergeSkips(template: Option<TemplateFile>, foreground: Node, title: String, gridColor: String)
    ensures MergeSvg(template, foreground, title, gridColor).Skipped?
      <==> template.None? || EqualsIgnoreCase(template.value.fileName, "Blank.svg")
  {
  }

  /**
   * The page is appended after the colour replacement: it is the last child,
   * unchanged, and everything before it is the recoloured template.
   */
  lemma {:induction false} MergeForegroundLast(template: TemplateFile, foreground: Node, title: String, gridColor: String)
    requires !IsBlank(template)
    ensures var m := MergeSvg(Some(template), foreground, title, gridColor);
      var titled := if |TitleTexts(template.root)| == 1 then Retitled(template.root, title) else template.root;
      m.Merged?
      && |m.root.children| > 0
      && m.root.children[|m.root.children| - 1] == foreground
      && m.root.children[..|m.root.children| - 1] == Recolored(titled, gridColor).children
      && m.root.name == template.root.name
      && StyleValues(m.root.(children := m.root.children[..|m.root.children| - 1]))
         == RecolorEach(StyleValues(titled), gridColor)
  {
    var root := template.root;
    var titled := if |TitleTexts(root)| == 1 then Retitled(root, title) else root;
    var recolored := Recolored(titled, gridColor);
    var m := MergeSvg(Some(template), foreground, title, gridColor);
    assert m.root == recolored.(children := recolored.children + [foreground]);
    var cs := m.root.children;
    assert cs[..|cs| - 1] == recolored.children;
    assert m.root.(children := cs[..|cs| - 1]) == recolored;
    RecolorReachesEveryStyle(titled, gridColor);
    RecoloredShape(titled, gridColor);
    if |TitleTexts(root)| != 1 {
      assert titled == root;
    } else if !IsTitle(root) {
      assert titled.name == root.name;
    }
  }

  /**
   * The title is set only when the template has exactly one `title` element:
   * that element then holds the title; otherwise the title has no effect.
   */
  lemma MergeTitle(template: TemplateFile, foreground: Node, title: String, other: String, gridColor: String)
    ensures |TitleTexts(template.root)| == 1 ==> TitleTexts(Retitled(template.root, title)) == [title]
    ensures |TitleTexts(template.root)| != 1 ==>
      MergeSvg(Some(template), foreground, title, gridColor) == MergeSvg(Some(template), foreground, other, gridColor)
  {
    if |TitleTexts(template.root)| == 1 {
      RetitleSingle(template.root, title);
    }
  }
}
