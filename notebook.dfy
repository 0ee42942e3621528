/**
 * The notebook the manager reads from a downloaded archive: its id and
 * name, the metadata it is given afterwards (current page, type, parent
 * folders), its template names and its decoded pages; and the older
 * notebook layer, which collects strokes like the content layer.
 *
 * The notebook's page class is not part of this model: a notebook keeps
 * each page as the value the page decoder of PageFormat gives, without a
 * back-reference.
 */
module NotebookModel {
  import opened Wrappers
  import opened Text
  import opened Decimal
  import opened Codes
  import opened Ink
  import opened PageFormat
  import opened ContentModel
  import opened ExportPaths

  /** The layer of the notebook package: a number and the strokes added so far. */
  class Layer {
    const number: int
    var strokes: seq<Stroke>

    /** A new layer has its number and no strokes. */
    constructor (number: int)
      ensures this.number == number && strokes == []
    {
      this.number := number;
      strokes := [];
    }

    /** add: the stroke goes at the end; the earlier strokes stay as they were. */
    method Add(s: Stroke)
      modifies this`strokes
      ensures strokes == old(strokes) + [s]
    {
      strokes := strokes + [s];
    }

    /** toString: the layer number and the stroke count, in the text the content layer uses. */
    method Describe() returns (s: String)
      ensures s == LayerText(number, |strokes|)
    {
      s := LayerText(number, |strokes|);
    }
  }

  class Notebook {
    const id: String
    const name: String
    var docType: Option<String>
    var currentPage: int
    var templateNames: seq<Option<String>>
    var folders: seq<String>
    var pages: seq<PageValue>

    /** Notebook(id, name): no type, current page 0, no templates, folders or pages. */
    constructor (id: String, name: String)
      ensures this.id == id && this.name == name
      ensures docType.None? && currentPage == 0 && templateNames == [] && folders == [] && pages == []
    {
      this.id := id;
      this.name := name;
      docType := None;
      currentPage := 0;
      templateNames := [];
      folders := [];
      pages := [];
    }

    method SetCurrentPageNumber(n: int)
      modifies this`currentPage
      ensures currentPage == n
    {
      currentPage := n;
    }

    method SetFolders(fs: seq<String>)
      modifies this`folders
      ensures folders == fs
    {
      folders := fs;
    }

    method SetTemplateNames(ts: seq<Option<String>>)
      modifies this`templateNames
      ensures templateNames == ts
    {
      templateNames := ts;
    }

    method SetType(t: Option<String>)
      modifies this`docType
      ensures docType == t
    {
      docType := t;
    }

    /** getDefaultTemplate: the last template name, or null for an empty list. */
    function DefaultTemplate(): (r: Option<String>)
      reads this`templateNames
      ensures |templateNames| == 0 ==> r.None?
      ensures |templateNames| > 0 ==> r == templateNames[|templateNames| - 1]
    {
      LastTemplate(templateNames)
    }

    /** getTemplateName(page): the name at the page number, with no fallback; outside the list it throws (None). */
    function TemplateName(page: PageValue): (r: Option<Option<String>>)
      reads this`templateNames
      ensures r.Some? <==> 0 <= page.pageNumber < |templateNames|
      ensures r.Some? ==> r.value == templateNames[page.pageNumber]
    {
      TemplateAt(templateNames, page.pageNumber)
    }

    /** getPage: the first page in insertion order with this number, or null. */
    method GetPage(number: int) returns (r: Option<PageValue>)
      ensures r == PageWithNumber(pages, number)
    {
      var i := 0;
      while i < |pages|
        invariant i <= |pages|
        invariant forall j :: 0 <= j < i ==> pages[j].pageNumber != number
      {
        if pages[i].pageNumber == number {
          PageWithNumberAt(pages, number, i);
          return Some(pages[i]);
        }
        i := i + 1;
      }
      return None;
    }

    /** add: the page is appended; unlike Content.add no back-reference is set. */
    method Add(page: PageValue)
      modifies this`pages
      ensures pages == old(pages) + [page]
    {
      pages := pages + [page];
    }

    /** getType: the type whose string the stored type is; a null type throws, so it must be set. */
    function GetDocType(): (r: Option<DocType>)
      requires docType.Some?
      reads this`docType
      ensures r.Some? ==> TypeString(r.value) == docType.value
      ensures forall t :: docType.value == TypeString(t) ==> r == Some(t)
    {
      TypeStringsDistinct(docType.value);
      GetType(docType.value)
    }

    /**
     * getCurrentPageFile: null when no page has the current page number,
     * otherwise the "_thumbnail" png file name of that page.
     */
    method CurrentPageFile(exportFolder: String, sep: char) returns (r: Option<String>)
      ensures r.None? <==> PageWithNumber(pages, currentPage).None?
      ensures r.Some? ==> r.value == FileName(exportFolder, sep, folders, name, currentPage, Some("_thumbnail"), "png")
    {
      var p := GetPage(currentPage);
      if p.None? {
        return None;
      }
      var no := p.value.pageNumber;
      r := Some(FileName(exportFolder, sep, folders, name, no, Some("_thumbnail"), "png"));
    }
  }

  /** getPage as a value: the first page numbered `n`, in list order, or null (None). */
  function PageWithNumber(ps: seq<PageValue>, n: int): (r: Option<PageValue>)
    ensures r.Some? ==> r.value in ps && r.value.pageNumber == n
    ensures r.None? <==> forall j :: 0 <= j < |ps| ==> ps[j].pageNumber != n
  {
    match FirstIndex(ps, (q: PageValue) => q.pageNumber == n)
    case None => None
    case Some(i) => Some(ps[i])
  }

  /** Where the loop of getPage stops: the page there is the one PageWithNumber returns. */
  lemma PageWithNumberAt(ps: seq<PageValue>, n: int, i: nat)
    requires i < |ps| && ps[i].pageNumber == n
    requires forall j :: 0 <= j < i ==> ps[j].pageNumber != n
    ensures PageWithNumber(ps, n) == Some(ps[i])
  {
    FirstIndexAt(ps, (q: PageValue) => q.pageNumber == n, i);
  }

  /** Adding a page changes a lookup only when no earlier page had that number: the first one wins. */
  lemma PageWithNumberAfterAdd(ps: seq<PageValue>, p: PageValue, n: int)
    ensures PageWithNumber(ps + [p], n) == if PageWithNumber(ps, n).Some? then PageWithNumber(ps, n)
                                            else if p.pageNumber == n then Some(p) else None
  {
    FirstIndexAppend(ps, p, (q: PageValue) => q.pageNumber == n);
    match FirstIndex(ps, (q: PageValue) => q.pageNumber == n)
    case None =>
    case Some(i) => assert (ps + [p])[i] == ps[i];
  }

  /** What getType needs from the type table: a type string names exactly one type. */
  lemma TypeStringsDistinct(s: String)
    ensures GetType(s).Some? ==> TypeString(GetType(s).value) == s
    ensures forall t :: s == TypeString(t) ==> GetType(s) == Some(t)
  {
    forall t | s == TypeString(t)
      ensures GetType(s) == Some(t)
    {
      TypeRoundTrip(t);
    }
    if GetType(s).Some? {
      TypeStrings(s);
    }
  }

  /** The current page file names the current page: its number reads back from the file name. */
  lemma CurrentPageFileNumber(exportFolder: String, sep: char, folders: seq<String>, name: String, currentPage: int)
    requires IsInt32(currentPage)
    ensures var f := FileName(exportFolder, sep, folders, name, currentPage, Some("_thumbnail"), "png");
      var h := |FileHead(exportFolder, sep, folders, name)|;
      EndsWith(f, "_thumbnail.png") && h + 14 <= |f| && ParseInt(f[h..|f| - 14]) == Some(currentPage)
  {
    var f := FileName(exportFolder, sep, folders, name, currentPage, Some("_thumbnail"), "png");
    var tail := FileTail(Some("_thumbnail"), "png");
    assert tail == "_thumbnail.png" && |tail| == 14;
    FileNameNumber(exportFolder, sep, folders, name, currentPage, Some("_thumbnail"), "png");
    assert ParseInt(f[|FileHead(exportFolder, sep, folders, name)|..|f| - |tail|]) == Some(currentPage);
    EndsWithAppend(FileHead(exportFolder, sep, folders, name) + Format03(currentPage), tail);
    assert EndsWith(f, tail);
  }
}
