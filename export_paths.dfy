/**
 * Export file names and the per-notebook SVG export loop (Util).  The
 * export folder and the platform's separator character are parameters;
 * creating the directories is outside the model.
 */
module ExportPaths {
  import opened Wrappers
  import opened Text
  import opened Decimal
  import opened Codes
  import opened ContentModel
  import opened SvgDocument
  import opened SvgMerger

  /** Each folder name followed by the separator, in list order; no folders give "". */
  function FolderPrefix(folders: seq<String>, sep: char): String {
    if |folders| == 0 then [] else folders[0] + [sep] + FolderPrefix(folders[1..], sep)
  }

  lemma {:induction false} FolderPrefixAppend(a: seq<String>, b: seq<String>, sep: char)
    ensures FolderPrefix(a + b, sep) == FolderPrefix(a, sep) + FolderPrefix(b, sep)
  {
    if |a| == 0 {
      assert a + b == b;
    } else {
      assert (a + b)[1..] == a[1..] + b;
      FolderPrefixAppend(a[1..], b, sep);
    }
  }

  predicate NoSeparator(s: String, sep: char) {
    forall k :: 0 <= k < |s| ==> s[k] != sep
  }

  /** Folder names without the separator can be read back from the prefix: it determines the list. */
  lemma {:induction false} FolderPrefixInjective(a: seq<String>, b: seq<String>, sep: char)
    requires forall i :: 0 <= i < |a| ==> NoSeparator(a[i], sep)
    requires forall i :: 0 <= i < |b| ==> NoSeparator(b[i], sep)
    requires FolderPrefix(a, sep) == FolderPrefix(b, sep)
    ensures a == b
  {
    if |a| == 0 || |b| == 0 {
    } else {
      var x := a[0];
      var y := b[0];
      var s := FolderPrefix(a, sep);
      assert s == x + [sep] + FolderPrefix(a[1..], sep);
      assert s == y + [sep] + FolderPrefix(b[1..], sep);
      // Both |x| and |y| are the position of the first separator in s.
      assert forall k :: 0 <= k < |x| ==> s[k] != sep;
      assert forall k :: 0 <= k < |y| ==> s[k] != sep;
      assert s[|x|] == sep && s[|y|] == sep;
      assert x == s[..|x|] == y;
      assert FolderPrefix(a[1..], sep) == s[|x| + 1..] == FolderPrefix(b[1..], sep);
      FolderPrefixInjective(a[1..], b[1..], sep);
      assert a == [x] + a[1..];
      assert b == [y] + b[1..];
    }
  }

  /** createFolderStructure: the folder prefix of the page's notebook, built up folder by folder. */
  method CreateFolderStructure(page: Page, sep: char) returns (folders: String)
    requires page.notebook != null
    ensures folders == FolderPrefix(page.notebook.folders, sep)
  {
    folders := [];
    var fs := page.notebook.folders;
    var i := 0;
    while i < |fs|
      invariant i <= |fs|
      invariant folders == FolderPrefix(fs[..i], sep)
    {
      FolderPrefixAppend(fs[..i], [fs[i]], sep);
      assert FolderPrefix([fs[i]], sep) == fs[i] + [sep] by {
        assert [fs[i]][1..] == [];
      }
      assert fs[..i + 1] == fs[..i] + [fs[i]];
      folders := folders + fs[i] + [sep];
      i := i + 1;
    }
    assert fs[..i] == fs;
  }

  /** What precedes the page number: export folder, separator, folder prefix, notebook name, separator, "Page_". */
  function FileHead(exportFolder: String, sep: char, folders: seq<String>, notebookName: String): String {
    exportFolder + [sep] + FolderPrefix(folders, sep) + notebookName + [sep] + "Page_"
  }

  /** What follows the page number: the suffix (a null suffix counting as ""), "." and the ending. */
  function FileTail(suffix: Option<String>, ending: String): String {
    (if suffix.Some? then suffix.value else "") + "." + ending
  }

  /** The name getFilename builds around the %03d page number. */
  function FileName(exportFolder: String, sep: char, folders: seq<String>, notebookName: String,
                    pageNumber: int, suffix: Option<String>, ending: String): String
  {
    FileHead(exportFolder, sep, folders, notebookName) + Format03(pageNumber) + FileTail(suffix, ending)
  }

  /** getFilename(page, suffix, ending). */
  method GetFilename(exportFolder: String, sep: char, page: Page, suffix: Option<String>, ending: String) returns (name: String)
    requires page.notebook != null
    ensures name == FileName(exportFolder, sep, page.notebook.folders, page.notebook.name, page.pageNumber, suffix, ending)
  {
    var s := suffix;
    if s.None? {
      s := Some("");
    }
    var folders := CreateFolderStructure(page, sep);
    var no := Format03(page.pageNumber);
    name := exportFolder + [sep] + folders + page.notebook.name + [sep] + "Page_" + no + (s.value + "." + ending);
  }

  /** getFilename(page, ending) passes a null suffix, which names the same file as an empty one. */
  method GetFilenameNoSuffix(exportFolder: String, sep: char, page: Page, ending: String) returns (name: String)
    requires page.notebook != null
    ensures name == FileName(exportFolder, sep, page.notebook.folders, page.notebook.name, page.pageNumber, None, ending)
    ensures name == FileName(exportFolder, sep, page.notebook.folders, page.notebook.name, page.pageNumber, Some(""), ending)
  {
    name := GetFilename(exportFolder, sep, page, None, ending);
  }

  /** The page number can be read back from between the head and the tail of the file name. */
  lemma FileNameNumber(exportFolder: String, sep: char, folders: seq<String>, notebookName: String,
                       pageNumber: int, suffix: Option<String>, ending: String)
    requires IsInt32(pageNumber)
    ensures var f := FileName(exportFolder, sep, folders, notebookName, pageNumber, suffix, ending);
      var h := |FileHead(exportFolder, sep, folders, notebookName)|;
      var t := |FileTail(suffix, ending)|;
      h + t <= |f| && ParseInt(f[h..|f| - t]) == Some(pageNumber)
  {
    Middle(FileHead(exportFolder, sep, folders, notebookName), Format03(pageNumber), FileTail(suffix, ending));
    Format03RoundTrip(pageNumber);
  }

  /** Pages of one notebook with different numbers get different files: the number is never truncated. */
  lemma DistinctPagesDistinctFiles(exportFolder: String, sep: char, folders: seq<String>, notebookName: String,
                                   m: int, n: int, suffix: Option<String>, ending: String)
    requires IsInt32(m) && IsInt32(n) && m != n
    ensures FileName(exportFolder, sep, folders, notebookName, m, suffix, ending)
         != FileName(exportFolder, sep, folders, notebookName, n, suffix, ending)
  {
    FileNameNumber(exportFolder, sep, folders, notebookName, m, suffix, ending);
    FileNameNumber(exportFolder, sep, folders, notebookName, n, suffix, ending);
  }

  // ---------------------------------------------------------------------
  // createSvg
  // ---------------------------------------------------------------------

  datatype Layout = Portrait | Landscape

  /** Only the exact orientation "portrait" renders upright; any other value, "landscape" included, rotates. */
  function LayoutFor(orientation: String): (l: Layout)
    ensures l == Portrait <==> orientation == "portrait"
  {
    if orientation == "portrait" then Portrait else Landscape
  }

  /**
   * What createSvg produces for one page: the file the page document is
   * written to and then merged into, the rendered document, and the
   * template name and title the merge is given.
   */
  datatype Export = Export(fileName: String, layout: Layout, document: seq<SvgItem>,
                           templateName: Option<String>, title: String)

  /** The renderer's and the merger's demands on a page: a notebook with content data and a template index in range. */
  predicate Exportable(page: Page)
    reads page, page.notebook, page.layers
  {
    && page.notebook != null && page.notebook.orientation.Some?
    && 0 <= page.pageNumber < |page.notebook.templateNames|
    && AllDrawable(page.Value().layers)
  }

  function PageExport(page: Page, palette: Palette, groupId: String, exportFolder: String, sep: char): Export
    reads page, page.notebook, page.layers
    requires Exportable(page)
  {
    var nb := page.notebook;
    var layout := LayoutFor(nb.orientation.value);
    Export(FileName(exportFolder, sep, nb.folders, nb.name, page.pageNumber, None, "svg"),
           layout,
           if layout == Portrait then PortraitItems(page.Value(), palette, groupId)
           else LandscapeItems(page.Value(), palette, groupId),
           page.GetTemplateName().value,
           PageTitle(nb.name, page.pageNumber))
  }

  /** One page of createSvg: render by orientation, name the file, look up the template. */
  method ExportPage(page: Page, palette: Palette, groupId: String, exportFolder: String, sep: char) returns (e: Export)
    requires Exportable(page)
    ensures e == PageExport(page, palette, groupId, exportFolder, sep)
  {
    var fileName := GetFilename(exportFolder, sep, page, None, "svg");
    var orientation := page.notebook.orientation.value;
    var doc: seq<SvgItem>;
    var layout: Layout;
    if orientation == "portrait" {
      doc := CreatePortrait(page, palette, groupId);
      layout := Portrait;
    } else {
      doc := CreateLandscape(page, palette, groupId);
      layout := Landscape;
    }
    var template := page.GetTemplateName().value;
    e := Export(fileName, layout, doc, template, PageTitle(page.notebook.name, page.pageNumber));
  }

  /** Everything the exports of the pages in `ps` depend on. */
  function ExportFootprint(ps: seq<Page>): set<object?>
    reads ps
  {
    (set p | p in ps :: p as object?) + (set p | p in ps :: p.notebook as object?)
    + (set p, l | p in ps && l in p.layers :: l as object?)
  }

  predicate AllExportable(ps: seq<Page>)
    reads ps, ExportFootprint(ps)
  {
    forall i :: 0 <= i < |ps| ==>
      (assert ps[i].notebook in ExportFootprint(ps) && forall l :: l in ps[i].layers ==> l in ExportFootprint(ps);
       Exportable(ps[i]))
  }

  /** The exports of the first `n` pages. */
  function PageExports(ps: seq<Page>, palette: Palette, groupIds: seq<String>, exportFolder: String, sep: char, n: nat): seq<Export>
    reads ps, ExportFootprint(ps)
    requires n <= |ps| == |groupIds| && AllExportable(ps)
  {
    if n == 0 then []
    else
      assert ps[n - 1].notebook in ExportFootprint(ps);
      assert forall l :: l in ps[n - 1].layers ==> l in ExportFootprint(ps);
      PageExports(ps, palette, groupIds, exportFolder, sep, n - 1) + [PageExport(ps[n - 1], palette, groupIds[n - 1], exportFolder, sep)]
  }

  /**
   * createSvg: one export per page of the notebook, in page order; each
   * step is the page export that ExportPage computes imperatively.
   */
  method CreateSvg(notebook: Content, palette: Palette, groupIds: seq<String>, exportFolder: String, sep: char)
    returns (exports: seq<Export>)
    requires |groupIds| == |notebook.pages|
    requires AllExportable(notebook.pages)
    ensures exports == PageExports(notebook.pages, palette, groupIds, exportFolder, sep, |notebook.pages|)
  {
    exports := [];
    var pages := notebook.pages;
    var i := 0;
    while i < |pages|
      invariant i <= |pages|
      invariant exports == PageExports(pages, palette, groupIds, exportFolder, sep, i)
    {
      var e := PageExport(pages[i], palette, groupIds[i], exportFolder, sep);
      exports := exports + [e];
      i := i + 1;
    }
  }

  /**
   * The orientation dispatch: a "portrait" notebook gets the upright
   * 1404 x 1872 frame without transform, any other the 1872 x 1404 frame
   * with the rotation; the page's number is in its title.
   */
  lemma PageExportLayout(page: Page, palette: Palette, groupId: String, exportFolder: String, sep: char)
    requires Exportable(page) && IsInt32(page.pageNumber)
    ensures var e := PageExport(page, palette, groupId, exportFolder, sep);
      var d := e.document;
      |d| >= 5
      && (page.notebook.orientation.value == "portrait" ==>
            d[0] == SvgOpen(1404, 1872) && d[1] == GroupOpen(groupId, None))
      && (page.notebook.orientation.value != "portrait" ==>
            d[0] == SvgOpen(1872, 1404) && d[1] == GroupOpen(groupId, Some(Transform(90, 702, 936, -234, -234))))
      && ParseInt(e.title[|page.notebook.name| + 8..]) == Some(page.pageNumber)
  {
    DocumentFrames(page.Value(), palette, groupId);
    PageTitleNumber(page.notebook.name, page.pageNumber);
  }
}
