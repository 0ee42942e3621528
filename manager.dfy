/**
 * RemarkableManager: the metadata records of the cloud listing, the
 * notebooks read from downloaded archives, the lookups over both, the
 * parent-folder chain of a record, the path a notebook is downloaded to,
 * and the bookkeeping of reading one archive.
 *
 * The storage folder, the separator character and the archive's entries
 * are parameters; the recursion of the parent chain is bounded by a fuel
 * argument (no result when it runs out).
 */
module RemarkableManager {
  import opened Wrappers
  import opened Text
  import opened Decimal
  import opened Codes
  import opened PageFormat
  import opened ContentModel
  import opened NotebookModel
  import opened ExportPaths

  /** The fields of a cloud metadata record the manager reads. */
  datatype MetaData = MetaData(id: String, visibleName: String, currentPage: int, docType: Option<String>, parent: String)

  // ------------------------------------------------------------ lookups

  /** The first element, in sequence order, that satisfies `p`. */
  function Find<T>(xs: seq<T>, p: T -> bool): (r: Option<T>)
    ensures r.None? <==> forall j :: 0 <= j < |xs| ==> !p(xs[j])
    ensures r.Some? ==> exists i :: 0 <= i < |xs| && xs[i] == r.value && p(xs[i]) && forall j :: 0 <= j < i ==> !p(xs[j])
  {
    match FirstIndex(xs, p)
    case None => None
    case Some(i) => Some(xs[i])
  }

  /** Where a search loop stops: the first element satisfying `p` is the one Find returns. */
  lemma FindAt<T>(xs: seq<T>, p: T -> bool, i: nat)
    requires i < |xs| && p(xs[i])
    requires forall j :: 0 <= j < i ==> !p(xs[j])
    ensures Find(xs, p) == Some(xs[i])
  {
    FirstIndexAt(xs, p, i);
  }

  function MetaById(ms: seq<MetaData>, id: String): Option<MetaData> {
    Find(ms, (m: MetaData) => m.id == id)
  }

  function MetaByName(ms: seq<MetaData>, name: String): Option<MetaData> {
    Find(ms, (m: MetaData) => m.visibleName == name)
  }

  function NotebookById(ns: seq<Notebook>, id: String): Option<Notebook> {
    Find(ns, (n: Notebook) => n.id == id)
  }

  function NotebookByName(ns: seq<Notebook>, name: String): Option<Notebook> {
    Find(ns, (n: Notebook) => n.name == name)
  }

  // ------------------------------------------------------ document types

  /** getType() == Type.DOCUMENT; getType throws on a null type. */
  predicate IsDocument(n: Notebook)
    requires n.docType.Some?
    reads n
  {
    n.GetDocType() == Some(Document)
  }

  predicate AllTyped(ns: seq<Notebook>)
    reads ns
  {
    forall i :: 0 <= i < |ns| ==> ns[i].docType.Some?
  }

  /** The notebooks of type DOCUMENT, in list order. */
  function Documents(ns: seq<Notebook>): seq<Notebook>
    requires AllTyped(ns)
    reads ns
  {
    if |ns| == 0 then []
    else
      var last := ns[|ns| - 1];
      Documents(ns[..|ns| - 1]) + if IsDocument(last) then [last] else []
  }

  /** The filter keeps exactly the documents. */
  lemma {:induction false} DocumentsMembers(ns: seq<Notebook>, n: Notebook)
    requires AllTyped(ns)
    ensures n in Documents(ns) <==> n in ns && IsDocument(n)
  {
    if |ns| > 0 {
      DocumentsMembers(ns[..|ns| - 1], n);
      assert ns == ns[..|ns| - 1] + [ns[|ns| - 1]];
    }
  }

  /** The filter keeps the order: filtering a concatenation concatenates the filtered parts. */
  lemma {:induction false} DocumentsAppend(a: seq<Notebook>, b: seq<Notebook>)
    requires AllTyped(a) && AllTyped(b)
    ensures AllTyped(a + b) && Documents(a + b) == Documents(a) + Documents(b)
  {
    assert AllTyped(a + b) by {
      forall i | 0 <= i < |a + b| ensures (a + b)[i].docType.Some? {
        if i < |a| {
          assert (a + b)[i] == a[i];
        } else {
          assert (a + b)[i] == b[i - |a|];
        }
      }
    }
    if |b| > 0 {
      var b' := b[..|b| - 1];
      assert (a + b)[..|a + b| - 1] == a + b';
      assert (a + b)[|a + b| - 1] == b[|b| - 1];
      assert AllTyped(b');
      DocumentsAppend(a, b');
    } else {
      assert a + b == a;
    }
  }

  // ------------------------------------------------------- parent chain

  /** A parent string names a record by visible name first, then by id. */
  function Resolve(ms: seq<MetaData>, parent: String): Option<MetaData> {
    if MetaByName(ms, parent).Some? then MetaByName(ms, parent) else MetaById(ms, parent)
  }

  /**
   * The visible names from the root down to `item`, as the private
   * getParentFolders prepends them: an item whose parent is "" or does not
   * resolve is the root. None when the chain is longer than `fuel`.
   */
  function Chain(ms: seq<MetaData>, item: Option<MetaData>, fuel: nat): Option<seq<String>>
    decreases fuel
  {
    match item
    case None => Some([])
    case Some(m) =>
      if fuel == 0 then None
      else if |m.parent| == 0 then Some([m.visibleName])
      else match Chain(ms, Resolve(ms, m.parent), fuel - 1)
        case None => None
        case Some(c) => Some(c + [m.visibleName])
  }

  /**
   * One step of the chain: an item with a parent adds its name after its
   * parent's chain, so collecting the parent's chain in front of the list
   * with the item's name prepended collects the item's chain.
   */
  lemma ChainStep(ms: seq<MetaData>, m: MetaData, parent: Option<MetaData>, fuel: nat,
                  ok: bool, items: seq<String>, before: seq<String>)
    requires 0 < fuel && |m.parent| > 0 && parent == Resolve(ms, m.parent)
    requires ok <==> Chain(ms, parent, fuel - 1).Some?
    requires ok ==> items == Chain(ms, parent, fuel - 1).value + ([m.visibleName] + before)
    ensures ok <==> Chain(ms, Some(m), fuel).Some?
    ensures ok ==> items == Chain(ms, Some(m), fuel).value + before
  {
    if ok {
      var c := Chain(ms, parent, fuel - 1).value;
      assert c + ([m.visibleName] + before) == (c + [m.visibleName]) + before;
    }
  }

  /** The public getParentFolders: the chain of the record with this id, without its last name. */
  function ParentFolders(ms: seq<MetaData>, id: String, fuel: nat): Option<seq<String>> {
    match Chain(ms, MetaById(ms, id), fuel)
    case None => None
    case Some(c) => Some(if |c| >= 1 then c[..|c| - 1] else c)
  }

  /** More fuel does not change a chain that has ended. */
  lemma {:induction false} ChainFuel(ms: seq<MetaData>, item: Option<MetaData>, fuel: nat, more: nat)
    requires Chain(ms, item, fuel).Some? && fuel <= more
    ensures Chain(ms, item, more) == Chain(ms, item, fuel)
    decreases fuel
  {
    if item.Some? && |item.value.parent| > 0 {
      ChainFuel(ms, Resolve(ms, item.value.parent), fuel - 1, more - 1);
    }
  }

  /**
   * A finished chain of a record ends with the record's own name and starts
   * with the name of a root: the record itself or a listed record whose
   * parent is "" or does not resolve.
   */
  lemma {:induction false} ChainEnds(ms: seq<MetaData>, m: MetaData, fuel: nat)
    requires Chain(ms, Some(m), fuel).Some?
    ensures var c := Chain(ms, Some(m), fuel).value;
      |c| >= 1 && c[|c| - 1] == m.visibleName
      && exists r :: (r == m || r in ms) && IsRoot(ms, r) && c[0] == r.visibleName
    decreases fuel
  {
    var c := Chain(ms, Some(m), fuel).value;
    if |m.parent| == 0 {
      assert IsRoot(ms, m) && c[0] == m.visibleName;
    } else {
      match Resolve(ms, m.parent)
      case None =>
        assert IsRoot(ms, m) && c[0] == m.visibleName;
      case Some(p) =>
        ResolveListed(ms, m.parent);
        var pc := Chain(ms, Some(p), fuel - 1).value;
        ChainEnds(ms, p, fuel - 1);
        var r :| (r == p || r in ms) && IsRoot(ms, r) && pc[0] == r.visibleName;
        assert c == pc + [m.visibleName];
        assert r in ms && IsRoot(ms, r) && c[0] == r.visibleName;
    }
  }

  /** A root of the chain: its parent is empty or names no listed record. */
  predicate IsRoot(ms: seq<MetaData>, r: MetaData) {
    |r.parent| == 0 || Resolve(ms, r.parent).None?
  }

  lemma ResolveListed(ms: seq<MetaData>, parent: String)
    ensures Resolve(ms, parent).Some? ==> Resolve(ms, parent).value in ms
  {
  }

  /** A record's folders are the whole chain of its parent, root first. */
  lemma ParentFoldersOfParent(ms: seq<MetaData>, id: String, fuel: nat)
    requires MetaById(ms, id).Some?
    ensures var m := MetaById(ms, id).value;
      ParentFolders(ms, id, fuel + 1) == if |m.parent| == 0 then Some([]) else Chain(ms, Resolve(ms, m.parent), fuel)
  {
    var m := MetaById(ms, id).value;
    if |m.parent| > 0 {
      match Chain(ms, Resolve(ms, m.parent), fuel)
      case None =>
      case Some(c) =>
        assert Chain(ms, Some(m), fuel + 1) == Some(c + [m.visibleName]);
        assert (c + [m.visibleName])[..|c|] == c;
    }
  }

  /** A record that is its own parent never reaches a root: the recursion does not terminate. */
  lemma {:induction false} SelfParentDiverges(ms: seq<MetaData>, m: MetaData, fuel: nat)
    requires |m.parent| > 0 && Resolve(ms, m.parent) == Some(m)
    ensures Chain(ms, Some(m), fuel).None?
  {
    if fuel > 0 {
      SelfParentDiverges(ms, m, fuel - 1);
    }
  }

  /** The file a notebook is downloaded to: storage, separator, each folder and a separator, name, ".zip". */
  function DownloadPath(storage: String, sep: char, folders: seq<String>, visibleName: String): String {
    storage + [sep] + FolderPrefix(folders, sep) + visibleName + ".zip"
  }

  /**
   * The path reads back: the storage folder before the first separator, the
   * folder prefix in the middle and the name before ".zip", so notebooks
   * with different folder chains (of names without the separator) and the
   * same name get different files.
   */
  lemma DownloadPathInjective(storage: String, sep: char, a: seq<String>, b: seq<String>, visibleName: String)
    requires forall i :: 0 <= i < |a| ==> NoSeparator(a[i], sep)
    requires forall i :: 0 <= i < |b| ==> NoSeparator(b[i], sep)
    requires DownloadPath(storage, sep, a, visibleName) == DownloadPath(storage, sep, b, visibleName)
    ensures a == b
  {
    var pa := DownloadPath(storage, sep, a, visibleName);
    var h := |storage| + 1;
    var t := |visibleName| + 4;
    Middle(storage + [sep], FolderPrefix(a, sep), visibleName + ".zip");
    Middle(storage + [sep], FolderPrefix(b, sep), visibleName + ".zip");
    assert pa == (storage + [sep]) + FolderPrefix(a, sep) + (visibleName + ".zip");
    assert DownloadPath(storage, sep, b, visibleName) == (storage + [sep]) + FolderPrefix(b, sep) + (visibleName + ".zip");
    FolderPrefixInjective(a, b, sep);
  }

  // ------------------------------------------------------ readNotebook

  /** One entry of a notebook archive: its name, its bytes and, for a text entry, its lines. */
  datatype ZipEntry = ZipEntry(name: String, data: seq<byte>, lines: seq<String>)

  /** The notebook the loop over the entries has started: id, name, template names and decoded pages. */
  datatype Book = Book(id: String, name: String, templateNames: seq<Option<String>>, pages: seq<PageValue>)

  /** The loop's two variables: the id of the last ".content" entry and the notebook it started (both null at first). */
  datatype Scan = Scan(id: Option<String>, book: Option<Book>)

  /** What readNotebook gives the notebook it appends: the scanned book and the metadata it copies. */
  datatype Read = Read(book: Book, currentPage: int, docType: Option<String>, folders: seq<String>)

  /** String concatenation writes a null id as "null". */
  function IdText(id: Option<String>): String {
    if id.Some? then id.value else "null"
  }

  /** The text a page number is parsed from: the entry name without "id/" and without ".rm". */
  function PageNumberText(entryName: String, id: Option<String>): String {
    ReplaceAll(ReplaceAll(entryName, IdText(id) + "/", ""), ".rm", "")
  }

  /** The lines of a ".pagedata" entry as template names; a line is never null. */
  function TemplateLines(lines: seq<String>): (ts: seq<Option<String>>)
    ensures |ts| == |lines| && forall i :: 0 <= i < |lines| ==> ts[i] == Some(lines[i])
  {
    seq(|lines|, i requires 0 <= i < |lines| => Some(lines[i]))
  }

  /**
   * One pass of the loop. A ".content" entry starts a new notebook with the
   * id taken from the entry name; ".pagedata" sets the template names; an
   * ".rm" entry's number is parsed (failing on a bad number even for an
   * empty blob), an empty blob is skipped, any other is decoded and
   * appended. A missing notebook (null) or a failed decode ends the read
   * with an exception (None); other entries are ignored.
   */
  function ScanEntry(notebookName: String, s: Scan, e: ZipEntry): Option<Scan> {
    if EndsWith(e.name, ".content") then
      var id := ReplaceAll(e.name, ".content", "");
      Some(Scan(Some(id), Some(Book(id, notebookName, [], []))))
    else if EndsWith(e.name, ".pagedata") then
      if s.book.None? then None
      else Some(Scan(s.id, Some(s.book.value.(templateNames := TemplateLines(e.lines)))))
    else if EndsWith(e.name, ".rm") then
      match ParseInt(PageNumberText(e.name, s.id))
      case None => None
      case Some(n) =>
        if |e.data| == 0 then Some(s)
        else match DecodePage(n, e.data)
          case None => None
          case Some(pv) =>
            if s.book.None? then None
            else Some(Scan(s.id, Some(s.book.value.(pages := s.book.value.pages + [pv]))))
    else Some(s)
  }

  /** The loop over the first entries, in archive order. */
  function ScanAll(notebookName: String, es: seq<ZipEntry>): Option<Scan> {
    if |es| == 0 then Some(Scan(None, None))
    else match ScanAll(notebookName, es[..|es| - 1])
      case None => None
      case Some(s) => ScanEntry(notebookName, s, es[|es| - 1])
  }

  /** One more entry: the scan of the longer prefix is one step after the scan of the shorter. */
  lemma ScanAllStep(notebookName: String, es: seq<ZipEntry>, i: nat)
    requires i < |es|
    ensures ScanAll(notebookName, es[..i + 1]) ==
      if ScanAll(notebookName, es[..i]).None? then None else ScanEntry(notebookName, ScanAll(notebookName, es[..i]).value, es[i])
  {
    assert es[..i + 1][..i] == es[..i];
  }

  /** An exception ends the read: once a prefix of the entries fails, the whole archive does. */
  lemma {:induction false} ScanFailureFinal(notebookName: String, es: seq<ZipEntry>, i: nat)
    requires i <= |es| && ScanAll(notebookName, es[..i]).None?
    ensures ScanAll(notebookName, es).None?
    decreases |es|
  {
    if i < |es| {
      assert es[..|es| - 1][..i] == es[..i];
      ScanFailureFinal(notebookName, es[..|es| - 1], i);
    } else {
      assert es[..i] == es;
    }
  }

  /**
   * What readNotebook does after the entry loop: copy current page and type
   * from the notebook's metadata record and set its parent folders. No
   * metadata listing, no ".content" entry, no record with the id, a record
   * without a type (the type is read back for the log, and a null type
   * string throws) or an unending parent chain throw (None).
   */
  function Complete(s: Scan, metadata: Option<seq<MetaData>>, fuel: nat): (r: Option<Read>)
    ensures r.Some? ==> r.value.docType.Some? && s.book == Some(r.value.book)
  {
    if metadata.None? || s.id.None? || s.book.None? then None
    else match MetaById(metadata.value, s.id.value)
      case None => None
      case Some(md) =>
        if md.docType.None? then None
        else match ParentFolders(metadata.value, s.id.value, fuel)
        case None => None
        case Some(fs) => Some(Read(s.book.value, md.currentPage, md.docType, fs))
  }

  /** readNotebook: scan the entries of the archive named `fileName`, then complete the notebook. */
  function ReadSpec(fileName: String, es: seq<ZipEntry>, metadata: Option<seq<MetaData>>, fuel: nat): Option<Read> {
    match ScanAll(ReplaceAll(fileName, ".zip", ""), es)
    case None => None
    case Some(s) => Complete(s, metadata, fuel)
  }

  /** The page number of an entry "id/N.rm" is N, whatever the id. */
  lemma EntryPageNumber(id: String, n: int)
    requires IsInt32(n)
    ensures ParseInt(PageNumberText(id + "/" + IntText(n) + ".rm", Some(id))) == Some(n)
  {
    var t := IntText(n);
    var x := t + ".rm";
    var target := id + "/";
    assert id + "/" + t + ".rm" == target + x;
    ReplaceAtStart(target, x, "");
    forall k | 0 <= k < |x|
      ensures x[k] != '/'
    {
      if k < |t| {
        IntTextChars(n, k);
        assert x[k] == t[k];
      } else {
        assert x[k] == ".rm"[k - |t|];
      }
    }
    AbsentLast(x, target);
    ReplaceAbsent(x, target, "");
    assert "" + x == x;
    forall i: nat | i < |t|
      ensures !MatchAt(x, ".rm", i)
    {
      IntTextChars(n, i);
      assert x[i] == t[i];
      MismatchAt(x, ".rm", i, 0);
    }
    ReplaceSkipsPrefix(t, ".rm", ".rm", "");
    ReplaceAtStart(".rm", "", "");
    assert ".rm" + "" == ".rm";
    assert ReplaceAll("", ".rm", "") == "";
    assert t + "" == t;
    assert PageNumberText(id + "/" + t + ".rm", Some(id)) == t;
    IntTextRoundTrip(n);
  }

  /** The characters of a number's text are digits and the minus sign. */
  lemma IntTextChars(n: int, k: nat)
    requires k < |IntText(n)|
    ensures IntText(n)[k] != '/' && IntText(n)[k] != '.'
  {
    if n < 0 && k > 0 {
      assert IntText(n)[k] == Digits(-n)[k - 1];
      assert IsDigit(Digits(-n)[k - 1]);
    } else if n >= 0 {
      assert IsDigit(Digits(n)[k]);
    }
  }

  /** An empty page blob with a readable number adds no page: the read notebook is as without it. */
  lemma EmptyBlobSkipped(notebookName: String, es: seq<ZipEntry>, e: ZipEntry)
    requires EndsWith(e.name, ".rm") && |e.data| == 0
    requires ScanAll(notebookName, es).Some?
    requires ParseInt(PageNumberText(e.name, ScanAll(notebookName, es).value.id)).Some?
    ensures ScanAll(notebookName, es + [e]) == ScanAll(notebookName, es)
  {
    assert (es + [e])[..|es|] == es;
    assert !EndsWith(e.name, ".content") by {
      assert e.name[|e.name| - 1] == 'm';
    }
    assert !EndsWith(e.name, ".pagedata") by {
      assert e.name[|e.name| - 1] == 'm';
    }
  }

  /** A later ".content" entry starts over: the pages and templates read before it are dropped. */
  lemma ContentRestarts(notebookName: String, es: seq<ZipEntry>, e: ZipEntry)
    requires EndsWith(e.name, ".content") && ScanAll(notebookName, es).Some?
    ensures var id := ReplaceAll(e.name, ".content", "");
      ScanAll(notebookName, es + [e]) == Some(Scan(Some(id), Some(Book(id, notebookName, [], []))))
  {
    assert (es + [e])[..|es|] == es;
  }

  /** The value readNotebook's new notebook holds. */
  function BookOf(nb: Notebook): Book
    reads nb
  {
    Book(nb.id, nb.name, nb.templateNames, nb.pages)
  }

  function ReadOf(nb: Notebook): Read
    reads nb
  {
    Read(BookOf(nb), nb.currentPage, nb.docType, nb.folders)
  }

  /** The loop variables id and rNotebook as a scan state. */
  function ScanOf(id: Option<String>, nb: Notebook?): Scan
    reads nb
  {
    if nb == null then Scan(id, None) else Scan(id, Some(BookOf(nb)))
  }

  /** The ".pagedata" branch: one template name per line. */
  method ReadPageData(nb: Notebook, lines: seq<String>)
    modifies nb`templateNames
    ensures BookOf(nb) == old(BookOf(nb)).(templateNames := TemplateLines(lines))
  {
    nb.SetTemplateNames(TemplateLines(lines));
  }

  /** The ".rm" branch for a non-empty blob: decode it, then add the page to the notebook. */
  method ReadPage(number: int, data: seq<byte>, nb: Notebook) returns (ok: bool)
    modifies nb`pages
    ensures ok <==> DecodePage(number, data).Some?
    ensures ok ==> BookOf(nb) == old(BookOf(nb)).(pages := old(nb.pages) + [DecodePage(number, data).value])
    ensures !ok ==> nb.pages == old(nb.pages)
  {
    var page := DecodePage(number, data);
    if page.None? {
      return false;
    }
    nb.Add(page.value);
    return true;
  }

  /** One pass of the entry loop of readNotebook on the notebook object built so far. */
  method ReadEntry(notebookName: String, e: ZipEntry, id: Option<String>, nb: Notebook?)
    returns (ok: bool, id': Option<String>, nb': Notebook?)
    requires nb != null ==> id == Some(nb.id)
    modifies nb
    ensures ok <==> ScanEntry(notebookName, old(ScanOf(id, nb)), e).Some?
    ensures ok ==> ScanEntry(notebookName, old(ScanOf(id, nb)), e).value == ScanOf(id', nb')
    ensures nb' != null ==> id' == Some(nb'.id) && (nb' == nb || fresh(nb'))
  {
    id', nb' := id, nb;
    ghost var before := ScanOf(id, nb);
    if EndsWith(e.name, ".content") {
      var newId := ReplaceAll(e.name, ".content", "");
      id' := Some(newId);
      nb' := new Notebook(newId, notebookName);
      return true, id', nb';
    } else if EndsWith(e.name, ".pagedata") {
      if nb == null {
        return false, id', nb';
      }
      ReadPageData(nb, e.lines);
      return true, id', nb';
    } else if EndsWith(e.name, ".rm") {
      var number := ParseInt(PageNumberText(e.name, id));
      if number.None? {
        return false, id', nb';
      }
      if |e.data| == 0 {
        return true, id', nb';
      }
      if nb == null {
        return false, id', nb';
      }
      ok := ReadPage(number.value, e.data, nb);
      return ok, id', nb';
    }
    return true, id', nb';
  }

  /** The entry loop of readNotebook: every entry in archive order, stopping at the first exception. */
  method ReadEntries(notebookName: String, entries: seq<ZipEntry>) returns (ok: bool, id: Option<String>, nb: Notebook?)
    ensures ok <==> ScanAll(notebookName, entries).Some?
    ensures ok ==> ScanAll(notebookName, entries).value == ScanOf(id, nb)
    ensures nb != null ==> fresh(nb) && id == Some(nb.id)
  {
    id, nb := None, null;
    var i := 0;
    while i < |entries|
      invariant i <= |entries|
      invariant nb != null ==> fresh(nb) && id == Some(nb.id)
      invariant ScanAll(notebookName, entries[..i]) == Some(ScanOf(id, nb))
    {
      ScanAllStep(notebookName, entries, i);
      ghost var before := ScanOf(id, nb);
      var step: bool;
      step, id, nb := ReadEntry(notebookName, entries[i], id, nb);
      if !step {
        ScanFailureFinal(notebookName, entries, i + 1);
        return false, id, nb;
      }
      i := i + 1;
    }
    assert entries[..i] == entries;
    return true, id, nb;
  }

  // ------------------------------------------------------------ manager

  class Manager {
    /** The metadata array of the last listing; null (None) until a listing was made. */
    var metadata: Option<seq<MetaData>>
    var notebooks: seq<Notebook>

    constructor ()
      ensures metadata.None? && notebooks == []
    {
      metadata := None;
      notebooks := [];
    }

    method SetMetaData(ms: seq<MetaData>)
      modifies this`metadata
      ensures metadata == Some(ms)
    {
      metadata := Some(ms);
    }

    /** getMetaDataById: the first record with this id; it iterates the array unguarded, so it must be there. */
    method MetaDataById(id: String) returns (r: Option<MetaData>)
      requires metadata.Some?
      ensures r == MetaById(metadata.value, id)
    {
      var ms := metadata.value;
      var i := 0;
      while i < |ms|
        invariant i <= |ms|
        invariant forall j :: 0 <= j < i ==> ms[j].id != id
      {
        if ms[i].id == id {
          FindAt(ms, (m: MetaData) => m.id == id, i);
          return Some(ms[i]);
        }
        i := i + 1;
      }
      return None;
    }

    /** getMetaDataByName: the first record with this visible name; null when there is no listing. */
    method MetaDataByName(name: String) returns (r: Option<MetaData>)
      ensures metadata.None? ==> r.None?
      ensures metadata.Some? ==> r == MetaByName(metadata.value, name)
    {
      if metadata.None? {
        return None;
      }
      var ms := metadata.value;
      var i := 0;
      while i < |ms|
        invariant i <= |ms|
        invariant forall j :: 0 <= j < i ==> ms[j].visibleName != name
      {
        if ms[i].visibleName == name {
          FindAt(ms, (m: MetaData) => m.visibleName == name, i);
          return Some(ms[i]);
        }
        i := i + 1;
      }
      return None;
    }

    /** getNotebookById: the first notebook in list order with this id. */
    method GetNotebookById(id: String) returns (r: Option<Notebook>)
      ensures r == NotebookById(notebooks, id)
    {
      var i := 0;
      while i < |notebooks|
        invariant i <= |notebooks|
        invariant forall j :: 0 <= j < i ==> notebooks[j].id != id
      {
        if notebooks[i].id == id {
          FindAt(notebooks, (n: Notebook) => n.id == id, i);
          return Some(notebooks[i]);
        }
        i := i + 1;
      }
      return None;
    }

    /** getNotebookByName: the first notebook in list order with this name. */
    method GetNotebookByName(name: String) returns (r: Option<Notebook>)
      ensures r == NotebookByName(notebooks, name)
    {
      var i := 0;
      while i < |notebooks|
        invariant i <= |notebooks|
        invariant forall j :: 0 <= j < i ==> notebooks[j].name != name
      {
        if notebooks[i].name == name {
          FindAt(notebooks, (n: Notebook) => n.name == name, i);
          return Some(notebooks[i]);
        }
        i := i + 1;
      }
      return None;
    }

    /** getDocuments: the notebooks of type DOCUMENT, in list order. */
    method GetDocuments() returns (docs: seq<Notebook>)
      requires AllTyped(notebooks)
      ensures docs == Documents(notebooks)
    {
      docs := [];
      var i := 0;
      while i < |notebooks|
        invariant i <= |notebooks|
        invariant AllTyped(notebooks[..i])
        invariant docs == Documents(notebooks[..i])
      {
        var n := notebooks[i];
        assert notebooks[..i + 1][..i] == notebooks[..i];
        var t := n.GetDocType();
        if t == Some(Document) {
          docs := docs + [n];
        }
        i := i + 1;
      }
      assert notebooks[..i] == notebooks;
    }

    /** getPage(notebookName, n): the n-th page lookup of the first notebook with that name, which must exist. */
    method GetPage(notebookName: String, pageNumber: int) returns (p: Option<PageValue>)
      requires NotebookByName(notebooks, notebookName).Some?
      ensures p == PageWithNumber(NotebookByName(notebooks, notebookName).value.pages, pageNumber)
    {
      var nb := GetNotebookByName(notebookName);
      p := nb.value.GetPage(pageNumber);
    }

    /**
     * The private getParentFolders(item, list): the item's name is put in
     * front of the shared list, then the parent's chain in front of that.
     */
    method CollectParents(item: Option<MetaData>, list: FolderList, fuel: nat) returns (ok: bool)
      requires metadata.Some?
      modifies list
      ensures ok <==> Chain(metadata.value, item, fuel).Some?
      ensures ok ==> list.items == Chain(metadata.value, item, fuel).value + old(list.items)
      decreases fuel
    {
      if item.None? {
        return true;
      }
      if fuel == 0 {
        return false;
      }
      var m := item.value;
      list.Prepend(m.visibleName);
      if |m.parent| > 0 {
        var parent := MetaDataByName(m.parent);
        if parent.None? {
          parent := MetaDataById(m.parent);
        }
        ghost var ms := metadata.value;
        assert parent == Resolve(ms, m.parent);
        ok := CollectParents(parent, list, fuel - 1);
        ChainStep(ms, m, parent, fuel, ok, list.items, old(list.items));
      } else {
        assert Chain(metadata.value, item, fuel) == Some([m.visibleName]);
        ok := true;
      }
    }

    /** getParentFolders(id): the chain of the record with this id, without the record itself. */
    method GetParentFolders(id: String, fuel: nat) returns (r: Option<seq<String>>)
      requires metadata.Some?
      ensures r == ParentFolders(metadata.value, id, fuel)
    {
      var list := new FolderList();
      var m := MetaDataById(id);
      var ok := CollectParents(m, list, fuel);
      if !ok {
        return None;
      }
      assert list.items == Chain(metadata.value, m, fuel).value;
      if |list.items| >= 1 {
        list.RemoveLast();
      }
      return Some(list.items);
    }

    /**
     * The rest of readNotebook after the entry loop: current page and type
     * from the metadata record with the notebook's id, then the parent
     * folders.
     */
    method CompleteRead(id: Option<String>, nb: Notebook?, fuel: nat) returns (ok: bool)
      requires nb != null ==> id == Some(nb.id)
      modifies nb
      ensures ok <==> Complete(old(ScanOf(id, nb)), metadata, fuel).Some?
      ensures ok ==> nb != null && ReadOf(nb) == Complete(old(ScanOf(id, nb)), metadata, fuel).value
    {
      if metadata.None? || id.None? {
        return false;
      }
      var md := MetaDataById(id.value);
      if nb == null || md.None? {
        return false;
      }
      nb.SetCurrentPageNumber(md.value.currentPage);
      nb.SetType(md.value.docType);
      if md.value.docType.None? {
        return false;
      }
      var parents := GetParentFolders(id.value, fuel);
      if parents.None? {
        return false;
      }
      nb.SetFolders(parents.value);
      return true;
    }

    /**
     * readNotebook(file): the entry loop, then the metadata of the notebook;
     * the notebook is new, so the contains check always lets it be
     * appended. On an exception the list is unchanged.
     */
    method ReadNotebook(fileName: String, entries: seq<ZipEntry>, fuel: nat) returns (r: Option<Notebook>)
      modifies this`notebooks
      ensures r.None? <==> ReadSpec(fileName, entries, metadata, fuel).None?
      ensures r.None? ==> notebooks == old(notebooks)
      ensures r.Some? ==> fresh(r.value) && notebooks == old(notebooks) + [r.value]
      ensures r.Some? ==> ReadOf(r.value) == ReadSpec(fileName, entries, metadata, fuel).value
      ensures old(AllTyped(notebooks)) ==> AllTyped(notebooks)
    {
      var notebookName := ReplaceAll(fileName, ".zip", "");
      var ok, id, nb := ReadEntries(notebookName, entries);
      if !ok {
        return None;
      }
      ok := CompleteRead(id, nb, fuel);
      if !ok {
        return None;
      }
      if nb !in notebooks {
        notebooks := notebooks + [nb];
      }
      return Some(nb);
    }

    /** downloadNotebook(document): the storage path built from the parent folders and the visible name. */
    method DownloadTarget(document: MetaData, storage: String, sep: char, fuel: nat) returns (r: Option<String>)
      requires metadata.Some?
      ensures ParentFolders(metadata.value, document.id, fuel).None? ==> r.None?
      ensures ParentFolders(metadata.value, document.id, fuel).Some? ==>
        r == Some(DownloadPath(storage, sep, ParentFolders(metadata.value, document.id, fuel).value, document.visibleName))
    {
      var p := GetParentFolders(document.id, fuel);
      if p.None? {
        return None;
      }
      var ps := p.value;
      var folders: String := [];
      var i := 0;
      while i < |ps|
        invariant i <= |ps|
        invariant folders == FolderPrefix(ps[..i], sep)
      {
        FolderPrefixAppend(ps[..i], [ps[i]], sep);
        assert FolderPrefix([ps[i]], sep) == ps[i] + [sep] by {
          assert [ps[i]][1..] == [];
        }
        assert ps[..i + 1] == ps[..i] + [ps[i]];
        folders := folders + ps[i] + [sep];
        i := i + 1;
      }
      assert ps[..i] == ps;
      r := Some(storage + [sep] + folders + document.visibleName + ".zip");
    }
  }

  /** The ArrayList getParentFolders fills: names are put in front, and the last one is removed at the end. */
  class FolderList {
    var items: seq<String>

    constructor ()
      ensures items == []
    {
      items := [];
    }

    /** list.add(0, name). */
    method Prepend(name: String)
      modifies this
      ensures items == [name] + old(items)
    {
      items := [name] + items;
    }

    /** list.remove(list.size() - 1). */
    method RemoveLast()
      requires |items| >= 1
      modifies this
      ensures items == old(items)[..|old(items)| - 1]
    {
      items := items[..|items| - 1];
    }
  }
}
