/** The table extraction selector (pdf_extractor/table_extractor.py): a
    method chosen at construction, a file-existence check, the
    tabula-then-pdfplumber fallback of "auto" (which also falls back on an
    empty tabula result), and the two backend loops, which catch their own
    errors and keep only the tables that survive cleaning. */
module TableExtraction {
  import opened Common
  import opened Frames
  import opened Documents
  import opened Paths
  import opened Files

  /** What one DataFrame contributes: the cleaned frame, unless cleaning left
      it empty. */
  function Survivor(f: Frame): (s: seq<Frame>)
    ensures |s| <= 1
  {
    var c := Clean(f);
    if IsEmpty(c) then [] else [c]
  }

  /** The tables the tabula loop keeps from the frames tabula returned. */
  function CleanedFrames(frames: seq<Frame>): seq<Frame> {
    FlatMap(Survivor, frames)
  }

  /** `_extract_with_tabula`: any error inside it yields []. */
  function TabulaTables(read: TabulaRead): seq<Frame> {
    match read
    case Read(frames) => CleanedFrames(frames)
    case ReadFails => []
  }

  method ExtractWithTabula(read: TabulaRead) returns (tables: seq<Frame>)
    ensures tables == TabulaTables(read)
  {
    if read.ReadFails? {
      // logged; the helper returns an empty list
      return [];
    }
    var pandasTables := read.frames;
    var polarsTables: seq<Frame> := [];
    var i := 0;
    while i < |pandasTables|
      invariant 0 <= i <= |pandasTables|
      invariant polarsTables == CleanedFrames(pandasTables[..i])
    {
      FlatMapSnoc(Survivor, pandasTables, i);
      var df := pandasTables[i];
      if !IsEmpty(df) {
        df := Clean(df);
        if !IsEmpty(df) {
          polarsTables := polarsTables + [df];
        }
      } else {
        EmptyStaysEmpty(df);
      }
      i := i + 1;
    }
    assert pandasTables[..i] == pandasTables;
    tables := polarsTables;
  }

  /** The length of the longest row. */
  function MaxWidth(rows: seq<Row>): nat {
    if rows == [] then 0
    else
      var w := MaxWidth(rows[..|rows| - 1]);
      if |rows[|rows| - 1]| > w then |rows[|rows| - 1]| else w
  }

  /** `MaxWidth` is the width of the widest row (0 when there are none). */
  lemma {:induction false} MaxWidthSpec(rows: seq<Row>)
    ensures forall i :: 0 <= i < |rows| ==> |rows[i]| <= MaxWidth(rows)
    ensures rows == [] ==> MaxWidth(rows) == 0
    ensures rows != [] ==> exists i :: 0 <= i < |rows| && |rows[i]| == MaxWidth(rows)
  {
    if rows != [] {
      var init := rows[..|rows| - 1];
      MaxWidthSpec(init);
      assert forall i :: 0 <= i < |init| ==> init[i] == rows[i];
      var last := |rows| - 1;
      if init == [] || |rows[last]| >= MaxWidth(init) {
        assert |rows[last]| == MaxWidth(rows);
      } else {
        var i :| 0 <= i < |init| && |init[i]| == MaxWidth(init);
        assert |rows[i]| == MaxWidth(rows);
      }
    }
  }

  /** A row padded with missing cells to width `w`. */
  function Pad(r: Row, w: nat): (p: Row)
    requires |r| <= w
    ensures |p| == w
  {
    r + seq(w - |r|, _ => None)
  }

  /** `pd.DataFrame(table[1:], columns=table[0])`. pandas pads the data rows
      with missing cells to the widest of them and raises when that width
      differs from the number of labels; `None` is that error. */
  function ToFrame(raw: RawTable): Option<Frame>
    requires |raw| > 1
  {
    var header := raw[0];
    var data := raw[1..];
    var width := MaxWidth(data);
    if width != |header| then None
    else
      MaxWidthSpec(data);
      Some(Table(header, seq(|data|, i requires 0 <= i < |data| => Pad(data[i], width))))
  }

  /** `row` is `raw` followed by missing cells only. */
  predicate PaddedRow(row: Row, raw: Row) {
    && |raw| <= |row| && row[..|raw|] == raw
    && forall j :: |raw| <= j < |row| ==> row[j].None?
  }

  /** pandas accepts the raw table exactly when no data row is longer than
      the header and some data row is as long; the header becomes the column
      labels and each data row a row, padded with missing cells. */
  lemma ToFrameSpec(raw: RawTable)
    requires |raw| > 1
    ensures var f := ToFrame(raw);
      && (f.Some? <==>
           && (forall i :: 1 <= i < |raw| ==> |raw[i]| <= |raw[0]|)
           && (exists i :: 1 <= i < |raw| && |raw[i]| == |raw[0]|))
      && (f.Some? ==>
           && f.value.header == raw[0]
           && |f.value.rows| == |raw| - 1
           && forall i :: 1 <= i < |raw| ==> PaddedRow(f.value.rows[i - 1], raw[i]))
  {
    var data := raw[1..];
    MaxWidthSpec(data);
    assert forall i :: 1 <= i < |raw| ==> raw[i] == data[i - 1];
    if (forall i :: 1 <= i < |raw| ==> |raw[i]| <= |raw[0]|) && (exists i :: 1 <= i < |raw| && |raw[i]| == |raw[0]|) {
      var i :| 0 <= i < |data| && |data[i]| == MaxWidth(data);
      assert |raw[i + 1]| == MaxWidth(data);
    }
  }

  /** The tables one page contributes: its raw tables in order, those with
      at least a header and one data row turned into frames and cleaned,
      until the first one pandas refuses; that error reaches the page's
      except clause and ends the page. */
  function PageFrames(raws: seq<RawTable>): seq<Frame> {
    if raws == [] then []
    else if |raws[0]| <= 1 then PageFrames(raws[1..])
    else match ToFrame(raws[0])
      case None => []
      case Some(f) => Survivor(f) + PageFrames(raws[1..])
  }

  /** A page whose `extract_tables()` raises contributes nothing. */
  function PageContribution(p: PlumberPage): seq<Frame> {
    match p.tables
    case Tables(raws) => PageFrames(raws)
    case TablesFail => []
  }

  /** The tables of the pages, in page order. */
  function PlumberFrames(pages: seq<PlumberPage>): seq<Frame> {
    FlatMap(PageContribution, pages)
  }

  /** `_extract_with_pdfplumber`: a document-level error ends the loop and the
      tables gathered so far are returned. */
  function PlumberTables(doc: Pages<PlumberPage>): seq<Frame> {
    PlumberFrames(doc.pages)
  }

  /** One step of a page's table loop, from raw table `t` on. */
  lemma PageFramesStep(raws: seq<RawTable>, t: nat)
    requires t < |raws|
    ensures |raws[t]| <= 1 ==> PageFrames(raws[t..]) == PageFrames(raws[t + 1..])
    ensures |raws[t]| > 1 && ToFrame(raws[t]).None? ==> PageFrames(raws[t..]) == []
    ensures |raws[t]| > 1 && ToFrame(raws[t]).Some? ==>
      PageFrames(raws[t..]) == Survivor(ToFrame(raws[t]).value) + PageFrames(raws[t + 1..])
  {
    assert raws[t..][0] == raws[t];
    assert raws[t..][1..] == raws[t + 1..];
  }

  /** The inner loop of `_extract_with_pdfplumber` over one page's raw
      tables; it stops at the first table pandas refuses. */
  method PageTablesLoop(pageTables: seq<RawTable>) returns (found: seq<Frame>)
    ensures found == PageFrames(pageTables)
  {
    found := [];
    var tableNum := 0;
    while tableNum < |pageTables|
      invariant 0 <= tableNum <= |pageTables|
      invariant found + PageFrames(pageTables[tableNum..]) == PageFrames(pageTables)
    {
      var table := pageTables[tableNum];
      PageFramesStep(pageTables, tableNum);
      if |table| > 1 {
        var df := ToFrame(table);
        if df.None? {
          // pandas raised; the page's except clause logs it and the page ends
          assert found + [] == found;
          return;
        }
        ghost var rest := PageFrames(pageTables[tableNum + 1..]);
        var kept := Survivor(df.value);
        assert found + (kept + rest) == (found + kept) + rest;
        found := found + kept;
      }
      tableNum := tableNum + 1;
    }
    assert pageTables[tableNum..] == [];
    assert found + [] == found;
  }

  method ExtractWithPdfplumber(doc: Pages<PlumberPage>) returns (tables: seq<Frame>)
    ensures tables == PlumberTables(doc)
  {
    var polarsTables: seq<Frame> := [];
    var pageNum := 0;
    while pageNum < |doc.pages|
      invariant 0 <= pageNum <= |doc.pages|
      invariant polarsTables == PlumberFrames(doc.pages[..pageNum])
    {
      FlatMapSnoc(PageContribution, doc.pages, pageNum);
      var page := doc.pages[pageNum];
      if page.tables.Tables? {
        var found := PageTablesLoop(page.tables.tables);
        polarsTables := polarsTables + found;
      }
      // a page whose extract_tables() raises is logged and skipped
      pageNum := pageNum + 1;
    }
    // a document-level error (`doc.broken`) is logged; the gathered tables are returned
    assert doc.pages[..pageNum] == doc.pages;
    tables := polarsTables;
  }

  const TabulaMethod: string := "tabula"
  const PdfplumberMethod: string := "pdfplumber"
  const AutoMethod: string := "auto"

  /** A selector: the method it was given and the libraries that were
      importable. */
  datatype TableExtractor = TableExtractor(methodName: string, libs: Libraries) {

    /** The selectors construction returns: an explicitly named library is
        importable. */
    predicate Constructed() {
      && (methodName == TabulaMethod ==> libs.tabula)
      && (methodName == PdfplumberMethod ==> libs.pdfplumber)
    }

    /** `extract(pdf_path)` against the filesystem `fs`. */
    method Extract(fs: Nodes, path: Path) returns (r: Result<seq<Frame>>)
      requires Constructed()
      ensures r == TableOutcome(this, fs, path)
    {
      if !Exists(fs, path) {
        return Err(FileNotFoundError(path));
      }
      var doc := DocumentAt(fs, path);
      var tables;
      if methodName == TabulaMethod {
        tables := ExtractWithTabula(doc.tabula);
        return Ok(tables);
      } else if methodName == PdfplumberMethod {
        tables := ExtractWithPdfplumber(doc.pdfplumber);
        return Ok(tables);
      }
      if libs.tabula {
        tables := ExtractWithTabula(doc.tabula);
        if tables != [] {
          return Ok(tables);
        }
      }
      if libs.pdfplumber {
        tables := ExtractWithPdfplumber(doc.pdfplumber);
        return Ok(tables);
      }
      r := Err(ImportError("No table extraction library available"));
    }
  }

  /** `TableExtractor(method)`: an explicitly named library must be
      importable; any other method string is accepted. */
  function NewTableExtractor(methodName: string, libs: Libraries): (r: Result<TableExtractor>)
    ensures r.Err? <==>
      (methodName == TabulaMethod && !libs.tabula) || (methodName == PdfplumberMethod && !libs.pdfplumber)
    ensures r.Err? ==> r.error.ImportError?
    ensures r.Ok? ==> r.value.methodName == methodName && r.value.libs == libs && r.value.Constructed()
  {
    if methodName == TabulaMethod && !libs.tabula then
      Err(ImportError("tabula-py is required for tabula method"))
    else if methodName == PdfplumberMethod && !libs.pdfplumber then
      Err(ImportError("pdfplumber is required for pdfplumber method"))
    else
      Ok(TableExtractor(methodName, libs))
  }

  /** The "auto" path: tabula's tables when tabula is importable and found
      some; otherwise pdfplumber's. */
  function AutoTables(libs: Libraries, doc: PdfDocument): Result<seq<Frame>> {
    if libs.tabula && TabulaTables(doc.tabula) != [] then Ok(TabulaTables(doc.tabula))
    else if libs.pdfplumber then Ok(PlumberTables(doc.pdfplumber))
    else Err(ImportError("No table extraction library available"))
  }

  /** What `extract` returns or raises. */
  function TableOutcome(e: TableExtractor, fs: Nodes, path: Path): Result<seq<Frame>> {
    if !Exists(fs, path) then Err(FileNotFoundError(path))
    else
      var doc := DocumentAt(fs, path);
      if e.methodName == TabulaMethod then Ok(TabulaTables(doc.tabula))
      else if e.methodName == PdfplumberMethod then Ok(PlumberTables(doc.pdfplumber))
      else AutoTables(e.libs, doc)
  }

  // ---------------------------------------------------------------------
  // Properties of the backends

  predicate AllTidy(tables: seq<Frame>) {
    forall k :: 0 <= k < |tables| ==> Tidy(tables[k])
  }

  lemma SurvivorTidy(f: Frame)
    ensures AllTidy(Survivor(f))
  {
    if !IsEmpty(Clean(f)) {
      KeptCleanIsTidy(f);
    }
  }

  /** Every table tabula's loop keeps is tidy, and it keeps at most one per
      frame read. */
  lemma {:induction false} CleanedFramesTidy(frames: seq<Frame>)
    ensures AllTidy(CleanedFrames(frames))
    ensures |CleanedFrames(frames)| <= |frames|
  {
    if frames != [] {
      CleanedFramesTidy(frames[..|frames| - 1]);
      SurvivorTidy(frames[|frames| - 1]);
    }
  }

  lemma {:induction false} PageFramesTidy(raws: seq<RawTable>)
    ensures AllTidy(PageFrames(raws))
    ensures |PageFrames(raws)| <= |raws|
  {
    if raws != [] {
      PageFramesTidy(raws[1..]);
      if |raws[0]| > 1 && ToFrame(raws[0]).Some? {
        SurvivorTidy(ToFrame(raws[0]).value);
      }
    }
  }

  lemma {:induction false} PlumberFramesTidy(pages: seq<PlumberPage>)
    ensures AllTidy(PlumberFrames(pages))
  {
    if pages != [] {
      PlumberFramesTidy(pages[..|pages| - 1]);
      var last := pages[|pages| - 1];
      if last.tables.Tables? {
        PageFramesTidy(last.tables.tables);
      }
    }
  }

  /** Every table `extract` returns, whatever the method and backend, has at
      least one row and one column and no all-missing row or column. */
  lemma ExtractedTablesTidy(e: TableExtractor, fs: Nodes, path: Path)
    ensures TableOutcome(e, fs, path).Ok? ==> AllTidy(TableOutcome(e, fs, path).value)
  {
    var doc := DocumentAt(fs, path);
    if doc.tabula.Read? {
      CleanedFramesTidy(doc.tabula.frames);
    }
    PlumberFramesTidy(doc.pdfplumber.pages);
  }

  /** A raw table that pandas refuses ends its page: the tables after it on
      that page are lost, those before it are kept. */
  lemma {:induction false} RefusedTableEndsPage(raws: seq<RawTable>, k: nat)
    requires k < |raws| && |raws[k]| > 1 && ToFrame(raws[k]).None?
    ensures PageFrames(raws) == PageFrames(raws[..k])
  {
    if k > 0 {
      RefusedTableEndsPage(raws[1..], k - 1);
      assert raws[1..][..k - 1] == raws[..k][1..];
    }
  }

  /** Each table a page contributes is a raw table of that page with a header
      and at least one data row, turned into a frame (row 0 as the labels)
      and cleaned. */
  lemma {:induction false} PageFramesFromRaw(raws: seq<RawTable>)
    ensures forall t :: t in PageFrames(raws) ==>
      exists k :: 0 <= k < |raws| && |raws[k]| > 1 && ToFrame(raws[k]).Some?
                  && t == Clean(ToFrame(raws[k]).value)
  {
    if raws != [] {
      PageFramesFromRaw(raws[1..]);
      forall t | t in PageFrames(raws)
        ensures exists k :: 0 <= k < |raws| && |raws[k]| > 1 && ToFrame(raws[k]).Some?
                            && t == Clean(ToFrame(raws[k]).value)
      {
        if t in PageFrames(raws[1..]) {
          var k :| 0 <= k < |raws[1..]| && |raws[1..][k]| > 1 && ToFrame(raws[1..][k]).Some?
                   && t == Clean(ToFrame(raws[1..][k]).value);
          assert raws[k + 1] == raws[1..][k];
        } else {
          assert raws[0] == raws[0];
        }
      }
    }
  }

  /** A page whose `extract_tables()` raises loses only its own tables; the
      pages after it still contribute. */
  lemma FailingPageLosesOnlyItself(pages: seq<PlumberPage>, k: nat)
    requires k < |pages| && pages[k].tables.TablesFail?
    ensures PlumberFrames(pages) == PlumberFrames(pages[..k]) + PlumberFrames(pages[k + 1..])
  {
    assert pages == pages[..k + 1] + pages[k + 1..];
    FlatMapAppend(PageContribution, pages[..k + 1], pages[k + 1..]);
    FlatMapSnoc(PageContribution, pages, k);
  }

  /** A document-level error after `k` pages still returns those pages'
      tables: they are a prefix of what the whole document would give. */
  lemma BrokenDocumentKeepsEarlierTables(pages: seq<PlumberPage>, k: nat, broken: bool)
    requires k <= |pages|
    ensures var early := PlumberTables(Pages(pages[..k], true));
      var all := PlumberTables(Pages(pages, broken));
      |early| <= |all| && early == all[..|early|]
  {
    assert pages == pages[..k] + pages[k..];
    FlatMapAppend(PageContribution, pages[..k], pages[k..]);
  }

  /** Dropping the all-missing middle row of a three-row frame whose other
      rows start with a present cell keeps the first and the last. */
  lemma ThreeByThreeRows(t: Frame)
    requires |t.rows| == 3 && |t.header| > 0
    requires t.rows[0][0].Some? && AllMissing(t.rows[1]) && t.rows[2][0].Some?
    ensures DropMissingRows(t) == Table(t.header, [t.rows[0], t.rows[2]])
  {
    var marks := RowMarks(t);
    assert marks == [true, false, true];
    assert Positions(marks, 2) == [2];
    assert Positions(marks, 1) == [2];
    assert Positions(marks, 0) == [0, 2];
  }

  /** A 3-by-3 frame whose middle row is all missing keeps two data rows and
      its three columns. */
  lemma ThreeByThreeScenario(a: string, b: string, c: string, d: string, e: string, f: string)
    ensures var t: Frame := Table([Some("x"), Some("y"), Some("z")],
                                  [[Some(a), Some(b), Some(c)], [None, None, None], [Some(d), Some(e), Some(f)]]);
      && |Clean(t).rows| == 2 && |Clean(t).header| == 3
      && CleanedFrames([t]) == [Clean(t)]
  {
    var t: Frame := Table([Some("x"), Some("y"), Some("z")],
                          [[Some(a), Some(b), Some(c)], [None, None, None], [Some(d), Some(e), Some(f)]]);
    ThreeByThreeRows(t);
    var g := DropMissingRows(t);
    assert g.rows[0][0].Some? && g.rows[0][1].Some? && g.rows[0][2].Some?;
    assert NoMissingColumn(g);
    DropColumnsNoop(g);
    assert Survivor(t) == [Clean(t)];
    assert [t][..0] == [];
    assert CleanedFrames([t]) == FlatMap(Survivor, [t][..0]) + Survivor(t);
  }

  /** A frame that is already tidy (like a fully populated frame tabula
      read) passes the tabula loop unchanged. */
  lemma TidyFrameKept(f: Frame)
    requires Tidy(f)
    ensures TabulaTables(Read([f])) == [f]
  {
    CleanKeepsTidy(f);
    assert Survivor(f) == [f];
    assert [f][..0] == [];
    assert CleanedFrames([f]) == FlatMap(Survivor, [f][..0]) + Survivor(f);
  }

  /** Empty strings are present values: a row of "" survives cleaning. */
  lemma EmptyStringRowKept()
    ensures var t: Frame := Table([Some("x")], [[Some("")], [None]]);
      Clean(t).rows == [[Some("")]]
  {
    var t: Frame := Table([Some("x")], [[Some("")], [None]]);
    var marks := RowMarks(t);
    assert t.rows[0][0].Some?;
    assert marks == [true, false];
    assert Positions(marks, 1) == [];
    assert Positions(marks, 0) == [0];
    var g := DropMissingRows(t);
    assert g.rows == [t.rows[0]];
    assert g.rows[0][0].Some?;
    assert NoMissingColumn(g);
    DropColumnsNoop(g);
  }

  // ---------------------------------------------------------------------
  // Properties of the selector

  /** A missing file raises FileNotFoundError whatever the method and
      whichever libraries are present: no backend is consulted. */
  lemma MissingFileTables(e: TableExtractor, fs: Nodes, path: Path, other: Libraries)
    requires !Exists(fs, path)
    ensures TableOutcome(e, fs, path) == Err(FileNotFoundError(path))
    ensures TableOutcome(TableExtractor(e.methodName, other), fs, path) == TableOutcome(e, fs, path)
  {
  }

  /** The backend helpers never raise: `extract` fails only for a missing
      file, or under "auto" when pdfplumber is missing and tabula gave no
      tables. */
  lemma TableErrors(e: TableExtractor, fs: Nodes, path: Path)
    ensures TableOutcome(e, fs, path).Err? <==>
      || !Exists(fs, path)
      || (&& e.methodName != TabulaMethod && e.methodName != PdfplumberMethod
          && !e.libs.pdfplumber
          && (!e.libs.tabula || TabulaTables(DocumentAt(fs, path).tabula) == []))
  {
  }

  /** The "auto" policy. A non-empty tabula result is returned as is; an
      empty one, or a missing tabula, falls through to pdfplumber; with
      pdfplumber missing that is ImportError even when tabula ran. */
  lemma AutoTablesPolicy(libs: Libraries, doc: PdfDocument)
    ensures libs.tabula && TabulaTables(doc.tabula) != [] ==>
      AutoTables(libs, doc) == Ok(TabulaTables(doc.tabula))
    ensures (!libs.tabula || TabulaTables(doc.tabula) == []) && libs.pdfplumber ==>
      AutoTables(libs, doc) == Ok(PlumberTables(doc.pdfplumber))
    ensures libs.tabula && TabulaTables(doc.tabula) == [] && !libs.pdfplumber ==>
      AutoTables(libs, doc) == Err(ImportError("No table extraction library available"))
  {
  }
}
