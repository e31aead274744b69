/** The `PDFExtractor` facade (pdf_extractor/extractor.py): two selectors
    built with the "auto" method, and the operations that extract and then
    write the results next to the PDF or into a chosen directory. The
    filesystem is the state these operations change. */
module Facade {
  import opened Common
  import opened Frames
  import opened Paths
  import opened Files
  import TextExtraction
  import TableExtraction

  /** The local filesystem the facade reads PDFs from and writes results to. */
  class FileSystem {
    var nodes: Nodes

    constructor(nodes: Nodes)
      ensures this.nodes == nodes
    {
      this.nodes := nodes;
    }
  }

  /** `<stem>_table_<i>.parquet`. */
  function TableFileName(stem: string, i: nat): string {
    stem + "_table_" + NatToString(i) + ".parquet"
  }

  /** Where table `i` of a PDF with stem `stem` is written inside `dir`. */
  function TablePath(dir: Path, stem: string, i: nat): (p: Path)
    ensures Parent(p) == dir && p != dir
  {
    Join(dir, TableFileName(stem, i))
  }

  /** Distinct tables get distinct file names, so no table overwrites
      another. */
  lemma TableFileNamesDistinct(stem: string, i: nat, j: nat)
    requires i != j
    ensures TableFileName(stem, i) != TableFileName(stem, j)
  {
    var prefix := stem + "_table_";
    var a := NatToString(i);
    var b := NatToString(j);
    if TableFileName(stem, i) == TableFileName(stem, j) {
      var x := prefix + a + ".parquet";
      var y := prefix + b + ".parquet";
      assert |a| == |b|;
      assert a == x[|prefix|..|prefix| + |a|];
      assert b == y[|prefix|..|prefix| + |b|];
      NatToStringInjective(i, j);
      assert false;
    }
  }

  lemma TablePathsDistinct(dir: Path, stem: string, i: nat, j: nat)
    requires i != j
    ensures TablePath(dir, stem, i) != TablePath(dir, stem, j)
  {
    TableFileNamesDistinct(stem, i, j);
  }

  /** Writing tables `i..` one after the other, stopping at the first write
      that raises; the files written before it stay written. */
  function WriteTables(nodes: Nodes, dir: Path, stem: string, tables: seq<Frame>, i: nat): (Nodes, Option<Error>)
    requires i <= |tables|
    decreases |tables| - i
  {
    if i == |tables| then (nodes, None)
    else match WriteFile(nodes, TablePath(dir, stem, i), ParquetFile(tables[i]))
      case Err(x) => (nodes, Some(x))
      case Ok(written) => WriteTables(written, dir, stem, tables, i + 1)
  }

  /** `q` is none of the table files `from..to`. */
  predicate NotTablePath(q: Path, dir: Path, stem: string, from: nat, to: nat) {
    forall k :: from <= k < to ==> q != TablePath(dir, stem, k)
  }

  /** Writing one table file into an existing directory keeps that
      directory, and changes none of the other table files' paths. */
  lemma WriteOneTable(nodes: Nodes, dir: Path, stem: string, tables: seq<Frame>, i: nat)
    requires i < |tables| && IsDir(nodes, dir)
    requires WriteFile(nodes, TablePath(dir, stem, i), ParquetFile(tables[i])).Ok?
    ensures var next := WriteFile(nodes, TablePath(dir, stem, i), ParquetFile(tables[i])).value;
      && IsDir(next, dir)
      && WriteTables(nodes, dir, stem, tables, i) == WriteTables(next, dir, stem, tables, i + 1)
      && (forall k :: i + 1 <= k < |tables| ==>
            IsDir(next, TablePath(dir, stem, k)) == IsDir(nodes, TablePath(dir, stem, k)))
      && NotTablePath(TablePath(dir, stem, i), dir, stem, i + 1, |tables|)
  {
    var p := TablePath(dir, stem, i);
    var next := WriteFile(nodes, p, ParquetFile(tables[i])).value;
    assert dir != p;
    forall k | i + 1 <= k < |tables|
      ensures p != TablePath(dir, stem, k)
      ensures IsDir(next, TablePath(dir, stem, k)) == IsDir(nodes, TablePath(dir, stem, k))
    {
      TablePathsDistinct(dir, stem, i, k);
    }
  }

  /** Into an existing directory, the writes all succeed exactly when none of
      the target names is a directory. */
  lemma {:induction false} WriteTablesSucceeds(nodes: Nodes, dir: Path, stem: string, tables: seq<Frame>, i: nat)
    requires i <= |tables| && IsDir(nodes, dir)
    ensures WriteTables(nodes, dir, stem, tables, i).1.None? <==>
      forall k :: i <= k < |tables| ==> !IsDir(nodes, TablePath(dir, stem, k))
    decreases |tables| - i
  {
    if i < |tables| {
      var p := TablePath(dir, stem, i);
      var w := WriteFile(nodes, p, ParquetFile(tables[i]));
      if w.Err? {
        assert IsDir(nodes, p);
        assert WriteTables(nodes, dir, stem, tables, i).1.Some?;
      } else {
        var next := w.value;
        WriteOneTable(nodes, dir, stem, tables, i);
        WriteTablesSucceeds(next, dir, stem, tables, i + 1);
        assert !IsDir(nodes, p);
        assert WriteTables(nodes, dir, stem, tables, i) == WriteTables(next, dir, stem, tables, i + 1);
      }
    }
  }

  /** Whether or not the writes all succeed, every path other than the table
      files keeps what it had. */
  lemma {:induction false} WriteTablesFrame(nodes: Nodes, dir: Path, stem: string, tables: seq<Frame>, i: nat)
    requires i <= |tables| && IsDir(nodes, dir)
    ensures var written := WriteTables(nodes, dir, stem, tables, i).0;
      forall q :: NotTablePath(q, dir, stem, i, |tables|) ==>
        (q in written <==> q in nodes) && (q in nodes ==> written[q] == nodes[q])
    decreases |tables| - i
  {
    if i < |tables| {
      var w := WriteFile(nodes, TablePath(dir, stem, i), ParquetFile(tables[i]));
      if w.Ok? {
        WriteOneTable(nodes, dir, stem, tables, i);
        WriteTablesFrame(w.value, dir, stem, tables, i + 1);
      }
    }
  }

  /** When the writes all succeed, file `i` holds table `i`. */
  lemma {:induction false} WriteTablesContents(nodes: Nodes, dir: Path, stem: string, tables: seq<Frame>, i: nat)
    requires i <= |tables| && IsDir(nodes, dir)
    ensures var (written, err) := WriteTables(nodes, dir, stem, tables, i);
      err.None? ==> forall k :: i <= k < |tables| ==>
        TablePath(dir, stem, k) in written && written[TablePath(dir, stem, k)] == File(ParquetFile(tables[k]))
    decreases |tables| - i
  {
    if i < |tables| {
      var w := WriteFile(nodes, TablePath(dir, stem, i), ParquetFile(tables[i]));
      if w.Ok? {
        var next := w.value;
        var p := TablePath(dir, stem, i);
        WriteOneTable(nodes, dir, stem, tables, i);
        WriteTablesContents(next, dir, stem, tables, i + 1);
        WriteTablesFrame(next, dir, stem, tables, i + 1);
        var (written, err) := WriteTables(next, dir, stem, tables, i + 1);
        if err.None? {
          assert p in written && written[p] == next[p];
          forall k | i <= k < |tables|
            ensures TablePath(dir, stem, k) in written
            ensures written[TablePath(dir, stem, k)] == File(ParquetFile(tables[k]))
          {
          }
        }
      }
    }
  }

  /** A constructed facade: text and table selectors, both "auto". */
  datatype PDFExtractor = PDFExtractor(
    textExtractor: TextExtraction.TextExtractor,
    tableExtractor: TableExtraction.TableExtractor)
  {
    /** Both selectors are ones construction returns. */
    predicate Valid() {
      textExtractor.Constructed() && tableExtractor.Constructed()
    }

    /** `extract_text(pdf_path)`: the text selector's result. */
    method ExtractText(fs: FileSystem, pdf: Path) returns (r: Result<string>)
      requires Valid()
      ensures r == TextExtraction.TextOutcome(textExtractor, fs.nodes, pdf)
    {
      r := textExtractor.Extract(fs.nodes, pdf);
    }

    /** `extract_tables(pdf_path)`: the table selector's result. */
    method ExtractTables(fs: FileSystem, pdf: Path) returns (r: Result<seq<Frame>>)
      requires Valid()
      ensures r == TableExtraction.TableOutcome(tableExtractor, fs.nodes, pdf)
    {
      r := tableExtractor.Extract(fs.nodes, pdf);
    }

    /** `save_text_to_file(text, output_path)`; `None` when it returns. */
    method SaveTextToFile(fs: FileSystem, text: string, outputPath: Path) returns (err: Option<Error>)
      modifies fs
      ensures var w := WriteFile(old(fs.nodes), outputPath, TextFile(text));
        && (err.None? <==> w.Ok?)
        && (w.Ok? ==> fs.nodes == w.value)
        && (w.Err? ==> err == Some(w.error) && fs.nodes == old(fs.nodes))
    {
      var w := WriteFile(fs.nodes, outputPath, TextFile(text));
      if w.Err? {
        return Some(w.error);
      }
      fs.nodes := w.value;
      err := None;
    }

    /** `extract_and_save_text(pdf_path, output_path)`. */
    method ExtractAndSaveText(fs: FileSystem, pdf: Path, outputPath: Option<Path>) returns (r: Result<string>)
      requires Valid()
      modifies fs
      ensures (r, fs.nodes) == TextSaved(this, old(fs.nodes), pdf, outputPath)
    {
      r := ExtractText(fs, pdf);
      if r.Err? {
        return;
      }
      var target := TextTarget(pdf, outputPath);
      if target.Err? {
        return Err(target.error);
      }
      var err := SaveTextToFile(fs, r.value, target.value);
      if err.Some? {
        return Err(err.value);
      }
    }

    /** `extract_and_save_tables(pdf_path, output_dir)`. */
    method ExtractAndSaveTables(fs: FileSystem, pdf: Path, outputDir: Option<Path>) returns (r: Result<seq<Frame>>)
      requires Valid()
      modifies fs
      ensures (r, fs.nodes) == TablesSaved(this, old(fs.nodes), pdf, outputDir)
    {
      var extracted := ExtractTables(fs, pdf);
      if extracted.Err? {
        return extracted;
      }
      var tables := extracted.value;
      var dir := TableDir(pdf, outputDir);
      var made := MakeDir(fs.nodes, dir);
      if made.Err? {
        return Err(made.error);
      }
      fs.nodes := made.value;
      var pdfName := Stem(pdf);
      var i := 0;
      while i < |tables|
        invariant 0 <= i <= |tables|
        invariant WriteTables(fs.nodes, dir, pdfName, tables, i) == WriteTables(made.value, dir, pdfName, tables, 0)
      {
        var written := WriteFile(fs.nodes, TablePath(dir, pdfName, i), ParquetFile(tables[i]));
        if written.Err? {
          return Err(written.error);
        }
        fs.nodes := written.value;
        i := i + 1;
      }
      r := Ok(tables);
    }
  }

  /** `PDFExtractor()`: both selectors are built with the default "auto"
      method, which no combination of importable libraries refuses. */
  function NewPDFExtractor(libs: Documents.Libraries): (e: PDFExtractor)
    ensures e.Valid()
    ensures TextExtraction.NewTextExtractor(TextExtraction.AutoMethod, libs) == Ok(e.textExtractor)
    ensures TableExtraction.NewTableExtractor(TableExtraction.AutoMethod, libs) == Ok(e.tableExtractor)
  {
    PDFExtractor(
      TextExtraction.TextExtractor(TextExtraction.AutoMethod, libs),
      TableExtraction.TableExtractor(TableExtraction.AutoMethod, libs))
  }

  /** The file the text goes to: the given path, or the PDF's path with its
      suffix replaced by ".txt" (`with_suffix` raises ValueError for a path
      with an empty name). */
  function TextTarget(pdf: Path, outputPath: Option<Path>): Result<Path> {
    if outputPath.Some? then Ok(outputPath.value)
    else match WithSuffix(pdf, ".txt")
      case Some(target) => Ok(target)
      case None => Err(ValueError(pdf))
  }

  /** The directory the tables go to: the given one, or the PDF's parent. */
  function TableDir(pdf: Path, outputDir: Option<Path>): Path {
    if outputDir.Some? then outputDir.value else Parent(pdf)
  }

  /** What `extract_and_save_text` returns or raises, and the filesystem
      afterwards: extract first, then write. */
  function TextSaved(e: PDFExtractor, nodes: Nodes, pdf: Path, outputPath: Option<Path>): (Result<string>, Nodes) {
    match TextExtraction.TextOutcome(e.textExtractor, nodes, pdf)
    case Err(x) => (Err(x), nodes)
    case Ok(text) =>
      match TextTarget(pdf, outputPath)
      case Err(x) => (Err(x), nodes)
      case Ok(target) =>
        match WriteFile(nodes, target, TextFile(text))
        case Err(x) => (Err(x), nodes)
        case Ok(written) => (Ok(text), written)
  }

  /** What `extract_and_save_tables` returns or raises, and the filesystem
      afterwards: extract, create the directory, then write the tables in
      order. */
  function TablesSaved(e: PDFExtractor, nodes: Nodes, pdf: Path, outputDir: Option<Path>): (Result<seq<Frame>>, Nodes) {
    match TableExtraction.TableOutcome(e.tableExtractor, nodes, pdf)
    case Err(x) => (Err(x), nodes)
    case Ok(tables) =>
      var dir := TableDir(pdf, outputDir);
      match MakeDir(nodes, dir)
      case Err(x) => (Err(x), nodes)
      case Ok(made) =>
        var (written, err) := WriteTables(made, dir, Stem(pdf), tables, 0);
        if err.Some? then (Err(err.value), written) else (Ok(tables), written)
  }

  // ---------------------------------------------------------------------
  // Properties of the facade

  /** The facade's text is what "auto" extraction gives. */
  lemma FacadeTextIsAuto(libs: Documents.Libraries, nodes: Nodes, pdf: Path)
    ensures var e := NewPDFExtractor(libs);
      TextExtraction.TextOutcome(e.textExtractor, nodes, pdf) ==
        if !Exists(nodes, pdf) then Err(FileNotFoundError(pdf))
        else TextExtraction.AutoText(libs, DocumentAt(nodes, pdf))
  {
  }

  /** Saving text: on success the returned text is the extracted text and the
      target file holds exactly it, every other path unchanged; on failure
      nothing is written. The default target sits next to the PDF and is
      named after its stem with ".txt". */
  lemma TextSavedSpec(e: PDFExtractor, nodes: Nodes, pdf: Path, outputPath: Option<Path>)
    ensures var (r, after) := TextSaved(e, nodes, pdf, outputPath);
      && (r.Err? ==> after == nodes)
      && (r.Ok? ==>
           && TextExtraction.TextOutcome(e.textExtractor, nodes, pdf) == r
           && TextTarget(pdf, outputPath).Ok?
           && var target := TextTarget(pdf, outputPath).value;
              && target in after && after[target] == File(TextFile(r.value))
              && (forall q :: q != target ==> (q in after <==> q in nodes) && (q in nodes ==> after[q] == nodes[q]))
              && (outputPath.None? ==> Parent(target) == Parent(pdf) && Name(target) == Stem(pdf) + ".txt"))
  {
    if outputPath.None? {
      WithTxtSuffix(pdf);
    }
  }

  /** Extraction comes first: a missing PDF raises FileNotFoundError from
      either save operation and nothing is written or created. */
  lemma MissingPdfSavesNothing(e: PDFExtractor, nodes: Nodes, pdf: Path, outputPath: Option<Path>)
    requires !Exists(nodes, pdf)
    ensures TextSaved(e, nodes, pdf, outputPath) == (Err(FileNotFoundError(pdf)), nodes)
    ensures TablesSaved(e, nodes, pdf, outputPath) == (Err(FileNotFoundError(pdf)), nodes)
  {
  }

  /** Once the tables are extracted and the directory is made, the outcome
      is that of the writes. */
  lemma TablesSavedUnfold(e: PDFExtractor, nodes: Nodes, pdf: Path, outputDir: Option<Path>)
    requires TableExtraction.TableOutcome(e.tableExtractor, nodes, pdf).Ok?
    requires MakeDir(nodes, TableDir(pdf, outputDir)).Ok?
    ensures var tables := TableExtraction.TableOutcome(e.tableExtractor, nodes, pdf).value;
      var dir := TableDir(pdf, outputDir);
      var w := WriteTables(MakeDir(nodes, dir).value, dir, Stem(pdf), tables, 0);
      TablesSaved(e, nodes, pdf, outputDir) == (if w.1.Some? then Err(w.1.value) else Ok(tables), w.0)
  {
  }

  /** Saving tables, once they are extracted and the directory can be made,
      succeeds exactly when no target name is a directory, and then returns
      the extracted tables unchanged. */
  lemma TablesSavedSucceeds(e: PDFExtractor, nodes: Nodes, pdf: Path, outputDir: Option<Path>)
    requires TableExtraction.TableOutcome(e.tableExtractor, nodes, pdf).Ok?
    requires MakeDir(nodes, TableDir(pdf, outputDir)).Ok?
    ensures var tables := TableExtraction.TableOutcome(e.tableExtractor, nodes, pdf).value;
      var dir := TableDir(pdf, outputDir);
      var made := MakeDir(nodes, dir).value;
      var r := TablesSaved(e, nodes, pdf, outputDir).0;
      && (r.Ok? <==> forall k :: 0 <= k < |tables| ==> !IsDir(made, TablePath(dir, Stem(pdf), k)))
      && (r.Ok? ==> r.value == tables)
  {
    var tables := TableExtraction.TableOutcome(e.tableExtractor, nodes, pdf).value;
    var dir := TableDir(pdf, outputDir);
    TablesSavedUnfold(e, nodes, pdf, outputDir);
    WriteTablesSucceeds(MakeDir(nodes, dir).value, dir, Stem(pdf), tables, 0);
  }

  /** After a successful save the directory exists, file
      `<stem>_table_<i>.parquet` in it holds table `i`, and every other path
      keeps what it had. */
  lemma TablesSavedContents(e: PDFExtractor, nodes: Nodes, pdf: Path, outputDir: Option<Path>)
    requires TableExtraction.TableOutcome(e.tableExtractor, nodes, pdf).Ok?
    ensures var (r, after) := TablesSaved(e, nodes, pdf, outputDir);
      var tables := TableExtraction.TableOutcome(e.tableExtractor, nodes, pdf).value;
      var dir := TableDir(pdf, outputDir);
      r.Ok? ==>
        && IsDir(after, dir)
        && (forall k :: 0 <= k < |tables| ==>
              TablePath(dir, Stem(pdf), k) in after
              && after[TablePath(dir, Stem(pdf), k)] == File(ParquetFile(tables[k])))
        && (forall q :: q != dir && NotTablePath(q, dir, Stem(pdf), 0, |tables|) ==>
              (q in after <==> q in nodes) && (q in nodes ==> after[q] == nodes[q]))
  {
    var tables := TableExtraction.TableOutcome(e.tableExtractor, nodes, pdf).value;
    var dir := TableDir(pdf, outputDir);
    var m := MakeDir(nodes, dir);
    if m.Ok? {
      var made := m.value;
      TablesSavedUnfold(e, nodes, pdf, outputDir);
      WriteTablesFrame(made, dir, Stem(pdf), tables, 0);
      WriteTablesContents(made, dir, Stem(pdf), tables, 0);
      var (after, err) := WriteTables(made, dir, Stem(pdf), tables, 0);
      if err.None? && dir.parts != [] {
        assert NotTablePath(dir, dir, Stem(pdf), 0, |tables|);
        assert after[dir] == made[dir];
      }
    }
  }

  /** The output directory is created even when there are no tables to
      write, and then nothing else changes. */
  lemma NoTablesStillMakesDirectory(e: PDFExtractor, nodes: Nodes, pdf: Path, outputDir: Option<Path>)
    requires TableExtraction.TableOutcome(e.tableExtractor, nodes, pdf) == Ok([])
    ensures var dir := TableDir(pdf, outputDir);
      TablesSaved(e, nodes, pdf, outputDir) ==
        match MakeDir(nodes, dir)
        case Ok(made) => (Ok([]), made)
        case Err(x) => (Err(x), nodes)
  {
  }

  /** The stem of `docs/report.pdf` is "report". */
  lemma ReportStem()
    ensures Stem(Path(["docs", "report.pdf"])) == "report"
  {
    var name := "report.pdf";
    assert Name(Path(["docs", "report.pdf"])) == name;
    assert name[..9] == "report.pd" && name[..8] == "report.p" && name[..7] == "report.";
    assert LastDot("report.") == 6;
    assert LastDot("report.p") == 6;
    assert LastDot("report.pd") == 6;
    assert LastDot(name) == 6;
  }

  /** `docs/report.pdf` gives `docs/report.txt` for its text. */
  lemma ReportTextTarget()
    ensures TextTarget(Path(["docs", "report.pdf"]), None) == Ok(Path(["docs", "report.txt"]))
  {
    var pdf := Path(["docs", "report.pdf"]);
    ReportStem();
    assert Parent(pdf) == Path(["docs"]);
    assert "report" + ".txt" == "report.txt";
    assert Parent(pdf).parts + ["report.txt"] == ["docs", "report.txt"];
  }

  /** `docs/report.pdf` gives `docs/report_table_0.parquet` for its first
      table. */
  lemma ReportFirstTable()
    ensures var pdf := Path(["docs", "report.pdf"]);
      TablePath(TableDir(pdf, None), Stem(pdf), 0) == Path(["docs", "report_table_0.parquet"])
  {
    var pdf := Path(["docs", "report.pdf"]);
    ReportStem();
    assert Parent(pdf) == Path(["docs"]);
    assert NatToString(0) == "0";
    assert TableFileName("report", 0) == "report_table_0.parquet";
    assert Parent(pdf).parts + ["report_table_0.parquet"] == ["docs", "report_table_0.parquet"];
  }
}
