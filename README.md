# pdf-extractor in Dafny

This project models the core of the `pdf_extractor` package. The package extracts the text and the tables of a PDF file, using PyPDF2, pdfplumber and tabula-py. Tables are handed back as Polars DataFrames.

The model covers three classes:

- **`TextExtractor`** (`text_extractor.dfy`). The constructor checks that an explicitly named library is importable. `extract` checks that the file exists, then dispatches. Under "auto", pdfplumber is tried first and PyPDF2 is the fallback. Both backends run the same per-page loop, which writes `--- Page n ---\n`, the page text and `\n\n` for every page whose stripped text is non-empty.
- **`TableExtractor`** (`table_extractor.dfy`). It has the same constructor and file check. Under "auto", tabula is tried first and its result is kept only when it is non-empty; otherwise pdfplumber is used. The tabula loop cleans each DataFrame. The pdfplumber loop builds a DataFrame from each raw grid, using row 0 as the header, and cleans it. Cleaning means `dropna(how='all')` on rows, then on columns; a table that is empty after cleaning is dropped.
- **`PDFExtractor`** (`extractor.dfy`). It delegates to two "auto" selectors and writes results to the filesystem:
  - text goes to `<pdf>.with_suffix('.txt')` by default;
  - tables go to `<stem>_table_<i>.parquet` in the PDF's directory by default.

Supporting modules:

- `common.dfy`: Python's `str.strip`, `str(n)` and `"".join`.
- `frames.dfy`: a DataFrame as a rectangular grid of optional cells, and the cleaning.
- `paths.dfy`: the part of `pathlib` that is used.
- `files.dfy`: the filesystem as a map from paths to nodes, `write_text`/`write_parquet`, and `mkdir(exist_ok=True)`.
- `documents.dfy`: the libraries as oracles.

How the libraries are modelled:

- Whether each library imported is a `Libraries` value.
- What a library yields for a file is recorded in that file's `PdfDocument`: per-page text, per-page raw tables, tabula's frames, or failure.

Each loop is a `method` proved equal to a specification function:

- `Emitted`/`AssembledText` for the text;
- `CleanedFrames`, `PageFrames` and `PlumberFrames` for the tables;
- `WriteTables` for the table files.

The lemmas state what the source promises about those functions.

The filesystem is the state the facade changes. It is the `nodes` field of the `FileSystem` class, and the facade's methods state the new value of that field.

Three behaviours of the code are worth stating outright:

- **Empty strings count as present.** `dropna(how='all')` (pdf_extractor/table_extractor.py:91-92 and 121-122) drops only rows and columns whose cells are all None/NaN, so a row of `""` cells is kept (`TableExtraction.EmptyStringRowKept`).
- **Auto table extraction never gets an exception to catch.** Both table helpers catch their own errors: tabula returns `[]`, and pdfplumber returns the tables gathered so far. The `except` of the "auto" branch is therefore never reached. The only failures are a missing file, and `ImportError` when pdfplumber is absent and tabula gave nothing (`TableExtraction.TableErrors`).
- **Auto text extraction does not fall back on an empty result.** It falls back to PyPDF2 only when pdfplumber is absent or raises. A successful empty result from pdfplumber is returned as it is (`TextExtraction.AutoTextPolicy`).

## Model

| member | source | states |
|---|---|---|
| Common.StripEmptyIff | pdf_extractor/text_extractor.py:80 | `s.strip()` is empty exactly when every character of `s` is whitespace, so the truth test on stripped text asks for a non-whitespace character |
| Common.TrimLeftSpec | pdf_extractor/text_extractor.py:80 | `lstrip` removes a prefix made only of whitespace, and all of the leading whitespace |
| Common.TrimRightSpec | pdf_extractor/text_extractor.py:80 | `rstrip` removes a suffix made only of whitespace, and all of the trailing whitespace |
| Common.NatToString | pdf_extractor/text_extractor.py:81 | `str(n)` is a non-empty string of decimal digits, with no leading zero unless n is 0 |
| Common.DecimalRoundTrip | pdf_extractor/extractor.py:105 | the digits `str(n)` writes denote n |
| Common.NatToStringInjective | pdf_extractor/extractor.py:105 | distinct numbers are written differently |
| Common.ConcatAppend | pdf_extractor/text_extractor.py:87 | `"".join` of two lists of parts is the join of the first followed by the join of the second |
| Common.FlatMapAppend | pdf_extractor/table_extractor.py:87-97 | what a loop appends per element is independent of the other elements: the result for `xs + ys` is the result for `xs` followed by the result for `ys` |
| Frames.Positions | pdf_extractor/table_extractor.py:91-92 | the kept indices are in range, carry a set mark, and are strictly increasing |
| Frames.PositionsComplete | pdf_extractor/table_extractor.py:91-92 | every index with a set mark is kept |
| Frames.PositionsAllSet | pdf_extractor/table_extractor.py:91-92 | when every mark is set, every index is kept, in order |
| Frames.DropRowsKeepsColumnMarks | pdf_extractor/table_extractor.py:91-92 | dropping all-missing rows does not change which columns are all missing |
| Frames.CleanSelects | pdf_extractor/table_extractor.py:91-92 | the rows kept are exactly those with a present cell and the columns kept are exactly those with a present cell; both keep their original order; each cleaned row is its input row restricted to the kept columns, and the header is restricted the same way |
| Frames.CleanHasNoMissingRow | pdf_extractor/table_extractor.py:91-92 | no row of a cleaned table is all missing |
| Frames.CleanHasNoMissingColumn | pdf_extractor/table_extractor.py:91-92 | no column of a cleaned table is all missing |
| Frames.CleanHasNoMissingRowOrColumn | pdf_extractor/table_extractor.py:121-122 | a cleaned table has neither an all-missing row nor an all-missing column |
| Frames.CleanShrinks | pdf_extractor/table_extractor.py:91-92 | cleaning never adds rows or columns |
| Frames.CleanEmptyIff | pdf_extractor/table_extractor.py:91-94 | a cleaned table is empty (`df.empty`) exactly when no data cell of the input is present |
| Frames.EmptyStaysEmpty | pdf_extractor/table_extractor.py:89-94 | an empty frame cleans to an empty frame, so the `not df.empty` test before cleaning changes nothing |
| Frames.DropRowsNoop | pdf_extractor/table_extractor.py:91 | `dropna(how='all')` leaves a frame without all-missing rows unchanged |
| Frames.DropColumnsNoop | pdf_extractor/table_extractor.py:92 | `dropna(axis=1, how='all')` leaves a frame without all-missing columns unchanged |
| Frames.CleanKeepsTidy | pdf_extractor/table_extractor.py:91-92 | a frame without all-missing rows or columns is left as it is |
| Frames.CleanIdempotent | pdf_extractor/table_extractor.py:121-122 | cleaning twice is cleaning once |
| Frames.KeptCleanIsTidy | pdf_extractor/table_extractor.py:124-127 | a cleaned table that passes the `not df.empty` test has a row, a column, and no all-missing row or column |
| Paths.Join | pdf_extractor/extractor.py:105 | `dir / name` has parent `dir` and name `name` |
| Paths.LastDot | pdf_extractor/extractor.py:73 | the index found is that of the last dot of the name, or -1 when there is none |
| Paths.StemSuffixSplit | pdf_extractor/extractor.py:102 | a name is its stem followed by its suffix; a non-empty name has a non-empty stem; a suffix is empty or a dot followed by at least one character |
| Paths.WithTxtSuffix | pdf_extractor/extractor.py:72-73 | `with_suffix('.txt')` raises exactly for an empty name; otherwise it keeps the directory and the stem, the new suffix is ".txt", and ".txt" is appended to a name that had no suffix |
| Files.WriteFile | pdf_extractor/extractor.py:51-52 | a write succeeds exactly when the parent is a directory and the target is not a directory; then the target holds the new content (any old content is overwritten) and no other path changes |
| Files.MakeDir | pdf_extractor/extractor.py:99-100 | `mkdir(exist_ok=True)` succeeds exactly when the path is already a directory, or is absent and its parent is a directory; afterwards the path is a directory, no other path changes, and an existing directory is left as it is |
| TextExtraction.NewTextExtractor | pdf_extractor/text_extractor.py:30-35 | construction raises ImportError exactly when "pypdf2" is asked for without PyPDF2 or "pdfplumber" without pdfplumber; any other method string is accepted and kept; a selector it returns is `Constructed()`, i.e. an explicit method has its library |
| TextExtraction.TextExtractor.Extract | pdf_extractor/text_extractor.py:47-68 | on a selector construction returns, `extract` returns or raises what `TextOutcome` prescribes: the file check, the dispatch on the method, and the auto fallback |
| TextExtraction.MissingFileText | pdf_extractor/text_extractor.py:47-50 | a missing file raises FileNotFoundError whatever the method, and whatever libraries are present |
| TextExtraction.OtherMethodIsAuto | pdf_extractor/text_extractor.py:52-56 | any method string other than "pypdf2" and "pdfplumber" behaves exactly as "auto" |
| TextExtraction.ExplicitTextNoFallback | pdf_extractor/text_extractor.py:52-55 | an explicit method uses only its own backend, and that backend's error propagates |
| TextExtraction.AutoTextPolicy | pdf_extractor/text_extractor.py:56-68 | under auto: a successful pdfplumber result is returned as it is, even when it is ""; PyPDF2 is used only when pdfplumber is absent or raised, and its error propagates; with neither library, ImportError |
| TextExtraction.ExtractWithPyPdf2 | pdf_extractor/text_extractor.py:70-87 | the PyPDF2 page loop returns the assembled page blocks, or raises on a document-level error |
| TextExtraction.ExtractWithPdfplumber | pdf_extractor/text_extractor.py:89-104 | the pdfplumber page loop returns the assembled page blocks, or raises on a document-level error |
| TextExtraction.EmittedSound | pdf_extractor/text_extractor.py:77-83 | every block names a 1-based page whose stripped text is non-empty, and carries that page's raw text; there are at most as many blocks as pages |
| TextExtraction.EmittedIncreasing | pdf_extractor/text_extractor.py:77-83 | blocks come in increasing page order |
| TextExtraction.EmittedComplete | pdf_extractor/text_extractor.py:94-100 | every page whose stripped text is non-empty gets a block |
| TextExtraction.EmittedCountIff | pdf_extractor/text_extractor.py:80-83 | there is one block per page exactly when every page has non-blank text |
| TextExtraction.EmittedAppend | pdf_extractor/text_extractor.py:77-85 | pages are processed independently: the blocks of `a + b` are those of `a` followed by those of `b`, renumbered after `a` |
| TextExtraction.FailingPageSkipped | pdf_extractor/text_extractor.py:84-85 | a page whose extraction raises contributes nothing and does not stop the pages after it, which keep their original numbers |
| TextExtraction.RenderAppend | pdf_extractor/text_extractor.py:81-87 | the joined output of two runs of blocks is the output of the first followed by that of the second |
| TextExtraction.AssembledEmptyIff | pdf_extractor/text_extractor.py:80-87 | the output is "" exactly when no page has non-blank text |
| TextExtraction.HelloThenBlank | pdf_extractor/text_extractor.py:77-87 | "Hello" followed by a blank page gives exactly `--- Page 1 ---\nHello\n\n` |
| TableExtraction.NewTableExtractor | pdf_extractor/table_extractor.py:33-38 | construction raises ImportError exactly when "tabula" is asked for without tabula or "pdfplumber" without pdfplumber; any other method string is accepted and kept; a selector it returns is `Constructed()` |
| TableExtraction.TableExtractor.Extract | pdf_extractor/table_extractor.py:50-73 | on a selector construction returns, `extract` returns or raises what `TableOutcome` prescribes: the file check, the dispatch on the method, and the auto fallback on an empty tabula result |
| TableExtraction.MissingFileTables | pdf_extractor/table_extractor.py:50-53 | a missing file raises FileNotFoundError whatever the method, and whatever libraries are present |
| TableExtraction.TableErrors | pdf_extractor/table_extractor.py:55-73 | `extract` fails exactly when the file is missing, or under auto when pdfplumber is absent and tabula is absent or found no table; the backend helpers never raise |
| TableExtraction.AutoTablesPolicy | pdf_extractor/table_extractor.py:59-73 | under auto: a non-empty tabula result is returned as it is; an empty one, or a missing tabula, falls through to pdfplumber; with pdfplumber absent that is ImportError, even when tabula ran |
| TableExtraction.ExtractWithTabula | pdf_extractor/table_extractor.py:75-103 | the tabula loop returns the cleaned non-empty frames in order, and [] when tabula raises |
| TableExtraction.ToFrameSpec | pdf_extractor/table_extractor.py:118 | `pd.DataFrame(table[1:], columns=table[0])` succeeds exactly when no data row is longer than the header and some data row is as long; row 0 becomes the labels, and each data row becomes a row padded with missing cells |
| TableExtraction.PageFramesStep | pdf_extractor/table_extractor.py:115-127 | a grid of at most one row is skipped; a grid pandas refuses ends the page; any other grid contributes its cleaned frame when that frame is non-empty |
| TableExtraction.PageTablesLoop | pdf_extractor/table_extractor.py:113-130 | the loop over one page's grids returns that page's cleaned non-empty tables, in order, up to the first grid pandas refuses |
| TableExtraction.ExtractWithPdfplumber | pdf_extractor/table_extractor.py:105-135 | the pdfplumber loop returns the tables of all pages in page order; pages whose `extract_tables()` raises contribute nothing |
| TableExtraction.RefusedTableEndsPage | pdf_extractor/table_extractor.py:112-130 | a grid pandas refuses drops the rest of its page only; the tables before it are kept |
| TableExtraction.PageFramesFromRaw | pdf_extractor/table_extractor.py:115-127 | each table a page contributes is one of its grids with a header and a data row, turned into a frame and cleaned |
| TableExtraction.FailingPageLosesOnlyItself | pdf_extractor/table_extractor.py:111-130 | a page whose table extraction raises loses only its own tables; later pages still contribute |
| TableExtraction.BrokenDocumentKeepsEarlierTables | pdf_extractor/table_extractor.py:109-135 | a document-level error after some pages returns those pages' tables, which are a prefix of what the whole document would give |
| TableExtraction.SurvivorTidy | pdf_extractor/table_extractor.py:121-127 | what one frame contributes after cleaning is tidy |
| TableExtraction.CleanedFramesTidy | pdf_extractor/table_extractor.py:88-97 | every table tabula's loop keeps is tidy, and the loop keeps at most one table per frame |
| TableExtraction.PageFramesTidy | pdf_extractor/table_extractor.py:115-127 | every table a page contributes is tidy, and a page contributes at most one table per grid |
| TableExtraction.PlumberFramesTidy | pdf_extractor/table_extractor.py:111-127 | every table pdfplumber's loop keeps is tidy |
| TableExtraction.ExtractedTablesTidy | pdf_extractor/table_extractor.py:55-73 | every table `extract` returns, by any method, has a row and a column and no all-missing row or column |
| TableExtraction.ThreeByThreeRows | pdf_extractor/table_extractor.py:91 | dropping the all-missing middle row of three keeps the first row and the last |
| TableExtraction.ThreeByThreeScenario | pdf_extractor/table_extractor.py:88-97 | a 3-by-3 frame whose middle row is all missing is kept, with 2 rows and 3 columns |
| TableExtraction.TidyFrameKept | tests/test_extractor.py:65-83 | a fully populated frame from tabula comes back as the one table, unchanged |
| TableExtraction.EmptyStringRowKept | pdf_extractor/table_extractor.py:121 | a row of empty strings is present, so it survives cleaning |
| Facade.TablePath | pdf_extractor/extractor.py:105 | table files are placed inside the output directory |
| Facade.TableFileNamesDistinct | pdf_extractor/extractor.py:104-106 | distinct table indices give distinct file names |
| Facade.TablePathsDistinct | pdf_extractor/extractor.py:104-106 | distinct table indices give distinct paths, so no table overwrites another |
| Facade.WriteOneTable | pdf_extractor/extractor.py:105-106 | writing one table file keeps the directory and touches no other table's path |
| Facade.WriteTablesSucceeds | pdf_extractor/extractor.py:104-106 | writing into an existing directory succeeds exactly when none of the target names is a directory |
| Facade.WriteTablesFrame | pdf_extractor/extractor.py:104-106 | whether or not the writes succeed, every path other than the table files keeps what it had |
| Facade.WriteTablesContents | pdf_extractor/extractor.py:104-106 | after successful writes, file i holds table i |
| Facade.PDFExtractor.ExtractText | pdf_extractor/extractor.py:19-29 | `extract_text` returns exactly what the text selector returns for the same path |
| Facade.PDFExtractor.ExtractTables | pdf_extractor/extractor.py:31-41 | `extract_tables` returns exactly what the table selector returns for the same path |
| Facade.PDFExtractor.SaveTextToFile | pdf_extractor/extractor.py:43-52 | after `save_text_to_file`, the path holds exactly the text and no other path changes; on an error nothing changes |
| Facade.PDFExtractor.ExtractAndSaveText | pdf_extractor/extractor.py:54-76 | returns, raises and writes what `TextSaved` prescribes: extract, choose the target, then write |
| Facade.PDFExtractor.ExtractAndSaveTables | pdf_extractor/extractor.py:78-108 | returns, raises and writes what `TablesSaved` prescribes: extract, make the directory, then write the tables in order, stopping at the first error |
| Facade.NewPDFExtractor | pdf_extractor/extractor.py:14-17 | both selectors are those "auto" construction gives, that construction succeeds whatever libraries are present, and the facade is `Valid()` |
| Facade.FacadeTextIsAuto | pdf_extractor/extractor.py:14-29 | the facade's text is FileNotFoundError for a missing file and otherwise what "auto" text extraction gives for the file's document |
| Facade.TextSavedSpec | pdf_extractor/extractor.py:69-76 | on success the returned text is the extracted text and the target holds exactly it, with every other path unchanged; the default target is in the PDF's directory and is named after its stem with ".txt"; on failure nothing is written |
| Facade.MissingPdfSavesNothing | pdf_extractor/extractor.py:69-100 | extraction comes first: for a missing PDF both save operations raise FileNotFoundError and nothing is written or created |
| Facade.TablesSavedUnfold | pdf_extractor/extractor.py:93-106 | once the tables are extracted and the directory is made, the outcome is that of the writes |
| Facade.TablesSavedSucceeds | pdf_extractor/extractor.py:93-108 | saving succeeds exactly when no target name is a directory, and then returns the extracted tables unchanged |
| Facade.TablesSavedContents | pdf_extractor/extractor.py:95-106 | after a successful save the directory exists, `<stem>_table_<i>.parquet` holds table i, and every other path keeps what it had |
| Facade.NoTablesStillMakesDirectory | pdf_extractor/extractor.py:99-104 | the output directory is created even when there are no tables, and nothing else changes |
| Facade.ReportStem | pdf_extractor/extractor.py:102 | the stem of `docs/report.pdf` is "report" |
| Facade.ReportTextTarget | pdf_extractor/extractor.py:71-73 | `docs/report.pdf` writes its text to `docs/report.txt` |
| Facade.ReportFirstTable | pdf_extractor/extractor.py:95-105 | `docs/report.pdf` writes its first table to `docs/report_table_0.parquet` |

## Left out

- PDF parsing (PyPDF2, pdfplumber, tabula-py) is foreign code. What each library yields for a file is an input (`Documents.PdfDocument`). A library's failure is one outcome per document, per page, or per call, with no cause attached.
- Module-level imports are fixed at construction in a `Libraries` value. Patching a module global between calls is not modelled.
- Logging (`logger.warning`, `logger.error`) has no effect on results and is left out.
- Error messages of FileNotFoundError and of the library errors are not modelled; only their class is (`Files.Error`). The ImportError messages are modelled.
- The text of the library errors that propagate from an explicit text backend is not modelled. `BackendError(library)` stands for any of them.
- pandas and polars are modelled as grids of optional string cells. Left out of that model:
  - dtype inference and NaN versus None;
  - `pl.from_pandas`, which is treated as never raising;
  - duplicate or non-string column labels, for which the conversion may raise in the source;
  - the Parquet encoding. A Parquet file holds the cleaned frame as its value.
- TableExtraction.ExtractWithTabula: tabula's own options (`pages='all'`, `multiple_tables=True`, `header=0`) are folded into the frames the oracle returns.
- Paths are relative lists of parts. Left out:
  - anchors, `..`, and absolute paths;
  - the string form of a path.
- The filesystem is a flat map from paths to nodes. It is not required to be a consistent tree, and permissions and symbolic links are not modelled. A directory given as the PDF path reads as a file no library can open.
- Path "." always exists as a directory, and a directory reads as `Documents.Unreadable`, from which no text can be extracted. The `with_suffix` ValueError for an empty name is modelled (`Facade.TextTarget`), but pathlib never forms a part that is "".
- Text encoding (`encoding='utf-8'`) is not modelled. Text files hold the string itself.
- `pdf_extractor/cli.py`, the demo and sample-generation scripts, and the examples are outside the core.
- Concurrency and resource release (`with` blocks) are not modelled. The code runs sequentially.
