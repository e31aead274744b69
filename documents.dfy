/** The third-party PDF libraries, seen as oracles. Which of them imported
    successfully is a `Libraries` value; what each one yields for a given PDF
    file is recorded in that file's `PdfDocument`. */
module Documents {
  import opened Frames

  /** Whether `import PyPDF2`, `import pdfplumber` and `import tabula`
      succeeded (the module-level try/except blocks of both selectors). */
  datatype Libraries = Libraries(pypdf2: bool, pdfplumber: bool, tabula: bool)

  /** What `page.extract_text()` does for one page: return text, return
      None, or raise. */
  datatype PageText = Text(text: string) | NoText | PageFails

  /** The pages a library yields for a document, in order. When `broken`, the
      library raises a document-level error (opening or reading the file)
      once it has yielded them; a file it cannot open at all is
      `Pages([], true)`. */
  datatype Pages<P> = Pages(pages: seq<P>, broken: bool)

  /** A table as pdfplumber's `extract_tables()` gives it: rows of cells,
      row 0 meant as the header. Rows may differ in length. */
  type RawTable = seq<Row>

  /** What `page.extract_tables()` does for one page. */
  datatype PageTables = Tables(tables: seq<RawTable>) | TablesFail

  /** One pdfplumber page: its text and its tables. */
  datatype PlumberPage = PlumberPage(text: PageText, tables: PageTables)

  /** What `tabula.read_pdf(pages='all', multiple_tables=True)` does: return
      one DataFrame per detected table, in page order, or raise. */
  datatype TabulaRead = Read(frames: seq<Frame>) | ReadFails

  /** Everything the three libraries would report about one file. */
  datatype PdfDocument = PdfDocument(
    pypdf2: Pages<PageText>,
    pdfplumber: Pages<PlumberPage>,
    tabula: TabulaRead)

  /** A file no library can open: a directory, or a file that is not a PDF. */
  const Unreadable: PdfDocument := PdfDocument(Pages([], true), Pages([], true), ReadFails)
}
