/** The text extraction selector (pdf_extractor/text_extractor.py): a
    method chosen at construction, a file-existence check, the
    pdfplumber-then-PyPDF2 fallback of "auto", and the per-page assembly loop
    both backends run. */
module TextExtraction {
  import opened Common
  import opened Documents
  import opened Paths
  import opened Files

  /** A page yields a block when its text is present and `text.strip()` is
      non-empty. */
  predicate Shows(p: PageText) {
    p.Text? && Strip(p.text) != ""
  }

  /** The delimiter line for 1-based page number `n`. */
  function Marker(n: nat): string {
    "--- Page " + NatToString(n) + " ---\n"
  }

  /** What one emitted page contributes to the output. */
  function Block(n: nat, text: string): (b: string)
    ensures |b| > 0
  {
    Marker(n) + text + "\n\n"
  }

  /** The (1-based page number, text) pairs of the pages that yield a block,
      in page order. */
  function Emitted(pages: seq<PageText>): seq<(nat, string)> {
    if pages == [] then []
    else
      var n := |pages|;
      Emitted(pages[..n - 1]) + (if Shows(pages[n - 1]) then [(n, pages[n - 1].text)] else [])
  }

  /** The blocks of the emitted pages, concatenated. */
  function Render(e: seq<(nat, string)>): string {
    FlatMap(BlockOf, e)
  }

  function BlockOf(p: (nat, string)): string {
    Block(p.0, p.1)
  }

  /** The text a backend returns for a document whose pages it read without a
      document-level error. */
  function AssembledText(pages: seq<PageText>): string {
    Render(Emitted(pages))
  }

  /** Page numbers shifted by `offset`, for pages that follow `offset` others. */
  function Shift(e: seq<(nat, string)>, offset: nat): (s: seq<(nat, string)>)
    ensures |s| == |e|
  {
    seq(|e|, k requires 0 <= k < |e| => (e[k].0 + offset, e[k].1))
  }

  /** One more page adds at most its own block. */
  lemma EmittedStep(pages: seq<PageText>, i: nat)
    requires i < |pages|
    ensures Emitted(pages[..i + 1]) ==
      Emitted(pages[..i]) + (if Shows(pages[i]) then [(i + 1, pages[i].text)] else [])
  {
    var pre := pages[..i + 1];
    assert pre[..i] == pages[..i];
    assert pre[i] == pages[i];
  }

  /** Every emitted pair names a page, 1-based, that yields a block, with its
      text as returned; there are never more blocks than pages. */
  lemma {:induction false} EmittedSound(pages: seq<PageText>)
    ensures var e := Emitted(pages);
      && |e| <= |pages|
      && (forall k :: 0 <= k < |e| ==>
            1 <= e[k].0 <= |pages| && Shows(pages[e[k].0 - 1]) && e[k].1 == pages[e[k].0 - 1].text)
  {
    if pages != [] {
      var n := |pages|;
      var pre := pages[..n - 1];
      EmittedSound(pre);
      EmittedStep(pages, n - 1);
      assert pages[..n] == pages;
      var e := Emitted(pages);
      var ep := Emitted(pre);
      forall k | 0 <= k < |e|
        ensures 1 <= e[k].0 <= n && Shows(pages[e[k].0 - 1]) && e[k].1 == pages[e[k].0 - 1].text
      {
        if k < |ep| {
          assert e[k] == ep[k];
          assert pre[ep[k].0 - 1] == pages[ep[k].0 - 1];
        }
      }
    }
  }

  /** The emitted page numbers increase: blocks come in page order. */
  lemma {:induction false} EmittedIncreasing(pages: seq<PageText>)
    ensures var e := Emitted(pages);
      forall k, l :: 0 <= k < l < |e| ==> e[k].0 < e[l].0
  {
    if pages != [] {
      var n := |pages|;
      var pre := pages[..n - 1];
      EmittedSound(pre);
      EmittedIncreasing(pre);
      EmittedStep(pages, n - 1);
      assert pages[..n] == pages;
      var e := Emitted(pages);
      var ep := Emitted(pre);
      forall k, l | 0 <= k < l < |e|
        ensures e[k].0 < e[l].0
      {
        assert e[k] == ep[k];
        if l < |ep| {
          assert e[l] == ep[l];
        }
      }
    }
  }

  /** There is one block per page exactly when every page yields one. */
  lemma {:induction false} EmittedCountIff(pages: seq<PageText>)
    ensures |Emitted(pages)| == |pages| <==> forall i :: 0 <= i < |pages| ==> Shows(pages[i])
  {
    if pages != [] {
      var n := |pages|;
      var pre := pages[..n - 1];
      EmittedCountIff(pre);
      EmittedSound(pre);
      EmittedStep(pages, n - 1);
      assert pages[..n] == pages;
      assert forall i :: 0 <= i < n - 1 ==> pre[i] == pages[i];
    }
  }

  /** Every page that yields a block is emitted. */
  lemma {:induction false} EmittedComplete(pages: seq<PageText>)
    ensures forall i :: 0 <= i < |pages| && Shows(pages[i]) ==> (i + 1, pages[i].text) in Emitted(pages)
  {
    if pages != [] {
      var n := |pages|;
      var pre := pages[..n - 1];
      EmittedComplete(pre);
      EmittedStep(pages, n - 1);
      assert pages[..n] == pages;
      forall i | 0 <= i < n && Shows(pages[i])
        ensures (i + 1, pages[i].text) in Emitted(pages)
      {
        if i < n - 1 {
          assert pre[i] == pages[i];
        }
      }
    }
  }

  /** Pages are processed independently: the blocks of `a + b` are those of
      `a` followed by those of `b` renumbered after `a`. */
  lemma {:induction false} EmittedAppend(a: seq<PageText>, b: seq<PageText>)
    ensures Emitted(a + b) == Emitted(a) + Shift(Emitted(b), |a|)
  {
    if b == [] {
      assert a + b == a;
    } else {
      var m := |b|;
      assert (a + b)[..|a| + m - 1] == a + b[..m - 1];
      EmittedAppend(a, b[..m - 1]);
      assert Shift(Emitted(b), |a|) == Shift(Emitted(b[..m - 1]), |a|)
        + (if Shows(b[m - 1]) then [(m + |a|, b[m - 1].text)] else []);
    }
  }

  /** A page whose extraction raises contributes nothing and does not stop
      the pages after it. */
  lemma FailingPageSkipped(pages: seq<PageText>, k: nat)
    requires k < |pages| && pages[k] == PageFails
    ensures Emitted(pages) == Emitted(pages[..k]) + Shift(Emitted(pages[k + 1..]), k + 1)
  {
    var pre := pages[..k + 1];
    var post := pages[k + 1..];
    assert pages == pre + post;
    EmittedAppend(pre, post);
    EmittedStep(pages, k);
    assert !Shows(pages[k]);
    assert Emitted(pre) == Emitted(pages[..k]);
  }

  lemma RenderSnoc(e: seq<(nat, string)>, n: nat, t: string)
    ensures Render(e + [(n, t)]) == Render(e) + Block(n, t)
  {
    assert (e + [(n, t)])[..|e|] == e;
  }

  /** Rendering distributes over concatenation of the emitted pairs. */
  lemma RenderAppend(e: seq<(nat, string)>, f: seq<(nat, string)>)
    ensures Render(e + f) == Render(e) + Render(f)
  {
    FlatMapAppend(BlockOf, e, f);
  }

  /** The output is empty exactly when no page yields a block; in particular
      a document whose pages are all blank, missing or failing gives "". */
  lemma AssembledEmptyIff(pages: seq<PageText>)
    ensures AssembledText(pages) == "" <==> forall i :: 0 <= i < |pages| ==> !Shows(pages[i])
  {
    EmittedSound(pages);
    EmittedComplete(pages);
    var e := Emitted(pages);
    if e != [] {
      assert Render(e) == Render(e[..|e| - 1]) + BlockOf(e[|e| - 1]);
      assert Shows(pages[e[0].0 - 1]);
    }
  }

  /** Of "Hello" and a blank page only the first yields a block. */
  lemma HelloThenBlankEmitted()
    ensures Emitted([Text("Hello"), Text("")]) == [(1, "Hello")]
  {
    var pages := [Text("Hello"), Text("")];
    StripEmptyIff("Hello");
    StripEmptyIff("");
    assert !IsSpace("Hello"[0]);
    assert Shows(pages[0]) && !Shows(pages[1]);
    EmittedStep(pages, 0);
    EmittedStep(pages, 1);
    assert pages[..0] == [] && pages[..2] == pages;
  }

  /** A two-page document, "Hello" then a blank page, gives exactly
      "--- Page 1 ---\nHello\n\n". */
  lemma HelloThenBlank()
    ensures AssembledText([Text("Hello"), Text("")]) == "--- Page 1 ---\nHello\n\n"
  {
    HelloThenBlankEmitted();
    RenderSnoc([], 1, "Hello");
    assert NatToString(1) == "1";
  }

  /** `_extract_with_pypdf2`: a document-level error (opening or reading the
      file) propagates; otherwise the page blocks. */
  function PyPdf2Text(doc: Pages<PageText>): Result<string> {
    if doc.broken then Err(BackendError("PyPDF2")) else Ok(AssembledText(doc.pages))
  }

  function TextsOf(pages: seq<PlumberPage>): (t: seq<PageText>)
    ensures |t| == |pages| && forall i :: 0 <= i < |pages| ==> t[i] == pages[i].text
  {
    seq(|pages|, i requires 0 <= i < |pages| => pages[i].text)
  }

  /** `_extract_with_pdfplumber`, likewise. */
  function PdfplumberText(doc: Pages<PlumberPage>): Result<string> {
    if doc.broken then Err(BackendError("pdfplumber")) else Ok(AssembledText(TextsOf(doc.pages)))
  }

  /** One step of either loop: the pieces appended for page `n` with text
      `t` extend the output by that page's block. */
  lemma AppendBlock(textContent: seq<string>, n: nat, t: string)
    ensures Concat(textContent + [Marker(n), t, "\n\n"]) == Concat(textContent) + Block(n, t)
  {
    var pieces := [Marker(n), t, "\n\n"];
    ConcatAppend(textContent, pieces);
    assert pieces[..2] == [Marker(n), t];
    assert [Marker(n), t][..1] == [Marker(n)];
    assert [Marker(n)][..0] == [];
    assert Concat([Marker(n)]) == Marker(n);
    assert Concat([Marker(n), t]) == Marker(n) + t;
    assert Concat(pieces) == Marker(n) + t + "\n\n";
  }

  lemma AssembledStep(pages: seq<PageText>, i: nat)
    requires i < |pages|
    ensures AssembledText(pages[..i + 1]) ==
      AssembledText(pages[..i]) + (if Shows(pages[i]) then Block(i + 1, pages[i].text) else "")
  {
    EmittedStep(pages, i);
    if Shows(pages[i]) {
      RenderSnoc(Emitted(pages[..i]), i + 1, pages[i].text);
    } else {
      assert Emitted(pages[..i + 1]) == Emitted(pages[..i]);
    }
  }

  /** The PyPDF2 loop. A page whose text is None makes `text.strip()` raise,
      which the page's except clause catches, so it is skipped like a page
      whose extraction raised. */
  method ExtractWithPyPdf2(doc: Pages<PageText>) returns (r: Result<string>)
    ensures r == PyPdf2Text(doc)
  {
    var textContent: seq<string> := [];
    var pageNum := 0;
    while pageNum < |doc.pages|
      invariant 0 <= pageNum <= |doc.pages|
      invariant Concat(textContent) == AssembledText(doc.pages[..pageNum])
    {
      AssembledStep(doc.pages, pageNum);
      match doc.pages[pageNum] {
        case PageFails =>
        case NoText =>
        case Text(text) =>
          if Strip(text) != "" {
            AppendBlock(textContent, pageNum + 1, text);
            textContent := textContent + [Marker(pageNum + 1), text, "\n\n"];
          }
      }
      pageNum := pageNum + 1;
    }
    if doc.broken {
      return Err(BackendError("PyPDF2"));
    }
    assert doc.pages[..pageNum] == doc.pages;
    r := Ok(Concat(textContent));
  }

  /** The pdfplumber loop: a page is kept when `text and text.strip()`. */
  method ExtractWithPdfplumber(doc: Pages<PlumberPage>) returns (r: Result<string>)
    ensures r == PdfplumberText(doc)
  {
    ghost var texts := TextsOf(doc.pages);
    var textContent: seq<string> := [];
    var pageNum := 0;
    while pageNum < |doc.pages|
      invariant 0 <= pageNum <= |doc.pages|
      invariant Concat(textContent) == AssembledText(texts[..pageNum])
    {
      AssembledStep(texts, pageNum);
      var text := doc.pages[pageNum].text;
      if text.Text? && Strip(text.text) != "" {
        AppendBlock(textContent, pageNum + 1, text.text);
        textContent := textContent + [Marker(pageNum + 1), text.text, "\n\n"];
      }
      pageNum := pageNum + 1;
    }
    if doc.broken {
      return Err(BackendError("pdfplumber"));
    }
    assert texts[..pageNum] == texts;
    r := Ok(Concat(textContent));
  }

  const PyPdf2Method: string := "pypdf2"
  const PdfplumberMethod: string := "pdfplumber"
  const AutoMethod: string := "auto"

  /** A selector: the method it was given and the libraries that were
      importable. */
  datatype TextExtractor = TextExtractor(methodName: string, libs: Libraries) {

    /** The selectors construction returns: an explicitly named library is
        importable. */
    predicate Constructed() {
      && (methodName == PyPdf2Method ==> libs.pypdf2)
      && (methodName == PdfplumberMethod ==> libs.pdfplumber)
    }

    /** `extract(pdf_path)` against the filesystem `fs`. */
    method Extract(fs: Nodes, path: Path) returns (r: Result<string>)
      requires Constructed()
      ensures r == TextOutcome(this, fs, path)
    {
      if !Exists(fs, path) {
        return Err(FileNotFoundError(path));
      }
      var doc := DocumentAt(fs, path);
      if methodName == PyPdf2Method {
        r := ExtractWithPyPdf2(doc.pypdf2);
      } else if methodName == PdfplumberMethod {
        r := ExtractWithPdfplumber(doc.pdfplumber);
      } else {
        if libs.pdfplumber {
          r := ExtractWithPdfplumber(doc.pdfplumber);
          if r.Ok? {
            return;
          }
        }
        if libs.pypdf2 {
          r := ExtractWithPyPdf2(doc.pypdf2);
          return;
        }
        r := Err(ImportError("No PDF processing library available"));
      }
    }
  }

  /** `TextExtractor(method)`: an explicitly named library must be
      importable; any other method string is accepted. */
  function NewTextExtractor(methodName: string, libs: Libraries): (r: Result<TextExtractor>)
    ensures r.Err? <==>
      (methodName == PyPdf2Method && !libs.pypdf2) || (methodName == PdfplumberMethod && !libs.pdfplumber)
    ensures r.Err? ==> r.error.ImportError?
    ensures r.Ok? ==> r.value.methodName == methodName && r.value.libs == libs && r.value.Constructed()
  {
    if methodName == PyPdf2Method && !libs.pypdf2 then
      Err(ImportError("PyPDF2 is required for pypdf2 method"))
    else if methodName == PdfplumberMethod && !libs.pdfplumber then
      Err(ImportError("pdfplumber is required for pdfplumber method"))
    else
      Ok(TextExtractor(methodName, libs))
  }

  /** The "auto" path: pdfplumber first when importable; PyPDF2 when
      pdfplumber is missing or raised. */
  function AutoText(libs: Libraries, doc: PdfDocument): Result<string> {
    if libs.pdfplumber && PdfplumberText(doc.pdfplumber).Ok? then PdfplumberText(doc.pdfplumber)
    else if libs.pypdf2 then PyPdf2Text(doc.pypdf2)
    else Err(ImportError("No PDF processing library available"))
  }

  /** What `extract` returns or raises. */
  function TextOutcome(e: TextExtractor, fs: Nodes, path: Path): Result<string> {
    if !Exists(fs, path) then Err(FileNotFoundError(path))
    else
      var doc := DocumentAt(fs, path);
      if e.methodName == PyPdf2Method then PyPdf2Text(doc.pypdf2)
      else if e.methodName == PdfplumberMethod then PdfplumberText(doc.pdfplumber)
      else AutoText(e.libs, doc)
  }

  /** A missing file raises FileNotFoundError whatever the method and
      whichever libraries are present: no backend is consulted. */
  lemma MissingFileText(e: TextExtractor, fs: Nodes, path: Path, other: Libraries)
    requires !Exists(fs, path)
    ensures TextOutcome(e, fs, path) == Err(FileNotFoundError(path))
    ensures TextOutcome(TextExtractor(e.methodName, other), fs, path) == TextOutcome(e, fs, path)
  {
  }

  /** Any method string other than "pypdf2" and "pdfplumber" behaves as
      "auto". */
  lemma OtherMethodIsAuto(e: TextExtractor, fs: Nodes, path: Path)
    requires e.methodName != PyPdf2Method && e.methodName != PdfplumberMethod
    ensures TextOutcome(e, fs, path) == TextOutcome(TextExtractor(AutoMethod, e.libs), fs, path)
  {
  }

  /** An explicit method uses only its own backend, and that backend's
      document-level error propagates. */
  lemma ExplicitTextNoFallback(e: TextExtractor, fs: Nodes, path: Path)
    requires Exists(fs, path)
    ensures e.methodName == PyPdf2Method ==>
      TextOutcome(e, fs, path) == PyPdf2Text(DocumentAt(fs, path).pypdf2)
    ensures e.methodName == PdfplumberMethod ==>
      TextOutcome(e, fs, path) == PdfplumberText(DocumentAt(fs, path).pdfplumber)
  {
  }

  /** The "auto" policy. A successful pdfplumber result is returned as is,
      even when it is "". PyPDF2 is used only when pdfplumber is missing or
      raised, and its error propagates. With neither library, ImportError. */
  lemma AutoTextPolicy(libs: Libraries, doc: PdfDocument)
    ensures libs.pdfplumber && PdfplumberText(doc.pdfplumber).Ok? ==>
      AutoText(libs, doc) == PdfplumberText(doc.pdfplumber)
    ensures libs.pdfplumber && PdfplumberText(doc.pdfplumber) == Ok("") ==>
      AutoText(libs, doc) == Ok("")
    ensures (!libs.pdfplumber || PdfplumberText(doc.pdfplumber).Err?) && libs.pypdf2 ==>
      AutoText(libs, doc) == PyPdf2Text(doc.pypdf2)
    ensures !libs.pdfplumber && !libs.pypdf2 ==>
      AutoText(libs, doc) == Err(ImportError("No PDF processing library available"))
    ensures AutoText(libs, doc).Err? ==>
      AutoText(libs, doc).error.ImportError? || AutoText(libs, doc) == PyPdf2Text(doc.pypdf2)
  {
  }
}
