/** The local filesystem as a map from paths to nodes, the exceptions the
    package raises, and the two filesystem operations the facade performs:
    writing a file and `mkdir(exist_ok=True)`. */
module Files {
  import opened Frames
  import opened Documents
  import opened Paths

  datatype Content =
    | PdfFile(doc: PdfDocument)
    | TextFile(text: string)
    | ParquetFile(frame: Frame)

  datatype Node = Directory | File(content: Content)

  type Nodes = map<Path, Node>

  /** The Python exceptions that reach the caller, by class. */
  datatype Error =
    | ImportError(message: string)
    | FileNotFoundError(path: Path)
    | FileExistsError(path: Path)
    | IsADirectoryError(path: Path)
    | NotADirectoryError(path: Path)
    | ValueError(path: Path)
    | BackendError(library: string)

  datatype Result<+T> = Ok(value: T) | Err(error: Error)

  /** `p.exists()`; "." always exists. */
  predicate Exists(fs: Nodes, p: Path) {
    p.parts == [] || p in fs
  }

  /** `p.is_dir()`; "." is a directory. */
  predicate IsDir(fs: Nodes, p: Path) {
    p.parts == [] || (p in fs && fs[p].Directory?)
  }

  /** What the libraries see when they open `p`. */
  function DocumentAt(fs: Nodes, p: Path): PdfDocument {
    if p in fs && fs[p].File? && fs[p].content.PdfFile? then fs[p].content.doc else Unreadable
  }

  /** Creating or overwriting the file `p` with `c` (`Path.write_text`,
      `DataFrame.write_parquet`): its directory must exist and `p` must not
      be a directory. */
  function WriteFile(fs: Nodes, p: Path, c: Content): (r: Result<Nodes>)
    ensures r.Ok? <==> IsDir(fs, Parent(p)) && !IsDir(fs, p)
    ensures r.Ok? ==>
      && p in r.value && r.value[p] == File(c)
      && forall q :: q != p ==> (q in r.value <==> q in fs) && (q in fs ==> r.value[q] == fs[q])
  {
    if !Exists(fs, Parent(p)) then Err(FileNotFoundError(p))
    else if !IsDir(fs, Parent(p)) then Err(NotADirectoryError(p))
    else if IsDir(fs, p) then Err(IsADirectoryError(p))
    else Ok(fs[p := File(c)])
  }

  /** `p.mkdir(exist_ok=True)`: nothing to do for an existing directory, an
      error for an existing file or a missing or non-directory parent. */
  function MakeDir(fs: Nodes, p: Path): (r: Result<Nodes>)
    ensures r.Ok? <==> IsDir(fs, p) || (!Exists(fs, p) && IsDir(fs, Parent(p)))
    ensures r.Ok? ==> IsDir(r.value, p)
    ensures r.Ok? ==> forall q :: q != p ==> (q in r.value <==> q in fs) && (q in fs ==> r.value[q] == fs[q])
    ensures IsDir(fs, p) ==> r == Ok(fs)
  {
    if IsDir(fs, p) then Ok(fs)
    else if Exists(fs, p) then Err(FileExistsError(p))
    else if !Exists(fs, Parent(p)) then Err(FileNotFoundError(p))
    else if !IsDir(fs, Parent(p)) then Err(NotADirectoryError(p))
    else Ok(fs[p := Directory])
  }
}
