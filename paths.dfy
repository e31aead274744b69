/** The part of Python's `pathlib` the facade uses to derive default output
    names: `name`, `parent`, `suffix`, `stem`, `with_suffix` and `/`. */
module Paths {
  import opened Common

  /** A relative path as its parts; `Path([])` is ".". */
  datatype Path = Path(parts: seq<string>)

  /** `p.name`: the last part, or "" for ".". */
  function Name(p: Path): string {
    if p.parts == [] then "" else p.parts[|p.parts| - 1]
  }

  /** `p.parent`: every part but the last; the parent of "." is ".". */
  function Parent(p: Path): Path {
    if p.parts == [] then p else Path(p.parts[..|p.parts| - 1])
  }

  /** `dir / name`. */
  function Join(dir: Path, name: string): (p: Path)
    ensures Parent(p) == dir && Name(p) == name && p != dir
  {
    assert (dir.parts + [name])[..|dir.parts|] == dir.parts;
    Path(dir.parts + [name])
  }

  /** `name.rfind('.')`: the index of the last dot, or -1. */
  function LastDot(name: string): (i: int)
    ensures -1 <= i < |name|
    ensures i >= 0 ==> name[i] == '.'
    ensures forall k :: i < k < |name| ==> name[k] != '.'
  {
    if name == [] then -1
    else if name[|name| - 1] == '.' then |name| - 1
    else LastDot(name[..|name| - 1])
  }

  /** Where the suffix starts: at the last dot when that dot is neither the
      first nor the last character, otherwise nowhere (`|name|`). */
  function SuffixStart(name: string): (i: nat)
    ensures i <= |name|
  {
    var d := LastDot(name);
    if 0 < d < |name| - 1 then d else |name|
  }

  /** `p.suffix`. */
  function Suffix(p: Path): string {
    Name(p)[SuffixStart(Name(p))..]
  }

  /** `p.stem`. */
  function Stem(p: Path): string {
    Name(p)[..SuffixStart(Name(p))]
  }

  /** The validity test `with_suffix` applies to its argument. */
  predicate ValidSuffix(suffix: string) {
    && (forall k :: 0 <= k < |suffix| ==> suffix[k] != '/')
    && (suffix == [] || (suffix[0] == '.' && suffix != "."))
  }

  /** `p.with_suffix(suffix)`; `None` is the ValueError it raises for an
      invalid suffix or for a path with an empty name. */
  function WithSuffix(p: Path, suffix: string): Option<Path> {
    if !ValidSuffix(suffix) || Name(p) == "" then None
    else Some(Join(Parent(p), Stem(p) + suffix))
  }

  /** A name splits into its stem and its suffix; a non-empty name has a
      non-empty stem. */
  lemma StemSuffixSplit(p: Path)
    ensures Name(p) == Stem(p) + Suffix(p)
    ensures Name(p) != "" ==> Stem(p) != ""
    ensures Suffix(p) == "" || (Suffix(p)[0] == '.' && |Suffix(p)| >= 2)
  {
  }

  /** `with_suffix('.txt')` on a path with a name keeps the directory and the
      stem and gives the suffix ".txt": the old suffix is replaced, or ".txt"
      is appended when there was none. */
  lemma WithTxtSuffix(p: Path)
    ensures Name(p) == "" <==> WithSuffix(p, ".txt") == None
    ensures Name(p) != "" ==>
      var q := WithSuffix(p, ".txt").value;
      && Parent(q) == Parent(p)
      && Name(q) == Stem(p) + ".txt"
      && Stem(q) == Stem(p)
      && Suffix(q) == ".txt"
      && (Suffix(p) == "" ==> Name(q) == Name(p) + ".txt")
  {
    if Name(p) != "" {
      var q := WithSuffix(p, ".txt").value;
      var s := Stem(p);
      StemSuffixSplit(p);
      var n := s + ".txt";
      assert Name(q) == n;
      assert n[..|n| - 1] == s + ".tx";
      assert (s + ".tx")[..|s| + 2] == s + ".t";
      assert (s + ".t")[..|s| + 1] == s + ".";
      assert LastDot(s + ".") == |s|;
      assert LastDot(s + ".t") == |s|;
      assert LastDot(s + ".tx") == |s|;
      assert LastDot(n) == |s|;
    }
  }
}
