/**
 * File-system paths as `pathlib.Path` treats them: a parent directory and a final
 * name.  The parent "" is the current directory, so `Path("x.txt")` is `Path("", "x.txt")`.
 */
module Paths {

  datatype Path = Path(dir: string, name: string)

  /** The files a run can see: each existing path with its text content. */
  type FileSystem = map<Path, string>

  /** The index of the last '.' in a name, or -1 (Python's `str.rfind('.')`). */
  function LastDot(name: string): (r: int)
    ensures -1 <= r < |name|
    ensures r >= 0 ==> name[r] == '.'
    ensures forall k :: r < k < |name| ==> name[k] != '.'
  {
    if name == [] then -1
    else if name[|name| - 1] == '.' then |name| - 1
    else LastDot(name[..|name| - 1])
  }

  /** Whether the name has a suffix: a last dot that is neither the first nor the last character. */
  predicate HasSuffix(name: string) {
    0 < LastDot(name) < |name| - 1
  }

  /** `Path.suffix`. */
  function Suffix(p: Path): string {
    if HasSuffix(p.name) then p.name[LastDot(p.name)..] else ""
  }

  /** `Path.stem`. */
  function Stem(p: Path): string {
    if HasSuffix(p.name) then p.name[..LastDot(p.name)] else p.name
  }

  /** `p.parent / name`. */
  function Sibling(p: Path, name: string): Path {
    Path(p.dir, name)
  }

  /** The stem and the suffix split the name; the suffix is empty or a single dotted extension. */
  lemma StemSuffixSplit(p: Path)
    ensures Stem(p) + Suffix(p) == p.name
    ensures Suffix(p) == "" || (Suffix(p)[0] == '.' && |Suffix(p)| >= 2
                                 && forall k :: 0 < k < |Suffix(p)| ==> Suffix(p)[k] != '.')
    ensures p.name != "" ==> Stem(p) != ""
  {
  }

  /** Naming a file `stem + "." + ext` gives back that stem and that suffix. */
  lemma {:induction false} StemOfExtension(dir: string, stem: string, ext: string)
    requires stem != [] && ext != [] && forall k :: 0 <= k < |ext| ==> ext[k] != '.'
    ensures Stem(Path(dir, stem + "." + ext)) == stem
    ensures Suffix(Path(dir, stem + "." + ext)) == "." + ext
  {
    var name := stem + "." + ext;
    assert name[|stem|] == '.';
    assert LastDot(name) == |stem| by {
      LastDotPast(name, |stem|);
    }
  }

  lemma {:induction false} LastDotPast(name: string, i: int)
    requires 0 <= i < |name| && name[i] == '.'
    requires forall k :: i < k < |name| ==> name[k] != '.'
    ensures LastDot(name) == i
    decreases |name|
  {
    if i < |name| - 1 {
      var front := name[..|name| - 1];
      LastDotPast(front, i);
    }
  }
}
