/**
 * `PathBuf` as the sequence of its components (what `Path::components` yields;
 * two paths are equal exactly when their components are). Only the operations
 * the scanner uses are modelled: `join`, `parent`, `file_name` and
 * `to_string_lossy`.
 */
module Paths {
  import opened Wrappers

  datatype Component = RootDir | CurDir | ParentDir | Normal(name: string)

  type Path = seq<Component>

  /** `base.join(rel)`: an absolute `rel` replaces `base`; otherwise it is appended. */
  function Join(base: Path, rel: Path): (r: Path)
    ensures rel != [] && rel[0] == RootDir ==> r == rel
    ensures (rel == [] || rel[0] != RootDir) ==> base <= r && r[|base|..] == rel
  {
    if rel != [] && rel[0] == RootDir then rel else base + rel
  }

  /** `PathBuf::from(name)` for a name a directory walk yields: one normal component. */
  function NamePath(name: string): Path
  {
    [Normal(name)]
  }

  /** `path.parent()`: drops the last component, unless the path is empty or ends at the root. */
  function Parent(p: Path): (r: Option<Path>)
    ensures r.Some? ==> |r.value| + 1 == |p| && r.value <= p
    ensures r.None? <==> (p == [] || p[|p| - 1] == RootDir)
  {
    if p == [] || p[|p| - 1] == RootDir then None else Some(p[..|p| - 1])
  }

  /** `path.file_name()`: the last component when it is a normal one. */
  function FileName(p: Path): (r: Option<string>)
    ensures r.Some? <==> p != [] && p[|p| - 1].Normal?
  {
    if p != [] && p[|p| - 1].Normal? then Some(p[|p| - 1].name) else None
  }

  function ComponentText(c: Component): string
  {
    match c
    case RootDir => "/"
    case CurDir => "."
    case ParentDir => ".."
    case Normal(name) => name
  }

  /** `path.to_string_lossy()` of the component form: components joined by `/`,
      with no separator doubled after a leading root. */
  function Display(p: Path): string
  {
    if p == [] then ""
    else if |p| == 1 || p[|p| - 2] == RootDir then Display(p[..|p| - 1]) + ComponentText(p[|p| - 1])
    else Display(p[..|p| - 1]) + "/" + ComponentText(p[|p| - 1])
  }

  /** The label of a folder begins with the label of every folder above it. */
  lemma {:induction false} DisplayPrefix(p: Path, q: Path)
    requires p <= q
    ensures Display(p) <= Display(q)
    decreases |q|
  {
    if |q| > |p| {
      var init := q[..|q| - 1];
      assert p <= init;
      DisplayPrefix(p, init);
    } else {
      assert p == q;
    }
  }

  /** The label after joining a name is the old label, a separator unless the old path
      ends at the root, and the name. */
  lemma DisplayJoinName(base: Path, name: string)
    requires base != []
    ensures base[|base| - 1] == RootDir ==> Display(Join(base, NamePath(name))) == Display(base) + name
    ensures base[|base| - 1] != RootDir ==> Display(Join(base, NamePath(name))) == Display(base) + "/" + name
  {
    var q := base + [Normal(name)];
    assert Join(base, NamePath(name)) == q;
    assert q[..|q| - 1] == base;
  }

  /** Joining a walk entry's name and then taking the parent returns to where one started. */
  lemma ParentOfJoinedName(base: Path, name: string)
    ensures Parent(Join(base, NamePath(name))) == Some(base)
    ensures FileName(Join(base, NamePath(name))) == Some(name)
  {
    assert Join(base, NamePath(name))[..|base|] == base;
  }
}
