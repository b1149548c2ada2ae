/** A lexical model of the POSIX paths the pipeline builds with `pathlib`: a
    resolved path is a list of components that are never empty, `.` or `..`. */
module Paths {
  import opened Base
  import opened Text

  predicate IsComponent(c: string)
  {
    c != "" && c != "." && c != ".."
  }

  /** A normalised path: absolute when it names a location, relative when it is a
      key inside a directory tree. */
  type Path = p: seq<string> | forall i :: 0 <= i < |p| ==> IsComponent(p[i])

  /** Walks `parts` from `base`: empty and `.` parts are skipped and `..` drops the
      last component (and stays at the root). */
  function Normalize(base: Path, parts: seq<string>): Path
    decreases |parts|
  {
    if |parts| == 0 then base
    else if parts[0] == "" || parts[0] == "." then Normalize(base, parts[1..])
    else if parts[0] == ".." then Normalize(if |base| == 0 then [] else base[..|base| - 1], parts[1..])
    else Normalize(base + [parts[0]], parts[1..])
  }

  predicate IsAbsolute(name: string)
  {
    |name| > 0 && name[0] == '/'
  }

  /** `(dir / name).resolve()` without symbolic links: an absolute name replaces
      `dir`, a relative one is walked from it. */
  function Resolve(dir: Path, name: string): Path
  {
    if IsAbsolute(name) then Normalize([], Split(name, '/')) else Normalize(dir, Split(name, '/'))
  }

  /** `(dest / name).resolve().is_relative_to(dest.resolve())`. */
  predicate Inside(dest: Path, name: string)
  {
    dest <= Resolve(dest, name)
  }

  /** Where `name` lands relative to `dest`, or `None` when it leaves `dest`. */
  function Rel(dest: Path, name: string): (r: Option<Path>)
    ensures r.Some? <==> Inside(dest, name)
    ensures r.Some? ==> dest + r.value == Resolve(dest, name)
  {
    if Inside(dest, name) then Some(Resolve(dest, name)[|dest|..]) else None
  }

  /** Walking parts without `..` never climbs above the starting point. */
  lemma {:induction false} NormalizeKeepsBase(dest: Path, base: Path, parts: seq<string>)
    requires dest <= base
    requires forall i :: 0 <= i < |parts| ==> parts[i] != ".."
    ensures dest <= Normalize(base, parts)
    decreases |parts|
  {
    if |parts| > 0 {
      if parts[0] == "" || parts[0] == "." {
        NormalizeKeepsBase(dest, base, parts[1..]);
      } else {
        NormalizeKeepsBase(dest, base + [parts[0]], parts[1..]);
      }
    }
  }

  /** A relative entry name with no `..` component always stays inside. */
  lemma PlainRelativeNameStaysInside(dest: Path, name: string)
    requires !IsAbsolute(name)
    requires ".." !in Split(name, '/')
    ensures Inside(dest, name)
  {
    var parts := Split(name, '/');
    forall i | 0 <= i < |parts|
      ensures parts[i] != ".."
    {
      assert parts[i] in parts;
    }
    NormalizeKeepsBase(dest, dest, parts);
  }

  /** A single component resolves to the child of that name. */
  lemma ComponentResolves(dir: Path, c: string)
    requires IsComponent(c) && '/' !in c
    ensures Resolve(dir, c) == dir + [c]
  {
    assert IndexOf(c, '/') == None;
    var parts: seq<string> := [c];
    assert Split(c, '/') == parts && parts[1..] == [];
    assert Normalize(dir, parts) == Normalize(dir + [c], []);
  }

  /** `../<c>` resolves to the sibling `c` of the destination. */
  lemma ParentStepResolves(dest: Path, c: string)
    requires |dest| > 0 && IsComponent(c) && '/' !in c
    ensures Resolve(dest, "../" + c) == dest[..|dest| - 1] + [c]
  {
    var name := "../" + c;
    assert name[..2] == ".." && name[2] == '/' && name[0] != '/' && name[1] != '/';
    assert IndexOf(name, '/') == Some(2);
    assert name[3..] == c;
    assert IndexOf(name[3..], '/') == None;
    var parts := Split(name, '/');
    assert Split(name[3..], '/') == [c];
    assert parts == [name[..2]] + Split(name[3..], '/');
    assert parts == [".."] + [c];
    var up: Path := dest[..|dest| - 1];
    assert Normalize(dest, parts) == Normalize(up, parts[1..]);
    assert Normalize(up, parts[1..]) == Normalize(up + [c], parts[2..]);
  }

  /** `../<c>` escapes any destination whose last component is not `c`. */
  lemma ParentStepEscapes(dest: Path, c: string)
    requires |dest| > 0 && IsComponent(c) && '/' !in c
    requires dest[|dest| - 1] != c
    ensures !Inside(dest, "../" + c)
  {
    ParentStepResolves(dest, c);
    var up: Path := dest[..|dest| - 1];
    assert |up + [c]| == |dest| && (up + [c])[|dest| - 1] != dest[|dest| - 1];
  }

  /** An absolute name with one component escapes a destination two levels deep. */
  lemma AbsoluteNameEscapes(dest: Path, c: string)
    requires |dest| >= 2 && IsComponent(c) && '/' !in c
    ensures !Inside(dest, "/" + c)
  {
    var name := "/" + c;
    assert name[1..] == c;
    assert IndexOf(name, '/') == Some(0);
    assert IndexOf(name[1..], '/') == None;
    var parts := Split(name, '/');
    assert Split(name[1..], '/') == [c];
    assert parts == [name[..0]] + Split(name[1..], '/');
    assert parts == [""] + [c];
    var none: Path := [];
    assert Normalize(none, parts) == Normalize(none, parts[1..]);
    assert Normalize(none, parts[1..]) == Normalize(none + [c], parts[2..]);
    assert Resolve(dest, name) == [c];
  }

  /** The parts of a name that are real components: empty, `.` and `..` parts dropped. */
  function Components(parts: seq<string>): (r: Path)
    ensures |r| <= |parts|
  {
    if |parts| == 0 then []
    else if IsComponent(parts[0]) then [parts[0]] + Components(parts[1..])
    else Components(parts[1..])
  }

  /** Without `..` parts, resolving only appends the real components. */
  lemma {:induction false} NormalizeWithoutParentSteps(base: Path, parts: seq<string>)
    requires forall i :: 0 <= i < |parts| ==> parts[i] != ".."
    ensures Normalize(base, parts) == base + Components(parts)
    decreases |parts|
  {
    if |parts| > 0 {
      if parts[0] == "" || parts[0] == "." {
        NormalizeWithoutParentSteps(base, parts[1..]);
      } else {
        NormalizeWithoutParentSteps(base + [parts[0]], parts[1..]);
      }
    }
  }

  /** The parts `pathlib` keeps when it joins without resolving: no empty and no `.` parts. */
  function Clean(parts: seq<string>): (r: seq<string>)
    ensures forall i :: 0 <= i < |r| ==> r[i] != "" && r[i] != "."
    ensures |r| <= |parts|
  {
    if |parts| == 0 then []
    else if parts[0] == "" || parts[0] == "." then Clean(parts[1..])
    else [parts[0]] + Clean(parts[1..])
  }

  /** `str(part list)` of an absolute path. */
  function ToString(parts: seq<string>): string
  {
    "/" + Join("/", parts)
  }

  /** `str(dir / entry)`: the entry's parts are appended lexically (`..` is kept), and
      an absolute entry replaces `dir`. */
  function JoinString(dir: seq<string>, entry: string): string
  {
    if IsAbsolute(entry) then ToString(Clean(Split(entry, '/')))
    else ToString(dir + Clean(Split(entry, '/')))
  }

  /** `Path(s).name`: the last kept part, or `""` when there is none. */
  function BaseName(s: string): (r: string)
    ensures '/' !in r
  {
    var parts := Clean(Split(s, '/'));
    if |parts| == 0 then "" else
      assert Split(s, '/')[0] in Split(s, '/');
      CleanKeepsSeparatorFree(Split(s, '/'));
      parts[|parts| - 1]
  }

  lemma {:induction false} CleanKeepsSeparatorFree(parts: seq<string>)
    requires forall i :: 0 <= i < |parts| ==> '/' !in parts[i]
    ensures forall i :: 0 <= i < |Clean(parts)| ==> '/' !in Clean(parts)[i]
  {
    if |parts| > 0 {
      CleanKeepsSeparatorFree(parts[1..]);
    }
  }
}

/** The abstract directory tree the extractor writes into: every key is a path
    relative to the tree's root. */
module Fs {
  import opened Base
  import opened Paths

  datatype Entry = File(data: Bytes) | Dir

  type Tree = map<Path, Entry>

  /** The state a step leaves the tree in, and the error that stopped it, if any. */
  datatype Outcome = Outcome(files: Tree, failure: Option<Error>)

  predicate IsFile(t: Tree, p: Path)
  {
    p in t && t[p].File?
  }

  /** `mkdir(parents=True, exist_ok=True)` of `p` and its ancestors: missing ones
      become directories, existing entries are kept. */
  function AddDirs(t: Tree, p: Path): (r: Tree)
    ensures forall q :: q in t ==> q in r && r[q] == t[q]
    ensures forall k :: 0 < k <= |p| ==> p[..k] in r
    ensures forall q :: q in r ==> q in t || (0 < |q| <= |p| && q == p[..|q|])
    decreases |p|
  {
    if |p| == 0 then t
    else
      var up: Path := p[..|p| - 1];
      var t' := AddDirs(t, up);
      assert forall k :: 0 < k < |p| ==> p[..k] == up[..k];
      assert p[..|p|] == p;
      if p in t' then t' else t'[p := Dir]
  }

  /** Writing entry `e` at `p` after creating its parent directories; the root itself
      is never replaced. */
  function Put(t: Tree, p: Path, e: Entry): (r: Tree)
    ensures |p| > 0 ==> p in r && r[p] == e
    ensures forall q :: q in t && !(q <= p) ==> q in r && r[q] == t[q]
    ensures forall q :: q in r ==> q in t || (0 < |q| <= |p| && q <= p)
  {
    if |p| == 0 then t else AddDirs(t, p[..|p| - 1])[p := e]
  }
}
