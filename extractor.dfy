/** Unpacking a downloaded archive into a destination directory: format detection by
    suffix, path-traversal checks, the per-member writes of each archive kind, the
    `.conda` package layout with its prefix patches, and moving an `extract_dir` up.
    Decompression and JSON decoding are left to the caller: an archive arrives as its
    decoded member list. */
module Extractor {
  import opened Base
  import opened Text
  import opened Paths
  import opened Fs
  import Poker

  datatype Compression = Gz | Xz | Bz2

  datatype Format = CondaFormat | ZipFormat | TarFormat(compression: Compression) | SevenZipFormat

  /** `SUPPORTED_FORMATS`, in its declaration order, which is the order suffixes are tried. */
  const SupportedFormats: seq<(string, Format)> := [
    (".conda", CondaFormat), (".zip", ZipFormat),
    (".tar.gz", TarFormat(Gz)), (".tgz", TarFormat(Gz)),
    (".tar.xz", TarFormat(Xz)), (".txz", TarFormat(Xz)),
    (".tar.bz2", TarFormat(Bz2)), (".tbz2", TarFormat(Bz2)),
    (".7z", SevenZipFormat)]

  /** `sorted(SUPPORTED_FORMATS.keys())`, as the error message lists them. */
  const SortedSuffixes: seq<string> :=
    [".7z", ".conda", ".tar.bz2", ".tar.gz", ".tar.xz", ".tbz2", ".tgz", ".txz", ".zip"]

  /** The index of the first entry whose suffix ends `name`. */
  function FirstSuffix(name: string, formats: seq<(string, Format)>): (r: Option<nat>)
    ensures r.Some? ==> r.value < |formats| && EndsWith(name, formats[r.value].0)
    ensures r.Some? ==> forall j :: 0 <= j < r.value ==> !EndsWith(name, formats[j].0)
    ensures r.None? <==> forall j :: 0 <= j < |formats| ==> !EndsWith(name, formats[j].0)
    decreases |formats|
  {
    if |formats| == 0 then None
    else if EndsWith(name, formats[0].0) then Some(0)
    else match FirstSuffix(name, formats[1..])
      case None => None
      case Some(i) => Some(i + 1)
  }

  /** `_detect_format`: the suffix is matched on the lower-cased final path component;
      the error names that component as written. */
  function DetectFormat(archiveName: string): (r: Result<Format>)
    ensures r.Ok? <==>
      exists j :: 0 <= j < |SupportedFormats| && EndsWith(Lower(BaseName(archiveName)), SupportedFormats[j].0)
    ensures r.Ok? ==>
      exists j :: 0 <= j < |SupportedFormats| && EndsWith(Lower(BaseName(archiveName)), SupportedFormats[j].0)
        && r.value == SupportedFormats[j].1
    ensures r.Err? ==> r.error == UnsupportedFormat(BaseName(archiveName), SortedSuffixes)
  {
    match FirstSuffix(Lower(BaseName(archiveName)), SupportedFormats)
    case Some(j) => Ok(SupportedFormats[j].1)
    case None => Err(UnsupportedFormat(BaseName(archiveName), SortedSuffixes))
  }

  /** Of two suffixes a name ends with, the shorter ends the longer. */
  lemma EndsWithBoth(name: string, a: string, b: string)
    requires EndsWith(name, a) && EndsWith(name, b) && |a| <= |b|
    ensures EndsWith(b, a)
  {
    assert b[|b| - |a|..] == name[|name| - |a|..];
  }

  /** No supported suffix ends another one. */
  lemma SuffixesAreSuffixFree()
    ensures forall i, j :: 0 <= i < |SupportedFormats| && 0 <= j < |SupportedFormats| && i != j ==> !EndsWith(SupportedFormats[j].0, SupportedFormats[i].0)
  {
    forall i, j | 0 <= i < |SupportedFormats| && 0 <= j < |SupportedFormats| && i != j
      ensures !EndsWith(SupportedFormats[j].0, SupportedFormats[i].0)
    {
      var a := SupportedFormats[i].0;
      var b := SupportedFormats[j].0;
      if |a| <= |b| {
        assert b[|b| - |a|..][|a| - 1] != a[|a| - 1]
          || b[|b| - |a|..][|a| - 2] != a[|a| - 2]
          || b[|b| - |a|..][|a| - 3] != a[|a| - 3]
          || b[|b| - |a|..][|a| - 4] != a[|a| - 4];
      }
    }
  }

  /** A name ends with at most one supported suffix, so the format does not depend on
      the order suffixes are tried in: it is the format of the suffix the name has. */
  lemma DetectedFormatIsTheSuffixFormat(archiveName: string, j: nat)
    requires j < |SupportedFormats| && EndsWith(Lower(BaseName(archiveName)), SupportedFormats[j].0)
    ensures DetectFormat(archiveName) == Ok(SupportedFormats[j].1)
  {
    var name := Lower(BaseName(archiveName));
    var i := FirstSuffix(name, SupportedFormats).value;
    SuffixesAreSuffixFree();
    if i != j {
      var a := SupportedFormats[i].0;
      var b := SupportedFormats[j].0;
      if |a| <= |b| {
        EndsWithBoth(name, a, b);
      } else {
        EndsWithBoth(name, b, a);
      }
    }
  }

  /** The message's list is in ascending order ... */
  lemma SortedSuffixesAreSorted()
    ensures StrictlySorted(SortedSuffixes)
  {
    assert StrLess(".7z", ".conda") && StrLess(".conda", ".tar.bz2");
    assert StrLess(".tar.bz2"[5..], ".tar.gz"[5..]) && StrLess(".tar.gz"[5..], ".tar.xz"[5..]);
    assert StrLess(".tar.xz"[1..], ".tbz2"[1..]) && StrLess(".tbz2"[1..], ".tgz"[1..]);
    assert StrLess(".tgz"[1..], ".txz"[1..]) && StrLess(".txz", ".zip");
    SortedFromNeighbours(SortedSuffixes);
  }

  /** ... and holds exactly the suffix table's keys. */
  lemma SortedSuffixesAreTheKeys()
    ensures (set k | k in SortedSuffixes) == set e | e in SupportedFormats :: e.0
  {
    var keys := set e | e in SupportedFormats :: e.0;
    assert forall k :: k in SortedSuffixes ==> k in keys by {
      assert SupportedFormats[0] in SupportedFormats && SupportedFormats[1] in SupportedFormats;
      assert SupportedFormats[2] in SupportedFormats && SupportedFormats[3] in SupportedFormats;
      assert SupportedFormats[4] in SupportedFormats && SupportedFormats[5] in SupportedFormats;
      assert SupportedFormats[6] in SupportedFormats && SupportedFormats[7] in SupportedFormats;
      assert SupportedFormats[8] in SupportedFormats;
    }
  }

  // ----- entry checks and member writes -----

  /** The index of the first name that resolves outside `dest`. */
  function FirstEscaping(dest: Path, names: seq<string>): (r: Option<nat>)
    ensures r.Some? ==> r.value < |names| && !Inside(dest, names[r.value])
    ensures r.Some? ==> forall j :: 0 <= j < r.value ==> Inside(dest, names[j])
    ensures r.None? <==> forall j :: 0 <= j < |names| ==> Inside(dest, names[j])
  {
    FirstFailing(names, name => Inside(dest, name))
  }

  /** The index of the first element that fails `ok`. */
  function FirstFailing<T>(xs: seq<T>, ok: T -> bool): (r: Option<nat>)
    ensures r.Some? ==> r.value < |xs| && !ok(xs[r.value])
    ensures r.Some? ==> forall j :: 0 <= j < r.value ==> ok(xs[j])
    ensures r.None? <==> forall j :: 0 <= j < |xs| ==> ok(xs[j])
    decreases |xs|
  {
    if |xs| == 0 then None
    else if !ok(xs[0]) then Some(0)
    else
      assert forall j :: 1 <= j < |xs| ==> xs[j] == xs[1..][j - 1];
      match FirstFailing(xs[1..], ok)
      case None => None
      case Some(i) => Some(i + 1)
  }

  /** The first-match conditions single out one index. */
  lemma FirstEscapingIsFirst(dest: Path, names: seq<string>, i: nat)
    requires i < |names| && !Inside(dest, names[i])
    requires forall j :: 0 <= j < i ==> Inside(dest, names[j])
    ensures FirstEscaping(dest, names) == Some(i)
  {
  }

  /** `_validate_entry_paths`: the first name that escapes is reported. */
  method ValidateEntryPaths(names: seq<string>, dest: Path) returns (r: Result<()>)
    ensures r.Ok? <==> forall j :: 0 <= j < |names| ==> Inside(dest, names[j])
    ensures r.Err? ==> exists i :: 0 <= i < |names| && !Inside(dest, names[i]) && r.error == PathTraversal(names[i]) && forall j :: 0 <= j < i ==> Inside(dest, names[j])
  {
    var i := 0;
    while i < |names|
      invariant 0 <= i <= |names|
      invariant forall j :: 0 <= j < i ==> Inside(dest, names[j])
    {
      if !Inside(dest, names[i]) {
        return Err(PathTraversal(names[i]));
      }
      i := i + 1;
    }
    return Ok(());
  }

  /** One archive member after decompression. */
  datatype Member = Member(name: string, isDir: bool, data: Bytes)

  function Names(members: seq<Member>): (r: seq<string>)
    ensures |r| == |members|
    ensures forall i :: 0 <= i < |members| ==> r[i] == members[i].name
  {
    seq(|members|, i requires 0 <= i < |members| => members[i].name)
  }

  /** How members are written: `zipfile`, `tarfile` with or without the `data` filter,
      `py7zr`. */
  datatype Writer = ZipWriter | TarWriter(dataFilter: bool) | SevenZipWriter

  /** The writers that check every name before writing anything; the filtered tar
      writer checks each member as it reaches it. */
  predicate Validates(w: Writer)
  {
    w != TarWriter(true)
  }

  /** `zipfile` drops empty, `.` and `..` parts of a member name. */
  function ZipKey(name: string): Path
  {
    Components(Split(name, '/'))
  }

  /** Where a member lands relative to `dest`: the `data` filter strips leading slashes
      and refuses a name that resolves outside; `None` means refused. */
  function MemberKey(w: Writer, dest: Path, name: string): Option<Path>
  {
    match w
    case ZipWriter => Some(ZipKey(name))
    case TarWriter(dataFilter) => if dataFilter then Rel(dest, LStrip(name, '/')) else Rel(dest, name)
    case SevenZipWriter => Rel(dest, name)
  }

  /** A directory member creates its directories; a file member is written after its
      parents. */
  function Write(t: Tree, key: Path, m: Member): Tree
  {
    if m.isDir then AddDirs(t, key) else Put(t, key, File(m.data))
  }

  /** The index of the first member the writer refuses. */
  function FirstRefused(w: Writer, dest: Path, members: seq<Member>): (r: Option<nat>)
    ensures r.Some? ==> r.value < |members| && MemberKey(w, dest, members[r.value].name).None?
    ensures r.Some? ==> forall j :: 0 <= j < r.value ==> MemberKey(w, dest, members[j].name).Some?
    ensures r.None? <==> forall j :: 0 <= j < |members| ==> MemberKey(w, dest, members[j].name).Some?
  {
    FirstFailing(members, (m: Member) => MemberKey(w, dest, m.name).Some?)
  }

  /** Writing one member at its key; a refused member changes nothing. */
  function WriteOne(w: Writer, dest: Path, t: Tree, m: Member): Tree
  {
    match MemberKey(w, dest, m.name)
    case None => t
    case Some(k) => Write(t, k, m)
  }

  /** The tree after the members are written in order. */
  function WriteAll(w: Writer, dest: Path, t: Tree, members: seq<Member>): Tree
    decreases |members|
  {
    if |members| == 0 then t
    else WriteOne(w, dest, WriteAll(w, dest, t, members[..|members| - 1]), members[|members| - 1])
  }

  /** The progress reports `(done, total)` after each of the first `count` members. */
  function Steps(count: nat, total: nat): (r: seq<(nat, nat)>)
    ensures |r| == count
    ensures forall i :: 0 <= i < count ==> r[i] == (i + 1, total)
  {
    seq(count, i requires 0 <= i < count => (i + 1, total))
  }

  /** The files, the error that stopped the extraction, and the progress reports made. */
  datatype Extraction = Extraction(files: Tree, failure: Option<Error>, progress: seq<(nat, nat)>)

  /** `_extract_all`: a validating writer writes nothing when a name escapes; the
      members before the first refused one are written; the zip and tar writers report
      after each member, the 7z writer once at the end. */
  function ExtractListing(w: Writer, dest: Path, t: Tree, members: seq<Member>): Extraction
  {
    var escaping := FirstEscaping(dest, Names(members));
    if Validates(w) && escaping.Some? then Extraction(t, Some(PathTraversal(members[escaping.value].name)), [])
    else WriteListing(w, dest, t, members)
  }

  /** The writing phase of `_extract_all`, after any up-front check. */
  function WriteListing(w: Writer, dest: Path, t: Tree, members: seq<Member>): Extraction
  {
    var n := |members|;
    match FirstRefused(w, dest, members)
    case Some(i) =>
      Extraction(WriteAll(w, dest, t, members[..i]), Some(PathTraversal(members[i].name)), if w.SevenZipWriter? then [] else Steps(i, n))
    case None =>
      Extraction(WriteAll(w, dest, t, members), None, if w.SevenZipWriter? then [(n, n)] else Steps(n, n))
  }

  /** A validating writer fails exactly when some name escapes, and then writes and
      reports nothing; the filtered tar writer fails exactly when some member, with its
      leading slashes stripped, escapes. A run that succeeds writes every member. */
  lemma ExtractListingOutcome(w: Writer, dest: Path, t: Tree, members: seq<Member>)
    ensures Validates(w) ==>
      (ExtractListing(w, dest, t, members).failure.Some? <==> exists i :: 0 <= i < |members| && !Inside(dest, members[i].name))
    ensures Validates(w) && ExtractListing(w, dest, t, members).failure.Some? ==>
      ExtractListing(w, dest, t, members).files == t && ExtractListing(w, dest, t, members).progress == []
    ensures !Validates(w) ==>
      (ExtractListing(w, dest, t, members).failure.Some? <==> exists i :: 0 <= i < |members| && Rel(dest, LStrip(members[i].name, '/')).None?)
    ensures ExtractListing(w, dest, t, members).failure.None? ==> ExtractListing(w, dest, t, members).files == WriteAll(w, dest, t, members)
  {
    var names := Names(members);
    if Validates(w) {
      if FirstEscaping(dest, names).Some? {
        assert !Inside(dest, members[FirstEscaping(dest, names).value].name);
      } else {
        forall j | 0 <= j < |members|
          ensures MemberKey(w, dest, members[j].name).Some? && Inside(dest, members[j].name)
        {
          assert names[j] == members[j].name;
        }
      }
    } else {
      if FirstRefused(w, dest, members).Some? {
        assert Rel(dest, LStrip(members[FirstRefused(w, dest, members).value].name, '/')).None?;
      }
    }
  }

  /** A run stopped at its first refused member `i`. */
  lemma WriteListingRefusedAt(w: Writer, dest: Path, t: Tree, members: seq<Member>, i: nat)
    requires i < |members| && MemberKey(w, dest, members[i].name).None?
    requires forall j :: 0 <= j < i ==> MemberKey(w, dest, members[j].name).Some?
    ensures WriteListing(w, dest, t, members) == Extraction(WriteAll(w, dest, t, members[..i]),
      Some(PathTraversal(members[i].name)), if w.SevenZipWriter? then [] else Steps(i, |members|))
  {
    assert FirstRefused(w, dest, members) == Some(i);
  }

  /** A run with no refused member. */
  lemma WriteListingAccepted(w: Writer, dest: Path, t: Tree, members: seq<Member>)
    requires forall j :: 0 <= j < |members| ==> MemberKey(w, dest, members[j].name).Some?
    ensures WriteListing(w, dest, t, members) == Extraction(WriteAll(w, dest, t, members),
      None, if w.SevenZipWriter? then [(|members|, |members|)] else Steps(|members|, |members|))
  {
  }

  method ExtractAll(w: Writer, dest: Path, t: Tree, members: seq<Member>) returns (x: Extraction)
    ensures x == ExtractListing(w, dest, t, members)
  {
    var n := |members|;
    if Validates(w) {
      var check := ValidateEntryPaths(Names(members), dest);
      if check.Err? {
        ghost var k :| 0 <= k < n && !Inside(dest, Names(members)[k]) && check.error == PathTraversal(Names(members)[k])
          && forall j :: 0 <= j < k ==> Inside(dest, Names(members)[j]);
        FirstEscapingIsFirst(dest, Names(members), k);
        return Extraction(t, Some(check.error), []);
      }
    }
    x := WriteEach(w, dest, t, members);
  }

  method WriteEach(w: Writer, dest: Path, t: Tree, members: seq<Member>) returns (x: Extraction)
    ensures x == WriteListing(w, dest, t, members)
  {
    var n := |members|;
    var files, progress, i := WriteUntilRefused(w, dest, t, members);
    if i < n {
      WriteListingRefusedAt(w, dest, t, members, i);
      return Extraction(files, Some(PathTraversal(members[i].name)), if w.SevenZipWriter? then [] else progress);
    }
    assert members[..n] == members;
    WriteListingAccepted(w, dest, t, members);
    if w.SevenZipWriter? {
      progress := [(n, n)];
    }
    return Extraction(files, None, progress);
  }

  /** The loop of `WriteEach`: writes members in order and stops at the first one whose
      key is refused, reporting each member written. */
  method WriteUntilRefused(w: Writer, dest: Path, t: Tree, members: seq<Member>)
    returns (files: Tree, progress: seq<(nat, nat)>, i: nat)
    ensures i <= |members| && files == WriteAll(w, dest, t, members[..i]) && progress == Steps(i, |members|)
    ensures forall j :: 0 <= j < i ==> MemberKey(w, dest, members[j].name).Some?
    ensures i < |members| ==> MemberKey(w, dest, members[i].name).None?
  {
    var n := |members|;
    files := t;
    progress := [];
    i := 0;
    while i < n && MemberKey(w, dest, members[i].name).Some?
      invariant 0 <= i <= n
      invariant files == WriteAll(w, dest, t, members[..i])
      invariant forall j :: 0 <= j < i ==> MemberKey(w, dest, members[j].name).Some?
      invariant progress == Steps(i, n)
    {
      var key := MemberKey(w, dest, members[i].name).value;
      WriteEachStep(w, dest, t, members, i, key);
      files := ExtractMember(files, key, members[i]);
      var report: (nat, nat) := (i + 1, n);
      StepsSnoc(i, n);
      progress := progress + [report];
      i := i + 1;
    }
  }

  /** `archive.extract(member, dest_dir)` once the member's key is known. */
  method ExtractMember(t: Tree, key: Path, m: Member) returns (t': Tree)
    ensures t' == Write(t, key, m)
  {
    if m.isDir {
      t' := AddDirs(t, key);
    } else {
      t' := Put(t, key, File(m.data));
    }
  }

  /** One more accepted member: the invariants of the loop in `WriteEach` for `i + 1`. */
  lemma WriteEachStep(w: Writer, dest: Path, t: Tree, members: seq<Member>, i: nat, key: Path)
    requires i < |members| && MemberKey(w, dest, members[i].name) == Some(key)
    requires forall j :: 0 <= j < i ==> MemberKey(w, dest, members[j].name).Some?
    ensures forall j :: 0 <= j < i + 1 ==> MemberKey(w, dest, members[j].name).Some?
    ensures WriteAll(w, dest, t, members[..i + 1]) == Write(WriteAll(w, dest, t, members[..i]), key, members[i])
  {
    AcceptedSnoc(w, dest, members, i);
    WriteAllSnoc(w, dest, t, members, i);
  }

  lemma AcceptedSnoc(w: Writer, dest: Path, members: seq<Member>, i: nat)
    requires i < |members| && MemberKey(w, dest, members[i].name).Some?
    requires forall j :: 0 <= j < i ==> MemberKey(w, dest, members[j].name).Some?
    ensures forall j :: 0 <= j < i + 1 ==> MemberKey(w, dest, members[j].name).Some?
  {
  }

  lemma StepsSnoc(i: nat, n: nat)
    ensures Steps(i + 1, n) == Steps(i, n) + [(i + 1, n)]
  {
  }

  lemma WriteAllSnoc(w: Writer, dest: Path, t: Tree, members: seq<Member>, i: nat)
    requires i < |members|
    ensures WriteAll(w, dest, t, members[..i + 1]) == WriteOne(w, dest, WriteAll(w, dest, t, members[..i]), members[i])
  {
    assert members[..i + 1][..i] == members[..i];
  }

  /** A zip member whose relative name has no `..` part lands where `_validate_entry_paths` resolved
      it. */
  lemma ZipKeyIsResolvedKey(dest: Path, name: string)
    requires !IsAbsolute(name) && ".." !in Split(name, '/')
    ensures Rel(dest, name) == Some(ZipKey(name))
  {
    var parts := Split(name, '/');
    forall i | 0 <= i < |parts|
      ensures parts[i] != ".."
    {
      assert parts[i] in parts;
    }
    NormalizeWithoutParentSteps(dest, parts);
    assert (dest + ZipKey(name))[|dest|..] == ZipKey(name);
  }

  /** No file member from index `from` on is written at `k` or above it. */
  predicate Unclobbered(w: Writer, dest: Path, members: seq<Member>, from: nat, k: Path)
  {
    forall j :: from <= j < |members| && !members[j].isDir && MemberKey(w, dest, members[j].name).Some? ==> !(k <= MemberKey(w, dest, members[j].name).value)
  }

  /** An entry no member writes over keeps its content. */
  lemma {:induction false} EntryKept(w: Writer, dest: Path, t: Tree, members: seq<Member>, k: Path)
    requires k in t && Unclobbered(w, dest, members, 0, k)
    ensures k in WriteAll(w, dest, t, members) && WriteAll(w, dest, t, members)[k] == t[k]
    decreases |members|
  {
    if |members| > 0 {
      var init := members[..|members| - 1];
      UnclobberedInit(w, dest, members, 0, k);
      EntryKept(w, dest, t, init, k);
      UnclobberedLast(w, dest, members, 0, k);
      WriteOneKeeps(w, dest, WriteAll(w, dest, t, init), members[|members| - 1], k);
    }
  }

  /** A written file member that no later file member writes over or below ends up
      holding the member's data. */
  lemma {:induction false} LastFileWriteLands(w: Writer, dest: Path, t: Tree, members: seq<Member>, i: nat, k: Path)
    requires i < |members| && !members[i].isDir && |k| > 0
    requires MemberKey(w, dest, members[i].name) == Some(k)
    requires Unclobbered(w, dest, members, i + 1, k)
    ensures k in WriteAll(w, dest, t, members) && WriteAll(w, dest, t, members)[k] == File(members[i].data)
    decreases |members|
  {
    var init := members[..|members| - 1];
    if i < |members| - 1 {
      UnclobberedInit(w, dest, members, i + 1, k);
      assert init[i] == members[i];
      LastFileWriteLands(w, dest, t, init, i, k);
      UnclobberedLast(w, dest, members, i + 1, k);
      WriteOneKeeps(w, dest, WriteAll(w, dest, t, init), members[|members| - 1], k);
    }
  }

  /** A file member whose key is the destination itself writes nothing: `Put` never
      replaces the root, so the tree is kept (see "## Left out" in the README). */
  lemma FileAtDestinationIsDropped(w: Writer, dest: Path, t: Tree, m: Member)
    requires !m.isDir && MemberKey(w, dest, m.name) == Some([])
    ensures WriteOne(w, dest, t, m) == t
  {
  }

  /** A zip file member named `.` is such a member: the extraction succeeds, reports
      the member, and leaves the tree as it was. */
  lemma ZipDotMemberIsDropped(dest: Path, t: Tree)
    ensures ExtractListing(ZipWriter, dest, t, [Member(".", false, [1])]) == Extraction(t, None, [(1, 1)])
  {
    var members := [Member(".", false, [1])];
    assert Split(".", '/') == ["."];
    assert ZipKey(".") == [];
    assert Inside(dest, ".");
    assert FirstEscaping(dest, Names(members)).None?;
    assert FirstRefused(ZipWriter, dest, members).None?;
    assert members[..0] == [];
    FileAtDestinationIsDropped(ZipWriter, dest, t, members[0]);
    assert Steps(1, 1) == [(1, 1)];
  }

  lemma UnclobberedInit(w: Writer, dest: Path, members: seq<Member>, from: nat, k: Path)
    requires |members| > 0 && Unclobbered(w, dest, members, from, k)
    ensures Unclobbered(w, dest, members[..|members| - 1], from, k)
  {
    var init := members[..|members| - 1];
    forall j | 0 <= j < |init|
      ensures init[j] == members[j]
    {
    }
  }

  lemma UnclobberedLast(w: Writer, dest: Path, members: seq<Member>, from: nat, k: Path)
    requires from < |members| && Unclobbered(w, dest, members, from, k)
    ensures var m := members[|members| - 1];
      !m.isDir && MemberKey(w, dest, m.name).Some? ==> !(k <= MemberKey(w, dest, m.name).value)
  {
  }

  /** A member that does not write a file over or above `k` keeps the entry at `k`. */
  lemma WriteOneKeeps(w: Writer, dest: Path, t: Tree, m: Member, k: Path)
    requires k in t
    requires !m.isDir && MemberKey(w, dest, m.name).Some? ==> !(k <= MemberKey(w, dest, m.name).value)
    ensures k in WriteOne(w, dest, t, m) && WriteOne(w, dest, t, m)[k] == t[k]
  {
  }

  // ----- extract_dir relocation -----

  /** The entries strictly below `src`, keyed relative to `src`. */
  function Below(t: Tree, src: Path): (m: Tree)
    ensures forall k :: k in m ==> |k| > 0 && src + k in t && m[k] == t[src + k]
    ensures forall k :: |k| > 0 && src + k in t ==> k in m
  {
    var keys := set q | q in t && |src| < |q| && q[..|src|] == src :: q[|src|..];
    assert forall k :: k in keys ==> src + k in t by {
      forall k | k in keys
        ensures src + k in t
      {
        var q :| q in t && |src| < |q| && q[..|src|] == src && k == q[|src|..];
        assert q == src + k;
      }
    }
    map k | k in keys :: t[src + k]
  }

  /** Where `shutil.move(src / c, dest / c)` puts the child `c` of `src`, or `None` when
      it raises. A free name is taken as it is. An existing directory receives the child
      inside it, as `c/c`, and raises when that exists already. An existing file is
      replaced by a file child; a directory child raises. */
  function MoveTarget(t: Tree, src: Path, c: string): (r: Option<Path>)
    requires IsComponent(c)
    ensures r.Some? ==> r.value == [c] || r.value == [c, c]
  {
    var dst: Path := [c];
    if dst !in t then Some(dst)
    else if t[dst].Dir? then (if [c, c] in t then None else Some([c, c]))
    else if src + [c] in t && t[src + [c]].File? then Some(dst)
    else None
  }

  /** Every child of `src` can be moved up. */
  predicate MovesCleanly(t: Tree, src: Path)
  {
    forall k :: k in Below(t, src) ==> MoveTarget(t, src, k[0]).Some?
  }

  /** Where the entry `src + k` lands once its top-level child has moved. */
  function Landing(t: Tree, src: Path, k: Path): Path
    requires |k| > 0 && MoveTarget(t, src, k[0]).Some?
  {
    MoveTarget(t, src, k[0]).value + k[1..]
  }

  /** Two entries never land on the same place: the first component of a landing is
      the child it came from. */
  lemma LandingInjective(t: Tree, src: Path, k1: Path, k2: Path)
    requires |k1| > 0 && MoveTarget(t, src, k1[0]).Some?
    requires |k2| > 0 && MoveTarget(t, src, k2[0]).Some?
    requires Landing(t, src, k1) == Landing(t, src, k2)
    ensures k1 == k2
  {
    var l := Landing(t, src, k1);
    assert l[0] == k1[0] && l[0] == k2[0];
    var n := |MoveTarget(t, src, k1[0]).value|;
    assert k1[1..] == l[n..] == k2[1..];
    assert k1 == [k1[0]] + k1[1..] && k2 == [k2[0]] + k2[1..];
  }

  /** The entries below `src` at their new places. */
  function Moved(t: Tree, src: Path): (m: Tree)
    requires MovesCleanly(t, src)
  {
    var b := Below(t, src);
    assert forall k1, k2 :: k1 in b && k2 in b && Landing(t, src, k1) == Landing(t, src, k2) ==> k1 == k2 by {
      forall k1, k2 | k1 in b && k2 in b && Landing(t, src, k1) == Landing(t, src, k2)
        ensures k1 == k2
      {
        LandingInjective(t, src, k1, k2);
      }
    }
    map k | k in b :: Landing(t, src, k) := b[k]
  }

  /** Every entry below `src` is at its landing place, and nothing else is moved. */
  lemma MovedContents(t: Tree, src: Path)
    requires MovesCleanly(t, src)
    ensures forall k :: k in Below(t, src) ==> Landing(t, src, k) in Moved(t, src) && Moved(t, src)[Landing(t, src, k)] == Below(t, src)[k]
    ensures forall q :: q in Moved(t, src) ==> exists k :: k in Below(t, src) && Landing(t, src, k) == q
  {
    var b := Below(t, src);
    var m := Moved(t, src);
    forall k | k in b
      ensures Landing(t, src, k) in m && m[Landing(t, src, k)] == b[k]
    {
      assert Landing(t, src, k) in m;
      var k' :| k' in b && Landing(t, src, k') == Landing(t, src, k) && m[Landing(t, src, k)] == b[k'];
      LandingInjective(t, src, k, k');
    }
  }

  /** The entries outside `src`, which relocation leaves where they are. */
  function Outside(t: Tree, src: Path): Tree
  {
    map q | q in t && !(src <= q) :: t[q]
  }

  /** `_relocate_extract_dir`: an escaping or missing directory is refused; otherwise each
      child is moved up with `shutil.move` and the emptied directory is removed. */
  function Relocate(t: Tree, dest: Path, extractDir: string): (r: Result<Tree>)
    ensures Rel(dest, extractDir).None? ==> r == Err(ExtractDirEscapes(extractDir))
    ensures Rel(dest, extractDir) == Some([]) ==> r == Err(ExtractDirIsDestination(extractDir))
    ensures Rel(dest, extractDir).Some? && Rel(dest, extractDir) != Some([]) ==>
      var src := Rel(dest, extractDir).value;
      && (!(src in t && t[src].Dir?) ==> r == Err(ExtractDirNotFound(extractDir)))
      && (src in t && t[src].Dir? && !MovesCleanly(t, src) ==> r == Err(ExtractDirCollision(extractDir)))
      && (r.Ok? <==> src in t && t[src].Dir? && MovesCleanly(t, src))
  {
    match Rel(dest, extractDir)
    case None => Err(ExtractDirEscapes(extractDir))
    case Some(src) =>
      if src == [] then Err(ExtractDirIsDestination(extractDir))
      else if !(src in t && t[src].Dir?) then Err(ExtractDirNotFound(extractDir))
      else if !MovesCleanly(t, src) then Err(ExtractDirCollision(extractDir))
      else Ok(Outside(t, src) + Moved(t, src))
  }

  /** After a successful relocation every entry below the directory is at its landing
      place, every entry outside it that nothing lands on is kept, and there is nothing
      else: the directory itself is gone. */
  lemma RelocateMoves(t: Tree, dest: Path, extractDir: string)
    requires Relocate(t, dest, extractDir).Ok?
    ensures var src := Rel(dest, extractDir).value; var r := Relocate(t, dest, extractDir).value;
      && (forall k :: k in Below(t, src) ==> Landing(t, src, k) in r && r[Landing(t, src, k)] == Below(t, src)[k])
      && (forall q :: q in t && !(src <= q) && q !in Moved(t, src) ==> q in r && r[q] == t[q])
      && (forall q :: q in r ==> (q in t && !(src <= q)) || q in Moved(t, src))
  {
    var src := Rel(dest, extractDir).value;
    MovedContents(t, src);
  }

  /** A name of one plain component is relocated from the child of that name. */
  lemma RelOfComponent(dest: Path, w: string)
    requires IsComponent(w) && '/' !in w
    ensures Rel(dest, w) == Some([w])
  {
    assert Split(w, '/') == [w];
    assert ".." !in Split(w, '/');
    PlainRelativeNameStaysInside(dest, w);
    ZipKeyIsResolvedKey(dest, w);
    assert [w][1..] == [];
    assert ZipKey(w) == [w];
  }

  /** A child `w` of `w`, moved up, would land on `w` itself, which still holds it. */
  lemma SameNameChildCollides(t: Tree, w: string)
    requires IsComponent(w) && [w] in t && t[[w]].Dir? && [w, w] in t
    ensures !MovesCleanly(t, [w])
  {
    assert [w] + [w] == [w, w];
    assert [w, w][1..] == [w];
    assert [w] in Below(t, [w]);
    assert MoveTarget(t, [w], w).None?;
  }

  /** When every entry is below `w` and `w` has no child `w`, each child of `w` moves to
      the top level, where nothing of its name is. */
  lemma UnwrapLandsInPlace(t: Tree, w: string)
    requires IsComponent(w)
    requires forall q :: q in t ==> |q| > 0 && q[0] == w
    requires forall q :: q in t ==> |q| < 2 || q[1] != w
    ensures MovesCleanly(t, [w])
    ensures forall k :: k in Below(t, [w]) ==> Landing(t, [w], k) == k
  {
    forall k | k in Below(t, [w])
      ensures MoveTarget(t, [w], k[0]) == Some([k[0]]) && Landing(t, [w], k) == k
    {
      UnwrapChildIsFree(t, w, k);
      assert [k[0]] + k[1..] == k;
    }
  }

  /** A child of `w` other than `w` finds its name free at the top level. */
  lemma UnwrapChildIsFree(t: Tree, w: string, k: Path)
    requires IsComponent(w)
    requires forall q :: q in t ==> |q| > 0 && q[0] == w
    requires forall q :: q in t ==> |q| < 2 || q[1] != w
    requires |k| > 0 && [w] + k in t
    ensures MoveTarget(t, [w], k[0]) == Some([k[0]])
  {
    assert ([w] + k)[1] == k[0];
    assert [k[0]] !in t;
  }

  /** When every entry is below `w`, nothing stays outside it. */
  lemma UnwrapLeavesNothingOutside(t: Tree, w: string)
    requires IsComponent(w)
    requires forall q :: q in t ==> |q| > 0 && q[0] == w
    ensures Outside(t, [w]) == map[]
  {
    forall q | q in t
      ensures [w] <= q
    {
      assert q[..1] == [w];
    }
  }

  /** Moving every entry to where it was, one level up, gives the directory's contents. */
  lemma MovedInPlace(t: Tree, w: string)
    requires IsComponent(w)
    requires MovesCleanly(t, [w])
    requires forall k :: k in Below(t, [w]) ==> Landing(t, [w], k) == k
    ensures Moved(t, [w]) == Below(t, [w])
  {
    MovedContents(t, [w]);
    var b := Below(t, [w]);
    var m := Moved(t, [w]);
    assert forall k :: k in b ==> |k| > 0 && MoveTarget(t, [w], k[0]).Some?;
    MovedCoversBelow(b, m, t, w);
    MovedWithinBelow(b, m, t, w);
    SameEntries(m, b);
  }

  /** Two trees with the same entries are equal. */
  lemma SameEntries(m: Tree, b: Tree)
    requires forall q :: q in b ==> q in m && m[q] == b[q]
    requires forall q :: q in m ==> q in b
    ensures m == b
  {
    assert m.Keys == b.Keys;
  }

  lemma MovedCoversBelow(b: Tree, m: Tree, t: Tree, w: string)
    requires IsComponent(w) && forall k :: k in b ==> |k| > 0 && MoveTarget(t, [w], k[0]).Some?
    requires forall k :: k in b ==> Landing(t, [w], k) in m && m[Landing(t, [w], k)] == b[k]
    requires forall k :: k in b ==> Landing(t, [w], k) == k
    ensures forall q :: q in b ==> q in m && m[q] == b[q]
  {
  }

  lemma MovedWithinBelow(b: Tree, m: Tree, t: Tree, w: string)
    requires IsComponent(w) && forall k :: k in b ==> |k| > 0 && MoveTarget(t, [w], k[0]).Some?
    requires forall q :: q in m ==> exists k :: k in b && Landing(t, [w], k) == q
    requires forall k :: k in b ==> Landing(t, [w], k) == k
    ensures forall q :: q in m ==> q in b
  {
    forall q | q in m
      ensures q in b
    {
      var k :| k in b && Landing(t, [w], k) == q;
    }
  }

  /** When every entry is below `w` and `w` has no child `w`, what relocation keeps and
      adds is just what `w` held. */
  lemma UnwrapInPlace(t: Tree, w: string)
    requires IsComponent(w)
    requires forall q :: q in t ==> |q| > 0 && q[0] == w
    requires forall q :: q in t ==> |q| < 2 || q[1] != w
    ensures MovesCleanly(t, [w])
    ensures Outside(t, [w]) + Moved(t, [w]) == Below(t, [w])
  {
    UnwrapLandsInPlace(t, w);
    UnwrapLeavesNothingOutside(t, w);
    MovedInPlace(t, w);
    EmptyUnion(Outside(t, [w]), Below(t, [w]));
  }

  lemma EmptyUnion(a: Tree, b: Tree)
    requires a == map[]
    ensures a + b == b
  {
    assert (a + b).Keys == b.Keys;
  }

  /** Relocating a directory that collides with nothing keeps what is outside it and adds
      what is moved. */
  lemma RelocateOk(t: Tree, dest: Path, extractDir: string, src: Path)
    requires Rel(dest, extractDir) == Some(src) && src != []
    requires src in t && t[src].Dir? && MovesCleanly(t, src)
    ensures Relocate(t, dest, extractDir) == Ok(Outside(t, src) + Moved(t, src))
  {
  }

  /** An archive with one top-level directory `w`, relocated by `extract_dir = w`, has
      exactly that directory's contents, one level up, when `w` has no child of its own
      name; when it has one, the move of that child raises. */
  lemma RelocateUnwrapsSingleTopDir(t: Tree, dest: Path, w: string)
    requires IsComponent(w) && '/' !in w
    requires [w] in t && t[[w]].Dir?
    requires forall q :: q in t ==> |q| > 0 && q[0] == w
    ensures [w, w] in t ==> Relocate(t, dest, w) == Err(ExtractDirCollision(w))
    ensures (forall q :: q in t ==> |q| < 2 || q[1] != w) ==> Relocate(t, dest, w) == Ok(Below(t, [w]))
  {
    RelOfComponent(dest, w);
    if [w, w] in t {
      SameNameChildCollides(t, w);
    }
    if forall q :: q in t ==> |q| < 2 || q[1] != w {
      UnwrapInPlace(t, w);
      RelocateOk(t, dest, w, [w]);
    }
  }

  // ----- conda packages -----

  /** One entry of an `info` tarball: its name, whether it is a regular file, and for a
      paths document its decoded JSON. */
  datatype InfoMember = InfoMember(name: string, isFile: bool, doc: PathsDoc)

  /** The decoded `paths.json` document: the optional `paths` list of string objects. */
  datatype PathsDoc = PathsDoc(paths: Option<seq<map<string, string>>>)

  /** One `*.tar.zst` member of the outer zip, decompressed: as archive members when it
      is extracted and as info entries when its paths document is read. */
  datatype CondaPart = CondaPart(name: string, members: seq<Member>, info: seq<InfoMember>)

  /** What an archive file decodes to. */
  datatype Payload = Listing(members: seq<Member>) | CondaZip(parts: seq<CondaPart>) | Unreadable

  /** The entries `_parse_conda_patches` turns into patches: those with both a
      placeholder and a file mode. */
  predicate IsPatchable(e: map<string, string>)
  {
    "prefix_placeholder" in e && "file_mode" in e
  }

  function Patchable(entries: seq<map<string, string>>): (r: seq<map<string, string>>)
    ensures forall e :: e in r ==> e in entries && IsPatchable(e)
    ensures forall e :: e in entries && IsPatchable(e) ==> e in r
    ensures |r| <= |entries|
  {
    if |entries| == 0 then []
    else if IsPatchable(entries[0]) then [entries[0]] + Patchable(entries[1..])
    else Patchable(entries[1..])
  }

  /** The list comprehension of `_parse_conda_patches`: a kept entry without `_path`
      raises. */
  function PatchesOf(entries: seq<map<string, string>>): Result<seq<Poker.PatchEntry>>
    decreases |entries|
  {
    if |entries| == 0 then Ok([])
    else
      var rest := PatchesOf(entries[1..]);
      var e := entries[0];
      if !IsPatchable(e) then rest
      else if "_path" !in e then Err(MissingPathKey)
      else if rest.Err? then rest
      else Ok([PatchOf(e)] + rest.value)
  }

  /** The patch of one kept entry. */
  function PatchOf(e: map<string, string>): Poker.PatchEntry
    requires IsPatchable(e) && "_path" in e
  {
    Poker.PatchEntry(e["_path"], e["prefix_placeholder"], e["file_mode"])
  }

  /** The comprehension fails exactly when a kept entry has no `_path`; otherwise it has
      one patch per kept entry, in order. */
  lemma {:induction false} PatchesOfMeaning(entries: seq<map<string, string>>)
    ensures PatchesOf(entries).Err? <==> exists i :: 0 <= i < |Patchable(entries)| && "_path" !in Patchable(entries)[i]
    ensures PatchesOf(entries).Err? ==> PatchesOf(entries).error == MissingPathKey
    ensures PatchesOf(entries).Ok? ==> |PatchesOf(entries).value| == |Patchable(entries)|
    ensures PatchesOf(entries).Ok? ==> forall i :: 0 <= i < |Patchable(entries)| ==> "_path" in Patchable(entries)[i] && PatchesOf(entries).value[i] == PatchOf(Patchable(entries)[i])
    decreases |entries|
  {
    if |entries| > 0 {
      PatchesOfMeaning(entries[1..]);
      var e := entries[0];
      var rest := Patchable(entries[1..]);
      if IsPatchable(e) {
        assert Patchable(entries) == [e] + rest;
        assert forall i :: 0 < i < |Patchable(entries)| ==> Patchable(entries)[i] == rest[i - 1];
        if PatchesOf(entries[1..]).Err? {
          var i :| 0 <= i < |rest| && "_path" !in rest[i];
          assert Patchable(entries)[i + 1] == rest[i];
        }
      } else {
        assert Patchable(entries) == rest;
      }
    }
  }

  /** The patch list of two runs of entries is the two patch lists in order. */
  lemma {:induction false} PatchesOfAppend(a: seq<map<string, string>>, b: seq<map<string, string>>)
    requires PatchesOf(a).Ok? && PatchesOf(b).Ok?
    ensures PatchesOf(a + b) == Ok(PatchesOf(a).value + PatchesOf(b).value)
    decreases |a|
  {
    if |a| == 0 {
      assert a + b == b;
      assert PatchesOf(a).value + PatchesOf(b).value == PatchesOf(b).value;
    } else {
      assert (a + b)[0] == a[0] && (a + b)[1..] == a[1..] + b;
      PatchesOfAppend(a[1..], b);
      if IsPatchable(a[0]) {
        assert ([PatchOf(a[0])] + PatchesOf(a[1..]).value) + PatchesOf(b).value
          == [PatchOf(a[0])] + (PatchesOf(a[1..]).value + PatchesOf(b).value);
      }
    }
  }

  /** The first regular file whose name ends with `paths.json`. */
  function FirstPathsDoc(info: seq<InfoMember>): (r: Option<nat>)
    ensures r.Some? ==> r.value < |info| && info[r.value].isFile && EndsWith(info[r.value].name, "paths.json")
    ensures r.Some? ==> forall j :: 0 <= j < r.value ==> !(info[j].isFile && EndsWith(info[j].name, "paths.json"))
    ensures r.None? <==> forall j :: 0 <= j < |info| ==> !(info[j].isFile && EndsWith(info[j].name, "paths.json"))
    decreases |info|
  {
    if |info| == 0 then None
    else if info[0].isFile && EndsWith(info[0].name, "paths.json") then Some(0)
    else match FirstPathsDoc(info[1..])
      case None => None
      case Some(i) => Some(i + 1)
  }

  /** `_parse_conda_patches`: no paths document, or one without `paths`, gives no patches. */
  function ParseCondaPatches(info: seq<InfoMember>): (r: Result<seq<Poker.PatchEntry>>)
    ensures FirstPathsDoc(info).None? ==> r == Ok([])
    ensures FirstPathsDoc(info).Some? && info[FirstPathsDoc(info).value].doc.paths.None? ==> r == Ok([])
    ensures FirstPathsDoc(info).Some? && info[FirstPathsDoc(info).value].doc.paths.Some? ==>
      r == PatchesOf(info[FirstPathsDoc(info).value].doc.paths.value)
  {
    match FirstPathsDoc(info)
    case None => Ok([])
    case Some(i) =>
      match info[i].doc.paths
      case None => Ok([])
      case Some(entries) => PatchesOf(entries)
  }

  datatype PartKind = InfoPart | PkgPart

  predicate IsPart(kind: PartKind, name: string)
  {
    (if kind == InfoPart then "info-" else "pkg-") <= name && EndsWith(name, ".tar.zst")
  }

  function FirstPart(kind: PartKind, parts: seq<CondaPart>): (r: Option<nat>)
    ensures r.Some? ==> r.value < |parts| && IsPart(kind, parts[r.value].name)
    ensures r.Some? ==> forall j :: 0 <= j < r.value ==> !IsPart(kind, parts[j].name)
    ensures r.None? <==> forall j :: 0 <= j < |parts| ==> !IsPart(kind, parts[j].name)
    decreases |parts|
  {
    if |parts| == 0 then None
    else if IsPart(kind, parts[0].name) then Some(0)
    else match FirstPart(kind, parts[1..])
      case None => None
      case Some(i) => Some(i + 1)
  }

  /** The patches `_parse_conda_patches` reads from the package's info part; a package
      without one has none. */
  function CondaPatches(parts: seq<CondaPart>): (r: Result<seq<Poker.PatchEntry>>)
    ensures FirstPart(InfoPart, parts).None? ==> r == Ok([])
  {
    match FirstPart(InfoPart, parts)
    case None => Ok([])
    case Some(i) => ParseCondaPatches(parts[i].info)
  }

  /** `_extract_conda` followed by the single `(1, 1)` report: the patches are read
      before the package is unpacked, and poking runs only when there are patches. A
      package without a pkg part, or whose patches do not parse, writes nothing; an
      unpacking that fails stops before the poke; otherwise the unpacked files are poked
      with the install directory as the new prefix, which for no patches changes
      nothing. */
  function ExtractConda(archiveName: string, dest: Path, t: Tree, parts: seq<CondaPart>, dataFilter: bool): (x: Extraction)
    ensures FirstPart(PkgPart, parts).None? ==> x == Extraction(t, Some(InvalidConda(BaseName(archiveName))), [])
    ensures FirstPart(PkgPart, parts).Some? && CondaPatches(parts).Err? ==> x == Extraction(t, Some(CondaPatches(parts).error), [])
    ensures FirstPart(PkgPart, parts).Some? && CondaPatches(parts).Ok? ==>
      var unpacked := ExtractListing(TarWriter(dataFilter), dest, t, parts[FirstPart(PkgPart, parts).value].members);
      var poked := Poker.PokeAll(unpacked.files, dest, CondaPatches(parts).value);
      && (unpacked.failure.Some? ==> x == Extraction(unpacked.files, unpacked.failure, []))
      && (unpacked.failure.None? ==> x.files == poked.files && x.failure == poked.failure)
    ensures x.failure.None? ==> x.progress == [(1, 1)]
    ensures x.failure.Some? ==> x.progress == []
  {
    match FirstPart(PkgPart, parts)
    case None => Extraction(t, Some(InvalidConda(BaseName(archiveName))), [])
    case Some(p) =>
      var patches := CondaPatches(parts);
      if patches.Err? then Extraction(t, Some(patches.error), [])
      else
        var unpacked := ExtractListing(TarWriter(dataFilter), dest, t, parts[p].members);
        if unpacked.failure.Some? then Extraction(unpacked.files, unpacked.failure, [])
        else if |patches.value| == 0 then Extraction(unpacked.files, None, [(1, 1)])
        else
          var poked := Poker.PokeAll(unpacked.files, dest, patches.value);
          Extraction(poked.files, poked.failure, if poked.failure.None? then [(1, 1)] else [])
  }

  /** A package without a paths document is unpacked without patching. */
  lemma CondaWithoutPatchesIsUnpackOnly(archiveName: string, dest: Path, t: Tree, parts: seq<CondaPart>, dataFilter: bool)
    requires FirstPart(PkgPart, parts).Some?
    requires FirstPart(InfoPart, parts).Some? ==> FirstPathsDoc(parts[FirstPart(InfoPart, parts).value].info).None?
    ensures ExtractConda(archiveName, dest, t, parts, dataFilter).files
      == ExtractListing(TarWriter(dataFilter), dest, t, parts[FirstPart(PkgPart, parts).value].members).files
  {
  }

  /** The extraction by the writer of the detected format; a payload of another kind is
      a corrupt archive. */
  function Unpacked(format: Format, archiveName: string, payload: Payload, dest: Path, t: Tree, dataFilter: bool): (x: Extraction)
    ensures format == CondaFormat && payload.CondaZip? ==> x == ExtractConda(archiveName, dest, t, payload.parts, dataFilter)
    ensures format == ZipFormat && payload.Listing? ==> x == ExtractListing(ZipWriter, dest, t, payload.members)
    ensures format.TarFormat? && payload.Listing? ==> x == ExtractListing(TarWriter(dataFilter), dest, t, payload.members)
    ensures format == SevenZipFormat && payload.Listing? ==> x == ExtractListing(SevenZipWriter, dest, t, payload.members)
    ensures (format == CondaFormat) != payload.CondaZip? || payload.Unreadable? ==>
      x == Extraction(t, Some(CorruptArchive(BaseName(archiveName))), [])
  {
    match (format, payload)
    case (CondaFormat, CondaZip(parts)) => ExtractConda(archiveName, dest, t, parts, dataFilter)
    case (ZipFormat, Listing(members)) => ExtractListing(ZipWriter, dest, t, members)
    case (TarFormat(_), Listing(members)) => ExtractListing(TarWriter(dataFilter), dest, t, members)
    case (SevenZipFormat, Listing(members)) => ExtractListing(SevenZipWriter, dest, t, members)
    case _ => Extraction(t, Some(CorruptArchive(BaseName(archiveName))), [])
  }

  /** `extract_archive`: the format is detected from the name, the payload must be of
      that kind, and a truthy `extract_dir` is relocated after a successful extraction.
      An empty or missing `extract_dir`, or a failed extraction, leaves the extraction
      as it is; a relocation that fails keeps the extracted files and the reports. */
  function ExtractArchive(archiveName: string, payload: Payload, dest: Path, t: Tree, extractDir: Option<string>, dataFilter: bool): (x: Extraction)
    ensures DetectFormat(archiveName).Err? ==> x == Extraction(t, Some(DetectFormat(archiveName).error), [])
    ensures DetectFormat(archiveName).Ok? && payload.Unreadable? ==>
      x == Extraction(t, Some(CorruptArchive(BaseName(archiveName))), [])
    ensures DetectFormat(archiveName).Ok? ==>
      var u := Unpacked(DetectFormat(archiveName).value, archiveName, payload, dest, t, dataFilter);
      && (u.failure.Some? || !Truthy(extractDir) ==> x == u)
      && (u.failure.None? && Truthy(extractDir) && Relocate(u.files, dest, extractDir.value).Ok? ==>
        x == Extraction(Relocate(u.files, dest, extractDir.value).value, None, u.progress))
      && (u.failure.None? && Truthy(extractDir) && Relocate(u.files, dest, extractDir.value).Err? ==>
        x == Extraction(u.files, Some(Relocate(u.files, dest, extractDir.value).error), u.progress))
  {
    match DetectFormat(archiveName)
    case Err(e) => Extraction(t, Some(e), [])
    case Ok(format) =>
      var x := Unpacked(format, archiveName, payload, dest, t, dataFilter);
      if x.failure.Some? || !Truthy(extractDir) then x
      else match Relocate(x.files, dest, extractDir.value)
        case Err(e) => Extraction(x.files, Some(e), x.progress)
        case Ok(moved) => Extraction(moved, None, x.progress)
  }

  /** An empty `extract_dir` is falsy: nothing is relocated, as when there is none. */
  lemma EmptyExtractDirIsNone(archiveName: string, payload: Payload, dest: Path, t: Tree, dataFilter: bool)
    ensures ExtractArchive(archiveName, payload, dest, t, Some(""), dataFilter)
      == ExtractArchive(archiveName, payload, dest, t, None, dataFilter)
  {
  }

  /** A zip whose names all stay inside, with no `extract_dir`, succeeds with one report
      per member. */
  lemma SafeZipSucceeds(archiveName: string, members: seq<Member>, dest: Path, t: Tree)
    requires DetectFormat(archiveName) == Ok(ZipFormat)
    requires forall i :: 0 <= i < |members| ==> Inside(dest, members[i].name)
    ensures ExtractArchive(archiveName, Listing(members), dest, t, None, false).failure.None?
    ensures ExtractArchive(archiveName, Listing(members), dest, t, None, false).progress
      == Steps(|members|, |members|)
  {
    ZipWithoutRelocation(archiveName, members, dest, t);
    assert FirstEscaping(dest, Names(members)).None?;
    assert FirstRefused(ZipWriter, dest, members).None?;
  }

  /** A zip with no `extract_dir` is just its listing's extraction. */
  lemma ZipWithoutRelocation(archiveName: string, members: seq<Member>, dest: Path, t: Tree)
    requires DetectFormat(archiveName) == Ok(ZipFormat)
    ensures ExtractArchive(archiveName, Listing(members), dest, t, None, false) == ExtractListing(ZipWriter, dest, t, members)
  {
  }

  /** A zip with an escaping name writes nothing. */
  lemma EscapingZipWritesNothing(archiveName: string, members: seq<Member>, dest: Path, t: Tree, extractDir: Option<string>, i: nat)
    requires DetectFormat(archiveName) == Ok(ZipFormat)
    requires i < |members| && !Inside(dest, members[i].name)
    ensures ExtractArchive(archiveName, Listing(members), dest, t, extractDir, false).files == t
    ensures ExtractArchive(archiveName, Listing(members), dest, t, extractDir, false).failure.Some?
  {
    assert Names(members)[i] == members[i].name;
  }
}
