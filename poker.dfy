/** Prefix patching of extracted conda packages: every listed file has the build-time
    placeholder prefix replaced by the install directory, as text or as null-padded
    bytes. */
module Poker {
  import opened Base
  import opened Text
  import opened Paths
  import opened Fs

  /** One file that needs its prefix replaced. */
  datatype PatchEntry = PatchEntry(path: string, prefixPlaceholder: string, fileMode: string)

  const CR: byte := 13
  const LF: byte := 10

  /** Reading in universal-newline mode: `\r\n` and a lone `\r` both become `\n`. */
  function ReadText(data: Bytes): (r: Bytes)
    ensures CR !in r
    ensures |r| <= |data|
    decreases |data|
  {
    if |data| == 0 then []
    else if data[0] == CR then [LF] + ReadText(if |data| > 1 && data[1] == LF then data[2..] else data[1..])
    else [data[0]] + ReadText(data[1..])
  }

  /** Content without carriage returns is read as it is. */
  lemma {:induction false} ReadTextWithoutCR(data: Bytes)
    requires CR !in data
    ensures ReadText(data) == data
    decreases |data|
  {
    if |data| > 0 {
      assert data[0] != CR;
      assert forall i :: 0 <= i < |data[1..]| ==> data[1..][i] == data[i + 1];
      ReadTextWithoutCR(data[1..]);
      assert data == [data[0]] + data[1..];
    }
  }

  /** `s.replace("\\", "/")`. */
  function Slashed(s: string): string
  {
    Replace(s, ['\\'], ['/'])
  }

  /** `_poke_text`: the placeholder is replaced by the new prefix in the text read from
      the file, and, when the placeholder holds a backslash, its forward-slash spelling
      by the forward-slash spelling of the new prefix. The text is kept as its UTF-8
      bytes. A non-empty placeholder can only match where a decoded character starts,
      because its encoding starts with a byte that is no continuation byte; an empty
      one inserts the new prefix at every character boundary. */
  function PokeText(data: Bytes, placeholder: string, newPrefix: string): Bytes
  {
    var text := ReadText(data);
    if placeholder == "" then InsertAtChars(text, Utf8(newPrefix))
    else
      var updated := Replace(text, Utf8(placeholder), Utf8(newPrefix));
      if '\\' in placeholder then Replace(updated, Utf8(Slashed(placeholder)), Utf8(Slashed(newPrefix)))
      else updated
  }

  /** `content.count(placeholder)` on the decoded text: an empty placeholder occurs
      before every character and once at the end. */
  function TextOccurrences(data: Bytes, placeholder: string): nat
  {
    if placeholder == "" then CharCount(data) + 1 else Occurrences(data, Utf8(placeholder))
  }

  /** `new + b"\x00" * (n - len(new))`. */
  function Padded(newBytes: Bytes, n: nat): (r: Bytes)
    requires |newBytes| <= n
    ensures |r| == n && r[..|newBytes|] == newBytes
    ensures forall i :: |newBytes| <= i < n ==> r[i] == 0
  {
    newBytes + seq(n - |newBytes|, _ => 0 as byte)
  }

  /** `_poke_binary`: a new prefix longer than the placeholder (in UTF-8 bytes) is an
      error raised before the file is read; otherwise every occurrence is overwritten by
      the new prefix padded with null bytes to the placeholder's length. */
  function PokeBinary(data: Bytes, placeholder: string, newPrefix: string, targetName: string): (r: Result<Bytes>)
    ensures r.Err? <==> |Utf8(newPrefix)| > |Utf8(placeholder)|
    ensures r.Err? ==> r.error == PrefixTooLong(targetName, |Utf8(newPrefix)|, |Utf8(placeholder)|)
  {
    var placeholderBytes := Utf8(placeholder);
    var newBytes := Utf8(newPrefix);
    if |newBytes| > |placeholderBytes| then
      Err(PrefixTooLong(targetName, |newBytes|, |placeholderBytes|))
    else
      var updated := Replace(data, placeholderBytes, Padded(newBytes, |placeholderBytes|));
      if '\\' in placeholder then
        var fwdPlaceholder := Utf8(Slashed(placeholder));
        var fwdNew := Utf8(Slashed(newPrefix));
        AsciiSwapKeepsUtf8Length(placeholder, '\\', '/');
        AsciiSwapKeepsUtf8Length(newPrefix, '\\', '/');
        Ok(Replace(updated, fwdPlaceholder, Padded(fwdNew, |fwdPlaceholder|)))
      else
        Ok(updated)
  }

  /** A binary poke never changes the file's size. */
  lemma BinaryPokeKeepsSize(data: Bytes, placeholder: string, newPrefix: string, targetName: string)
    requires PokeBinary(data, placeholder, newPrefix, targetName).Ok?
    ensures |PokeBinary(data, placeholder, newPrefix, targetName).value| == |data|
  {
    var placeholderBytes := Utf8(placeholder);
    var newBytes := Utf8(newPrefix);
    var updated := Replace(data, placeholderBytes, Padded(newBytes, |placeholderBytes|));
    SameLengthReplace(data, placeholderBytes, Padded(newBytes, |placeholderBytes|));
    if '\\' in placeholder {
      var fwdPlaceholder := Utf8(Slashed(placeholder));
      var fwdNew := Utf8(Slashed(newPrefix));
      AsciiSwapKeepsUtf8Length(placeholder, '\\', '/');
      AsciiSwapKeepsUtf8Length(newPrefix, '\\', '/');
      SameLengthReplace(updated, fwdPlaceholder, Padded(fwdNew, |fwdPlaceholder|));
    }
  }

  /** A binary poke of a file that holds neither spelling of the placeholder leaves it
      unchanged. */
  lemma BinaryPokeWithoutPlaceholder(data: Bytes, placeholder: string, newPrefix: string, targetName: string)
    requires |placeholder| > 0 && |Utf8(newPrefix)| <= |Utf8(placeholder)|
    requires !Contains(data, Utf8(placeholder))
    requires '\\' in placeholder ==> !Contains(data, Utf8(Slashed(placeholder)))
    ensures PokeBinary(data, placeholder, newPrefix, targetName) == Ok(data)
  {
    var placeholderBytes := Utf8(placeholder);
    assert |EncodeChar(placeholder[0])| >= 1;
    ReplaceAbsent(data, placeholderBytes, Padded(Utf8(newPrefix), |placeholderBytes|));
    if '\\' in placeholder {
      var fwdPlaceholder := Utf8(Slashed(placeholder));
      AsciiSwapKeepsUtf8Length(placeholder, '\\', '/');
      AsciiSwapKeepsUtf8Length(newPrefix, '\\', '/');
      ReplaceAbsent(data, fwdPlaceholder, Padded(Utf8(Slashed(newPrefix)), |fwdPlaceholder|));
    }
  }

  /** A text poke of a placeholder without backslashes changes the length by the
      difference of the two prefixes for each occurrence, and nothing else. */
  lemma TextPokeLength(data: Bytes, placeholder: string, newPrefix: string)
    requires CR !in data && '\\' !in placeholder
    ensures |PokeText(data, placeholder, newPrefix)|
      == |data| + TextOccurrences(data, placeholder) * (|Utf8(newPrefix)| - |Utf8(placeholder)|)
  {
    ReadTextWithoutCR(data);
    if placeholder != "" {
      ReplaceLength(data, Utf8(placeholder), Utf8(newPrefix));
    }
  }

  /** An empty placeholder inserts the new prefix around every character of the text,
      never between the bytes of one character. */
  lemma TextPokeOfEmptyPlaceholder(s: string, newPrefix: string)
    requires CR !in Utf8(s)
    ensures PokeText(Utf8(s), "", newPrefix) == Utf8(Replace(s, "", newPrefix))
  {
    ReadTextWithoutCR(Utf8(s));
    InsertAtCharsOfUtf8(s, newPrefix);
  }

  /** A text poke of a file without the placeholder and without carriage returns leaves
      it unchanged. */
  lemma TextPokeWithoutPlaceholder(data: Bytes, placeholder: string, newPrefix: string)
    requires |placeholder| > 0 && CR !in data
    requires !Contains(data, Utf8(placeholder))
    requires '\\' in placeholder ==> !Contains(data, Utf8(Slashed(placeholder)))
    ensures PokeText(data, placeholder, newPrefix) == data
  {
    ReadTextWithoutCR(data);
    assert |EncodeChar(placeholder[0])| >= 1;
    ReplaceAbsent(data, Utf8(placeholder), Utf8(newPrefix));
    if '\\' in placeholder {
      AsciiSwapKeepsUtf8Length(placeholder, '\\', '/');
      ReplaceAbsent(data, Utf8(Slashed(placeholder)), Utf8(Slashed(newPrefix)));
    }
  }

  /** The file key a patch entry names inside the install directory, if it names one. */
  function PatchTarget(installDir: Path, entry: PatchEntry): Option<Path>
  {
    Rel(installDir, entry.path)
  }

  /** The entry pokes the file at `key`: there is one, and the mode is known. */
  predicate Pokes(files: Tree, key: Option<Path>, entry: PatchEntry)
  {
    key.Some? && IsFile(files, key.value) && (entry.fileMode == "text" || entry.fileMode == "binary")
  }

  predicate PatchesFile(files: Tree, installDir: Path, entry: PatchEntry)
  {
    Pokes(files, PatchTarget(installDir, entry), entry)
  }

  /** The name `_poke_binary` reports for the target of `entry`. */
  function TargetName(installDir: Path, entry: PatchEntry): string
  {
    BaseName(JoinString(installDir, entry.path))
  }

  /** `after` is what `_poke_text` or `_poke_binary` makes of the content `data`, with
      `str(install_dir)` as the new prefix. */
  predicate PokedTo(installDir: Path, entry: PatchEntry, data: Bytes, after: Entry)
  {
    && (entry.fileMode == "text" ==> after == File(PokeText(data, entry.prefixPlaceholder, ToString(installDir))))
    && (entry.fileMode == "binary" ==>
      && PokeBinary(data, entry.prefixPlaceholder, ToString(installDir), TargetName(installDir, entry)).Ok?
      && after == File(PokeBinary(data, entry.prefixPlaceholder, ToString(installDir), TargetName(installDir, entry)).value))
  }

  /** The body of the loop in `poke` once the target is known: a missing target or an
      unknown mode is skipped. */
  function PokeAt(files: Tree, key: Option<Path>, installDir: Path, entry: PatchEntry): (r: Result<Tree>)
    ensures r.Ok? ==> r.value.Keys == files.Keys
    ensures r.Ok? && !Pokes(files, key, entry) ==> r.value == files
    ensures r.Ok? ==> forall p :: p in files && Some(p) != key ==> r.value[p] == files[p]
    ensures r.Ok? ==> forall p :: p in files && files[p].File? ==> r.value[p].File?
    ensures r.Err? <==>
      && Pokes(files, key, entry) && entry.fileMode == "binary"
      && |Utf8(ToString(installDir))| > |Utf8(entry.prefixPlaceholder)|
    ensures r.Ok? && Pokes(files, key, entry) ==> PokedTo(installDir, entry, files[key.value].data, r.value[key.value])
  {
    var newPrefix := ToString(installDir);
    if key.None? || !IsFile(files, key.value) then Ok(files)
    else
      var data := files[key.value].data;
      if entry.fileMode == "text" then
        Ok(files[key.value := File(PokeText(data, entry.prefixPlaceholder, newPrefix))])
      else if entry.fileMode == "binary" then
        match PokeBinary(data, entry.prefixPlaceholder, newPrefix, TargetName(installDir, entry))
        case Err(e) => Err(e)
        case Ok(updated) => Ok(files[key.value := File(updated)])
      else Ok(files)
  }

  /** One iteration of `poke`, on the files of the install directory: an entry whose
      path leaves the install directory is skipped like a missing file. */
  function PokeOne(files: Tree, installDir: Path, entry: PatchEntry): (r: Result<Tree>)
    ensures r.Ok? ==> r.value.Keys == files.Keys
    ensures r.Ok? && !PatchesFile(files, installDir, entry) ==> r.value == files
    ensures r.Ok? ==> forall p :: p in files && Some(p) != PatchTarget(installDir, entry) ==> r.value[p] == files[p]
    ensures r.Ok? ==> forall p :: p in files && files[p].File? ==> r.value[p].File?
    ensures r.Err? <==>
      && PatchesFile(files, installDir, entry) && entry.fileMode == "binary"
      && |Utf8(ToString(installDir))| > |Utf8(entry.prefixPlaceholder)|
    ensures !Inside(installDir, entry.path) ==> r == Ok(files)
    ensures r.Ok? && PatchesFile(files, installDir, entry) ==>
      PokedTo(installDir, entry, files[PatchTarget(installDir, entry).value].data, r.value[PatchTarget(installDir, entry).value])
  {
    PokeAt(files, PatchTarget(installDir, entry), installDir, entry)
  }

  /** One iteration of `poke` as the code is written, on the whole filesystem keyed by
      absolute path: the target is wherever `install_dir / entry.path` resolves, inside
      the install directory or not. */
  function PokeOneAsWritten(world: Tree, installDir: Path, entry: PatchEntry): (r: Result<Tree>)
    ensures r.Ok? ==> r.value.Keys == world.Keys
    ensures r.Ok? ==> forall p :: p in world && p != Resolve(installDir, entry.path) ==> r.value[p] == world[p]
    ensures r.Err? <==>
      && Pokes(world, Some(Resolve(installDir, entry.path)), entry) && entry.fileMode == "binary"
      && |Utf8(ToString(installDir))| > |Utf8(entry.prefixPlaceholder)|
  {
    PokeAt(world, Some(Resolve(installDir, entry.path)), installDir, entry)
  }

  /** A patch path `../<c>` names the sibling `c` of the install directory. As written,
      a text entry rewrites that file and a binary entry with a short placeholder raises;
      the traversal check the extractor applies to member names refuses that path, and
      the model's `PokeOne` skips it. */
  lemma PatchEscapesInstallDir(world: Tree, files: Tree, installDir: Path, c: string, placeholder: string, data: Bytes)
    requires |installDir| > 0 && IsComponent(c) && '/' !in c && installDir[|installDir| - 1] != c
    requires installDir[..|installDir| - 1] + [c] in world
    requires world[installDir[..|installDir| - 1] + [c]] == File(data)
    ensures !Inside(installDir, "../" + c)
    ensures PokeOneAsWritten(world, installDir, PatchEntry("../" + c, placeholder, "text"))
      == Ok(world[installDir[..|installDir| - 1] + [c] := File(PokeText(data, placeholder, ToString(installDir)))])
    ensures PokeOneAsWritten(world, installDir, PatchEntry("../" + c, placeholder, "binary")).Err?
      <==> |Utf8(ToString(installDir))| > |Utf8(placeholder)|
    ensures PokeOne(files, installDir, PatchEntry("../" + c, placeholder, "text")) == Ok(files)
    ensures PokeOne(files, installDir, PatchEntry("../" + c, placeholder, "binary")) == Ok(files)
  {
    ParentStepResolves(installDir, c);
    ParentStepEscapes(installDir, c);
  }

  /** `poke(install_dir, patches)`: the entries are applied in order and the first error
      stops the run, leaving the files patched so far. */
  function PokeAll(files: Tree, installDir: Path, patches: seq<PatchEntry>): (r: Outcome)
    ensures r.files.Keys == files.Keys
    decreases |patches|
  {
    if |patches| == 0 then Outcome(files, None)
    else match PokeOne(files, installDir, patches[0])
      case Err(e) => Outcome(files, Some(e))
      case Ok(next) => PokeAll(next, installDir, patches[1..])
  }

  method Poke(files: Tree, installDir: Path, patches: seq<PatchEntry>) returns (r: Outcome)
    ensures r == PokeAll(files, installDir, patches)
  {
    var current := files;
    var i := 0;
    while i < |patches|
      invariant 0 <= i <= |patches|
      invariant PokeAll(current, installDir, patches[i..]) == PokeAll(files, installDir, patches)
    {
      assert patches[i..][1..] == patches[i + 1..];
      var step := PokeOne(current, installDir, patches[i]);
      if step.Err? {
        return Outcome(current, Some(step.error));
      }
      current := step.value;
      i := i + 1;
    }
    return Outcome(current, None);
  }

  /** A placeholder long enough to hold the new prefix. */
  predicate Fits(installDir: Path, entry: PatchEntry)
  {
    |Utf8(ToString(installDir))| <= |Utf8(entry.prefixPlaceholder)|
  }

  /** A run fails only because of a binary entry whose placeholder is too short, and a
      run without such an entry succeeds. */
  lemma {:induction false} PokeAllOutcome(files: Tree, installDir: Path, patches: seq<PatchEntry>)
    ensures PokeAll(files, installDir, patches).failure.Some? ==>
      exists i :: 0 <= i < |patches| && patches[i].fileMode == "binary" && !Fits(installDir, patches[i])
    ensures (forall i :: 0 <= i < |patches| && patches[i].fileMode == "binary" ==> Fits(installDir, patches[i]))
      ==> PokeAll(files, installDir, patches).failure.None?
    decreases |patches|
  {
    if |patches| > 0 {
      var step := PokeOne(files, installDir, patches[0]);
      if step.Ok? {
        PokeAllOutcome(step.value, installDir, patches[1..]);
        if PokeAll(files, installDir, patches).failure.Some? {
          var i :| 0 <= i < |patches[1..]| && patches[1..][i].fileMode == "binary" && !Fits(installDir, patches[1..][i]);
          assert patches[i + 1] == patches[1..][i];
        }
        if forall i :: 0 <= i < |patches| && patches[i].fileMode == "binary" ==> Fits(installDir, patches[i]) {
          assert forall i :: 0 <= i < |patches[1..]| ==> patches[1..][i] == patches[i + 1];
        }
      }
    }
  }

  /** A file no entry targets keeps its content, whether or not the run fails. */
  lemma {:induction false} PokeAllKeepsUntargeted(files: Tree, installDir: Path, patches: seq<PatchEntry>, p: Path)
    requires p in files
    requires forall i :: 0 <= i < |patches| ==> PatchTarget(installDir, patches[i]) != Some(p)
    ensures PokeAll(files, installDir, patches).files[p] == files[p]
    decreases |patches|
  {
    if |patches| > 0 {
      var step := PokeOne(files, installDir, patches[0]);
      if step.Ok? {
        assert forall i :: 0 <= i < |patches[1..]| ==> patches[1..][i] == patches[i + 1];
        PokeAllKeepsUntargeted(step.value, installDir, patches[1..], p);
      }
    }
  }

  /** In a run that succeeds, a file that exactly one entry targets ends up holding that
      entry's poke of its original content, with `str(install_dir)` as the new prefix. */
  lemma {:induction false} PokeAllPatchesSoleTarget(files: Tree, installDir: Path, patches: seq<PatchEntry>, i: nat)
    requires i < |patches| && PatchesFile(files, installDir, patches[i])
    requires forall j :: 0 <= j < |patches| && j != i ==> PatchTarget(installDir, patches[j]) != PatchTarget(installDir, patches[i])
    requires PokeAll(files, installDir, patches).failure.None?
    ensures var key := PatchTarget(installDir, patches[i]).value;
      PokedTo(installDir, patches[i], files[key].data, PokeAll(files, installDir, patches).files[key])
    decreases |patches|
  {
    var key := PatchTarget(installDir, patches[i]).value;
    var step := PokeOne(files, installDir, patches[0]);
    assert step.Ok?;
    var rest := patches[1..];
    assert forall j :: 0 <= j < |rest| ==> rest[j] == patches[j + 1];
    assert PokeAll(files, installDir, patches) == PokeAll(step.value, installDir, rest);
    if i == 0 {
      PokeAllPatchesFirst(files, installDir, patches);
    } else {
      PokeOneSkips(files, installDir, patches[0], key);
      assert rest[i - 1] == patches[i];
      assert forall j :: 0 <= j < |rest| && j != i - 1 ==> PatchTarget(installDir, rest[j]) != Some(key);
      PokeAllPatchesSoleTarget(step.value, installDir, rest, i - 1);
    }
  }

  /** The first entry's poke survives a run in which no later entry targets its file. */
  lemma PokeAllPatchesFirst(files: Tree, installDir: Path, patches: seq<PatchEntry>)
    requires |patches| > 0 && PatchesFile(files, installDir, patches[0])
    requires forall j :: 0 < j < |patches| ==> PatchTarget(installDir, patches[j]) != PatchTarget(installDir, patches[0])
    requires PokeOne(files, installDir, patches[0]).Ok?
    ensures var key := PatchTarget(installDir, patches[0]).value;
      PokedTo(installDir, patches[0], files[key].data, PokeAll(files, installDir, patches).files[key])
  {
    var key := PatchTarget(installDir, patches[0]).value;
    var next := PokeOne(files, installDir, patches[0]).value;
    var rest := patches[1..];
    assert forall j :: 0 <= j < |rest| ==> rest[j] == patches[j + 1];
    PokeAllKeepsUntargeted(next, installDir, rest, key);
    assert next[key] == PokeAll(files, installDir, patches).files[key];
  }

  /** An entry that targets another file keeps the file at `key`. */
  lemma PokeOneSkips(files: Tree, installDir: Path, entry: PatchEntry, key: Path)
    requires IsFile(files, key) && PatchTarget(installDir, entry) != Some(key)
    requires PokeOne(files, installDir, entry).Ok?
    ensures IsFile(PokeOne(files, installDir, entry).value, key)
    ensures PokeOne(files, installDir, entry).value[key] == files[key]
  {
  }

  /** When every entry is binary, every file keeps its size, whether or not the run fails. */
  lemma {:induction false} BinaryPokesKeepSizes(files: Tree, installDir: Path, patches: seq<PatchEntry>, p: Path)
    requires p in files && files[p].File?
    requires forall i :: 0 <= i < |patches| ==> patches[i].fileMode == "binary"
    ensures PokeAll(files, installDir, patches).files[p].File?
    ensures |PokeAll(files, installDir, patches).files[p].data| == |files[p].data|
    decreases |patches|
  {
    if |patches| > 0 {
      var entry := patches[0];
      var step := PokeOne(files, installDir, entry);
      if step.Ok? {
        var key := PatchTarget(installDir, entry);
        if key == Some(p) && IsFile(files, p) {
          BinaryPokeKeepsSize(files[p].data, entry.prefixPlaceholder, ToString(installDir), TargetName(installDir, entry));
        }
        assert |step.value[p].data| == |files[p].data|;
        assert forall i :: 0 <= i < |patches[1..]| ==> patches[1..][i] == patches[i + 1];
        BinaryPokesKeepSizes(step.value, installDir, patches[1..], p);
      }
    }
  }
}
