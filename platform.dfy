/** Mapping the interpreter's platform names to the `(os, arch)` naming manifests use.
    The raw values (`sys.platform` and `platform.machine()`) are parameters. */
module Platform {
  import opened Base
  import opened Text

  const OsMap: map<string, string> := map["win32" := "windows", "linux" := "linux", "darwin" := "macos"]

  const ArchMap: map<string, string> :=
    map["x86_64" := "x86_64", "amd64" := "x86_64", "aarch64" := "aarch64", "arm64" := "aarch64"]

  /** `sorted(_OS_MAP)` and `sorted(_ARCH_MAP)`, as the error messages list them. */
  const SortedOsKeys: seq<string> := ["darwin", "linux", "win32"]
  const SortedArchKeys: seq<string> := ["aarch64", "amd64", "arm64", "x86_64"]

  /** The OS is checked first; the machine name is compared lower-cased. */
  function GetCurrentPlatform(rawOs: string, rawMachine: string): (r: Result<(string, string)>)
    ensures r.Ok? <==> rawOs in OsMap && Lower(rawMachine) in ArchMap
    ensures r.Ok? ==> r.value == (OsMap[rawOs], ArchMap[Lower(rawMachine)])
    ensures rawOs !in OsMap ==> r == Err(UnsupportedOs(rawOs, SortedOsKeys))
    ensures rawOs in OsMap && Lower(rawMachine) !in ArchMap ==>
      r == Err(UnsupportedArch(Lower(rawMachine), SortedArchKeys))
    ensures r.Ok? ==> r.value.0 in {"windows", "linux", "macos"} && r.value.1 in {"x86_64", "aarch64"}
  {
    var rawArch := Lower(rawMachine);
    if rawOs !in OsMap then Err(UnsupportedOs(rawOs, SortedOsKeys))
    else if rawArch !in ArchMap then Err(UnsupportedArch(rawArch, SortedArchKeys))
    else Ok((OsMap[rawOs], ArchMap[rawArch]))
  }

  /** Lower-casing twice is lower-casing once. */
  lemma LowerIdempotent(s: string)
    ensures Lower(Lower(s)) == Lower(s)
  {
    forall i | 0 <= i < |s|
      ensures Lower(Lower(s))[i] == Lower(s)[i]
    {
      assert LowerChar(LowerChar(s[i])) == LowerChar(s[i]);
    }
  }

  /** The machine name's letter case never changes the outcome. */
  lemma MachineCaseIgnored(rawOs: string, rawMachine: string)
    ensures GetCurrentPlatform(rawOs, rawMachine) == GetCurrentPlatform(rawOs, Lower(rawMachine))
  {
    LowerIdempotent(rawMachine);
  }

  /** Both message lists are the maps' key sets in ascending order. */
  lemma SortedKeysAreSortedMapKeys()
    ensures StrictlySorted(SortedOsKeys) && (set k | k in SortedOsKeys) == OsMap.Keys
    ensures StrictlySorted(SortedArchKeys) && (set k | k in SortedArchKeys) == ArchMap.Keys
  {
    assert StrLess("darwin", "linux") && StrLess("linux", "win32");
    SortedFromNeighbours(SortedOsKeys);
    assert StrLess("aarch64"[1..], "amd64"[1..]);
    assert StrLess("amd64", "arm64") && StrLess("arm64", "x86_64");
    SortedFromNeighbours(SortedArchKeys);
  }

  /** `amd64` and `arm64`, in any letter case, are aliases of `x86_64` and `aarch64`. */
  lemma ArchAliasesAgree(rawOs: string, rawMachine: string)
    ensures Lower(rawMachine) == "amd64" ==> GetCurrentPlatform(rawOs, rawMachine) == GetCurrentPlatform(rawOs, "x86_64")
    ensures Lower(rawMachine) == "arm64" ==> GetCurrentPlatform(rawOs, rawMachine) == GetCurrentPlatform(rawOs, "aarch64")
  {
    assert Lower("x86_64") == "x86_64";
    assert Lower("aarch64") == "aarch64";
  }

  /** Every pair of a manifest system name and a manifest architecture name is some host's
      platform: the range stated by `GetCurrentPlatform` is all reached. */
  lemma EveryPlatformReached(targetOs: string, targetArch: string)
    requires targetOs in {"windows", "linux", "macos"} && targetArch in {"x86_64", "aarch64"}
    ensures exists rawOs, rawMachine :: GetCurrentPlatform(rawOs, rawMachine) == Ok((targetOs, targetArch))
  {
    var rawOs := if targetOs == "windows" then "win32" else if targetOs == "linux" then "linux" else "darwin";
    assert OsMap[rawOs] == targetOs;
    assert Lower("x86_64") == "x86_64";
    assert Lower("aarch64") == "aarch64";
    assert GetCurrentPlatform(rawOs, targetArch) == Ok((targetOs, targetArch));
  }
}
