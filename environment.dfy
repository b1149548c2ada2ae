/** The environment updates an installed version contributes and how the updates of
    several apps are merged. The OS path separator (`os.pathsep`) is a parameter. */
module Environment {
  import opened Base
  import opened Text
  import opened Paths
  import opened Models

  predicate HasBin(version: AppVersion)
  {
    version.bin.Some? && |version.bin.value| > 0
  }

  function EnvEntries(version: AppVersion): map<string, string>
  {
    if version.env.Some? then version.env.value else map[]
  }

  /** `str(install_dir / entry)` for every `bin` entry, in order. */
  function BinDirs(installDir: seq<string>, bin: seq<string>): (r: seq<string>)
    ensures |r| == |bin|
    ensures forall i :: 0 <= i < |bin| ==> r[i] == JoinString(installDir, bin[i])
  {
    seq(|bin|, i requires 0 <= i < |bin| => JoinString(installDir, bin[i]))
  }

  /** `value.replace("${dir}", dir)`. */
  function ExpandDir(value: string, dir: string): string
  {
    Replace(value, "${dir}", dir)
  }

  /** The `PATH` value of the bin directories. */
  function BinPath(installDir: seq<string>, bin: seq<string>, sep: string): string
  {
    Join(sep, BinDirs(installDir, bin))
  }

  /** Every value of `env` with `${dir}` replaced by `dir`. */
  function ExpandAll(env: map<string, string>, dir: string): (r: map<string, string>)
    ensures r.Keys == env.Keys
  {
    map k | k in env :: ExpandDir(env[k], dir)
  }

  /** The loop `for key, value in env.items()` that fills in the expanded values. */
  method ExpandEnv(env: map<string, string>, dir: string) returns (expanded: map<string, string>)
    ensures expanded == ExpandAll(env, dir)
  {
    expanded := map[];
    var todo := env.Keys;
    while todo != {}
      invariant todo <= env.Keys
      invariant expanded.Keys == env.Keys - todo
      invariant forall k :: k in expanded ==> expanded[k] == ExpandDir(env[k], dir)
      decreases todo
    {
      var key :| key in todo;
      expanded := expanded[key := ExpandDir(env[key], dir)];
      todo := todo - {key};
    }
  }

  /** The mapping `collect_env_updates` builds: a `PATH` of the bin directories, then
      every `env` entry with `${dir}` replaced by the install directory, which wins
      over the bin `PATH` when it is itself named `PATH`. */
  function EnvUpdates(version: AppVersion, installDir: seq<string>, sep: string): map<string, string>
  {
    var base := if HasBin(version) then map["PATH" := BinPath(installDir, version.bin.value, sep)] else map[];
    var env := EnvEntries(version);
    base + ExpandAll(env, ToString(installDir))
  }

  /** The keys are `PATH` (when there are bin entries) and the `env` keys; an `env`
      entry named `PATH` wins over the bin directories; every `env` value has `${dir}`
      replaced by the install directory. */
  lemma EnvUpdatesContents(version: AppVersion, installDir: seq<string>, sep: string)
    ensures EnvUpdates(version, installDir, sep).Keys
      == (if HasBin(version) then {"PATH"} else {}) + EnvEntries(version).Keys
    ensures HasBin(version) && "PATH" !in EnvEntries(version) ==>
      EnvUpdates(version, installDir, sep)["PATH"] == BinPath(installDir, version.bin.value, sep)
    ensures forall k :: k in EnvEntries(version) ==>
      EnvUpdates(version, installDir, sep)[k] == ExpandDir(EnvEntries(version)[k], ToString(installDir))
  {
  }

  method CollectEnvUpdates(version: AppVersion, installDir: seq<string>, sep: string)
    returns (result: map<string, string>)
    ensures result == EnvUpdates(version, installDir, sep)
  {
    result := map[];
    if HasBin(version) {
      result := result["PATH" := BinPath(installDir, version.bin.value, sep)];
    }
    var expanded: map<string, string> := map[];
    if version.env.Some? && |version.env.value| > 0 {
      expanded := ExpandEnv(version.env.value, ToString(installDir));
    }
    result := result + expanded;
  }

  /** An `env` value that does not mention `${dir}` is passed through unchanged. */
  lemma EnvValueWithoutDirKept(version: AppVersion, installDir: seq<string>, sep: string, key: string)
    requires key in EnvEntries(version) && !Contains(EnvEntries(version)[key], "${dir}")
    ensures key in EnvUpdates(version, installDir, sep)
    ensures EnvUpdates(version, installDir, sep)[key] == EnvEntries(version)[key]
  {
    ReplaceAbsent(EnvEntries(version)[key], "${dir}", ToString(installDir));
  }

  /** `sep.join(filter(None, [previous, value]))`: empty and absent parts are dropped. */
  function JoinPath(sep: string, previous: Option<string>, value: string): string
  {
    Join(sep, (if Truthy(previous) then [previous.value] else []) + (if value != "" then [value] else []))
  }

  /** The value `key` has after `env` is folded into `merged`. */
  function MergedValue(merged: map<string, string>, env: map<string, string>, key: string, sep: string): string
    requires key in merged || key in env
  {
    if key !in env then merged[key]
    else if key == "PATH" then JoinPath(sep, if key in merged then Some(merged[key]) else None, env[key])
    else env[key]
  }

  /** One round of the merge loop: every key of `env` is folded into `merged`. */
  function MergeOne(merged: map<string, string>, env: map<string, string>, sep: string): map<string, string>
  {
    map k | k in merged.Keys + env.Keys :: MergedValue(merged, env, k, sep)
  }

  /** The result of `merge_env_updates(updates)`. */
  function Merged(updates: seq<map<string, string>>, sep: string): map<string, string>
    decreases |updates|
  {
    if |updates| == 0 then map[]
    else MergeOne(Merged(updates[..|updates| - 1], sep), updates[|updates| - 1], sep)
  }

  /** The inner loop of `merge_env_updates`: folds one update into `merged`. */
  method MergeInto(merged: map<string, string>, env: map<string, string>, sep: string)
    returns (result: map<string, string>)
    ensures result == MergeOne(merged, env, sep)
  {
    result := merged;
    var todo := env.Keys;
    while todo != {}
      invariant todo <= env.Keys
      invariant result.Keys == merged.Keys + (env.Keys - todo)
      invariant forall k :: k in result && (k !in env || k in todo) ==> result[k] == merged[k]
      invariant forall k :: k in env && k !in todo ==> result[k] == MergedValue(merged, env, k, sep)
      decreases todo
    {
      var key :| key in todo;
      var value := env[key];
      if key == "PATH" {
        var previous := if key in result then Some(result[key]) else None;
        result := result[key := JoinPath(sep, previous, value)];
      } else {
        result := result[key := value];
      }
      todo := todo - {key};
    }
    MergeOneByKeys(result, merged, env, sep);
  }

  lemma MergeOneByKeys(result: map<string, string>, merged: map<string, string>, env: map<string, string>, sep: string)
    requires result.Keys == merged.Keys + env.Keys
    requires forall k :: k in result ==> result[k] == MergedValue(merged, env, k, sep)
    ensures result == MergeOne(merged, env, sep)
  {
  }

  method MergeEnvUpdates(updates: seq<map<string, string>>, sep: string) returns (merged: map<string, string>)
    ensures merged == Merged(updates, sep)
  {
    merged := map[];
    var i := 0;
    while i < |updates|
      invariant 0 <= i <= |updates|
      invariant merged == Merged(updates[..i], sep)
    {
      merged := MergeInto(merged, updates[i], sep);
      assert updates[..i + 1][..i] == updates[..i];
      i := i + 1;
    }
    assert updates[..i] == updates;
  }

  /** Every key any update sets. */
  function AllKeys(updates: seq<map<string, string>>): set<string>
  {
    set u, k | u in updates && k in u :: k
  }

  /** The merged keys are exactly the keys of the inputs. */
  lemma {:induction false} MergedKeys(updates: seq<map<string, string>>, sep: string)
    ensures Merged(updates, sep).Keys == AllKeys(updates)
    decreases |updates|
  {
    if |updates| > 0 {
      var init := updates[..|updates| - 1];
      MergedKeys(init, sep);
      assert updates == init + [updates[|updates| - 1]];
      assert AllKeys(updates) == AllKeys(init) + updates[|updates| - 1].Keys;
    }
  }

  /** Outside `PATH` the last update that sets a key decides its value. */
  lemma {:induction false} MergedLastWriterWins(updates: seq<map<string, string>>, sep: string, key: string, i: nat)
    requires key != "PATH"
    requires i < |updates| && key in updates[i]
    requires forall j :: i < j < |updates| ==> key !in updates[j]
    ensures key in Merged(updates, sep) && Merged(updates, sep)[key] == updates[i][key]
    decreases |updates|
  {
    if i < |updates| - 1 {
      var init := updates[..|updates| - 1];
      MergedLastWriterWins(init, sep, key, i);
    }
  }

  /** The non-empty `PATH` contributions, in input order. */
  function PathParts(updates: seq<map<string, string>>): (r: seq<string>)
    ensures forall i :: 0 <= i < |r| ==> r[i] != ""
    decreases |updates|
  {
    if |updates| == 0 then []
    else
      var last := updates[|updates| - 1];
      PathParts(updates[..|updates| - 1]) + (if "PATH" in last && last["PATH"] != "" then [last["PATH"]] else [])
  }

  lemma {:induction false} JoinNonEmpty(sep: string, parts: seq<string>)
    requires |parts| > 0 && parts[0] != ""
    ensures Join(sep, parts) != ""
  {
    if |parts| > 1 {
      assert |Join(sep, parts)| >= |parts[0]|;
    }
  }

  /** The merged `PATH` is the separator-join of every non-empty `PATH` contribution,
      and it is present exactly when some update sets `PATH`. */
  lemma {:induction false} MergedPath(updates: seq<map<string, string>>, sep: string)
    ensures "PATH" in Merged(updates, sep) <==> "PATH" in AllKeys(updates)
    ensures "PATH" in Merged(updates, sep) ==> Merged(updates, sep)["PATH"] == Join(sep, PathParts(updates))
    decreases |updates|
  {
    MergedKeys(updates, sep);
    if |updates| > 0 {
      var init := updates[..|updates| - 1];
      var last := updates[|updates| - 1];
      MergedPath(init, sep);
      MergedKeys(init, sep);
      var prev := Merged(init, sep);
      assert Merged(updates, sep) == MergeOne(prev, last, sep);
      if "PATH" in last {
        if "PATH" !in prev {
          PathPartsWithoutPath(init);
        }
        PathFold(sep, if "PATH" in prev then Some(prev["PATH"]) else None, PathParts(init), last["PATH"]);
      } else {
        assert PathParts(updates) == PathParts(init) + [] == PathParts(init);
      }
    }
  }

  /** One `PATH` contribution folded into the join of the earlier non-empty ones. */
  lemma PathFold(sep: string, previous: Option<string>, parts: seq<string>, v: string)
    requires forall i :: 0 <= i < |parts| ==> parts[i] != ""
    requires previous.Some? ==> previous.value == Join(sep, parts)
    requires previous.None? ==> parts == []
    ensures JoinPath(sep, previous, v) == Join(sep, parts + (if v != "" then [v] else []))
  {
    if |parts| > 0 {
      JoinNonEmpty(sep, parts);
    }
    if v != "" {
      JoinSnoc(sep, parts, v);
      if Truthy(previous) {
        assert [previous.value] + [v] == [previous.value, v];
        assert Join(sep, [previous.value, v]) == previous.value + sep + Join(sep, [v]);
      } else {
        assert parts + [v] == [v];
      }
    } else {
      assert parts + [] == parts;
      if Truthy(previous) {
        assert [previous.value] + [] == [previous.value];
      }
    }
  }

  lemma {:induction false} PathPartsWithoutPath(updates: seq<map<string, string>>)
    requires "PATH" !in AllKeys(updates)
    ensures PathParts(updates) == []
    decreases |updates|
  {
    if |updates| > 0 {
      var init := updates[..|updates| - 1];
      assert updates[|updates| - 1] in updates;
      assert AllKeys(init) <= AllKeys(updates) by {
        forall k | k in AllKeys(init)
          ensures k in AllKeys(updates)
        {
          var u :| u in init && k in u;
          assert u in updates;
        }
      }
      PathPartsWithoutPath(init);
    }
  }
}
