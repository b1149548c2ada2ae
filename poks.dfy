/** The package manager's own operations over the `apps/<name>/<version>` tree: the
    per-app install decisions, listing, uninstalling, and turning a `name@version`
    spec into a one-app configuration. Bucket syncing, downloading and decompressing
    are collaborators passed in as values; extraction is the extractor's model. */
module Poks {
  import opened Base
  import opened Text
  import opened Paths
  import opened Fs
  import opened Models
  import opened Platform
  import opened Resolver
  import opened Environment
  import Extractor
  import Downloader

  // ----- the apps directory -----

  /** What the `.manifest.json` of a version directory holds. */
  datatype StoredManifest = NoManifest | Unparsable | Stored(manifest: Manifest)

  /** An entry of `apps/<name>`: a plain file, or a version directory with its files. */
  datatype VersionEntry = VersionFile | VersionDir(files: Tree, stored: StoredManifest)

  /** An entry of `apps`: a plain file, or an app directory with its version entries. */
  datatype AppEntry = AppFile | AppDir(versions: map<string, VersionEntry>)

  /** The contents of `apps_dir` by entry name; `None` while the directory does not exist. */
  type Apps = Option<map<string, AppEntry>>

  function AppAt(apps: Apps, name: string): Option<AppEntry>
  {
    if apps.Some? && name in apps.value then Some(apps.value[name]) else None
  }

  /** `(apps_dir / name / version).exists()`. */
  predicate Installed(apps: Apps, name: string, version: string)
  {
    apps.Some? && name in apps.value && apps.value[name].AppDir? && version in apps.value[name].versions
  }

  function VersionAt(apps: Apps, name: string, version: string): Option<VersionEntry>
  {
    if Installed(apps, name, version) then Some(apps.value[name].versions[version]) else None
  }

  predicate IsVersionDir(apps: Apps, name: string, version: string)
  {
    Installed(apps, name, version) && apps.value[name].versions[version].VersionDir?
  }

  /** `apps_dir / name / version`. */
  function InstallDir(appsPath: Path, name: string, version: string): Path
  {
    Normalize(appsPath, Split(name, '/') + Split(version, '/'))
  }

  /** `install_dir.mkdir(parents=True)` followed by filling the new directory with `e`. */
  function WithVersion(apps: Apps, name: string, version: string, e: VersionEntry): (r: map<string, AppEntry>)
    requires AppAt(apps, name) != Some(AppFile)
    ensures Installed(Some(r), name, version) && r[name].versions[version] == e
    ensures forall n :: n != name ==> AppAt(Some(r), n) == AppAt(apps, n)
    ensures forall v :: v != version ==> VersionAt(Some(r), name, v) == VersionAt(apps, name, v)
  {
    var a := if apps.Some? then apps.value else map[];
    var versions := if name in a && a[name].AppDir? then a[name].versions else map[];
    a[name := AppDir(versions[version := e])]
  }

  // ----- version lookup -----

  /** The index of the first manifest version named `version`. */
  function FindVersion(versions: seq<AppVersion>, version: string): (r: Option<nat>)
    ensures r.Some? ==> r.value < |versions| && versions[r.value].version == version
    ensures r.Some? ==> forall j :: 0 <= j < r.value ==> versions[j].version != version
    ensures r.None? <==> forall j :: 0 <= j < |versions| ==> versions[j].version != version
    decreases |versions|
  {
    if |versions| == 0 then None
    else if versions[0].version == version then Some(0)
    else match FindVersion(versions[1..], version)
      case None => None
      case Some(i) => Some(i + 1)
  }

  /** The `for v in manifest.versions` loop with its early `break`. */
  method SelectVersion(versions: seq<AppVersion>, version: string) returns (r: Option<nat>)
    ensures r == FindVersion(versions, version)
  {
    var i := 0;
    while i < |versions|
      invariant 0 <= i <= |versions|
      invariant forall j :: 0 <= j < i ==> versions[j].version != version
    {
      if versions[i].version == version {
        ghost var found := FindVersion(versions, version);
        assert found.Some?;
        assert !(found.value < i);
        assert !(found.value > i);
        return Some(i);
      }
      i := i + 1;
    }
    return None;
  }

  // ----- install -----

  /** The collaborators of `install`: every synced bucket's manifests by app name (the
      result of `sync_all_buckets` and `find_manifest`), where `apps_dir` is, the `PATH`
      separator, the download (`get_cached_or_download` by URL and SHA-256, followed by
      decoding the archive file), the SHA-256 digest cache names are made of, and
      whether tar's `data` filter is available. */
  datatype Host = Host(
    synced: map<string, map<string, Manifest>>,
    appsPath: Path,
    sep: string,
    fetch: (string, string) -> Result<Extractor.Payload>,
    hash: Bytes -> string,
    dataFilter: bool)

  /** What one app of the configuration does: the apps directory afterwards, its
      environment contribution, and the error that stops the run. */
  datatype Visit = Visit(apps: Apps, update: Option<map<string, string>>, failure: Option<Error>)

  function Refused(apps: Apps, e: Error): Visit
  {
    Visit(apps, None, Some(e))
  }

  /** The manifest version `install` settles on for `app`, if the bucket, the manifest
      and the version exist. */
  function Chosen(h: Host, app: App): Option<AppVersion>
  {
    if app.bucket !in h.synced || app.name !in h.synced[app.bucket] then None
    else
      var versions := h.synced[app.bucket][app.name].versions;
      match FindVersion(versions, app.version)
      case None => None
      case Some(i) => Some(versions[i])
  }

  /** One iteration of the loop in `install`. */
  function InstallStep(h: Host, platform: (string, string), apps: Apps, app: App): Visit
  {
    if !app.IsSupported(platform.0, platform.1) then Visit(apps, None, None)
    else if app.bucket !in h.synced then Refused(apps, UnknownBucket(app.bucket))
    else if app.name !in h.synced[app.bucket] then Refused(apps, ManifestNotFound(app.name))
    else
      var manifest := h.synced[app.bucket][app.name];
      match FindVersion(manifest.versions, app.version)
      case None => Refused(apps, VersionNotFound(app.version, app.name))
      case Some(i) =>
        var v := manifest.versions[i];
        if Truthy(v.yanked) then Refused(apps, VersionYanked(app.version, app.name, v.yanked.value))
        else if Installed(apps, app.name, app.version) then
          Visit(apps, Some(EnvUpdates(v, InstallDir(h.appsPath, app.name, app.version), h.sep)), None)
        else FreshInstall(h, platform, apps, app, manifest, v)
  }

  /** Resolving, downloading, extracting and recording a version that is not there yet.
      Extraction creates the install directory only once the archive's format is known,
      and a failed extraction leaves what it wrote. */
  function FreshInstall(h: Host, platform: (string, string), apps: Apps, app: App, manifest: Manifest, v: AppVersion): Visit
  {
    match ResolveArchive(v, platform.0, platform.1)
    case Err(e) => Refused(apps, e)
    case Ok(archive) =>
      match ResolveDownloadUrl(v, archive)
      case Err(e) => Refused(apps, e)
      case Ok(url) =>
        match h.fetch(url, archive.sha256)
        case Err(e) => Refused(apps, e)
        case Ok(payload) => Unpack(h, apps, app, manifest, v, Downloader.CacheName(url, h.hash), payload)
  }

  /** `extract_archive` of the downloaded file into the install directory, then the
      manifest written next to it. */
  function Unpack(h: Host, apps: Apps, app: App, manifest: Manifest, v: AppVersion, archiveName: string, payload: Extractor.Payload): Visit
  {
    var dir := InstallDir(h.appsPath, app.name, app.version);
    if Extractor.DetectFormat(archiveName).Err? then Refused(apps, Extractor.DetectFormat(archiveName).error)
    else if AppAt(apps, app.name) == Some(AppFile) then Refused(apps, NotADirectory(app.name))
    else
      var x := Extractor.ExtractArchive(archiveName, payload, dir, map[], v.extractDir, h.dataFilter);
      if x.failure.Some? then
        Visit(Some(WithVersion(apps, app.name, app.version, VersionDir(x.files, NoManifest))), None, x.failure)
      else
        Visit(Some(WithVersion(apps, app.name, app.version, VersionDir(x.files, Stored(manifest)))),
              Some(EnvUpdates(v, dir, h.sep)), None)
  }

  /** What one step promises: a skipped app leaves no trace; a step touches at most its
      own app directory, never removes a version that exists, and a version found there
      (even a yanked one is refused first) is neither fetched nor extracted again; a step
      that succeeds for a supported app leaves that version installed and contributes
      the environment of the version the manifest names. */
  lemma StepFacts(h: Host, platform: (string, string), apps: Apps, app: App)
    ensures !app.IsSupported(platform.0, platform.1) ==> InstallStep(h, platform, apps, app) == Visit(apps, None, None)
    ensures forall n :: n != app.name ==> AppAt(InstallStep(h, platform, apps, app).apps, n) == AppAt(apps, n)
    ensures forall n, ver :: Installed(apps, n, ver) ==> VersionAt(InstallStep(h, platform, apps, app).apps, n, ver) == VersionAt(apps, n, ver)
    ensures InstallStep(h, platform, apps, app).failure.Some? ==> InstallStep(h, platform, apps, app).update.None?
    ensures app.IsSupported(platform.0, platform.1) && InstallStep(h, platform, apps, app).failure.None? ==>
      && Chosen(h, app).Some? && !Truthy(Chosen(h, app).value.yanked)
      && Installed(InstallStep(h, platform, apps, app).apps, app.name, app.version)
      && InstallStep(h, platform, apps, app).update
        == Some(EnvUpdates(Chosen(h, app).value, InstallDir(h.appsPath, app.name, app.version), h.sep))
    ensures app.IsSupported(platform.0, platform.1) && Chosen(h, app).Some? && Installed(apps, app.name, app.version) ==>
      InstallStep(h, platform, apps, app) == (if Truthy(Chosen(h, app).value.yanked)
        then Refused(apps, VersionYanked(app.version, app.name, Chosen(h, app).value.yanked.value))
        else Visit(apps, Some(EnvUpdates(Chosen(h, app).value, InstallDir(h.appsPath, app.name, app.version), h.sep)), None))
  {
    var r := InstallStep(h, platform, apps, app);
    if app.IsSupported(platform.0, platform.1) && app.bucket in h.synced && app.name in h.synced[app.bucket] {
      var manifest := h.synced[app.bucket][app.name];
      var found := FindVersion(manifest.versions, app.version);
      if found.Some? {
        var v := manifest.versions[found.value];
        if !Truthy(v.yanked) && !Installed(apps, app.name, app.version) {
          assert r == FreshInstall(h, platform, apps, app, manifest, v);
          FreshInstallFacts(h, platform, apps, app, manifest, v);
        }
      }
    }
  }

  lemma FreshInstallFacts(h: Host, platform: (string, string), apps: Apps, app: App, manifest: Manifest, v: AppVersion)
    requires !Installed(apps, app.name, app.version)
    ensures forall n :: n != app.name ==> AppAt(FreshInstall(h, platform, apps, app, manifest, v).apps, n) == AppAt(apps, n)
    ensures forall n, ver :: Installed(apps, n, ver) ==>
      VersionAt(FreshInstall(h, platform, apps, app, manifest, v).apps, n, ver) == VersionAt(apps, n, ver)
    ensures FreshInstall(h, platform, apps, app, manifest, v).failure.Some? ==> FreshInstall(h, platform, apps, app, manifest, v).update.None?
    ensures FreshInstall(h, platform, apps, app, manifest, v).failure.None? ==>
      && Installed(FreshInstall(h, platform, apps, app, manifest, v).apps, app.name, app.version)
      && FreshInstall(h, platform, apps, app, manifest, v).update == Some(EnvUpdates(v, InstallDir(h.appsPath, app.name, app.version), h.sep))
  {
    match ResolveArchive(v, platform.0, platform.1)
    case Err(_) =>
    case Ok(archive) =>
      match ResolveDownloadUrl(v, archive)
      case Err(_) =>
      case Ok(url) =>
        match h.fetch(url, archive.sha256)
        case Err(_) =>
        case Ok(payload) =>
          UnpackFacts(h, apps, app, manifest, v, Downloader.CacheName(url, h.hash), payload);
  }

  lemma UnpackFacts(h: Host, apps: Apps, app: App, manifest: Manifest, v: AppVersion, archiveName: string, payload: Extractor.Payload)
    requires !Installed(apps, app.name, app.version)
    ensures forall n :: n != app.name ==> AppAt(Unpack(h, apps, app, manifest, v, archiveName, payload).apps, n) == AppAt(apps, n)
    ensures forall n, ver :: Installed(apps, n, ver) ==>
      VersionAt(Unpack(h, apps, app, manifest, v, archiveName, payload).apps, n, ver) == VersionAt(apps, n, ver)
    ensures Unpack(h, apps, app, manifest, v, archiveName, payload).failure.Some? ==> Unpack(h, apps, app, manifest, v, archiveName, payload).update.None?
    ensures Unpack(h, apps, app, manifest, v, archiveName, payload).failure.None? ==>
      && IsVersionDir(Unpack(h, apps, app, manifest, v, archiveName, payload).apps, app.name, app.version)
      && Unpack(h, apps, app, manifest, v, archiveName, payload).apps.value[app.name].versions[app.version].stored == Stored(manifest)
      && Unpack(h, apps, app, manifest, v, archiveName, payload).update == Some(EnvUpdates(v, InstallDir(h.appsPath, app.name, app.version), h.sep))
  {
    var r := Unpack(h, apps, app, manifest, v, archiveName, payload);
    if Extractor.DetectFormat(archiveName).Ok? && AppAt(apps, app.name) != Some(AppFile) {
      var x := Extractor.ExtractArchive(archiveName, payload, InstallDir(h.appsPath, app.name, app.version), map[], v.extractDir, h.dataFilter);
      var e := VersionDir(x.files, if x.failure.Some? then NoManifest else Stored(manifest));
      assert r.apps == Some(WithVersion(apps, app.name, app.version, e));
      forall n, ver | Installed(apps, n, ver)
        ensures VersionAt(r.apps, n, ver) == VersionAt(apps, n, ver)
      {
        if n != app.name {
          assert AppAt(r.apps, n) == AppAt(apps, n);
        } else {
          assert ver != app.version;
        }
      }
    }
  }

  /** `extract_archive` runs only once the format is known and the app path is not a
      file; the version directory then holds exactly what it wrote, with the manifest
      stored only after a successful extraction, and the step fails as it failed. */
  lemma UnpackExtracts(h: Host, apps: Apps, app: App, manifest: Manifest, v: AppVersion, archiveName: string, payload: Extractor.Payload)
    ensures Extractor.DetectFormat(archiveName).Err? ==>
      Unpack(h, apps, app, manifest, v, archiveName, payload) == Refused(apps, Extractor.DetectFormat(archiveName).error)
    ensures Extractor.DetectFormat(archiveName).Ok? && AppAt(apps, app.name) == Some(AppFile) ==>
      Unpack(h, apps, app, manifest, v, archiveName, payload) == Refused(apps, NotADirectory(app.name))
    ensures Extractor.DetectFormat(archiveName).Ok? && AppAt(apps, app.name) != Some(AppFile) ==>
      var x := Extractor.ExtractArchive(archiveName, payload, InstallDir(h.appsPath, app.name, app.version), map[], v.extractDir, h.dataFilter);
      var r := Unpack(h, apps, app, manifest, v, archiveName, payload);
      && IsVersionDir(r.apps, app.name, app.version)
      && r.apps.value[app.name].versions[app.version] == VersionDir(x.files, if x.failure.Some? then NoManifest else Stored(manifest))
      && r.failure == x.failure
  {
  }

  /** A fresh install records the whole manifest next to the extracted files. */
  lemma FreshInstallStoresManifest(h: Host, platform: (string, string), apps: Apps, app: App, manifest: Manifest, v: AppVersion)
    requires FreshInstall(h, platform, apps, app, manifest, v).failure.None?
    ensures IsVersionDir(FreshInstall(h, platform, apps, app, manifest, v).apps, app.name, app.version)
    ensures FreshInstall(h, platform, apps, app, manifest, v).apps.value[app.name].versions[app.version].stored == Stored(manifest)
  {
    match ResolveArchive(v, platform.0, platform.1)
    case Err(_) =>
    case Ok(archive) =>
      match ResolveDownloadUrl(v, archive)
      case Err(_) =>
      case Ok(url) =>
        match h.fetch(url, archive.sha256)
        case Err(_) =>
        case Ok(payload) =>
          var archiveName := Downloader.CacheName(url, h.hash);
          assert FreshInstall(h, platform, apps, app, manifest, v) == Unpack(h, apps, app, manifest, v, archiveName, payload);
          if Extractor.DetectFormat(archiveName).Ok? && AppAt(apps, app.name) != Some(AppFile) {
            var x := Extractor.ExtractArchive(archiveName, payload, InstallDir(h.appsPath, app.name, app.version), map[], v.extractDir, h.dataFilter);
            assert x.failure.None?;
          }
  }

  /** The state of the run after the apps of `todo`, in order, stopping at the first error. */
  datatype Run = Run(apps: Apps, updates: seq<map<string, string>>, failure: Option<Error>)

  function Contribution(visit: Visit): seq<map<string, string>>
  {
    if visit.update.Some? then [visit.update.value] else []
  }

  function Installs(h: Host, platform: (string, string), apps: Apps, todo: seq<App>): Run
    decreases |todo|
  {
    if |todo| == 0 then Run(apps, [], None)
    else
      var prev := Installs(h, platform, apps, todo[..|todo| - 1]);
      if prev.failure.Some? then prev
      else
        var visit := InstallStep(h, platform, prev.apps, todo[|todo| - 1]);
        Run(visit.apps, prev.updates + Contribution(visit), visit.failure)
  }

  /** The result of `install(config)`: the platform is determined first, the apps are
      installed in order, and the contributions are merged. */
  function InstallOutcome(h: Host, rawOs: string, rawMachine: string, apps: Apps, todo: seq<App>): (Apps, Result<map<string, string>>)
  {
    match GetCurrentPlatform(rawOs, rawMachine)
    case Err(e) => (apps, Err(e))
    case Ok(platform) =>
      var run := Installs(h, platform, apps, todo);
      if run.failure.Some? then (run.apps, Err(run.failure.value))
      else (run.apps, Ok(Merged(run.updates, h.sep)))
  }

  /** Once an app fails, the later apps are not looked at. */
  lemma {:induction false} InstallsStopAtFailure(h: Host, platform: (string, string), apps: Apps, todo: seq<App>, k: nat)
    requires k <= |todo|
    requires Installs(h, platform, apps, todo[..k]).failure.Some?
    ensures Installs(h, platform, apps, todo) == Installs(h, platform, apps, todo[..k])
    decreases |todo|
  {
    if k == |todo| {
      assert todo[..k] == todo;
    } else {
      var init := todo[..|todo| - 1];
      assert init[..k] == todo[..k];
      InstallsStopAtFailure(h, platform, apps, init, k);
    }
  }

  /** The environment contributions the apps of `todo` make, in configuration order:
      one per supported app, that of the version its manifest names. */
  function Contributions(h: Host, platform: (string, string), todo: seq<App>): seq<map<string, string>>
    decreases |todo|
  {
    if |todo| == 0 then []
    else
      var app := todo[|todo| - 1];
      Contributions(h, platform, todo[..|todo| - 1])
        + (if app.IsSupported(platform.0, platform.1) && Chosen(h, app).Some?
           then [EnvUpdates(Chosen(h, app).value, InstallDir(h.appsPath, app.name, app.version), h.sep)]
           else [])
  }

  /** A run that succeeds returns the contributions of its supported apps in order,
      whatever was installed before. */
  lemma {:induction false} InstallsContribute(h: Host, platform: (string, string), apps: Apps, todo: seq<App>)
    requires Installs(h, platform, apps, todo).failure.None?
    ensures Installs(h, platform, apps, todo).updates == Contributions(h, platform, todo)
    decreases |todo|
  {
    if |todo| > 0 {
      var init := todo[..|todo| - 1];
      var prev := Installs(h, platform, apps, init);
      InstallsContribute(h, platform, apps, init);
      StepFacts(h, platform, prev.apps, todo[|todo| - 1]);
    }
  }

  /** Apps of other names than those `todo` installs keep their directory as it was. */
  lemma {:induction false} InstallsTouchOnlyTheirApps(h: Host, platform: (string, string), apps: Apps, todo: seq<App>, n: string)
    requires forall i :: 0 <= i < |todo| ==> todo[i].name != n
    ensures AppAt(Installs(h, platform, apps, todo).apps, n) == AppAt(apps, n)
    decreases |todo|
  {
    if |todo| > 0 {
      var init := todo[..|todo| - 1];
      InstallsTouchOnlyTheirApps(h, platform, apps, init, n);
      StepFacts(h, platform, Installs(h, platform, apps, init).apps, todo[|todo| - 1]);
    }
  }

  /** A version that exists is never replaced or removed by later apps of the run. */
  lemma {:induction false} InstalledPersists(h: Host, platform: (string, string), apps: Apps, todo: seq<App>, k: nat, n: string, ver: string)
    requires k <= |todo|
    requires Installed(Installs(h, platform, apps, todo[..k]).apps, n, ver)
    ensures VersionAt(Installs(h, platform, apps, todo).apps, n, ver) == VersionAt(Installs(h, platform, apps, todo[..k]).apps, n, ver)
    decreases |todo|
  {
    if k == |todo| {
      assert todo[..k] == todo;
    } else {
      var init := todo[..|todo| - 1];
      assert init[..k] == todo[..k];
      InstalledPersists(h, platform, apps, init, k, n, ver);
      StepFacts(h, platform, Installs(h, platform, apps, init).apps, todo[|todo| - 1]);
    }
  }

  /** Installing the same configuration again changes nothing and yields the same
      contributions. */
  lemma InstallAgainChangesNothing(h: Host, platform: (string, string), apps: Apps, todo: seq<App>)
    requires Installs(h, platform, apps, todo).failure.None?
    ensures Installs(h, platform, Installs(h, platform, apps, todo).apps, todo)
      == Run(Installs(h, platform, apps, todo).apps, Installs(h, platform, apps, todo).updates, None)
  {
    ReplayPrefix(h, platform, apps, todo, |todo|);
    assert todo[..|todo|] == todo;
  }

  lemma {:induction false} ReplayPrefix(h: Host, platform: (string, string), apps: Apps, todo: seq<App>, k: nat)
    requires k <= |todo|
    requires Installs(h, platform, apps, todo).failure.None?
    ensures Installs(h, platform, Installs(h, platform, apps, todo).apps, todo[..k])
      == Run(Installs(h, platform, apps, todo).apps, Installs(h, platform, apps, todo[..k]).updates, None)
    decreases k
  {
    var last := Installs(h, platform, apps, todo).apps;
    if k > 0 {
      ReplayPrefix(h, platform, apps, todo, k - 1);
      var prefix := todo[..k];
      assert prefix[..k - 1] == todo[..k - 1];
      var app := todo[k - 1];
      assert prefix[k - 1] == app;
      var prev := Installs(h, platform, apps, todo[..k - 1]);
      if prev.failure.Some? {
        InstallsStopAtFailure(h, platform, apps, todo, k - 1);
      }
      var visit := InstallStep(h, platform, prev.apps, app);
      if visit.failure.Some? {
        InstallsStopAtFailure(h, platform, apps, todo, k);
      }
      StepFacts(h, platform, prev.apps, app);
      StepFacts(h, platform, last, app);
      if app.IsSupported(platform.0, platform.1) {
        InstalledPersists(h, platform, apps, todo, k, app.name, app.version);
      }
    }
  }

  /** `Poks.install`. */
  method Install(config: Config, rawOs: string, rawMachine: string, h: Host, apps: Apps)
    returns (apps': Apps, r: Result<map<string, string>>)
    ensures (apps', r) == InstallOutcome(h, rawOs, rawMachine, apps, config.apps)
  {
    var platform := GetCurrentPlatform(rawOs, rawMachine);
    if platform.Err? {
      return apps, Err(platform.error);
    }
    var envUpdates: seq<map<string, string>> := [];
    apps' := apps;
    var i := 0;
    while i < |config.apps|
      invariant 0 <= i <= |config.apps|
      invariant Installs(h, platform.value, apps, config.apps[..i]) == Run(apps', envUpdates, None)
    {
      var visit := InstallOne(h, platform.value, apps', config.apps[i]);
      assert config.apps[..i + 1][..i] == config.apps[..i];
      if visit.failure.Some? {
        InstallsStopAtFailure(h, platform.value, apps, config.apps, i + 1);
        return visit.apps, Err(visit.failure.value);
      }
      apps' := visit.apps;
      if visit.update.Some? {
        envUpdates := envUpdates + [visit.update.value];
      }
      i := i + 1;
    }
    assert config.apps[..i] == config.apps;
    var merged := MergeEnvUpdates(envUpdates, h.sep);
    r := Ok(merged);
  }

  /** The body of the loop in `install`, one decision after the other. */
  method InstallOne(h: Host, platform: (string, string), apps: Apps, app: App) returns (visit: Visit)
    ensures visit == InstallStep(h, platform, apps, app)
  {
    if !app.IsSupported(platform.0, platform.1) {
      return Visit(apps, None, None);
    }
    if app.bucket !in h.synced {
      return Refused(apps, UnknownBucket(app.bucket));
    }
    var bucket := h.synced[app.bucket];
    if app.name !in bucket {
      return Refused(apps, ManifestNotFound(app.name));
    }
    var manifest := bucket[app.name];
    var found := SelectVersion(manifest.versions, app.version);
    if found.None? {
      return Refused(apps, VersionNotFound(app.version, app.name));
    }
    var v := manifest.versions[found.value];
    if Truthy(v.yanked) {
      return Refused(apps, VersionYanked(app.version, app.name, v.yanked.value));
    }
    var dir := InstallDir(h.appsPath, app.name, app.version);
    if Installed(apps, app.name, app.version) {
      var update := CollectEnvUpdates(v, dir, h.sep);
      return Visit(apps, Some(update), None);
    }
    var archive := ResolveArchive(v, platform.0, platform.1);
    if archive.Err? {
      return Refused(apps, archive.error);
    }
    var url := ResolveDownloadUrl(v, archive.value);
    if url.Err? {
      return Refused(apps, url.error);
    }
    var payload := h.fetch(url.value, archive.value.sha256);
    if payload.Err? {
      return Refused(apps, payload.error);
    }
    var archiveName := Downloader.CacheName(url.value, h.hash);
    var format := Extractor.DetectFormat(archiveName);
    if format.Err? {
      return Refused(apps, format.error);
    }
    if AppAt(apps, app.name) == Some(AppFile) {
      return Refused(apps, NotADirectory(app.name));
    }
    var x := Extractor.ExtractArchive(archiveName, payload.value, dir, map[], v.extractDir, h.dataFilter);
    if x.failure.Some? {
      return Visit(Some(WithVersion(apps, app.name, app.version, VersionDir(x.files, NoManifest))), None, x.failure);
    }
    var installed := WithVersion(apps, app.name, app.version, VersionDir(x.files, Stored(manifest)));
    var update := CollectEnvUpdates(v, dir, h.sep);
    visit := Visit(Some(installed), Some(update), None);
  }

  // ----- list -----

  /** The entry `list` reports for the version directory `name/version`. */
  function Listed(appsPath: Path, name: string, version: string, stored: StoredManifest): (e: App)
    ensures e.name == name && e.version == version && e.bucket == "unknown"
    ensures e.os.None? && e.arch.None?
    ensures stored.Stored? && FindVersion(stored.manifest.versions, version).Some? && HasBin(stored.manifest.versions[FindVersion(stored.manifest.versions, version).value]) ==> e.dirs.Some?
    ensures e.dirs.Some? ==> |e.dirs.value| > 0
    ensures e.env.Some? ==> |e.env.value| > 0
    ensures !stored.Stored? ==> e.dirs.None? && e.env.None?
  {
    var dir := InstallDir(appsPath, name, version);
    var found := if stored.Stored? then FindVersion(stored.manifest.versions, version) else None;
    var dirs := if found.Some? && HasBin(stored.manifest.versions[found.value])
      then BinDirs(dir, stored.manifest.versions[found.value].bin.value) else [];
    var env := if found.Some? then ExpandAll(EnvEntries(stored.manifest.versions[found.value]), ToString(dir)) else map[];
    App(name, version, "unknown", None, None, if |dirs| > 0 then Some(dirs) else None, if |env| > 0 then Some(env) else None)
  }

  /** What `list` shows for an installed version agrees with what `install` contributes:
      the same bin directories (which make up the `PATH` unless `env` sets one) and the
      same expanded `env` values. */
  lemma ListingMatchesInstall(appsPath: Path, name: string, version: string, manifest: Manifest, sep: string)
    requires FindVersion(manifest.versions, version).Some?
    ensures
      var v := manifest.versions[FindVersion(manifest.versions, version).value];
      var dir := InstallDir(appsPath, name, version);
      var e := Listed(appsPath, name, version, Stored(manifest));
      && (e.dirs.Some? <==> HasBin(v))
      && (HasBin(v) ==> e.dirs.value == BinDirs(dir, v.bin.value))
      && (HasBin(v) && "PATH" !in EnvEntries(v) ==> EnvUpdates(v, dir, sep)["PATH"] == Join(sep, e.dirs.value))
      && (e.env.Some? <==> |EnvEntries(v)| > 0)
      && (e.env.Some? ==> e.env.value.Keys == EnvEntries(v).Keys)
      && (forall k :: k in EnvEntries(v) ==> e.env.value[k] == EnvUpdates(v, dir, sep)[k])
  {
    var v := manifest.versions[FindVersion(manifest.versions, version).value];
    var dir := InstallDir(appsPath, name, version);
    EnvUpdatesContents(v, dir, sep);
    var env := ExpandAll(EnvEntries(v), ToString(dir));
    assert |env| == |EnvEntries(v)| by {
      assert env.Keys == EnvEntries(v).Keys;
    }
  }

  /** An entry of the result of `list`. */
  predicate IsListedEntry(apps: Apps, appsPath: Path, e: App)
  {
    IsVersionDir(apps, e.name, e.version)
    && e == Listed(appsPath, e.name, e.version, apps.value[e.name].versions[e.version].stored)
  }

  /** The entry for one version directory, as the inner loop of `list` builds it. */
  method Describe(appsPath: Path, name: string, version: string, stored: StoredManifest) returns (e: App)
    ensures e == Listed(appsPath, name, version, stored)
  {
    var dir := InstallDir(appsPath, name, version);
    var dirs: seq<string> := [];
    var env: map<string, string> := map[];
    if stored.Stored? {
      var found := SelectVersion(stored.manifest.versions, version);
      if found.Some? {
        var v := stored.manifest.versions[found.value];
        if HasBin(v) {
          dirs := BinDirs(dir, v.bin.value);
        }
        if v.env.Some? && |v.env.value| > 0 {
          env := ExpandEnv(v.env.value, ToString(dir));
        }
        assert env == ExpandAll(EnvEntries(v), ToString(dir));
      }
    }
    e := App(name, version, "unknown", None, None, if |dirs| > 0 then Some(dirs) else None, if |env| > 0 then Some(env) else None);
  }

  /** Appending the entry of version `version` keeps the invariants of the inner loop
      in `list`. */
  lemma AppendVersion(apps: Apps, appsPath: Path, name: string, todo: set<string>, version: string, before: seq<App>, e: App)
    requires version in todo && IsVersionDir(apps, name, version)
    requires e.name == name && e.version == version && IsListedEntry(apps, appsPath, e)
    requires forall i :: 0 <= i < |before| ==> before[i].name == name && IsListedEntry(apps, appsPath, before[i]) && before[i].version !in todo
    requires forall ver :: ver !in todo && IsVersionDir(apps, name, ver) ==> exists i :: 0 <= i < |before| && before[i].version == ver
    requires forall i, j :: 0 <= i < j < |before| ==> before[i].version != before[j].version
    ensures forall i :: 0 <= i < |before + [e]| ==> (before + [e])[i].name == name && IsListedEntry(apps, appsPath, (before + [e])[i]) && (before + [e])[i].version !in todo - {version}
    ensures forall ver :: ver !in todo - {version} && IsVersionDir(apps, name, ver) ==> exists i :: 0 <= i < |before + [e]| && (before + [e])[i].version == ver
    ensures forall i, j :: 0 <= i < j < |before + [e]| ==> (before + [e])[i].version != (before + [e])[j].version
  {
    var found := before + [e];
    assert forall i :: 0 <= i < |before| ==> found[i] == before[i];
    assert found[|before|] == e;
    forall ver | ver !in todo - {version} && IsVersionDir(apps, name, ver)
      ensures exists i :: 0 <= i < |found| && found[i].version == ver
    {
      if ver != version {
        var i :| 0 <= i < |before| && before[i].version == ver;
        assert found[i] == before[i];
      }
    }
  }

  /** The entries of the version directories of app `name`, in some order. */
  method ListVersions(apps: Apps, appsPath: Path, name: string) returns (found: seq<App>)
    requires apps.Some? && name in apps.value && apps.value[name].AppDir?
    ensures forall i :: 0 <= i < |found| ==> found[i].name == name && IsListedEntry(apps, appsPath, found[i])
    ensures forall ver :: IsVersionDir(apps, name, ver) ==> exists i :: 0 <= i < |found| && found[i].version == ver
    ensures forall i, j :: 0 <= i < j < |found| ==> found[i].version != found[j].version
  {
    var versions := apps.value[name].versions;
    found := [];
    var todo := versions.Keys;
    while todo != {}
      invariant todo <= versions.Keys
      invariant forall i :: 0 <= i < |found| ==> found[i].name == name && IsListedEntry(apps, appsPath, found[i]) && found[i].version !in todo
      invariant forall ver :: ver !in todo && IsVersionDir(apps, name, ver) ==> exists i :: 0 <= i < |found| && found[i].version == ver
      invariant forall i, j :: 0 <= i < j < |found| ==> found[i].version != found[j].version
      decreases todo
    {
      var version :| version in todo;
      if versions[version].VersionDir? {
        var e := Describe(appsPath, name, version, versions[version].stored);
        AppendVersion(apps, appsPath, name, todo, version, found, e);
        found := found + [e];
      }
      todo := todo - {version};
    }
  }

  /** Appending the entries of app `name` to those of the apps already visited keeps
      the invariants of the loop in `list`. */
  lemma AppendListed(apps: Apps, appsPath: Path, names: set<string>, name: string, before: seq<App>, found: seq<App>)
    requires name in names
    requires forall i :: 0 <= i < |before| ==> IsListedEntry(apps, appsPath, before[i]) && before[i].name !in names
    requires forall n, ver :: n !in names && IsVersionDir(apps, n, ver) ==> exists i :: 0 <= i < |before| && before[i].name == n && before[i].version == ver
    requires forall i, j :: 0 <= i < j < |before| ==> before[i].name != before[j].name || before[i].version != before[j].version
    requires forall i :: 0 <= i < |found| ==> found[i].name == name && IsListedEntry(apps, appsPath, found[i])
    requires forall ver :: IsVersionDir(apps, name, ver) ==> exists i :: 0 <= i < |found| && found[i].version == ver
    requires forall i, j :: 0 <= i < j < |found| ==> found[i].version != found[j].version
    ensures forall i :: 0 <= i < |before + found| ==> IsListedEntry(apps, appsPath, (before + found)[i]) && (before + found)[i].name !in names - {name}
    ensures forall n, ver :: n !in names - {name} && IsVersionDir(apps, n, ver) ==> exists i :: 0 <= i < |before + found| && (before + found)[i].name == n && (before + found)[i].version == ver
    ensures forall i, j :: 0 <= i < j < |before + found| ==> (before + found)[i].name != (before + found)[j].name || (before + found)[i].version != (before + found)[j].version
  {
    var r := before + found;
    assert forall i :: 0 <= i < |before| ==> r[i] == before[i];
    assert forall i :: 0 <= i < |found| ==> r[|before| + i] == found[i];
    forall n, ver | n !in names - {name} && IsVersionDir(apps, n, ver)
      ensures exists i :: 0 <= i < |r| && r[i].name == n && r[i].version == ver
    {
      if n == name {
        var i :| 0 <= i < |found| && found[i].version == ver;
        assert r[|before| + i] == found[i];
      } else {
        var i :| 0 <= i < |before| && before[i].name == n && before[i].version == ver;
        assert r[i] == before[i];
      }
    }
  }

  /** `Poks.list`: every version directory of every app directory, in directory order. */
  method List(apps: Apps, appsPath: Path) returns (r: seq<App>)
    ensures apps.None? ==> r == []
    ensures forall i :: 0 <= i < |r| ==> IsListedEntry(apps, appsPath, r[i])
    ensures forall n, ver :: IsVersionDir(apps, n, ver) ==> exists i :: 0 <= i < |r| && r[i].name == n && r[i].version == ver
    ensures forall i, j :: 0 <= i < j < |r| ==> r[i].name != r[j].name || r[i].version != r[j].version
  {
    if apps.None? {
      return [];
    }
    var dir := apps.value;
    r := [];
    var names := dir.Keys;
    while names != {}
      invariant names <= dir.Keys
      invariant forall i :: 0 <= i < |r| ==> IsListedEntry(apps, appsPath, r[i]) && r[i].name !in names
      invariant forall n, ver :: n !in names && IsVersionDir(apps, n, ver) ==> exists i :: 0 <= i < |r| && r[i].name == n && r[i].version == ver
      invariant forall i, j :: 0 <= i < j < |r| ==> r[i].name != r[j].name || r[i].version != r[j].version
      decreases names
    {
      var name :| name in names;
      if dir[name].AppDir? {
        var found := ListVersions(apps, appsPath, name);
        AppendListed(apps, appsPath, names, name, r, found);
        r := r + found;
      }
      names := names - {name};
    }
  }

  // ----- uninstall -----

  /** What `uninstall(all_apps=True)` keeps: the plain files of `apps`. */
  function WithoutAppDirs(a: map<string, AppEntry>): (r: map<string, AppEntry>)
    ensures forall n :: n in r ==> r[n] == AppFile
    ensures forall n :: n in a && a[n] == AppFile ==> n in r
    ensures r.Keys <= a.Keys
  {
    map n | n in a && a[n].AppFile? :: a[n]
  }

  /** `rmtree(app_dir / version)`, and the app directory too once it is empty. */
  function WithoutVersion(a: map<string, AppEntry>, name: string, version: string): (r: map<string, AppEntry>)
    requires name in a && a[name].AppDir?
    ensures forall n :: n != name ==> AppAt(Some(r), n) == AppAt(Some(a), n)
    ensures !Installed(Some(r), name, version)
    ensures forall v :: v != version ==> VersionAt(Some(r), name, v) == VersionAt(Some(a), name, v)
    ensures name in r ==> r[name].AppDir? && |r[name].versions| > 0
  {
    var rest := a[name].versions - {version};
    if |rest| == 0 then a - {name} else a[name := AppDir(rest)]
  }

  /** Removing a version that a fresh install created restores the apps directory. */
  lemma UninstallUndoesInstall(a: map<string, AppEntry>, name: string, version: string, e: VersionEntry)
    requires !Installed(Some(a), name, version)
    requires name in a ==> a[name].AppDir? && |a[name].versions| > 0
    ensures WithoutVersion(WithVersion(Some(a), name, version, e), name, version) == a
  {
    var r := WithoutVersion(WithVersion(Some(a), name, version, e), name, version);
    if name in a {
      assert a[name].versions[version := e] - {version} == a[name].versions;
      assert r == a[name := AppDir(a[name].versions)];
    } else {
      assert map[version := e] - {version} == map[];
    }
    assert r.Keys == a.Keys;
  }

  /** `Poks.uninstall`. */
  method Uninstall(apps: Apps, name: Option<string>, version: Option<string>, allApps: bool) returns (apps': Apps, r: Result<()>)
    ensures allApps && apps.None? ==> apps' == apps && r == Err(AppsDirMissing)
    ensures allApps && apps.Some? ==> apps' == Some(WithoutAppDirs(apps.value)) && r == Ok(())
    ensures !allApps && !Truthy(name) ==> apps' == apps && r == Ok(())
    ensures !allApps && Truthy(name) && Truthy(version) ==>
      var target := name.value + "@" + version.value;
      && (!Installed(apps, name.value, version.value) ==> apps' == apps && r == Err(NotInstalled(target)))
      && (VersionAt(apps, name.value, version.value) == Some(VersionFile) ==> apps' == apps && r == Err(NotADirectory(target)))
      && (IsVersionDir(apps, name.value, version.value) ==>
            apps' == Some(WithoutVersion(apps.value, name.value, version.value)) && r == Ok(()))
    ensures !allApps && Truthy(name) && !Truthy(version) ==>
      && (AppAt(apps, name.value).None? ==> apps' == apps && r == Err(NotInstalled(name.value)))
      && (AppAt(apps, name.value) == Some(AppFile) ==> apps' == apps && r == Err(NotADirectory(name.value)))
      && (AppAt(apps, name.value).Some? && AppAt(apps, name.value).value.AppDir? ==>
            apps' == Some(apps.value - {name.value}) && r == Ok(()))
  {
    if allApps {
      if apps.None? {
        return apps, Err(AppsDirMissing);
      }
      var kept := apps.value;
      var todo := apps.value.Keys;
      while todo != {}
        invariant todo <= apps.value.Keys
        invariant kept.Keys <= apps.value.Keys
        invariant forall n :: n in apps.value && n !in todo ==> (n in kept <==> apps.value[n].AppFile?)
        invariant forall n :: n in todo ==> n in kept
        invariant forall n :: n in kept ==> kept[n] == apps.value[n]
        decreases todo
      {
        var item :| item in todo;
        if apps.value[item].AppDir? {
          kept := kept - {item};
        }
        todo := todo - {item};
      }
      assert kept == WithoutAppDirs(apps.value);
      return Some(kept), Ok(());
    }
    if !Truthy(name) {
      return apps, Ok(());
    }
    var app := name.value;
    if Truthy(version) {
      var target := app + "@" + version.value;
      if !Installed(apps, app, version.value) {
        return apps, Err(NotInstalled(target));
      }
      if apps.value[app].versions[version.value].VersionFile? {
        return apps, Err(NotADirectory(target));
      }
      var rest := apps.value[app].versions - {version.value};
      if |rest| == 0 {
        apps' := Some(apps.value - {app});
      } else {
        apps' := Some(apps.value[app := AppDir(rest)]);
      }
      return apps', Ok(());
    }
    if AppAt(apps, app).None? {
      return apps, Err(NotInstalled(app));
    }
    if apps.value[app].AppFile? {
      return apps, Err(NotADirectory(app));
    }
    return Some(apps.value - {app}), Ok(());
  }

  // ----- install_app -----

  /** An entry of `buckets_dir` in directory order: a plain file, or a bucket checkout
      with its manifests by app name. */
  datatype LocalEntry = LocalFile(name: string) | LocalBucket(name: string, manifests: map<string, Manifest>)

  predicate HasManifest(e: LocalEntry, appName: string)
  {
    e.LocalBucket? && appName in e.manifests
  }

  /** Entry `i` is the first of `local` that holds the manifest of `appName`. */
  predicate FirstHolder(local: seq<LocalEntry>, appName: string, i: int)
  {
    0 <= i < |local| && HasManifest(local[i], appName) && forall j :: 0 <= j < i ==> !HasManifest(local[j], appName)
  }

  /** `search_all_buckets`: the first local bucket that has the manifest. */
  function SearchAllBuckets(appName: string, local: seq<LocalEntry>): (r: Result<string>)
    ensures |local| == 0 ==> r == Err(NoLocalBuckets)
    ensures r.Ok? ==> exists i :: FirstHolder(local, appName, i) && local[i].name == r.value
    ensures |local| > 0 ==> (r.Err? <==> forall i :: 0 <= i < |local| ==> !HasManifest(local[i], appName))
    ensures |local| > 0 && r.Err? ==> r.error == ManifestNotFound(appName)
  {
    if |local| == 0 then Err(NoLocalBuckets) else FirstWithManifest(appName, local)
  }

  function FirstWithManifest(appName: string, local: seq<LocalEntry>): (r: Result<string>)
    ensures r.Ok? ==> exists i :: FirstHolder(local, appName, i) && local[i].name == r.value
    ensures r.Err? <==> forall i :: 0 <= i < |local| ==> !HasManifest(local[i], appName)
    ensures r.Err? ==> r.error == ManifestNotFound(appName)
    decreases |local|
  {
    if |local| == 0 then Err(ManifestNotFound(appName))
    else if HasManifest(local[0], appName) then Ok(local[0].name)
    else
      var r := FirstWithManifest(appName, local[1..]);
      if r.Ok? then
        var i :| FirstHolder(local[1..], appName, i) && local[1..][i].name == r.value;
        assert forall j :: 1 <= j < i + 1 ==> local[j] == local[1..][j - 1];
        assert FirstHolder(local, appName, i + 1);
        r
      else r
  }

  /** `is_bucket_url`. */
  predicate IsBucketUrl(value: string)
  {
    Contains(value, "://") || EndsWith(value, ".git")
  }

  /** The entry of `buckets_dir` named `name`, if there is one. */
  function LocalNamed(local: seq<LocalEntry>, name: string): (r: Option<LocalEntry>)
    ensures r.Some? ==> r.value in local && r.value.name == name
    ensures r.None? <==> forall i :: 0 <= i < |local| ==> local[i].name != name
    decreases |local|
  {
    if |local| == 0 then None
    else if local[0].name == name then Some(local[0])
    else LocalNamed(local[1..], name)
  }

  /** The single app `install_app(app_spec, bucket)` installs: the spec splits at its
      first `@`; a bucket URL is synced as the bucket `temp` (`remote` is what it holds
      then), a bucket name must be a local entry, and without a bucket every local
      bucket is searched. */
  function ResolveAppSpec(spec: string, bucket: Option<string>, local: seq<LocalEntry>, remote: map<string, Manifest>): (r: Result<App>)
    ensures (r == Err(InvalidAppSpec(spec))) <==> '@' !in spec
    ensures r.Ok? ==> IndexOf(spec, '@').Some? && r.value.name == spec[..IndexOf(spec, '@').value] && r.value.version == spec[IndexOf(spec, '@').value + 1..]
    ensures r.Ok? ==> r.value.os.None? && r.value.arch.None? && r.value.dirs.None? && r.value.env.None?
    ensures r.Ok? && Truthy(bucket) && IsBucketUrl(bucket.value) ==> r.value.bucket == "temp" && r.value.name in remote
    ensures r.Ok? && Truthy(bucket) && !IsBucketUrl(bucket.value) ==> r.value.bucket == bucket.value && LocalNamed(local, bucket.value).Some? && HasManifest(LocalNamed(local, bucket.value).value, r.value.name)
    ensures Truthy(bucket) && !IsBucketUrl(bucket.value) && '@' in spec && LocalNamed(local, bucket.value).None? ==>
      r == Err(BucketNotFound(bucket.value))
    ensures r.Ok? && !Truthy(bucket) ==> SearchAllBuckets(r.value.name, local) == Ok(r.value.bucket)
    ensures '@' in spec ==>
      var name := spec[..IndexOf(spec, '@').value];
      && (Truthy(bucket) && IsBucketUrl(bucket.value) ==>
            (r.Ok? <==> name in remote) && (r.Err? ==> r.error == ManifestNotFound(name)))
      && (Truthy(bucket) && !IsBucketUrl(bucket.value) && LocalNamed(local, bucket.value).Some? ==>
            (r.Ok? <==> HasManifest(LocalNamed(local, bucket.value).value, name)) && (r.Err? ==> r.error == ManifestNotFound(name)))
      && (!Truthy(bucket) ==>
            (r.Ok? <==> SearchAllBuckets(name, local).Ok?) && (r.Err? ==> r.error == SearchAllBuckets(name, local).error))
  {
    match IndexOf(spec, '@')
    case None => Err(InvalidAppSpec(spec))
    case Some(i) =>
      var name := spec[..i];
      var version := spec[i + 1..];
      var bucketName :-
        if Truthy(bucket) then
          if IsBucketUrl(bucket.value) then
            if name in remote then Ok("temp") else Err(ManifestNotFound(name))
          else match LocalNamed(local, bucket.value)
            case None => Err(BucketNotFound(bucket.value))
            case Some(entry) => if HasManifest(entry, name) then Ok(bucket.value) else Err(ManifestNotFound(name))
        else SearchAllBuckets(name, local);
      Ok(App(name, version, bucketName, None, None, None, None))
  }

  /** What `install` finds once `install_app` has chosen the bucket: a bucket URL is
      synced under `temp` with the manifests `remote` holds, and every local bucket
      checkout is synced under its own name with its own manifests. */
  predicate SyncedAsSeen(h: Host, bucket: Option<string>, local: seq<LocalEntry>, remote: map<string, Manifest>)
  {
    if Truthy(bucket) && IsBucketUrl(bucket.value) then "temp" in h.synced && h.synced["temp"] == remote
    else forall i :: 0 <= i < |local| && local[i].LocalBucket? ==> local[i].name in h.synced && h.synced[local[i].name] == local[i].manifests
  }

  /** The bucket and manifest `install_app` resolved are the ones `install` looks up, so
      installing a resolved spec passes the bucket and manifest checks of `InstallStep`. */
  lemma ResolvedSpecIsSynced(spec: string, bucket: Option<string>, local: seq<LocalEntry>, remote: map<string, Manifest>, h: Host)
    requires SyncedAsSeen(h, bucket, local, remote)
    requires ResolveAppSpec(spec, bucket, local, remote).Ok?
    ensures var app := ResolveAppSpec(spec, bucket, local, remote).value;
      app.bucket in h.synced && app.name in h.synced[app.bucket]
  {
    var app := ResolveAppSpec(spec, bucket, local, remote).value;
    if Truthy(bucket) && !IsBucketUrl(bucket.value) {
      var e := LocalNamed(local, bucket.value).value;
      var i :| 0 <= i < |local| && local[i] == e;
    } else if !Truthy(bucket) {
      var i :| FirstHolder(local, app.name, i) && local[i].name == app.bucket;
    }
  }

  /** `Poks.install_app`: the configuration of one bucket record (with an empty url) and
      the one app is installed; the environment it returns is dropped. */
  method InstallApp(spec: string, bucket: Option<string>, local: seq<LocalEntry>, remote: map<string, Manifest>,
                    rawOs: string, rawMachine: string, h: Host, apps: Apps)
    returns (apps': Apps, r: Result<()>)
    ensures ResolveAppSpec(spec, bucket, local, remote).Err? ==>
      apps' == apps && r == Err(ResolveAppSpec(spec, bucket, local, remote).error)
    ensures ResolveAppSpec(spec, bucket, local, remote).Ok? ==>
      var outcome := InstallOutcome(h, rawOs, rawMachine, apps, [ResolveAppSpec(spec, bucket, local, remote).value]);
      && apps' == outcome.0
      && (outcome.1.Err? ==> r == Err(outcome.1.error))
      && (outcome.1.Ok? ==> r == Ok(()))
  {
    var app := ResolveAppSpec(spec, bucket, local, remote);
    if app.Err? {
      return apps, Err(app.error);
    }
    var record := new Bucket("", Some(app.value.bucket), None);
    var config := Config([record], [app.value]);
    var env;
    apps', env := Install(config, rawOs, rawMachine, h, apps);
    if env.Err? {
      return apps', Err(env.error);
    }
    r := Ok(());
  }
}
