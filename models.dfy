/** The records of a manifest and a configuration file, the bucket registry, and the
    platform filter of a configured app. */
module Models {
  import opened Base

  /** One platform-specific download of a version. */
  datatype Archive = Archive(
    os: string,
    arch: string,
    sha256: string,
    ext: Option<string>,
    url: Option<string>)

  /** One version of an application and how to install it. */
  datatype AppVersion = AppVersion(
    version: string,
    archives: seq<Archive>,
    extractDir: Option<string>,
    bin: Option<seq<string>>,
    env: Option<map<string, string>>,
    license: Option<string>,
    yanked: Option<string>,
    url: Option<string>)

  /** The document describing an application and its versions. */
  datatype Manifest = Manifest(
    description: string,
    versions: seq<AppVersion>,
    schemaVersion: string,
    license: Option<string>,
    homepage: Option<string>)

  const DefaultSchemaVersion: string := "1.0.0"

  /** An application entry of the configuration file, also used for the entries that
      listing reports. */
  datatype App = App(
    name: string,
    version: string,
    bucket: string,
    os: Option<seq<string>>,
    arch: Option<seq<string>>,
    dirs: Option<seq<string>>,
    env: Option<map<string, string>>)
  {
    /** An absent filter admits every platform; a present one must list the value. */
    predicate IsSupported(targetOs: string, targetArch: string)
    {
      (os.None? || targetOs in os.value) && (arch.None? || targetArch in arch.value)
    }
  }

  /** The platforms an app admits, over the platforms `Platforms(oses, arches)` names. */
  function Admitted(app: App, oses: seq<string>, arches: seq<string>): (ps: set<(string, string)>)
    ensures forall p :: p in ps ==> p.0 in oses && p.1 in arches
  {
    set o, a | o in oses && a in arches && app.IsSupported(o, a) :: (o, a)
  }

  /** An app without filters admits every platform; with both filters it admits exactly
      the pairs of a listed system and a listed architecture, and an empty list admits
      none. */
  lemma AdmittedByFilters(app: App, oses: seq<string>, arches: seq<string>)
    ensures app.os.None? && app.arch.None? ==>
      Admitted(app, oses, arches) == set o, a | o in oses && a in arches :: (o, a)
    ensures app.os.Some? && app.arch.Some? ==>
      Admitted(app, oses, arches) == set o, a | o in oses && o in app.os.value && a in arches && a in app.arch.value :: (o, a)
    ensures app.os == Some([]) || app.arch == Some([]) ==> Admitted(app, oses, arches) == {}
  {
  }

  /** A Git repository of manifests; the registry updates these objects in place. */
  class Bucket {
    var url: string
    var name: Option<string>
    var id: Option<string>

    constructor (url: string, name: Option<string>, id: Option<string>)
      ensures this.url == url && this.name == name && this.id == id
    {
      this.url := url;
      this.name := name;
      this.id := id;
    }
  }

  /** The configuration file: buckets to sync and apps to install, in order. */
  datatype Config = Config(buckets: seq<Bucket>, apps: seq<App>)

  datatype BucketField = ByName | ByUrl | ById

  predicate HasField(b: Bucket, field: BucketField, value: string)
    reads b
  {
    match field
    case ByName => b.name == Some(value)
    case ByUrl => b.url == value
    case ById => b.id == Some(value)
  }

  /** The index of the first bucket whose `field` equals `value`. */
  function FirstWith(bs: seq<Bucket>, field: BucketField, value: string): (r: Option<nat>)
    reads set b | b in bs
    ensures r.Some? ==> r.value < |bs| && HasField(bs[r.value], field, value)
    ensures r.Some? ==> forall j :: 0 <= j < r.value ==> !HasField(bs[j], field, value)
    ensures r.None? <==> forall j :: 0 <= j < |bs| ==> !HasField(bs[j], field, value)
    decreases |bs|
  {
    if |bs| == 0 then None
    else if HasField(bs[0], field, value) then Some(0)
    else match FirstWith(bs[1..], field, value)
      case None => None
      case Some(i) => Some(i + 1)
  }

  /** `[b for b in bs if b.id != bucket_id]`. */
  function WithoutId(bs: seq<Bucket>, bucketId: string): (r: seq<Bucket>)
    reads set b | b in bs
    ensures forall b :: b in r ==> b in bs && b.id != Some(bucketId)
    ensures forall b :: b in bs && b.id != Some(bucketId) ==> b in r
    decreases |bs|
  {
    if |bs| == 0 then []
    else if bs[0].id == Some(bucketId) then WithoutId(bs[1..], bucketId)
    else [bs[0]] + WithoutId(bs[1..], bucketId)
  }

  /** Removal keeps the surviving buckets in their original order: it distributes
      over concatenation. */
  lemma {:induction false} WithoutIdAppend(a: seq<Bucket>, b: seq<Bucket>, bucketId: string)
    ensures WithoutId(a + b, bucketId) == WithoutId(a, bucketId) + WithoutId(b, bucketId)
    decreases |a|
  {
    if |a| == 0 {
      assert a + b == b;
    } else {
      var rest := a[1..] + b;
      assert (a + b)[0] == a[0] && (a + b)[1..] == rest;
      WithoutIdAppend(a[1..], b, bucketId);
      if a[0].id == Some(bucketId) {
        assert WithoutId(a + b, bucketId) == WithoutId(rest, bucketId);
      } else {
        assert WithoutId(a + b, bucketId) == [a[0]] + WithoutId(rest, bucketId);
      }
    }
  }

  /** The registry of known buckets. */
  class BucketRegistry {
    var buckets: seq<Bucket>

    constructor ()
      ensures buckets == []
    {
      buckets := [];
    }

    function GetByName(name: string): (r: Option<Bucket>)
      reads this, set b | b in buckets
      ensures r.Some? ==>
        exists i :: 0 <= i < |buckets| && buckets[i] == r.value && (forall j :: 0 <= j < i ==> buckets[j].name != Some(name))
      ensures r.Some? ==> r.value.name == Some(name)
      ensures r.None? <==> forall j :: 0 <= j < |buckets| ==> buckets[j].name != Some(name)
    {
      match FirstWith(buckets, ByName, name)
      case None => None
      case Some(i) => Some(buckets[i])
    }

    function GetByUrl(url: string): (r: Option<Bucket>)
      reads this, set b | b in buckets
      ensures r.Some? ==>
        exists i :: 0 <= i < |buckets| && buckets[i] == r.value && (forall j :: 0 <= j < i ==> buckets[j].url != url)
      ensures r.Some? ==> r.value.url == url
      ensures r.None? <==> forall j :: 0 <= j < |buckets| ==> buckets[j].url != url
    {
      match FirstWith(buckets, ByUrl, url)
      case None => None
      case Some(i) => Some(buckets[i])
    }

    function GetById(bucketId: string): (r: Option<Bucket>)
      reads this, set b | b in buckets
      ensures r.Some? ==>
        exists i :: 0 <= i < |buckets| && buckets[i] == r.value && (forall j :: 0 <= j < i ==> buckets[j].id != Some(bucketId))
      ensures r.Some? ==> r.value.id == Some(bucketId)
      ensures r.None? <==> forall j :: 0 <= j < |buckets| ==> buckets[j].id != Some(bucketId)
    {
      match FirstWith(buckets, ById, bucketId)
      case None => None
      case Some(i) => Some(buckets[i])
    }

    /** The record `add_or_update(b)` changes: the first with `b`'s id when `b` has
        one, else the first with `b`'s url. */
    function Target(b: Bucket): (r: Option<Bucket>)
      reads this, b, set x | x in buckets
      ensures r.Some? ==> r.value in buckets
      ensures r.None? ==>
        (forall j :: 0 <= j < |buckets| ==> buckets[j].url != b.url)
        && (Truthy(b.id) ==> forall j :: 0 <= j < |buckets| ==> buckets[j].id != b.id)
    {
      var byId := if Truthy(b.id) then GetById(b.id.value) else None;
      if byId.Some? then byId else GetByUrl(b.url)
    }

    method AddOrUpdate(bucket: Bucket)
      modifies this, set x | x in buckets
      ensures old(Target(bucket)).None? ==> buckets == old(buckets) + [bucket]
      ensures old(Target(bucket)).None? ==>
        forall x :: x in old(buckets) ==> x.url == old(x.url) && x.name == old(x.name) && x.id == old(x.id)
      ensures old(Target(bucket)).Some? ==> buckets == old(buckets)
      ensures old(Target(bucket)).Some? ==>
        var e := old(Target(bucket)).value;
        && e.name == (if Truthy(old(bucket.name)) then old(bucket.name) else old(e.name))
        && e.url == old(bucket.url)
        && e.id == (if Truthy(old(bucket.id)) then old(bucket.id) else old(e.id))
        && forall x :: x in buckets && x != e ==> x.url == old(x.url) && x.name == old(x.name) && x.id == old(x.id)
      ensures |buckets| == old(|buckets|) + (if old(Target(bucket)).None? then 1 else 0)
      ensures bucket.url == old(bucket.url)
      ensures GetByUrl(bucket.url).Some?
      ensures Truthy(old(bucket.id)) ==> GetById(old(bucket.id).value).Some?
    {
      var existing := if Truthy(bucket.id) then GetById(bucket.id.value) else None;
      if existing.None? {
        existing := GetByUrl(bucket.url);
      }
      assert existing == Target(bucket);
      if existing.Some? {
        var e := existing.value;
        ghost var i :| 0 <= i < |buckets| && buckets[i] == e;
        var newName := if Truthy(bucket.name) then bucket.name else e.name;
        e.name := newName;
        e.url := bucket.url;
        var newId := if Truthy(bucket.id) then bucket.id else e.id;
        e.id := newId;
        assert HasField(buckets[i], ByUrl, bucket.url);
        if Truthy(old(bucket.id)) {
          assert HasField(buckets[i], ById, old(bucket.id).value);
        }
      } else {
        buckets := buckets + [bucket];
        assert buckets[|buckets| - 1] == bucket;
      }
    }

    method Remove(bucketId: string)
      modifies this
      ensures buckets == WithoutId(old(buckets), bucketId)
      ensures forall j :: 0 <= j < |buckets| ==> buckets[j].id != Some(bucketId)
    {
      buckets := WithoutId(buckets, bucketId);
    }
  }
}
