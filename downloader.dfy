/** The download cache: the cache file name of a URL, the chunked download with its
    running byte count, the chunked SHA-256 check, and the hit / corrupt-then-refetch /
    fetch-then-verify sequence. The cache directory is a map from file name to
    content, the network a map from URL to the server's reply, and SHA-256 an opaque
    function from bytes to its hex digest. */
module Downloader {
  import opened Base
  import opened Text
  import opened Paths

  /** `_HASH_CHUNK_SIZE`, also the read size of the download loop. */
  const ChunkSize: nat := 8192

  /** A server's reply to `urlopen`: the parsed `Content-Length`, the successive results
      of `read(8192)` (every read past the list gives `b""`), and the read that raises a
      transport error, if one does. */
  datatype Response = Response(contentLength: Option<nat>, chunks: seq<Bytes>, failsAt: Option<nat>)

  /** `s[:n]`. */
  function Prefix(s: string, n: nat): (r: string)
    ensures |r| == if |s| <= n then |s| else n
    ensures r <= s
  {
    if |s| <= n then s else s[..n]
  }

  /** `Path(url.split("?")[0].rstrip("/")).name`. */
  function UrlFileName(url: string): string
  {
    BaseName(RStrip(Split(url, '?')[0], '/'))
  }

  /** `_cache_path_for`: the first eight digest characters of the URL, `_`, and the URL's
      file name without query and trailing slashes. */
  function CacheName(url: string, hash: Bytes -> string): string
  {
    Prefix(hash(Utf8(url)), 8) + "_" + UrlFileName(url)
  }

  /** Every character of `s` is a lower-case hexadecimal digit, as `hexdigest()` gives. */
  predicate IsHexDigest(s: string)
  {
    forall i :: 0 <= i < |s| ==> s[i] in "0123456789abcdef"
  }

  /** With a hexadecimal digest, the cache name is one path component, so the cached file
      is a direct child of the cache directory whatever the URL holds. */
  lemma CacheNameStaysInCache(url: string, hash: Bytes -> string, cacheDir: Path)
    requires IsHexDigest(hash(Utf8(url)))
    ensures IsComponent(CacheName(url, hash)) && '/' !in CacheName(url, hash)
    ensures Resolve(cacheDir, CacheName(url, hash)) == cacheDir + [CacheName(url, hash)]
  {
    CacheNameIsComponent(url, hash);
    ComponentResolves(cacheDir, CacheName(url, hash));
  }

  lemma CacheNameIsComponent(url: string, hash: Bytes -> string)
    requires IsHexDigest(hash(Utf8(url)))
    ensures IsComponent(CacheName(url, hash)) && '/' !in CacheName(url, hash)
  {
    var digest := Prefix(hash(Utf8(url)), 8);
    var name := UrlFileName(url);
    var r := CacheName(url, hash);
    assert r == digest + "_" + name;
    assert '/' !in digest by {
      forall i | 0 <= i < |digest|
        ensures digest[i] != '/'
      {
        assert digest[i] == hash(Utf8(url))[i];
      }
    }
    assert '/' !in name;
    assert r[|digest|] == '_';
  }

  /** The query string never reaches the file name. */
  lemma QueryIgnored(url: string, query: string)
    requires '?' !in url
    ensures UrlFileName(url + "?" + query) == UrlFileName(url)
  {
    var s := url + "?" + query;
    assert s[|url|] == '?' && s[..|url|] == url;
    assert '?' !in s[..|url|];
    assert IndexOf(s, '?') == Some(|url|);
    assert Split(s, '?')[0] == url;
  }

  /** Trailing slashes never reach the file name. */
  lemma TrailingSlashIgnored(url: string)
    requires '?' !in url
    ensures UrlFileName(url + "/") == UrlFileName(url)
  {
    assert IndexOf(url + "/", '?').None?;
    assert IndexOf(url, '?').None?;
    assert (url + "/")[..|url|] == url;
  }

  /** `b"".join(chunks)`. */
  function Concat(chunks: seq<Bytes>): Bytes
    decreases |chunks|
  {
    if |chunks| == 0 then [] else Concat(chunks[..|chunks| - 1]) + chunks[|chunks| - 1]
  }

  /** The index of the read that ends the loop, counting from read `i`: the first empty
      chunk, the end of the list, or the failing read. */
  function StopFrom(r: Response, i: nat): (k: nat)
    requires i <= |r.chunks|
    ensures i <= k <= |r.chunks|
    ensures forall j :: i <= j < k ==> r.chunks[j] != [] && r.failsAt != Some(j)
    ensures k == |r.chunks| || r.chunks[k] == [] || r.failsAt == Some(k)
    decreases |r.chunks| - i
  {
    if i == |r.chunks| || r.chunks[i] == [] || r.failsAt == Some(i) then i else StopFrom(r, i + 1)
  }

  /** The number of chunks written. */
  function ChunksRead(r: Response): nat
  {
    StopFrom(r, 0)
  }

  /** Whether the transfer ends in a transport error. */
  predicate Failed(r: Response)
  {
    r.failsAt == Some(ChunksRead(r))
  }

  /** What the destination file holds afterwards: the chunks written before the loop
      ended, in order. */
  function Body(r: Response): Bytes
  {
    Concat(r.chunks[..ChunksRead(r)])
  }

  /** The callback's `(downloaded, total)` after each of the first `k` chunks. */
  function ReportsUpTo(r: Response, k: nat): (s: seq<(nat, Option<nat>)>)
    requires k <= |r.chunks|
    ensures |s| == k
    ensures forall j :: 0 <= j < k ==> s[j] == (|Concat(r.chunks[..j + 1])|, r.contentLength)
  {
    seq(k, j requires 0 <= j < k => (|Concat(r.chunks[..j + 1])|, r.contentLength))
  }

  function Reports(r: Response): seq<(nat, Option<nat>)>
  {
    ReportsUpTo(r, ChunksRead(r))
  }

  /** `download_file` into the cache entry `name`: an unreachable URL leaves the cache
      alone; otherwise the entry is truncated and receives each chunk as it is read,
      and a transport error mid-way leaves the part already written. */
  method DownloadFile(url: string, network: map<string, Response>, cache: map<string, Bytes>, name: string)
    returns (cache': map<string, Bytes>, r: Result<()>, reports: seq<(nat, Option<nat>)>)
    ensures url !in network ==> cache' == cache && r == Err(DownloadFailed(url)) && reports == []
    ensures url in network ==> cache' == cache[name := Body(network[url])]
    ensures url in network ==> reports == Reports(network[url])
    ensures url in network ==> (r.Err? <==> Failed(network[url]))
    ensures r.Err? ==> r.error == DownloadFailed(url)
  {
    if url !in network {
      return cache, Err(DownloadFailed(url)), [];
    }
    var response := network[url];
    var total := response.contentLength;
    var data: Bytes := [];
    cache' := cache[name := data];
    var downloaded: nat := 0;
    reports := [];
    var i := 0;
    while i < |response.chunks| && response.failsAt != Some(i) && response.chunks[i] != []
      invariant 0 <= i <= |response.chunks|
      invariant StopFrom(response, i) == ChunksRead(response)
      invariant data == Concat(response.chunks[..i]) && downloaded == |data|
      invariant cache' == cache[name := data]
      invariant reports == ReportsUpTo(response, i)
      decreases |response.chunks| - i
    {
      var chunk := response.chunks[i];
      assert response.chunks[..i + 1][..i] == response.chunks[..i];
      data := data + chunk;
      cache' := cache'[name := data];
      downloaded := downloaded + |chunk|;
      reports := reports + [(downloaded, total)];
      i := i + 1;
    }
    assert i == ChunksRead(response);
    r := if response.failsAt == Some(i) then Err(DownloadFailed(url)) else Ok(());
  }

  /** The last report carries the full size of the file written. */
  lemma LastReportIsBodySize(r: Response)
    requires ChunksRead(r) > 0
    ensures Reports(r)[|Reports(r)| - 1] == (|Body(r)|, r.contentLength)
  {
  }

  /** Every report counts more bytes than the one before it. */
  lemma ReportsIncrease(r: Response, j: nat)
    requires j + 1 < ChunksRead(r)
    ensures Reports(r)[j].0 < Reports(r)[j + 1].0
  {
    var k := ChunksRead(r);
    assert r.chunks[..j + 2][..j + 1] == r.chunks[..j + 1];
    assert r.chunks[j + 1] != [];
  }

  /** `verify_sha256`: the file is fed to the hash in chunks; a digest that differs from
      the expected one is an error naming the file and both digests. `hash` stands for
      the whole-content digest, so feeding chunks is modelled as hashing their
      concatenation, which the loop proves is the file's content. */
  method VerifySha256(data: Bytes, expected: string, hash: Bytes -> string, fileName: string) returns (r: Result<()>)
    ensures r.Err? <==> hash(data) != expected
    ensures r.Err? ==> r.error == HashMismatch(fileName, expected, hash(data))
  {
    var fed: Bytes := [];
    var pos := 0;
    while pos < |data|
      invariant 0 <= pos <= |data|
      invariant fed == data[..pos]
      decreases |data| - pos
    {
      var end := if pos + ChunkSize <= |data| then pos + ChunkSize else |data|;
      assert data[..end] == data[..pos] + data[pos..end];
      fed := fed + data[pos..end];
      pos := end;
    }
    assert fed == data;
    var actual := hash(fed);
    if actual != expected {
      return Err(HashMismatch(fileName, expected, actual));
    }
    return Ok(());
  }

  /** A cache entry that can be returned without downloading. */
  predicate Hit(cache: map<string, Bytes>, name: string, sha256: string, hash: Bytes -> string, useCache: bool)
  {
    useCache && name in cache && hash(cache[name]) == sha256
  }

  /** `get_cached_or_download`: a verified cache entry is returned as it is; a corrupt one
      is deleted; then the URL is downloaded into the entry and verified. */
  method GetCachedOrDownload(url: string, sha256: string, cache: map<string, Bytes>, network: map<string, Response>,
                             hash: Bytes -> string, useCache: bool)
    returns (cache': map<string, Bytes>, r: Result<string>, downloaded: bool, reports: seq<(nat, Option<nat>)>)
    ensures r.Ok? ==> r.value == CacheName(url, hash) && r.value in cache' && hash(cache'[r.value]) == sha256
    ensures forall k :: k != CacheName(url, hash) ==> (k in cache' <==> k in cache)
    ensures forall k :: k != CacheName(url, hash) && k in cache ==> cache'[k] == cache[k]
    ensures Hit(cache, CacheName(url, hash), sha256, hash, useCache) ==>
      cache' == cache && r == Ok(CacheName(url, hash)) && !downloaded && reports == []
    ensures !Hit(cache, CacheName(url, hash), sha256, hash, useCache) ==> downloaded
    ensures !Hit(cache, CacheName(url, hash), sha256, hash, useCache) && url !in network ==>
      r == Err(DownloadFailed(url)) && reports == []
      && cache' == (if useCache then cache - {CacheName(url, hash)} else cache)
    ensures !Hit(cache, CacheName(url, hash), sha256, hash, useCache) && url in network ==>
      var response := network[url];
      && cache' == cache[CacheName(url, hash) := Body(response)]
      && reports == Reports(response)
      && (Failed(response) ==> r == Err(DownloadFailed(url)))
      && (!Failed(response) && hash(Body(response)) != sha256 ==>
            r == Err(HashMismatch(CacheName(url, hash), sha256, hash(Body(response)))))
      && (!Failed(response) && hash(Body(response)) == sha256 ==> r == Ok(CacheName(url, hash)))
  {
    var name := CacheName(url, hash);
    var current := cache;
    if useCache && name in current {
      var check := VerifySha256(current[name], sha256, hash, name);
      if check.Ok? {
        return cache, Ok(name), false, [];
      }
      current := current - {name};
    }
    downloaded := true;
    var fetched;
    cache', fetched, reports := DownloadFile(url, network, current, name);
    if fetched.Err? {
      return cache', Err(fetched.error), downloaded, reports;
    }
    var check := VerifySha256(cache'[name], sha256, hash, name);
    if check.Err? {
      return cache', Err(check.error), downloaded, reports;
    }
    r := Ok(name);
  }
}
