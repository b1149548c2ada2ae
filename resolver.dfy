/** `${key}` expansion of URL templates and the choice of the archive for a platform. */
module Resolver {
  import opened Base
  import opened Text
  import opened Models

  /** The characters `\w` matches (ASCII). */
  predicate IsWordChar(c: char)
  {
    'a' <= c <= 'z' || 'A' <= c <= 'Z' || '0' <= c <= '9' || c == '_'
  }

  /** The length of the longest run of word characters at the start of `s`. */
  function WordRun(s: string): (n: nat)
    ensures n <= |s|
    ensures forall i :: 0 <= i < n ==> IsWordChar(s[i])
    ensures n < |s| ==> !IsWordChar(s[n])
    decreases |s|
  {
    if |s| > 0 && IsWordChar(s[0]) then 1 + WordRun(s[1..]) else 0
  }

  predicate IsKey(key: string)
  {
    |key| > 0 && forall i :: 0 <= i < |key| ==> IsWordChar(key[i])
  }

  /** The key of the placeholder `\$\{(\w+)}` matches at the start of `s`, if it matches. */
  function PlaceholderAt(s: string): (r: Option<string>)
    ensures r.Some? ==> IsKey(r.value) && |r.value| + 3 <= |s| && s[..|r.value| + 3] == "${" + r.value + "}"
  {
    if |s| >= 2 && s[0] == '$' && s[1] == '{' then
      var n := WordRun(s[2..]);
      if n > 0 && 2 + n < |s| && s[2 + n] == '}' then
        assert s[..n + 3] == "${" + s[2..2 + n] + "}";
        Some(s[2..2 + n])
      else None
    else None
  }

  /** `re.sub(r"\$\{(\w+)}", ...)`: the scan tries a match at each position, replaces a
      known key by its value, keeps an unknown placeholder as written, and never rescans
      the text it produced. */
  function Expand(template: string, vars: map<string, string>): string
    decreases |template|
  {
    if |template| == 0 then ""
    else match PlaceholderAt(template)
      case Some(key) =>
        (if key in vars then vars[key] else template[..|key| + 3]) + Expand(template[|key| + 3..], vars)
      case None => [template[0]] + Expand(template[1..], vars)
  }

  lemma PlaceholderOfKey(key: string, rest: string)
    requires IsKey(key)
    ensures PlaceholderAt("${" + key + "}" + rest) == Some(key)
  {
    var s := "${" + key + "}" + rest;
    var n := WordRun(s[2..]);
    assert s[2..][|key|] == '}';
    forall i | 0 <= i < |key|
      ensures s[2..][i] == key[i]
    {
    }
    assert n == |key|;
    assert s[2..2 + n] == key;
  }

  /** A known placeholder at the head becomes its value, taken verbatim. */
  lemma ExpandKnownHead(key: string, rest: string, vars: map<string, string>)
    requires IsKey(key) && key in vars
    ensures Expand("${" + key + "}" + rest, vars) == vars[key] + Expand(rest, vars)
  {
    var s := "${" + key + "}" + rest;
    PlaceholderOfKey(key, rest);
    assert s[|key| + 3..] == rest;
  }

  /** An unknown placeholder at the head is left as written. */
  lemma ExpandUnknownHead(key: string, rest: string, vars: map<string, string>)
    requires IsKey(key) && key !in vars
    ensures Expand("${" + key + "}" + rest, vars) == "${" + key + "}" + Expand(rest, vars)
  {
    var s := "${" + key + "}" + rest;
    PlaceholderOfKey(key, rest);
    assert s[|key| + 3..] == rest;
    assert s[..|key| + 3] == "${" + key + "}";
  }

  /** A position where no placeholder matches copies one character. */
  lemma ExpandCopiesHead(s: string, vars: map<string, string>)
    requires |s| > 0 && PlaceholderAt(s).None?
    ensures Expand(s, vars) == [s[0]] + Expand(s[1..], vars)
  {
  }

  /** A position where a placeholder matches consumes the whole placeholder. */
  lemma ExpandReplacesHead(s: string, vars: map<string, string>, key: string)
    requires PlaceholderAt(s) == Some(key)
    ensures Expand(s, vars) == (if key in vars then vars[key] else s[..|key| + 3]) + Expand(s[|key| + 3..], vars)
  {
  }

  /** No placeholder matches where the text does not start with `$`. */
  lemma NoPlaceholderWithoutDollar(s: string)
    requires |s| > 0 && s[0] != '$'
    ensures PlaceholderAt(s).None?
  {
  }

  lemma ConsConcat(a: string, b: string)
    requires |a| > 0
    ensures [a[0]] + (a[1..] + b) == a + b
  {
    assert a == [a[0]] + a[1..];
  }

  /** Text with no `$` is copied through. */
  lemma {:induction false} ExpandLiteralPrefix(lit: string, rest: string, vars: map<string, string>)
    requires '$' !in lit
    ensures Expand(lit + rest, vars) == lit + Expand(rest, vars)
    decreases |lit|
  {
    if |lit| == 0 {
      assert lit + rest == rest;
    } else {
      var s := lit + rest;
      assert s[0] == lit[0] && lit[0] != '$';
      assert s[1..] == lit[1..] + rest;
      NoPlaceholderWithoutDollar(s);
      ExpandCopiesHead(s, vars);
      assert '$' !in lit[1..];
      ExpandLiteralPrefix(lit[1..], rest, vars);
      ConsConcat(lit, Expand(rest, vars));
    }
  }

  /** The key of the placeholder that matches at position `i`, if one does. */
  function KeyAt(template: string, i: nat): Option<string>
    requires i <= |template|
  {
    PlaceholderAt(template[i..])
  }

  predicate NoKnownPlaceholder(template: string, vars: map<string, string>)
  {
    forall i :: 0 <= i < |template| ==> KeyAt(template, i).None? || KeyAt(template, i).value !in vars
  }

  /** The suffixes of a template without known placeholders have none either. */
  lemma NoKnownPlaceholderSuffix(template: string, vars: map<string, string>, step: nat)
    requires NoKnownPlaceholder(template, vars) && step <= |template|
    ensures NoKnownPlaceholder(template[step..], vars)
  {
    var rest := template[step..];
    forall i | 0 <= i < |rest|
      ensures KeyAt(rest, i).None? || KeyAt(rest, i).value !in vars
    {
      assert rest[i..] == template[step + i..];
      assert KeyAt(rest, i) == KeyAt(template, step + i);
    }
  }

  /** The head of such a template is no known placeholder. */
  lemma NoKnownHead(template: string, vars: map<string, string>)
    requires |template| > 0 && NoKnownPlaceholder(template, vars)
    ensures PlaceholderAt(template).None? || PlaceholderAt(template).value !in vars
  {
    assert template[0..] == template;
    assert KeyAt(template, 0) == PlaceholderAt(template);
  }

  /** The length of the text one scan step consumes: a placeholder, or one character. */
  function HeadStep(s: string): (n: nat)
    requires |s| > 0
    ensures 0 < n <= |s|
  {
    match PlaceholderAt(s)
    case Some(key) => |key| + 3
    case None => 1
  }

  /** A head that is no known placeholder is copied as written. */
  lemma ExpandKeepsHead(s: string, vars: map<string, string>)
    requires |s| > 0 && (PlaceholderAt(s).None? || PlaceholderAt(s).value !in vars)
    ensures Expand(s, vars) == s[..HeadStep(s)] + Expand(s[HeadStep(s)..], vars)
  {
    match PlaceholderAt(s)
    case Some(key) =>
      ExpandReplacesHead(s, vars, key);
    case None =>
      ExpandCopiesHead(s, vars);
      assert s[..1] == [s[0]];
  }

  /** A template naming no known key comes back unchanged: this covers the empty
      template, a template without placeholders and one with unknown keys only. */
  lemma {:induction false} ExpandWithoutKnownKeys(template: string, vars: map<string, string>)
    requires NoKnownPlaceholder(template, vars)
    ensures Expand(template, vars) == template
    decreases |template|
  {
    if |template| > 0 {
      NoKnownHead(template, vars);
      var step := HeadStep(template);
      ExpandKeepsHead(template, vars);
      NoKnownPlaceholderSuffix(template, vars, step);
      ExpandWithoutKnownKeys(template[step..], vars);
      assert template == template[..step] + template[step..];
    }
  }

  /** Adjacent placeholders are both replaced (`"${a}${b}"` gives `"XY"`). */
  lemma AdjacentPlaceholders(k1: string, k2: string, vars: map<string, string>)
    requires IsKey(k1) && IsKey(k2) && k1 in vars && k2 in vars
    ensures Expand("${" + k1 + "}${" + k2 + "}", vars) == vars[k1] + vars[k2]
  {
    var second := "${" + k2 + "}";
    assert "${" + k1 + "}${" + k2 + "}" == "${" + k1 + "}" + second;
    ExpandKnownHead(k1, second, vars);
    assert second == "${" + k2 + "}" + "";
    ExpandKnownHead(k2, "", vars);
  }

  /** A value is inserted as it is: a value that is itself a known placeholder stays a
      placeholder, which only a second expansion would replace. */
  lemma ValuesAreNotRescanned(k1: string, k2: string, vars: map<string, string>)
    requires IsKey(k1) && IsKey(k2) && k1 in vars && k2 in vars && vars[k1] == "${" + k2 + "}"
    ensures Expand("${" + k1 + "}", vars) == "${" + k2 + "}"
    ensures Expand(Expand("${" + k1 + "}", vars), vars) == vars[k2]
  {
    assert "${" + k1 + "}" == "${" + k1 + "}" + "";
    ExpandKnownHead(k1, "", vars);
    assert "${" + k2 + "}" == "${" + k2 + "}" + "";
    ExpandKnownHead(k2, "", vars);
  }

  predicate MatchesPlatform(a: Archive, targetOs: string, targetArch: string)
  {
    a.os == targetOs && a.arch == targetArch
  }

  /** The index of the first archive for the platform. */
  function FirstArchive(archives: seq<Archive>, targetOs: string, targetArch: string): (r: Option<nat>)
    ensures r.Some? ==> r.value < |archives| && MatchesPlatform(archives[r.value], targetOs, targetArch)
    ensures r.Some? ==> forall j :: 0 <= j < r.value ==> !MatchesPlatform(archives[j], targetOs, targetArch)
    ensures r.None? <==> forall j :: 0 <= j < |archives| ==> !MatchesPlatform(archives[j], targetOs, targetArch)
    decreases |archives|
  {
    if |archives| == 0 then None
    else if MatchesPlatform(archives[0], targetOs, targetArch) then Some(0)
    else match FirstArchive(archives[1..], targetOs, targetArch)
      case None => None
      case Some(i) => Some(i + 1)
  }

  /** Every `(os, arch)` pair offered, in order, as the error lists them. */
  function SupportedPairs(archives: seq<Archive>): (r: seq<(string, string)>)
    ensures |r| == |archives|
    ensures forall i :: 0 <= i < |archives| ==> r[i] == (archives[i].os, archives[i].arch)
  {
    seq(|archives|, i requires 0 <= i < |archives| => (archives[i].os, archives[i].arch))
  }

  function ResolveArchive(version: AppVersion, targetOs: string, targetArch: string): (r: Result<Archive>)
    ensures r.Ok? ==> r.value.os == targetOs && r.value.arch == targetArch
    ensures r.Ok? ==>
      exists i :: 0 <= i < |version.archives| && version.archives[i] == r.value
        && forall j :: 0 <= j < i ==> !MatchesPlatform(version.archives[j], targetOs, targetArch)
    ensures r.Err? <==> forall a :: a in version.archives ==> !MatchesPlatform(a, targetOs, targetArch)
    ensures r.Err? ==> r.error == NoArchive(targetOs, targetArch, SupportedPairs(version.archives))
  {
    match FirstArchive(version.archives, targetOs, targetArch)
    case Some(i) => Ok(version.archives[i])
    case None => Err(NoArchive(targetOs, targetArch, SupportedPairs(version.archives)))
  }

  /** The variables a URL template can use: `ext` only when the archive has a non-empty one. */
  function UrlVariables(version: AppVersion, archive: Archive): (vars: map<string, string>)
    ensures vars.Keys == {"version", "os", "arch"} + (if Truthy(archive.ext) then {"ext"} else {})
    ensures vars["version"] == version.version && vars["os"] == archive.os && vars["arch"] == archive.arch
    ensures Truthy(archive.ext) ==> vars["ext"] == archive.ext.value
  {
    var base := map["version" := version.version, "os" := archive.os, "arch" := archive.arch];
    if Truthy(archive.ext) then base["ext" := archive.ext.value] else base
  }

  /** `archive.url or version.url`, expanded; neither being set is an error. */
  function ResolveDownloadUrl(version: AppVersion, archive: Archive): (r: Result<string>)
    ensures r.Err? <==> !Truthy(archive.url) && !Truthy(version.url)
    ensures r.Err? ==> r.error == NoUrl
    ensures Truthy(archive.url) ==> r == Ok(Expand(archive.url.value, UrlVariables(version, archive)))
    ensures !Truthy(archive.url) && Truthy(version.url) ==>
      r == Ok(Expand(version.url.value, UrlVariables(version, archive)))
  {
    var template := if Truthy(archive.url) then archive.url else version.url;
    if !Truthy(template) then Err(NoUrl)
    else Ok(Expand(template.value, UrlVariables(version, archive)))
  }

  /** Without an archive extension, `${ext}` stays in the URL as written. */
  lemma ExtKeptWithoutArchiveExt(version: AppVersion, archive: Archive, rest: string)
    requires !Truthy(archive.ext)
    ensures Expand("${ext}" + rest, UrlVariables(version, archive))
      == "${ext}" + Expand(rest, UrlVariables(version, archive))
  {
    assert IsKey("ext");
    assert "${ext}" == "${" + "ext" + "}";
    ExpandUnknownHead("ext", rest, UrlVariables(version, archive));
  }
}
