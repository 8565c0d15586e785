/**
 * How the server reads image references and registry replies (script.py):
 * splitting a reference into repository and tag, choosing the registry and
 * the repository path, the manifest URL of the "Pulling manifests" endpoint
 * of the OCI Distribution Specification (`GET /v2/<name>/manifests/<reference>`),
 * the parameters of a `WWW-Authenticate: Bearer …` challenge (RFC 6750
 * section 3), and the normalisation and de-duplication of image digests.
 */
module RegistryRefs {
  import opened Wrappers
  import opened Text

  // ---------------------------------------------------------------------
  // _split_repo_tag
  // ---------------------------------------------------------------------

  /**
   * `_split_repo_tag(ref)`: at the last ':' when the text before the first ':'
   * holds a '/', at the first ':' when there is no '/' at all, otherwise the
   * whole reference with the tag "latest".
   */
  function SplitRepoTag(ref: string): (r: (string, string))
    ensures ':' in ref && '/' in BeforeFirst(ref, ':') ==> r.0 + ":" + r.1 == ref && ':' !in r.1
    ensures ':' in ref && '/' !in ref ==> r.0 + ":" + r.1 == ref && ':' !in r.0
    ensures !(':' in ref && ('/' in BeforeFirst(ref, ':') || '/' !in ref)) ==> r == (ref, "latest")
  {
    if ':' in ref && '/' in BeforeFirst(ref, ':') then
      var i := LastIndexOf(ref, ':');
      assert ref == ref[..i] + ":" + ref[i + 1..];
      (ref[..i], ref[i + 1..])
    else if ':' in ref && '/' !in ref then
      var i := IndexOf(ref, ':');
      assert ref == ref[..i] + ":" + ref[i + 1..];
      (ref[..i], ref[i + 1..])
    else (ref, "latest")
  }

  /** A plain `name:tag` splits at its colon. */
  lemma SplitNameTag(name: string, tag: string)
    requires ':' !in name && '/' !in name && '/' !in tag
    ensures SplitRepoTag(name + ":" + tag) == (name, tag)
  {
    var ref := name + ":" + tag;
    IndexOfPrefix(name, tag, ':');
    assert ref[..|name|] == name && ref[|name| + 1..] == tag;
    assert '/' !in ref by {
      assert forall i :: 0 <= i < |ref| ==> ref[i] == (if i < |name| then name[i] else if i == |name| then ':' else tag[i - |name| - 1]);
    }
  }

  /**
   * A registry with a port and no tag (`host:5000/app`) is not split at the
   * port: the reference is the repository and the tag is "latest". The same
   * rule also applies when a tag follows (`host:5000/app:1.0`): the tag then
   * stays in the repository and "latest" is used.
   */
  lemma PortIsNotATag(host: string, rest: string)
    requires host != [] && ':' !in host && '/' !in host
    ensures SplitRepoTag(host + ":" + rest).1 == "latest" || '/' !in rest
    ensures '/' in rest ==> SplitRepoTag(host + ":" + rest) == (host + ":" + rest, "latest")
  {
    var ref := host + ":" + rest;
    IndexOfPrefix(host, rest, ':');
    assert BeforeFirst(ref, ':') == host by {
      assert ref[..|host|] == host;
    }
    if '/' in rest {
      var j :| 0 <= j < |rest| && rest[j] == '/';
      assert ref[|host| + 1 + j] == '/';
    }
  }

  // ---------------------------------------------------------------------
  // _resolve_registry_and_path and the manifest URL
  // ---------------------------------------------------------------------

  const DockerHub: string := "registry-1.docker.io"

  /** `_resolve_registry_and_path(repo)`: the registry host and the repository path on it. */
  function ResolveRegistry(repo: string): (r: (string, string))
    ensures r.0 != DockerHub ==> r.0 + "/" + r.1 == repo
    ensures StartsWith(repo, "lscr.io/") ==> r == ("lscr.io", repo[8..])
    ensures '/' !in repo && !StartsWith(repo, "lscr.io/") ==> r == (DockerHub, "library/" + repo)
    ensures '/' in repo && !StartsWith(repo, "lscr.io/") ==>
      var first := BeforeFirst(repo, '/');
      r == if '.' in first || ':' in first then (first, AfterFirst(repo, '/')) else (DockerHub, repo)
  {
    if StartsWith(repo, "lscr.io/") then
      assert repo == repo[..8] + repo[8..];
      ("lscr.io", repo[8..])
    else if '/' !in repo then (DockerHub, "library/" + repo)
    else
      var first := BeforeFirst(repo, '/');
      var rest := AfterFirst(repo, '/');
      if '.' in first || ':' in first then (first, rest) else (DockerHub, repo)
  }

  /** A first segment without '.' or ':' is a Docker Hub user, and the path is the whole repository. */
  lemma UserImagePath(user: string, name: string)
    requires '/' !in user && '.' !in user && ':' !in user
    ensures ResolveRegistry(user + "/" + name) == (DockerHub, user + "/" + name)
  {
    var repo := user + "/" + name;
    SplitAtFirst(user, '/', name);
    assert repo[|user|] == '/';
    assert !StartsWith(repo, "lscr.io/") by {
      if |user| > 4 {
        assert repo[4] == user[4];
      } else {
        assert "lscr.io/"[|user|] != '/';
      }
    }
  }

  /** The manifest URL for a reference: `https://<registry>/v2/<path>/manifests/<tag>`. */
  function ManifestUrl(image: string): string {
    var (repo, tag) := SplitRepoTag(image);
    var (registry, path) := ResolveRegistry(repo);
    "https://" + registry + "/v2/" + path + "/manifests/" + tag
  }

  lemma ManifestUrlOf(image: string, repo: string, tag: string, registry: string, path: string)
    requires SplitRepoTag(image) == (repo, tag) && ResolveRegistry(repo) == (registry, path)
    ensures ManifestUrl(image) == "https://" + registry + "/v2/" + path + "/manifests/" + tag
  {
  }

  /** `name:tag` is pulled from Docker Hub's `library/` namespace. */
  lemma ManifestUrlOfOfficialImage(name: string, tag: string)
    requires ':' !in name && '/' !in name && '/' !in tag
    ensures ManifestUrl(name + ":" + tag) == "https://" + DockerHub + "/v2/" + ("library/" + name) + "/manifests/" + tag
  {
    assert SplitRepoTag(name + ":" + tag) == (name, tag) by {
      SplitNameTag(name, tag);
    }
    assert ResolveRegistry(name) == (DockerHub, "library/" + name) by {
      assert !StartsWith(name, "lscr.io/") by {
        assert "lscr.io/"[7] == '/';
      }
    }
    ManifestUrlOf(name + ":" + tag, name, tag, DockerHub, "library/" + name);
  }

  /** `host/path:tag` with a dotted host is pulled from that host. */
  lemma ManifestUrlOfHostedImage(host: string, path: string, tag: string)
    requires '.' in host && '/' !in host && ':' !in host && ':' !in path && ':' !in tag
    ensures ManifestUrl(host + "/" + path + ":" + tag) == "https://" + host + "/v2/" + path + "/manifests/" + tag
  {
    var repo := host + ['/'] + path;
    assert host + "/" + path + ":" + tag == repo + [':'] + tag;
    HostedSplit(repo, tag);
    HostedRegistry(host, path);
    ManifestUrlOf(repo + [':'] + tag, repo, tag, host, path);
  }

  lemma HostedSplit(repo: string, tag: string)
    requires '/' in repo && ':' !in repo && ':' !in tag
    ensures SplitRepoTag(repo + [':'] + tag) == (repo, tag)
  {
    var ref := repo + [':'] + tag;
    SplitAtFirst(repo, ':', tag);
    LastIndexOfIs(ref, ':', |repo|);
    assert ref[..|repo|] == repo;
    assert ref[|repo| + 1..] == tag;
  }

  lemma HostedRegistry(host: string, path: string)
    requires '.' in host && '/' !in host && ':' !in host
    ensures ResolveRegistry(host + ['/'] + path) == (host, path)
  {
    var repo := host + ['/'] + path;
    SplitAtFirst(host, '/', path);
    assert repo[|host|] == '/';
    if StartsWith(repo, "lscr.io/") {
      assert repo[..7] == repo[..8][..7] == "lscr.io";
      assert repo[7] == repo[..8][7] == '/';
      IndexOfIs(repo, '/', 7);
      IndexOfPrefix(host, path, '/');
      assert host == repo[..7];
      assert repo[8..] == path;
    }
  }

  /** `user/name:tag` with a plain user name is pulled from Docker Hub under `user/name`. */
  lemma ManifestUrlOfUserImage(user: string, name: string, tag: string)
    requires '/' !in user && '.' !in user && ':' !in user && ':' !in name && ':' !in tag
    ensures ManifestUrl(user + "/" + name + ":" + tag) == "https://" + DockerHub + "/v2/" + (user + "/" + name) + "/manifests/" + tag
  {
    var repo := user + "/" + name;
    assert repo == user + ['/'] + name;
    assert user + "/" + name + ":" + tag == repo + [':'] + tag;
    assert repo[|user|] == '/';
    HostedSplit(repo, tag);
    UserImagePath(user, name);
    ManifestUrlOf(repo + [':'] + tag, repo, tag, DockerHub, repo);
  }

  /** `lscr.io/<rest>:tag` is pulled from `lscr.io` under `<rest>`. */
  lemma ManifestUrlOfLscrImage(rest: string, tag: string)
    requires ':' !in rest && ':' !in tag
    ensures ManifestUrl("lscr.io/" + rest + ":" + tag) == "https://lscr.io/v2/" + rest + "/manifests/" + tag
  {
    var repo := "lscr.io/" + rest;
    assert "lscr.io/" + rest + ":" + tag == repo + [':'] + tag;
    assert '/' in repo by {
      assert repo[7] == '/';
    }
    HostedSplit(repo, tag);
    LscrRegistry(rest);
    ManifestUrlOf(repo + [':'] + tag, repo, tag, "lscr.io", rest);
  }

  lemma LscrRegistry(rest: string)
    ensures ResolveRegistry("lscr.io/" + rest) == ("lscr.io", rest)
  {
    var repo := "lscr.io/" + rest;
    assert repo[..8] == "lscr.io/" && repo[8..] == rest;
  }

  /** A first segment holding a ':' (a registry with a port) is the registry host. */
  lemma PortedRegistry(host: string, path: string)
    requires ':' in host && '/' !in host
    ensures ResolveRegistry(host + ['/'] + path) == (host, path)
  {
    var repo := host + ['/'] + path;
    SplitAtFirst(host, '/', path);
    assert !StartsWith(repo, "lscr.io/") by {
      var p := IndexOf(host, ':');
      assert repo[p] == ':';
      if p < 8 {
        assert |repo| < 8 || repo[..8][p] != "lscr.io/"[p];
      } else {
        assert repo[7] == host[7];
      }
    }
  }

  /** `host:5000/app` is pulled from `host:5000` under `app`, with the tag "latest". */
  lemma ManifestUrlOfPortRegistry(host: string, port: string, path: string)
    requires host != [] && ':' !in host && '/' !in host && '/' !in port
    ensures ManifestUrl(host + ":" + port + "/" + path) == "https://" + (host + ":" + port) + "/v2/" + path + "/manifests/latest"
  {
    var ref := host + ":" + port + "/" + path;
    var registry := host + ":" + port;
    assert ref == host + ":" + (port + "/" + path);
    assert '/' in port + "/" + path by {
      assert (port + "/" + path)[|port|] == '/';
    }
    PortIsNotATag(host, port + "/" + path);
    assert registry[|host|] == ':';
    assert ref == registry + ['/'] + path;
    PortedRegistry(registry, path);
    ManifestUrlOf(ref, ref, "latest", registry, path);
  }

  // ---------------------------------------------------------------------
  // _parse_www_authenticate
  // ---------------------------------------------------------------------

  /** The authentication scheme: the text before the first space (`str.partition(" ")`). */
  function Scheme(header: string): string {
    BeforeFirst(header, ' ')
  }

  /** The parameters: the text after the first space, or nothing. */
  function ChallengeParams(header: string): string {
    if ' ' in header then AfterFirst(header, ' ') else ""
  }

  /** One comma-separated part: `k, v = part.split("=", 1); d[k.strip()] = v.strip().strip('"')`. */
  function AddPart(d: map<string, string>, part: string): map<string, string> {
    if '=' in part then
      d[Strip(BeforeFirst(part, '='), PySpace) := Strip(Strip(AfterFirst(part, '='), PySpace), Just('"'))]
    else d
  }

  function AddParts(d: map<string, string>, parts: seq<string>): map<string, string>
    decreases |parts|
  {
    if parts == [] then d else AddParts(AddPart(d, parts[0]), parts[1..])
  }

  /** `_parse_www_authenticate(header)` */
  function ParseChallenge(header: string): (r: Option<map<string, string>>)
    ensures r.Some? <==> Lower(Scheme(header)) == "bearer"
  {
    if Lower(Scheme(header)) != "bearer" then None
    else Some(AddParts(map[], Split(ChallengeParams(header), ',')))
  }

  /** The same, as the loop the server runs. */
  method ParseWwwAuthenticate(header: string) returns (r: Option<map<string, string>>)
    ensures r == ParseChallenge(header)
  {
    var scheme := BeforeFirst(header, ' ');
    var params := if ' ' in header then AfterFirst(header, ' ') else "";
    if Lower(scheme) != "bearer" {
      return None;
    }
    var d := CollectParams(Split(params, ','));
    return Some(d);
  }

  /** The loop over the comma-separated parts, filling the dictionary. */
  method CollectParams(parts: seq<string>) returns (d: map<string, string>)
    ensures d == AddParts(map[], parts)
  {
    d := map[];
    var i := 0;
    while i < |parts|
      invariant 0 <= i <= |parts|
      invariant AddParts(d, parts[i..]) == AddParts(map[], parts)
    {
      assert parts[i..][1..] == parts[i + 1..];
      d := AddPart(d, parts[i]);
      i := i + 1;
    }
  }

  /** A clean parameter: no surrounding blanks or quotes, no separators. */
  predicate CleanToken(s: string) {
    Unpadded(s) && ',' !in s && '=' !in s && '"' !in s
  }

  function Quoted(v: string): string {
    ['"'] + v + ['"']
  }

  /** How a challenge writes one parameter: `k="v"`. */
  function QuotedParam(p: (string, string)): string {
    p.0 + ['='] + Quoted(p.1)
  }

  /** The parameters written one after the other. */
  function QuotedParams(ps: seq<(string, string)>): (r: seq<string>)
    ensures |r| == |ps|
    ensures forall i :: 0 <= i < |ps| ==> r[i] == QuotedParam(ps[i])
  {
    if ps == [] then [] else [QuotedParam(ps[0])] + QuotedParams(ps[1..])
  }

  /** The parameters as the map the parser builds: a repeated key takes its last value. */
  function ParamsMap(d: map<string, string>, ps: seq<(string, string)>): map<string, string>
    decreases |ps|
  {
    if ps == [] then d else ParamsMap(d[ps[0].0 := ps[0].1], ps[1..])
  }

  lemma BearerHeader(body: string)
    ensures Scheme("Bearer " + body) == "Bearer"
    ensures ChallengeParams("Bearer " + body) == body
    ensures ParseChallenge("Bearer " + body) == Some(AddParts(map[], Split(body, ',')))
  {
    assert "Bearer " + body == "Bearer" + [' '] + body;
    SplitAtFirst("Bearer", ' ', body);
    assert Lower("Bearer") == "bearer";
  }

  /** Text that neither starts nor ends with a blank or a quote. */
  predicate Unpadded(a: string) {
    a != [] && !IsPySpace(a[0]) && !IsPySpace(a[|a| - 1]) && a[0] != '"' && a[|a| - 1] != '"'
  }

  lemma QuotedHasNoBlankEnds(v: string)
    requires Unpadded(v)
    ensures Strip(Quoted(v), PySpace) == Quoted(v)
  {
    var q := Quoted(v);
    assert q[0] == '"' && q[|q| - 1] == '"';
    StripClean(q, PySpace);
  }

  lemma QuotesStripped(v: string)
    requires Unpadded(v)
    ensures Strip(Quoted(v), Just('"')) == v
  {
    var q := Quoted(v);
    var tail := v + ['"'];
    assert q[1..] == tail;
    TrimStartStep(q, Just('"'));
    assert tail[0] == v[0];
    TrimStartStops(tail, Just('"'));
    assert tail[..|tail| - 1] == v;
    TrimEndStep(tail, Just('"'));
    TrimEndStops(v, Just('"'));
  }

  lemma StripQuoted(v: string)
    requires Unpadded(v)
    ensures Strip(Strip(Quoted(v), PySpace), Just('"')) == v
  {
    QuotedHasNoBlankEnds(v);
    QuotesStripped(v);
  }

  lemma AddQuotedParam(d: map<string, string>, p: (string, string))
    requires CleanToken(p.0) && CleanToken(p.1)
    ensures AddPart(d, QuotedParam(p)) == d[p.0 := p.1]
  {
    SplitAtFirst(p.0, '=', Quoted(p.1));
    StripClean(p.0, PySpace);
    StripQuoted(p.1);
  }

  lemma {:induction false} AddQuotedParams(d: map<string, string>, ps: seq<(string, string)>)
    requires forall i :: 0 <= i < |ps| ==> CleanToken(ps[i].0) && CleanToken(ps[i].1)
    ensures AddParts(d, QuotedParams(ps)) == ParamsMap(d, ps)
    decreases |ps|
  {
    if ps != [] {
      AddQuotedParam(d, ps[0]);
      assert QuotedParams(ps)[1..] == QuotedParams(ps[1..]);
      AddQuotedParams(d[ps[0].0 := ps[0].1], ps[1..]);
    }
  }

  lemma QuotedParamHasNoComma(p: (string, string))
    requires CleanToken(p.0) && CleanToken(p.1)
    ensures ',' !in QuotedParam(p)
  {
  }

  /**
   * A Bearer challenge whose parameters are written `k="v"` and separated by
   * commas reads back as those parameters, when no value holds a comma.
   */
  lemma ChallengeRoundTrip(ps: seq<(string, string)>)
    requires |ps| >= 1
    requires forall i :: 0 <= i < |ps| ==> CleanToken(ps[i].0) && CleanToken(ps[i].1)
    ensures ParseChallenge("Bearer " + Join(QuotedParams(ps), ',')) == Some(ParamsMap(map[], ps))
  {
    var parts := QuotedParams(ps);
    BearerHeader(Join(parts, ','));
    forall i | 0 <= i < |parts|
      ensures ',' !in parts[i]
    {
      QuotedParamHasNoComma(ps[i]);
    }
    SplitJoin(parts, ',');
    AddQuotedParams(map[], ps);
  }

  lemma OpenQuoteHasNoBlankEnds(a: string)
    requires Unpadded(a)
    ensures Strip(['"'] + a, PySpace) == ['"'] + a
  {
    var q := ['"'] + a;
    assert q[0] == '"' && q[|q| - 1] == a[|a| - 1];
    StripClean(q, PySpace);
  }

  lemma OpenQuoteStripped(a: string)
    requires Unpadded(a)
    ensures Strip(['"'] + a, Just('"')) == a
  {
    var q := ['"'] + a;
    assert q[1..] == a;
    TrimStartStep(q, Just('"'));
    TrimStartStops(a, Just('"'));
    TrimEndStops(a, Just('"'));
  }

  lemma StripOpenQuote(a: string)
    requires Unpadded(a)
    ensures Strip(Strip(['"'] + a, PySpace), Just('"')) == a
  {
    OpenQuoteHasNoBlankEnds(a);
    OpenQuoteStripped(a);
  }

  /**
   * The parser splits at every comma, even inside quotes: a quoted value
   * `"a,b"` is cut to `a`, and the piece after the comma, having no '=', is
   * dropped.
   */
  lemma QuotedCommaIsCut(k: string, a: string, b: string)
    requires CleanToken(k) && CleanToken(a) && '"' !in b && ',' !in b && '=' !in b
    ensures ParseChallenge("Bearer " + k + "=\"" + a + "," + b + "\"") == Some(map[k := a])
  {
    var body := k + ['='] + (['"'] + a) + [','] + (b + ['"']);
    QuotedCommaText(k, a, b);
    BearerHeader(body);
    CutParams(k, a, b);
  }

  lemma QuotedCommaText(k: string, a: string, b: string)
    ensures "Bearer " + k + "=\"" + a + "," + b + "\"" == "Bearer " + (k + ['='] + (['"'] + a) + [','] + (b + ['"']))
  {
  }

  lemma CutParams(k: string, a: string, b: string)
    requires CleanToken(k) && CleanToken(a) && '"' !in b && ',' !in b && '=' !in b
    ensures AddParts(map[], Split(k + ['='] + (['"'] + a) + [','] + (b + ['"']), ',')) == map[k := a]
  {
    var first := k + ['='] + (['"'] + a);
    var second := b + ['"'];
    TwoPieces(first, second);
    OpenQuotedPart(map[], k, a);
    AddTwoParts(map[], first, second);
  }

  lemma TwoPieces(x: string, y: string)
    requires ',' !in x && ',' !in y
    ensures Split(x + [','] + y, ',') == [x, y]
  {
    assert Join([x, y], ',') == x + [','] + y;
    SplitJoin([x, y], ',');
  }

  lemma OpenQuotedPart(d: map<string, string>, k: string, a: string)
    requires CleanToken(k) && CleanToken(a)
    ensures AddPart(d, k + ['='] + (['"'] + a)) == d[k := a]
  {
    SplitAtFirst(k, '=', ['"'] + a);
    StripClean(k, PySpace);
    StripOpenQuote(a);
  }

  lemma AddTwoParts(d: map<string, string>, x: string, y: string)
    ensures AddParts(d, [x, y]) == AddPart(AddPart(d, x), y)
  {
    assert [x, y][1..] == [y];
    assert AddParts(d, [x, y]) == AddParts(AddPart(d, x), [y]);
    assert [y][1..] == [];
    assert AddParts(AddPart(d, x), [y]) == AddParts(AddPart(AddPart(d, x), y), []);
  }

  // ---------------------------------------------------------------------
  // _digest_only and _local_repo_digests
  // ---------------------------------------------------------------------

  /** `_digest_only(value)`: `None` for a missing or empty value; else unquoted, cut after the first '@', lower-cased. */
  function DigestOnly(value: Option<string>): (r: Option<string>)
    ensures r.None? <==> value.None? || value.value == ""
    ensures r.Some? ==> forall i :: 0 <= i < |r.value| ==> !IsAsciiUpper(r.value[i])
  {
    if value.None? || value.value == "" then None
    else
      var v := Strip(Strip(Strip(value.value, PySpace), Just('"')), Just('\''));
      Some(Lower(if '@' in v then AfterFirst(v, '@') else v))
  }

  /** Neither end is a blank, a double quote or a single quote. */
  predicate BareEnds(s: string) {
    s != []
    && !IsPySpace(s[0]) && s[0] != '"' && s[0] != '\''
    && !IsPySpace(s[|s| - 1]) && s[|s| - 1] != '"' && s[|s| - 1] != '\''
  }

  /** The unquoting steps of `_digest_only` leave text with bare ends alone. */
  lemma Unquoted(s: string)
    requires BareEnds(s)
    ensures Strip(Strip(Strip(s, PySpace), Just('"')), Just('\'')) == s
  {
    StripClean(s, PySpace);
    StripClean(s, Just('"'));
    StripClean(s, Just('\''));
  }

  /** `repo@sha256:…` and `sha256:…` normalise to the same digest, the lower-cased `sha256:…`. */
  lemma DigestOfPinnedReference(repo: string, d: string)
    requires repo != [] && '@' !in repo && !IsPySpace(repo[0]) && repo[0] != '"' && repo[0] != '\''
    requires BareEnds(d) && '@' !in d
    ensures DigestOnly(Some(repo + "@" + d)) == DigestOnly(Some(d)) == Some(Lower(d))
  {
    var s := repo + ['@'] + d;
    assert BareEnds(s) by {
      assert s[0] == repo[0] && s[|s| - 1] == d[|d| - 1];
    }
    SplitAtFirst(repo, '@', d);
    DigestOfBare(s);
    DigestOfBare(d);
  }

  lemma DigestOfBare(s: string)
    requires BareEnds(s)
    ensures DigestOnly(Some(s)) == Some(Lower(if '@' in s then AfterFirst(s, '@') else s))
  {
    Unquoted(s);
  }

  /** One step of `_local_repo_digests`: a non-empty digest not seen before is appended. */
  function AddDigest(digs: seq<string>, d: Option<string>): seq<string> {
    if d.Some? && d.value != "" && d.value !in digs then digs + [d.value] else digs
  }

  function CollectDigests(digs: seq<string>, ds: seq<Option<string>>): seq<string>
    decreases |ds|
  {
    if ds == [] then digs else CollectDigests(AddDigest(digs, ds[0]), ds[1..])
  }

  /** Each entry of `RepoDigests` through `_digest_only`. */
  function Normalised(rds: seq<string>): (ds: seq<Option<string>>)
    ensures |ds| == |rds|
    ensures forall i :: 0 <= i < |rds| ==> ds[i] == DigestOnly(Some(rds[i]))
  {
    seq(|rds|, i requires 0 <= i < |rds| => DigestOnly(Some(rds[i])))
  }

  /** `_local_repo_digests(img_attrs)` over the image's `RepoDigests`. */
  function LocalRepoDigests(rds: seq<string>): seq<string> {
    CollectDigests([], Normalised(rds))
  }

  /** The loop the server runs. */
  method CollectLocalDigests(rds: seq<string>) returns (digs: seq<string>)
    ensures digs == LocalRepoDigests(rds)
  {
    ghost var ds := Normalised(rds);
    digs := [];
    var i := 0;
    while i < |rds|
      invariant 0 <= i <= |rds|
      invariant CollectDigests(digs, ds[i..]) == LocalRepoDigests(rds)
    {
      assert ds[i..][1..] == ds[i + 1..];
      var d := DigestOnly(Some(rds[i]));
      if d.Some? && d.value != "" && d.value !in digs {
        digs := digs + [d.value];
      }
      i := i + 1;
    }
  }

  /** Some entry of `RepoDigests` normalises to the non-empty `x`. */
  predicate Normalises(rds: seq<string>, x: string) {
    x != "" && Some(x) in Normalised(rds)
  }

  predicate Distinct(xs: seq<string>) {
    forall i, j :: 0 <= i < j < |xs| ==> xs[i] != xs[j]
  }

  lemma {:induction false} CollectKeepsDistinct(digs: seq<string>, ds: seq<Option<string>>)
    requires Distinct(digs)
    ensures Distinct(CollectDigests(digs, ds))
    decreases |ds|
  {
    if ds != [] {
      var next := AddDigest(digs, ds[0]);
      assert Distinct(next);
      CollectKeepsDistinct(next, ds[1..]);
    }
  }

  lemma {:induction false} CollectMembers(digs: seq<string>, ds: seq<Option<string>>, x: string)
    ensures x in CollectDigests(digs, ds) <==> x in digs || (x != "" && Some(x) in ds)
    decreases |ds|
  {
    if ds != [] {
      CollectMembers(AddDigest(digs, ds[0]), ds[1..], x);
      assert ds == [ds[0]] + ds[1..];
    }
  }

  lemma {:induction false} CollectHasNoEmpty(digs: seq<string>, ds: seq<Option<string>>)
    requires "" !in digs
    ensures "" !in CollectDigests(digs, ds)
    decreases |ds|
  {
    if ds != [] {
      CollectHasNoEmpty(AddDigest(digs, ds[0]), ds[1..]);
    }
  }

  /** The position of the first entry that normalises to `x`, or `|ds|` when there is none. */
  function FirstSome(ds: seq<Option<string>>, x: string): (k: nat)
    ensures k <= |ds|
    ensures k < |ds| <==> Some(x) in ds
    ensures k < |ds| ==> ds[k] == Some(x) && Some(x) !in ds[..k]
    decreases |ds|
  {
    if ds == [] then 0
    else if ds[0] == Some(x) then 0
    else
      var k := 1 + FirstSome(ds[1..], x);
      assert ds[..k] == [ds[0]] + ds[1..][..k - 1];
      k
  }

  lemma FirstSomeSnoc(ds: seq<Option<string>>, d: Option<string>, x: string)
    ensures Some(x) in ds ==> FirstSome(ds + [d], x) == FirstSome(ds, x)
    ensures Some(x) !in ds && d == Some(x) ==> FirstSome(ds + [d], x) == |ds|
  {
    var e := ds + [d];
    if Some(x) in ds {
      var k := FirstSome(ds, x);
      assert e[..k] == ds[..k];
      FirstSomeIs(e, x, k);
    } else if d == Some(x) {
      assert e[..|ds|] == ds;
      FirstSomeIs(e, x, |ds|);
    }
  }

  /** The first `Some(x)` is at `k` when `ds[k]` is one and no earlier entry is. */
  lemma FirstSomeIs(ds: seq<Option<string>>, x: string, k: nat)
    requires k < |ds| && ds[k] == Some(x) && Some(x) !in ds[..k]
    ensures FirstSome(ds, x) == k
  {
    var j := FirstSome(ds, x);
    assert forall m :: 0 <= m < k ==> ds[m] == ds[..k][m];
    assert forall m :: 0 <= m < j ==> ds[m] == ds[..j][m];
  }

  lemma {:induction false} CollectSnoc(digs: seq<string>, ds: seq<Option<string>>, d: Option<string>)
    ensures CollectDigests(digs, ds + [d]) == AddDigest(CollectDigests(digs, ds), d)
    decreases |ds|
  {
    if ds == [] {
      assert [d][1..] == [];
    } else {
      assert (ds + [d])[1..] == ds[1..] + [d];
      CollectSnoc(AddDigest(digs, ds[0]), ds[1..], d);
    }
  }

  /** The digests come out in the order of their first entry. */
  lemma {:induction false} CollectOrder(ds: seq<Option<string>>)
    ensures var l := CollectDigests([], ds);
            forall i, j :: 0 <= i < j < |l| ==> FirstSome(ds, l[i]) < FirstSome(ds, l[j])
    decreases |ds|
  {
    if ds != [] {
      var p := ds[..|ds| - 1];
      var d := ds[|ds| - 1];
      assert ds == p + [d];
      CollectOrder(p);
      CollectSnoc([], p, d);
      var lp := CollectDigests([], p);
      var l := CollectDigests([], ds);
      forall i | 0 <= i < |lp|
        ensures FirstSome(ds, lp[i]) == FirstSome(p, lp[i]) < |p|
      {
        CollectMembers([], p, lp[i]);
        FirstSomeSnoc(p, d, lp[i]);
      }
      if l != lp {
        CollectMembers([], p, d.value);
        FirstSomeSnoc(p, d, d.value);
        assert l == lp + [d.value];
      }
    }
  }

  /**
   * The local digests are distinct and non-empty, a digest is listed exactly
   * when some entry normalises to it, and they are listed in the order of the
   * first entry that gives each.
   */
  lemma LocalDigestsSpec(rds: seq<string>, x: string)
    ensures Distinct(LocalRepoDigests(rds))
    ensures x in LocalRepoDigests(rds) <==> Normalises(rds, x)
    ensures "" !in LocalRepoDigests(rds)
    ensures var l := LocalRepoDigests(rds);
            forall i, j :: 0 <= i < j < |l| ==> FirstSome(Normalised(rds), l[i]) < FirstSome(Normalised(rds), l[j])
  {
    CollectKeepsDistinct([], Normalised(rds));
    CollectMembers([], Normalised(rds), x);
    CollectHasNoEmpty([], Normalised(rds));
    CollectOrder(Normalised(rds));
  }
}
