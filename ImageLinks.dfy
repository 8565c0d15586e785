/**
 * The dashboard's pure presentation rules (static/app.js): the repository
 * link and the short label derived from an image reference, the tone of a
 * container's lifecycle state, and the tone of an update-status tag.
 */
module ImageLinks {
  import opened Wrappers
  import opened Text
  import UrlEncoding

  // ---------------------------------------------------------------------
  // Image reference clean-up shared by link and label
  // ---------------------------------------------------------------------

  /** `String(imageRef).trim()`, then one pair of surrounding brackets removed. */
  function CleanRef(image: string): string {
    var ref := Strip(image, JsSpace);
    if StartsWith(ref, "[") && EndsWith(ref, "]") && |ref| >= 2 then ref[1..|ref| - 1] else ref
  }

  /** A missing or empty reference yields no link and no label (`if (!imageRef) return null`). */
  predicate Present(image: Option<string>) {
    image.Some? && image.value != ""
  }

  // ---------------------------------------------------------------------
  // repoLinkFromImage
  // ---------------------------------------------------------------------

  /** Where the link of a repository path points. */
  datatype RepoSite =
    | GitHub(path: string)             // ghcr.io/<path>
    | LinuxServer(name: string)        // lscr.io/linuxserver/.../<name>
    | DockerOfficial(name: string)     // a single-segment Docker Hub name
    | DockerUser(path: string)         // <user>/<repo> on Docker Hub
    | WebSearch(query: string)         // anything else

  /** The text after the last '/', JavaScript `split('/').pop()`. */
  function LastSegment(p: string): (r: string)
    ensures '/' !in r && EndsWith(p, r)
  {
    var i := LastIndexOf(p, '/');
    p[i + 1..]
  }

  /** The first segment of a path: before its first '/'. */
  function FirstSegment(p: string): string {
    BeforeFirst(p, '/')
  }

  /** Where a repository path links: the first of the five rules that applies. */
  function Site(repoPath: string): (r: RepoSite)
    ensures r.GitHub? <==> StartsWith(repoPath, "ghcr.io/")
    ensures r.GitHub? ==> repoPath == "ghcr.io/" + r.path
    ensures r.LinuxServer? <==> !StartsWith(repoPath, "ghcr.io/") && StartsWith(repoPath, "lscr.io/linuxserver/")
    ensures r.LinuxServer? ==> r.name == LastSegment(repoPath)
    ensures r.DockerOfficial? <==> !StartsWith(repoPath, "ghcr.io/") && !StartsWith(repoPath, "lscr.io/linuxserver/") && '/' !in repoPath
    ensures r.DockerOfficial? ==> r.name == repoPath
    ensures r.DockerUser? <==> (!StartsWith(repoPath, "ghcr.io/") && !StartsWith(repoPath, "lscr.io/linuxserver/") && '/' in repoPath
                                && '.' !in FirstSegment(repoPath) && ':' !in FirstSegment(repoPath))
    ensures r.DockerUser? ==> r.path == repoPath
    ensures r.WebSearch? ==> r.query == repoPath
  {
    if StartsWith(repoPath, "ghcr.io/") then
      assert repoPath == repoPath[..8] + repoPath[8..];
      GitHub(repoPath[8..])
    else if StartsWith(repoPath, "lscr.io/linuxserver/") then LinuxServer(LastSegment(repoPath))
    else if '/' !in repoPath then DockerOfficial(repoPath)
    else
      var first := FirstSegment(repoPath);
      if '.' !in first && ':' !in first then DockerUser(repoPath) else WebSearch(repoPath)
  }

  /** The address of each site: GitHub, the LinuxServer image repository, Docker Hub, or a web search. */
  function SiteUrl(site: RepoSite): (u: string)
    ensures site.GitHub? ==> u == "https://github.com/" + site.path
    ensures site.LinuxServer? ==> u == "https://github.com/linuxserver/docker-" + site.name
    ensures site.DockerOfficial? ==> u == "https://hub.docker.com/_/" + site.name
    ensures site.DockerUser? ==> u == "https://hub.docker.com/r/" + site.path
    ensures site.WebSearch? ==> u == "https://www.google.com/search?q=" + UrlEncoding.Encode(UrlEncoding.Component, site.query) + "+docker"
  {
    match site
    case GitHub(p) => "https://github.com/" + p
    case LinuxServer(n) => "https://github.com/linuxserver/docker-" + n
    case DockerOfficial(n) => "https://hub.docker.com/_/" + n
    case DockerUser(p) => "https://hub.docker.com/r/" + p
    case WebSearch(q) => "https://www.google.com/search?q=" + UrlEncoding.Encode(UrlEncoding.Component, q) + "+docker"
  }

  /** The repository path: the cleaned reference up to its first ':'. */
  function RepoPath(image: string): (p: string)
    ensures ':' !in p
  {
    BeforeFirst(CleanRef(image), ':')
  }

  function RepoLink(image: Option<string>): (r: Option<string>)
    ensures r.Some? <==> Present(image)
  {
    if !Present(image) then None else Some(SiteUrl(Site(RepoPath(image.value))))
  }

  /**
   * The five link targets, by the repository path `p` of the reference:
   * `ghcr.io/<rest>` links to GitHub, `lscr.io/linuxserver/…` to the
   * LinuxServer repository of its last segment, a path without '/' to Docker
   * Hub's official image, a first segment without '.' (a Docker Hub user) to
   * that user's repository, and anything else to a web search.
   */
  lemma RepoLinkTargets(image: string)
    requires image != []
    ensures var p := RepoPath(image);
            var u := RepoLink(Some(image)).value;
            (StartsWith(p, "ghcr.io/") ==> u == "https://github.com/" + p[8..])
            && (!StartsWith(p, "ghcr.io/") && StartsWith(p, "lscr.io/linuxserver/") ==>
                  u == "https://github.com/linuxserver/docker-" + LastSegment(p))
            && (!StartsWith(p, "ghcr.io/") && !StartsWith(p, "lscr.io/linuxserver/") && '/' !in p ==>
                  u == "https://hub.docker.com/_/" + p)
            && (!StartsWith(p, "ghcr.io/") && !StartsWith(p, "lscr.io/linuxserver/") && '/' in p && '.' !in FirstSegment(p) ==>
                  u == "https://hub.docker.com/r/" + p)
            && (!StartsWith(p, "ghcr.io/") && !StartsWith(p, "lscr.io/linuxserver/") && '/' in p && '.' in FirstSegment(p) ==>
                  u == "https://www.google.com/search?q=" + UrlEncoding.Encode(UrlEncoding.Component, p) + "+docker")
  {
    var p := RepoPath(image);
    assert forall j :: 0 <= j < |FirstSegment(p)| ==> FirstSegment(p)[j] == p[j];
  }

  /** `nginx:latest` links to Docker Hub's official `nginx` page. */
  lemma NginxLink()
    ensures RepoLink(Some("nginx:latest")) == Some("https://hub.docker.com/_/" + "nginx")
  {
    NginxPath();
    NginxSite();
  }

  lemma NginxPath()
    ensures RepoPath("nginx:latest") == "nginx"
  {
    var s := "nginx:latest";
    CleanRefOfClean(s);
    assert s[..5] == "nginx";
    IndexOfIs(s, ':', 5);
  }

  lemma NginxSite()
    ensures Site("nginx") == DockerOfficial("nginx")
  {
    assert !StartsWith("nginx", "ghcr.io/") && !StartsWith("nginx", "lscr.io/linuxserver/");
    assert '/' !in "nginx";
  }

  /** A reference with no surrounding blanks and no leading '[' is already clean. */
  lemma CleanRefOfClean(s: string)
    requires s != [] && s[0] != '['
    requires !IsJsSpace(s[0]) && !IsJsSpace(s[|s| - 1])
    ensures CleanRef(s) == s
  {
    StripClean(s, JsSpace);
    NotStartsWithChar(s, '[');
  }

  /**
   * The tag never changes the link: a reference with any tag links where the
   * bare repository does, because everything from the first ':' is dropped.
   */
  lemma TagDoesNotChangeLink(repo: string, tag: string)
    requires repo != [] && ':' !in repo
    requires !IsJsSpace(repo[0]) && repo[0] != '['
    requires !IsJsSpace(repo[|repo| - 1])
    requires tag == [] || !IsJsSpace(tag[|tag| - 1])
    ensures RepoLink(Some(repo + ":" + tag)) == RepoLink(Some(repo))
  {
    RepoPathOfTagged(repo, tag);
    CleanRefOfClean(repo);
    IndexOfAbsent(repo, ':');
  }

  lemma RepoPathOfTagged(repo: string, tag: string)
    requires repo != [] && ':' !in repo
    requires !IsJsSpace(repo[0]) && repo[0] != '['
    requires tag == [] || !IsJsSpace(tag[|tag| - 1])
    ensures RepoPath(repo + ":" + tag) == repo
  {
    TaggedIsClean(repo, tag);
    SplitAtFirst(repo, ':', tag);
  }

  lemma TaggedIsClean(repo: string, tag: string)
    requires repo != []
    requires !IsJsSpace(repo[0]) && repo[0] != '['
    requires tag == [] || !IsJsSpace(tag[|tag| - 1])
    ensures CleanRef(repo + ":" + tag) == repo + ":" + tag
  {
    var full := repo + ":" + tag;
    assert full[0] == repo[0];
    assert full[|full| - 1] == if tag == [] then ':' else tag[|tag| - 1];
    CleanRefOfClean(full);
  }

  /** Every link is a web address on one of the four known sites. */
  lemma LinkIsHttps(image: Option<string>)
    requires Present(image)
    ensures StartsWith(RepoLink(image).value, "https://")
  {
    SiteUrlIsHttps(Site(RepoPath(image.value)));
  }

  lemma SiteUrlIsHttps(site: RepoSite)
    ensures StartsWith(SiteUrl(site), "https://")
  {
    var u := SiteUrl(site);
    if site.WebSearch? {
      var head := "https://www.google.com/search?q=";
      var e := UrlEncoding.Encode(UrlEncoding.Component, site.query);
      HttpsThen(head, e);
      HttpsThen(head + e, "+docker");
    } else {
      var (head, rest) := SiteParts(site);
      HttpsThen(head, rest);
    }
  }

  /** The fixed address and the variable part of a link to a known site. */
  function SiteParts(site: RepoSite): (r: (string, string))
    requires !site.WebSearch?
    ensures |r.0| >= 8 && r.0[..8] == "https://"
    ensures SiteUrl(site) == r.0 + r.1
  {
    match site
    case GitHub(p) => ("https://github.com/", p)
    case LinuxServer(n) => ("https://github.com/linuxserver/docker-", n)
    case DockerOfficial(n) => ("https://hub.docker.com/_/", n)
    case DockerUser(p) => ("https://hub.docker.com/r/", p)
  }

  lemma HttpsThen(a: string, b: string)
    requires |a| >= 8 && a[..8] == "https://"
    ensures StartsWith(a + b, "https://")
  {
    assert (a + b)[..8] == a[..8];
  }

  // ---------------------------------------------------------------------
  // repoLabelFromImage
  // ---------------------------------------------------------------------

  function DropPrefix(s: string, prefix: string): (r: string)
    ensures EndsWith(s, r)
    ensures StartsWith(s, prefix) ==> s == prefix + r
    ensures !StartsWith(s, prefix) ==> r == s
  {
    if StartsWith(s, prefix) then s[|prefix|..] else s
  }

  /** `ghcr.io/`, `lscr.io/`, `registry-1.docker.io/`, `library/`: each removed at most once, in that order. */
  function ShortPath(p: string): string {
    DropPrefix(DropPrefix(DropPrefix(DropPrefix(p, "ghcr.io/"), "lscr.io/"), "registry-1.docker.io/"), "library/")
  }

  /** Where the tag suffix starts: at the last ':', or at the end when there is none. */
  function TagStart(ref: string): (i: nat)
    ensures i <= |ref|
    ensures ':' !in ref ==> i == |ref|
    ensures ':' in ref ==> i < |ref| && ref[i] == ':' && ':' !in ref[i + 1..]
  {
    if ':' in ref then
      LastIndexOfAbsentConverse(ref, ':');
      LastIndexOf(ref, ':')
    else
      |ref|
  }

  function RepoLabel(image: Option<string>): (r: Option<string>)
    ensures r.Some? <==> Present(image)
  {
    if !Present(image) then None
    else
      var ref := CleanRef(image.value);
      var i := TagStart(ref);
      Some(ShortPath(ref[..i]) + ref[i..])
  }

  lemma ShortPathIsTail(p: string)
    ensures EndsWith(p, ShortPath(p))
  {
    var p1 := DropPrefix(p, "ghcr.io/");
    var p2 := DropPrefix(p1, "lscr.io/");
    var p3 := DropPrefix(p2, "registry-1.docker.io/");
    EndsWithTrans(p, p1, p2);
    EndsWithTrans(p, p2, p3);
    EndsWithTrans(p, p3, ShortPath(p));
  }

  /**
   * The label never invents text: it is a tail of the cleaned reference,
   * obtained by dropping a leading registry/library prefix, and it keeps the
   * whole suffix from the last ':' (the tag) verbatim.
   */
  lemma LabelIsTailOfReference(image: Option<string>)
    requires Present(image)
    ensures EndsWith(CleanRef(image.value), RepoLabel(image).value)
    ensures var ref := CleanRef(image.value);
            EndsWith(RepoLabel(image).value, ref[TagStart(ref)..])
  {
    var ref := CleanRef(image.value);
    var i := TagStart(ref);
    assert RepoLabel(image).value == ShortPath(ref[..i]) + ref[i..];
    ShortenedTail(ref, i);
  }

  lemma ShortenedTail(ref: string, i: nat)
    requires i <= |ref|
    ensures EndsWith(ref, ShortPath(ref[..i]) + ref[i..])
    ensures EndsWith(ShortPath(ref[..i]) + ref[i..], ref[i..])
  {
    assert ref == ref[..i] + ref[i..];
    ShortPathIsTail(ref[..i]);
    EndsWithAppend(ref[..i], ShortPath(ref[..i]), ref[i..]);
    var l := ShortPath(ref[..i]) + ref[i..];
    assert l[|l| - |ref[i..]|..] == ref[i..];
  }

  lemma LastIndexOfAbsentConverse(s: string, c: char)
    requires c in s
    ensures LastIndexOf(s, c) >= 0
  {
  }

  /**
   * With a tag (a last ':' at `k` in the cleaned reference) the label is the
   * shortened repository followed by the tag verbatim; without one it is the
   * shortened reference.
   */
  lemma LabelOfTaggedRef(image: string, k: nat)
    requires image != []
    requires k < |CleanRef(image)| && CleanRef(image)[k] == ':' && ':' !in CleanRef(image)[k + 1..]
    ensures RepoLabel(Some(image)) == Some(ShortPath(CleanRef(image)[..k]) + CleanRef(image)[k..])
  {
    var ref := CleanRef(image);
    LastIndexOfIs(ref, ':', k);
    assert TagStart(ref) == k;
    LabelAt(image, ref, k);
  }

  lemma LabelAt(image: string, ref: string, k: nat)
    requires image != [] && ref == CleanRef(image) && k == TagStart(ref)
    ensures RepoLabel(Some(image)) == Some(ShortPath(ref[..k]) + ref[k..])
  {
  }

  lemma WholeSlice(s: string)
    ensures s[..|s|] == s && s[|s|..] == [] && s + [] == s
  {
  }

  lemma LabelOfUntaggedRef(image: string)
    requires image != [] && ':' !in CleanRef(image)
    ensures RepoLabel(Some(image)) == Some(ShortPath(CleanRef(image)))
  {
    var ref := CleanRef(image);
    LabelAt(image, ref, |ref|);
    WholeSlice(ref);
    WholeSlice(ShortPath(ref));
  }

  // ---------------------------------------------------------------------
  // stateClass and the status tag
  // ---------------------------------------------------------------------

  datatype Tone = ToneOk | ToneWarn | ToneErr | ToneMuted

  /** CSS class of the lifecycle state line; `String(s || '').toLowerCase()` first. */
  function StateClass(state: Option<string>): (t: Tone)
    ensures var v := Lower(state.GetOr(""));
            && (t == ToneOk <==> v == "running" || v == "healthy")
            && (t == ToneWarn <==> v == "restarting" || v == "starting" || v == "unhealthy")
            && (t == ToneErr <==> v == "exited" || v == "dead" || v == "removing" || v == "error")
    ensures state.None? ==> t == ToneMuted
  {
    var v := Lower(state.GetOr(""));
    if v in ["running", "healthy"] then ToneOk
    else if v in ["restarting", "starting", "unhealthy"] then ToneWarn
    else if v in ["exited", "dead", "removing", "error"] then ToneErr
    else ToneMuted
  }

  /** The state tone ignores letter case: "Running" and "RUNNING" read as "running". */
  lemma StateClassIgnoresCase(s: string)
    ensures StateClass(Some(s)) == StateClass(Some(Lower(s)))
  {
    LowerIdempotent(s);
  }

  /** Class of the update-status tag. */
  function TagTone(status: string): (t: Tone)
    ensures t == ToneOk <==> status == "up_to_date"
    ensures t == ToneWarn <==> status == "update_available"
    ensures t == ToneMuted <==> status == "not_found"
    ensures t == ToneErr <==> status != "up_to_date" && status != "update_available" && status != "not_found"
  {
    if status == "up_to_date" then ToneOk
    else if status == "update_available" then ToneWarn
    else if status == "not_found" then ToneMuted
    else ToneErr
  }
}
