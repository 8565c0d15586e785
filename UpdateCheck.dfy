/**
 * The server's update check (script.py): for each container, the image
 * reference it is compared under, its local digests, the remote digest (from
 * the pull cache or the registry), and the resulting status; the reference
 * `update_container` pulls; the network modes it does not reconnect; and the
 * byte counters summed in `_compute_stats`.
 */
module UpdateCheck {
  import opened Wrappers
  import opened Text
  import opened RegistryRefs
  import opened TtlCache

  // ---------------------------------------------------------------------
  // Containers and their images
  // ---------------------------------------------------------------------

  /**
   * What inspecting a container's image gives: its `RepoTags` attribute, the
   * SDK's `image.tags`, and its `RepoDigests` (absent lists are empty), or
   * the message of the exception raised while inspecting it.
   */
  datatype ImageInfo =
    | Inspected(repoTags: seq<string>, tags: seq<string>, repoDigests: seq<string>)
    | Raised(message: string)

  datatype Container = Container(name: string, image: ImageInfo)

  /** Which meta computation fills a container's entry: full stats, the light meta, or `{}`. */
  datatype MetaEntry = FullStats | LightMeta | NoMeta

  const UnknownImage: string := "unknown_image"
  const UnknownLocalDigest: string := "unknown_local_digest"
  const RegistryError: string := "registry_error"
  const UpToDate: string := "up_to_date"
  const UpdateAvailable: string := "update_available"

  /** The repository of a digest reference with `:latest`: `rd.split("@")[0] + ":latest"`. */
  function LatestOf(repoDigest: string): (r: string)
    ensures r != "" && '@' !in r
  {
    BeforeFirst(repoDigest, '@') + ":latest"
  }

  /** The tag list the check reads: `RepoTags or image.tags or []`. */
  function TagList(repoTags: seq<string>, tags: seq<string>): seq<string> {
    if repoTags != [] then repoTags else tags
  }

  /** The reference the check compares under: the first tag if non-empty, else the first digest's repository at `latest`. */
  function ImageRefOf(repoTags: seq<string>, tags: seq<string>, repoDigests: seq<string>): (r: Option<string>)
    ensures r.Some? ==> r.value != ""
    ensures r.None? <==> (TagList(repoTags, tags) == [] || TagList(repoTags, tags)[0] == "") && repoDigests == []
    ensures TagList(repoTags, tags) != [] && TagList(repoTags, tags)[0] != "" ==> r == Some(TagList(repoTags, tags)[0])
    ensures (TagList(repoTags, tags) == [] || TagList(repoTags, tags)[0] == "") && repoDigests != [] ==>
              r == Some(LatestOf(repoDigests[0]))
  {
    var ts := TagList(repoTags, tags);
    if ts != [] && ts[0] != "" then Some(ts[0])
    else if repoDigests != [] then Some(LatestOf(repoDigests[0]))
    else None
  }

  /** Whether some local digest, normalised again, equals the normalised remote digest. */
  predicate SameDigest(local: seq<string>, remote: string) {
    exists i :: 0 <= i < |local| && DigestOnly(Some(local[i])) == DigestOnly(Some(remote))
  }

  /** The status for a reference, the local digests and the remote digest, in the order the check tests them. */
  function Classify(ref: Option<string>, local: seq<string>, remote: Option<string>): (s: string)
    ensures s in {UnknownImage, UnknownLocalDigest, RegistryError, UpToDate, UpdateAvailable}
    ensures s == UpToDate <==> ref.Some? && local != [] && remote.Some? && remote.value != "" && SameDigest(local, remote.value)
    ensures s == RegistryError <==> ref.Some? && local != [] && (remote.None? || remote.value == "")
    ensures s == UnknownImage <==> ref.None?
    ensures s == UnknownLocalDigest <==> ref.Some? && local == []
    ensures s == UpdateAvailable <==> ref.Some? && local != [] && remote.Some? && remote.value != "" && !SameDigest(local, remote.value)
  {
    if ref.None? then UnknownImage
    else if local == [] then UnknownLocalDigest
    else if remote.None? || remote.value == "" then RegistryError
    else if SameDigest(local, remote.value) then UpToDate
    else UpdateAvailable
  }

  // ---------------------------------------------------------------------
  // check_updates_for_containers and its light twin
  // ---------------------------------------------------------------------

  /** The two result maps and the pull cache, as the loop goes. */
  datatype CheckState = CheckState(updates: map<string, string>, meta: map<string, MetaEntry>,
                                   pull: map<string, Entry<Option<string>>>)

  /** One container's turn: `now` is the check's single timestamp, `registry` what the registry answers for a reference. */
  function CheckOne(st: CheckState, c: Container, light: bool, force: bool, now: real,
                    registry: string -> Option<string>): (r: CheckState)
    ensures r.updates.Keys == st.updates.Keys + {c.name}
    ensures r.meta.Keys == st.meta.Keys + {c.name}
    ensures forall n :: n in st.updates && n != c.name ==> r.updates[n] == st.updates[n]
    ensures r.meta[c.name] == (if light then LightMeta else if c.image.Raised? then NoMeta else FullStats)
    ensures c.image.Raised? ==> r.updates[c.name] == "error: " + c.image.message && r.pull == st.pull
    ensures c.image.Inspected? ==>
              var ref := ImageRefOf(c.image.repoTags, c.image.tags, c.image.repoDigests);
              var local := LocalRepoDigests(c.image.repoDigests);
              && (ref.None? || local == [] ==> r.updates[c.name] == Classify(ref, local, None) && r.pull == st.pull)
              && (ref.Some? && local != [] ==>
                    var (remote, pull) := Lookup(st.pull, ref.value, now, force, PullTtl, registry(ref.value));
                    r.updates[c.name] == Classify(ref, local, remote) && r.pull == pull)
  {
    var m := if light then LightMeta else FullStats;
    match c.image
    case Raised(msg) =>
      st.(updates := st.updates[c.name := "error: " + msg], meta := st.meta[c.name := if light then LightMeta else NoMeta])
    case Inspected(repoTags, tags, repoDigests) =>
      var ref := ImageRefOf(repoTags, tags, repoDigests);
      var local := LocalRepoDigests(repoDigests);
      if ref.None? || local == [] then
        st.(updates := st.updates[c.name := Classify(ref, local, None)], meta := st.meta[c.name := m])
      else
        var (remote, pull) := Lookup(st.pull, ref.value, now, force, PullTtl, registry(ref.value));
        CheckState(st.updates[c.name := Classify(ref, local, remote)], st.meta[c.name := m], pull)
  }

  function CheckAll(st: CheckState, cs: seq<Container>, light: bool, force: bool, now: real,
                    registry: string -> Option<string>): CheckState
    decreases |cs|
  {
    if cs == [] then st else CheckAll(CheckOne(st, cs[0], light, force, now, registry), cs[1..], light, force, now, registry)
  }

  function Names(cs: seq<Container>): set<string> {
    set i | 0 <= i < |cs| :: cs[i].name
  }

  /** `check_updates_for_containers` (`light` false) and `check_updates_for_containers_light` (`light` true). */
  method CheckUpdatesForContainers(pullCache: Cache<Option<string>>, containers: seq<Container>, light: bool,
                                   force: bool, now: real, registry: string -> Option<string>)
    returns (updates: map<string, string>, meta: map<string, MetaEntry>)
    requires pullCache.ttl == PullTtl
    modifies pullCache
    ensures CheckState(updates, meta, pullCache.entries)
            == CheckAll(CheckState(map[], map[], old(pullCache.entries)), containers, light, force, now, registry)
  {
    ghost var goal := CheckAll(CheckState(map[], map[], pullCache.entries), containers, light, force, now, registry);
    updates, meta := map[], map[];
    var i := 0;
    while i < |containers|
      invariant 0 <= i <= |containers|
      invariant CheckAll(CheckState(updates, meta, pullCache.entries), containers[i..], light, force, now, registry) == goal
    {
      assert containers[i..][1..] == containers[i + 1..];
      var c := containers[i];
      var m := if light then LightMeta else FullStats;
      match c.image {
        case Raised(msg) =>
          updates := updates[c.name := "error: " + msg];
          meta := meta[c.name := if light then LightMeta else NoMeta];
        case Inspected(repoTags, tags, repoDigests) =>
          var ref := ImageRefOf(repoTags, tags, repoDigests);
          var local := CollectLocalDigests(repoDigests);
          if ref.None? || local == [] {
            updates := updates[c.name := Classify(ref, local, None)];
          } else {
            var remote := pullCache.Get(ref.value, now, force, registry(ref.value));
            updates := updates[c.name := Classify(ref, local, remote)];
          }
          meta := meta[c.name := m];
      }
      i := i + 1;
    }
  }

  lemma NamesStep(cs: seq<Container>)
    requires cs != []
    ensures Names(cs) == {cs[0].name} + Names(cs[1..])
  {
    forall n | n in Names(cs) ensures n in {cs[0].name} + Names(cs[1..]) {
      var i :| 0 <= i < |cs| && cs[i].name == n;
      if i > 0 { assert cs[1..][i - 1].name == n; }
    }
    forall n | n in Names(cs[1..]) ensures n in Names(cs) {
      var i :| 0 <= i < |cs[1..]| && cs[1..][i].name == n;
      assert cs[i + 1].name == n;
    }
  }

  /** Every container gets exactly one status and one meta entry, and no other name does. */
  lemma {:induction false} CheckCoversNames(st: CheckState, cs: seq<Container>, light: bool, force: bool, now: real,
                                            registry: string -> Option<string>)
    ensures CheckAll(st, cs, light, force, now, registry).updates.Keys == st.updates.Keys + Names(cs)
    ensures CheckAll(st, cs, light, force, now, registry).meta.Keys == st.meta.Keys + Names(cs)
    decreases |cs|
  {
    if cs != [] {
      CheckCoversNames(CheckOne(st, cs[0], light, force, now, registry), cs[1..], light, force, now, registry);
      NamesStep(cs);
    }
  }

  /** A name the rest of the list does not repeat keeps the status its own turn gave it. */
  lemma {:induction false} LaterTurnsKeepStatus(st: CheckState, cs: seq<Container>, light: bool, force: bool, now: real,
                                                registry: string -> Option<string>, n: string)
    requires n in st.updates && n !in Names(cs)
    ensures n in CheckAll(st, cs, light, force, now, registry).updates
    ensures CheckAll(st, cs, light, force, now, registry).updates[n] == st.updates[n]
    decreases |cs|
  {
    if cs != [] {
      assert cs[0].name in Names(cs);
      assert Names(cs[1..]) <= Names(cs) by {
        forall m | m in Names(cs[1..]) ensures m in Names(cs) {
          var i :| 0 <= i < |cs[1..]| && cs[1..][i].name == m;
          assert cs[i + 1].name == m;
        }
      }
      LaterTurnsKeepStatus(CheckOne(st, cs[0], light, force, now, registry), cs[1..], light, force, now, registry, n);
    }
  }

  /** An inspection error is reported as `error: <message>`; the full check then stores `{}` as meta. */
  lemma InspectionErrorReported(cs: seq<Container>, k: nat, light: bool, force: bool, now: real,
                                pull: map<string, Entry<Option<string>>>, registry: string -> Option<string>)
    requires k < |cs| && cs[k].image.Raised? && cs[k].name !in Names(cs[k + 1..])
    ensures var r := CheckAll(CheckState(map[], map[], pull), cs, light, force, now, registry);
            cs[k].name in r.updates && r.updates[cs[k].name] == "error: " + cs[k].image.message
  {
    var st := CheckState(map[], map[], pull);
    CheckSplit(st, cs, k, light, force, now, registry);
    var before := CheckAll(st, cs[..k], light, force, now, registry);
    var after := CheckOne(before, cs[k], light, force, now, registry);
    LaterTurnsKeepStatus(after, cs[k + 1..], light, force, now, registry, cs[k].name);
  }

  /** Running the check over a list is running it over a prefix, then the `k`-th container, then the rest. */
  lemma {:induction false} CheckSplit(st: CheckState, cs: seq<Container>, k: nat, light: bool, force: bool, now: real,
                                      registry: string -> Option<string>)
    requires k < |cs|
    ensures CheckAll(st, cs, light, force, now, registry)
            == CheckAll(CheckOne(CheckAll(st, cs[..k], light, force, now, registry), cs[k], light, force, now, registry),
                        cs[k + 1..], light, force, now, registry)
  {
    var mid := CheckAll(st, cs[..k], light, force, now, registry);
    calc {
      CheckAll(st, cs, light, force, now, registry);
      == { assert cs[..k] + cs[k..] == cs; }
      CheckAll(st, cs[..k] + cs[k..], light, force, now, registry);
      == { CheckAppend(st, cs[..k], cs[k..], light, force, now, registry); }
      CheckAll(mid, cs[k..], light, force, now, registry);
      == { assert cs[k..][0] == cs[k] && cs[k..][1..] == cs[k + 1..]; }
      CheckAll(CheckOne(mid, cs[k], light, force, now, registry), cs[k + 1..], light, force, now, registry);
    }
  }

  /** The check over `a + b` is the check over `a`, continued over `b`. */
  lemma {:induction false} CheckAppend(st: CheckState, a: seq<Container>, b: seq<Container>, light: bool, force: bool,
                                       now: real, registry: string -> Option<string>)
    ensures CheckAll(st, a + b, light, force, now, registry)
            == CheckAll(CheckAll(st, a, light, force, now, registry), b, light, force, now, registry)
    decreases |a|
  {
    if a == [] {
      assert a + b == b;
    } else {
      assert (a + b)[0] == a[0] && (a + b)[1..] == a[1..] + b;
      CheckAppend(CheckOne(st, a[0], light, force, now, registry), a[1..], b, light, force, now, registry);
    }
  }

  /**
   * Without `force`, a reference whose cached digest is still fresh is
   * classified against that digest: the registry is not consulted.
   */
  lemma FreshCacheDecides(st: CheckState, c: Container, light: bool, now: real, registry: string -> Option<string>)
    requires c.image.Inspected?
    requires var ref := ImageRefOf(c.image.repoTags, c.image.tags, c.image.repoDigests);
             ref.Some? && Hit(st.pull, ref.value, now, false, PullTtl)
    ensures var ref := ImageRefOf(c.image.repoTags, c.image.tags, c.image.repoDigests);
            var r := CheckOne(st, c, light, false, now, registry);
            r.updates[c.name] == Classify(ref, LocalRepoDigests(c.image.repoDigests), st.pull[ref.value].value)
            && r.pull == st.pull
  {
  }

  // ---------------------------------------------------------------------
  // What the status means for digests
  // ---------------------------------------------------------------------

  lemma LowerKeepsBareEnds(d: string)
    requires BareEnds(d) && '@' !in d
    ensures BareEnds(Lower(d)) && '@' !in Lower(d)
  {
    assert Lower(d)[0] == LowerChar(d[0]);
    assert Lower(d)[|d| - 1] == LowerChar(d[|d| - 1]);
    assert forall i :: 0 <= i < |d| ==> Lower(d)[i] != '@';
  }

  /**
   * Normalising is not idempotent in general, which is why the comparison
   * normalises each local digest again: the entry `repo@"d"` loses only its
   * trailing quote before the cut at '@', so it normalises to `"d`
   * (lower-cased), and that normalises again to the lower-cased `d`.
   */
  lemma QuotedDigestNeedsSecondPass(repo: string, d: string)
    requires BareEnds(repo) && '@' !in repo && BareEnds(d) && '@' !in d
    ensures DigestOnly(Some(repo + ['@', '"'] + d + ['"'])) == Some(['"'] + Lower(d))
    ensures DigestOnly(Some(['"'] + Lower(d))) == Some(Lower(d))
    ensures ['"'] + Lower(d) != Lower(d)
  {
    QuotedEntryFirstPass(repo, d);
    QuotedDigestSecondPass(d);
    assert |['"'] + Lower(d)| != |Lower(d)|;
  }

  lemma QuotedEntryFirstPass(repo: string, d: string)
    requires BareEnds(repo) && '@' !in repo && BareEnds(d) && '@' !in d
    ensures DigestOnly(Some(repo + ['@', '"'] + d + ['"'])) == Some(['"'] + Lower(d))
  {
    var w := repo + ['@', '"'] + d;
    assert '@' in w && AfterFirst(w, '@') == ['"'] + d by {
      assert repo + ['@'] + (['"'] + d) == w;
      SplitAtFirst(repo, '@', ['"'] + d);
    }
    assert Lower(['"'] + d) == ['"'] + Lower(d) by {
      LowerAppend(['"'], d);
      assert Lower(['"']) == ['"'];
    }
    QuotedEntryStrips(repo, d);
    var v := repo + ['@', '"'] + d + ['"'];
    DigestOnlyOfStripped(v, w);
  }

  lemma QuotedEntryStrips(repo: string, d: string)
    requires BareEnds(repo) && BareEnds(d)
    ensures var v := repo + ['@', '"'] + d + ['"'];
            Strip(Strip(Strip(v, PySpace), Just('"')), Just('\'')) == repo + ['@', '"'] + d
  {
    var w := repo + ['@', '"'] + d;
    Ends(repo + ['@', '"'], d);
    assert BareEnds(w);
    TrailingQuoteStrips(w);
  }

  /** Text with bare ends, followed by one double quote, strips back to itself. */
  lemma TrailingQuoteStrips(w: string)
    requires BareEnds(w)
    ensures Strip(Strip(Strip(w + ['"'], PySpace), Just('"')), Just('\'')) == w
  {
    var v := w + ['"'];
    assert v[0] == w[0] && v[|v| - 1] == '"';
    assert v[..|v| - 1] == w;
    StripClean(v, PySpace);
    TrimStartStops(v, Just('"'));
    TrimEndStep(v, Just('"'));
    TrimEndStops(w, Just('"'));
    StripClean(w, Just('\''));
  }

  /** The first and last characters of a concatenation. */
  lemma Ends(a: string, b: string)
    requires a != [] && b != []
    ensures (a + b)[0] == a[0] && (a + b)[|a + b| - 1] == b[|b| - 1]
  {
  }

  lemma QuotedDigestSecondPass(d: string)
    requires BareEnds(d) && '@' !in d
    ensures DigestOnly(Some(['"'] + Lower(d))) == Some(Lower(d))
  {
    LowerKeepsBareEnds(d);
    var e := Lower(d);
    var u := ['"'] + e;
    assert u[0] == '"' && u[|u| - 1] == e[|e| - 1];
    StripClean(u, PySpace);
    assert Strip(u, Just('"')) == e by {
      TrimStartStep(u, Just('"'));
      assert u[1..] == e;
      TrimStartStops(e, Just('"'));
      TrimEndStops(e, Just('"'));
    }
    StripClean(e, Just('\''));
    LowerIdempotent(d);
    DigestOnlyOfStripped(u, e);
  }

  lemma DigestOnlyOfStripped(v: string, w: string)
    requires v != "" && Strip(Strip(Strip(v, PySpace), Just('"')), Just('\'')) == w
    ensures DigestOnly(Some(v)) == Some(Lower(if '@' in w then AfterFirst(w, '@') else w))
  {
  }

  /** A clean digest (no surrounding blanks or quotes, no '@'), lower-cased, normalises to itself. */
  lemma RenormalisedDigest(d: string)
    requires BareEnds(d) && '@' !in d
    ensures DigestOnly(Some(Lower(d))) == Some(Lower(d))
  {
    LowerKeepsBareEnds(d);
    DigestOfBare(Lower(d));
    LowerIdempotent(d);
  }

  /** The digest of a `repo@digest` entry is among the local digests, lower-cased. */
  lemma PinnedDigestIsLocal(rds: seq<string>, k: nat, repo: string, d: string)
    requires k < |rds| && rds[k] == repo + "@" + d
    requires repo != [] && '@' !in repo && !IsPySpace(repo[0]) && repo[0] != '"' && repo[0] != '\''
    requires BareEnds(d) && '@' !in d
    ensures Normalises(rds, Lower(d)) && Lower(d) in LocalRepoDigests(rds)
  {
    assert DigestOnly(Some(rds[k])) == Some(Lower(d)) by {
      DigestOfPinnedReference(repo, d);
    }
    assert Normalised(rds)[k] == Some(Lower(d));
    assert Normalises(rds, Lower(d));
    LocalDigestsSpec(rds, Lower(d));
  }

  /**
   * An image pulled by digest (`RepoDigests` holding `repo@sha256:…`) is
   * up to date when the registry reports the same digest, in any letter case.
   */
  lemma PinnedDigestIsUpToDate(ref: string, rds: seq<string>, k: nat, repo: string, d: string, remote: string)
    requires k < |rds| && rds[k] == repo + "@" + d
    requires repo != [] && '@' !in repo && !IsPySpace(repo[0]) && repo[0] != '"' && repo[0] != '\''
    requires BareEnds(d) && '@' !in d && BareEnds(remote) && '@' !in remote && Lower(remote) == Lower(d)
    ensures Classify(Some(ref), LocalRepoDigests(rds), Some(remote)) == UpToDate
  {
    PinnedDigestIsLocal(rds, k, repo, d);
    SameNormalDigest(d, remote);
    UpToDateIff(ref, rds, remote);
  }

  /** Two clean digests equal up to letter case normalise alike, the local one once more. */
  lemma SameNormalDigest(d: string, remote: string)
    requires BareEnds(d) && '@' !in d && BareEnds(remote) && '@' !in remote && Lower(remote) == Lower(d)
    ensures remote != "" && DigestOnly(Some(Lower(d))) == DigestOnly(Some(remote))
  {
    RenormalisedDigest(d);
    DigestOfBare(remote);
  }

  /**
   * The check says `up_to_date` exactly when some entry of `RepoDigests`
   * normalises to a digest that, normalised once more, equals the
   * normalised remote digest.
   */
  lemma UpToDateIff(ref: string, rds: seq<string>, remote: string)
    requires remote != ""
    ensures Classify(Some(ref), LocalRepoDigests(rds), Some(remote)) == UpToDate
            <==> exists x :: Normalises(rds, x) && DigestOnly(Some(x)) == DigestOnly(Some(remote))
  {
    var local := LocalRepoDigests(rds);
    if SameDigest(local, remote) {
      var j :| 0 <= j < |local| && DigestOnly(Some(local[j])) == DigestOnly(Some(remote));
      LocalDigestsSpec(rds, local[j]);
    }
    if exists x :: Normalises(rds, x) && DigestOnly(Some(x)) == DigestOnly(Some(remote)) {
      var x :| Normalises(rds, x) && DigestOnly(Some(x)) == DigestOnly(Some(remote));
      LocalDigestsSpec(rds, x);
      var j :| 0 <= j < |local| && local[j] == x;
    }
  }

  // ---------------------------------------------------------------------
  // update_container: the reference to pull
  // ---------------------------------------------------------------------

  /**
   * The reference `update_container` pulls: `Config.Image`, with a pinned
   * `@sha256:` digest replaced by `:latest`; else the first image tag; else
   * the first digest's repository at `latest`; `None` is the 400 error
   * "cannot determine image reference for update".
   */
  function UpdateImageRef(configImage: Option<string>, tags: seq<string>, repoDigests: seq<string>): (r: Option<string>)
    ensures r.None? <==> (configImage.None? || configImage.value == "") && (tags == [] || tags[0] == "") && repoDigests == []
    ensures r.Some? ==> r.value != ""
    ensures configImage.Some? && HasSubstring(configImage.value, "@sha256:") ==> r == Some(LatestOf(configImage.value))
    ensures configImage.Some? && configImage.value != "" && !HasSubstring(configImage.value, "@sha256:") ==> r == configImage
    ensures (configImage.None? || configImage.value == "") && tags != [] && tags[0] != "" ==> r == Some(tags[0])
    ensures (configImage.None? || configImage.value == "") && (tags == [] || tags[0] == "") && repoDigests != [] ==>
              r == Some(LatestOf(repoDigests[0]))
  {
    var fromConfig :=
      if configImage.Some? && configImage.value != "" && HasSubstring(configImage.value, "@sha256:")
      then Some(LatestOf(configImage.value))
      else configImage;
    if fromConfig.Some? && fromConfig.value != "" then fromConfig
    else if tags != [] && tags[0] != "" then Some(tags[0])
    else if repoDigests != [] then Some(LatestOf(repoDigests[0]))
    else None
  }

  /** A reference pinned by digest is pulled at `latest`, so the update can move past the pinned digest. */
  lemma PinnedConfigPullsLatest(repo: string, digest: string, tags: seq<string>, rds: seq<string>)
    requires '@' !in repo
    ensures UpdateImageRef(Some(repo + "@sha256:" + digest), tags, rds) == Some(repo + ":latest")
  {
    var s := repo + "@sha256:" + digest;
    assert HasSubstring(s, "@sha256:") by {
      SubstringAt(repo, "@sha256:", digest);
    }
    assert s == repo + ['@'] + ("sha256:" + digest);
    SplitAtFirst(repo, '@', "sha256:" + digest);
  }

  lemma {:induction false} SubstringAt(p: string, sub: string, rest: string)
    ensures HasSubstring(p + sub + rest, sub)
    decreases |p|
  {
    var s := p + sub + rest;
    if p == [] {
      assert s[..|sub|] == sub;
    } else {
      SubstringAt(p[1..], sub, rest);
      assert s[1..] == p[1..] + sub + rest;
    }
  }

  // ---------------------------------------------------------------------
  // _is_special_network_mode
  // ---------------------------------------------------------------------

  /** `host`, `none` and `container:<id>`, in any letter case, are not reconnected to networks. */
  function IsSpecialNetworkMode(mode: Option<string>): (r: bool)
    ensures r ==> mode.Some? && mode.value != ""
  {
    if mode.None? || mode.value == "" then false
    else
      var m := Lower(mode.value);
      StartsWith(m, "container:") || m == "host" || m == "none"
  }

  /** `container:<id>`, `host` and `none` keep their networks; `bridge` is reconnected. */
  lemma SpecialModes(id: string)
    ensures IsSpecialNetworkMode(Some("container:" + id))
    ensures IsSpecialNetworkMode(Some("host")) && IsSpecialNetworkMode(Some("none"))
    ensures !IsSpecialNetworkMode(Some("bridge"))
    ensures !IsSpecialNetworkMode(None) && !IsSpecialNetworkMode(Some(""))
  {
    var m := "container:" + id;
    LowerAppend("container:", id);
    LowerOfLowered("container:");
    assert Lower(m)[..10] == "container:";
    LowerOfLowered("host");
    LowerOfLowered("none");
    LowerOfLowered("bridge");
  }

  /** The decision depends only on the lower-cased mode. */
  lemma SpecialModeIgnoresCase(mode: string)
    ensures IsSpecialNetworkMode(Some(mode)) == IsSpecialNetworkMode(Some(Lower(mode)))
  {
    LowerIdempotent(mode);
  }

  // ---------------------------------------------------------------------
  // _compute_stats: summed counters
  // ---------------------------------------------------------------------

  /** One network's counters; a missing, null or zero field counts as 0. */
  datatype NetCounters = NetCounters(rxBytes: Option<int>, txBytes: Option<int>)

  function Count(v: Option<int>): int {
    v.GetOr(0)
  }

  function SumRx(ns: seq<NetCounters>): int {
    if ns == [] then 0 else SumRx(ns[..|ns| - 1]) + Count(ns[|ns| - 1].rxBytes)
  }

  function SumTx(ns: seq<NetCounters>): int {
    if ns == [] then 0 else SumTx(ns[..|ns| - 1]) + Count(ns[|ns| - 1].txBytes)
  }

  /** The `rx`/`tx` loop over `stats["networks"].values()`. */
  method NetTotals(ns: seq<NetCounters>) returns (rx: int, tx: int)
    ensures rx == SumRx(ns) && tx == SumTx(ns)
  {
    rx, tx := 0, 0;
    var i := 0;
    while i < |ns|
      invariant 0 <= i <= |ns|
      invariant rx == SumRx(ns[..i]) && tx == SumTx(ns[..i])
    {
      assert ns[..i + 1][..i] == ns[..i];
      rx := rx + Count(ns[i].rxBytes);
      tx := tx + Count(ns[i].txBytes);
      i := i + 1;
    }
    assert ns[..|ns|] == ns;
  }

  /** The totals of two groups of networks add up. */
  lemma {:induction false} SumRxAppend(a: seq<NetCounters>, b: seq<NetCounters>)
    ensures SumRx(a + b) == SumRx(a) + SumRx(b)
    decreases |b|
  {
    if b != [] {
      assert (a + b)[..|a + b| - 1] == a + b[..|b| - 1];
      SumRxAppend(a, b[..|b| - 1]);
    } else {
      assert a + b == a;
    }
  }

  /** One `io_service_bytes_recursive` item: its `op` and `value`. */
  datatype BlkioItem = BlkioItem(op: Option<string>, value: Option<int>)

  function OpOf(item: BlkioItem): string {
    Lower(item.op.GetOr(""))
  }

  /** The sum of the values whose lower-cased op is `op`. */
  function SumOp(items: seq<BlkioItem>, op: string): int {
    if items == [] then 0
    else SumOp(items[..|items| - 1], op) + (if OpOf(items[|items| - 1]) == op then Count(items[|items| - 1].value) else 0)
  }

  function SumAll(items: seq<BlkioItem>): int {
    if items == [] then 0 else SumAll(items[..|items| - 1]) + Count(items[|items| - 1].value)
  }

  /** The `reads`/`writes` loop. */
  method BlkioTotals(items: seq<BlkioItem>) returns (readBytes: int, writeBytes: int)
    ensures readBytes == SumOp(items, "read") && writeBytes == SumOp(items, "write")
  {
    readBytes, writeBytes := 0, 0;
    var i := 0;
    while i < |items|
      invariant 0 <= i <= |items|
      invariant readBytes == SumOp(items[..i], "read") && writeBytes == SumOp(items[..i], "write")
    {
      assert items[..i + 1][..i] == items[..i];
      var op := Lower(items[i].op.GetOr(""));
      var val := Count(items[i].value);
      if op == "read" {
        readBytes := readBytes + val;
      } else if op == "write" {
        writeBytes := writeBytes + val;
      }
      i := i + 1;
    }
    assert items[..|items|] == items;
  }

  /** Reads and writes never double-count: together they are at most all values, when none is negative. */
  lemma {:induction false} ReadsAndWritesPartition(items: seq<BlkioItem>)
    requires forall i :: 0 <= i < |items| ==> Count(items[i].value) >= 0
    ensures SumOp(items, "read") + SumOp(items, "write") <= SumAll(items)
    ensures SumOp(items, "read") >= 0 && SumOp(items, "write") >= 0
  {
    if items != [] {
      ReadsAndWritesPartition(items[..|items| - 1]);
    }
  }
}
