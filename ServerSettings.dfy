/**
 * The server's settings and access checks (script.py): `_truthy`, the API-key
 * check `_check_auth`, the client-address check `_is_ip_allowed`, and the
 * settings held in `AUTH_ENABLED`, `CURRENT_API_KEY` and `ALLOWED_CIDRS` as
 * `GET /settings` shows them and `POST /settings` changes them.
 */
module ServerSettings {
  import opened Wrappers
  import opened Text

  // ---------------------------------------------------------------------
  // _truthy
  // ---------------------------------------------------------------------

  /** `_truthy(v)` for a text value: its lower-case form is one of 1, true, yes, on. */
  predicate IsTruthyText(s: string) {
    Lower(s) in ["1", "true", "yes", "on"]
  }

  /** `TRUE`, `Yes` and `1` switch a flag on; `0`, `off` and the empty text do not. */
  lemma TruthyExamples()
    ensures IsTruthyText("TRUE") && IsTruthyText("Yes") && IsTruthyText("1")
    ensures !IsTruthyText("0") && !IsTruthyText("off") && !IsTruthyText("")
  {
    assert Lower("TRUE") == "true" by {
      assert forall i :: 0 <= i < 4 ==> Lower("TRUE")[i] == "true"[i];
    }
    assert Lower("Yes") == "yes" by {
      assert forall i :: 0 <= i < 3 ==> Lower("Yes")[i] == "yes"[i];
    }
    LowerOfLowered("1");
    LowerOfLowered("0");
    LowerOfLowered("off");
  }

  /** Letter case never matters: `TRUE`, `Yes` and `On` switch a flag on. */
  lemma TruthyIgnoresCase(s: string)
    ensures IsTruthyText(Lower(s)) == IsTruthyText(s)
  {
    LowerIdempotent(s);
  }

  // ---------------------------------------------------------------------
  // The settings and the auth check
  // ---------------------------------------------------------------------

  /** `AUTH_ENABLED`, `CURRENT_API_KEY` and `ALLOWED_CIDRS`. */
  datatype SettingsState = SettingsState(authEnabled: bool, apiKey: string, allowedCidrs: seq<string>)

  /** `_check_auth()`, where `provided` is the request's first `key` argument, if any. */
  function CheckAuth(s: SettingsState, provided: Option<string>): (ok: bool)
    ensures !s.authEnabled ==> ok
    ensures s.authEnabled ==> (ok <==> s.apiKey != "" && provided == Some(s.apiKey))
  {
    !s.authEnabled || (s.apiKey != "" && provided.GetOr("") == s.apiKey)
  }

  /** With auth on and no key set, every request is refused, even one that sends an empty key. */
  lemma EmptyKeyLocksOut(s: SettingsState, provided: Option<string>)
    requires s.authEnabled && s.apiKey == ""
    ensures !CheckAuth(s, provided)
  {
  }

  /** The mask `GET /settings` shows instead of the key while auth is on. */
  const Mask: string := "********"

  /** The body of `GET /settings`. */
  datatype SettingsView = SettingsView(authEnabled: bool, apiKey: string, allowedCidrs: seq<string>)

  function GetSettings(s: SettingsState): (v: SettingsView)
    ensures v.authEnabled == s.authEnabled && v.allowedCidrs == s.allowedCidrs
    ensures v.apiKey == s.apiKey <==> !s.authEnabled || s.apiKey == Mask
    ensures s.authEnabled ==> v.apiKey == Mask
  {
    SettingsView(s.authEnabled, if !s.authEnabled then s.apiKey else Mask, s.allowedCidrs)
  }

  // ---------------------------------------------------------------------
  // _is_ip_allowed
  // ---------------------------------------------------------------------

  /**
   * `_is_ip_allowed(addr)`: `addrValid` says whether `ip_address(addr)`
   * parses; `contains(n)` is `None` when `ip_network(n, strict=False)`
   * raises, else whether the address is in that network.
   */
  method IsIpAllowed(addrValid: bool, cidrs: seq<string>, contains: string -> Option<bool>) returns (allowed: bool)
    ensures allowed <==> addrValid && exists i :: 0 <= i < |cidrs| && contains(cidrs[i]) == Some(true)
  {
    if !addrValid {
      return false;
    }
    var i := 0;
    while i < |cidrs|
      invariant 0 <= i <= |cidrs|
      invariant forall j :: 0 <= j < i ==> contains(cidrs[j]) != Some(true)
    {
      var inNet := contains(cidrs[i]);
      if inNet == Some(true) {
        return true;
      }
      i := i + 1;
    }
    return false;
  }

  // ---------------------------------------------------------------------
  // POST /settings
  // ---------------------------------------------------------------------

  /**
   * A JSON value as Python sees it after `request.get_json()`. Numbers and
   * objects are `JOther` with their truth value and `str()` text; a list
   * carries its `str()` text too.
   */
  datatype Json =
    | JNull
    | JBool(b: bool)
    | JStr(s: string)
    | JList(items: seq<Json>, text: string)
    | JOther(truthy: bool, text: string)

  /** Python truthiness. */
  predicate PyTruthy(j: Json) {
    match j
    case JNull => false
    case JBool(b) => b
    case JStr(s) => s != ""
    case JList(items, _) => items != []
    case JOther(t, _) => t
  }

  /** Python `str(v)`. */
  function PyStr(j: Json): string {
    match j
    case JNull => "None"
    case JBool(b) => if b then "True" else "False"
    case JStr(s) => s
    case JList(_, text) => text
    case JOther(_, text) => text
  }

  /** `str()` of a list or a number is never empty. */
  predicate WellFormed(j: Json) {
    (j.JList? ==> j.text != "") && (j.JOther? ==> j.text != "")
  }

  /** The request body; a missing or unparsable body is the empty object. */
  type Payload = map<string, Json>

  function Field(data: Payload, k: string): Option<Json> {
    if k in data then Some(data[k]) else None
  }

  /** `bool(data.get(k))` */
  predicate FlagSet(data: Payload, k: string) {
    k in data && PyTruthy(data[k])
  }

  /** The key after a POST: a fresh one on request or when auth is on without a usable key, else the posted one, else unchanged. */
  function NewKey(current: string, authEnabled: bool, data: Payload, freshKey: string): (r: string)
    ensures FlagSet(data, "generate_api_key") ==> r == freshKey
    ensures authEnabled && !FlagSet(data, "api_key") ==> r == freshKey
    ensures !FlagSet(data, "generate_api_key") && !(authEnabled && !FlagSet(data, "api_key")) ==>
              r == if "api_key" in data && data["api_key"] != JNull then PyStr(data["api_key"]) else current
    ensures authEnabled && freshKey != "" && ("api_key" in data ==> WellFormed(data["api_key"])) ==> r != ""
  {
    if FlagSet(data, "generate_api_key") || (authEnabled && !FlagSet(data, "api_key")) then freshKey
    else if "api_key" in data && data["api_key"] != JNull then PyStr(data["api_key"])
    else current
  }

  /** `[x.strip() for x in xs if x.strip()]` */
  function NonBlank(xs: seq<string>): seq<string> {
    if xs == [] then []
    else
      var t := Strip(xs[0], PySpace);
      var rest := NonBlank(xs[1..]);
      if t != "" then [t] + rest else rest
  }

  /** A CIDR as the server stores it: non-empty, and neither starting nor ending with white space. */
  predicate Trimmed(c: string) {
    c != "" && !In(PySpace, c[0]) && !In(PySpace, c[|c| - 1])
  }

  /** Every entry the comprehension keeps is non-empty and trimmed. */
  lemma {:induction false} NonBlankTrimmed(xs: seq<string>)
    ensures forall i :: 0 <= i < |NonBlank(xs)| ==> Trimmed(NonBlank(xs)[i])
  {
    if xs != [] {
      var t := Strip(xs[0], PySpace);
      var rest := NonBlank(xs[1..]);
      NonBlankTrimmed(xs[1..]);
      var r := NonBlank(xs);
      if t != "" {
        assert Trimmed(t);
        assert r == [t] + rest;
        forall i | 0 <= i < |r|
          ensures Trimmed(r[i])
        {
          if i > 0 {
            assert r[i] == rest[i - 1];
          }
        }
      } else {
        assert r == rest;
      }
    }
  }

  /** `[str(c) for c in items]` */
  function PyStrs(items: seq<Json>): (r: seq<string>)
    ensures |r| == |items|
    ensures forall i :: 0 <= i < |items| ==> r[i] == PyStr(items[i])
  {
    if items == [] then [] else [PyStr(items[0])] + PyStrs(items[1..])
  }

  /** `s.replace(',', '\n')` */
  function CommasToNewlines(s: string): (r: string)
    ensures |r| == |s|
    ensures forall i :: 0 <= i < |s| ==> r[i] == (if s[i] == ',' then '\n' else s[i])
  {
    seq(|s|, i requires 0 <= i < |s| => if s[i] == ',' then '\n' else s[i])
  }

  /** The CIDR list a POST carries: from a list, from a comma- or newline-separated text, or none. */
  function ParsedCidrs(field: Option<Json>): Option<seq<string>> {
    match field
    case Some(JList(items, _)) => Some(NonBlank(PyStrs(items)))
    case Some(JStr(s)) => Some(NonBlank(Split(CommasToNewlines(s), '\n')))
    case _ => None
  }

  const OpenToAll: string := "0.0.0.0/0"

  function NewCidrs(current: seq<string>, field: Option<Json>): (r: seq<string>)
    ensures ParsedCidrs(field).None? ==> r == current
    ensures ParsedCidrs(field).Some? ==> r != []
    ensures ParsedCidrs(field) == Some([]) ==> r == [OpenToAll]
    ensures ParsedCidrs(field).Some? && ParsedCidrs(field).value != [] ==> r == ParsedCidrs(field).value
  {
    match ParsedCidrs(field)
    case None => current
    case Some(parsed) => if parsed == [] then [OpenToAll] else parsed
  }

  /** `post_settings()` */
  function Post(s: SettingsState, data: Payload, freshKey: string): SettingsState {
    var authEnabled := FlagSet(data, "auth_enabled");
    SettingsState(authEnabled, NewKey(s.apiKey, authEnabled, data, freshKey), NewCidrs(s.allowedCidrs, Field(data, "allowed_cidrs")))
  }

  /**
   * The settings every POST leaves: a key whenever auth is on, and a
   * non-empty list of trimmed CIDRs. The start-up reading of the environment
   * can leave settings outside this predicate (auth on with no key, or an
   * `ALLOWED_IPS` of blanks only giving an empty list).
   */
  predicate Valid(s: SettingsState) {
    (s.authEnabled ==> s.apiKey != "")
    && s.allowedCidrs != []
    && forall i :: 0 <= i < |s.allowedCidrs| ==> Trimmed(s.allowedCidrs[i])
  }

  /** A POST keeps the settings valid, given a non-empty fresh key (`token_urlsafe(24)` has 32 characters). */
  lemma PostPreservesValid(s: SettingsState, data: Payload, freshKey: string)
    requires Valid(s) && freshKey != ""
    requires forall k :: k in data ==> WellFormed(data[k])
    ensures Valid(Post(s, data, freshKey))
  {
    PostKeyWhileAuthOn(s, data, freshKey);
    ParsedCidrsTrimmed(Field(data, "allowed_cidrs"));
  }

  /** Whatever the settings were before, a POST that turns auth on leaves a non-empty key. */
  lemma PostKeyWhileAuthOn(s: SettingsState, data: Payload, freshKey: string)
    requires freshKey != ""
    requires forall k :: k in data ==> WellFormed(data[k])
    ensures Post(s, data, freshKey).authEnabled ==> Post(s, data, freshKey).apiKey != ""
  {
    if "api_key" in data {
      assert WellFormed(data["api_key"]);
    }
  }

  lemma ParsedCidrsTrimmed(field: Option<Json>)
    ensures ParsedCidrs(field).Some? ==> forall i :: 0 <= i < |ParsedCidrs(field).value| ==> Trimmed(ParsedCidrs(field).value[i])
  {
    match field
    case Some(JList(items, _)) => NonBlankTrimmed(PyStrs(items));
    case Some(JStr(s)) => NonBlankTrimmed(Split(CommasToNewlines(s), '\n'));
    case _ =>
  }

  /** Auth is set from `auth_enabled` alone, and `generate_api_key` always yields the fresh key. */
  lemma PostSetsAuthAndGenerates(s: SettingsState, data: Payload, freshKey: string)
    ensures Post(s, data, freshKey).authEnabled == FlagSet(data, "auth_enabled")
    ensures FlagSet(data, "generate_api_key") ==> Post(s, data, freshKey).apiKey == freshKey
    ensures FlagSet(data, "auth_enabled") && !FlagSet(data, "api_key") ==> Post(s, data, freshKey).apiKey == freshKey
  {
  }

  /** A POST that names no key (absent or null), without auth and generation, keeps the key. */
  lemma KeyKeptWithoutKeyField(s: SettingsState, data: Payload, freshKey: string)
    requires !FlagSet(data, "auth_enabled") && !FlagSet(data, "generate_api_key")
    requires "api_key" !in data || data["api_key"] == JNull
    ensures Post(s, data, freshKey).apiKey == s.apiKey
  {
  }

  /** A POST without a CIDR list or text keeps the CIDRs. */
  lemma CidrsKeptWithoutList(s: SettingsState, data: Payload, freshKey: string)
    requires "allowed_cidrs" !in data || !(data["allowed_cidrs"].JList? || data["allowed_cidrs"].JStr?)
    ensures Post(s, data, freshKey).allowedCidrs == s.allowedCidrs
  {
  }

  /**
   * Saving the view `GET /settings` gave, unchanged, while auth is on: the
   * posted key is the mask, and the mask becomes the key.
   */
  lemma EchoedViewStoresMask(s: SettingsState, freshKey: string)
    requires s.authEnabled
    ensures var v := GetSettings(s);
            var data := map["auth_enabled" := JBool(true), "api_key" := JStr(v.apiKey)];
            Post(s, data, freshKey).apiKey == Mask
  {
  }

  lemma NonBlankCons(x: string, xs: seq<string>)
    requires x != "" && Strip(x, PySpace) == x
    ensures NonBlank([x] + xs) == [x] + NonBlank(xs)
  {
    assert ([x] + xs)[0] == x && ([x] + xs)[1..] == xs;
  }

  lemma {:induction false} NonBlankClean(xs: seq<string>)
    requires forall i :: 0 <= i < |xs| ==> PlainCidr(xs[i])
    ensures NonBlank(xs) == xs
  {
    if xs != [] {
      var x := xs[0];
      assert PlainCidr(x);
      assert Strip(x, PySpace) == x by {
        StripClean(x, PySpace);
      }
      NonBlankClean(xs[1..]);
      NonBlankCons(x, xs[1..]);
      HeadTail(xs);
    }
  }

  lemma HeadTail<T>(xs: seq<T>)
    requires xs != []
    ensures [xs[0]] + xs[1..] == xs
  {
  }

  lemma {:induction false} CommasToNewlinesJoin(cs: seq<string>)
    requires forall i :: 0 <= i < |cs| ==> ',' !in cs[i]
    ensures CommasToNewlines(Join(cs, ',')) == Join(cs, '\n')
    decreases |cs|
  {
    if |cs| == 1 {
      CommasToNewlinesFixed(cs[0]);
    } else if |cs| > 1 {
      var h := cs[0];
      var tail := Join(cs[1..], ',');
      assert Join(cs, ',') == h + [','] + tail;
      assert Join(cs, '\n') == h + ['\n'] + Join(cs[1..], '\n');
      calc {
        CommasToNewlines(h + [','] + tail);
        == { CommasToNewlinesAppend(h + [','], tail); }
        CommasToNewlines(h + [',']) + CommasToNewlines(tail);
        == { CommasToNewlinesAppend(h, [',']); CommasToNewlinesFixed(h); assert CommasToNewlines([','])[0] == '\n'; }
        h + ['\n'] + CommasToNewlines(tail);
        == { CommasToNewlinesJoin(cs[1..]); }
        h + ['\n'] + Join(cs[1..], '\n');
      }
    }
  }

  lemma CommasToNewlinesAppend(a: string, b: string)
    ensures CommasToNewlines(a + b) == CommasToNewlines(a) + CommasToNewlines(b)
  {
  }

  lemma CommasToNewlinesFixed(a: string)
    requires ',' !in a
    ensures CommasToNewlines(a) == a
  {
  }

  /** A CIDR that can be posted back: non-empty, trimmed, and free of separators. */
  predicate PlainCidr(c: string) {
    Trimmed(c) && ',' !in c && '\n' !in c
  }

  /** Posting clean CIDRs as comma-separated text stores exactly those CIDRs. */
  lemma CidrTextRoundTrip(cs: seq<string>)
    requires cs != [] && forall i :: 0 <= i < |cs| ==> PlainCidr(cs[i])
    ensures ParsedCidrs(Some(JStr(Join(cs, ',')))) == Some(cs)
  {
    CommasToNewlinesJoin(cs);
    SplitJoin(cs, '\n');
    NonBlankClean(cs);
  }

  /** Posting clean CIDRs as a list of strings stores exactly those CIDRs. */
  lemma CidrListRoundTrip(cs: seq<string>, text: string)
    requires forall i :: 0 <= i < |cs| ==> PlainCidr(cs[i])
    ensures ParsedCidrs(Some(JList(JStrs(cs), text))) == Some(cs)
  {
    assert PyStrs(JStrs(cs)) == cs;
    NonBlankClean(cs);
  }

  /** A list of JSON strings. */
  function JStrs(cs: seq<string>): (r: seq<Json>)
    ensures |r| == |cs|
    ensures forall i :: 0 <= i < |cs| ==> r[i] == JStr(cs[i])
  {
    if cs == [] then [] else [JStr(cs[0])] + JStrs(cs[1..])
  }

  /** The settings as the server's globals. */
  class Settings {
    var authEnabled: bool
    var apiKey: string
    var allowedCidrs: seq<string>

    function State(): SettingsState
      reads this
    {
      SettingsState(authEnabled, apiKey, allowedCidrs)
    }

    /** The defaults before environment and disk are read: auth off, no key, open to all. */
    constructor()
      ensures State() == SettingsState(false, "", [OpenToAll])
      ensures Valid(State())
    {
      authEnabled := false;
      apiKey := "";
      allowedCidrs := [OpenToAll];
      new;
      }

    /** `POST /settings`: reassigns the three globals and answers with them, the key in clear. */
    method PostSettings(data: Payload, freshKey: string) returns (reply: SettingsView)
      modifies this
      ensures State() == Post(old(State()), data, freshKey)
      ensures reply == SettingsView(authEnabled, apiKey, allowedCidrs)
    {
      authEnabled := "auth_enabled" in data && PyTruthy(data["auth_enabled"]);
      var genFlag := "generate_api_key" in data && PyTruthy(data["generate_api_key"]);
      var postedKey := Field(data, "api_key");
      if genFlag || (authEnabled && !(postedKey.Some? && PyTruthy(postedKey.value))) {
        apiKey := freshKey;
      } else if postedKey.Some? && postedKey.value != JNull {
        apiKey := PyStr(postedKey.value);
      }
      var parsed := ParsedCidrs(Field(data, "allowed_cidrs"));
      if parsed.Some? {
        allowedCidrs := if parsed.value == [] then [OpenToAll] else parsed.value;
      }
      reply := SettingsView(authEnabled, apiKey, allowedCidrs);
    }
  }
}
