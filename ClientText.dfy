/**
 * The dashboard's request and message text (static/app.js): the API key added
 * to every request (`keyParams`), the URL with its query string (`buildUrl`),
 * the translated message with `{name}` placeholders filled in (`t`), and how
 * the reply to an update request is read (`updateContainer`).
 */
module ClientText {
  import opened Wrappers
  import opened Text
  import opened UrlEncoding

  // ---------------------------------------------------------------------
  // keyParams and buildUrl
  // ---------------------------------------------------------------------

  /** The client's copy of the server settings (`authState`). */
  datatype AuthState = AuthState(authEnabled: bool, apiKey: string)

  /** A plain object of query parameters, in insertion order. */
  type Params = seq<(string, string)>

  predicate UniqueKeys(ps: Params) {
    forall i, j :: 0 <= i < j < |ps| ==> ps[i].0 != ps[j].0
  }

  /** `i` is the first position whose name is `k`. */
  predicate FirstKeyAt(ps: Params, k: string, i: int) {
    0 <= i < |ps| && ps[i].0 == k && forall j :: 0 <= j < i ==> ps[j].0 != k
  }

  /** `p[k]`, and `request.args.get(k)`: the value of the first pair named `k`, if any. */
  function Lookup(ps: Params, k: string): (r: Option<string>)
    ensures r.None? <==> forall i :: 0 <= i < |ps| ==> ps[i].0 != k
    ensures forall i :: FirstKeyAt(ps, k, i) ==> r == Some(ps[i].1)
    decreases |ps|
  {
    if ps == [] then None
    else if ps[0].0 == k then Some(ps[0].1)
    else
      var r := Lookup(ps[1..], k);
      assert forall i :: FirstKeyAt(ps, k, i) ==> FirstKeyAt(ps[1..], k, i - 1);
      r
  }

  /** `p[k] = v`: an existing key keeps its place and takes the new value; a new key goes last. */
  function SetParam(ps: Params, k: string, v: string): (r: Params)
    decreases |ps|
  {
    if ps == [] then [(k, v)]
    else if ps[0].0 == k then [(k, v)] + ps[1..]
    else [ps[0]] + SetParam(ps[1..], k, v)
  }

  /** After `p[k] = v`, `p[k]` is `v` and every other key reads as before. */
  lemma {:induction false} SetParamLookup(ps: Params, k: string, v: string, other: string)
    ensures Lookup(SetParam(ps, k, v), k) == Some(v)
    ensures other != k ==> Lookup(SetParam(ps, k, v), other) == Lookup(ps, other)
    decreases |ps|
  {
    if ps != [] && ps[0].0 != k {
      SetParamLookup(ps[1..], k, v, other);
      var rest := SetParam(ps[1..], k, v);
      assert ([ps[0]] + rest)[1..] == rest;
    } else if ps != [] {
      assert ([(k, v)] + ps[1..])[1..] == ps[1..];
    }
  }

  /** The keys after `p[k] = v` are the keys before, plus `k`. */
  lemma {:induction false} SetParamKeys(ps: Params, k: string, v: string, x: string)
    ensures Lookup(SetParam(ps, k, v), x).Some? <==> x == k || Lookup(ps, x).Some?
    decreases |ps|
  {
    if ps != [] && ps[0].0 != k {
      SetParamKeys(ps[1..], k, v, x);
      assert ([ps[0]] + SetParam(ps[1..], k, v))[1..] == SetParam(ps[1..], k, v);
    } else if ps != [] {
      assert ([(k, v)] + ps[1..])[1..] == ps[1..];
    }
  }

  /** Setting a parameter keeps the keys of an object unique. */
  lemma {:induction false} SetParamUnique(ps: Params, k: string, v: string)
    requires UniqueKeys(ps)
    ensures UniqueKeys(SetParam(ps, k, v))
    decreases |ps|
  {
    if ps != [] && ps[0].0 != k {
      SetParamUnique(ps[1..], k, v);
      var rest := SetParam(ps[1..], k, v);
      assert SetParam(ps, k, v) == [ps[0]] + rest;
      forall i | 0 <= i < |rest|
        ensures rest[i].0 != ps[0].0
      {
        FirstKeyAbsent(ps);
        SetParamKeys(ps[1..], k, v, ps[0].0);
        LookupFinds(rest, i);
      }
    } else if ps != [] {
      assert SetParam(ps, k, v) == [(k, v)] + ps[1..];
    }
  }

  lemma FirstKeyAbsent(ps: Params)
    requires ps != [] && UniqueKeys(ps)
    ensures Lookup(ps[1..], ps[0].0).None?
  {
  }

  lemma LookupFinds(ps: Params, i: nat)
    requires i < |ps|
    ensures Lookup(ps, ps[i].0).Some?
  {
  }

  /** `keyParams(extra)`: the key is added when auth is on and a key is known. */
  function KeyParams(auth: AuthState, extra: Params): Params {
    if auth.authEnabled && auth.apiKey != "" then SetParam(extra, "key", auth.apiKey) else extra
  }

  /** Requests carry the key exactly when auth is on and a key is known; other parameters are untouched. */
  lemma KeyParamsCarriesKey(auth: AuthState, extra: Params, other: string)
    requires other != "key"
    ensures auth.authEnabled && auth.apiKey != "" ==> Lookup(KeyParams(auth, extra), "key") == Some(auth.apiKey)
    ensures !(auth.authEnabled && auth.apiKey != "") ==> KeyParams(auth, extra) == extra
    ensures Lookup(KeyParams(auth, extra), other) == Lookup(extra, other)
    ensures UniqueKeys(extra) ==> UniqueKeys(KeyParams(auth, extra))
  {
    SetParamLookup(extra, "key", auth.apiKey, other);
    if UniqueKeys(extra) {
      SetParamUnique(extra, "key", auth.apiKey);
    }
  }

  /** One `name=value` pair of `URLSearchParams.toString()`. */
  function EncodePair(p: (string, string)): string {
    Encode(Form, p.0) + "=" + Encode(Form, p.1)
  }

  /** `new URLSearchParams(params).toString()`. */
  function Query(ps: Params): (q: string)
    ensures q == "" <==> ps == []
  {
    var parts := seq(|ps|, i requires 0 <= i < |ps| => EncodePair(ps[i]));
    if ps == [] then "" else
      assert parts[0] == EncodePair(ps[0]);
      JoinNonEmpty(parts);
      Join(parts, '&')
  }

  lemma JoinNonEmpty(parts: seq<string>)
    requires |parts| >= 1 && forall i :: 0 <= i < |parts| ==> '=' in parts[i]
    ensures Join(parts, '&') != ""
  {
    if |parts| > 1 {
      assert Join(parts, '&') == parts[0] + ['&'] + Join(parts[1..], '&');
    }
  }

  /** `buildUrl(path, params)`: the query string is appended after '?', unless it is empty. */
  function BuildUrl(path: string, ps: Params): (url: string)
    ensures ps == [] ==> url == path
    ensures ps != [] ==> url == path + "?" + Query(ps)
  {
    var q := Query(ps);
    path + (if q != "" then "?" + q else "")
  }

  /**
   * The server's reading of one pair (`parse_qsl` with blank values kept):
   * up to the first '=' is the name, the rest the value; a part without '='
   * is a name with an empty value.
   */
  function DecodePair(part: string): (r: (string, string))
    ensures '=' !in part ==> r == (FormDecode(part), "")
    ensures '=' in part ==> r == (FormDecode(BeforeFirst(part, '=')), FormDecode(AfterFirst(part, '=')))
  {
    if '=' in part then (FormDecode(BeforeFirst(part, '=')), FormDecode(AfterFirst(part, '='))) else (FormDecode(part), "")
  }

  /** The pairs read from the parts of a query string, empty parts skipped. */
  function DecodeParts(parts: seq<string>): (ps: Params)
    ensures |ps| <= |parts|
    ensures (forall i :: 0 <= i < |parts| ==> parts[i] != "") ==> |ps| == |parts| && forall i :: 0 <= i < |parts| ==> ps[i] == DecodePair(parts[i])
    decreases |parts|
  {
    if parts == [] then []
    else
      var rest := DecodeParts(parts[1..]);
      if parts[0] == "" then rest
      else
        var ps := [DecodePair(parts[0])] + rest;
        assert forall i :: 1 <= i < |parts| ==> parts[1..][i - 1] == parts[i];
        ps
  }

  /** The server's reading of a query string: the '&'-separated parts, in order. */
  function ParseQuery(q: string): Params {
    DecodeParts(Split(q, '&'))
  }

  predicate AsciiParams(ps: Params) {
    forall i :: 0 <= i < |ps| ==> IsAscii(ps[i].0) && IsAscii(ps[i].1)
  }

  lemma DecodeEncodedPair(p: (string, string))
    requires IsAscii(p.0) && IsAscii(p.1)
    ensures DecodePair(EncodePair(p)) == p
  {
    var k := Encode(Form, p.0);
    var v := Encode(Form, p.1);
    EncodedHasNo(Form, p.0, '=');
    IndexOfPrefix(k, v, '=');
    var e := EncodePair(p);
    assert e == k + ['='] + v;
    assert e[..|k|] == k;
    assert e[|k| + 1..] == v;
    FormRoundTrip(p.0);
    FormRoundTrip(p.1);
  }

  /**
   * The query string a request carries reads back as the parameters it was
   * built from (for ASCII names and values): encoding never lets a name or a
   * value break the `&`/`=` structure.
   */
  lemma QueryRoundTrip(ps: Params)
    requires ps != [] && AsciiParams(ps)
    ensures ParseQuery(Query(ps)) == ps
  {
    var parts := seq(|ps|, i requires 0 <= i < |ps| => EncodePair(ps[i]));
    forall i | 0 <= i < |ps|
      ensures '&' !in parts[i]
    {
      EncodedHasNo(Form, ps[i].0, '&');
      EncodedHasNo(Form, ps[i].1, '&');
    }
    SplitJoin(parts, '&');
    assert Query(ps) == Join(parts, '&');
    forall i | 0 <= i < |ps|
      ensures DecodePair(parts[i]) == ps[i]
    {
      DecodeEncodedPair(ps[i]);
    }
  }

  // ---------------------------------------------------------------------
  // t(key, vars)
  // ---------------------------------------------------------------------

  /** The translation of `key`: the current language, then French, then the key itself; an empty entry counts as missing. */
  function Lookup18n(current: map<string, string>, french: map<string, string>, key: string): string {
    if key in current && current[key] != "" then current[key]
    else if key in french && french[key] != "" then french[key]
    else key
  }

  /** A regular-expression word character, `\w`. */
  predicate IsWordChar(c: char) {
    ('a' <= c <= 'z') || ('A' <= c <= 'Z') || ('0' <= c <= '9') || c == '_'
  }

  /** The length of the run of word characters that `s` starts with. */
  function WordLen(s: string): (n: nat)
    ensures n <= |s|
    ensures forall i :: 0 <= i < n ==> IsWordChar(s[i])
    ensures n < |s| ==> !IsWordChar(s[n])
    decreases |s|
  {
    if s != [] && IsWordChar(s[0]) then 1 + WordLen(s[1..]) else 0
  }

  /** `vars[k] ?? ''` */
  function VarValue(vars: map<string, string>, k: string): string {
    if k in vars then vars[k] else ""
  }

  /** Whether `s` starts with a placeholder `{name}`; its name is then `s[1..1 + WordLen(s[1..])]`. */
  predicate PlaceholderAt(s: string) {
    |s| >= 3 && s[0] == '{' && 0 < WordLen(s[1..]) && 1 + WordLen(s[1..]) < |s| && s[1 + WordLen(s[1..])] == '}'
  }

  /** `s.replace(/\{(\w+)\}/g, (_, k) => vars[k] ?? '')`: scanning left to right, every placeholder is replaced. */
  function Substitute(s: string, vars: map<string, string>): string
    decreases |s|
  {
    if s == [] then ""
    else if PlaceholderAt(s) then
      var n := WordLen(s[1..]);
      VarValue(vars, s[1..1 + n]) + Substitute(s[2 + n..], vars)
    else [s[0]] + Substitute(s[1..], vars)
  }

  /** `t(key, vars)` */
  function Translate(current: map<string, string>, french: map<string, string>, key: string, vars: Option<map<string, string>>): string {
    var s := Lookup18n(current, french, key);
    if vars.None? then s else Substitute(s, vars.value)
  }

  /** A message template: literal text and named placeholders. */
  datatype Piece = Lit(text: string) | Hole(name: string)

  predicate WellFormed(p: Piece) {
    match p
    case Lit(text) => '{' !in text
    case Hole(name) => name != [] && forall i :: 0 <= i < |name| ==> IsWordChar(name[i])
  }

  /** How the template is written in a translation table. */
  function Written(ps: seq<Piece>): string
    decreases |ps|
  {
    if ps == [] then ""
    else (match ps[0] case Lit(t) => t case Hole(k) => "{" + k + "}") + Written(ps[1..])
  }

  /** What the template says once the variables are known. */
  function Filled(ps: seq<Piece>, vars: map<string, string>): string
    decreases |ps|
  {
    if ps == [] then ""
    else (match ps[0] case Lit(t) => t case Hole(k) => VarValue(vars, k)) + Filled(ps[1..], vars)
  }

  lemma {:induction false} SubstituteLiteral(text: string, rest: string, vars: map<string, string>)
    requires '{' !in text
    ensures Substitute(text + rest, vars) == text + Substitute(rest, vars)
    decreases |text|
  {
    if text != [] {
      var s := text + rest;
      assert s[0] == text[0] && !PlaceholderAt(s);
      assert s[1..] == text[1..] + rest;
      SubstituteLiteral(text[1..], rest, vars);
      assert text == [text[0]] + text[1..];
    } else {
      assert text + rest == rest;
    }
  }

  lemma WordLenOfName(name: string, rest: string)
    requires forall i :: 0 <= i < |name| ==> IsWordChar(name[i])
    ensures WordLen(name + "}" + rest) == |name|
    decreases |name|
  {
    if name != [] {
      assert (name + "}" + rest)[1..] == name[1..] + "}" + rest;
      WordLenOfName(name[1..], rest);
    }
  }

  lemma SubstituteHole(name: string, rest: string, vars: map<string, string>)
    requires name != [] && forall i :: 0 <= i < |name| ==> IsWordChar(name[i])
    ensures Substitute("{" + name + "}" + rest, vars) == VarValue(vars, name) + Substitute(rest, vars)
  {
    var s := "{" + name + "}" + rest;
    assert s[1..] == name + "}" + rest;
    WordLenOfName(name, rest);
    assert s[1 + |name|] == '}';
    assert s[1..1 + |name|] == name;
    assert s[2 + |name|..] == rest;
  }

  /** Filling a well-formed template through its written form gives exactly the filled-in template. */
  lemma {:induction false} SubstituteWritten(ps: seq<Piece>, vars: map<string, string>)
    requires forall i :: 0 <= i < |ps| ==> WellFormed(ps[i])
    ensures Substitute(Written(ps), vars) == Filled(ps, vars)
    decreases |ps|
  {
    if ps != [] {
      SubstituteWritten(ps[1..], vars);
      var rest := Written(ps[1..]);
      match ps[0]
      case Lit(t) =>
        SubstituteLiteral(t, rest, vars);
      case Hole(k) =>
        assert "{" + k + "}" + rest == Written(ps);
        SubstituteHole(k, rest, vars);
    }
  }

  /** Without variables the translation is returned as it stands, placeholders included. */
  lemma TranslateWithoutVars(current: map<string, string>, french: map<string, string>, key: string)
    ensures Translate(current, french, key, None) == Lookup18n(current, french, key)
  {
  }

  /** A key missing from both tables is shown as the key itself. */
  lemma MissingKeyShowsKey(current: map<string, string>, french: map<string, string>, key: string)
    requires key !in current && key !in french
    ensures Lookup18n(current, french, key) == key
  {
  }

  // ---------------------------------------------------------------------
  // updateContainer
  // ---------------------------------------------------------------------

  /** The parsed body of the reply; fields that are missing or not strings/booleans are `None`. */
  datatype UpdateBody = UpdateBody(error: Option<string>, message: Option<string>, updated: Option<bool>)

  const EmptyBody: UpdateBody := UpdateBody(None, None, None)

  /** The POST to `/update_container`: it threw, or a reply came with its HTTP status and body (`None` when not JSON). */
  datatype UpdateRequest = NetworkError(reason: string) | Response(ok: bool, httpStatus: int, body: Option<UpdateBody>)

  /** What the dashboard concludes and does next. */
  datatype UpdateOutcome =
    | Failed(err: string)           // alert `update_fail`, no render
    | AlreadyCurrent                // alert `up_to_date`, then `render(false)`
    | Refreshed(announced: bool)    // alert `updated_ok` when announced, then `render(true, true)`

  function Truthy(s: Option<string>): bool {
    s.Some? && s.value != ""
  }

  /** `data.error || data.message`, else `HTTP <status>`. */
  function FailureText(b: UpdateBody, status: int): string {
    if Truthy(b.error) then b.error.value
    else if Truthy(b.message) then b.message.value
    else "HTTP " + IntToString(status)
  }

  /** `/already up to date/i.test(message)` */
  predicate SaysUpToDate(message: string) {
    HasSubstring(Lower(message), "already up to date")
  }

  /** `/recreated|updated|pulled/i.test(message)` */
  predicate SaysUpdated(message: string) {
    var m := Lower(message);
    HasSubstring(m, "recreated") || HasSubstring(m, "updated") || HasSubstring(m, "pulled")
  }

  function Classify(r: UpdateRequest): UpdateOutcome {
    match r
    case NetworkError(reason) => Failed(reason)
    case Response(ok, status, body) =>
      var b := body.GetOr(EmptyBody);
      var msg := if Truthy(b.message) then b.message.value else "";
      if !ok then Failed(FailureText(b, status))
      else if b.updated == Some(false) || SaysUpToDate(msg) then AlreadyCurrent
      else Refreshed(b.updated == Some(true) || SaysUpdated(msg))
  }

  /** The render that follows: `(force, showLoading)`, or none. */
  function FollowUp(o: UpdateOutcome): Option<(bool, bool)> {
    match o
    case Failed(_) => None
    case AlreadyCurrent => Some((false, false))
    case Refreshed(_) => Some((true, true))
  }

  /** An error reply is reported with the server's error, else its message, else the HTTP status; nothing is re-rendered. */
  lemma ErrorReplyReported(status: int, body: Option<UpdateBody>)
    ensures var o := Classify(Response(false, status, body));
            o.Failed? && FollowUp(o).None?
    ensures body.None? ==> Classify(Response(false, status, body)) == Failed("HTTP " + IntToString(status))
  {
  }

  /** An explicit `updated: false` means up to date whatever the message says. */
  lemma UpdatedFalseWins(status: int, b: UpdateBody)
    requires b.updated == Some(false)
    ensures Classify(Response(true, status, Some(b))) == AlreadyCurrent
  {
  }

  /** The phrase test ignores letter case. */
  lemma PhraseIgnoresCase(message: string)
    ensures SaysUpToDate(Lower(message)) == SaysUpToDate(message)
    ensures SaysUpdated(Lower(message)) == SaysUpdated(message)
  {
    LowerIdempotent(message);
  }

  /** A successful reply always leads to a render; only a fresh update forces a full reload. */
  lemma SuccessRenders(status: int, body: Option<UpdateBody>)
    ensures var o := Classify(Response(true, status, body));
            FollowUp(o).Some? && (FollowUp(o).value.0 <==> o.Refreshed?)
  {
  }
}
