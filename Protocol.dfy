/**
 * The dashboard and the server together: the key the dashboard keeps after
 * reading `/settings` (static/app.js `fetchSettings`, `saveSettings`), the
 * query string `keyParams`/`buildUrl` put it in, and the server's
 * `_check_auth` reading it back from `request.args`.
 */
module Protocol {
  import opened Wrappers
  import opened UrlEncoding
  import C = ClientText
  import S = ServerSettings

  /** `authState` after a `/settings` reply: the flag and the key exactly as the reply shows them. */
  function AuthFromReply(v: S.SettingsView): C.AuthState {
    C.AuthState(v.authEnabled, v.apiKey)
  }

  /** The `key` argument the server sees in a request built from `extra`; an empty query has none. */
  function SentKey(auth: C.AuthState, extra: C.Params): Option<string> {
    var ps := C.KeyParams(auth, extra);
    if ps == [] then None else C.Lookup(C.ParseQuery(C.Query(ps)), "key")
  }

  lemma {:induction false} SetParamAscii(ps: C.Params, k: string, v: string)
    requires C.AsciiParams(ps) && IsAscii(k) && IsAscii(v)
    ensures C.AsciiParams(C.SetParam(ps, k, v)) && C.SetParam(ps, k, v) != []
    decreases |ps|
  {
    if ps != [] && ps[0].0 != k {
      assert C.AsciiParams(ps[1..]) by {
        forall i | 0 <= i < |ps[1..]|
          ensures IsAscii(ps[1..][i].0) && IsAscii(ps[1..][i].1)
        {
          assert ps[1..][i] == ps[i + 1];
        }
      }
      SetParamAscii(ps[1..], k, v);
      var r := C.SetParam(ps, k, v);
      assert r == [ps[0]] + C.SetParam(ps[1..], k, v);
      forall i | 0 <= i < |r|
        ensures IsAscii(r[i].0) && IsAscii(r[i].1)
      {
        if i > 0 {
          assert r[i] == C.SetParam(ps[1..], k, v)[i - 1];
        }
      }
    } else if ps != [] {
      var r := C.SetParam(ps, k, v);
      forall i | 0 <= i < |r|
        ensures IsAscii(r[i].0) && IsAscii(r[i].1)
      {
        if i > 0 {
          assert r[i] == ps[i];
        }
      }
    }
  }

  /** A request from a dashboard holding key `key` with auth on carries exactly that key to the server (ASCII keys and parameters). */
  lemma KeyReachesServer(key: string, extra: C.Params)
    requires key != "" && IsAscii(key) && C.AsciiParams(extra)
    ensures SentKey(C.AuthState(true, key), extra) == Some(key)
  {
    var auth := C.AuthState(true, key);
    assert IsAscii("key");
    SetParamAscii(extra, "key", key);
    var ps := C.KeyParams(auth, extra);
    C.QueryRoundTrip(ps);
    C.KeyParamsCarriesKey(auth, extra, "");
  }

  /**
   * Right after saving settings, the dashboard's requests pass `_check_auth`:
   * the reply to `POST /settings` carries the key in clear, and the key the
   * server keeps is never empty while auth is on.
   */
  lemma SavedKeyPassesAuth(s: S.SettingsState, data: S.Payload, freshKey: string, extra: C.Params)
    requires freshKey != ""
    requires forall k :: k in data ==> S.WellFormed(data[k])
    requires IsAscii(S.Post(s, data, freshKey).apiKey) && C.AsciiParams(extra)
    ensures var t := S.Post(s, data, freshKey);
            S.CheckAuth(t, SentKey(AuthFromReply(S.SettingsView(t.authEnabled, t.apiKey, t.allowedCidrs)), extra))
  {
    var t := S.Post(s, data, freshKey);
    S.PostKeyWhileAuthOn(s, data, freshKey);
    if t.authEnabled {
      KeyReachesServer(t.apiKey, extra);
    }
  }

  /**
   * After reading `GET /settings` while auth is on, the dashboard holds the
   * mask `********` as its key, so its requests are refused unless the
   * server's key happens to be the mask itself.
   */
  lemma FetchedMaskLocksOut(s: S.SettingsState, extra: C.Params)
    requires s.authEnabled && s.apiKey != S.Mask && C.AsciiParams(extra)
    ensures !S.CheckAuth(s, SentKey(AuthFromReply(S.GetSettings(s)), extra))
  {
    assert IsAscii(S.Mask);
    KeyReachesServer(S.Mask, extra);
  }

  /**
   * Saving the settings form unchanged after opening it with auth on posts
   * the mask back, which becomes the server's key; the reply then hands the
   * dashboard that same key, and its requests pass again.
   */
  lemma SavingMaskedFormRestoresAccess(s: S.SettingsState, freshKey: string, extra: C.Params)
    requires s.authEnabled && C.AsciiParams(extra)
    ensures var data := map["auth_enabled" := S.JBool(true), "api_key" := S.JStr(S.GetSettings(s).apiKey)];
            var t := S.Post(s, data, freshKey);
            t.apiKey == S.Mask
            && S.CheckAuth(t, SentKey(AuthFromReply(S.SettingsView(t.authEnabled, t.apiKey, t.allowedCidrs)), extra))
  {
    S.EchoedViewStoresMask(s, freshKey);
    assert IsAscii(S.Mask);
    KeyReachesServer(S.Mask, extra);
  }
}
