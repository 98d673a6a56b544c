/**
 * `OAuthBase._oauth2_authorization_code_grant`: the authorization-code
 * grant of section 4.1 of RFC 6749, with the `state` parameter as the
 * cross-site request forgery guard of section 10.12. The nonce, the
 * callback parameters and the token endpoint's JSON reply are inputs.
 */
module OAuth2 {
  import opened Wrappers
  import Text
  import Listener
  import Messages

  /** What a provider passes to the grant. */
  datatype Client = Client(
    subcategory: string,
    redirectUri: string,
    clientId: string,
    clientSecret: string,
    authUrl: string,
    tokenUrl: string,
    scope: string)

  /** The form-encoded POST to the token endpoint, with HTTP basic authentication. */
  datatype TokenRequest = TokenRequest(url: string, form: map<string, string>, basicAuth: (string, string))

  datatype Outcome =
    | StateMismatch(expected: string, got: Option<string>)
    | CallbackError(error: string)
    | TokenError(error: string)
    | RefreshToken(token: string)
      /** A KeyError: the named field was missing. */
    | Crash(missingKey: string)

  /** One run: the state generated, the authorization request, the exchange if made, and what `send` showed. */
  datatype Run = Run(
    state: string,
    authorizeUrl: string,
    authorizeParams: seq<(string, string)>,
    exchange: Option<TokenRequest>,
    outcome: Outcome,
    reply: Option<string>)

  const StatePrefix: string := "gallery-dl:"

  /** The `state` value: the provider name and the nonce behind a fixed prefix. */
  function State(subcategory: string, nonce: string): string
  {
    StatePrefix + subcategory + ":" + nonce
  }

  /** The query parameters of the authorization request, in the order `urlencode` writes them. */
  function AuthorizeParams(c: Client, state: string): (ps: seq<(string, string)>)
    // six pairs whose map has six keys: no key is written twice
    ensures |ps| == 6
    ensures Listener.ToMap(ps) == map[
      "client_id" := c.clientId, "response_type" := "code", "state" := state,
      "redirect_uri" := c.redirectUri, "duration" := "permanent", "scope" := c.scope]
  {
    var ps := [("client_id", c.clientId), ("response_type", "code"), ("state", state),
               ("redirect_uri", c.redirectUri), ("duration", "permanent"), ("scope", c.scope)];
    assert ps[..1][..0] == [];
    assert ps[..2][..1] == ps[..1];
    assert ps[..3][..2] == ps[..2];
    assert ps[..4][..3] == ps[..3];
    assert ps[..5][..4] == ps[..4];
    var m1 := Listener.ToMap(ps[..1]);
    assert m1 == map["client_id" := c.clientId];
    var m2 := Listener.ToMap(ps[..2]);
    assert m2 == m1["response_type" := "code"];
    var m3 := Listener.ToMap(ps[..3]);
    assert m3 == m2["state" := state];
    var m4 := Listener.ToMap(ps[..4]);
    assert m4 == m3["redirect_uri" := c.redirectUri];
    var m5 := Listener.ToMap(ps[..5]);
    assert m5 == m4["duration" := "permanent"];
    assert Listener.ToMap(ps) == m5["scope" := c.scope];
    ps
  }

  /** The callback carries exactly the state this run generated. */
  predicate StateMatches(callback: map<string, string>, state: string)
  {
    Get(callback, "state") == Some(state)
  }

  /** The grant, from the generated state to what is shown to the operator. */
  function Grant(c: Client, nonce: string, callback: map<string, string>, tokenResponse: map<string, string>): (r: Run)
    ensures r.state == State(c.subcategory, nonce)
    // the operator is sent to the provider's authorization endpoint with the six parameters
    ensures r.authorizeUrl == c.authUrl && r.authorizeParams == AuthorizeParams(c, r.state)
    ensures "state" in Listener.ToMap(r.authorizeParams) && Listener.ToMap(r.authorizeParams)["state"] == r.state
    // the token endpoint is contacted only after the state check and the error check pass
    ensures r.exchange.Some? <==> StateMatches(callback, r.state) && "error" !in callback && "code" in callback
    ensures r.exchange.Some? ==> r.exchange.value == TokenRequest(c.tokenUrl,
      map["grant_type" := "authorization_code", "code" := callback["code"], "redirect_uri" := c.redirectUri],
      (c.clientId, c.clientSecret))
    // the state check comes first and reports both values
    ensures r.outcome.StateMismatch? <==> !StateMatches(callback, r.state)
    ensures r.outcome.StateMismatch? ==> r.outcome == StateMismatch(r.state, Get(callback, "state"))
    ensures r.outcome.StateMismatch? ==> r.reply == Some(Messages.StateMismatchMessage(r.state, Get(callback, "state")))
    ensures r.outcome.CallbackError? <==> StateMatches(callback, r.state) && "error" in callback
    ensures r.outcome.CallbackError? ==> r.outcome.error == callback["error"]
    ensures r.outcome.TokenError? <==> r.exchange.Some? && "error" in tokenResponse
    ensures r.outcome.TokenError? ==> r.outcome.error == tokenResponse["error"]
    // only the token endpoint's refresh_token is ever shown as a credential
    ensures r.outcome.RefreshToken? <==> r.exchange.Some? && "error" !in tokenResponse && "refresh_token" in tokenResponse
    ensures r.outcome.RefreshToken? ==> r.outcome.token == tokenResponse["refresh_token"]
    // the KeyError names `code` before the exchange and `refresh_token` after it
    ensures r.outcome.Crash? ==> r.outcome.missingKey == (if r.exchange.None? then "code" else "refresh_token")
    ensures r.reply.None? <==> r.outcome.Crash?
    ensures r.outcome.RefreshToken? ==> r.reply == Some(Messages.OAuth2Message(c.subcategory, r.outcome.token))
    ensures r.outcome.CallbackError? || r.outcome.TokenError? ==> r.reply == Some(r.outcome.error)
  {
    var state := State(c.subcategory, nonce);
    var params := AuthorizeParams(c, state);
    if !StateMatches(callback, state) then
      var got := Get(callback, "state");
      Run(state, c.authUrl, params, None, StateMismatch(state, got),
        Some(Messages.StateMismatchMessage(state, got)))
    else if "error" in callback then
      Run(state, c.authUrl, params, None, CallbackError(callback["error"]), Some(callback["error"]))
    else if "code" !in callback then
      Run(state, c.authUrl, params, None, Crash("code"), None)
    else
      var request := TokenRequest(c.tokenUrl,
        map["grant_type" := "authorization_code", "code" := callback["code"], "redirect_uri" := c.redirectUri],
        (c.clientId, c.clientSecret));
      if "error" in tokenResponse then
        Run(state, c.authUrl, params, Some(request), TokenError(tokenResponse["error"]), Some(tokenResponse["error"]))
      else if "refresh_token" !in tokenResponse then
        Run(state, c.authUrl, params, Some(request), Crash("refresh_token"), None)
      else
        var token := tokenResponse["refresh_token"];
        Run(state, c.authUrl, params, Some(request), RefreshToken(token),
          Some(Messages.OAuth2Message(c.subcategory, token)))
  }

  // ---------------------------------------------------------------- proofs

  /** The state determines provider and nonce, as long as the provider name has no `:`. */
  lemma StateInjective(sub1: string, nonce1: string, sub2: string, nonce2: string)
    requires ':' !in sub1 && ':' !in sub2
    requires State(sub1, nonce1) == State(sub2, nonce2)
    ensures sub1 == sub2 && nonce1 == nonce2
  {
    var s1 := State(sub1, nonce1);
    var t1 := sub1 + [':'] + nonce1;
    var t2 := sub2 + [':'] + nonce2;
    assert s1 == StatePrefix + t1;
    assert State(sub2, nonce2) == StatePrefix + t2;
    assert t1 == s1[|StatePrefix|..] == t2;
    Text.PartitionOfGlued(sub1, ':', nonce1);
    Text.PartitionOfGlued(sub2, ':', nonce2);
  }

  /** A callback produced for another run (another nonce) is rejected without an exchange. */
  lemma ReplayedCallbackRejected(c: Client, oldNonce: string, nonce: string,
                                 callback: map<string, string>, tokenResponse: map<string, string>)
    requires oldNonce != nonce
    requires Get(callback, "state") == Some(State(c.subcategory, oldNonce))
    ensures Grant(c, nonce, callback, tokenResponse).outcome.StateMismatch?
    ensures Grant(c, nonce, callback, tokenResponse).exchange.None?
  {
    DistinctNoncesDistinctStates(c.subcategory, oldNonce, nonce);
  }

  /** A callback produced for another provider is rejected without an exchange, whatever the nonces. */
  lemma ForeignProviderCallbackRejected(c: Client, otherSub: string, otherNonce: string, nonce: string,
                                        callback: map<string, string>, tokenResponse: map<string, string>)
    requires ':' !in c.subcategory && ':' !in otherSub
    requires otherSub != c.subcategory
    requires Get(callback, "state") == Some(State(otherSub, otherNonce))
    ensures Grant(c, nonce, callback, tokenResponse).outcome.StateMismatch?
    ensures Grant(c, nonce, callback, tokenResponse).exchange.None?
  {
    if State(otherSub, otherNonce) == State(c.subcategory, nonce) {
      StateInjective(otherSub, otherNonce, c.subcategory, nonce);
    }
  }

  /** Different nonces give different states, so two runs never accept each other's callback. */
  lemma DistinctNoncesDistinctStates(sub: string, n1: string, n2: string)
    requires n1 != n2
    ensures State(sub, n1) != State(sub, n2)
  {
    var p := StatePrefix + sub + ":";
    assert State(sub, n1) == p + n1 && State(sub, n2) == p + n2;
    assert (p + n1)[|p|..] == n1 && (p + n2)[|p|..] == n2;
  }

  /**
   * The state guard is not a secret-keeping one: the mismatch reply shows
   * the expected state to whoever made the request.
   */
  lemma MismatchReplyShowsState(c: Client, nonce: string, callback: map<string, string>, tokenResponse: map<string, string>)
    requires !StateMatches(callback, State(c.subcategory, nonce))
    ensures Text.Contains(Grant(c, nonce, callback, tokenResponse).reply.value,
      "expected " + State(c.subcategory, nonce) + ", got ")
  {
    var r := Grant(c, nonce, callback, tokenResponse);
    var got := Messages.PyStr(Get(callback, "state"));
    var t := "expected " + State(c.subcategory, nonce) + ", got ";
    var detail := "expected " + State(c.subcategory, nonce) + ", got " + got + ".";
    assert detail == t + (got + ".");
    Text.ContainsSelf(t);
    Text.ContainsExtendRight(t, got + ".", t);
    Text.ContainsTransitive(r.reply.value, detail, t);
  }

  /** Successful grant: callback `{state, code: c1}` and token reply `{refresh_token: rt2}` show `rt2`. */
  lemma SuccessScenario(c: Client, nonce: string)
    ensures var cb := map["state" := State(c.subcategory, nonce), "code" := "c1"];
            var r := Grant(c, nonce, cb, map["refresh_token" := "rt2"]);
            && r.outcome == RefreshToken("rt2")
            && r.exchange.Some? && r.exchange.value.form["code"] == "c1"
  {
    var state := State(c.subcategory, nonce);
    var cb := map["state" := state, "code" := "c1"];
    var tokens := map["refresh_token" := "rt2"];
    assert StateMatches(cb, state) && "error" !in cb && cb["code"] == "c1";
    assert "error" !in tokens && tokens["refresh_token"] == "rt2";
  }

  /** A callback with the wrong state is rejected, and the token endpoint is never called. */
  lemma WrongStateScenario(c: Client, nonce: string, tokenResponse: map<string, string>)
    ensures var r := Grant(c, nonce, map["state" := "wrong"], tokenResponse);
            r.outcome == StateMismatch(State(c.subcategory, nonce), Some("wrong")) && r.exchange.None?
  {
    var s := State(c.subcategory, nonce);
    assert |s| > |"wrong"|;
  }
}
