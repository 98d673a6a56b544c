/**
 * `OAuthBase._oauth1_authorization_flow`: the three-legged flow of
 * sections 2.1 to 2.3 of RFC 5849 (request token, resource owner
 * authorization, access token). The signing session is an explicit value;
 * the provider's replies and the callback parameters are inputs.
 */
module OAuth1 {
  import opened Wrappers
  import Messages

  /** What a provider passes to the flow. */
  datatype Endpoints = Endpoints(
    subcategory: string,
    redirectUri: string,
    requestTokenUrl: string,
    authorizeUrl: string,
    accessTokenUrl: string)

  /** The signing state of the OAuth session: its default query parameters and the token secret it signs with. */
  datatype Session = Session(params: map<string, string>, tokenSecret: Option<string>)

  /** A signed GET: the URL, its own query parameters, and the session it is signed with. */
  datatype Fetch = Fetch(url: string, params: map<string, string>, session: Session)

  datatype Outcome =
    | Credentials(token: string, tokenSecret: string)
      /** A KeyError: the named field was missing. */
    | Crash(missingKey: string)

  /** Where `open` sends the operator: the authorization URL and its query parameters. */
  datatype Authorization = Authorization(url: string, params: seq<(string, string)>)

  /** One run: the calls made, in order, and what `send` showed. */
  datatype Run = Run(
    requestToken: Option<Fetch>,
    authorize: Option<Authorization>,
    accessToken: Option<Fetch>,
    outcome: Outcome,
    reply: Option<string>)

  /**
   * The flow. `session` is the OAuth session before the run; the three
   * maps are the parsed request-token reply, the callback parameters and
   * the parsed access-token reply.
   */
  function Flow(e: Endpoints, session: Session, requestTokenReply: map<string, string>,
                callback: map<string, string>, accessTokenReply: map<string, string>): (r: Run)
    // the steps happen in order: a later call is made only when the earlier ones were
    ensures r.accessToken.Some? ==> r.authorize.Some?
    ensures r.authorize.Some? ==> r.requestToken.Some?
    ensures r.requestToken.Some? <==> "oauth_token" in session.params
    // the request-token call carries only the callback URI, signed without the old token
    ensures r.requestToken.Some? ==>
              && r.requestToken.value.url == e.requestTokenUrl
              && r.requestToken.value.params == map["oauth_callback" := e.redirectUri]
              && r.requestToken.value.session == Session(session.params - {"oauth_token"}, session.tokenSecret)
    // both fields of the request-token reply are needed to go on
    ensures r.authorize.Some? <==>
              r.requestToken.Some? && "oauth_token" in requestTokenReply && "oauth_token_secret" in requestTokenReply
    // the operator is sent to the provider's authorization URL with the request token
    ensures r.authorize.Some? ==> r.authorize.value == Authorization(
      e.authorizeUrl, [("oauth_token", requestTokenReply["oauth_token"]), ("perms", "read")])
    ensures r.accessToken.Some? <==> r.authorize.Some?
    // the callback is forwarded unchanged, signed with the request token and its secret
    ensures r.accessToken.Some? ==>
              && r.accessToken.value.url == e.accessTokenUrl
              && r.accessToken.value.params == callback
              && r.accessToken.value.session == Session(
                   session.params["oauth_token" := requestTokenReply["oauth_token"]],
                   Some(requestTokenReply["oauth_token_secret"]))
    // the credentials shown are the access-token reply's, and nothing is shown without both
    ensures r.outcome.Credentials? <==>
              r.accessToken.Some? && "oauth_token" in accessTokenReply && "oauth_token_secret" in accessTokenReply
    ensures r.outcome.Credentials? ==> r.outcome == Credentials(
      accessTokenReply["oauth_token"], accessTokenReply["oauth_token_secret"])
    // the KeyError names the first field found missing: the session's old token, then each reply's
    // token before its secret
    ensures r.outcome.Crash? ==>
              r.outcome.missingKey == (
                if r.requestToken.None? then "oauth_token"
                else if r.authorize.None? then
                  (if "oauth_token" !in requestTokenReply then "oauth_token" else "oauth_token_secret")
                else if "oauth_token" !in accessTokenReply then "oauth_token"
                else "oauth_token_secret")
    ensures r.reply.Some? <==> r.outcome.Credentials?
    ensures r.outcome.Credentials? ==>
      r.reply == Some(Messages.OAuth1Message(e.subcategory, r.outcome.token, r.outcome.tokenSecret))
  {
    if "oauth_token" !in session.params then
      Run(None, None, None, Crash("oauth_token"), None)
    else
      var cleared := Session(session.params - {"oauth_token"}, session.tokenSecret);
      var first := Fetch(e.requestTokenUrl, map["oauth_callback" := e.redirectUri], cleared);
      if "oauth_token" !in requestTokenReply then
        Run(Some(first), None, None, Crash("oauth_token"), None)
      else if "oauth_token_secret" !in requestTokenReply then
        Run(Some(first), None, None, Crash("oauth_token_secret"), None)
      else
        var token := requestTokenReply["oauth_token"];
        var signed := Session(cleared.params["oauth_token" := token], Some(requestTokenReply["oauth_token_secret"]));
        var authorize := Authorization(e.authorizeUrl, [("oauth_token", token), ("perms", "read")]);
        var second := Fetch(e.accessTokenUrl, callback, signed);
        if "oauth_token" !in accessTokenReply then
          Run(Some(first), Some(authorize), Some(second), Crash("oauth_token"), None)
        else if "oauth_token_secret" !in accessTokenReply then
          Run(Some(first), Some(authorize), Some(second), Crash("oauth_token_secret"), None)
        else
          var creds := Credentials(accessTokenReply["oauth_token"], accessTokenReply["oauth_token_secret"]);
          Run(Some(first), Some(authorize), Some(second), creds,
            Some(Messages.OAuth1Message(e.subcategory, creds.token, creds.tokenSecret)))
  }

  // ---------------------------------------------------------------- proofs

  /** Apart from the token and its secret, the access-token call is signed with the session the run started with. */
  lemma AccessSessionKeepsOtherParams(e: Endpoints, session: Session, requestTokenReply: map<string, string>,
                                      callback: map<string, string>, accessTokenReply: map<string, string>, k: string)
    requires k != "oauth_token"
    requires Flow(e, session, requestTokenReply, callback, accessTokenReply).accessToken.Some?
    ensures var s := Flow(e, session, requestTokenReply, callback, accessTokenReply).accessToken.value.session;
            (k in s.params <==> k in session.params) && (k in s.params ==> s.params[k] == session.params[k])
  {
    var r := Flow(e, session, requestTokenReply, callback, accessTokenReply);
    var p := r.accessToken.value.session.params;
    assert p == session.params["oauth_token" := requestTokenReply["oauth_token"]];
  }

  /** A request-token reply without `oauth_token_secret` ends the run before the operator is sent anywhere. */
  lemma MissingSecretAborts(e: Endpoints, session: Session, requestTokenReply: map<string, string>,
                            callback: map<string, string>, accessTokenReply: map<string, string>)
    requires "oauth_token" in session.params
    requires "oauth_token_secret" !in requestTokenReply
    ensures var r := Flow(e, session, requestTokenReply, callback, accessTokenReply);
            r.authorize.None? && r.accessToken.None? && r.outcome.Crash? && r.reply.None?
  {
  }

  /** The end-to-end exchange: request token rt1/rts1, callback with verifier v1, access token at1/ats1. */
  lemma SuccessScenario(e: Endpoints, session: Session)
    requires "oauth_token" in session.params
    ensures var cb := map["oauth_token" := "rt1", "oauth_verifier" := "v1"];
            var r := Flow(e, session,
              map["oauth_token" := "rt1", "oauth_token_secret" := "rts1"], cb,
              map["oauth_token" := "at1", "oauth_token_secret" := "ats1"]);
            && r.outcome == Credentials("at1", "ats1")
            && r.accessToken.Some? && r.accessToken.value.params == cb
            && r.accessToken.value.session.tokenSecret == Some("rts1")
  {
  }
}
