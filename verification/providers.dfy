/**
 * The provider subclasses of `OAuthBase` as a static table: which flow
 * each one runs, with which endpoints, scope, redirect URI and client
 * credentials. The public application credentials the API modules ship
 * with are inputs (`Defaults`); configuration values override them.
 */
module Providers {
  import opened Wrappers
  import OAuth1
  import OAuth2

  datatype Provider = Deviantart | Flickr | Reddit | Tumblr

  function Subcategory(p: Provider): string
  {
    match p
    case Deviantart => "deviantart"
    case Flickr => "flickr"
    case Reddit => "reddit"
    case Tumblr => "tumblr"
  }

  /** The redirect URI every provider uses unless it overrides it. */
  const LocalRedirectUri: string := "http://localhost:6414/"

  function RedirectUri(p: Provider): (uri: string)
    ensures p != Deviantart <==> uri == LocalRedirectUri
    ensures p == Deviantart ==> uri == "https://mikf.github.io/gallery-dl/oauth-redirect.html"
  {
    if p == Deviantart then "https://mikf.github.io/gallery-dl/oauth-redirect.html" else LocalRedirectUri
  }

  /**
   * Whether `re.match("oauth:<subcategory>$", url)` succeeds: the pattern
   * is anchored at the start by `match`, and `$` also matches just before
   * a final newline.
   */
  predicate Matches(p: Provider, url: string)
  {
    var pattern := "oauth:" + Subcategory(p);
    url == pattern || url == pattern + "\n"
  }

  /** The public application credentials an API module ships with. */
  datatype Defaults = Defaults(id: string, secret: string)

  datatype FlowConfig =
    | UsesOAuth1(endpoints: OAuth1.Endpoints, consumerKey: string, consumerSecret: string)
    | UsesOAuth2(client: OAuth2.Client)

  /**
   * What `items` passes to the flow, for the provider's configuration
   * `options`; `oauth_config(key, default)` is `Get(options, key).GetOr(default)`.
   */
  function Configure(p: Provider, options: map<string, string>, defaults: Defaults): (f: FlowConfig)
    ensures f.UsesOAuth2? <==> p in {Deviantart, Reddit}
    // each credential is the configured option when there is one, else the API module's default
    ensures f.UsesOAuth2? ==>
              && f.client.subcategory == Subcategory(p)
              && f.client.redirectUri == RedirectUri(p)
              && f.client.clientId == Get(options, "client-id").GetOr(defaults.id)
    // reddit is a public client: its secret is empty whatever the configuration says
    ensures p == Reddit ==> f.client.clientSecret == ""
    ensures p == Deviantart ==> f.client.clientSecret == Get(options, "client-secret").GetOr(defaults.secret)
    ensures f.UsesOAuth1? ==>
              && f.endpoints.subcategory == Subcategory(p)
              && f.endpoints.redirectUri == LocalRedirectUri
              && f.consumerKey == Get(options, "api-key").GetOr(defaults.id)
              && f.consumerSecret == Get(options, "api-secret").GetOr(defaults.secret)
    // the endpoints and scope of each provider
    ensures p == Deviantart ==>
              && f.client.authUrl == "https://www.deviantart.com/oauth2/authorize"
              && f.client.tokenUrl == "https://www.deviantart.com/oauth2/token"
              && f.client.scope == "browse"
    ensures p == Reddit ==>
              && f.client.authUrl == "https://www.reddit.com/api/v1/authorize"
              && f.client.tokenUrl == "https://www.reddit.com/api/v1/access_token"
              && f.client.scope == "read"
    ensures p == Flickr ==>
              && f.endpoints.requestTokenUrl == "https://www.flickr.com/services/oauth/request_token"
              && f.endpoints.authorizeUrl == "https://www.flickr.com/services/oauth/authorize"
              && f.endpoints.accessTokenUrl == "https://www.flickr.com/services/oauth/access_token"
    ensures p == Tumblr ==>
              && f.endpoints.requestTokenUrl == "https://www.tumblr.com/oauth/request_token"
              && f.endpoints.authorizeUrl == "https://www.tumblr.com/oauth/authorize"
              && f.endpoints.accessTokenUrl == "https://www.tumblr.com/oauth/access_token"
  {
    match p
    case Deviantart =>
      UsesOAuth2(OAuth2.Client(Subcategory(p), RedirectUri(p),
        Get(options, "client-id").GetOr(defaults.id),
        Get(options, "client-secret").GetOr(defaults.secret),
        "https://www.deviantart.com/oauth2/authorize",
        "https://www.deviantart.com/oauth2/token",
        "browse"))
    case Reddit =>
      UsesOAuth2(OAuth2.Client(Subcategory(p), RedirectUri(p),
        Get(options, "client-id").GetOr(defaults.id),
        "",
        "https://www.reddit.com/api/v1/authorize",
        "https://www.reddit.com/api/v1/access_token",
        "read"))
    case Flickr =>
      UsesOAuth1(OAuth1.Endpoints(Subcategory(p), RedirectUri(p),
        "https://www.flickr.com/services/oauth/request_token",
        "https://www.flickr.com/services/oauth/authorize",
        "https://www.flickr.com/services/oauth/access_token"),
        Get(options, "api-key").GetOr(defaults.id),
        Get(options, "api-secret").GetOr(defaults.secret))
    case Tumblr =>
      UsesOAuth1(OAuth1.Endpoints(Subcategory(p), RedirectUri(p),
        "https://www.tumblr.com/oauth/request_token",
        "https://www.tumblr.com/oauth/authorize",
        "https://www.tumblr.com/oauth/access_token"),
        Get(options, "api-key").GetOr(defaults.id),
        Get(options, "api-secret").GetOr(defaults.secret))
  }

  // ---------------------------------------------------------------- proofs

  /** No URL selects two providers. */
  lemma MatchesUnique(p: Provider, q: Provider, url: string)
    requires Matches(p, url) && Matches(q, url)
    ensures p == q
  {
    // the provider names start with distinct letters
    var sp, sq := Subcategory(p), Subcategory(q);
    assert url[6] == ("oauth:" + sp)[6] == sp[0];
    assert url[6] == ("oauth:" + sq)[6] == sq[0];
  }

  /**
   * A callback obtained in a deviantart run is refused by a reddit run
   * and the other way round, whatever the nonces.
   */
  lemma CrossProviderCallbackRejected(p: Provider, q: Provider, optionsP: map<string, string>, dp: Defaults,
                                      optionsQ: map<string, string>, dq: Defaults,
                                      nonceP: string, nonceQ: string,
                                      callback: map<string, string>, tokenResponse: map<string, string>)
    requires p != q && p in {Deviantart, Reddit} && q in {Deviantart, Reddit}
    requires Get(callback, "state") == Some(OAuth2.State(Subcategory(p), nonceP))
    ensures OAuth2.Grant(Configure(q, optionsQ, dq).client, nonceQ, callback, tokenResponse).exchange.None?
  {
    var c := Configure(q, optionsQ, dq).client;
    OAuth2.ForeignProviderCallbackRejected(c, Subcategory(p), nonceP, nonceQ, callback, tokenResponse);
  }
}
