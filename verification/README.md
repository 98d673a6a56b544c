# gallery-dl OAuth broker, modelled in Dafny

This project models the OAuth helper extractors of gallery-dl
(`gallery_dl/extractor/oauth.py`). They obtain long-lived credentials for
deviantart, flickr, reddit and tumblr. The operator is sent to the
provider's consent page, the provider redirects back to a one-shot
listener on `localhost:6414`, and the short-lived artifacts are exchanged
for an OAuth 1.0a access token and secret or an OAuth 2.0 refresh token,
which are then shown to the operator.

The model is functional. Network replies, the callback text, the nonce and
configuration values are parameters. Each flow returns a record of every
request it would issue and of what it would show.

| module | file | models |
|---|---|---|
| `Text` | text.dfy | `str.partition`, `str.split` (with and without a maximum), `str.join`, substring containment |
| `Utf8` | utf8.dfy | `str.encode()` and `bytes.decode("utf-8", "replace")` |
| `UrlParse` | urlparse.dfy | `urllib.parse.unquote`, `quote_plus`, `urlencode` |
| `Listener` | listener.dfy | `OAuthBase.recv` (request text to parameter map) and the bytes `send` writes |
| `Browser` | browser.dfy | `OAuthBase.open`: the authorization URL and whether it is printed |
| `Messages` | messages.dfy | the two credential templates and the state-mismatch message |
| `OAuth1` | oauth1.dfy | `_oauth1_authorization_flow` (RFC 5849, sections 2.1 to 2.3) |
| `OAuth2` | oauth2.dfy | `_oauth2_authorization_code_grant` (RFC 6749, section 4.1; `state` as in section 10.12) |
| `Providers` | providers.dfy | the four provider subclasses as a static table |

Main results:

- **Callback parsing.** `recv` exactly inverts `urlencode` for a non-empty
  parameter list whose keys are made of always-safe characters and whose
  values have no spaces (`Listener.CallbackOfRedirect`). An empty list is
  not covered: `urlencode` of nothing is read back as `{"": ""}`.
  A repeated key keeps its last value. Keys are never decoded.
- **`unquote`.** The model decodes `%XX` escapes byte by byte and then reads
  the bytes as UTF-8. It leaves `+` alone, so a `quote_plus`-encoded space
  comes back as `+`.
- **OAuth 2.0 state guard.** The token endpoint is contacted exactly when the
  callback's `state` equals the generated one, the callback has no `error`,
  and it has a `code`. A callback made for another nonce or another provider
  is always refused (`OAuth2.ReplayedCallbackRejected`,
  `Providers.CrossProviderCallbackRejected`).

Behaviour of the code worth knowing, which the model follows as written:

- **The state is shown on a mismatch.** The mismatch reply includes the
  expected state next to the received one (oauth.py:125-126), so the guard
  does not keep the pending state secret. `OAuth2.MismatchReplyShowsState`
  states this.
- **`+` is not decoded.** Callback values go through `unquote`
  (oauth.py:55), which keeps `+` as it is; a space encoded as `+` comes back
  as `+` (`UrlParse.UnquoteKeepsPlus`).
- **The old token secret stays in the session.** The request-token call
  only deletes the session's `oauth_token` (oauth.py:81); the session's
  token secret stays as it was. `OAuth1.Session.tokenSecret` is carried
  over unchanged.
- **One template, two spellings.** The OAuth 2.0 template
  `OAUTH2_MSG_TEMPLATE` tells the operator to set `refesh-token`
  (oauth.py:261), while its own example further down uses `refresh-token`
  (oauth.py:267). `Messages.OAuth2Message` keeps both spellings.

## Model

| member | source | states |
|---|---|---|
| Text.Partition | gallery_dl/extractor/oauth.py:53 | `partition` splits at the first separator: the head has none, and head, separator and tail glue back to the input; without a separator the head is everything and the tail empty |
| Text.PartitionOfGlued | gallery_dl/extractor/oauth.py:57 | partition inverts gluing a separator-free head to any tail |
| Text.Split | gallery_dl/extractor/oauth.py:58 | `split("&")` gives at least one piece, no piece contains `&`, and joining the pieces with `&` restores the input |
| Text.SplitOfJoin | gallery_dl/extractor/oauth.py:58 | `split` undoes `join` when no piece contains the separator |
| Text.SplitMax | gallery_dl/extractor/oauth.py:52 | `split(" ", 2)` rejoins to the input and makes one cut at each space until it has made two: the number of pieces is one more than the smaller of two and the number of spaces; only the last piece may hold a space, and the first piece is the text before the first space |
| Utf8.DecodeEncode | gallery_dl/extractor/oauth.py:65 | decoding the UTF-8 encoding of any text gives back the text |
| Utf8.EncodeConcat | gallery_dl/extractor/oauth.py:65 | encoding distributes over concatenation, so the status bytes followed by `msg.encode()` are the encoding of the whole reply |
| UrlParse.Unquote | gallery_dl/extractor/oauth.py:55 | `unquote` returns text without `%` unchanged, and that shortcut always agrees with the general run-by-run decoding of ASCII runs as UTF-8 with replacement |
| UrlParse.DecodeRunsWithoutPercent | gallery_dl/extractor/oauth.py:55 | the shortcut for text without `%` agrees with the general decoding path |
| UrlParse.UnquoteOfQuotePlus | gallery_dl/extractor/oauth.py:55 | `unquote` inverts `quote_plus` on text without spaces |
| UrlParse.UnquoteKeepsPlus | gallery_dl/extractor/oauth.py:55 | `unquote` leaves `+` as `+`, so the `quote_plus` form of a space does not come back as a space |
| UrlParse.UnquoteExample | gallery_dl/extractor/oauth.py:55 | escapes of a two-byte UTF-8 character are decoded into that one character, and `%2B` becomes `+` |
| UrlParse.QuotePlus | gallery_dl/extractor/oauth.py:71 | `quote_plus` writes only ASCII without spaces, made of always-safe characters, `%` and `+`; text of always-safe characters is left unchanged |
| Listener.RequestPath | gallery_dl/extractor/oauth.py:52 | the path is the text between the first and the second space, and there is none (IndexError) exactly when the request has no space |
| Listener.RequestPathOfLine | gallery_dl/extractor/oauth.py:52 | for any request line `verb path[ rest]`, the path is recovered |
| Listener.QueryString | gallery_dl/extractor/oauth.py:53 | the query is everything after the first `?`, or empty when there is none |
| Listener.CollectKeys | gallery_dl/extractor/oauth.py:54-60 | the keys of the parsed map are exactly the texts before the first `=` of the pieces, undecoded |
| Listener.CollectLastWins | gallery_dl/extractor/oauth.py:54-60 | for a repeated key the map holds the unquoted value of its last occurrence |
| Listener.KeysAreNotDecoded | gallery_dl/extractor/oauth.py:54-57 | in `%41=%41` the key stays `%41` while the value becomes `A` |
| Listener.ParseCallback | gallery_dl/extractor/oauth.py:51-60 | parsing fails exactly when the request text has no space |
| Listener.ParseCallbackWithoutQuery | gallery_dl/extractor/oauth.py:53-60 | a path without `?` gives the single entry `"" -> ""` |
| Listener.ParseQueryOfUrlEncode | gallery_dl/extractor/oauth.py:54-60 | for a non-empty parameter list with always-safe keys and values without spaces, parsing its `urlencode` gives its map, last value winning |
| Listener.CallbackOfRedirect | gallery_dl/extractor/oauth.py:51-60 | a redirect request `verb prefix?query[ rest]`, with no space in verb or prefix and no `?` in prefix, whose query is the `urlencode` of a non-empty parameter list with always-safe keys and values without spaces, is received as the map of those parameters |
| Listener.Response | gallery_dl/extractor/oauth.py:65 | the reply bytes are the UTF-8 encoding of `HTTP/1.1 200 OK\r\n\r\n` followed by the message, and decode back to that text |
| Browser.Open | gallery_dl/extractor/oauth.py:68-75 | the URL is the base, `?`, and the encoded parameters, for any base; the launch is attempted exactly when the browser option is not false; the URL is printed exactly when the option is false or the launch fails |
| Browser.OpenUrlCarriesParams | gallery_dl/extractor/oauth.py:71 | for a base without `?` and a non-empty parameter list with always-safe keys and values without spaces, the query of the built URL parses back to the map of the parameters given to `open` |
| Messages.OAuth1Message | gallery_dl/extractor/oauth.py:233-252 | the OAuth 1.0a message shows the token and secret on consecutive lines and in the example configuration |
| Messages.OAuth2Message | gallery_dl/extractor/oauth.py:255-271 | the OAuth 2.0 message shows the refresh token on its own line, names the key `refesh-token` and has a `refresh-token` example |
| Messages.StateMismatchMessage | gallery_dl/extractor/oauth.py:125-126 | the mismatch message shows the expected state and the received one, `None` when absent |
| OAuth2.AuthorizeParams | gallery_dl/extractor/oauth.py:111-118 | the authorization request writes six pairs, one per key, with exactly the keys client_id, response_type=code, state, redirect_uri, duration=permanent and scope |
| OAuth2.Grant | gallery_dl/extractor/oauth.py:104-150 | the operator is sent to the client's authorization URL with exactly the six authorization parameters; the token endpoint is contacted only when the callback state equals the generated state, there is no `error` and there is a `code`; a state mismatch is checked first and its reply reports both values; the token request is exactly grant_type, code, redirect_uri with basic auth (client id, secret); only the reply's `refresh_token` is shown, and a missing `code` (before the exchange) or `refresh_token` (after it) is a crash naming that key, with no reply |
| OAuth2.StateInjective | gallery_dl/extractor/oauth.py:108-109 | the state `gallery-dl:<provider>:<nonce>` determines the provider and the nonce |
| OAuth2.DistinctNoncesDistinctStates | gallery_dl/extractor/oauth.py:108-109 | two runs with different nonces generate different states |
| OAuth2.ReplayedCallbackRejected | gallery_dl/extractor/oauth.py:124-127 | a callback carrying the state of a run with another nonce is refused with no token exchange |
| OAuth2.ForeignProviderCallbackRejected | gallery_dl/extractor/oauth.py:124-127 | a callback carrying another provider's state is refused with no token exchange |
| OAuth2.MismatchReplyShowsState | gallery_dl/extractor/oauth.py:125-126 | on a mismatch the reply contains the expected state |
| OAuth2.SuccessScenario | gallery_dl/extractor/oauth.py:133-150 | callback `{state, code: c1}` and token reply `{refresh_token: rt2}` give refresh token `rt2` after an exchange with code `c1` |
| OAuth2.WrongStateScenario | gallery_dl/extractor/oauth.py:124-127 | callback `{state: wrong}` is a mismatch reporting both states, and no exchange happens |
| OAuth1.Flow | gallery_dl/extractor/oauth.py:78-102 | the calls happen in order; the request-token call carries only `oauth_callback` and is signed without the old `oauth_token`; a missing token or secret in its reply ends the run with a KeyError naming the first missing field; the operator is sent to the provider's authorize URL with `{oauth_token, perms: read}`; the callback is forwarded unchanged, signed with the request token and secret; the credentials shown are the access-token reply's token and secret |
| OAuth1.AccessSessionKeepsOtherParams | gallery_dl/extractor/oauth.py:81-96 | apart from `oauth_token`, the access-token call's session parameters are those the run started with |
| OAuth1.MissingSecretAborts | gallery_dl/extractor/oauth.py:87-89 | a request-token reply without `oauth_token_secret` ends the run before the authorization step, with nothing shown |
| OAuth1.SuccessScenario | gallery_dl/extractor/oauth.py:84-102 | request token rt1/rts1, callback with verifier v1 and access token at1/ats1 give credentials (at1, ats1), with the callback forwarded and signed with rts1 |
| Providers.RedirectUri | gallery_dl/extractor/oauth.py:153-156 | deviantart uses `https://mikf.github.io/gallery-dl/oauth-redirect.html`; every other provider uses `http://localhost:6414/` |
| Providers.Configure | gallery_dl/extractor/oauth.py:153-230 | deviantart and reddit run the OAuth 2.0 grant and flickr and tumblr the OAuth 1.0a flow; each credential is the configured option when present, else the API module's default; reddit's client secret is always empty; each provider's authorization and token URLs and scope, or its three OAuth 1.0a URLs, are the ones in its class |
| Providers.MatchesUnique | gallery_dl/extractor/oauth.py:153-230 | no URL matches two of the `oauth:<provider>$` patterns |
| Providers.CrossProviderCallbackRejected | gallery_dl/extractor/oauth.py:153-230 | a callback produced for deviantart is refused by a reddit run and the other way round, with no token exchange |

## Left out

- Socket handling in `recv` (oauth.py:33-50) and the closing in `send` (oauth.py:66) are not modelled. This covers binding port 6414, the accept loop with its Windows timeout, and `recv(1024)`. The received request is an input that is already decoded. Requests longer than 1024 bytes, and strict decoding failures on non-UTF-8 bytes, are therefore not modelled.
- Console output (oauth.py:34, 64, 74-75) is not modelled. Only whether the URL is printed is recorded (`Browser.Open`).
- `webbrowser.open` is a foreign call. Its result is the input `launched`.
- The HTTP calls `self.session.get` and `self.session.post` are not performed. They are returned as request records. The OAuth 1.0a signature computed by `util.OAuthSession` is not part of this model; only the session's parameters and token secret are carried.
- Reply parsing is not modelled: `text.parse_query` for OAuth 1.0a and `.json()` for OAuth 2.0 are unseen. The parsed replies are inputs.
- OAuth2.Grant: the token reply is a map of strings. A JSON `error` that is not a string makes `send` raise after printing, and that case is not modelled. A reply that is not a JSON object is not modelled either.
- Nonce generation (`util.OAuthSession.nonce`) is random. The nonce is an input, and its uniqueness across runs is assumed by `OAuth2.DistinctNoncesDistinctStates` rather than proved.
- Configuration lookups are not modelled. `config.interpolate` is replaced by a map of the provider's options. The default credentials of the deviantart, flickr, reddit and tumblr API modules are inputs (`Providers.Defaults`). The construction of `util.OAuthSession` from them is not part of this model.
- Browser.Open: the `browser` option is modelled as an optional boolean. Python accepts any value and uses its truthiness.
- The reddit User-Agent header (oauth.py:201) is not modelled. Its value lives in the reddit module, and it does not affect the flow.
- Providers.MatchesUnique: models one `re.match` of each pattern. The registry that tries the patterns of all extractors is not part of this model.
- UrlParse.QuotePlus: follows Python 3.7 and later, where `~` is never escaped. Earlier versions write it as `%7E`; `unquote` reads either form back the same.
- `Message.Version` yielded by `items` is not modelled. It belongs to the general extractor protocol.
- `gallery_dl/extractor/mangareader.py` is not part of this model. It is site-specific scraping.
