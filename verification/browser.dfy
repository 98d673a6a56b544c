/**
 * `OAuthBase.open`: the authorization URL and whether the operator has to
 * be shown it. The browser launch is a foreign call; its success is an input.
 */
module Browser {
  import opened Wrappers
  import Text
  import UrlParse
  import Listener

  /** What `open` does before it waits for the callback. */
  datatype Presentation = Presentation(url: string, launchAttempted: bool, printed: bool)

  /**
   * `browser` is the configured `browser` option (unset means true);
   * `launched` is what `webbrowser.open(url)` would return, consulted only
   * when the option is on.
   */
  function Open(url: string, params: seq<(string, string)>, browser: Option<bool>, launched: bool): (p: Presentation)
    ensures p.launchAttempted <==> browser != Some(false)
    ensures p.printed <==> !p.launchAttempted || !launched
    ensures p.url == url + "?" + UrlParse.UrlEncode(params)
    ensures '?' !in url ==> Text.Partition(p.url, '?') == Text.Parts(url, true, UrlParse.UrlEncode(params))
  {
    var full := url + "?" + UrlParse.UrlEncode(params);
    SplitsAtQuestionMark(url, UrlParse.UrlEncode(params));
    var attempt := browser.GetOr(true);
    Presentation(full, attempt, !attempt || !launched)
  }

  lemma SplitsAtQuestionMark(url: string, query: string)
    ensures '?' !in url ==> Text.Partition(url + "?" + query, '?') == Text.Parts(url, true, query)
  {
    if '?' !in url {
      assert url + "?" + query == url + ['?'] + query;
      Text.PartitionOfGlued(url, '?', query);
    }
  }

  /**
   * The query of the URL the operator is sent to reads back, on the
   * listener's parser, as the parameters `open` was given.
   */
  lemma OpenUrlCarriesParams(url: string, params: seq<(string, string)>, browser: Option<bool>, launched: bool)
    requires '?' !in url
    requires |params| >= 1
    requires forall i :: 0 <= i < |params| ==> Listener.IsPlainKey(params[i].0) && ' ' !in params[i].1
    ensures Listener.ParseQuery(Listener.QueryString(Open(url, params, browser, launched).url)) == Listener.ToMap(params)
  {
    var p := Open(url, params, browser, launched);
    Listener.ParseQueryOfUrlEncode(params);
  }
}
