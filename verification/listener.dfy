/**
 * The local callback listener of `OAuthBase`: turning the received HTTP
 * request text into the callback parameter map (`recv`), and the bytes
 * written back to the browser (`send`). Sockets are not modelled; the
 * received text is an input.
 */
module Listener {
  import opened Wrappers
  import Text
  import UrlParse
  import Utf8

  /**
   * `data.split(" ", 2)[1]`: the request target between the first and the
   * second space, or None where Python raises IndexError (no space).
   */
  function RequestPath(data: string): (path: Option<string>)
    ensures path.None? <==> ' ' !in data
    ensures path.Some? ==> ' ' !in path.value
    ensures path.Some? ==> path.value == Text.Partition(Text.Partition(data, ' ').tail, ' ').head
  {
    var parts := Text.SplitMax(data, ' ', 2);
    if |parts| < 2 then None else Some(parts[1])
  }

  /** `path.partition("?")[2]`: everything after the first `?`, or "" without one. */
  function QueryString(path: string): (q: string)
    ensures '?' in path ==> exists i :: 0 <= i < |path| && path[i] == '?' && '?' !in path[..i] && q == path[i + 1..]
    ensures '?' !in path ==> q == ""
  {
    var p := Text.Partition(path, '?');
    assert p.found ==> path[|p.head|] == '?' && path[..|p.head|] == p.head && path[|p.head| + 1..] == p.tail;
    p.tail
  }

  /** The key of one `&`-piece: the text before its first `=`, not decoded. */
  function Key(piece: string): string
  {
    Text.Partition(piece, '=').head
  }

  /** The value of one `&`-piece: the text after its first `=` (empty without one), percent-decoded. */
  function Value(piece: string): string
  {
    UrlParse.Unquote(Text.Partition(piece, '=').tail)
  }

  /** No later piece has the same key as piece `i`. */
  ghost predicate IsLastOccurrence(pieces: seq<string>, i: int)
    requires 0 <= i < |pieces|
  {
    forall j :: i < j < |pieces| ==> Key(pieces[j]) != Key(pieces[i])
  }

  /**
   * The dict comprehension of `recv`: pieces are entered left to right,
   * so a later piece overwrites an earlier one with the same key.
   */
  function Collect(pieces: seq<string>): map<string, string>
    decreases |pieces|
  {
    if |pieces| == 0 then map[]
    else
      var last := pieces[|pieces| - 1];
      Collect(pieces[..|pieces| - 1])[Key(last) := Value(last)]
  }

  /** The keys of the pieces, undecoded. */
  ghost function KeysOf(pieces: seq<string>): set<string>
  {
    set i | 0 <= i < |pieces| :: Key(pieces[i])
  }

  /** The keys of a non-empty list are those of all but its last piece, plus the last piece's key. */
  lemma KeysOfStep(pieces: seq<string>)
    requires |pieces| > 0
    ensures KeysOf(pieces) == KeysOf(pieces[..|pieces| - 1]) + {Key(pieces[|pieces| - 1])}
  {
    var init := pieces[..|pieces| - 1];
    var n := |pieces| - 1;
    forall k | k in KeysOf(pieces)
      ensures k in KeysOf(init) + {Key(pieces[n])}
    {
      var i :| 0 <= i < |pieces| && Key(pieces[i]) == k;
      if i < n {
        assert init[i] == pieces[i];
      }
    }
    forall k | k in KeysOf(init)
      ensures k in KeysOf(pieces)
    {
      var i :| 0 <= i < |init| && Key(init[i]) == k;
      assert init[i] == pieces[i];
    }
  }

  /** Every piece contributes its key, and nothing else is a key. */
  lemma {:induction false} CollectKeys(pieces: seq<string>)
    ensures Collect(pieces).Keys == KeysOf(pieces)
    decreases |pieces|
  {
    if |pieces| > 0 {
      var init := pieces[..|pieces| - 1];
      var last := pieces[|pieces| - 1];
      CollectKeys(init);
      KeysOfStep(pieces);
      assert Collect(pieces) == Collect(init)[Key(last) := Value(last)];
    }
  }

  /** For a repeated key, the value of its last occurrence wins. */
  lemma {:induction false} CollectLastWins(pieces: seq<string>, i: int)
    requires 0 <= i < |pieces| && IsLastOccurrence(pieces, i)
    ensures Key(pieces[i]) in Collect(pieces)
    ensures Collect(pieces)[Key(pieces[i])] == Value(pieces[i])
    decreases |pieces|
  {
    if i < |pieces| - 1 {
      var init := pieces[..|pieces| - 1];
      assert init[i] == pieces[i];
      assert IsLastOccurrence(init, i) by {
        forall j | i < j < |init| ensures Key(init[j]) != Key(init[i]) {
          assert init[j] == pieces[j];
        }
      }
      CollectLastWins(init, i);
      assert Key(pieces[|pieces| - 1]) != Key(pieces[i]);
    }
  }

  /** The parameter map of a raw query string. */
  function ParseQuery(query: string): map<string, string>
  {
    Collect(Text.Split(query, '&'))
  }

  /**
   * What `recv` returns for the received request text, or None where it
   * raises (a request without any space).
   */
  function ParseCallback(data: string): (params: Option<map<string, string>>)
    ensures params.None? <==> ' ' !in data
  {
    match RequestPath(data)
    case None => None
    case Some(path) => Some(ParseQuery(QueryString(path)))
  }

  /** The fixed head of every reply `send` writes. */
  const StatusLine: string := "HTTP/1.1 200 OK\r\n\r\n"

  /** The bytes `send(msg)` writes to the browser: the status line, an empty header block, then the UTF-8 message. */
  function Response(msg: string): (bs: seq<Utf8.byte>)
    ensures bs == Utf8.Encode(StatusLine + msg)
    ensures Utf8.Decode(bs) == StatusLine + msg
  {
    Utf8.EncodeConcat(StatusLine, msg);
    Utf8.DecodeEncode(StatusLine + msg);
    Utf8.Encode(StatusLine) + Utf8.Encode(msg)
  }

  // ---------------------------------------------------------------- proofs

  /** The path is recovered from any request line `verb path[ rest]`. */
  lemma RequestPathOfLine(verb: string, path: string, rest: string)
    requires ' ' !in verb && ' ' !in path
    requires rest == "" || rest[0] == ' '
    ensures RequestPath(verb + " " + path + rest) == Some(path)
  {
    var data := verb + " " + path + rest;
    assert data == verb + [' '] + (path + rest);
    Text.PartitionOfGlued(verb, ' ', path + rest);
    if rest == "" {
      assert path + rest == path;
    } else {
      assert path + rest == path + [' '] + rest[1..];
      Text.PartitionOfGlued(path, ' ', rest[1..]);
    }
  }

  /** A request whose path has no `?` yields the single entry `"" -> ""`. */
  lemma ParseCallbackWithoutQuery(data: string)
    requires RequestPath(data).Some? && '?' !in RequestPath(data).value
    ensures ParseCallback(data) == Some(map["" := ""])
  {
    ParseQueryOfEmpty();
  }

  lemma ParseQueryOfEmpty()
    ensures ParseQuery("") == map["" := ""]
  {
    var pieces := Text.Split("", '&');
    assert pieces == [""];
    assert Key("") == "" && Value("") == "";
  }

  /** The parameters `urlencode` writes, as a map where later pairs win. */
  function ToMap(ps: seq<(string, string)>): (m: map<string, string>)
    ensures forall i :: 0 <= i < |ps| ==> ps[i].0 in m
    ensures forall k :: k in m ==> exists i :: 0 <= i < |ps| && ps[i].0 == k
  {
    if |ps| == 0 then map[]
    else
      var init := ps[..|ps| - 1];
      assert forall i :: 0 <= i < |init| ==> init[i] == ps[i];
      ToMap(init)[ps[|ps| - 1].0 := ps[|ps| - 1].1]
  }

  /** A key `urlencode` leaves unescaped and `recv` cannot cut: only always-safe characters. */
  predicate IsPlainKey(k: string)
  {
    forall i :: 0 <= i < |k| ==> UrlParse.IsAlwaysSafe(k[i])
  }

  /** A written pair, read back as one piece, gives its key and its value. */
  lemma FieldPiece(kv: (string, string))
    requires IsPlainKey(kv.0) && ' ' !in kv.1
    ensures Key(UrlParse.Field(kv)) == kv.0 && Value(UrlParse.Field(kv)) == kv.1
    ensures '&' !in UrlParse.Field(kv)
  {
    var q := UrlParse.QuotePlus(kv.1);
    var f := UrlParse.Field(kv);
    assert UrlParse.QuotePlus(kv.0) == kv.0;
    assert f == kv.0 + ['='] + q;
    FieldHasNoAmpersand(kv.0, q);
    assert '=' !in kv.0;
    Text.PartitionOfGlued(kv.0, '=', q);
    assert Text.Partition(f, '=').tail == q;
    UrlParse.UnquoteOfQuotePlus(kv.1);
  }

  lemma FieldHasNoAmpersand(k: string, q: string)
    requires IsPlainKey(k)
    requires forall i :: 0 <= i < |q| ==> UrlParse.IsAlwaysSafe(q[i]) || q[i] == '%' || q[i] == '+'
    ensures '&' !in k + ['='] + q
  {
    Text.NotInGlued(k, '=', q, '&');
  }

  lemma {:induction false} CollectOfFields(ps: seq<(string, string)>)
    requires forall i :: 0 <= i < |ps| ==> IsPlainKey(ps[i].0) && ' ' !in ps[i].1
    ensures Collect(UrlParse.Fields(ps)) == ToMap(ps)
    decreases |ps|
  {
    if |ps| > 0 {
      var fs := UrlParse.Fields(ps);
      var init := ps[..|ps| - 1];
      assert fs[..|fs| - 1] == UrlParse.Fields(init);
      FieldPiece(ps[|ps| - 1]);
      CollectOfFields(init);
    }
  }

  /** `recv` reads back, as a map, what `urlencode` wrote, for plain keys and values without spaces. */
  lemma {:induction false} ParseQueryOfUrlEncode(ps: seq<(string, string)>)
    requires |ps| >= 1
    requires forall i :: 0 <= i < |ps| ==> IsPlainKey(ps[i].0) && ' ' !in ps[i].1
    ensures ParseQuery(UrlParse.UrlEncode(ps)) == ToMap(ps)
  {
    var fs := UrlParse.Fields(ps);
    forall i | 0 <= i < |fs|
      ensures '&' !in fs[i]
    {
      FieldPiece(ps[i]);
    }
    Text.SplitOfJoin(fs, '&');
    CollectOfFields(ps);
  }

  /** `urlencode` never writes a space: `quote_plus` turns spaces into `+`. */
  lemma UrlEncodeHasNoSpace(ps: seq<(string, string)>)
    ensures ' ' !in UrlParse.UrlEncode(ps)
  {
    var fs := UrlParse.Fields(ps);
    forall i | 0 <= i < |fs|
      ensures ' ' !in fs[i]
    {
      var k, v := UrlParse.QuotePlus(ps[i].0), UrlParse.QuotePlus(ps[i].1);
      assert fs[i] == k + ['='] + v;
      Text.NotInGlued(k, '=', v, ' ');
    }
    JoinKeeps(fs, '&', ' ');
  }

  /** For a redirect `verb prefix?query rest`, `recv` parses exactly `query`. */
  lemma ParseCallbackOfRedirect(verb: string, prefix: string, query: string, rest: string)
    requires ' ' !in verb && ' ' !in prefix && '?' !in prefix && ' ' !in query
    requires rest == "" || rest[0] == ' '
    ensures ParseCallback(verb + " " + prefix + "?" + query + rest) == Some(ParseQuery(query))
  {
    var path := prefix + ['?'] + query;
    Text.NotInGlued(prefix, '?', query, ' ');
    assert verb + " " + prefix + "?" + query + rest == verb + " " + path + rest;
    RequestPathOfLine(verb, path, rest);
    Text.PartitionOfGlued(prefix, '?', query);
  }

  /**
   * End to end: a redirect whose query is the `urlencode` of `ps` is
   * received as the map of `ps`.
   */
  lemma CallbackOfRedirect(verb: string, prefix: string, ps: seq<(string, string)>, rest: string)
    requires ' ' !in verb && ' ' !in prefix && '?' !in prefix
    requires rest == "" || rest[0] == ' '
    requires |ps| >= 1
    requires forall i :: 0 <= i < |ps| ==> IsPlainKey(ps[i].0) && ' ' !in ps[i].1
    ensures ParseCallback(verb + " " + prefix + "?" + UrlParse.UrlEncode(ps) + rest) == Some(ToMap(ps))
  {
    UrlEncodeHasNoSpace(ps);
    ParseCallbackOfRedirect(verb, prefix, UrlParse.UrlEncode(ps), rest);
    ParseQueryOfUrlEncode(ps);
  }

  /** Joining pieces free of `x` with a separator other than `x` gives text free of `x`. */
  lemma {:induction false} JoinKeeps(xs: seq<string>, c: char, x: char)
    requires c != x
    requires forall i :: 0 <= i < |xs| ==> x !in xs[i]
    ensures x !in Text.Join(xs, c)
    decreases |xs|
  {
    if |xs| > 1 {
      JoinKeeps(xs[1..], c, x);
    }
  }

  /** Keys are taken as written while values are percent-decoded. */
  lemma KeysAreNotDecoded()
    ensures Key("%41=%41") == "%41" && Value("%41=%41") == "A"
  {
    assert "%41=%41" == "%41" + ['='] + "%41";
    Text.PartitionOfGlued("%41", '=', "%41");
    UrlParse.DecodeRunsOfAscii("%41");
    assert UrlParse.UnquoteToBytes("%41") == [0x41];
    assert Utf8.Decode([0x41]) == "A";
  }
}
