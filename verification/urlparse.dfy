/**
 * The parts of Python's `urllib.parse` the broker relies on: `unquote`
 * (used on callback values) and `urlencode` with its default `quote_plus`
 * (used to build authorization URLs). `unquote` leaves `+` alone, while
 * `quote_plus` writes a space as `+`; the two are inverse only on text
 * without spaces.
 */
module UrlParse {
  import opened Utf8
  import Text

  predicate IsAscii(c: char)
  {
    c as int < 0x80
  }

  predicate IsHexDigit(c: char)
  {
    '0' <= c <= '9' || 'a' <= c <= 'f' || 'A' <= c <= 'F'
  }

  function HexValue(c: char): (v: nat)
    requires IsHexDigit(c)
    ensures v < 16
  {
    if '0' <= c <= '9' then c as int - '0' as int
    else if 'a' <= c <= 'f' then c as int - 'a' as int + 10
    else c as int - 'A' as int + 10
  }

  /** Upper-case hex digit, as `'%{:02X}'` writes it. */
  function HexDigit(v: nat): (c: char)
    requires v < 16
    ensures IsHexDigit(c) && HexValue(c) == v
    ensures IsAscii(c) && IsAlwaysSafe(c)
  {
    if v < 10 then ('0' as int + v) as char else ('A' as int + v - 10) as char
  }

  /**
   * `unquote_to_bytes`: `%XX` with two hex digits becomes the byte XX;
   * every other character, including a `%` not followed by two hex
   * digits, stands for its own UTF-8 bytes.
   */
  function UnquoteToBytes(s: string): seq<byte>
  {
    if |s| == 0 then []
    else if s[0] == '%' && |s| >= 3 && IsHexDigit(s[1]) && IsHexDigit(s[2]) then
      [(HexValue(s[1]) * 16 + HexValue(s[2])) as byte] + UnquoteToBytes(s[3..])
    else EncodeChar(s[0]) + UnquoteToBytes(s[1..])
  }

  /** Length of the longest all-ASCII prefix of `s`. */
  function AsciiRunLength(s: string): (k: nat)
    ensures k <= |s|
    ensures forall i :: 0 <= i < k ==> IsAscii(s[i])
    ensures k < |s| ==> !IsAscii(s[k])
  {
    if |s| == 0 || !IsAscii(s[0]) then 0 else 1 + AsciiRunLength(s[1..])
  }

  /**
   * The general path of `unquote`: each maximal ASCII run is turned into
   * bytes by `UnquoteToBytes` and decoded as UTF-8 with replacement;
   * non-ASCII characters are kept as they are.
   */
  function DecodeRuns(s: string): string
    decreases |s|
  {
    if |s| == 0 then ""
    else if !IsAscii(s[0]) then [s[0]] + DecodeRuns(s[1..])
    else
      var k := AsciiRunLength(s);
      Decode(UnquoteToBytes(s[..k])) + DecodeRuns(s[k..])
  }

  /** `urllib.parse.unquote(s)`, whose first line returns text without `%` unchanged. */
  function Unquote(s: string): (r: string)
    ensures '%' !in s ==> r == s
    ensures r == DecodeRuns(s)
  {
    if '%' !in s then
      DecodeRunsWithoutPercent(s);
      s
    else DecodeRuns(s)
  }

  /** Characters `quote` never escapes (Python 3.7 and later). */
  predicate IsAlwaysSafe(c: char)
  {
    'A' <= c <= 'Z' || 'a' <= c <= 'z' || '0' <= c <= '9' || c == '_' || c == '.' || c == '-' || c == '~'
  }

  /** `%XX` for every byte. */
  function PercentEncode(bs: seq<byte>): (r: string)
    ensures |r| == 3 * |bs|
    ensures forall i :: 0 <= i < |r| ==> IsAscii(r[i]) && (IsAlwaysSafe(r[i]) || r[i] == '%')
  {
    if |bs| == 0 then ""
    else ['%', HexDigit(bs[0] as int / 16), HexDigit(bs[0] as int % 16)] + PercentEncode(bs[1..])
  }

  /** How `quote_plus` writes one character. */
  function QuoteChar(c: char): (r: string)
    ensures forall i :: 0 <= i < |r| ==> IsAscii(r[i]) && (IsAlwaysSafe(r[i]) || r[i] == '%' || r[i] == '+')
  {
    if c == ' ' then "+"
    else if IsAlwaysSafe(c) then [c]
    else PercentEncode(EncodeChar(c))
  }

  /** `quote_plus(s)` with an empty `safe` set. */
  function QuotePlus(s: string): (r: string)
    ensures forall i :: 0 <= i < |r| ==> IsAscii(r[i]) && r[i] != ' '
    ensures forall i :: 0 <= i < |r| ==> IsAlwaysSafe(r[i]) || r[i] == '%' || r[i] == '+'
    ensures (forall i :: 0 <= i < |s| ==> IsAlwaysSafe(s[i])) ==> r == s
  {
    if |s| == 0 then "" else QuoteChar(s[0]) + QuotePlus(s[1..])
  }

  /** One `key=value` field of `urlencode`. */
  function Field(kv: (string, string)): string
  {
    QuotePlus(kv.0) + "=" + QuotePlus(kv.1)
  }

  function Fields(ps: seq<(string, string)>): (r: seq<string>)
    ensures |r| == |ps|
    ensures forall i :: 0 <= i < |ps| ==> r[i] == Field(ps[i])
  {
    if |ps| == 0 then [] else [Field(ps[0])] + Fields(ps[1..])
  }

  /** `urlencode(params)` over the parameters in insertion order. */
  function UrlEncode(ps: seq<(string, string)>): string
  {
    Text.Join(Fields(ps), '&')
  }

  // ---------------------------------------------------------------- proofs

  /** Without `%`, `UnquoteToBytes` is plain UTF-8 encoding. */
  lemma {:induction false} UnquoteToBytesWithoutPercent(s: string)
    requires '%' !in s
    ensures UnquoteToBytes(s) == Encode(s)
    decreases |s|
  {
    if |s| > 0 {
      assert s[0] != '%';
      assert '%' !in s[1..] by { assert forall i :: 0 <= i < |s| - 1 ==> s[1..][i] == s[i + 1]; }
      UnquoteToBytesWithoutPercent(s[1..]);
    }
  }

  /** The `'%' not in s` shortcut of `unquote` agrees with its general path. */
  lemma {:induction false} DecodeRunsWithoutPercent(s: string)
    requires '%' !in s
    ensures DecodeRuns(s) == s
    decreases |s|
  {
    if |s| > 0 {
      if !IsAscii(s[0]) {
        DecodeRunsWithoutPercent(s[1..]);
        assert s == [s[0]] + s[1..];
      } else {
        var k := AsciiRunLength(s);
        assert '%' !in s[..k] by { assert forall i :: 0 <= i < k ==> s[..k][i] == s[i]; }
        assert '%' !in s[k..] by { assert forall i :: 0 <= i < |s| - k ==> s[k..][i] == s[i + k]; }
        UnquoteToBytesWithoutPercent(s[..k]);
        DecodeEncode(s[..k]);
        DecodeRunsWithoutPercent(s[k..]);
        assert s == s[..k] + s[k..];
      }
    }
  }

  lemma {:induction false} UnquoteToBytesOfPercentEncode(bs: seq<byte>, rest: string)
    ensures UnquoteToBytes(PercentEncode(bs) + rest) == bs + UnquoteToBytes(rest)
    decreases |bs|
  {
    if |bs| == 0 {
      assert PercentEncode(bs) + rest == rest;
    } else {
      var b := bs[0] as int;
      var hi, lo := HexDigit(b / 16), HexDigit(b % 16);
      var s := PercentEncode(bs) + rest;
      assert s == ['%', hi, lo] + (PercentEncode(bs[1..]) + rest);
      assert s[3..] == PercentEncode(bs[1..]) + rest;
      assert (HexValue(hi) * 16 + HexValue(lo)) as byte == bs[0];
      UnquoteToBytesOfPercentEncode(bs[1..], rest);
      assert bs == [bs[0]] + bs[1..];
    }
  }

  lemma UnquoteToBytesOfQuoteChar(c: char, rest: string)
    requires c != ' '
    ensures UnquoteToBytes(QuoteChar(c) + rest) == EncodeChar(c) + UnquoteToBytes(rest)
  {
    if IsAlwaysSafe(c) {
      assert (QuoteChar(c) + rest)[1..] == rest;
    } else {
      UnquoteToBytesOfPercentEncode(EncodeChar(c), rest);
    }
  }

  /** Percent-decoding the `quote_plus` form of space-free text gives back its UTF-8 bytes. */
  lemma {:induction false} UnquoteToBytesOfQuotePlus(s: string)
    requires ' ' !in s
    ensures UnquoteToBytes(QuotePlus(s)) == Encode(s)
    decreases |s|
  {
    if |s| > 0 {
      assert ' ' !in s[1..] by { assert forall i :: 0 <= i < |s| - 1 ==> s[1..][i] == s[i + 1]; }
      UnquoteToBytesOfQuoteChar(s[0], QuotePlus(s[1..]));
      UnquoteToBytesOfQuotePlus(s[1..]);
    }
  }

  /** On all-ASCII text `DecodeRuns` is one UTF-8 decode of the unquoted bytes. */
  lemma DecodeRunsOfAscii(s: string)
    requires forall i :: 0 <= i < |s| ==> IsAscii(s[i])
    ensures DecodeRuns(s) == Decode(UnquoteToBytes(s))
  {
    if |s| > 0 {
      var k := AsciiRunLength(s);
      assert k == |s|;
      assert s[..k] == s;
      assert s[k..] == "";
    }
  }

  /**
   * `unquote` inverts `quote_plus` on text without spaces; a space comes
   * back as `+` (see `UnquoteKeepsPlus`).
   */
  lemma UnquoteOfQuotePlus(s: string)
    requires ' ' !in s
    ensures Unquote(QuotePlus(s)) == s
  {
    var q := QuotePlus(s);
    DecodeRunsOfAscii(q);
    UnquoteToBytesOfQuotePlus(s);
    DecodeEncode(s);
  }

  /** `unquote` does not turn `+` into a space, so a quoted space does not survive the trip. */
  lemma UnquoteKeepsPlus()
    ensures QuotePlus(" ") == "+"
    ensures Unquote("+") == "+"
  {
  }

  lemma UnquoteToBytesExample()
    ensures UnquoteToBytes("a%C3%A9%2B") == [0x61, 0xC3, 0xA9, 0x2B]
  {
    var s := "a%C3%A9%2B";
    assert UnquoteToBytes(s[10..]) == [];
    assert UnquoteToBytes(s[7..]) == [0x2B];
    assert UnquoteToBytes(s[4..]) == [0xA9, 0x2B];
    assert UnquoteToBytes(s[1..]) == [0xC3, 0xA9, 0x2B];
  }

  lemma DecodeExample()
    ensures Decode([0x61, 0xC3, 0xA9, 0x2B]) == "a\U{E9}+"
  {
    var bs: seq<byte> := [0x61, 0xC3, 0xA9, 0x2B];
    assert Decode(bs[4..]) == "";
    assert Decode(bs[3..]) == "+";
    assert DecodeStep(bs[1..]) == Step('\U{E9}', 2);
    assert Decode(bs[1..]) == "\U{E9}+";
  }

  /** Pure-ASCII text is one run: `unquote` decodes all of its bytes at once. */
  lemma UnquoteOfAscii(s: string)
    requires forall i :: 0 <= i < |s| ==> IsAscii(s[i])
    ensures Unquote(s) == Decode(UnquoteToBytes(s))
  {
    DecodeRunsOfAscii(s);
  }

  /** Escapes of a multi-byte character are put back together; `%2B` becomes `+`. */
  lemma UnquoteExample()
    ensures Unquote("a%C3%A9%2B") == "a\U{E9}+"
  {
    var s := "a%C3%A9%2B";
    var bs: seq<byte> := [0x61, 0xC3, 0xA9, 0x2B];
    UnquoteToBytesExample();
    DecodeExample();
    assert forall i :: 0 <= i < |s| ==> IsAscii(s[i]);
    UnquoteOfAscii(s);
    assert UnquoteToBytes(s) == bs;
  }
}
