/**
 * The text `send` shows to the operator and the browser at the end of a
 * flow. The templates are kept as written, including the key spelled
 * `refesh-token` in the instructions and `refresh-token` in the example.
 */
module Messages {
  import opened Wrappers
  import Text

  /** `OAUTH1_MSG_TEMPLATE.format(category=..., token=..., token_secret=...)`. */
  function OAuth1Message(category: string, token: string, tokenSecret: string): (m: string)
    ensures Text.Contains(m, token + "\n" + tokenSecret)
    ensures Text.Contains(m, "\"access-token\": \"" + token + "\"")
    ensures Text.Contains(m, "\"access-token-secret\": \"" + tokenSecret + "\"")
  {
    var head := "\nYour Access Token and Access Token Secret are\n\n";
    var pair := token + "\n" + tokenSecret;
    var keys := "\n\nPut these values into your configuration file as\n'extractor." + category
      + ".access-token' and\n'extractor." + category + ".access-token-secret'.\n\nExample:\n{\n"
      + "    \"extractor\": {\n        \"" + category + "\": {\n            ";
    var tokenLine := "\"access-token\": \"" + token + "\"";
    var sep := ",\n            ";
    var secretLine := "\"access-token-secret\": \"" + tokenSecret + "\"";
    var tail := "\n        }\n    }\n}\n";
    Text.ContainsSelf(pair);
    Text.ContainsExtendLeft(head, pair, pair);
    Text.ContainsExtendRight(head + pair, keys, pair);
    Text.ContainsSelf(tokenLine);
    Text.ContainsExtendLeft(head + pair + keys, tokenLine, tokenLine);
    Text.ContainsExtendRight(head + pair + keys, tokenLine, pair);
    Text.ContainsExtendRight(head + pair + keys + tokenLine, sep, pair);
    Text.ContainsExtendRight(head + pair + keys + tokenLine, sep, tokenLine);
    Text.ContainsSelf(secretLine);
    Text.ContainsExtendLeft(head + pair + keys + tokenLine + sep, secretLine, secretLine);
    Text.ContainsExtendRight(head + pair + keys + tokenLine + sep, secretLine, pair);
    Text.ContainsExtendRight(head + pair + keys + tokenLine + sep, secretLine, tokenLine);
    var body := head + pair + keys + tokenLine + sep + secretLine;
    Text.ContainsExtendRight(body, tail, pair);
    Text.ContainsExtendRight(body, tail, tokenLine);
    Text.ContainsExtendRight(body, tail, secretLine);
    body + tail
  }

  /** `OAUTH2_MSG_TEMPLATE.format(category=..., token=...)`. */
  function OAuth2Message(category: string, token: string): (m: string)
    ensures Text.Contains(m, "\n" + token + "\n")
    ensures Text.Contains(m, "'extractor." + category + ".refesh-token'")
    ensures Text.Contains(m, "\"refresh-token\": \"" + token + "\"")
  {
    var head := "\nYour Refresh Token is\n";
    var tokenBlock := "\n" + token + "\n";
    var intro := "\nPut this value into your configuration file as\n";
    var key := "'extractor." + category + ".refesh-token'";
    var mid := ".\n\nExample:\n{\n    \"extractor\": {\n        \"" + category + "\": {\n            ";
    var tokenLine := "\"refresh-token\": \"" + token + "\"";
    var tail := "\n        }\n    }\n}\n";
    Text.ContainsSelf(tokenBlock);
    Text.ContainsExtendLeft(head, tokenBlock, tokenBlock);
    Text.ContainsExtendRight(head + tokenBlock, intro, tokenBlock);
    Text.ContainsExtendRight(head + tokenBlock + intro, key, tokenBlock);
    Text.ContainsSelf(key);
    Text.ContainsExtendLeft(head + tokenBlock + intro, key, key);
    var upToKey := head + tokenBlock + intro + key;
    Text.ContainsExtendRight(upToKey, mid, tokenBlock);
    Text.ContainsExtendRight(upToKey, mid, key);
    Text.ContainsExtendRight(upToKey + mid, tokenLine, tokenBlock);
    Text.ContainsExtendRight(upToKey + mid, tokenLine, key);
    Text.ContainsSelf(tokenLine);
    Text.ContainsExtendLeft(upToKey + mid, tokenLine, tokenLine);
    var body := upToKey + mid + tokenLine;
    Text.ContainsExtendRight(body, tail, tokenBlock);
    Text.ContainsExtendRight(body, tail, key);
    Text.ContainsExtendRight(body, tail, tokenLine);
    body + tail
  }

  /** Python's `str()` of an optional string: `None` prints as "None". */
  function PyStr(o: Option<string>): string
  {
    match o
    case Some(s) => s
    case None => "None"
  }

  /** `"'state' mismatch: expected {}, got {}.".format(expected, got)`. */
  function StateMismatchMessage(expected: string, got: Option<string>): (m: string)
    ensures Text.Contains(m, "expected " + expected + ", got " + PyStr(got) + ".")
  {
    var detail := "expected " + expected + ", got " + PyStr(got) + ".";
    Text.ContainsSelf(detail);
    Text.ContainsExtendLeft("'state' mismatch: ", detail, detail);
    "'state' mismatch: " + detail
  }
}
