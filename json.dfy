/** The JSON values that filters are written in, and the string quoting of a
    JSON serialiser. */
module Json {
  import opened JavaText

  /** A JSON value as a JSON library hands it to the filter code: objects are
      entry lists (keys are checked by the parser, so a key may be any value),
      numbers are integers, and `JOther` is any value of another kind
      (a boolean or a floating-point number). */
  datatype Json =
    | JNull
    | JInt(i: int)
    | JStr(s: string)
    | JOther(name: string)
    | JArray(items: seq<Json>)
    | JObject(entries: seq<(Json, Json)>)

  /** A one-entry object with a string key. */
  function Entry(key: string, value: Json): (j: Json)
    ensures j.JObject? && |j.entries| == 1
  {
    JObject([(JStr(key), value)])
  }

  function HexDigit(d: int): (c: char)
    requires 0 <= d < 16
  {
    if d < 10 then (d + '0' as int) as char else (d - 10 + 'A' as int) as char
  }

  /** The escaped form of one character inside a JSON string: quote,
      backslash and the control characters below U+0020 are escaped,
      everything else is written as is. */
  function EscapeChar(c: char): (e: string)
    ensures |e| >= 1
    ensures c != '"' && c != '\\' && c as int >= 0x20 ==> e == [c]
    ensures e[0] == c || e[0] == '\\'
  {
    if c == '"' then "\\\""
    else if c == '\\' then "\\\\"
    else if c == '\n' then "\\n"
    else if c == '\r' then "\\r"
    else if c == '\t' then "\\t"
    else if c as int == 8 then "\\b"
    else if c as int == 12 then "\\f"
    else if c as int < 0x20 then
      "\\u00" + [HexDigit(c as int / 16), HexDigit(c as int % 16)]
    else [c]
  }

  function EscapeChars(s: string): (e: string)
    ensures |e| >= |s|
    ensures (forall k :: 0 <= k < |s| ==> s[k] != '"' && s[k] != '\\' && s[k] as int >= 0x20)
      ==> e == s
  {
    if |s| == 0 then "" else EscapeChar(s[0]) + EscapeChars(s[1..])
  }

  /** A string written as a JSON string literal. */
  function Quote(s: string): (q: string)
    ensures |q| >= |s| + 2 && q[0] == '"' && q[|q| - 1] == '"'
  {
    "\"" + EscapeChars(s) + "\""
  }

  lemma {:induction false} EscapedHasNoBareQuote(s: string)
    ensures forall k :: 0 <= k < |EscapeChars(s)| && EscapeChars(s)[k] == '"' ==>
              k > 0 && EscapeChars(s)[k - 1] == '\\'
  {
    if |s| > 0 {
      EscapedHasNoBareQuote(s[1..]);
      var head, tail := EscapeChar(s[0]), EscapeChars(s[1..]);
      assert EscapeChars(s) == head + tail;
      forall k | 0 <= k < |head + tail| && (head + tail)[k] == '"'
        ensures k > 0 && (head + tail)[k - 1] == '\\'
      {
        if k >= |head| {
          assert tail[k - |head|] == '"';
          if k - |head| == 0 {
            assert false;
          }
        }
      }
    }
  }
}
