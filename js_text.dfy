/** The part of JavaScript's string semantics the web pages rely on:
    `String.prototype.trim`, which removes white space and line terminators
    as ECMAScript defines them, a different set from Java's `String.trim`. */
module JsText {

  /** ECMAScript WhiteSpace and LineTerminator: tab, line feed, vertical tab,
      form feed, carriage return, the space separators (U+0020, U+00A0,
      U+1680, U+2000 to U+200A, U+202F, U+205F, U+3000), U+FEFF and the line
      and paragraph separators U+2028 and U+2029. */
  predicate IsSpace(c: char) {
    var n := c as int;
    (0x9 <= n <= 0xD) || n == 0x20 || n == 0xA0 || n == 0x1680 ||
    (0x2000 <= n <= 0x200A) || n == 0x2028 || n == 0x2029 || n == 0x202F ||
    n == 0x205F || n == 0x3000 || n == 0xFEFF
  }

  function TrimStart(s: string): (r: string)
    ensures |r| <= |s| && r == s[|s| - |r|..]
    ensures |r| > 0 ==> !IsSpace(r[0])
    ensures forall i :: 0 <= i < |s| - |r| ==> IsSpace(s[i])
  {
    if |s| > 0 && IsSpace(s[0]) then TrimStart(s[1..]) else s
  }

  function TrimEnd(s: string): (r: string)
    ensures |r| <= |s| && r == s[..|r|]
    ensures |r| > 0 ==> !IsSpace(r[|r| - 1])
    ensures forall i :: |r| <= i < |s| ==> IsSpace(s[i])
  {
    if |s| > 0 && IsSpace(s[|s| - 1]) then TrimEnd(s[..|s| - 1]) else s
  }

  /** `s.trim()`: the string without white space at either end; empty
      exactly when every character is white space. */
  function Trim(s: string): (r: string)
    ensures |r| <= |s|
    ensures |r| > 0 ==> !IsSpace(r[0]) && !IsSpace(r[|r| - 1])
    ensures r == [] <==> forall i :: 0 <= i < |s| ==> IsSpace(s[i])
    ensures (|s| == 0 || (!IsSpace(s[0]) && !IsSpace(s[|s| - 1]))) ==> r == s
  {
    var t := TrimStart(s);
    var r := TrimEnd(t);
    assert r != [] ==> !IsSpace(s[|s| - |t|]) by {
      if r != [] {
        assert t[0] == r[0];
      }
    }
    r
  }

  /** A trailing white-space character is removed from text whose ends are
      not white space. */
  lemma TrimDropsTrailing(t: string, c: char)
    requires |t| > 0 && !IsSpace(t[0]) && !IsSpace(t[|t| - 1]) && IsSpace(c)
    ensures Trim(t + [c]) == t
  {
    var s := t + [c];
    assert TrimStart(s) == s;
    assert s[..|s| - 1] == t;
  }

  /** Trimming twice is trimming once. */
  lemma TrimIdempotent(s: string)
    ensures Trim(Trim(s)) == Trim(s)
  {
  }

  /** Unlike Java's `trim`, JavaScript's keeps the control characters below
      U+0009 and removes the no-break space U+00A0. */
  lemma TrimDiffersFromJava()
    ensures Trim("\U{1}abc") == "\U{1}abc"
    ensures Trim("abc\U{A0}") == "abc"
  {
    var s: string := "\U{1}abc";
    assert !IsSpace(s[0]) && !IsSpace(s[|s| - 1]);
    var t: string := "abc";
    assert !IsSpace(t[0]) && !IsSpace(t[|t| - 1]);
    TrimDropsTrailing(t, '\U{A0}');
    assert t + ['\U{A0}'] == "abc\U{A0}";
  }
}
