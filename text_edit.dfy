/** The text input widget of the web pages: the transformers that rewrite
    what the user typed into an id, an integer or a decimal number while
    keeping the selection in place, and the reading of an id or an integer
    from the field. The input's value is split at the selection into the
    text before it, the selected text and the text after it; each
    transformer maps these three parts to three new ones. */
module TextEdit {
  import opened Wrappers
  import JavaText
  import JsText

  predicate IsDigit(c: char) {
    '0' <= c <= '9'
  }

  predicate AllDigits(s: string) {
    forall k :: 0 <= k < |s| ==> IsDigit(s[k])
  }

  /** The parts joined together. */
  function Concat(parts: seq<string>): string
    decreases |parts|
  {
    if |parts| == 0 then "" else Concat(parts[..|parts| - 1]) + parts[|parts| - 1]
  }

  /** Replacing element `i` of a list whose tail from `i` agrees with `b`. */
  lemma SetAt(a: seq<string>, b: seq<string>, i: nat, x: string)
    requires i < |a| == |b| && a[i..] == b[i..]
    ensures a[i] == b[i]
    ensures a[i := x][..i + 1] == a[..i] + [x]
    ensures a[i := x][i + 1..] == b[i + 1..]
  {
    assert a[i..][0] == a[i];
    assert a[i + 1..] == a[i..][1..];
  }

  lemma TakeSnoc(a: seq<string>, i: nat)
    requires i < |a|
    ensures a[..i + 1] == a[..i] + [a[i]]
  {
  }

  // ---------------------------------------------------------------- ids

  predicate IsIdChar(c: char) {
    'a' <= c <= 'z' || IsDigit(c) || c == '_'
  }

  /** One character of `_transformInputTypeId`: lower-cased, a space
      becomes an underscore, and anything else outside [a-z0-9_] is
      dropped. Of JavaScript's `toLowerCase`, only the results the filter
      keeps matter: the ASCII capitals, the Kelvin sign U+212A, which
      becomes 'k', and U+0130, which becomes 'i' and a combining dot that
      the filter drops; no other character lower-cases into [a-z0-9_ ]. */
  function IdChar(c: char): string {
    var l := if c == '\U{212A}' then 'k' else if c == '\U{130}' then 'i' else JavaText.LowerChar(c);
    var u := if l == ' ' then '_' else l;
    if IsIdChar(u) then [u] else []
  }

  /** `_transformInputTypeId` on one part. */
  function IdPart(s: string): (r: string)
    ensures forall k :: 0 <= k < |r| ==> IsIdChar(r[k])
    ensures |r| <= |s|
    decreases |s|
  {
    if |s| == 0 then "" else IdPart(s[..|s| - 1]) + IdChar(s[|s| - 1])
  }

  /** A part already made of id characters is kept as it is. */
  lemma {:induction false} IdPartKeeps(s: string)
    requires forall k :: 0 <= k < |s| ==> IsIdChar(s[k])
    ensures IdPart(s) == s
    decreases |s|
  {
    if |s| > 0 {
      IdPartKeeps(s[..|s| - 1]);
      IdCharKeeps(s[|s| - 1]);
      assert s == s[..|s| - 1] + [s[|s| - 1]];
    }
  }

  lemma IdCharKeeps(c: char)
    requires IsIdChar(c)
    ensures IdChar(c) == [c]
  {
    assert c != '\U{212A}' && c != '\U{130}';
  }

  /** The id transformer is idempotent. */
  lemma IdPartIdempotent(s: string)
    ensures IdPart(IdPart(s)) == IdPart(s)
  {
    IdPartKeeps(IdPart(s));
  }

  // ---------------------------------------------------------------- integers

  /** The digits of a string, in order. */
  function Digits(s: string): (r: string)
    ensures AllDigits(r) && |r| <= |s|
    decreases |s|
  {
    if |s| == 0 then ""
    else Digits(s[..|s| - 1]) + (if IsDigit(s[|s| - 1]) then [s[|s| - 1]] else "")
  }

  lemma {:induction false} DigitsKeeps(s: string)
    requires AllDigits(s)
    ensures Digits(s) == s
    decreases |s|
  {
    if |s| > 0 {
      DigitsKeeps(s[..|s| - 1]);
    }
  }

  /** The characters that the first pass of the integer transformer keeps:
      digits and '-'. */
  function IntChars(s: string): (r: string)
    ensures forall k :: 0 <= k < |r| ==> IsDigit(r[k]) || r[k] == '-'
    decreases |s|
  {
    if |s| == 0 then ""
    else IntChars(s[..|s| - 1]) + (if IsDigit(s[|s| - 1]) || s[|s| - 1] == '-' then [s[|s| - 1]] else "")
  }

  lemma {:induction false} IntCharsKeeps(s: string)
    requires forall k :: 0 <= k < |s| ==> IsDigit(s[k]) || s[k] == '-'
    ensures IntChars(s) == s
    decreases |s|
  {
    if |s| > 0 {
      IntCharsKeeps(s[..|s| - 1]);
    }
  }

  predicate AllEmpty(parts: seq<string>) {
    forall j :: 0 <= j < |parts| ==> parts[j] == ""
  }

  /** The second pass of `_transformInputTypeInt` on parts that hold only
      digits and '-': each part keeps its digits, preceded by '-' when it
      starts with one and every part before it came out empty. */
  function SignedParts(parts: seq<string>): (r: seq<string>)
    ensures |r| == |parts|
    ensures forall j :: 0 <= j < |r| ==> Digits(r[j]) == Digits(parts[j])
    decreases |parts|
  {
    if |parts| == 0 then []
    else
      var prev := SignedParts(parts[..|parts| - 1]);
      var p := parts[|parts| - 1];
      var sign := if AllEmpty(prev) && |p| > 0 && p[0] == '-' then "-" else "";
      SignedDigitsKept(sign, Digits(p));
      prev + [sign + Digits(p)]
  }

  lemma SignedDigitsKept(sign: string, d: string)
    requires sign == "" || sign == "-"
    requires AllDigits(d)
    ensures Digits(sign + d) == d
  {
    DigitsKeeps(d);
    if sign == "-" {
      DigitsAfterSign(d);
    } else {
      assert sign + d == d;
    }
  }

  lemma {:induction false} DigitsAfterSign(d: string)
    ensures Digits("-" + d) == Digits(d)
    decreases |d|
  {
    if |d| > 0 {
      DigitsAfterSign(d[..|d| - 1]);
      assert ("-" + d)[..|d|] == "-" + d[..|d| - 1];
    } else {
      assert Digits("-") == Digits("") + "";
    }
  }

  lemma SignedPartsSnoc(parts: seq<string>, i: nat)
    requires i < |parts|
    ensures SignedParts(parts[..i + 1]) ==
              SignedParts(parts[..i]) +
              [(if AllEmpty(SignedParts(parts[..i])) && |parts[i]| > 0 && parts[i][0] == '-' then "-" else "") + Digits(parts[i])]
  {
    assert parts[..i + 1][..i] == parts[..i];
  }

  lemma AllEmptySnoc(parts: seq<string>, x: string)
    ensures AllEmpty(parts + [x]) <==> AllEmpty(parts) && x == ""
  {
    if AllEmpty(parts + [x]) {
      assert (parts + [x])[|parts|] == x;
      forall j | 0 <= j < |parts| ensures parts[j] == "" {
        assert (parts + [x])[j] == parts[j];
      }
    }
  }

  /** The first pass of the integer transformer on every part. */
  function IntCharsEach(parts: seq<string>): (r: seq<string>)
    ensures |r| == |parts| && forall j :: 0 <= j < |parts| ==> r[j] == IntChars(parts[j])
    decreases |parts|
  {
    if |parts| == 0 then [] else IntCharsEach(parts[..|parts| - 1]) + [IntChars(parts[|parts| - 1])]
  }

  /** `_transformInputTypeInt` as a function of the parts. */
  function IntTransform(parts: seq<string>): seq<string> {
    SignedParts(IntCharsEach(parts))
  }

  /** Text that starts an integer: an optional '-' and digits. */
  predicate IntPrefix(s: string) {
    forall k :: 0 <= k < |s| ==> IsDigit(s[k]) || (k == 0 && s[k] == '-')
  }

  lemma {:induction false} ConcatAllEmpty(parts: seq<string>)
    requires AllEmpty(parts)
    ensures Concat(parts) == ""
    decreases |parts|
  {
    if |parts| > 0 {
      ConcatAllEmpty(parts[..|parts| - 1]);
    }
  }

  /** The joined parts of the integer transformer start an integer: '-'
      survives only as the first character of the first non-empty part. */
  lemma {:induction false} SignedPartsIntPrefix(parts: seq<string>)
    ensures IntPrefix(Concat(SignedParts(parts)))
    decreases |parts|
  {
    if |parts| > 0 {
      var init := parts[..|parts| - 1];
      var prev := SignedParts(init);
      SignedPartsIntPrefix(init);
      var r := SignedParts(parts);
      assert r[..|r| - 1] == prev;
      var x := r[|r| - 1];
      if AllEmpty(prev) {
        ConcatAllEmpty(prev);
        assert Concat(r) == x;
      } else {
        assert AllDigits(x);
      }
    }
  }

  lemma IntTransformIntPrefix(parts: seq<string>)
    ensures IntPrefix(Concat(IntTransform(parts)))
  {
    SignedPartsIntPrefix(IntCharsEach(parts));
  }

  /** The second pass changes nothing on its own output. */
  lemma {:induction false} SignedPartsIdempotent(parts: seq<string>)
    requires forall j, k :: 0 <= j < |parts| && 0 <= k < |parts[j]| ==> IsDigit(parts[j][k]) || parts[j][k] == '-'
    ensures SignedParts(SignedParts(parts)) == SignedParts(parts)
    decreases |parts|
  {
    if |parts| > 0 {
      var init := parts[..|parts| - 1];
      var r := SignedParts(parts);
      var prev := SignedParts(init);
      SignedPartsIdempotent(init);
      assert r[..|r| - 1] == prev;
      var x := r[|r| - 1];
      var p := parts[|parts| - 1];
      DigitsKeeps(Digits(p));
      if |x| > 0 && x[0] == '-' {
        assert AllEmpty(prev) && |p| > 0 && p[0] == '-';
        assert x == "-" + Digits(p);
        SignedDigitsKept("-", Digits(p));
      } else {
        assert AllDigits(x);
        DigitsKeeps(x);
      }
    }
  }

  /** The integer transformer is idempotent. */
  lemma IntTransformIdempotent(parts: seq<string>)
    ensures IntTransform(IntTransform(parts)) == IntTransform(parts)
  {
    var cleaned := IntCharsEach(parts);
    var out := SignedParts(cleaned);
    assert forall j, k :: 0 <= j < |out| && 0 <= k < |out[j]| ==> IsDigit(out[j][k]) || out[j][k] == '-' by {
      SignedPartsShape(cleaned);
    }
    forall j | 0 <= j < |out|
      ensures IntChars(out[j]) == out[j]
    {
      IntCharsKeeps(out[j]);
    }
    assert IntCharsEach(out) == out;
    SignedPartsIdempotent(cleaned);
  }

  lemma {:induction false} SignedPartsShape(parts: seq<string>)
    ensures forall j, k :: 0 <= j < |SignedParts(parts)| && 0 <= k < |SignedParts(parts)[j]| ==>
              IsDigit(SignedParts(parts)[j][k]) || SignedParts(parts)[j][k] == '-'
    decreases |parts|
  {
    if |parts| > 0 {
      SignedPartsShape(parts[..|parts| - 1]);
    }
  }

  /** `_transformInputTypeNonNegInt` keeps only the digits of each part,
      and doing it twice is doing it once. */
  lemma DigitsIdempotent(s: string)
    ensures Digits(Digits(s)) == Digits(s)
  {
    DigitsKeeps(Digits(s));
  }

  // ---------------------------------------------------------------- decimals

  /** Where the decimal transformer stands in the number it builds. */
  datatype FloatPos = Start | AfterSign | InInt | AfterDecSep

  /** The state names the source uses; the step out of "inInt" at a
      separator appends to the name and so yields "inIntafterDecSep". */
  function Tag(p: FloatPos): string {
    match p
    case Start => "start"
    case AfterSign => "afterSign"
    case InInt => "inInt"
    case AfterDecSep => "inIntafterDecSep"
  }

  /** One character of the decimal transformer, on named states as
      written. */
  function FloatStepAsWritten(currPos: string, c: char, decSep: char): (string, string) {
    if currPos == "start" then
      if c == '-' then ("afterSign", [c])
      else if IsDigit(c) then ("inInt", [c])
      else (currPos, "")
    else if currPos == "afterSign" then
      if IsDigit(c) then ("inInt", [c]) else (currPos, "")
    else if currPos == "inInt" then
      if c == decSep then (currPos + "afterDecSep", [c])
      else if IsDigit(c) then (currPos, [c])
      else (currPos, "")
    else
      if IsDigit(c) then (currPos, [c]) else (currPos, "")
  }

  /** One character of the decimal transformer: the new position and the
      text it emits. */
  function FloatStep(p: FloatPos, c: char, decSep: char): (FloatPos, string) {
    match p
    case Start =>
      if c == '-' then (AfterSign, [c]) else if IsDigit(c) then (InInt, [c]) else (Start, "")
    case AfterSign =>
      if IsDigit(c) then (InInt, [c]) else (AfterSign, "")
    case InInt =>
      if c == decSep then (AfterDecSep, [c]) else if IsDigit(c) then (InInt, [c]) else (InInt, "")
    case AfterDecSep =>
      if IsDigit(c) then (AfterDecSep, [c]) else (AfterDecSep, "")
  }

  /** The state name built at line 345 is not one of the names the loop
      tests, but the branch it falls into is the one meant for the state
      after the separator: the named machine does what the intended one
      does. */
  lemma StepAsWrittenAgrees(p: FloatPos, c: char, decSep: char)
    ensures FloatStepAsWritten(Tag(p), c, decSep) == (Tag(FloatStep(p, c, decSep).0), FloatStep(p, c, decSep).1)
  {
    assert "inInt" + "afterDecSep" == "inIntafterDecSep";
    if p == AfterDecSep {
      assert Tag(p)[0] == 'i' && |Tag(p)| != |"inInt"|;
    }
  }

  /** The decimal transformer over the characters of one part. */
  function FloatRun(p: FloatPos, s: string, decSep: char): (FloatPos, string)
    decreases |s|
  {
    if |s| == 0 then (p, "")
    else
      var (q, out) := FloatRun(p, s[..|s| - 1], decSep);
      var (q', o) := FloatStep(q, s[|s| - 1], decSep);
      (q', out + o)
  }

  /** The decimal transformer over the parts: the position carries over
      from one part to the next. */
  function FloatParts(parts: seq<string>, decSep: char): (r: (FloatPos, seq<string>))
    ensures |r.1| == |parts|
    decreases |parts|
  {
    if |parts| == 0 then (Start, [])
    else
      var (p, outs) := FloatParts(parts[..|parts| - 1], decSep);
      var (q, out) := FloatRun(p, parts[|parts| - 1], decSep);
      (q, outs + [out])
  }

  lemma FloatPartsSnoc(parts: seq<string>, i: nat, decSep: char)
    requires i < |parts|
    ensures var (p, outs) := FloatParts(parts[..i], decSep);
            FloatParts(parts[..i + 1], decSep) == (FloatRun(p, parts[i], decSep).0, outs + [FloatRun(p, parts[i], decSep).1])
  {
    assert parts[..i + 1][..i] == parts[..i];
  }

  lemma FloatRunSnoc(p: FloatPos, s: string, j: nat, decSep: char)
    requires j < |s|
    ensures var (q, out) := FloatRun(p, s[..j], decSep);
            FloatRun(p, s[..j + 1], decSep) == (FloatStep(q, s[j], decSep).0, out + FloatStep(q, s[j], decSep).1)
  {
    assert s[..j + 1][..j] == s[..j];
  }

  /** The characters the first pass keeps, with '.' and ',' turned into the
      separator. */
  function FloatChars(s: string, decSep: char): string
    decreases |s|
  {
    if |s| == 0 then ""
    else
      var c := s[|s| - 1];
      FloatChars(s[..|s| - 1], decSep) +
        (if c == '.' || c == ',' then [decSep] else if IsDigit(c) || c == '-' then [c] else "")
  }

  /** The first pass of the decimal transformer on every part. */
  function FloatCharsEach(parts: seq<string>, decSep: char): (r: seq<string>)
    ensures |r| == |parts| && forall j :: 0 <= j < |parts| ==> r[j] == FloatChars(parts[j], decSep)
    decreases |parts|
  {
    if |parts| == 0 then [] else FloatCharsEach(parts[..|parts| - 1], decSep) + [FloatChars(parts[|parts| - 1], decSep)]
  }

  function Remove(s: string, c: char): string
    decreases |s|
  {
    if |s| == 0 then "" else Remove(s[..|s| - 1], c) + (if s[|s| - 1] == c then "" else [s[|s| - 1]])
  }

  /** `_transformInputTypeFloat` as a function of the parts: after the first
      pass, a separator before the selection is dropped when there is one
      in or after it. */
  function FloatTransform(parts: seq<string>, decSep: char): seq<string>
    requires |parts| == 3
  {
    var r := FloatCharsEach(parts, decSep);
    var r' := if decSep in r[0] && (decSep in r[1] || decSep in r[2]) then r[0 := Remove(r[0], decSep)] else r;
    FloatParts(r', decSep).1
  }

  /** Digits with an optional leading '-' and at least one digit. */
  predicate SignedNumber(s: string) {
    IntPrefix(s) && exists k :: 0 <= k < |s| && IsDigit(s[k])
  }

  /** The text emitted so far fits the position reached. */
  predicate Fits(p: FloatPos, s: string, decSep: char) {
    match p
    case Start => s == ""
    case AfterSign => s == "-"
    case InInt => SignedNumber(s)
    case AfterDecSep => exists m :: 0 < m < |s| && SignedNumber(s[..m]) && s[m] == decSep && AllDigits(s[m + 1..])
  }

  /** Text that starts a decimal number: an optional '-', digits, and at
      most one separator, placed right after a digit. */
  predicate FloatPrefix(s: string, decSep: char) {
    s == "" || s == "-" || SignedNumber(s) ||
    exists m :: 0 < m < |s| && SignedNumber(s[..m]) && s[m] == decSep && AllDigits(s[m + 1..])
  }

  lemma StepFits(p: FloatPos, s: string, c: char, decSep: char)
    requires Fits(p, s, decSep)
    ensures Fits(FloatStep(p, c, decSep).0, s + FloatStep(p, c, decSep).1, decSep)
  {
    var (q, o) := FloatStep(p, c, decSep);
    var t := s + o;
    match p
    case Start =>
      if q == InInt {
        assert IsDigit(t[0]);
      }
    case AfterSign =>
      if q == InInt {
        assert IsDigit(t[1]);
      }
    case InInt =>
      StepFitsInInt(s, c, decSep);
    case AfterDecSep =>
      StepFitsAfterDecSep(s, c, decSep);
  }

  lemma StepFitsInInt(s: string, c: char, decSep: char)
    requires Fits(InInt, s, decSep)
    ensures Fits(FloatStep(InInt, c, decSep).0, s + FloatStep(InInt, c, decSep).1, decSep)
  {
    var (q, o) := FloatStep(InInt, c, decSep);
    var t := s + o;
    var k :| 0 <= k < |s| && IsDigit(s[k]);
    assert t[k] == s[k];
    if q == AfterDecSep {
      assert t[..|s|] == s && t[|s| + 1..] == "";
    }
  }

  lemma StepFitsAfterDecSep(s: string, c: char, decSep: char)
    requires Fits(AfterDecSep, s, decSep)
    ensures Fits(AfterDecSep, s + FloatStep(AfterDecSep, c, decSep).1, decSep)
  {
    var o := FloatStep(AfterDecSep, c, decSep).1;
    var t := s + o;
    var m :| 0 < m < |s| && SignedNumber(s[..m]) && s[m] == decSep && AllDigits(s[m + 1..]);
    assert t[..m] == s[..m] && t[m + 1..] == s[m + 1..] + o;
  }

  lemma {:induction false} RunFits(p: FloatPos, prefix: string, s: string, decSep: char)
    requires Fits(p, prefix, decSep)
    ensures Fits(FloatRun(p, s, decSep).0, prefix + FloatRun(p, s, decSep).1, decSep)
    decreases |s|
  {
    if |s| > 0 {
      var before := FloatRun(p, s[..|s| - 1], decSep);
      var step := FloatStep(before.0, s[|s| - 1], decSep);
      assert FloatRun(p, s, decSep) == (step.0, before.1 + step.1);
      RunFits(p, prefix, s[..|s| - 1], decSep);
      StepFits(before.0, prefix + before.1, s[|s| - 1], decSep);
      assert prefix + before.1 + step.1 == prefix + (before.1 + step.1);
    } else {
      assert prefix + "" == prefix;
    }
  }

  lemma {:induction false} PartsFit(parts: seq<string>, decSep: char)
    ensures Fits(FloatParts(parts, decSep).0, Concat(FloatParts(parts, decSep).1), decSep)
    decreases |parts|
  {
    if |parts| > 0 {
      var (p, outs) := FloatParts(parts[..|parts| - 1], decSep);
      PartsFit(parts[..|parts| - 1], decSep);
      RunFits(p, Concat(outs), parts[|parts| - 1], decSep);
      var r := FloatParts(parts, decSep).1;
      assert r[..|r| - 1] == outs;
    }
  }

  /** The joined parts of the decimal transformer start a decimal number. */
  lemma FloatTransformPrefix(parts: seq<string>, decSep: char)
    requires |parts| == 3
    ensures FloatPrefix(Concat(FloatTransform(parts, decSep)), decSep)
  {
    var r := FloatCharsEach(parts, decSep);
    var r' := if decSep in r[0] && (decSep in r[1] || decSep in r[2]) then r[0 := Remove(r[0], decSep)] else r;
    PartsFit(r', decSep);
  }

  // ---------------------------------------------------------------- transformers as written

  /** `_transformInputTypeId`. */
  method TransformInputTypeId(preSelect: string, select: string, postSelect: string) returns (result: seq<string>)
    ensures result == [IdPart(preSelect), IdPart(select), IdPart(postSelect)]
  {
    var list := [preSelect, select, postSelect];
    result := [];
    for i := 0 to |list|
      invariant result == seq(i, j requires 0 <= j < i => IdPart(list[j]))
    {
      result := result + [IdPart(list[i])];
    }
  }

  /** `_transformInputTypeNonNegInt`. */
  method TransformInputTypeNonNegInt(preSelect: string, select: string, postSelect: string)
    returns (result: seq<string>)
    ensures result == [Digits(preSelect), Digits(select), Digits(postSelect)]
  {
    result := [preSelect, select, postSelect];
    for i := 0 to |result|
      invariant |result| == 3
      invariant forall j :: 0 <= j < i ==> result[j] == Digits([preSelect, select, postSelect][j])
      invariant forall j :: i <= j < 3 ==> result[j] == [preSelect, select, postSelect][j]
    {
      result := result[i := Digits(result[i])];
    }
  }

  /** `_transformInputTypeInt`. */
  method TransformInputTypeInt(preSelect: string, select: string, postSelect: string)
    returns (result: seq<string>)
    ensures result == IntTransform([preSelect, select, postSelect])
  {
    var parts := [preSelect, select, postSelect];
    ghost var cleaned := IntCharsEach(parts);
    result := parts;
    for i := 0 to |result|
      invariant |result| == 3
      invariant result[..i] == cleaned[..i] && result[i..] == parts[i..]
    {
      SetAt(result, parts, i, IntChars(parts[i]));
      TakeSnoc(cleaned, i);
      result := result[i := IntChars(result[i])];
    }
    assert result == result[..3];
    assert cleaned == cleaned[..3];
    var atStart := true;
    for i := 0 to |result|
      invariant |result| == 3
      invariant result[..i] == SignedParts(cleaned[..i])
      invariant result[i..] == cleaned[i..]
      invariant atStart == AllEmpty(result[..i])
    {
      SignedPartsSnoc(cleaned, i);
      ghost var done := result[..i];
      var sign := "";
      if atStart && |result[i]| > 0 && result[i][0] == '-' {
        sign := "-";
      }
      SetAt(result, cleaned, i, sign + Digits(cleaned[i]));
      result := result[i := sign + Digits(result[i])];
      AllEmptySnoc(done, result[i]);
      atStart := atStart && |result[i]| == 0;
    }
    assert result == result[..3] && cleaned == cleaned[..3];
  }

  /** `_transformInputTypeFloat`, with the state names as written. */
  method TransformInputTypeFloat(preSelect: string, select: string, postSelect: string, decSep: char)
    returns (transformed: seq<string>)
    ensures transformed == FloatTransform([preSelect, select, postSelect], decSep)
  {
    var parts := [preSelect, select, postSelect];
    ghost var cleaned := FloatCharsEach(parts, decSep);
    var result := parts;
    for i := 0 to |result|
      invariant |result| == 3
      invariant result[..i] == cleaned[..i] && result[i..] == parts[i..]
    {
      SetAt(result, parts, i, FloatChars(parts[i], decSep));
      TakeSnoc(cleaned, i);
      result := result[i := FloatChars(result[i], decSep)];
    }
    assert result == result[..3];
    assert cleaned == cleaned[..3];
    if decSep in result[0] && (decSep in result[1] || decSep in result[2]) {
      result := result[0 := Remove(result[0], decSep)];
    }
    transformed := [];
    var currPos := "start";
    for i := 0 to |result|
      invariant transformed == FloatParts(result[..i], decSep).1
      invariant currPos == Tag(FloatParts(result[..i], decSep).0)
    {
      FloatPartsSnoc(result, i, decSep);
      var part := result[i];
      var transPart := "";
      ghost var p0 := FloatParts(result[..i], decSep).0;
      for j := 0 to |part|
        invariant transPart == FloatRun(p0, part[..j], decSep).1
        invariant currPos == Tag(FloatRun(p0, part[..j], decSep).0)
      {
        FloatRunSnoc(p0, part, j, decSep);
        var c := part[j];
        StepAsWrittenAgrees(FloatRun(p0, part[..j], decSep).0, c, decSep);
        if currPos == "start" {
          if c == '-' {
            transPart := transPart + [c];
            currPos := "afterSign";
          } else if IsDigit(c) {
            transPart := transPart + [c];
            currPos := "inInt";
          }
        } else if currPos == "afterSign" {
          if IsDigit(c) {
            transPart := transPart + [c];
            currPos := "inInt";
          }
        } else if currPos == "inInt" {
          if c == decSep {
            transPart := transPart + [c];
            currPos := currPos + "afterDecSep";
          } else if IsDigit(c) {
            transPart := transPart + [c];
          }
        } else {
          if IsDigit(c) {
            transPart := transPart + [c];
          }
        }
      }
      assert part[..|part|] == part;
      transformed := transformed + [transPart];
    }
    assert result[..3] == result;
  }

  // ---------------------------------------------------------------- the input field

  /** Which transformer the widget was given, if any. */
  datatype Transformer = IdTransformer | IntTransformer | NonNegIntTransformer | FloatTransformer(decSep: char)

  lemma SplitJoined(a: string, b: string, c: string)
    ensures (a + b + c)[..|a|] == a && (a + b + c)[|a|..|a| + |b|] == b && (a + b + c)[|a| + |b|..] == c
  {
  }

  /** What a transformer makes of the three parts. */
  function Transform(t: Transformer, parts: seq<string>): (r: seq<string>)
    requires |parts| == 3
    ensures |r| == 3
  {
    match t
    case IdTransformer => [IdPart(parts[0]), IdPart(parts[1]), IdPart(parts[2])]
    case IntTransformer => IntTransform(parts)
    case NonNegIntTransformer => [Digits(parts[0]), Digits(parts[1]), Digits(parts[2])]
    case FloatTransformer(decSep) => FloatTransform(parts, decSep)
  }

  /** The id, integer and non-negative integer transformers are
      idempotent. */
  lemma TransformIdempotent(t: Transformer, parts: seq<string>)
    requires |parts| == 3 && !t.FloatTransformer?
    ensures Transform(t, Transform(t, parts)) == Transform(t, parts)
  {
    match t
    case IdTransformer =>
      IdPartIdempotent(parts[0]);
      IdPartIdempotent(parts[1]);
      IdPartIdempotent(parts[2]);
    case IntTransformer =>
      IntTransformIdempotent(parts);
    case NonNegIntTransformer =>
      DigitsIdempotent(parts[0]);
      DigitsIdempotent(parts[1]);
      DigitsIdempotent(parts[2]);
  }

  /** The call of the transformer the widget was given. */
  method ApplyTransformer(transformer: Transformer, preSelect: string, select: string, postSelect: string)
    returns (t: seq<string>)
    ensures t == Transform(transformer, [preSelect, select, postSelect])
  {
    match transformer {
      case IdTransformer =>
        t := TransformInputTypeId(preSelect, select, postSelect);
      case IntTransformer =>
        t := TransformInputTypeInt(preSelect, select, postSelect);
      case NonNegIntTransformer =>
        t := TransformInputTypeNonNegInt(preSelect, select, postSelect);
      case FloatTransformer(decSep) =>
        t := TransformInputTypeFloat(preSelect, select, postSelect, decSep);
    }
  }

  /** The input element: its value and its selection. */
  class TextInput {
    var value: string
    var selectionStart: nat
    var selectionEnd: nat

    predicate Valid()
      reads this
    {
      selectionStart <= selectionEnd <= |value|
    }

    /** The value split at the selection. */
    function Parts(): (r: seq<string>)
      reads this
      requires Valid()
      ensures |r| == 3
    {
      [value[..selectionStart], value[selectionStart..selectionEnd], value[selectionEnd..]]
    }

    constructor (value: string, selectionStart: nat, selectionEnd: nat)
      requires selectionStart <= selectionEnd <= |value|
      ensures this.value == value && this.selectionStart == selectionStart && this.selectionEnd == selectionEnd
      ensures Valid()
    {
      this.value := value;
      this.selectionStart := selectionStart;
      this.selectionEnd := selectionEnd;
    }

    /** `_onInputTransform`: the input is left alone when the transformer
        changes nothing; otherwise the value becomes the joined new parts
        and the selection covers the new selected part. */
    method OnInputTransform(transformer: Option<Transformer>)
      requires Valid()
      modifies this
      ensures Valid()
      ensures transformer.None? || Transform(transformer.value, old(Parts())) == old(Parts()) ==>
                value == old(value) && selectionStart == old(selectionStart) && selectionEnd == old(selectionEnd)
      ensures transformer.Some? ==> Parts() == Transform(transformer.value, old(Parts()))
    {
      if transformer.None? {
        return;
      }
      var preSelect := value[..selectionStart];
      var select := value[selectionStart..selectionEnd];
      var postSelect := value[selectionEnd..];
      ghost var parts := [preSelect, select, postSelect];
      assert old(Parts()) == parts;
      var t := ApplyTransformer(transformer.value, preSelect, select, postSelect);
      assert t == [t[0], t[1], t[2]];
      if preSelect == t[0] && select == t[1] && postSelect == t[2] {
        assert t == parts;
        return;
      }
      assert t != parts;
      value := t[0] + t[1] + t[2];
      selectionStart := |t[0]|;
      selectionEnd := selectionStart + |t[1]|;
      SplitJoined(t[0], t[1], t[2]);
    }
  }

  /** After an idempotent transformer ran, running it again leaves the
      input alone. */
  lemma TransformSettles(t: Transformer, parts: seq<string>)
    requires |parts| == 3 && !t.FloatTransformer?
    ensures var once := Transform(t, parts);
            Transform(t, once) == once
  {
    TransformIdempotent(t, parts);
  }

  // ---------------------------------------------------------------- reading values

  /** What reading the field gives: a value, an empty field that is
      allowed, or an invalid field (marked with an error). */
  datatype Read<T> = Value(value: T) | Empty | Invalid

  predicate IsId(s: string) {
    |s| > 0 && 'a' <= s[0] <= 'z' && forall k :: 0 <= k < |s| ==> IsIdChar(s[k])
  }

  /** `readId`: the trimmed value; empty is allowed only when asked for;
      otherwise it must match [a-z][a-z0-9_]*. */
  function ReadId(value: string, allowEmpty: bool): (r: Read<string>)
    ensures r.Value? ==> IsId(r.value) && r.value == JsText.Trim(value)
    ensures r == Empty <==> JsText.Trim(value) == [] && allowEmpty
    ensures r == Invalid <==> (JsText.Trim(value) == [] && !allowEmpty) ||
                              (JsText.Trim(value) != [] && !IsId(JsText.Trim(value)))
  {
    var id := JsText.Trim(value);
    if |id| == 0 then (if !allowEmpty then Invalid else Empty)
    else if !IsId(id) then Invalid
    else Value(id)
  }

  /** What the id transformer leaves is read back as that id when it starts
      with a letter. */
  lemma TransformedIdAccepted(s: string, allowEmpty: bool)
    requires |IdPart(s)| > 0 && 'a' <= IdPart(s)[0] <= 'z'
    ensures ReadId(IdPart(s), allowEmpty) == Value(IdPart(s))
  {
    var id := IdPart(s);
    assert !JsText.IsSpace(id[0]) && !JsText.IsSpace(id[|id| - 1]);
    assert IsId(id);
  }

  function DigitValue(c: char): int {
    c as int - '0' as int
  }

  /** The value of a string of decimal digits. */
  function DecimalValue(s: string): (r: nat)
    requires AllDigits(s)
    decreases |s|
  {
    if |s| == 0 then 0 else DecimalValue(s[..|s| - 1]) * 10 + DigitValue(s[|s| - 1])
  }

  predicate IsIntText(s: string) {
    |s| > 0 && (AllDigits(s) || (s[0] == '-' && |s| > 1 && AllDigits(s[1..])))
  }

  /** Digits with an optional leading '-' match -?[0-9]+ and have nothing
      for `trim` to remove. */
  lemma SignedNumberReadable(s: string)
    requires SignedNumber(s)
    ensures IsIntText(s) && JsText.Trim(s) == s
  {
    var k :| 0 <= k < |s| && IsDigit(s[k]);
    NumberUntrimmed(s);
    if !AllDigits(s) {
      assert s[0] == '-' && |s| > 1;
    }
  }

  /** `parseInt` of a string matching -?[0-9]+. */
  function IntValue(s: string): int
    requires IsIntText(s)
  {
    if AllDigits(s) then DecimalValue(s) else 0 - DecimalValue(s[1..]) as int
  }

  /** `readInt`: the trimmed value; empty is allowed only when asked for;
      otherwise it must match -?[0-9]+ and lie within the bounds given. */
  function ReadInt(value: string, min: Option<int>, max: Option<int>, allowEmpty: bool): (r: Read<int>)
    ensures r.Value? ==> IsIntText(JsText.Trim(value)) && r.value == IntValue(JsText.Trim(value))
    ensures r.Value? ==> (min.None? || min.value <= r.value) && (max.None? || r.value <= max.value)
    ensures r == Empty <==> JsText.Trim(value) == [] && allowEmpty
    ensures JsText.Trim(value) != [] && !IsIntText(JsText.Trim(value)) ==> r == Invalid
    ensures var t := JsText.Trim(value);
            IsIntText(t) && (min.None? || min.value <= IntValue(t)) && (max.None? || IntValue(t) <= max.value) ==>
              r == Value(IntValue(t))
    ensures var t := JsText.Trim(value);
            IsIntText(t) && ((min.Some? && IntValue(t) < min.value) || (max.Some? && IntValue(t) > max.value)) ==>
              r == Invalid
  {
    var valueStr := JsText.Trim(value);
    if |valueStr| == 0 then (if !allowEmpty then Invalid else Empty)
    else if !IsIntText(valueStr) then Invalid
    else
      var result := IntValue(valueStr);
      if (min.Some? && result < min.value) || (max.Some? && result > max.value) then Invalid
      else Value(result)
  }

  lemma {:induction false} DecimalOfNat(n: nat)
    ensures AllDigits(JavaText.NatToString(n)) && DecimalValue(JavaText.NatToString(n)) == n
    decreases n
  {
    var s := JavaText.NatToString(n);
    if n >= 10 {
      DecimalOfNat(n / 10);
      assert s[..|s| - 1] == JavaText.NatToString(n / 10);
    }
  }

  /** Reading the decimal text of an integer within the bounds gives that
      integer. */
  lemma ReadIntRoundTrip(v: int, min: Option<int>, max: Option<int>, allowEmpty: bool)
    requires (min.None? || min.value <= v) && (max.None? || v <= max.value)
    ensures ReadInt(JavaText.LongToString(v), min, max, allowEmpty) == Value(v)
  {
    LongTextValue(v);
  }

  lemma LongTextValue(v: int)
    ensures var s := JavaText.LongToString(v);
            IsIntText(s) && JsText.Trim(s) == s && IntValue(s) == v
  {
    if v < 0 {
      NegativeTextValue(v);
    } else {
      NatTextValue(v);
    }
  }

  lemma NatTextValue(n: nat)
    ensures var d := JavaText.NatToString(n);
            AllDigits(d) && IsIntText(d) && JsText.Trim(d) == d && IntValue(d) == n
  {
    var d := JavaText.NatToString(n);
    DecimalOfNat(n);
    NumberUntrimmed(d);
  }

  /** Text that starts with a digit or '-' and ends with a digit has
      nothing for `trim` to remove. */
  lemma NumberUntrimmed(s: string)
    requires |s| > 0 && (IsDigit(s[0]) || s[0] == '-') && IsDigit(s[|s| - 1])
    ensures JsText.Trim(s) == s
  {
    assert !JsText.IsSpace(s[0]) && !JsText.IsSpace(s[|s| - 1]);
  }

  lemma NegativeTextValue(v: int)
    requires v < 0
    ensures var s := JavaText.LongToString(v);
            IsIntText(s) && JsText.Trim(s) == s && IntValue(s) == v
  {
    var d := JavaText.NatToString(-v);
    assert JavaText.LongToString(v) == "-" + d;
    NatTextValue(-v);
    MinusText(d);
  }

  /** A minus sign before digits reads as the negated value. */
  lemma MinusText(d: string)
    requires |d| > 0 && AllDigits(d)
    ensures var s := "-" + d;
            IsIntText(s) && JsText.Trim(s) == s && IntValue(s) == 0 - DecimalValue(d) as int
  {
    var s := "-" + d;
    assert s[1..] == d;
    assert !AllDigits(s) by {
      assert !IsDigit(s[0]);
    }
    assert s[|s| - 1] == d[|d| - 1];
    NumberUntrimmed(s);
  }

  /** What the integer transformer leaves, once it holds a digit, is read
      as an integer when no bounds are given. */
  lemma TransformedIntAccepted(parts: seq<string>, allowEmpty: bool)
    requires var s := Concat(IntTransform(parts)); exists k :: 0 <= k < |s| && IsDigit(s[k])
    ensures ReadInt(Concat(IntTransform(parts)), None, None, allowEmpty).Value?
  {
    IntTransformIntPrefix(parts);
    SignedNumberReadable(Concat(IntTransform(parts)));
  }
}
