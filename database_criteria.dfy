/** Query criteria: six comparison operators on a column and a literal value,
    and the logical operators And and Or over a list of criteria. */
module DatabaseCriteria {
  import opened JavaText
  import opened Json
  import opened PrimitiveValueComparison

  /** The comparison subclasses Equal, NotEqual, LessThan, GreaterThan,
      LessEqual and GreaterEqual. */
  datatype CompareOp = EQ | NE | LT | GT | LE | GE

  /** A criteria tree. `Other` is a subclass defined elsewhere, which the
      dispatching code does not know. */
  datatype Criteria =
    | Compare(op: CompareOp, column: string, value: Value)
    | And(operands: seq<Criteria>)
    | Or(operands: seq<Criteria>)
    | Other(className: string)

  /** Built only from the subclasses declared in this file. */
  predicate Supported(c: Criteria) {
    match c
    case Compare(_, _, _) => true
    case And(xs) => forall i :: 0 <= i < |xs| ==> Supported(xs[i])
    case Or(xs) => forall i :: 0 <= i < |xs| ==> Supported(xs[i])
    case Other(_) => false
  }

  function OpSymbol(op: CompareOp): string {
    match op
    case EQ => "="
    case NE => "!="
    case LT => "<"
    case GT => ">"
    case LE => "<="
    case GE => ">="
  }

  /** `formatValue`: null prints as null, numbers as their decimal text and
      strings as JSON string literals. */
  function FormatValue(v: Value): (r: string)
    ensures v.Null? ==> r == "null"
    ensures v.Int? ==> r == LongToString(v.i)
    ensures v.Str? ==> r == Quote(v.s)
  {
    match v
    case Null => "null"
    case Int(_, i) => LongToString(i)
    case Str(s) => Quote(s)
  }

  /** `containsColumn`: a comparison names the column, or some operand of a
      logical operator contains it. */
  predicate ContainsColumn(c: Criteria, column: string)
    requires Supported(c)
  {
    match c
    case Compare(_, col, _) => col == column
    case And(xs) => exists i :: 0 <= i < |xs| && ContainsColumn(xs[i], column)
    case Or(xs) => exists i :: 0 <= i < |xs| && ContainsColumn(xs[i], column)
  }

  predicate AllSupported(xs: seq<Criteria>) {
    forall i :: 0 <= i < |xs| ==> Supported(xs[i])
  }

  /** `equals`: comparisons are equal when they have the same class, the same
      column and equal values; And and Or compare the sets of their operands
      (each operand of one equals some operand of the other). */
  predicate Equals(a: Criteria, b: Criteria)
    requires Supported(a) && Supported(b)
    decreases a, b
  {
    if a.Compare? && b.Compare? then
      a.op == b.op && a.column == b.column && IsEqual(a.value, b.value)
    else if (a.And? && b.And?) || (a.Or? && b.Or?) then
      AllMatched(a.operands, b.operands) && AllMatchedBack(a.operands, b.operands)
    else false
  }

  /** Some operand in `ys` equals `x`. */
  predicate HasMatch(x: Criteria, ys: seq<Criteria>)
    requires Supported(x) && AllSupported(ys)
    decreases x, ys
  {
    |ys| > 0 && (Equals(x, ys[|ys| - 1]) || HasMatch(x, ys[..|ys| - 1]))
  }

  /** Every operand in `xs` has an equal operand in `ys`. */
  predicate AllMatched(xs: seq<Criteria>, ys: seq<Criteria>)
    requires AllSupported(xs) && AllSupported(ys)
    decreases xs, ys
  {
    |xs| == 0 || (HasMatch(xs[|xs| - 1], ys) && AllMatched(xs[..|xs| - 1], ys))
  }

  /** Some operand in `xs` equals `y`. */
  predicate HasMatchBack(xs: seq<Criteria>, y: Criteria)
    requires AllSupported(xs) && Supported(y)
    decreases xs, y
  {
    |xs| > 0 && (Equals(xs[|xs| - 1], y) || HasMatchBack(xs[..|xs| - 1], y))
  }

  /** Every operand in `ys` has an equal operand in `xs`. */
  predicate AllMatchedBack(xs: seq<Criteria>, ys: seq<Criteria>)
    requires AllSupported(xs) && AllSupported(ys)
    decreases xs, ys
  {
    |ys| == 0 || (HasMatchBack(xs, ys[|ys| - 1]) && AllMatchedBack(xs, ys[..|ys| - 1]))
  }

  /** The hash code of a value after `normalizeValue`; 0 for null. */
  function ValueHash(v: Value): int {
    match NormalizeValue(v)
    case Null => 0
    case Int(_, i) => LongHash(i)
    case Str(s) => StringHash(s)
  }

  /** `int` sum of a list of hash codes. */
  function HashSum(hs: seq<int>): (r: int)
    ensures -TWO_31 <= r < TWO_31
  {
    if |hs| == 0 then 0 else ToInt32(HashSum(hs[..|hs| - 1]) + hs[|hs| - 1])
  }

  /** `hashCode`: `31 * column.hashCode() + hash(normalised value)` for a
      comparison, the sum of the operand hash codes for And and Or. */
  function Hash(c: Criteria): (h: int)
    requires Supported(c)
    ensures -TWO_31 <= h < TWO_31
  {
    match c
    case Compare(_, col, v) => ToInt32(31 * StringHash(col) + ValueHash(v))
    case And(xs) => HashSum(OperandHashes(xs))
    case Or(xs) => HashSum(OperandHashes(xs))
  }

  function OperandHashes(xs: seq<Criteria>): (hs: seq<int>)
    requires AllSupported(xs)
    ensures |hs| == |xs| && forall i :: 0 <= i < |xs| ==> hs[i] == Hash(xs[i])
    decreases xs
  {
    seq(|xs|, i requires 0 <= i < |xs| => Hash(xs[i]))
  }

  /** The operands in parentheses, joined by `sep`. */
  function JoinParens(ts: seq<string>, sep: string): string
    requires |ts| >= 1
  {
    if |ts| == 1 then "(" + ts[0] + ")"
    else JoinParens(ts[..|ts| - 1], sep) + sep + "(" + ts[|ts| - 1] + ")"
  }

  lemma JoinParensStep(ts: seq<string>, k: nat, sep: string)
    requires 1 <= k < |ts|
    ensures JoinParens(ts[..k + 1], sep) == JoinParens(ts[..k], sep) + sep + "(" + ts[k] + ")"
  {
    assert ts[..k + 1][..k] == ts[..k];
  }

  /** The text of a logical operator over operand texts `ts`. */
  function JoinOperands(ts: seq<string>, sep: string): string {
    if |ts| == 0 then "" else if |ts| == 1 then ts[0] else JoinParens(ts, sep)
  }

  /** `toString`. */
  function Text(c: Criteria): string
    requires Supported(c)
  {
    match c
    case Compare(op, col, v) => col + " " + OpSymbol(op) + " " + FormatValue(v)
    case And(xs) => JoinOperands(OperandTexts(xs), " AND ")
    case Or(xs) => JoinOperands(OperandTexts(xs), " OR ")
  }

  function OperandTexts(xs: seq<Criteria>): (ts: seq<string>)
    requires AllSupported(xs)
    ensures |ts| == |xs| && forall i :: 0 <= i < |xs| ==> ts[i] == Text(xs[i])
    decreases xs
  {
    seq(|xs|, i requires 0 <= i < |xs| => Text(xs[i]))
  }

  /** `hashCode` as the source computes it, summing operand hash codes in a
      loop. */
  method HashCode(c: Criteria) returns (h: int)
    requires Supported(c)
    ensures h == Hash(c)
    decreases c
  {
    match c {
      case Compare(_, col, v) =>
        h := ToInt32(31 * StringHash(col) + ValueHash(v));
      case And(xs) =>
        h := HashOperands(c, xs);
      case Or(xs) =>
        h := HashOperands(c, xs);
    }
  }

  method HashOperands(ghost c: Criteria, xs: seq<Criteria>) returns (h: int)
    requires c == And(xs) || c == Or(xs)
    requires Supported(c)
    ensures h == HashSum(OperandHashes(xs))
    decreases c, 0
  {
    ghost var hs := OperandHashes(xs);
    h := 0;
    var k := 0;
    while k < |xs|
      invariant 0 <= k <= |xs|
      invariant h == HashSum(hs[..k])
    {
      var hk := HashCode(xs[k]);
      HashSumStep(hs, k, h, hk);
      h := ToInt32(h + hk);
      k := k + 1;
    }
    assert hs[..|xs|] == hs;
  }

  /** One more hash code added to the running `int` sum. */
  lemma HashSumStep(hs: seq<int>, k: nat, h: int, hk: int)
    requires k < |hs| && h == HashSum(hs[..k]) && hk == hs[k]
    ensures HashSum(hs[..k + 1]) == ToInt32(h + hk)
  {
    assert hs[..k + 1][..k] == hs[..k];
  }

  /** `toString` as the source builds it, appending operands to a buffer. */
  method ToString(c: Criteria) returns (s: string)
    requires Supported(c)
    ensures s == Text(c)
    decreases c
  {
    match c {
      case Compare(op, col, v) =>
        s := col + " " + OpSymbol(op) + " " + FormatValue(v);
      case And(xs) =>
        s := OperandsToString(c, xs, " AND ");
      case Or(xs) =>
        s := OperandsToString(c, xs, " OR ");
    }
  }

  method OperandsToString(ghost c: Criteria, xs: seq<Criteria>, sep: string) returns (s: string)
    requires c == And(xs) || c == Or(xs)
    requires Supported(c)
    ensures s == JoinOperands(OperandTexts(xs), sep)
    decreases c, 0
  {
    ghost var ts := OperandTexts(xs);
    if |xs| == 0 {
      return "";
    }
    var first := ToString(xs[0]);
    if |xs| == 1 {
      return first;
    }
    s := "(" + first + ")";
    var k := 1;
    while k < |xs|
      invariant 1 <= k <= |xs|
      invariant s == JoinParens(ts[..k], sep)
    {
      var t := ToString(xs[k]);
      JoinParensStep(ts, k, sep);
      s := s + sep + "(" + t + ")";
      k := k + 1;
    }
    assert ts[..|xs|] == ts;
  }

  // ---------------------------------------------------------------------
  // Properties

  /** A leaf prints as `column op value`. */
  lemma LeafText(op: CompareOp, col: string, i: int)
    ensures Text(Compare(op, col, Null)) == col + " " + OpSymbol(op) + " null"
    ensures Text(Compare(op, col, Int(Long, i))) == col + " " + OpSymbol(op) + " " + LongToString(i)
  {
  }

  /** Joining operand texts: nothing for none, the text itself for one,
      parenthesised texts between separators otherwise. */
  lemma JoinOperandsShape(s: string, t: string, sep: string)
    ensures JoinOperands([], sep) == ""
    ensures JoinOperands([s], sep) == s
    ensures JoinOperands([s, t], sep) == "(" + s + ")" + sep + "(" + t + ")"
  {
    assert [s, t][..1] == [s];
    assert JoinParens([s], sep) == "(" + s + ")";
    assert JoinParens([s, t], sep) == JoinParens([s], sep) + sep + "(" + t + ")";
  }

  /** A logical operator prints "" for no operands and the operand itself
      for one. */
  lemma LogicalTextShort(a: Criteria)
    requires Supported(a)
    ensures Text(And([])) == "" && Text(Or([])) == ""
    ensures Text(And([a])) == Text(a) && Text(Or([a])) == Text(a)
  {
    var ta := Text(a);
    var t1 := OperandTexts([a]);
    assert t1[0] == ta;
    assert t1 == [ta];
    JoinOperandsShape(ta, ta, " AND ");
    JoinOperandsShape(ta, ta, " OR ");
  }

  /** With two or more operands, each is parenthesised and they are joined by
      the keyword. */
  lemma LogicalTextPair(a: Criteria, b: Criteria)
    requires Supported(a) && Supported(b)
    ensures Text(And([a, b])) == "(" + Text(a) + ") AND (" + Text(b) + ")"
    ensures Text(Or([a, b])) == "(" + Text(a) + ") OR (" + Text(b) + ")"
  {
    PairJoined(a, b, " AND ", ") AND (");
    PairJoined(a, b, " OR ", ") OR (");
  }

  /** Two operand texts joined by `sep` read as one parenthesised text with
      `mid` between them. */
  lemma PairJoined(a: Criteria, b: Criteria, sep: string, mid: string)
    requires Supported(a) && Supported(b) && mid == ")" + sep + "("
    ensures JoinOperands(OperandTexts([a, b]), sep) == "(" + Text(a) + mid + Text(b) + ")"
  {
    PairTexts(a, b);
    JoinOperandsShape(Text(a), Text(b), sep);
    Regroup(Text(a), Text(b), sep, mid);
  }

  lemma Regroup(s: string, t: string, sep: string, mid: string)
    requires mid == ")" + sep + "("
    ensures "(" + s + ")" + sep + "(" + t + ")" == "(" + s + mid + t + ")"
  {
  }

  lemma PairTexts(a: Criteria, b: Criteria)
    requires Supported(a) && Supported(b)
    ensures OperandTexts([a, b]) == [Text(a), Text(b)]
  {
    var ts := OperandTexts([a, b]);
    assert ts[0] == Text(a) && ts[1] == Text(b);
  }

  /** Contains-column of a logical operator is true iff an operand contains
      the column; of a leaf it is column equality. */
  lemma ContainsColumnOfOperands(xs: seq<Criteria>, column: string, k: nat)
    requires forall i :: 0 <= i < |xs| ==> Supported(xs[i])
    requires k < |xs| && ContainsColumn(xs[k], column)
    ensures ContainsColumn(And(xs), column) && ContainsColumn(Or(xs), column)
    ensures !ContainsColumn(And([]), column) && !ContainsColumn(Or([]), column)
  {
  }

  lemma {:induction false} HasMatchMeans(x: Criteria, ys: seq<Criteria>)
    requires Supported(x) && AllSupported(ys)
    ensures HasMatch(x, ys) <==> exists j :: 0 <= j < |ys| && Equals(x, ys[j])
    decreases |ys|
  {
    if |ys| > 0 {
      var init := ys[..|ys| - 1];
      HasMatchMeans(x, init);
      if exists j :: 0 <= j < |ys| && Equals(x, ys[j]) {
        var j :| 0 <= j < |ys| && Equals(x, ys[j]);
        if j < |ys| - 1 {
          assert init[j] == ys[j];
        }
      }
      if HasMatch(x, init) {
        var j :| 0 <= j < |init| && Equals(x, init[j]);
        assert ys[j] == init[j];
      }
    }
  }

  lemma {:induction false} HasMatchBackMeans(xs: seq<Criteria>, y: Criteria)
    requires AllSupported(xs) && Supported(y)
    ensures HasMatchBack(xs, y) <==> exists i :: 0 <= i < |xs| && Equals(xs[i], y)
    decreases |xs|
  {
    if |xs| > 0 {
      var init := xs[..|xs| - 1];
      HasMatchBackMeans(init, y);
      if exists i :: 0 <= i < |xs| && Equals(xs[i], y) {
        var i :| 0 <= i < |xs| && Equals(xs[i], y);
        if i < |xs| - 1 {
          assert init[i] == xs[i];
        }
      }
      if HasMatchBack(init, y) {
        var i :| 0 <= i < |init| && Equals(init[i], y);
        assert xs[i] == init[i];
      }
    }
  }

  lemma {:induction false} AllMatchedMeans(xs: seq<Criteria>, ys: seq<Criteria>)
    requires AllSupported(xs) && AllSupported(ys)
    ensures AllMatched(xs, ys) <==> forall i :: 0 <= i < |xs| ==> HasMatch(xs[i], ys)
    decreases |xs|
  {
    if |xs| > 0 {
      var init := xs[..|xs| - 1];
      AllMatchedMeans(init, ys);
      assert forall i :: 0 <= i < |init| ==> init[i] == xs[i];
    }
  }

  lemma {:induction false} AllMatchedBackMeans(xs: seq<Criteria>, ys: seq<Criteria>)
    requires AllSupported(xs) && AllSupported(ys)
    ensures AllMatchedBack(xs, ys) <==> forall j :: 0 <= j < |ys| ==> HasMatchBack(xs, ys[j])
    decreases |ys|
  {
    if |ys| > 0 {
      var init := ys[..|ys| - 1];
      AllMatchedBackMeans(xs, init);
      assert forall j :: 0 <= j < |init| ==> init[j] == ys[j];
    }
  }

  /** Two operand lists match as sets: each operand of either list equals
      some operand of the other. */
  predicate SameOperandSet(xs: seq<Criteria>, ys: seq<Criteria>)
    requires AllSupported(xs) && AllSupported(ys)
  {
    (forall i :: 0 <= i < |xs| ==> exists j :: 0 <= j < |ys| && Equals(xs[i], ys[j])) &&
    (forall j :: 0 <= j < |ys| ==> exists i :: 0 <= i < |xs| && Equals(xs[i], ys[j]))
  }

  lemma AllMatchedMeansCovered(xs: seq<Criteria>, ys: seq<Criteria>)
    requires AllSupported(xs) && AllSupported(ys)
    ensures AllMatched(xs, ys) <==>
      forall i :: 0 <= i < |xs| ==> exists j :: 0 <= j < |ys| && Equals(xs[i], ys[j])
  {
    AllMatchedMeans(xs, ys);
    forall i | 0 <= i < |xs|
      ensures HasMatch(xs[i], ys) <==> exists j :: 0 <= j < |ys| && Equals(xs[i], ys[j])
    {
      HasMatchMeans(xs[i], ys);
    }
  }

  lemma AllMatchedBackMeansCovered(xs: seq<Criteria>, ys: seq<Criteria>)
    requires AllSupported(xs) && AllSupported(ys)
    ensures AllMatchedBack(xs, ys) <==>
      forall j :: 0 <= j < |ys| ==> exists i :: 0 <= i < |xs| && Equals(xs[i], ys[j])
  {
    AllMatchedBackMeans(xs, ys);
    forall j | 0 <= j < |ys|
      ensures HasMatchBack(xs, ys[j]) <==> exists i :: 0 <= i < |xs| && Equals(xs[i], ys[j])
    {
      HasMatchBackMeans(xs, ys[j]);
    }
  }

  /** And and Or are equal exactly when their operand sets match. */
  lemma EqualsComparesOperandSets(xs: seq<Criteria>, ys: seq<Criteria>)
    requires AllSupported(xs) && AllSupported(ys)
    ensures Equals(And(xs), And(ys)) <==> SameOperandSet(xs, ys)
    ensures Equals(Or(xs), Or(ys)) <==> SameOperandSet(xs, ys)
    ensures !Equals(And(xs), Or(ys))
  {
    AllMatchedMeansCovered(xs, ys);
    AllMatchedBackMeansCovered(xs, ys);
  }

  /** Equality of criteria is reflexive. */
  lemma {:induction false} EqualsReflexive(a: Criteria)
    requires Supported(a)
    ensures Equals(a, a)
    decreases a
  {
    match a {
      case Compare(_, _, v) =>
        EqualIsEquivalence(v, v, v);
      case And(xs) =>
        OperandsReflexive(a, xs);
      case Or(xs) =>
        OperandsReflexive(a, xs);
    }
  }

  lemma {:induction false} OperandsReflexive(a: Criteria, xs: seq<Criteria>)
    requires a == And(xs) || a == Or(xs)
    requires Supported(a)
    ensures SameOperandSet(xs, xs) && Equals(a, a)
    decreases a, 0
  {
    forall i | 0 <= i < |xs| ensures Equals(xs[i], xs[i]) {
      EqualsReflexive(xs[i]);
    }
    EqualsComparesOperandSets(xs, xs);
  }

  /** Equality of criteria is symmetric. */
  lemma {:induction false} EqualsSymmetric(a: Criteria, b: Criteria)
    requires Supported(a) && Supported(b) && Equals(a, b)
    ensures Equals(b, a)
    decreases a, 2
  {
    if a.Compare? {
      EqualIsEquivalence(a.value, b.value, b.value);
    } else {
      MatchedFlips(a, a.operands, b.operands);
      MatchedBackFlips(a, a.operands, b.operands);
    }
  }

  /** Operands all drawn from `a`, the argument the induction runs on. */
  predicate OperandsOf(a: Criteria, xs: seq<Criteria>) {
    !a.Compare? && !a.Other? && forall k :: 0 <= k < |xs| ==> xs[k] in a.operands
  }

  lemma {:induction false} MatchedFlips(a: Criteria, xs: seq<Criteria>, ys: seq<Criteria>)
    requires AllSupported(xs) && AllSupported(ys) && OperandsOf(a, xs)
    requires AllMatched(xs, ys)
    ensures AllMatchedBack(ys, xs)
    decreases a, 1, |xs|
  {
    if |xs| > 0 {
      HasMatchFlips(a, xs[|xs| - 1], ys);
      MatchedFlips(a, xs[..|xs| - 1], ys);
    }
  }

  lemma {:induction false} HasMatchFlips(a: Criteria, x: Criteria, ys: seq<Criteria>)
    requires Supported(x) && AllSupported(ys) && OperandsOf(a, [x])
    requires HasMatch(x, ys)
    ensures HasMatchBack(ys, x)
    decreases a, 0, |ys|
  {
    assert [x][0] == x;
    if Equals(x, ys[|ys| - 1]) {
      EqualsSymmetric(x, ys[|ys| - 1]);
    } else {
      HasMatchFlips(a, x, ys[..|ys| - 1]);
    }
  }

  lemma {:induction false} MatchedBackFlips(a: Criteria, xs: seq<Criteria>, ys: seq<Criteria>)
    requires AllSupported(xs) && AllSupported(ys) && OperandsOf(a, xs)
    requires AllMatchedBack(xs, ys)
    ensures AllMatched(ys, xs)
    decreases a, 1, |ys|
  {
    if |ys| > 0 {
      HasMatchBackFlips(a, xs, ys[|ys| - 1]);
      MatchedBackFlips(a, xs, ys[..|ys| - 1]);
    }
  }

  lemma {:induction false} HasMatchBackFlips(a: Criteria, xs: seq<Criteria>, y: Criteria)
    requires AllSupported(xs) && Supported(y) && OperandsOf(a, xs)
    requires HasMatchBack(xs, y)
    ensures HasMatch(y, xs)
    decreases a, 0, |xs|
  {
    var x := xs[|xs| - 1];
    assert x in a.operands;
    if Equals(x, y) {
      EqualsSymmetric(x, y);
    } else {
      HasMatchBackFlips(a, xs[..|xs| - 1], y);
    }
  }

  /** Two comparisons with the same column and value but different classes
      (Equal and NotEqual, say) are never equal. */
  lemma DifferentClassesNeverEqual(op1: CompareOp, op2: CompareOp, col: string, v: Value)
    requires op1 != op2
    ensures !Equals(Compare(op1, col, v), Compare(op2, col, v))
  {
  }

  lemma {:induction false} HasMatchOfMember(x: Criteria, ys: seq<Criteria>)
    requires Supported(x) && AllSupported(ys) && x in ys
    ensures HasMatch(x, ys) && HasMatchBack(ys, x)
    decreases |ys|
  {
    if ys[|ys| - 1] == x {
      EqualsReflexive(x);
    } else {
      var init := ys[..|ys| - 1];
      assert ys == init + [ys[|ys| - 1]];
      assert x in init;
      HasMatchOfMember(x, init);
    }
  }

  lemma {:induction false} AllMatchedOfSubset(xs: seq<Criteria>, ys: seq<Criteria>)
    requires AllSupported(xs) && AllSupported(ys)
    requires forall x :: x in xs ==> x in ys
    ensures AllMatched(xs, ys) && AllMatchedBack(ys, xs)
    decreases |xs|
  {
    if |xs| > 0 {
      HasMatchOfMember(xs[|xs| - 1], ys);
      AllMatchedOfSubset(xs[..|xs| - 1], ys);
    }
  }

  /** And and Or equality ignores operand order and duplicates: operand lists
      with the same elements give equal criteria. */
  lemma EqualsIgnoresOrderAndDuplicates(xs: seq<Criteria>, ys: seq<Criteria>)
    requires AllSupported(xs)
    requires forall x :: x in xs <==> x in ys
    ensures AllSupported(ys)
    ensures Equals(And(xs), And(ys)) && Equals(Or(xs), Or(ys))
  {
    forall j | 0 <= j < |ys| ensures Supported(ys[j]) {
      assert ys[j] in xs;
    }
    AllMatchedOfSubset(xs, ys);
    AllMatchedOfSubset(ys, xs);
  }

  /** The hash code is not consistent with equality: And(a, a) equals
      And(a), but their hash codes differ. */
  lemma HashDisagreesOnDuplicates()
    ensures var a := Compare(EQ, "c", Null);
      Equals(And([a, a]), And([a])) && Hash(And([a, a])) != Hash(And([a]))
  {
    var a := Compare(EQ, "c", Null);
    assert StringHash("c") == 99;
    assert Hash(a) == 3069;
    assert OperandHashes([a, a]) == [3069, 3069];
    assert OperandHashes([a]) == [3069];
    assert [3069, 3069][..1] == [3069] && [3069][..0] == [];
    assert HashSum([3069]) == 3069;
    assert HashSum([3069, 3069]) == 6138;
    EqualsIgnoresOrderAndDuplicates([a, a], [a]);
  }

  /** Equal(c, 5) equals Equal(c, "5"), but their hash codes differ. */
  lemma HashDisagreesOnValueKind()
    ensures var i5 := Compare(EQ, "c", Int(Integer, 5));
      var s5 := Compare(EQ, "c", Str("5"));
      Equals(i5, s5) && Hash(i5) != Hash(s5)
  {
    FiveHashes();
    assert LongToString(5) == "5";
  }

  /** The hash codes the counterexamples need: column "c", 5 and "5". */
  lemma FiveHashes()
    ensures StringHash("c") == 99 && StringHash("5") == 53 && LongHash(5) == 5
  {
    assert StringHash("c") == 99;
    assert StringHash("5") == 53;
  }

  // ---------------------------------------------------------------------
  // `equals` of And and Or as written, through HashSet

  /** Nesting depth: comparisons are 0 deep, And and Or one deeper than
      their deepest operand. */
  function Depth(c: Criteria): (d: nat)
    ensures c.And? || c.Or? ==> forall k :: 0 <= k < |c.operands| ==> Depth(c.operands[k]) < d
    decreases c, 1
  {
    match c
    case And(xs) => 1 + MaxDepth(c, xs)
    case Or(xs) => 1 + MaxDepth(c, xs)
    case _ => 0
  }

  function MaxDepth(ghost c: Criteria, xs: seq<Criteria>): (m: nat)
    requires forall k :: 0 <= k < |xs| ==> xs[k] < c
    ensures forall k :: 0 <= k < |xs| ==> Depth(xs[k]) <= m
    decreases c, 0, |xs|
  {
    if |xs| == 0 then 0
    else
      assert forall k :: 0 <= k < |xs| - 1 ==> xs[..|xs| - 1][k] == xs[k];
      var rest := MaxDepth(c, xs[..|xs| - 1]);
      var last := Depth(xs[|xs| - 1]);
      if last > rest then last else rest
  }

  function Deeper(a: Criteria, b: Criteria): nat {
    if Depth(a) >= Depth(b) then Depth(a) else Depth(b)
  }

  /** Supported criteria, each less deep than `bound`. */
  predicate Below(bound: nat, xs: seq<Criteria>) {
    forall k :: 0 <= k < |xs| ==> Supported(xs[k]) && Depth(xs[k]) < bound
  }

  /** `equals` as the source writes it. Comparisons compare class, column and
      value; And and Or build a `HashSet` of each operand list and compare
      the sets: equal sizes, and `containsAll`, which looks each operand of
      the other set up by hash code and then by `equals`. */
  predicate JavaEquals(a: Criteria, b: Criteria)
    requires Supported(a) && Supported(b)
    decreases Deeper(a, b), 2
  {
    if a.Compare? && b.Compare? then
      a.op == b.op && a.column == b.column && IsEqual(a.value, b.value)
    else if (a.And? && b.And?) || (a.Or? && b.Or?) then
      var bound := Deeper(a, b);
      var these := HashSetOf(bound, a.operands);
      var those := HashSetOf(bound, b.operands);
      |these| == |those| && ContainsAll(bound, these, those)
    else false
  }

  /** The test a hash set applies to an element `x` it holds when looking
      up `e`: the same hash code, and `e.equals(x)`. */
  predicate HashMatches(ghost bound: nat, x: Criteria, e: Criteria)
    requires Supported(x) && Depth(x) < bound && Supported(e) && Depth(e) < bound
    decreases bound, 0, 0
  {
    Hash(x) == Hash(e) && JavaEquals(e, x)
  }

  /** `HashSet.contains(e)`: some element that `e` matches. */
  predicate Contains(ghost bound: nat, s: seq<Criteria>, e: Criteria)
    requires Below(bound, s) && Supported(e) && Depth(e) < bound
    decreases bound, 0, |s|
  {
    |s| > 0 && (HashMatches(bound, s[|s| - 1], e) || Contains(bound, s[..|s| - 1], e))
  }

  /** `containsAll`: the set contains every element of `those`. */
  predicate ContainsAll(ghost bound: nat, these: seq<Criteria>, those: seq<Criteria>)
    requires Below(bound, these) && Below(bound, those)
    decreases bound, 1, |those|
  {
    |those| == 0 ||
    (Contains(bound, these, those[|those| - 1]) && ContainsAll(bound, these, those[..|those| - 1]))
  }

  /** `new HashSet<>(Arrays.asList(xs))`: the operands in insertion order,
      skipping each one the set already contains. */
  function HashSetOf(ghost bound: nat, xs: seq<Criteria>): (s: seq<Criteria>)
    requires Below(bound, xs)
    ensures Below(bound, s) && |s| <= |xs|
    decreases bound, 1, |xs|
  {
    if |xs| == 0 then [] else AddTo(bound, HashSetOf(bound, xs[..|xs| - 1]), xs[|xs| - 1])
  }

  /** `HashSet.add(x)`: the set unchanged when it contains `x`, otherwise
      with `x` added last. */
  function AddTo(ghost bound: nat, s: seq<Criteria>, x: Criteria): (r: seq<Criteria>)
    requires Below(bound, s) && Supported(x) && Depth(x) < bound
    ensures Below(bound, r)
    ensures Contains(bound, s, x) ==> r == s
    ensures !Contains(bound, s, x) ==> r == s + [x]
    decreases bound, 0, |s| + 1
  {
    if Contains(bound, s, x) then s else s + [x]
  }

  /** The set contains `e` when some element hashes like `e` and `e` equals
      it. */
  lemma {:induction false} ContainsAt(bound: nat, s: seq<Criteria>, k: nat, e: Criteria)
    requires Below(bound, s) && Supported(e) && Depth(e) < bound && k < |s|
    ensures HashMatches(bound, s[k], e) ==> Contains(bound, s, e)
    decreases |s|
  {
    if k < |s| - 1 {
      assert s[..|s| - 1][k] == s[k];
      ContainsAt(bound, s[..|s| - 1], k, e);
    }
  }

  /** `containsAll` holds when the set contains each element. */
  lemma {:induction false} ContainsAllOf(bound: nat, these: seq<Criteria>, those: seq<Criteria>)
    requires Below(bound, these) && Below(bound, those)
    requires forall j :: 0 <= j < |those| ==> Contains(bound, these, those[j])
    ensures ContainsAll(bound, these, those)
    decreases |those|
  {
    if |those| > 0 {
      var init := those[..|those| - 1];
      assert forall j :: 0 <= j < |init| ==> init[j] == those[j];
      ContainsAllOf(bound, these, init);
    }
  }

  /** A set that does not contain `e` holds no element that `e` matches. */
  lemma NotContains(bound: nat, s: seq<Criteria>, e: Criteria)
    requires Below(bound, s) && Supported(e) && Depth(e) < bound
    requires !Contains(bound, s, e)
    ensures forall k :: 0 <= k < |s| ==> !HashMatches(bound, s[k], e)
  {
    forall k | 0 <= k < |s| ensures !HashMatches(bound, s[k], e) {
      ContainsAt(bound, s, k, e);
    }
  }

  /** No element hashes like an element before it and equals it. */
  predicate Distinct(bound: nat, s: seq<Criteria>)
    requires Below(bound, s)
  {
    forall i, j :: 0 <= i < j < |s| ==> !HashMatches(bound, s[i], s[j])
  }

  /** The set holds no element that it would have found among the elements
      added before it. */
  lemma {:induction false} HashSetDistinct(bound: nat, xs: seq<Criteria>)
    requires Below(bound, xs)
    ensures Distinct(bound, HashSetOf(bound, xs))
    decreases |xs|
  {
    if |xs| > 0 {
      var init := xs[..|xs| - 1];
      HashSetDistinct(bound, init);
      AddKeepsDistinct(bound, HashSetOf(bound, init), xs[|xs| - 1]);
    }
  }

  /** Adding to a set keeps it free of elements found before them. */
  lemma AddKeepsDistinct(bound: nat, s: seq<Criteria>, x: Criteria)
    requires Below(bound, s) && Supported(x) && Depth(x) < bound && Distinct(bound, s)
    ensures Distinct(bound, AddTo(bound, s, x))
  {
    if !Contains(bound, s, x) {
      var r := s + [x];
      NotContains(bound, s, x);
      assert forall k :: 0 <= k < |s| ==> r[k] == s[k];
      assert r[|s|] == x;
    }
  }

  /** The equality as written is reflexive. */
  lemma {:induction false} JavaEqualsReflexive(a: Criteria)
    requires Supported(a)
    ensures JavaEquals(a, a)
    decreases Depth(a)
  {
    if a.Compare? {
      EqualIsEquivalence(a.value, a.value, a.value);
    } else {
      var bound := Deeper(a, a);
      var s := HashSetOf(bound, a.operands);
      forall j | 0 <= j < |s| ensures Contains(bound, s, s[j]) {
        JavaEqualsReflexive(s[j]);
        ContainsAt(bound, s, j, s[j]);
      }
      ContainsAllOf(bound, s, s);
    }
  }

  /** The set contains every one of `xs`. */
  predicate HoldsAll(bound: nat, s: seq<Criteria>, xs: seq<Criteria>)
    requires Below(bound, s) && Below(bound, xs)
  {
    forall i :: 0 <= i < |xs| ==> Contains(bound, s, xs[i])
  }

  /** Every operand is found in the set built from the operands. */
  lemma {:induction false} HashSetHoldsAll(bound: nat, xs: seq<Criteria>)
    requires Below(bound, xs)
    ensures HoldsAll(bound, HashSetOf(bound, xs), xs)
    decreases |xs|
  {
    if |xs| > 0 {
      var init := xs[..|xs| - 1];
      HashSetHoldsAll(bound, init);
      AddHoldsAll(bound, HashSetOf(bound, init), init, xs[|xs| - 1]);
      assert init + [xs[|xs| - 1]] == xs;
    }
  }

  /** After `add(x)` the set contains `x` and everything it contained. */
  lemma AddHoldsAll(bound: nat, s: seq<Criteria>, xs: seq<Criteria>, x: Criteria)
    requires Below(bound, s) && Below(bound, xs) && Supported(x) && Depth(x) < bound
    requires HoldsAll(bound, s, xs)
    ensures Below(bound, xs + [x]) && HoldsAll(bound, AddTo(bound, s, x), xs + [x])
  {
    var ys := xs + [x];
    assert forall i :: 0 <= i < |xs| ==> ys[i] == xs[i];
    assert ys[|xs|] == x;
    if !Contains(bound, s, x) {
      forall i | 0 <= i < |xs| ensures Contains(bound, s + [x], xs[i]) {
        ContainsGrows(bound, s, x, xs[i]);
      }
      LastHeld(bound, s, x);
    }
  }

  /** An element the set contains is still contained after an addition. */
  lemma ContainsGrows(bound: nat, s: seq<Criteria>, x: Criteria, e: Criteria)
    requires Below(bound, s) && Supported(x) && Depth(x) < bound
    requires Supported(e) && Depth(e) < bound && Contains(bound, s, e)
    ensures Below(bound, s + [x]) && Contains(bound, s + [x], e)
  {
    assert (s + [x])[..|s|] == s;
  }

  /** An element just added is contained in the set. */
  lemma LastHeld(bound: nat, s: seq<Criteria>, x: Criteria)
    requires Below(bound, s) && Supported(x) && Depth(x) < bound
    ensures Below(bound, s + [x]) && Contains(bound, s + [x], x)
  {
    JavaEqualsReflexive(x);
    assert (s + [x])[|s|] == x;
  }

  /** Two singleton operand lists whose operands are equal but hash
      differently: the cover equality holds, the equality as written does
      not. */
  lemma SingletonSetsDiffer(x: Criteria, y: Criteria)
    requires Supported(x) && Supported(y) && Equals(x, y) && Hash(x) != Hash(y)
    ensures Equals(And([x]), And([y])) && !JavaEquals(And([x]), And([y]))
  {
    SingletonCovered(x, y);
    var bound := Deeper(And([x]), And([y]));
    assert And([x]).operands[0] == x && And([y]).operands[0] == y;
    SingletonSet(bound, x);
    SingletonSet(bound, y);
    NotInSingleton(bound, x, y);
    assert !ContainsAll(bound, [x], [y]);
  }

  /** The set of one operand holds just that operand. */
  lemma SingletonSet(bound: nat, x: Criteria)
    requires Supported(x) && Depth(x) < bound
    ensures HashSetOf(bound, [x]) == [x]
  {
    assert [x][..0] == [];
    assert !Contains(bound, [], x);
  }

  /** An element that hashes differently is not found in a set of one. */
  lemma NotInSingleton(bound: nat, x: Criteria, y: Criteria)
    requires Supported(x) && Depth(x) < bound && Supported(y) && Depth(y) < bound
    requires Hash(x) != Hash(y)
    ensures !Contains(bound, [x], y)
  {
    assert [x][..0] == [];
    assert !HashMatches(bound, x, y);
  }

  /** Equal operands cover each other. */
  lemma SingletonCovered(x: Criteria, y: Criteria)
    requires Supported(x) && Supported(y) && Equals(x, y)
    ensures Equals(And([x]), And([y]))
  {
    EqualsSymmetric(x, y);
    assert [x][..0] == [] && [y][..0] == [];
    assert HasMatch(x, [y]);
    assert HasMatchBack([x], y);
  }

  /** Two operands that equal each other but hash differently form a set of
      two, which the set of one of them cannot equal. */
  lemma PairSetDiffers(x: Criteria, y: Criteria)
    requires Supported(x) && Supported(y) && Equals(x, y) && Hash(x) != Hash(y)
    ensures Equals(And([x, y]), And([x])) && !JavaEquals(And([x, y]), And([x]))
  {
    PairCovered(x, y);
    var bound := Deeper(And([x, y]), And([x]));
    assert Depth(And([x, y])) <= bound;
    assert And([x, y]).operands[0] == x && And([x, y]).operands[1] == y;
    assert Depth(x) < bound && Depth(y) < bound;
    SingletonSet(bound, x);
    NotInSingleton(bound, x, y);
    assert [x, y][..1] == [x];
    assert HashSetOf(bound, [x, y]) == [x, y];
  }

  /** Each of two equal operands is covered by the first alone. */
  lemma PairCovered(x: Criteria, y: Criteria)
    requires Supported(x) && Supported(y) && Equals(x, y)
    ensures Equals(And([x, y]), And([x]))
  {
    EqualsSymmetric(x, y);
    EqualsReflexive(x);
    assert [x, y][..1] == [x] && [x][..0] == [];
    assert HasMatch(x, [x]) && HasMatch(y, [x]);
    assert AllMatched([x], [x]);
    assert AllMatched([x, y], [x]);
    assert HasMatchBack([x, y], x);
  }

  /** The equality as written differs from the cover equality `Equals` on
      Equal(c, 5) against Equal(c, "5"), on And(And(a, a)) against
      And(And(a)), and on And(Equal(c, 5), Equal(c, "5")) against
      And(Equal(c, 5)). */
  lemma JavaEqualsDiffersFromCover(i5: Criteria, s5: Criteria, a: Criteria)
    requires i5 == Compare(EQ, "c", Int(Integer, 5)) && s5 == Compare(EQ, "c", Str("5"))
    requires a == Compare(EQ, "c", Null)
    ensures Equals(And([i5]), And([s5])) && !JavaEquals(And([i5]), And([s5]))
    ensures Equals(And([i5, s5]), And([i5])) && !JavaEquals(And([i5, s5]), And([i5]))
    ensures Equals(And([And([a, a])]), And([And([a])])) &&
            !JavaEquals(And([And([a, a])]), And([And([a])]))
  {
    ValueKindSetsDiffer(i5, s5);
    DuplicateSetsDiffer(a);
  }

  /** Equal(c, 5) and Equal(c, "5") as operands. */
  lemma ValueKindSetsDiffer(i5: Criteria, s5: Criteria)
    requires i5 == Compare(EQ, "c", Int(Integer, 5)) && s5 == Compare(EQ, "c", Str("5"))
    ensures Equals(And([i5]), And([s5])) && !JavaEquals(And([i5]), And([s5]))
    ensures Equals(And([i5, s5]), And([i5])) && !JavaEquals(And([i5, s5]), And([i5]))
  {
    HashDisagreesOnValueKind();
    SingletonSetsDiffer(i5, s5);
    PairSetDiffers(i5, s5);
  }

  /** And(a, a) and And(a) as operands. */
  lemma DuplicateSetsDiffer(a: Criteria)
    requires a == Compare(EQ, "c", Null)
    ensures Equals(And([And([a, a])]), And([And([a])])) &&
            !JavaEquals(And([And([a, a])]), And([And([a])]))
  {
    HashDisagreesOnDuplicates();
    SingletonSetsDiffer(And([a, a]), And([a]));
  }

  // ---------------------------------------------------------------------
  // A hash code consistent with equals

  /** A value hash that agrees with `isEqual`: integers and strings hash by
      their text, so 5 and "5" hash alike. */
  function TextValueHash(v: Value): int {
    if v.Null? then 0 else StringHash(PrimitiveValueComparison.Text(v))
  }

  /** A hash code that agrees with `Equals`: comparisons hash their column
      and value text, And and Or hash the largest operand hash, which does
      not depend on operand order or repetition. */
  function ConsistentHash(c: Criteria): (h: int)
    requires Supported(c)
    ensures -TWO_31 <= h < TWO_31
    decreases c, 1
  {
    match c
    case Compare(_, col, v) => ToInt32(31 * StringHash(col) + TextValueHash(v))
    case And(xs) => ToInt32(1 + MaxHash(c, xs))
    case Or(xs) => ToInt32(2 + MaxHash(c, xs))
  }

  /** The largest consistent hash of the operands, or 0 when it is smaller. */
  function MaxHash(ghost c: Criteria, xs: seq<Criteria>): int
    requires forall k :: 0 <= k < |xs| ==> xs[k] < c && Supported(xs[k])
    decreases c, 0, |xs|
  {
    if |xs| == 0 then 0
    else
      var rest := MaxHash(c, xs[..|xs| - 1]);
      var last := ConsistentHash(xs[|xs| - 1]);
      if last > rest then last else rest
  }

  /** The largest hash bounds every operand hash and is 0 or one of them. */
  lemma {:induction false} MaxHashBounds(c: Criteria, xs: seq<Criteria>)
    requires forall k :: 0 <= k < |xs| ==> xs[k] < c && Supported(xs[k])
    ensures MaxHash(c, xs) >= 0
    ensures forall k :: 0 <= k < |xs| ==> ConsistentHash(xs[k]) <= MaxHash(c, xs)
    ensures MaxHash(c, xs) == 0 || exists k :: 0 <= k < |xs| && ConsistentHash(xs[k]) == MaxHash(c, xs)
    decreases |xs|
  {
    if |xs| > 0 {
      var init := xs[..|xs| - 1];
      MaxHashBounds(c, init);
      assert forall k :: 0 <= k < |xs| - 1 ==> xs[k] == init[k];
    }
  }

  /** Equal values have equal text hashes. */
  lemma EqualValuesHashAlike(a: Value, b: Value)
    requires IsEqual(a, b)
    ensures TextValueHash(a) == TextValueHash(b)
  {
  }

  /** Equal criteria have equal consistent hash codes. */
  lemma {:induction false} EqualsHashesAlike(a: Criteria, b: Criteria)
    requires Supported(a) && Supported(b) && Equals(a, b)
    ensures ConsistentHash(a) == ConsistentHash(b)
    decreases a, 4
  {
    if a.Compare? {
      LeafHashesAlike(a, b);
    } else {
      LogicalHashesAlike(a, b);
    }
  }

  lemma LeafHashesAlike(a: Criteria, b: Criteria)
    requires a.Compare? && Supported(b) && Equals(a, b)
    ensures ConsistentHash(a) == ConsistentHash(b)
  {
    assert b.Compare? && a.column == b.column && IsEqual(a.value, b.value);
    assert TextValueHash(a.value) == TextValueHash(b.value);
  }

  lemma {:induction false} LogicalHashesAlike(a: Criteria, b: Criteria)
    requires (a.And? || a.Or?) && Supported(a) && Supported(b) && Equals(a, b)
    ensures ConsistentHash(a) == ConsistentHash(b)
    decreases a, 3
  {
    var xs, ys := a.operands, b.operands;
    assert (a.And? && b.And?) || (a.Or? && b.Or?);
    assert AllMatched(xs, ys) && AllMatchedBack(xs, ys);
    MaxCovered(a, xs, b, ys);
    LogicalHash(a);
    LogicalHash(b);
    assert a.And? == b.And?;
  }

  /** The consistent hash of an And or Or, by its largest operand hash. */
  lemma LogicalHash(a: Criteria)
    requires (a.And? || a.Or?) && Supported(a)
    ensures forall k :: 0 <= k < |a.operands| ==> a.operands[k] < a && Supported(a.operands[k])
    ensures ConsistentHash(a) == LogicalHashOf(a.And?, MaxHash(a, a.operands))
  {
  }

  function LogicalHashOf(isAnd: bool, maxHash: int): int {
    ToInt32((if isAnd then 1 else 2) + maxHash)
  }

  /** Operand lists that match as sets have the same largest hash. */
  lemma {:induction false} MaxCovered(a: Criteria, xs: seq<Criteria>, b: Criteria, ys: seq<Criteria>)
    requires (a.And? || a.Or?) && a.operands == xs && Supported(a)
    requires (b.And? || b.Or?) && b.operands == ys && Supported(b)
    requires AllMatched(xs, ys) && AllMatchedBack(xs, ys)
    ensures MaxHash(a, xs) == MaxHash(b, ys)
    decreases a, 2
  {
    LogicalHash(a);
    LogicalHash(b);
    MaxHashBounds(a, xs);
    MaxHashBounds(b, ys);
    AllBelowMax(a, xs, b, ys);
    AllBackBelowMax(a, xs, b, ys);
  }

  /** Every operand of `a` hashes no higher than the largest hash of `b`'s
      operands when each has an equal operand in `b`. */
  lemma AllBelowMax(a: Criteria, xs: seq<Criteria>, b: Criteria, ys: seq<Criteria>)
    requires (a.And? || a.Or?) && a.operands == xs && Supported(a)
    requires (b.And? || b.Or?) && b.operands == ys && Supported(b)
    requires AllMatched(xs, ys)
    ensures forall i :: 0 <= i < |xs| ==> ConsistentHash(xs[i]) <= MaxHash(b, ys)
    decreases a, 1
  {
    LogicalHash(a);
    LogicalHash(b);
    AllMatchedMeansCovered(xs, ys);
    forall i | 0 <= i < |xs|
      ensures ConsistentHash(xs[i]) <= MaxHash(b, ys)
    {
      MatchedBelowMax(a, xs[i], b, ys);
    }
  }

  /** Every operand of `b` hashes no higher than the largest hash of `a`'s
      operands when each has an equal operand in `a`. */
  lemma AllBackBelowMax(a: Criteria, xs: seq<Criteria>, b: Criteria, ys: seq<Criteria>)
    requires (a.And? || a.Or?) && a.operands == xs && Supported(a)
    requires (b.And? || b.Or?) && b.operands == ys && Supported(b)
    requires AllMatchedBack(xs, ys)
    ensures forall j :: 0 <= j < |ys| ==> ConsistentHash(ys[j]) <= MaxHash(a, xs)
    decreases a, 1
  {
    LogicalHash(a);
    LogicalHash(b);
    AllMatchedBackMeansCovered(xs, ys);
    forall j | 0 <= j < |ys|
      ensures ConsistentHash(ys[j]) <= MaxHash(a, xs)
    {
      MatchedBackBelowMax(a, xs, ys[j]);
    }
  }

  /** An operand of `a` that equals some operand of `b` hashes no higher
      than the largest hash of `b`'s operands. */
  lemma MatchedBelowMax(a: Criteria, x: Criteria, b: Criteria, ys: seq<Criteria>)
    requires x < a && Supported(x)
    requires (b.And? || b.Or?) && b.operands == ys && Supported(b)
    requires exists j :: 0 <= j < |ys| && Equals(x, ys[j])
    ensures ConsistentHash(x) <= MaxHash(b, ys)
    decreases a, 0
  {
    var j :| 0 <= j < |ys| && Equals(x, ys[j]);
    EqualsHashesAlike(x, ys[j]);
    MaxHashBounds(b, ys);
  }

  /** An operand that equals some operand of `a` hashes no higher than the
      largest hash of `a`'s operands. */
  lemma MatchedBackBelowMax(a: Criteria, xs: seq<Criteria>, y: Criteria)
    requires (a.And? || a.Or?) && a.operands == xs && Supported(a) && Supported(y)
    requires exists i :: 0 <= i < |xs| && Equals(xs[i], y)
    ensures ConsistentHash(y) <= MaxHash(a, xs)
    decreases a, 0
  {
    var i :| 0 <= i < |xs| && Equals(xs[i], y);
    EqualsHashesAlike(xs[i], y);
    MaxHashBounds(a, xs);
  }

  /** The two counterexamples to the hash code as written hash alike under
      the consistent hash. */
  lemma ConsistentHashExamples()
    ensures var a := Compare(EQ, "c", Null);
      ConsistentHash(And([a, a])) == ConsistentHash(And([a]))
    ensures ConsistentHash(Compare(EQ, "c", Int(Integer, 5))) == ConsistentHash(Compare(EQ, "c", Str("5")))
  {
    var a := Compare(EQ, "c", Null);
    EqualsIgnoresOrderAndDuplicates([a, a], [a]);
    EqualsHashesAlike(And([a, a]), And([a]));
    assert LongToString(5) == "5";
  }
}
