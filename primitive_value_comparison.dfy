/** Comparison of primitive database values: integers, strings and null.
    Integers of every Java width compare by their `long` value; any other
    pair of non-null values compares by its text. */
module PrimitiveValueComparison {
  import opened JavaText

  /** The boxed integer classes that count as integers. */
  datatype IntKind = Byte | Short | Integer | Long

  /** A primitive database value. `Str` stands for any non-number object,
      which takes part in comparisons through its `toString()`. */
  datatype Value = Null | Int(kind: IntKind, i: int) | Str(s: string)

  /** The text `toString()` gives for a non-null value. */
  function Text(v: Value): string
    requires !v.Null?
  {
    match v
    case Int(_, i) => LongToString(i)
    case Str(s) => s
  }

  /** Every value of one kind (both null, both integers, both strings). */
  predicate SameKind(a: Value, b: Value) {
    (a.Null? && b.Null?) || (a.Int? && b.Int?) || (a.Str? && b.Str?)
  }

  /** Maps a value to the representative used for hashing: integers become
      `Long`, other objects become their text. */
  function NormalizeValue(v: Value): (r: Value)
    ensures r.Null? <==> v.Null?
    ensures v.Int? ==> r == Int(Long, v.i)
    ensures v.Str? ==> r == v
  {
    match v
    case Null => Null
    case Int(_, i) => Int(Long, i)
    case Str(s) => Str(s)
  }

  predicate IsEqual(a: Value, b: Value) {
    if a.Null? && b.Null? then true
    else if a.Null? || b.Null? then false
    else if a.Int? && b.Int? then a.i == b.i
    else Text(a) == Text(b)
  }

  predicate IsLessThan(a: Value, b: Value) {
    if a.Null? && b.Null? then false
    else if a.Null? then true
    else if b.Null? then false
    else if a.Int? && b.Int? then a.i < b.i
    else CompareTo(Text(a), Text(b)) < 0
  }

  predicate IsLessEqual(a: Value, b: Value) {
    if a.Null? && b.Null? then true
    else if a.Null? then true
    else if b.Null? then false
    else if a.Int? && b.Int? then a.i <= b.i
    else CompareTo(Text(a), Text(b)) <= 0
  }

  predicate IsGreaterThan(a: Value, b: Value) {
    if a.Null? && b.Null? then false
    else if a.Null? then false
    else if b.Null? then true
    else if a.Int? && b.Int? then a.i > b.i
    else CompareTo(Text(a), Text(b)) > 0
  }

  predicate IsGreaterEqual(a: Value, b: Value) {
    if a.Null? && b.Null? then true
    else if a.Null? then false
    else if b.Null? then true
    else if a.Int? && b.Int? then a.i >= b.i
    else CompareTo(Text(a), Text(b)) >= 0
  }

  /** Null equals only null. */
  lemma NullEqualsOnlyNull(v: Value)
    ensures IsEqual(Null, v) <==> v.Null?
    ensures IsEqual(v, Null) <==> v.Null?
  {
  }

  /** Null is below every non-null value in all four orderings. */
  lemma NullIsLeast(v: Value)
    requires !v.Null?
    ensures IsLessThan(Null, v) && !IsLessThan(v, Null)
    ensures IsLessEqual(Null, v) && !IsLessEqual(v, Null)
    ensures IsGreaterThan(v, Null) && !IsGreaterThan(Null, v)
    ensures IsGreaterEqual(v, Null) && !IsGreaterEqual(Null, v)
  {
  }

  /** `<=` is `<` or equal, for every pair of values. */
  lemma LessEqualIsLessOrEqual(a: Value, b: Value)
    ensures IsLessEqual(a, b) <==> IsLessThan(a, b) || IsEqual(a, b)
  {
    if !a.Null? && !b.Null? && !(a.Int? && b.Int?) {
      assert CompareTo(Text(a), Text(b)) == 0 <==> Text(a) == Text(b);
    }
  }

  /** `>` and `>=` are the converses of `<` and `<=`. */
  lemma GreaterIsConverse(a: Value, b: Value)
    ensures IsGreaterThan(a, b) <==> IsLessThan(b, a)
    ensures IsGreaterEqual(a, b) <==> IsLessEqual(b, a)
  {
    if !a.Null? && !b.Null? && !(a.Int? && b.Int?) {
      CompareToAntisymmetric(Text(a), Text(b));
    }
  }

  /** Equality is an equivalence relation, across kinds too: 5 equals "5"
      and "5" equals 5, and no other integer has the text "5". */
  lemma EqualIsEquivalence(a: Value, b: Value, c: Value)
    ensures IsEqual(a, a)
    ensures IsEqual(a, b) ==> IsEqual(b, a)
    ensures IsEqual(a, b) && IsEqual(b, c) ==> IsEqual(a, c)
  {
    if IsEqual(a, b) && IsEqual(b, c) && a.Int? && c.Int? {
      LongToStringInjective(a.i, c.i);
    }
  }

  /** `<` is irreflexive, and transitive among values of one kind. */
  lemma LessThanStrictOrder(a: Value, b: Value, c: Value)
    ensures !IsLessThan(a, a)
    ensures SameKind(a, b) && SameKind(b, c) && IsLessThan(a, b) && IsLessThan(b, c)
      ==> IsLessThan(a, c)
  {
    if !a.Null? {
      LessTrichotomy(Text(a), Text(a));
    }
    if a.Str? && b.Str? && c.Str? && IsLessThan(a, b) && IsLessThan(b, c) {
      LessTransitive(a.s, b.s, c.s);
    }
  }

  /** An integer against a string is compared as text: 10 < "9". */
  lemma MixedKindsCompareAsText()
    ensures IsLessThan(Int(Integer, 10), Str("9"))
    ensures !IsLessThan(Int(Integer, 10), Int(Integer, 9))
  {
    assert LongToString(10) == "10";
  }

  /** For values of one kind, equal values have equal normal forms, so they
      hash alike once normalised. */
  lemma EqualSameKindNormalizesEqual(a: Value, b: Value)
    requires SameKind(a, b) && IsEqual(a, b)
    ensures NormalizeValue(a) == NormalizeValue(b)
  {
  }

  /** Across kinds the promise fails: the integer 5 equals the string "5",
      yet their normal forms are 5L and "5". */
  lemma EqualMixedKindsNormalizeApart()
    ensures IsEqual(Int(Integer, 5), Str("5"))
    ensures NormalizeValue(Int(Integer, 5)) != NormalizeValue(Str("5"))
  {
    assert LongToString(5) == "5";
  }
}
