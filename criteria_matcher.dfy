/** Evaluation of query criteria against a database record given as a map
    from column names to values. */
module CriteriaMatcher {
  import opened Wrappers
  import opened PrimitiveValueComparison
  import opened DatabaseCriteria

  /** A database record: column name to value. */
  type Record = map<string, Value>

  /** `object.get(column)`: the stored value, or null for a missing key. */
  function Lookup(rec: Record, column: string): (v: Value)
    ensures column !in rec ==> v == Null
    ensures column in rec ==> v == rec[column]
  {
    if column in rec then rec[column] else Null
  }

  /** The per-operator matchers: the record value comes first. */
  predicate CompareMatches(op: CompareOp, recordValue: Value, value: Value) {
    match op
    case EQ => IsEqual(recordValue, value)
    case NE => !IsEqual(recordValue, value)
    case LT => IsLessThan(recordValue, value)
    case GT => IsGreaterThan(recordValue, value)
    case LE => IsLessEqual(recordValue, value)
    case GE => IsGreaterEqual(recordValue, value)
  }

  /** `matches`: dispatch on the criteria class; an unknown class is an
      error. And stops at the first operand that does not match, Or at the
      first that does, so an error is reported only if it is reached. */
  function Matches(rec: Record, c: Criteria): (r: Result<bool, string>)
    ensures c.Other? ==> r.Err?
    ensures c.Compare? ==> r == Ok(CompareMatches(c.op, Lookup(rec, c.column), c.value))
    decreases c
  {
    match c
    case Compare(op, col, v) => Ok(CompareMatches(op, Lookup(rec, col), v))
    case And(xs) => MatchesAll(rec, xs)
    case Or(xs) => MatchesAny(rec, xs)
    case Other(name) => Err("Subclass of DatabaseCriteria not supported: " + name)
  }

  /** The loop of `matchesAnd`, from the first operand on. */
  function MatchesAll(rec: Record, xs: seq<Criteria>): (r: Result<bool, string>)
    ensures |xs| == 0 ==> r == Ok(true)
    decreases xs
  {
    if |xs| == 0 then Ok(true)
    else match Matches(rec, xs[0])
      case Err(e) => Err(e)
      case Ok(b) => if !b then Ok(false) else MatchesAll(rec, xs[1..])
  }

  /** The loop of `matchesOr`, from the first operand on. */
  function MatchesAny(rec: Record, xs: seq<Criteria>): (r: Result<bool, string>)
    ensures |xs| == 0 ==> r == Ok(false)
    decreases xs
  {
    if |xs| == 0 then Ok(false)
    else match Matches(rec, xs[0])
      case Err(e) => Err(e)
      case Ok(b) => if b then Ok(true) else MatchesAny(rec, xs[1..])
  }

  /** The meaning of a supported criteria tree: And is conjunction and Or is
      disjunction over the operands. */
  predicate Holds(rec: Record, c: Criteria)
    requires Supported(c)
    decreases c
  {
    match c
    case Compare(op, col, v) => CompareMatches(op, Lookup(rec, col), v)
    case And(xs) => forall i :: 0 <= i < |xs| ==> Holds(rec, xs[i])
    case Or(xs) => exists i :: 0 <= i < |xs| && Holds(rec, xs[i])
  }

  // ---------------------------------------------------------------------
  // Properties

  /** A supported criteria tree never raises, and matches exactly the records
      it holds for. */
  lemma {:induction false} MatchesMeansHolds(rec: Record, c: Criteria)
    requires Supported(c)
    ensures Matches(rec, c) == Ok(Holds(rec, c))
    decreases c, 1
  {
    match c {
      case Compare(_, _, _) =>
      case And(xs) =>
        AllMeansEvery(rec, c, xs);
      case Or(xs) =>
        AnyMeansSome(rec, c, xs);
    }
  }

  lemma {:induction false} AllMeansEvery(rec: Record, c: Criteria, xs: seq<Criteria>)
    requires Supported(c) && (c.And? || c.Or?)
    requires forall k :: 0 <= k < |xs| ==> xs[k] in c.operands
    ensures AllSupported(xs)
    ensures MatchesAll(rec, xs) == Ok(forall i :: 0 <= i < |xs| ==> Holds(rec, xs[i]))
    decreases c, 0, |xs|
  {
    if |xs| > 0 {
      assert xs[0] in c.operands;
      MatchesMeansHolds(rec, xs[0]);
      var tail := xs[1..];
      assert forall k :: 0 <= k < |tail| ==> tail[k] == xs[k + 1];
      AllMeansEvery(rec, c, tail);
    }
  }

  lemma {:induction false} AnyMeansSome(rec: Record, c: Criteria, xs: seq<Criteria>)
    requires Supported(c) && (c.And? || c.Or?)
    requires forall k :: 0 <= k < |xs| ==> xs[k] in c.operands
    ensures AllSupported(xs)
    ensures MatchesAny(rec, xs) == Ok(exists i :: 0 <= i < |xs| && Holds(rec, xs[i]))
    decreases c, 0, |xs|
  {
    if |xs| > 0 {
      assert xs[0] in c.operands;
      MatchesMeansHolds(rec, xs[0]);
      var tail := xs[1..];
      assert forall k :: 0 <= k < |tail| ==> tail[k] == xs[k + 1];
      AnyMeansSome(rec, c, tail);
      if Holds(rec, xs[0]) {
        assert Holds(rec, xs[0]);
      } else if exists i :: 0 <= i < |tail| && Holds(rec, tail[i]) {
        var i :| 0 <= i < |tail| && Holds(rec, tail[i]);
        assert Holds(rec, xs[i + 1]);
      }
    }
  }

  /** Equal(col, null) selects exactly the records without a value for col;
      Equal on any value selects records whose value is equal to it. */
  lemma EqualNullSelectsMissing(rec: Record, col: string)
    ensures Matches(rec, Compare(EQ, col, Null)) == Ok(col !in rec || rec[col].Null?)
  {
  }

  /** NotEqual is the exact complement of Equal for every record. */
  lemma NotEqualIsComplement(rec: Record, col: string, v: Value)
    ensures Matches(rec, Compare(EQ, col, v)).Ok? && Matches(rec, Compare(NE, col, v)).Ok?
    ensures Matches(rec, Compare(NE, col, v)).value == !Matches(rec, Compare(EQ, col, v)).value
  {
  }

  /** An empty And matches every record and an empty Or matches none. */
  lemma EmptyLogicalOperators(rec: Record)
    ensures Matches(rec, And([])) == Ok(true)
    ensures Matches(rec, Or([])) == Ok(false)
  {
  }

  /** An unsupported class raises as soon as it is evaluated, but the
      short-circuit of And and Or can pass over it. */
  lemma UnsupportedReachedOrSkipped(rec: Record, col: string)
    ensures Matches(rec, Other("X")).Err?
    ensures Matches(rec, And([Compare(EQ, col, Null), Other("X")])).Err? <==> col !in rec || rec[col].Null?
    ensures Matches(rec, Or([Compare(EQ, col, Null), Other("X")])) == Ok(true) <==> col !in rec || rec[col].Null?
  {
    var first := Compare(EQ, col, Null);
    var xs := [first, Other("X")];
    assert xs[0] == first && xs[1..] == [Other("X")];
    assert MatchesAll(rec, [Other("X")]).Err?;
    assert MatchesAny(rec, [Other("X")]).Err?;
    assert Matches(rec, first) == Ok(col !in rec || rec[col].Null?);
  }
}
