/** The service side of select filters: a JSON filter object parsed back
    into a criteria tree for one table, and a sort list checked against the
    table's columns. */
module SelectFilterParser {
  import opened Wrappers
  import opened JavaText
  import opened Json
  import opened PrimitiveValueComparison
  import opened DatabaseCriteria
  import opened DatabaseSort
  import SelectFilterGenerator

  /** A `ParseException` (bad input) or an unexpected runtime error. */
  datatype FilterError = ParseError(message: string) | Unexpected(message: string)

  /** Normalisation of a field value: the value is mapped into the table's
      data class and back. It fails with a message, or yields a value, or
      yields an object that is neither a string nor a number (`None`). */
  type Normaliser = (string, Json) -> Result<Option<Value>, string>

  /** The table a parser works for: its name, its column names and the
      normalisation of its field values. */
  datatype Table = Table(name: string, fields: seq<string>, normalise: Normaliser)

  /** Fields that filters may not name. */
  const FORBIDDEN_FIELDS: seq<string> := ["id", "user"]

  /** A class name for the kind of a JSON value, used in messages. */
  function KindName(j: Json): string {
    match j
    case JNull => "null"
    case JInt(_) => "java.lang.Integer"
    case JStr(_) => "java.lang.String"
    case JOther(name) => name
    case JArray(_) => "java.util.ArrayList"
    case JObject(_) => "java.util.LinkedHashMap"
  }

  /** The comparison an operator key names. */
  function ParseOperator(key: string): (r: Option<CompareOp>)
    ensures r.Some? ==> r.value != EQ && SelectFilterGenerator.OpKey(r.value) == key
  {
    if key == "$ne" then Some(NE)
    else if key == "$gt" then Some(GT)
    else if key == "$lt" then Some(LT)
    else if key == "$le" then Some(LE)
    else if key == "$ge" then Some(GE)
    else None
  }

  /** `parseFilterMap`: a filter is an object with exactly one entry with a
      string key; "$and" and "$or" introduce operand lists, any other key is
      a field. */
  function ParseFilter(t: Table, j: Json): (r: Result<Criteria, FilterError>)
    ensures r.Ok? ==> Supported(r.value)
    ensures r.Ok? ==> j.JObject? && |j.entries| == 1 && j.entries[0].0.JStr?
    decreases j, 2
  {
    if j.JNull? then Err(ParseError("Expected filter object, found null"))
    else if !j.JObject? then Err(ParseError("Expected filter object, found: " + KindName(j)))
    else if |j.entries| != 1 then
      Err(ParseError("Filter object has " + LongToString(|j.entries|) + " entries, expected 1"))
    else
      var (key, value) := j.entries[0];
      assert j.entries[0] in j.entries;
      if key.JNull? then Err(ParseError("Expected string key in filter object, found null"))
      else if !key.JStr? then Err(ParseError("Expected string key in filter object, found: " + KindName(key)))
      else if key.s == "$and" then ParseLogical(t, true, value)
      else if key.s == "$or" then ParseLogical(t, false, value)
      else ParseField(t, key.s, value)
  }

  /** `parseFilterAnd` and `parseFilterOr`: a non-empty list of filters; one
      filter stands for itself. */
  function ParseLogical(t: Table, isAnd: bool, value: Json): (r: Result<Criteria, FilterError>)
    ensures r.Ok? ==> Supported(r.value)
    decreases value, 1
  {
    var name := if isAnd then "AND" else "OR";
    if value.JNull? then Err(ParseError("Expected list after " + name + ", found null"))
    else if !value.JArray? then Err(ParseError("Expected list after " + name + ", found: " + KindName(value)))
    else
      var ops :- ParseItems(t, value.items);
      if |ops| == 0 then Err(ParseError("Empty " + name + " list"))
      else if |ops| == 1 then Ok(ops[0])
      else if isAnd then Ok(And(ops))
      else Ok(Or(ops))
  }

  /** The filters of a list, parsed in order; the first failure is reported. */
  function ParseItems(t: Table, items: seq<Json>): (r: Result<seq<Criteria>, FilterError>)
    ensures r.Ok? ==> |r.value| == |items| && AllSupported(r.value)
    decreases items, 0
  {
    if |items| == 0 then Ok([])
    else
      var init :- ParseItems(t, items[..|items| - 1]);
      var last :- ParseFilter(t, items[|items| - 1]);
      Ok(init + [last])
  }

  /** The value of a field condition after normalisation. */
  function NormalisedValue(t: Table, field: string, value: Json): Result<Value, FilterError> {
    match t.normalise(field, value)
    case Err(msg) => Err(ParseError(msg))
    case Ok(None) =>
      Err(Unexpected("Value for field \"" + field + "\" in table \"" + t.name + "\" is not a string or number"))
    case Ok(Some(v)) => Ok(v)
  }

  /** `parseFilterField`: the field must be allowed and in the table; an
      object value holds an operator, any other value is compared for
      equality. */
  function ParseField(t: Table, field: string, value: Json): (r: Result<Criteria, FilterError>)
    ensures r.Ok? ==> r.value.Compare? && r.value.column == field
    ensures r.Ok? ==> field !in FORBIDDEN_FIELDS && field in t.fields
    ensures r.Ok? ==> (r.value.op == EQ <==> !value.JObject?)
  {
    if field in FORBIDDEN_FIELDS then
      Err(ParseError("Filter on field \"" + field + "\" not allowed"))
    else if field !in t.fields then
      Err(ParseError("Field \"" + field + "\" not found in table \"" + t.name + "\""))
    else if value.JObject? then ParseFieldOperator(t, field, value.entries)
    else
      var v :- NormalisedValue(t, field, value);
      Ok(Compare(EQ, field, v))
  }

  /** `parseFilterFieldOperator`: exactly one entry with a string key; the
      value is normalised before the operator is checked. */
  function ParseFieldOperator(t: Table, field: string, entries: seq<(Json, Json)>): (r: Result<Criteria, FilterError>)
    ensures r.Ok? ==> r.value.Compare? && r.value.column == field && r.value.op != EQ
    ensures r.Ok? ==> |entries| == 1 && entries[0].0.JStr? &&
                      ParseOperator(entries[0].0.s) == Some(r.value.op)
  {
    if |entries| == 0 then Err(ParseError("Empty select object after field \"" + field + "\""))
    else if |entries| != 1 then
      Err(ParseError("Select object after field \"" + field + "\" has " +
        LongToString(|entries|) + " entries, expected 1"))
    else
      var (key, value) := entries[0];
      if key.JNull? then
        Err(ParseError("Expected string key in select object after field \"" + field + "\", found null"))
      else if !key.JStr? then
        Err(ParseError("Expected string key in select object after field \"" + field + "\", found: " + KindName(key)))
      else
        var v :- NormalisedValue(t, field, value);
        match ParseOperator(key.s)
        case None => Err(ParseError("Invalid operator \"" + key.s + "\" at field \"" + field + "\""))
        case Some(op) => Ok(Compare(op, field, v))
  }

  // ---------------------------------------------------------------------
  // The parser as the source runs it: recursive descent whose list cases
  // collect the operands in a loop.

  method ParseFilterMap(t: Table, j: Json) returns (r: Result<Criteria, FilterError>)
    ensures r == ParseFilter(t, j)
    decreases j, 2
  {
    if j.JNull? {
      return Err(ParseError("Expected filter object, found null"));
    } else if !j.JObject? {
      return Err(ParseError("Expected filter object, found: " + KindName(j)));
    } else if |j.entries| != 1 {
      return Err(ParseError("Filter object has " + LongToString(|j.entries|) + " entries, expected 1"));
    }
    var (key, value) := j.entries[0];
    assert j.entries[0] in j.entries;
    if key.JNull? {
      r := Err(ParseError("Expected string key in filter object, found null"));
    } else if !key.JStr? {
      r := Err(ParseError("Expected string key in filter object, found: " + KindName(key)));
    } else if key.s == "$and" {
      r := ParseFilterList(t, true, value);
    } else if key.s == "$or" {
      r := ParseFilterList(t, false, value);
    } else {
      r := ParseField(t, key.s, value);
    }
  }

  method ParseFilterList(t: Table, isAnd: bool, value: Json) returns (r: Result<Criteria, FilterError>)
    ensures r == ParseLogical(t, isAnd, value)
    decreases value, 1
  {
    var name := if isAnd then "AND" else "OR";
    if value.JNull? {
      return Err(ParseError("Expected list after " + name + ", found null"));
    } else if !value.JArray? {
      return Err(ParseError("Expected list after " + name + ", found: " + KindName(value)));
    }
    var items := value.items;
    var ops: seq<Criteria> := [];
    var k := 0;
    while k < |items|
      invariant 0 <= k <= |items|
      invariant ParseItems(t, items[..k]) == Ok(ops)
    {
      assert items[k] in items;
      var op := ParseFilterMap(t, items[k]);
      assert items[..k + 1][..k] == items[..k];
      if op.Err? {
        ItemsErrorPersists(t, items, k + 1);
        return Err(op.error);
      }
      ops := ops + [op.value];
      k := k + 1;
    }
    assert items[..k] == items;
    if |ops| == 0 {
      r := Err(ParseError("Empty " + name + " list"));
    } else if |ops| == 1 {
      r := Ok(ops[0]);
    } else if isAnd {
      r := Ok(And(ops));
    } else {
      r := Ok(Or(ops));
    }
  }

  /** A failure in the first `n` items is the failure of the whole list. */
  lemma {:induction false} ItemsErrorPersists(t: Table, items: seq<Json>, n: nat)
    requires n <= |items| && ParseItems(t, items[..n]).Err?
    ensures ParseItems(t, items) == ParseItems(t, items[..n])
    decreases |items| - n
  {
    if n < |items| {
      var m := n + 1;
      assert items[..m][..n] == items[..n];
      ItemsErrorPersists(t, items, m);
    } else {
      assert items[..n] == items;
    }
  }

  /** `parseSort`: every sort order needs a column that is in the table. The
      error for an unknown column formats the looked-up field, which is null
      at that point, so the message names "null" instead of the column. */
  /** The message for a sort column that is not in the table, showing
      `shown` as the column. */
  function UnknownSortColumn(t: Table, shown: string): FilterError {
    ParseError("Sort column \"" + shown + "\" not found in table \"" + t.name + "\"")
  }

  /** The check of `parseSort`: the first sort item without a column, or
      with a column the table does not have, is an error. When `asWritten`
      holds, the unknown-column message shows the null `field` variable as
      the source formats it; otherwise it shows the column itself. */
  function SortCheck(t: Table, sort: seq<SortKey>, asWritten: bool): (r: Result<seq<SortKey>, FilterError>)
    ensures r.Ok? <==> forall i :: 0 <= i < |sort| ==> sort[i].column.Some? && sort[i].column.value in t.fields
    ensures r.Ok? ==> r.value == sort
  {
    if |sort| == 0 then Ok(sort)
    else if sort[0].column.None? then Err(ParseError("Sort column not specified"))
    else if sort[0].column.value !in t.fields then
      Err(UnknownSortColumn(t, if asWritten then "null" else sort[0].column.value))
    else
      var rest := SortCheck(t, sort[1..], asWritten);
      assert forall i :: 1 <= i < |sort| ==> sort[i] == sort[1..][i - 1];
      if rest.Err? then rest else Ok(sort)
  }

  /** Once a prefix of the sort list has passed, the check of the whole list
      is the check of the rest. */
  lemma {:induction false} SortCheckSuffix(t: Table, sort: seq<SortKey>, k: nat, asWritten: bool)
    requires k <= |sort|
    requires forall i :: 0 <= i < k ==> sort[i].column.Some? && sort[i].column.value in t.fields
    ensures SortCheck(t, sort, asWritten) ==
            if SortCheck(t, sort[k..], asWritten).Err? then SortCheck(t, sort[k..], asWritten) else Ok(sort)
    decreases k
  {
    if k > 0 {
      SortCheckSuffix(t, sort[1..], k - 1, asWritten);
      assert sort[1..][k - 1..] == sort[k..];
    }
  }

  /** `parseSort`, with the unknown-column message naming the column. */
  method ParseSort(t: Table, sort: seq<SortKey>) returns (r: Result<seq<SortKey>, FilterError>)
    ensures r == SortCheck(t, sort, false)
  {
    var k := 0;
    while k < |sort|
      invariant 0 <= k <= |sort|
      invariant forall i :: 0 <= i < k ==> sort[i].column.Some? && sort[i].column.value in t.fields
    {
      if sort[k].column.None? || sort[k].column.value !in t.fields {
        SortCheckSuffix(t, sort, k, false);
        assert sort[k..][0] == sort[k];
        if sort[k].column.None? {
          return Err(ParseError("Sort column not specified"));
        }
        return Err(UnknownSortColumn(t, sort[k].column.value));
      }
      k := k + 1;
    }
    return Ok(sort);
  }

  /** As written, the message for an unknown sort column shows "null"
      whatever the column is: sorting on "steps" in a table without it
      reports column "null". */
  lemma SortMessageHidesColumn(t: Table)
    requires "steps" !in t.fields
    ensures SortCheck(t, [SortKey(Some("steps"), true)], true) == Err(UnknownSortColumn(t, "null"))
    ensures SortCheck(t, [SortKey(Some("steps"), true)], false) == Err(UnknownSortColumn(t, "steps"))
  {
  }

  /** The first failing item decides the error; with the corrected message
      an unknown column is named, as written it never is. */
  lemma SortErrorNamesColumn(t: Table, sort: seq<SortKey>, k: nat)
    requires k < |sort| && sort[k].column.Some? && sort[k].column.value !in t.fields
    requires forall i :: 0 <= i < k ==> sort[i].column.Some? && sort[i].column.value in t.fields
    ensures SortCheck(t, sort, false) == Err(UnknownSortColumn(t, sort[k].column.value))
    ensures SortCheck(t, sort, true) == Err(UnknownSortColumn(t, "null"))
  {
    SortCheckSuffix(t, sort, k, false);
    SortCheckSuffix(t, sort, k, true);
    assert sort[k..][0] == sort[k];
  }

  // ---------------------------------------------------------------------
  // Properties

  /** "$and" and "$or" need a non-empty list, and a one-element list stands
      for its element. */
  lemma LogicalListRules(t: Table, isAnd: bool, x: Json)
    ensures ParseLogical(t, isAnd, JArray([])).Err?
    ensures ParseLogical(t, isAnd, JNull).Err?
    ensures ParseLogical(t, isAnd, JArray([x])) == ParseFilter(t, x)
  {
    assert [x][..0] == [];
  }

  /** The operator keys the generator writes are exactly the keys the parser
      accepts, each naming the same comparison. */
  lemma OperatorKeysAgree(op: CompareOp, key: string)
    ensures op != EQ ==> ParseOperator(SelectFilterGenerator.OpKey(op)) == Some(op)
    ensures ParseOperator(key).Some? <==> key in ["$ne", "$gt", "$lt", "$le", "$ge"]
  {
  }

  /** A criteria tree with its integer values in normal form. */
  function NormalizeCriteria(c: Criteria): (r: Criteria)
    ensures c.Compare? <==> r.Compare?
    ensures c.Compare? ==> r == Compare(c.op, c.column, NormalizeValue(c.value))
    decreases c, 1
  {
    match c
    case Compare(op, col, v) => Compare(op, col, NormalizeValue(v))
    case And(xs) => And(NormalizeAll(c, xs))
    case Or(xs) => Or(NormalizeAll(c, xs))
    case Other(name) => Other(name)
  }

  function NormalizeAll(ghost c: Criteria, xs: seq<Criteria>): (r: seq<Criteria>)
    requires forall k :: 0 <= k < |xs| ==> xs[k] < c
    ensures |r| == |xs|
    decreases c, 0, |xs|
  {
    if |xs| == 0 then []
    else NormalizeAll(c, xs[..|xs| - 1]) + [NormalizeCriteria(xs[|xs| - 1])]
  }

  /** The criteria trees that survive a round trip: every column is a
      table field that filters may name and that is not an operator key,
      and every And and Or has at least two operands. */
  predicate Parsable(t: Table, c: Criteria)
    decreases c
  {
    match c
    case Compare(_, col, _) =>
      col in t.fields && col !in FORBIDDEN_FIELDS && col != "$and" && col != "$or"
    case And(xs) => |xs| >= 2 && forall i :: 0 <= i < |xs| ==> Parsable(t, xs[i])
    case Or(xs) => |xs| >= 2 && forall i :: 0 <= i < |xs| ==> Parsable(t, xs[i])
    case Other(_) => false
  }

  /** The table's normalisation maps every generated value to its normal
      form. */
  ghost predicate NormaliserKeepsValues(t: Table) {
    forall f: string, v: Value :: t.normalise(f, SelectFilterGenerator.ValueJson(v)) == Ok(Some(NormalizeValue(v)))
  }

  /** Round trip: parsing the generated JSON object gives back the criteria
      tree, with its values normalised. */
  lemma {:induction false} RoundTrip(t: Table, c: Criteria)
    requires NormaliserKeepsValues(t) && Parsable(t, c)
    ensures SelectFilterGenerator.ToJsonObject(c).Ok?
    ensures ParseFilter(t, SelectFilterGenerator.ToJsonObject(c).value) == Ok(NormalizeCriteria(c))
    decreases c, 1
  {
    match c {
      case Compare(op, col, v) =>
        CompareRoundTrip(t, op, col, v);
      case And(xs) =>
        ItemsRoundTrip(t, c, xs);
      case Or(xs) =>
        ItemsRoundTrip(t, c, xs);
    }
  }

  /** A condition on a field comes back as itself, with its value in normal
      form. */
  lemma CompareRoundTrip(t: Table, op: CompareOp, col: string, v: Value)
    requires NormaliserKeepsValues(t) && Parsable(t, Compare(op, col, v))
    ensures SelectFilterGenerator.ToJsonObject(Compare(op, col, v)).Ok?
    ensures ParseFilter(t, SelectFilterGenerator.ToJsonObject(Compare(op, col, v)).value) ==
            Ok(NormalizeCriteria(Compare(op, col, v)))
  {
    var vj := SelectFilterGenerator.ValueJson(v);
    assert t.normalise(col, vj) == Ok(Some(NormalizeValue(v)));
    if op != EQ {
      OperatorKeysAgree(op, "");
    }
  }

  lemma {:induction false} ItemsRoundTrip(t: Table, c: Criteria, xs: seq<Criteria>)
    requires NormaliserKeepsValues(t)
    requires forall k :: 0 <= k < |xs| ==> xs[k] < c && Parsable(t, xs[k])
    ensures SelectFilterGenerator.OperandsJson(c, xs).Ok?
    ensures ParseItems(t, SelectFilterGenerator.OperandsJson(c, xs).value) == Ok(NormalizeAll(c, xs))
    decreases c, 0, |xs|
  {
    if |xs| > 0 {
      var init := xs[..|xs| - 1];
      var last := xs[|xs| - 1];
      ItemsRoundTrip(t, c, init);
      RoundTrip(t, last);
      var items := SelectFilterGenerator.OperandsJson(c, xs).value;
      var initItems := SelectFilterGenerator.OperandsJson(c, init).value;
      assert items == initItems + [SelectFilterGenerator.ToJsonObject(last).value];
      assert items[..|items| - 1] == initItems;
    }
  }

  /** The cases the round trip excludes: an empty And is written but not
      accepted back, a one-operand And comes back as its operand, and a
      condition on "id" is refused. */
  lemma RoundTripExceptions(t: Table, a: Criteria)
    requires NormaliserKeepsValues(t) && Parsable(t, a)
    ensures SelectFilterGenerator.ToJsonObject(And([])) == Ok(Entry("$and", JArray([])))
    ensures ParseFilter(t, Entry("$and", JArray([]))) == Err(ParseError("Empty AND list"))
    ensures SelectFilterGenerator.ToJsonObject(And([a])).Ok?
    ensures ParseFilter(t, SelectFilterGenerator.ToJsonObject(And([a])).value) == Ok(NormalizeCriteria(a))
    ensures ParseFilter(t, Entry("id", JInt(1))).Err?
  {
    assert ParseItems(t, []) == Ok([]);
    assert "Empty " + "AND" + " list" == "Empty AND list";
    assert ParseLogical(t, true, JArray([])) == Err(ParseError("Empty AND list"));
    RoundTrip(t, a);
    var aj := SelectFilterGenerator.ToJsonObject(a).value;
    var items := SelectFilterGenerator.OperandsJson(And([a]), [a]).value;
    assert items == [aj];
    LogicalListRules(t, true, aj);
  }
}
