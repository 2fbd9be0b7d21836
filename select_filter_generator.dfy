/** The client side of select filters: a criteria tree written as a JSON
    object, one entry per node. */
module SelectFilterGenerator {
  import opened Wrappers
  import opened Json
  import opened PrimitiveValueComparison
  import opened DatabaseCriteria

  /** A primitive value as it appears in the JSON object. */
  function ValueJson(v: Value): (j: Json)
    ensures v.Null? <==> j.JNull?
    ensures v.Int? <==> j.JInt?
    ensures v.Str? <==> j.JStr?
  {
    match v
    case Null => JNull
    case Int(_, i) => JInt(i)
    case Str(s) => JStr(s)
  }

  /** The operator key of a comparison other than Equal. */
  function OpKey(op: CompareOp): string
    requires op != EQ
  {
    match op
    case NE => "$ne"
    case LT => "$lt"
    case GT => "$gt"
    case LE => "$le"
    case GE => "$ge"
  }

  /** `toJsonObject`: Equal becomes `{column: value}`, the other comparisons
      `{column: {"$op": value}}`, And and Or `{"$and"|"$or": [operands]}`;
      any other class is an error. */
  function ToJsonObject(c: Criteria): (r: Result<Json, string>)
    ensures r.Ok? <==> Supported(c)
    ensures r.Ok? ==> r.value.JObject? && |r.value.entries| == 1
    decreases c, 1
  {
    match c
    case Compare(op, col, v) =>
      if op == EQ then Ok(Entry(col, ValueJson(v)))
      else Ok(Entry(col, Entry(OpKey(op), ValueJson(v))))
    case And(xs) =>
      var items :- OperandsJson(c, xs);
      Ok(Entry("$and", JArray(items)))
    case Or(xs) =>
      var items :- OperandsJson(c, xs);
      Ok(Entry("$or", JArray(items)))
    case Other(name) => Err("DatabaseCriteria class " + name + " not supported")
  }

  /** The operand list of And or Or, in operand order. */
  function OperandsJson(ghost c: Criteria, xs: seq<Criteria>): (r: Result<seq<Json>, string>)
    requires forall k :: 0 <= k < |xs| ==> xs[k] < c
    ensures r.Ok? <==> AllSupported(xs)
    ensures r.Ok? ==> |r.value| == |xs|
    ensures r.Ok? ==> forall k :: 0 <= k < |xs| ==> ToJsonObject(xs[k]) == Ok(r.value[k])
    decreases c, 0, |xs|
  {
    if |xs| == 0 then Ok([])
    else
      var init :- OperandsJson(c, xs[..|xs| - 1]);
      var last :- ToJsonObject(xs[|xs| - 1]);
      Ok(init + [last])
  }
}
