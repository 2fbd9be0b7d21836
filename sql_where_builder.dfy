/** The content of an SQL WHERE clause built from query criteria: a string
    with `?` placeholders and the list of arguments that fill them. */
module SqlWhereBuilder {
  import opened Wrappers
  import opened PrimitiveValueComparison
  import opened DatabaseCriteria

  /** What the builder asks of the database: the escaped name of the `_id`
      column, the columns of the table with their types, and the
      expression that compares a column of a given type. */
  datatype Context = Context(
    escapedId: string,
    columns: map<string, string>,
    compareColumn: (string, string) -> string)

  /** A piece of WHERE text with the arguments of its placeholders. */
  datatype Piece = Piece(text: string, args: seq<string>)

  /** The SQL operator of a comparison; Equal and NotEqual against null
      become IS and IS NOT. */
  function SqlOperator(op: CompareOp, v: Value): string {
    match op
    case EQ => if v.Null? then "IS" else "="
    case NE => if v.Null? then "IS NOT" else "!="
    case LT => "<"
    case GT => ">"
    case LE => "<="
    case GE => ">="
  }

  /** The column expression: "id" is the escaped `_id`, any other column
      must be in the table. */
  function ColumnText(ctx: Context, column: string): (r: Result<string, string>)
    ensures column == "id" ==> r == Ok(ctx.escapedId)
    ensures column != "id" ==> (r.Ok? <==> column in ctx.columns)
  {
    if column == "id" then Ok(ctx.escapedId)
    else if column !in ctx.columns then Err("Column \"" + column + "\" not found")
    else Ok(ctx.compareColumn(column, ctx.columns[column]))
  }

  /** `buildComparison`: column, operator, then NULL or a placeholder whose
      argument is the value's text. */
  function Comparison(ctx: Context, op: CompareOp, column: string, v: Value): (r: Result<Piece, string>)
    ensures r.Ok? <==> ColumnText(ctx, column).Ok?
    ensures r.Ok? ==> (r.value.args == [] <==> v.Null?)
  {
    var col :- ColumnText(ctx, column);
    if v.Null? then Ok(Piece(col + " " + SqlOperator(op, v) + " NULL", []))
    else Ok(Piece(col + " " + SqlOperator(op, v) + " ?", [PrimitiveValueComparison.Text(v)]))
  }

  /** `buildCriteria`: the piece a criteria tree appends. An unknown class
      appends nothing. */
  function Build(ctx: Context, c: Criteria): Result<Piece, string>
    decreases c, 1
  {
    match c
    case Compare(op, col, v) => Comparison(ctx, op, col, v)
    case And(xs) => BuildAll(ctx, c, xs, " AND ")
    case Or(xs) => BuildAll(ctx, c, xs, " OR ")
    case Other(_) => Ok(Piece("", []))
  }

  /** `buildAnd` and `buildOr`: every operand in parentheses, with the
      separator between them; the first failing operand stops the build. */
  function BuildAll(ctx: Context, ghost c: Criteria, xs: seq<Criteria>, sep: string): Result<Piece, string>
    requires forall k :: 0 <= k < |xs| ==> xs[k] < c
    decreases c, 0, |xs|
  {
    if |xs| == 0 then Ok(Piece("", []))
    else
      var init :- BuildAll(ctx, c, xs[..|xs| - 1], sep);
      var last :- Build(ctx, xs[|xs| - 1]);
      Ok(Piece(init.text + Parenthesised(if |xs| == 1 then "" else sep, last.text), init.args + last.args))
  }

  /** One operand's text in parentheses, after the separator `glue`. */
  function Parenthesised(glue: string, t: string): string {
    glue + "(" + t + ")"
  }

  /** The string buffer and argument list that the build appends to. */
  class Buffer {
    var text: string
    var args: seq<string>

    constructor ()
      ensures text == "" && args == []
    {
      text := "";
      args := [];
    }

    method Append(s: string)
      modifies this
      ensures text == old(text) + s && args == old(args)
    {
      text := text + s;
    }

    method AddArg(a: string)
      modifies this
      ensures text == old(text) && args == old(args) + [a]
    {
      args := args + [a];
    }
  }

  /** A finished WHERE clause: both parts are absent when there are no
      criteria. */
  datatype Where = Where(where: Option<string>, args: Option<seq<string>>)

  /** The comparison branch of `buildCriteria`: the column, the operator
      and a NULL or a placeholder with its argument. */
  method BuildComparison(ctx: Context, buf: Buffer, op: CompareOp, col: string, v: Value)
    returns (err: Option<string>)
    modifies buf
    ensures err.None? <==> Comparison(ctx, op, col, v).Ok?
    ensures err.Some? ==> Comparison(ctx, op, col, v) == Err(err.value)
    ensures err.None? ==> buf.text == old(buf.text) + Comparison(ctx, op, col, v).value.text
    ensures err.None? ==> buf.args == old(buf.args) + Comparison(ctx, op, col, v).value.args
  {
    var colText := ColumnText(ctx, col);
    if colText.Err? {
      return Some(colText.error);
    }
    ghost var start := buf.text;
    buf.Append(colText.value);
    buf.Append(" ");
    buf.Append(SqlOperator(op, v));
    var tail := if v.Null? then " NULL" else " ?";
    buf.Append(tail);
    if !v.Null? {
      buf.AddArg(PrimitiveValueComparison.Text(v));
    }
    AppendFour(start, colText.value, " ", SqlOperator(op, v), tail);
    return None;
  }

  /** The constructor of the builder: no criteria give no clause; otherwise
      the whole tree is appended to an empty buffer. A missing column is a
      database error. */
  method NewWhere(ctx: Context, criteria: Option<Criteria>) returns (r: Result<Where, string>)
    ensures criteria.None? ==> r == Ok(Where(None, None))
    ensures criteria.Some? ==> (r.Ok? <==> Build(ctx, criteria.value).Ok?)
    ensures criteria.Some? && r.Ok? ==>
      r.value == Where(Some(Build(ctx, criteria.value).value.text), Some(Build(ctx, criteria.value).value.args))
  {
    if criteria.None? {
      return Ok(Where(None, None));
    }
    var buf := new Buffer();
    var err := BuildCriteria(ctx, buf, criteria.value);
    if err.Some? {
      return Err(err.value);
    }
    assert buf.text == "" + Build(ctx, criteria.value).value.text;
    assert buf.args == [] + Build(ctx, criteria.value).value.args;
    assert "" + Build(ctx, criteria.value).value.text == Build(ctx, criteria.value).value.text;
    assert [] + Build(ctx, criteria.value).value.args == Build(ctx, criteria.value).value.args;
    return Ok(Where(Some(buf.text), Some(buf.args)));
  }

  method BuildCriteria(ctx: Context, buf: Buffer, c: Criteria) returns (err: Option<string>)
    modifies buf
    ensures err.None? <==> Build(ctx, c).Ok?
    ensures err.Some? ==> Build(ctx, c) == Err(err.value)
    ensures err.None? ==> buf.text == old(buf.text) + Build(ctx, c).value.text
    ensures err.None? ==> buf.args == old(buf.args) + Build(ctx, c).value.args
    decreases c, 2
  {
    match c {
      case Compare(op, col, v) =>
        err := BuildComparison(ctx, buf, op, col, v);
      case And(xs) =>
        err := BuildOperands(ctx, buf, c, xs, " AND ");
      case Or(xs) =>
        err := BuildOperands(ctx, buf, c, xs, " OR ");
      case Other(_) =>
        return None;
    }
  }

  method BuildOperands(ctx: Context, buf: Buffer, ghost c: Criteria, xs: seq<Criteria>, sep: string)
    returns (err: Option<string>)
    requires forall k :: 0 <= k < |xs| ==> xs[k] < c
    modifies buf
    ensures err.None? <==> BuildAll(ctx, c, xs, sep).Ok?
    ensures err.Some? ==> BuildAll(ctx, c, xs, sep) == Err(err.value)
    ensures err.None? ==> buf.text == old(buf.text) + BuildAll(ctx, c, xs, sep).value.text
    ensures err.None? ==> buf.args == old(buf.args) + BuildAll(ctx, c, xs, sep).value.args
    decreases c, 1
  {
    var first := true;
    var k := 0;
    assert xs[..0] == [];
    while k < |xs|
      invariant 0 <= k <= |xs|
      invariant first <==> k == 0
      invariant BuildAll(ctx, c, xs[..k], sep).Ok?
      invariant buf.text == old(buf.text) + BuildAll(ctx, c, xs[..k], sep).value.text
      invariant buf.args == old(buf.args) + BuildAll(ctx, c, xs[..k], sep).value.args
    {
      ghost var done := BuildAll(ctx, c, xs[..k], sep).value;
      var e := BuildOperand(ctx, buf, c, xs, sep, k, first);
      BuildAllStep(ctx, c, xs, sep, k);
      if e.Some? {
        BuildErrorPersists(ctx, c, xs, sep, k + 1);
        return e;
      }
      ghost var last := Build(ctx, xs[k]).value;
      ghost var chunk := Parenthesised(if first then "" else sep, last.text);
      AppendAssociates(old(buf.text), done.text, chunk);
      AppendAssociates(old(buf.args), done.args, last.args);
      assert BuildAll(ctx, c, xs[..k + 1], sep).value == Piece(done.text + chunk, done.args + last.args);
      first := false;
      k := k + 1;
    }
    assert xs[..k] == xs;
    return None;
  }

  /** One pass of the operand loop: the separator unless first, then the
      operand in parentheses. */
  method BuildOperand(ctx: Context, buf: Buffer, ghost c: Criteria, xs: seq<Criteria>, sep: string, k: nat, first: bool)
    returns (err: Option<string>)
    requires forall i :: 0 <= i < |xs| ==> xs[i] < c
    requires k < |xs| && (first <==> k == 0) && BuildAll(ctx, c, xs[..k], sep).Ok?
    modifies buf
    ensures err.None? <==> Build(ctx, xs[k]).Ok?
    ensures err.Some? ==> Build(ctx, xs[k]) == Err(err.value)
    ensures err.None? ==> buf.text == old(buf.text) + Parenthesised(if first then "" else sep, Build(ctx, xs[k]).value.text)
    ensures err.None? ==> buf.args == old(buf.args) + Build(ctx, xs[k]).value.args
    decreases c, 0
  {
    var glue := if first then "" else sep;
    buf.Append(glue);
    buf.Append("(");
    err := BuildCriteria(ctx, buf, xs[k]);
    if err.None? {
      buf.Append(")");
      var t := Build(ctx, xs[k]).value.text;
      assert buf.text == old(buf.text) + glue + "(" + t + ")";
      assert old(buf.text) + glue + "(" + t + ")" == old(buf.text) + Parenthesised(glue, t);
    }
  }

  lemma AppendAssociates<T>(a: seq<T>, b: seq<T>, c: seq<T>)
    ensures (a + b) + c == a + (b + c)
  {
  }

  lemma AppendFour<T>(s: seq<T>, a: seq<T>, b: seq<T>, c: seq<T>, d: seq<T>)
    ensures s + a + b + c + d == s + (a + b + c + d)
  {
    AppendAssociates(s, a, b);
    AppendAssociates(s, a + b, c);
    AppendAssociates(s, a + b + c, d);
  }

  /** One more operand: the piece grows by the separator and the
      parenthesised operand, or the build fails with the operand's error. */
  lemma BuildAllStep(ctx: Context, c: Criteria, xs: seq<Criteria>, sep: string, k: nat)
    requires forall i :: 0 <= i < |xs| ==> xs[i] < c
    requires k < |xs| && BuildAll(ctx, c, xs[..k], sep).Ok?
    ensures Build(ctx, xs[k]).Err? ==> BuildAll(ctx, c, xs[..k + 1], sep) == Err(Build(ctx, xs[k]).error)
    ensures Build(ctx, xs[k]).Ok? ==>
      var init, last := BuildAll(ctx, c, xs[..k], sep).value, Build(ctx, xs[k]).value;
      BuildAll(ctx, c, xs[..k + 1], sep) ==
        Ok(Piece(init.text + Parenthesised(if k == 0 then "" else sep, last.text), init.args + last.args))
  {
    var ys := xs[..k + 1];
    assert ys[..k] == xs[..k] && ys[k] == xs[k];
  }

  /** A failure among the first `n` operands is the failure of the whole
      operand list. */
  lemma {:induction false} BuildErrorPersists(ctx: Context, c: Criteria, xs: seq<Criteria>, sep: string, n: nat)
    requires forall k :: 0 <= k < |xs| ==> xs[k] < c
    requires n <= |xs| && BuildAll(ctx, c, xs[..n], sep).Err?
    ensures BuildAll(ctx, c, xs, sep) == BuildAll(ctx, c, xs[..n], sep)
    decreases |xs| - n
  {
    if n < |xs| {
      assert xs[..n + 1][..n] == xs[..n];
      BuildErrorPersists(ctx, c, xs, sep, n + 1);
    } else {
      assert xs[..n] == xs;
    }
  }

  // ---------------------------------------------------------------------
  // Properties

  /** The number of occurrences of `ch` in `s`. */
  function Count(s: string, ch: char): (n: nat)
    ensures n <= |s|
    ensures ch !in s ==> n == 0
  {
    if |s| == 0 then 0
    else Count(s[..|s| - 1], ch) + (if s[|s| - 1] == ch then 1 else 0)
  }

  lemma {:induction false} CountAppend(a: string, b: string, ch: char)
    ensures Count(a + b, ch) == Count(a, ch) + Count(b, ch)
    decreases |b|
  {
    if |b| == 0 {
      assert a + b == a;
    } else {
      var b' := b[..|b| - 1];
      assert (a + b)[..|a + b| - 1] == a + b';
      CountAppend(a, b', ch);
    }
  }

  /** The database's column expressions hold no placeholder character. */
  ghost predicate PlaceholderFree(ctx: Context) {
    '?' !in ctx.escapedId &&
    forall col: string, ty: string :: '?' !in ctx.compareColumn(col, ty)
  }

  /** Every placeholder has exactly one argument: the WHERE text holds as
      many `?` as there are arguments. */
  lemma {:induction false} PlaceholdersMatchArgs(ctx: Context, c: Criteria)
    requires PlaceholderFree(ctx)
    requires Build(ctx, c).Ok?
    ensures Count(Build(ctx, c).value.text, '?') == |Build(ctx, c).value.args|
    decreases c, 1
  {
    match c {
      case Compare(op, col, v) =>
        PlaceholdersOfComparison(ctx, op, col, v);
      case And(xs) =>
        PlaceholdersMatchArgsAll(ctx, c, xs, " AND ");
      case Or(xs) =>
        PlaceholdersMatchArgsAll(ctx, c, xs, " OR ");
      case Other(_) =>
    }
  }

  lemma PlaceholdersOfComparison(ctx: Context, op: CompareOp, col: string, v: Value)
    requires PlaceholderFree(ctx)
    requires Comparison(ctx, op, col, v).Ok?
    ensures Count(Comparison(ctx, op, col, v).value.text, '?') == |Comparison(ctx, op, col, v).value.args|
  {
    var colText := ColumnText(ctx, col).value;
    assert '?' !in colText;
    var opText := SqlOperator(op, v);
    var tail := if v.Null? then " NULL" else " ?";
    CountAppend(colText, " ", '?');
    CountAppend(colText + " ", opText, '?');
    CountAppend(colText + " " + opText, tail, '?');
    FixedTextsHaveNoPlaceholder(op, v);
    assert Count(" ?", '?') == 1 by {
      assert " ?"[..1] == " ";
    }
  }

  lemma FixedTextsHaveNoPlaceholder(op: CompareOp, v: Value)
    ensures Count(SqlOperator(op, v), '?') == 0
    ensures Count(" ", '?') == 0 && Count(" NULL", '?') == 0
  {
    match op {
      case EQ =>
      case NE =>
      case LT =>
      case GT =>
      case LE =>
      case GE =>
    }
  }

  lemma {:induction false} PlaceholdersMatchArgsAll(ctx: Context, c: Criteria, xs: seq<Criteria>, sep: string)
    requires PlaceholderFree(ctx) && '?' !in sep
    requires forall k :: 0 <= k < |xs| ==> xs[k] < c
    requires BuildAll(ctx, c, xs, sep).Ok?
    ensures Count(BuildAll(ctx, c, xs, sep).value.text, '?') == |BuildAll(ctx, c, xs, sep).value.args|
    decreases c, 0, |xs|
  {
    if |xs| > 0 {
      var init := BuildAll(ctx, c, xs[..|xs| - 1], sep).value;
      var last := Build(ctx, xs[|xs| - 1]).value;
      PlaceholdersMatchArgsAll(ctx, c, xs[..|xs| - 1], sep);
      PlaceholdersMatchArgs(ctx, xs[|xs| - 1]);
      var glue := if |xs| == 1 then "" else sep;
      CountParenthesised(glue, last.text);
      CountAppend(init.text, Parenthesised(glue, last.text), '?');
    }
  }

  /** Parentheses and a glue without placeholders add no placeholder. */
  lemma CountParenthesised(glue: string, t: string)
    requires '?' !in glue
    ensures Count(Parenthesised(glue, t), '?') == Count(t, '?')
  {
    CountAppend(glue, "(", '?');
    CountAppend(glue + "(", t, '?');
    CountAppend(glue + "(" + t, ")", '?');
    assert Count("(", '?') == 0 && Count(")", '?') == 0;
  }

  /** A comparison leaf of a criteria tree. */
  datatype Leaf = Leaf(op: CompareOp, column: string, value: Value)

  /** The comparison leaves of a tree, left to right; unknown classes have
      none. */
  function Leaves(c: Criteria): seq<Leaf>
    decreases c, 1
  {
    match c
    case Compare(op, col, v) => [Leaf(op, col, v)]
    case And(xs) => LeavesAll(c, xs)
    case Or(xs) => LeavesAll(c, xs)
    case Other(_) => []
  }

  function LeavesAll(ghost c: Criteria, xs: seq<Criteria>): seq<Leaf>
    requires forall k :: 0 <= k < |xs| ==> xs[k] < c
    decreases c, 0, |xs|
  {
    if |xs| == 0 then [] else LeavesAll(c, xs[..|xs| - 1]) + Leaves(xs[|xs| - 1])
  }

  /** The texts of the non-null leaf values, in order. */
  function ValueTexts(ls: seq<Leaf>): seq<string> {
    if |ls| == 0 then []
    else
      var v := ls[|ls| - 1].value;
      ValueTexts(ls[..|ls| - 1]) + (if v.Null? then [] else [PrimitiveValueComparison.Text(v)])
  }

  lemma {:induction false} ValueTextsAppend(a: seq<Leaf>, b: seq<Leaf>)
    ensures ValueTexts(a + b) == ValueTexts(a) + ValueTexts(b)
    decreases |b|
  {
    if |b| > 0 {
      var b' := b[..|b| - 1];
      assert (a + b)[..|a + b| - 1] == a + b';
      ValueTextsAppend(a, b');
    } else {
      assert a + b == a;
    }
  }

  /** The arguments are the texts of the non-null comparison values, in
      left-to-right leaf order. */
  lemma {:induction false} ArgsFollowLeaves(ctx: Context, c: Criteria)
    requires Build(ctx, c).Ok?
    ensures Build(ctx, c).value.args == ValueTexts(Leaves(c))
    decreases c, 1
  {
    match c {
      case Compare(op, col, v) =>
        assert [Leaf(op, col, v)][..0] == [];
      case And(xs) =>
        ArgsFollowLeavesAll(ctx, c, xs, " AND ");
      case Or(xs) =>
        ArgsFollowLeavesAll(ctx, c, xs, " OR ");
      case Other(_) =>
    }
  }

  lemma {:induction false} ArgsFollowLeavesAll(ctx: Context, c: Criteria, xs: seq<Criteria>, sep: string)
    requires forall k :: 0 <= k < |xs| ==> xs[k] < c
    requires BuildAll(ctx, c, xs, sep).Ok?
    ensures BuildAll(ctx, c, xs, sep).value.args == ValueTexts(LeavesAll(c, xs))
    decreases c, 0, |xs|
  {
    if |xs| > 0 {
      ArgsFollowLeavesAll(ctx, c, xs[..|xs| - 1], sep);
      ArgsFollowLeaves(ctx, xs[|xs| - 1]);
      ValueTextsAppend(LeavesAll(c, xs[..|xs| - 1]), Leaves(xs[|xs| - 1]));
    }
  }

  /** A null value gives IS NULL or IS NOT NULL for Equal and NotEqual, with
      no argument; the "id" column is the escaped `_id`, any other column
      must exist. */
  lemma ComparisonShapes(ctx: Context, col: string, v: Value)
    ensures col == "id" ==> Build(ctx, Compare(EQ, col, Null)) == Ok(Piece(ctx.escapedId + " IS NULL", []))
    ensures col == "id" ==> Build(ctx, Compare(NE, col, Null)) == Ok(Piece(ctx.escapedId + " IS NOT NULL", []))
    ensures col != "id" && col !in ctx.columns ==>
      Build(ctx, Compare(EQ, col, v)) == Err("Column \"" + col + "\" not found")
    ensures col == "id" && !v.Null? ==>
      Build(ctx, Compare(EQ, col, v)) == Ok(Piece(ctx.escapedId + " = ?", [PrimitiveValueComparison.Text(v)]))
  {
    assert ctx.escapedId + " " + "IS" + " NULL" == ctx.escapedId + " IS NULL";
    assert ctx.escapedId + " " + "IS NOT" + " NULL" == ctx.escapedId + " IS NOT NULL";
    assert ctx.escapedId + " " + "=" + " ?" == ctx.escapedId + " = ?";
  }

  /** No operands give an empty string, and an unknown class adds nothing. */
  lemma EmptyShapes(ctx: Context)
    ensures Build(ctx, And([])) == Ok(Piece("", []))
    ensures Build(ctx, Or([])) == Ok(Piece("", []))
    ensures Build(ctx, Other("X")) == Ok(Piece("", []))
  {
  }

  /** Operands are parenthesised and joined by the keyword. */
  lemma LogicalShapes(ctx: Context, a: Criteria, b: Criteria)
    requires Build(ctx, a).Ok? && Build(ctx, b).Ok?
    ensures Build(ctx, And([a, b])).Ok?
    ensures Build(ctx, And([a, b])).value.text ==
      "(" + Build(ctx, a).value.text + ") AND (" + Build(ctx, b).value.text + ")"
  {
    var pa, pb := Build(ctx, a).value, Build(ctx, b).value;
    var xs := [a, b];
    assert xs[..1] == [a] && [a][..0] == [];
    assert BuildAll(ctx, And(xs), [], " AND ") == Ok(Piece("", []));
    var first := BuildAll(ctx, And(xs), [a], " AND ");
    assert first == Ok(Piece("" + Parenthesised("", pa.text), [] + pa.args));
    assert BuildAll(ctx, And(xs), xs, " AND ") ==
      Ok(Piece(first.value.text + Parenthesised(" AND ", pb.text), first.value.args + pb.args));
    JoinTwo(pa.text, pb.text);
  }

  lemma JoinTwo(ta: string, tb: string)
    ensures "" + Parenthesised("", ta) + Parenthesised(" AND ", tb) == "(" + ta + ") AND (" + tb + ")"
  {
    assert "" + Parenthesised("", ta) == "(" + ta + ")";
  }
}
