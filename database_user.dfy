/** How the database routes queries on tables that are split by user: the
    user is read from the criteria, the update values or the inserted
    records, and criteria on that user are removed before the query runs on
    the user's own physical table. Also the checks on update values, the
    condition for logging actions, and the (time, order) stamps given to
    logged actions. */
module DatabaseUser {
  import opened Wrappers
  import opened JavaText
  import opened PrimitiveValueComparison
  import opened DatabaseCriteria
  import opened CriteriaMatcher

  // ---------------------------------------------------------------------
  // findSelectUser

  /** The user selected by one criteria tree: a non-empty value of an Equal
      on column "user", searching And and Or operands left to right. */
  function FindUser(c: Criteria): (r: Option<string>)
    ensures r.Some? ==> r.value != ""
    decreases c
  {
    match c
    case Compare(op, col, v) =>
      if op == EQ && col == "user" && !v.Null? && PrimitiveValueComparison.Text(v) != "" then Some(PrimitiveValueComparison.Text(v)) else None
    case And(xs) => FirstUser(xs)
    case Or(xs) => FirstUser(xs)
    case Other(_) => None
  }

  /** The first operand that selects a user, as the loop over the operands
      returns it. */
  function FirstUser(xs: seq<Criteria>): (r: Option<string>)
    ensures r.Some? ==> r.value != ""
    decreases xs
  {
    if |xs| == 0 then None
    else if FindUser(xs[0]).Some? then FindUser(xs[0])
    else FirstUser(xs[1..])
  }

  /** The result is the user of the first operand that has one. */
  lemma {:induction false} FirstUserIsFirst(xs: seq<Criteria>)
    ensures FirstUser(xs).Some? ==>
              exists k :: 0 <= k < |xs| && FindUser(xs[k]) == FirstUser(xs) &&
                forall j :: 0 <= j < k ==> FindUser(xs[j]).None?
    ensures FirstUser(xs).None? ==> forall k :: 0 <= k < |xs| ==> FindUser(xs[k]).None?
    decreases xs
  {
    if |xs| > 0 {
      var tail := xs[1..];
      FirstUserIsFirst(tail);
      assert forall k :: 0 <= k < |tail| ==> tail[k] == xs[k + 1];
      if FindUser(xs[0]).None? && FirstUser(tail).Some? {
        var k :| 0 <= k < |tail| && FindUser(tail[k]) == FirstUser(tail) &&
                 forall j :: 0 <= j < k ==> FindUser(tail[j]).None?;
        assert FindUser(xs[k + 1]) == FirstUser(xs);
      }
    }
  }

  /** `findSelectUser`: null criteria select no user. */
  function FindSelectUser(criteria: Option<Criteria>): (r: Option<string>)
    ensures criteria.None? ==> r.None?
    ensures r.Some? ==> r.value != ""
  {
    match criteria
    case None => None
    case Some(c) => FindUser(c)
  }

  /** The tree holds an Equal on column "user" whose value prints as `u`. */
  predicate MentionsUser(c: Criteria, u: string)
    decreases c
  {
    match c
    case Compare(op, col, v) => op == EQ && col == "user" && !v.Null? && PrimitiveValueComparison.Text(v) == u
    case And(xs) => exists k :: 0 <= k < |xs| && MentionsUser(xs[k], u)
    case Or(xs) => exists k :: 0 <= k < |xs| && MentionsUser(xs[k], u)
    case Other(_) => false
  }

  /** The user found is one the criteria mention, and no user is found only
      when the criteria mention no non-empty user at all. */
  lemma {:induction false} FindUserMeans(c: Criteria, u: string)
    ensures FindUser(c).Some? ==> MentionsUser(c, FindUser(c).value)
    ensures FindUser(c).None? && u != "" ==> !MentionsUser(c, u)
    decreases c
  {
    match c {
      case Compare(_, _, _) =>
      case Other(_) =>
      case And(xs) =>
        forall k | 0 <= k < |xs| {
          FindUserMeans(xs[k], u);
        }
        FirstUserIsFirst(xs);
        if FindUser(c).Some? {
          var k :| 0 <= k < |xs| && FindUser(xs[k]) == FindUser(c) &&
                   forall j :: 0 <= j < k ==> FindUser(xs[j]).None?;
          assert MentionsUser(xs[k], FindUser(c).value);
        }
      case Or(xs) =>
        forall k | 0 <= k < |xs| {
          FindUserMeans(xs[k], u);
        }
        FirstUserIsFirst(xs);
        if FindUser(c).Some? {
          var k :| 0 <= k < |xs| && FindUser(xs[k]) == FindUser(c) &&
                   forall j :: 0 <= j < k ==> FindUser(xs[j]).None?;
          assert MentionsUser(xs[k], FindUser(c).value);
        }
    }
  }

  /** The first user wins, also under Or, where the records of the second
      user are then not searched; an integer user value is found by its
      text; an empty user is no user. */
  lemma FindSelectUserExamples(a: string, b: string)
    requires a != "" && b != ""
    ensures FindSelectUser(Some(Or([Compare(EQ, "user", Str(a)), Compare(EQ, "user", Str(b))]))) == Some(a)
    ensures FindSelectUser(Some(And([Compare(EQ, "user", Str("")), Compare(EQ, "user", Str(b))]))) == Some(b)
    ensures FindSelectUser(Some(Compare(EQ, "user", Int(Integer, 7)))) == Some("7")
    ensures FindSelectUser(Some(Compare(NE, "user", Str(a)))) == None
  {
    var ys := [Compare(EQ, "user", Str(a)), Compare(EQ, "user", Str(b))];
    assert FindUser(ys[0]) == Some(a);
    assert FirstUser(ys) == Some(a);
    assert FindUser(Or(ys)) == Some(a);
    var xs := [Compare(EQ, "user", Str("")), Compare(EQ, "user", Str(b))];
    assert FindUser(xs[0]).None?;
    assert xs[1..][0] == xs[1] && FindUser(xs[1]) == Some(b);
    assert FirstUser(xs[1..]) == Some(b);
    assert FirstUser(xs) == Some(b);
    assert FindUser(And(xs)) == Some(b);
    assert LongToString(7) == "7";
  }

  // ---------------------------------------------------------------------
  // removeUserCriteria

  /** Equal on column "user" whose value is the string `u`: `user.equals`
      is false for a value that is not a string. */
  predicate IsUserEqual(c: Criteria, u: string) {
    c.Compare? && c.op == EQ && c.column == "user" && c.value == Str(u)
  }

  /** `removeUserCriteria`: None stands for null criteria, which select
      every record. */
  function RemoveUser(c: Criteria, u: string): (r: Option<Criteria>)
    ensures IsUserEqual(c, u) ==> r.None?
    ensures (c.Compare? && !IsUserEqual(c, u)) || c.Other? ==> r == Some(c)
    decreases c
  {
    match c
    case Compare(_, _, _) => if IsUserEqual(c, u) then None else Some(c)
    case And(xs) =>
      var ops := KeptAnd(xs, u);
      if |ops| == 0 then None else if |ops| == 1 then Some(ops[0]) else Some(And(ops))
    case Or(xs) =>
      var kept := KeptOr(xs, u);
      if kept.None? || |kept.value| == 0 then None
      else if |kept.value| == 1 then Some(kept.value[0])
      else Some(Or(kept.value))
    case Other(_) => Some(c)
  }

  /** The And loop: the operands that remain after removal, in order. */
  function KeptAnd(xs: seq<Criteria>, u: string): (ops: seq<Criteria>)
    ensures |ops| <= |xs|
    decreases xs
  {
    if |xs| == 0 then []
    else
      var head := match RemoveUser(xs[0], u) case None => [] case Some(x) => [x];
      head + KeptAnd(xs[1..], u)
  }

  /** The Or loop: null as soon as one operand is removed entirely. */
  function KeptOr(xs: seq<Criteria>, u: string): (r: Option<seq<Criteria>>)
    ensures r.Some? ==> |r.value| == |xs|
    decreases xs
  {
    if |xs| == 0 then Some([])
    else match RemoveUser(xs[0], u)
      case None => None
      case Some(x) =>
        match KeptOr(xs[1..], u)
        case None => None
        case Some(rest) => Some([x] + rest)
  }

  /** `removeUserCriteria(criteria, user)`, null in, null out. */
  function RemoveUserCriteria(criteria: Option<Criteria>, u: string): (r: Option<Criteria>)
    ensures criteria.None? ==> r.None?
  {
    match criteria
    case None => None
    case Some(c) => RemoveUser(c, u)
  }

  /** Or collapses to no criteria exactly when it has no operands or some
      operand is removed entirely. */
  lemma {:induction false} KeptOrFails(xs: seq<Criteria>, u: string)
    ensures KeptOr(xs, u).None? <==> exists k :: 0 <= k < |xs| && RemoveUser(xs[k], u).None?
    decreases xs
  {
    if |xs| > 0 {
      KeptOrFails(xs[1..], u);
      if exists k :: 0 <= k < |xs| - 1 && RemoveUser(xs[1..][k], u).None? {
        var k :| 0 <= k < |xs| - 1 && RemoveUser(xs[1..][k], u).None?;
        assert RemoveUser(xs[k + 1], u).None?;
      }
      if exists k :: 0 <= k < |xs| && RemoveUser(xs[k], u).None? {
        var k :| 0 <= k < |xs| && RemoveUser(xs[k], u).None?;
        if k > 0 {
          assert RemoveUser(xs[1..][k - 1], u).None?;
        }
      }
    }
  }

  lemma OrRemovedWhenAnyOperandIs(xs: seq<Criteria>, u: string)
    ensures RemoveUser(Or(xs), u).None? <==>
            |xs| == 0 || exists k :: 0 <= k < |xs| && RemoveUser(xs[k], u).None?
  {
    KeptOrFails(xs, u);
  }

  /** The criteria never contain an Or without operands. */
  predicate NoEmptyOr(c: Criteria)
    decreases c
  {
    match c
    case Compare(_, _, _) => true
    case And(xs) => forall k :: 0 <= k < |xs| ==> NoEmptyOr(xs[k])
    case Or(xs) => |xs| > 0 && forall k :: 0 <= k < |xs| ==> NoEmptyOr(xs[k])
    case Other(_) => false
  }

  /** Every tree without unsupported classes or empty Or keeps its meaning on
      the records of user `u`: what is removed holds there, and what remains
      matches exactly the records the original matches. */
  lemma {:induction false} RemoveUserKeepsMeaning(rec: Record, c: Criteria, u: string)
    requires NoEmptyOr(c)
    requires Lookup(rec, "user") == Str(u)
    ensures RemoveUser(c, u).None? ==> Matches(rec, c) == Ok(true)
    ensures RemoveUser(c, u).Some? ==>
              NoEmptyOr(RemoveUser(c, u).value) &&
              Matches(rec, RemoveUser(c, u).value) == Matches(rec, c)
    decreases c
  {
    match c {
      case Compare(_, _, _) =>
      case And(xs) =>
        KeptAndKeepsMeaning(rec, xs, u);
        var ops := KeptAnd(xs, u);
        if |ops| == 1 {
          OneOperand(rec, ops[0]);
        }
      case Or(xs) =>
        KeptOrKeepsMeaning(rec, xs, u);
        if KeptOr(xs, u).Some? && |KeptOr(xs, u).value| == 1 {
          OneOperand(rec, KeptOr(xs, u).value[0]);
        }
    }
  }

  lemma OneOperand(rec: Record, x: Criteria)
    ensures MatchesAll(rec, [x]) == Matches(rec, x)
    ensures MatchesAny(rec, [x]) == Matches(rec, x)
  {
    assert [x][1..] == [];
  }

  lemma NoEmptyOrMatchesOk(rec: Record, c: Criteria)
    requires NoEmptyOr(c)
    ensures Matches(rec, c).Ok?
  {
    assert Supported(c) by {
      NoEmptyOrSupported(c);
    }
    MatchesMeansHolds(rec, c);
  }

  lemma {:induction false} NoEmptyOrSupported(c: Criteria)
    requires NoEmptyOr(c)
    ensures Supported(c)
    decreases c
  {
    match c {
      case Compare(_, _, _) =>
      case And(xs) =>
        forall k | 0 <= k < |xs| {
          NoEmptyOrSupported(xs[k]);
        }
      case Or(xs) =>
        forall k | 0 <= k < |xs| {
          NoEmptyOrSupported(xs[k]);
        }
    }
  }

  lemma {:induction false} KeptAndKeepsMeaning(rec: Record, xs: seq<Criteria>, u: string)
    requires forall k :: 0 <= k < |xs| ==> NoEmptyOr(xs[k])
    requires Lookup(rec, "user") == Str(u)
    ensures forall k :: 0 <= k < |KeptAnd(xs, u)| ==> NoEmptyOr(KeptAnd(xs, u)[k])
    ensures MatchesAll(rec, KeptAnd(xs, u)) == MatchesAll(rec, xs)
    decreases xs
  {
    if |xs| > 0 {
      var tail := xs[1..];
      assert forall k :: 0 <= k < |tail| ==> tail[k] == xs[k + 1];
      RemoveUserKeepsMeaning(rec, xs[0], u);
      KeptAndKeepsMeaning(rec, tail, u);
      NoEmptyOrMatchesOk(rec, xs[0]);
      var rest := KeptAnd(tail, u);
      match RemoveUser(xs[0], u) {
        case None =>
          assert KeptAnd(xs, u) == rest;
        case Some(x) =>
          assert KeptAnd(xs, u) == [x] + rest;
          assert ([x] + rest)[0] == x && ([x] + rest)[1..] == rest;
      }
    }
  }

  lemma {:induction false} KeptOrKeepsMeaning(rec: Record, xs: seq<Criteria>, u: string)
    requires forall k :: 0 <= k < |xs| ==> NoEmptyOr(xs[k])
    requires Lookup(rec, "user") == Str(u)
    ensures KeptOr(xs, u).None? ==> MatchesAny(rec, xs) == Ok(true)
    ensures KeptOr(xs, u).Some? ==>
              (forall k :: 0 <= k < |KeptOr(xs, u).value| ==> NoEmptyOr(KeptOr(xs, u).value[k])) &&
              MatchesAny(rec, KeptOr(xs, u).value) == MatchesAny(rec, xs)
    decreases xs
  {
    if |xs| > 0 {
      var tail := xs[1..];
      assert forall k :: 0 <= k < |tail| ==> tail[k] == xs[k + 1];
      RemoveUserKeepsMeaning(rec, xs[0], u);
      KeptOrKeepsMeaning(rec, tail, u);
      NoEmptyOrMatchesOk(rec, xs[0]);
      match RemoveUser(xs[0], u) {
        case None =>
        case Some(x) =>
          match KeptOr(tail, u) {
            case None =>
            case Some(rest) =>
              assert ([x] + rest)[0] == x && ([x] + rest)[1..] == rest;
          }
      }
    }
  }

  /** An Or without operands selects nothing, but after removal it is null
      criteria, which select everything. */
  lemma EmptyOrBecomesUnrestricted(rec: Record, u: string)
    ensures Matches(rec, Or([])) == Ok(false)
    ensures RemoveUserCriteria(Some(Or([])), u).None?
    ensures RemoveUserCriteria(Some(And([Compare(EQ, "age", Int(Integer, 3)), Or([])])), u)
            == Some(Compare(EQ, "age", Int(Integer, 3)))
  {
    var xs := [Compare(EQ, "age", Int(Integer, 3)), Or([])];
    assert KeptAnd(xs[1..], u) == [];
  }

  /** And drops the user operand; one remaining operand replaces the And;
      Or of the user and anything is null. */
  lemma RemoveUserExamples(u: string, x: Criteria)
    requires x.Compare? && !IsUserEqual(x, u)
    ensures RemoveUser(And([Compare(EQ, "user", Str(u)), x]), u) == Some(x)
    ensures RemoveUser(And([Compare(EQ, "user", Str(u))]), u).None?
    ensures RemoveUser(Or([x, Compare(EQ, "user", Str(u))]), u).None?
    ensures RemoveUser(And([x, x]), u) == Some(And([x, x]))
  {
    var ys := [Compare(EQ, "user", Str(u)), x];
    assert KeptAnd(ys[1..], u) == [x];
    var zs := [x, Compare(EQ, "user", Str(u))];
    assert KeptOr(zs[1..], u).None?;
    var ws := [x, x];
    assert ws[1..][1..] == [];
    assert KeptAnd(ws[1..], u) == [x];
    assert KeptAnd(ws, u) == [x, x];
  }

  // ---------------------------------------------------------------------
  // getInsertUser, getUpdateUser and the user checks of insert and update

  /** `getInsertUser`: the record must have a non-null user whose text is
      not empty. */
  function GetInsertUser(table: string, rec: Record): (r: Result<string, string>)
    ensures r.Ok? <==> !Lookup(rec, "user").Null? && PrimitiveValueComparison.Text(Lookup(rec, "user")) != ""
    ensures r.Ok? ==> r.value == PrimitiveValueComparison.Text(Lookup(rec, "user"))
  {
    var userObj := Lookup(rec, "user");
    if userObj.Null? then
      Err("Can't insert database object without field \"user\" into table \"" + table
          + "\" that is split by user")
    else if PrimitiveValueComparison.Text(userObj) == "" then
      Err("Can't insert database object with empty field \"user\" into table \"" + table
          + "\" that is split by user")
    else Ok(PrimitiveValueComparison.Text(userObj))
  }

  /** The user shared by the first `|values|` records of an insert into a
      split table, or the first error the loop of `insertMaps` meets. */
  function InsertUser(table: string, values: seq<Record>): Result<Option<string>, string>
  {
    if |values| == 0 then Ok(None)
    else match InsertUser(table, values[..|values| - 1])
      case Err(e) => Err(e)
      case Ok(prev) =>
        match GetInsertUser(table, values[|values| - 1])
        case Err(e) => Err(e)
        case Ok(u) =>
          if prev.None? || prev.value == u then Ok(Some(u))
          else Err("Can't insert objects with different users into table \"" + table
                   + "\" that is split by user: " + prev.value + ", " + u)
  }

  lemma {:induction false} InsertErrorPersists(table: string, values: seq<Record>, n: nat)
    requires n <= |values| && InsertUser(table, values[..n]).Err?
    ensures InsertUser(table, values) == InsertUser(table, values[..n])
    decreases |values| - n
  {
    if n < |values| {
      assert values[..n + 1][..n] == values[..n];
      InsertErrorPersists(table, values, n + 1);
    } else {
      assert values[..n] == values;
    }
  }

  /** The user check of `insertMaps` on a table split by user: every record
      needs a user, and all users must be equal; the result is that user
      (none for no records). */
  method CheckInsertUsers(table: string, values: seq<Record>) returns (r: Result<Option<string>, string>)
    ensures r == InsertUser(table, values)
  {
    var insertUser: Option<string> := None;
    var k := 0;
    while k < |values|
      invariant 0 <= k <= |values|
      invariant InsertUser(table, values[..k]) == Ok(insertUser)
    {
      assert values[..k + 1][..k] == values[..k];
      var currUser := GetInsertUser(table, values[k]);
      if currUser.Err? {
        InsertErrorPersists(table, values, k + 1);
        return Err(currUser.error);
      }
      if insertUser.None? {
        insertUser := Some(currUser.value);
      } else if currUser.value != insertUser.value {
        InsertErrorPersists(table, values, k + 1);
        return Err("Can't insert objects with different users into table \"" + table
                   + "\" that is split by user: " + insertUser.value + ", " + currUser.value);
      }
      k := k + 1;
    }
    assert values[..k] == values;
    return Ok(insertUser);
  }

  /** The records of an insert all carry the same non-empty user. */
  predicate SameUser(table: string, values: seq<Record>)
    requires |values| > 0
  {
    GetInsertUser(table, values[0]).Ok? &&
    forall i :: 0 <= i < |values| ==> GetInsertUser(table, values[i]) == GetInsertUser(table, values[0])
  }

  /** An accepted insert has one non-empty user for all records, and it goes
      to that user's table. */
  lemma {:induction false} InsertUserAccepted(table: string, values: seq<Record>)
    requires |values| > 0 && InsertUser(table, values).Ok?
    ensures SameUser(table, values)
    ensures InsertUser(table, values).value == Some(GetInsertUser(table, values[0]).value)
    decreases |values|
  {
    var init := values[..|values| - 1];
    if |init| == 0 {
      assert values == [values[0]];
    } else {
      InsertUserAccepted(table, init);
      assert init[0] == values[0];
      forall i | 0 <= i < |values|
        ensures GetInsertUser(table, values[i]) == GetInsertUser(table, values[0])
      {
        if i < |init| {
          assert init[i] == values[i];
        }
      }
    }
  }

  /** An insert whose records all carry the same non-empty user is accepted. */
  lemma {:induction false} SameUserAccepted(table: string, values: seq<Record>)
    requires |values| > 0 && SameUser(table, values)
    ensures InsertUser(table, values) == Ok(Some(GetInsertUser(table, values[0]).value))
    decreases |values|
  {
    var init := values[..|values| - 1];
    if |init| == 0 {
      assert values == [values[0]];
    } else {
      assert init[0] == values[0];
      forall i | 0 <= i < |init|
        ensures GetInsertUser(table, init[i]) == GetInsertUser(table, init[0])
      {
        assert init[i] == values[i];
      }
      SameUserAccepted(table, init);
    }
  }

  /** The insert is accepted exactly when every record has the non-empty
      user of the first record, and it goes to that user's table. */
  lemma InsertUserMeans(table: string, values: seq<Record>)
    requires |values| > 0
    ensures InsertUser(table, values).Ok? <==> SameUser(table, values)
    ensures InsertUser(table, values).Ok? ==>
            InsertUser(table, values).value == Some(GetInsertUser(table, values[0]).value)
  {
    if InsertUser(table, values).Ok? {
      InsertUserAccepted(table, values);
    }
    if SameUser(table, values) {
      SameUserAccepted(table, values);
    }
  }

  /** Records of two different users cannot be inserted together. */
  lemma DifferentUsersRejected(table: string, a: string, b: string)
    requires a != "" && b != "" && a != b
    ensures InsertUser(table, [map["user" := Str(a)], map["user" := Str(b)]]).Err?
  {
    var ra, rb := map["user" := Str(a)], map["user" := Str(b)];
    assert GetInsertUser(table, ra) == Ok(a) by { assert Lookup(ra, "user") == Str(a); }
    assert GetInsertUser(table, rb) == Ok(b) by { assert Lookup(rb, "user") == Str(b); }
    if InsertUser(table, [ra, rb]).Ok? {
      InsertUserAccepted(table, [ra, rb]);
      assert false;
    }
  }

  /** Records of one user are inserted into that user's table. */
  lemma SameUsersAccepted(table: string, a: string)
    requires a != ""
    ensures InsertUser(table, [map["user" := Str(a)], map["user" := Str(a)]]) == Ok(Some(a))
  {
    var ra := map["user" := Str(a)];
    assert GetInsertUser(table, ra) == Ok(a) by { assert Lookup(ra, "user") == Str(a); }
    SameUserAccepted(table, [ra, ra]);
  }

  /** The user text of the update values, if there is a non-null user. */
  function ValuesUser(values: Record): (r: Option<string>)
    ensures r.None? <==> Lookup(values, "user").Null?
  {
    var userObj := Lookup(values, "user");
    if userObj.Null? then None else Some(PrimitiveValueComparison.Text(userObj))
  }

  /** `getUpdateUser`: the user from the criteria and the user from the
      update values must agree; at least one must be present, and the
      values user may not be empty. */
  function GetUpdateUser(table: string, criteria: Option<Criteria>, values: Record): (r: Result<string, string>)
    ensures r.Ok? <==>
              ValuesUser(values) != Some("") &&
              (FindSelectUser(criteria).Some? || ValuesUser(values).Some?) &&
              (FindSelectUser(criteria).Some? && ValuesUser(values).Some? ==>
                 FindSelectUser(criteria) == ValuesUser(values))
    ensures r.Ok? ==> r.value != ""
    ensures r.Ok? ==> Some(r.value) == FindSelectUser(criteria) || Some(r.value) == ValuesUser(values)
    ensures r.Ok? && ValuesUser(values).Some? ==> r.value == ValuesUser(values).value
    ensures ValuesUser(values) == Some("") ==> r == Err(EmptyValuesUserMessage(table))
    ensures ValuesUser(values) != Some("") && FindSelectUser(criteria).None? && ValuesUser(values).None? ==>
              r == Err(NoUserMessage(table, criteria))
    ensures var cu, vu := FindSelectUser(criteria), ValuesUser(values);
            vu != Some("") && cu.Some? && vu.Some? && cu != vu ==>
              r == Err(UserMismatchMessage(cu.value, vu.value, table, criteria))
  {
    var criteriaUser := FindSelectUser(criteria);
    var valuesUser := ValuesUser(values);
    if valuesUser == Some("") then Err(EmptyValuesUserMessage(table))
    else if criteriaUser.Some? && valuesUser.Some? then
      if criteriaUser.value != valuesUser.value then
        Err(UserMismatchMessage(criteriaUser.value, valuesUser.value, table, criteria))
      else Ok(valuesUser.value)
    else if criteriaUser.Some? then Ok(criteriaUser.value)
    else if valuesUser.Some? then Ok(valuesUser.value)
    else Err(NoUserMessage(table, criteria))
  }

  function EmptyValuesUserMessage(table: string): string {
    "User in update values is empty at update in table \"" + table + "\" that is split by user"
  }

  function UserMismatchMessage(criteriaUser: string, valuesUser: string, table: string,
                               criteria: Option<Criteria>): string {
    "User in select criteria (" + criteriaUser + ") does not match user in update values ("
    + valuesUser + ") at update in table \"" + table + "\" that is split by user"
    + "; criteria: " + CriteriaText(criteria)
  }

  function NoUserMessage(table: string, criteria: Option<Criteria>): string {
    "Update in table \"" + table + "\" that is split by user requires selection of "
    + "a user in select criteria, or definition of field \"user\" in the update values"
    + "; criteria: " + CriteriaText(criteria)
  }

  /** The criteria as `%s` formats them: "null" when there are none, their
      `toString` otherwise. A tree holding a subclass defined elsewhere
      prints as the empty text. */
  function CriteriaText(criteria: Option<Criteria>): string {
    match criteria
    case None => "null"
    case Some(c) => if Supported(c) then DatabaseCriteria.Text(c) else ""
  }

  /** Where an update runs: the user of a split table (none otherwise) and
      the criteria left to apply there. */
  datatype UpdateRoute = UpdateRoute(user: Option<string>, criteria: Option<Criteria>)

  /** The checks at the start of `update`: "id" may not be changed, and on a
      split table the user is found and its criteria removed. */
  function RouteUpdate(table: string, splitByUser: bool, criteria: Option<Criteria>, values: Record)
    : (r: Result<UpdateRoute, string>)
    ensures "id" in values ==> r == Err("Field \"id\" cannot be changed at update")
    ensures "id" !in values && !splitByUser ==> r == Ok(UpdateRoute(None, criteria))
    ensures r.Ok? && splitByUser ==>
              r.value.user.Some? && GetUpdateUser(table, criteria, values) == Ok(r.value.user.value) &&
              r.value.criteria == RemoveUserCriteria(criteria, r.value.user.value)
  {
    if "id" in values then Err("Field \"id\" cannot be changed at update")
    else if !splitByUser then Ok(UpdateRoute(None, criteria))
    else match GetUpdateUser(table, criteria, values)
      case Err(e) => Err(e)
      case Ok(u) => Ok(UpdateRoute(Some(u), RemoveUserCriteria(criteria, u)))
  }

  // ---------------------------------------------------------------------
  // Action logging

  const SOURCE_LOCAL: string := "local"

  /** Actions are logged for tables not starting with "_", when sync is
      enabled and the change is local or synced remote actions are kept. */
  predicate LogsActions(table: string, syncEnabled: bool, source: string, saveSyncedRemoteActions: bool) {
    !(|table| > 0 && table[0] == '_') && syncEnabled && (source == SOURCE_LOCAL || saveSyncedRemoteActions)
  }

  lemma LoggingRules(table: string, source: string, save: bool)
    ensures !LogsActions("_" + table, true, source, save)
    ensures !LogsActions(table, false, source, save)
    ensures table == "" || table[0] != '_' ==> LogsActions(table, true, SOURCE_LOCAL, save)
    ensures source != SOURCE_LOCAL ==> (LogsActions(table, true, source, save) <==> LogsActions(table, true, SOURCE_LOCAL, save) && save)
  {
  }

  /** The position of a logged action in the sequence of its table. */
  datatype Stamp = Stamp(time: int, order: int)

  /** (time, order) in lexicographic order. */
  predicate Before(a: Stamp, b: Stamp) {
    a.time < b.time || (a.time == b.time && a.order < b.order)
  }

  /** The stamp of a new action at clock time `now` after `prev`, the latest
      action of the table: if that is not older than now, the new action
      takes its time and the next order; otherwise it gets now and order 0. */
  function NextStamp(prev: Option<Stamp>, now: int): (s: Stamp)
    ensures prev.Some? ==> Before(prev.value, s)
    ensures s.time >= now
    ensures prev.None? ==> s == Stamp(now, 0)
  {
    if prev.Some? && prev.value.time >= now then Stamp(prev.value.time, prev.value.order + 1)
    else Stamp(now, 0)
  }

  /** A logged action: the table it belongs to, the record and its stamp. */
  datatype LoggedAction = LoggedAction(table: string, recordId: string, stamp: Stamp)

  /** Actions of the same table appear in strictly increasing stamp order. */
  predicate StampsIncrease(actions: seq<LoggedAction>) {
    forall i, j :: 0 <= i < j < |actions| && actions[i].table == actions[j].table ==>
      Before(actions[i].stamp, actions[j].stamp)
  }

  /** The latest action of `table` in the list. */
  function LastAction(actions: seq<LoggedAction>, table: string): (r: Option<LoggedAction>)
    ensures r.None? ==> forall i :: 0 <= i < |actions| ==> actions[i].table != table
    ensures r.Some? ==> exists i :: 0 <= i < |actions| && actions[i] == r.value && r.value.table == table &&
                          forall j :: i < j < |actions| ==> actions[j].table != table
  {
    if |actions| == 0 then None
    else if actions[|actions| - 1].table == table then Some(actions[|actions| - 1])
    else LastAction(actions[..|actions| - 1], table)
  }

  /** The latest action of `table` in the list, searched from the end. */
  method FindPrevAction(actions: seq<LoggedAction>, table: string) returns (r: Option<LoggedAction>)
    ensures r == LastAction(actions, table)
    ensures r.None? ==> forall i :: 0 <= i < |actions| ==> actions[i].table != table
    ensures r.Some? ==> exists i :: 0 <= i < |actions| && actions[i] == r.value && r.value.table == table &&
                          forall j :: i < j < |actions| ==> actions[j].table != table
  {
    var i := |actions|;
    assert actions[..i] == actions;
    while i > 0
      invariant 0 <= i <= |actions|
      invariant LastAction(actions[..i], table) == LastAction(actions, table)
    {
      i := i - 1;
      assert actions[..i + 1][..i] == actions[..i];
      if actions[i].table == table {
        return Some(actions[i]);
      }
    }
    return None;
  }

  /** `addDatabaseAction`: the previous action of the table is the last one
      in the batch, else the latest stored one (`stored`, read from the
      action table sorted by time and order, descending). */
  method AddDatabaseAction(actions: seq<LoggedAction>, table: string, recordId: string,
                           stored: Option<Stamp>, now: int)
    returns (result: seq<LoggedAction>)
    requires StampsIncrease(actions)
    ensures |result| == |actions| + 1 && result[..|actions|] == actions
    ensures result[|actions|].table == table && result[|actions|].recordId == recordId
    ensures var last := LastAction(actions, table);
            result[|actions|].stamp == NextStamp(if last.Some? then Some(last.value.stamp) else stored, now)
    ensures LastAction(actions, table).None? && stored.Some? ==> Before(stored.value, result[|actions|].stamp)
    ensures result[|actions|].stamp.time >= now
    ensures StampsIncrease(result)
  {
    var prev := FindPrevAction(actions, table);
    var prevStamp := if prev.Some? then Some(prev.value.stamp) else stored;
    var stamp := NextStamp(prevStamp, now);
    if prev.Some? {
      var i :| 0 <= i < |actions| && actions[i] == prev.value && prev.value.table == table &&
               forall j :: i < j < |actions| ==> actions[j].table != table;
      forall j | 0 <= j < |actions| && actions[j].table == table
        ensures Before(actions[j].stamp, stamp)
      {
        if j < i {
          assert Before(actions[j].stamp, actions[i].stamp);
        }
      }
    }
    result := actions + [LoggedAction(table, recordId, stamp)];
  }
}
