/** Permissions: a permission name with a map of parameters. A required
    permission is held when each of its atomic permissions is matched by an
    atomic permission of one of the user's records, where an available
    parameter "*" matches any value. The permission records of users are a
    table that grant and revoke change. */
module PermissionManager {
  import opened Wrappers
  import opened Json

  /** `PermissionRecord` as the matching sees it: a name and a parameter
      map (a null parameter value is `JNull`). */
  datatype Record = Record(permission: string, params: map<string, Json>)

  /** `matchesValue`: an available "*" matches anything; otherwise null
      matches only null and other values match when equal. */
  predicate MatchesValue(required: Json, available: Json) {
    if available == JStr("*") then true
    else if required == JNull then available == JNull
    else if available == JNull then false
    else required == available
  }

  /** A required value is matched by the wildcard or by itself, and by
      nothing else. */
  lemma MatchesValueMeans(required: Json, available: Json)
    ensures MatchesValue(required, available) <==> available == JStr("*") || available == required
  {
  }

  /** `matchesPermission`: the same name, and every required parameter is
      present in the available record with a matching value. */
  predicate MatchesPermission(required: Record, available: Record) {
    && required.permission == available.permission
    && forall k :: k in required.params ==>
         k in available.params && MatchesValue(required.params[k], available.params[k])
  }

  /** The loop of `matchesPermission` over the required keys. */
  method MatchesPermissionLoop(required: Record, available: Record) returns (r: bool)
    ensures r == MatchesPermission(required, available)
  {
    if required.permission != available.permission {
      return false;
    }
    var keys := required.params.Keys;
    while keys != {}
      invariant keys <= required.params.Keys
      invariant forall k :: k in required.params && k !in keys ==>
                  k in available.params && MatchesValue(required.params[k], available.params[k])
      decreases keys
    {
      var k :| k in keys;
      if k !in available.params {
        return false;
      }
      if !MatchesValue(required.params[k], available.params[k]) {
        return false;
      }
      keys := keys - {k};
    }
    return true;
  }

  /** Without required parameters a record of the same name matches, and
      parameters the requirement does not name are ignored. */
  lemma MatchesPermissionLaxity(required: Record, available: Record, k: string, v: Json)
    ensures MatchesPermission(Record(required.permission, map[]), available) <==>
              available.permission == required.permission
    ensures k !in required.params && MatchesPermission(required, available) ==>
              MatchesPermission(required, Record(available.permission, available.params[k := v]))
  {
  }

  /** A wildcard parameter matches whatever value, null included, is
      required for it. */
  lemma WildcardMatches(permission: string, k: string, required: Json)
    ensures MatchesPermission(Record(permission, map[k := required]), Record(permission, map[k := JStr("*")]))
  {
  }

  /** `hasAtomicPermission`: some available atomic permission matches. */
  predicate HasAtomicPermission(required: Record, available: seq<Record>) {
    exists a :: a in available && MatchesPermission(required, a)
  }

  /** The loop of `hasAtomicPermission`. */
  method HasAtomicPermissionLoop(required: Record, available: seq<Record>) returns (r: bool)
    ensures r == HasAtomicPermission(required, available)
  {
    var n := 0;
    while n < |available|
      invariant 0 <= n <= |available|
      invariant forall i :: 0 <= i < n ==> !MatchesPermission(required, available[i])
    {
      var m := MatchesPermissionLoop(required, available[n]);
      if m {
        assert available[n] in available;
        return true;
      }
      n := n + 1;
    }
    return false;
  }

  /** The atomic permissions of all records, in order. `atomic` stands for
      `getAtomicPermissions`, which expands a permission through the
      permission types. */
  function AtomicOf(records: seq<Record>, atomic: Record -> seq<Record>): (r: seq<Record>)
    ensures forall a :: a in r <==> exists x :: x in records && a in atomic(x)
  {
    if |records| == 0 then []
    else
      var rest := AtomicOf(records[1..], atomic);
      assert forall x :: x in records <==> x == records[0] || x in records[1..];
      atomic(records[0]) + rest
  }

  /** `hasPermission`: every atomic permission of the requirement is held. */
  predicate HasPermission(permission: string, params: map<string, Json>, records: seq<Record>,
                          atomic: Record -> seq<Record>) {
    forall req :: req in atomic(Record(permission, params)) ==> HasAtomicPermission(req, AtomicOf(records, atomic))
  }

  /** The two loops of `hasPermission`: the available atomic permissions are
      collected, then each required one is looked up. */
  method HasPermissionLoop(permission: string, params: map<string, Json>, records: seq<Record>,
                           atomic: Record -> seq<Record>) returns (r: bool)
    ensures r == HasPermission(permission, params, records, atomic)
  {
    var requiredList := atomic(Record(permission, params));
    var available: seq<Record> := [];
    var n := 0;
    while n < |records|
      invariant 0 <= n <= |records|
      invariant available == AtomicOf(records[..n], atomic)
    {
      AtomicOfAppend(records[..n], records[n], atomic);
      assert records[..n + 1] == records[..n] + [records[n]];
      available := available + atomic(records[n]);
      n := n + 1;
    }
    assert records[..n] == records;
    n := 0;
    while n < |requiredList|
      invariant 0 <= n <= |requiredList|
      invariant forall i :: 0 <= i < n ==> HasAtomicPermission(requiredList[i], available)
    {
      var h := HasAtomicPermissionLoop(requiredList[n], available);
      if !h {
        return false;
      }
      n := n + 1;
    }
    return true;
  }

  lemma {:induction false} AtomicOfAppend(records: seq<Record>, x: Record, atomic: Record -> seq<Record>)
    ensures AtomicOf(records + [x], atomic) == AtomicOf(records, atomic) + atomic(x)
  {
    if |records| > 0 {
      assert (records + [x])[1..] == records[1..] + [x];
      AtomicOfAppend(records[1..], x, atomic);
    }
  }

  /** More records never take a permission away. */
  lemma HasPermissionMonotone(permission: string, params: map<string, Json>, records: seq<Record>,
                              more: seq<Record>, atomic: Record -> seq<Record>)
    requires HasPermission(permission, params, records, atomic)
    ensures HasPermission(permission, params, records + more, atomic)
  {
    forall req | req in atomic(Record(permission, params))
      ensures HasAtomicPermission(req, AtomicOf(records + more, atomic))
    {
      var a :| a in AtomicOf(records, atomic) && MatchesPermission(req, a);
      var x :| x in records && a in atomic(x);
      assert x in records + more;
    }
  }

  /** `checkPermission`: a null parameter map counts as empty, and a missing
      permission is a `ForbiddenException`. */
  function CheckPermission(permission: string, params: Option<map<string, Json>>, records: seq<Record>,
                           atomic: Record -> seq<Record>): (r: Result<(), string>)
    ensures r.Ok? <==> HasPermission(permission, if params.None? then map[] else params.value, records, atomic)
    ensures r.Err? ==> r.error == "Required permission \"" + permission + "\" not found"
  {
    var p := if params.None? then map[] else params.value;
    if HasPermission(permission, p, records, atomic) then Ok(())
    else Err("Required permission \"" + permission + "\" not found")
  }


  /** A row of the permission table. `None` parameters is a record whose
      parameter map was set to null: its JSON column holds `null`, which
      reads back as a null map. */
  datatype Stored = Stored(user: string, permission: string, params: Option<map<string, Json>>)

  /** The `NullPointerException` of comparing a null map read back from the
      table. */
  datatype Failure = NullParams

  /** Every row has a parameter map. */
  predicate NoNullParams(records: seq<Stored>) {
    forall x :: x in records ==> x.params.Some?
  }

  /** A lookup result for a table behind `k` other rows. */
  function Shift(r: Result<Option<nat>, Failure>, k: nat): Result<Option<nat>, Failure> {
    match r
    case Err(e) => Err(e)
    case Ok(None) => Ok(None)
    case Ok(Some(i)) => Ok(Some(i + k))
  }

  /** `findExactPermission`: the rows of the user and permission in table
      order; the first whose map equals the given one is found (a null
      argument equals no map), and a row with a null map fails the
      comparison with a `NullPointerException`. */
  function FindExact(records: seq<Stored>, user: string, permission: string,
                     params: Option<map<string, Json>>): (r: Result<Option<nat>, Failure>)
    ensures NoNullParams(records) ==> r.Ok?
    ensures r.Ok? && r.value.Some? ==>
              r.value.value < |records| && records[r.value.value] == Stored(user, permission, params)
    ensures r.Ok? && r.value.None? ==> Stored(user, permission, params) !in records
    ensures r.Err? ==> Stored(user, permission, None) in records
  {
    if |records| == 0 then Ok(None)
    else
      var x := records[0];
      assert forall y :: y in records[1..] ==> y in records;
      assert forall y :: y in records ==> y == x || y in records[1..];
      if x.user == user && x.permission == permission && x.params.None? then Err(NullParams)
      else if x.user == user && x.permission == permission && x.params == params then Ok(Some(0))
      else Shift(FindExact(records[1..], user, permission, params), 1)
  }

  /** The parameters `revoke` looks for: null counts as an empty map. */
  function NonNull(params: Option<map<string, Json>>): (r: Option<map<string, Json>>)
    ensures r.Some? && (params.Some? ==> r == params)
  {
    if params.None? then Some(map[]) else params
  }

  /** `grant` as written: nothing when an exact row exists, otherwise a row
      with the given parameters, null included, is inserted. */
  function GrantedAsWritten(records: seq<Stored>, user: string, permission: string,
                            params: Option<map<string, Json>>): (r: Result<seq<Stored>, Failure>)
    ensures r.Ok? ==> Stored(user, permission, params) in r.value
  {
    match FindExact(records, user, permission, params)
    case Err(e) => Err(e)
    case Ok(Some(_)) => Ok(records)
    case Ok(None) => Ok(records + [Stored(user, permission, params)])
  }

  /** `grant` with a null parameter map counted as empty, as `revoke`
      counts it: it never stores a null map and so never fails. */
  function Granted(records: seq<Stored>, user: string, permission: string,
                   params: Option<map<string, Json>>): (r: Result<seq<Stored>, Failure>)
    ensures NoNullParams(records) ==>
              r.Ok? && NoNullParams(r.value) && Stored(user, permission, NonNull(params)) in r.value
  {
    var p := NonNull(params);
    match FindExact(records, user, permission, p)
    case Err(e) => Err(e)
    case Ok(Some(_)) => Ok(records)
    case Ok(None) => Ok(records + [Stored(user, permission, p)])
  }

  /** `revoke`: the exact row for the parameters (null counted as empty),
      if any, is deleted. */
  function Revoked(records: seq<Stored>, user: string, permission: string,
                   params: Option<map<string, Json>>): (r: Result<seq<Stored>, Failure>)
    ensures NoNullParams(records) ==> r.Ok? && NoNullParams(r.value)
    ensures r.Ok? ==> |r.value| == |records| || |r.value| == |records| - 1
  {
    match FindExact(records, user, permission, NonNull(params))
    case Err(e) => Err(e)
    case Ok(None) => Ok(records)
    case Ok(Some(i)) =>
      var rest := records[..i] + records[i + 1..];
      assert forall y :: y in rest ==> y in records;
      Ok(rest)
  }

  /** `revokeAll`: every row of the user and permission is deleted, the
      others are kept in order. */
  function RevokedAll(records: seq<Stored>, user: string, permission: string): (r: seq<Stored>)
    ensures forall x :: x in r <==> x in records && !(x.user == user && x.permission == permission)
    ensures |r| <= |records|
  {
    if |records| == 0 then []
    else
      var rest := RevokedAll(records[1..], user, permission);
      assert forall y :: y in records <==> y == records[0] || y in records[1..];
      if records[0].user == user && records[0].permission == permission then rest
      else [records[0]] + rest
  }

  /** Rows of other users or permissions do not affect the lookup, except
      that they move the index. */
  lemma {:induction false} FindExactSkipsOthers(records: seq<Stored>, tail: seq<Stored>, user: string,
                                                permission: string, params: Option<map<string, Json>>)
    requires forall x :: x in records ==> !(x.user == user && x.permission == permission)
    ensures FindExact(records + tail, user, permission, params) ==
            Shift(FindExact(tail, user, permission, params), |records|)
  {
    if |records| > 0 {
      assert records[0] in records;
      assert (records + tail)[0] == records[0];
      assert (records + tail)[1..] == records[1..] + tail;
      FindExactSkipsOthers(records[1..], tail, user, permission, params);
      var r := FindExact(tail, user, permission, params);
      assert Shift(Shift(r, |records| - 1), 1) == Shift(r, |records|);
    } else {
      assert records + tail == tail;
      var r := FindExact(tail, user, permission, params);
      assert Shift(r, 0) == r;
    }
  }

  /** As written, granting a permission without parameters stores a null
      map when the user had no row for it; from then on every lookup of the
      permission for the user, by a later `grant` or `revoke`, fails. */
  lemma GrantWithoutParamsBreaksLookup(records: seq<Stored>, user: string, permission: string,
                                       later: Option<map<string, Json>>)
    requires forall x :: x in records ==> !(x.user == user && x.permission == permission)
    ensures GrantedAsWritten(records, user, permission, None) == Ok(records + [Stored(user, permission, None)])
    ensures FindExact(records + [Stored(user, permission, None)], user, permission, later) == Err(NullParams)
    ensures GrantedAsWritten(records + [Stored(user, permission, None)], user, permission, None).Err?
    ensures Revoked(records + [Stored(user, permission, None)], user, permission, None).Err?
  {
    var s := Stored(user, permission, None);
    FindExactSkipsOthers(records, [], user, permission, None);
    assert records + [] == records;
    FindExactSkipsOthers(records, [s], user, permission, later);
    FindExactSkipsOthers(records, [s], user, permission, None);
    FindExactSkipsOthers(records, [s], user, permission, Some(map[]));
  }

  /** A row appended to a table without an equal row is found at the end. */
  lemma {:induction false} FindExactAfterAppend(records: seq<Stored>, s: Stored)
    requires NoNullParams(records) && s.params.Some? && s !in records
    ensures FindExact(records + [s], s.user, s.permission, s.params) == Ok(Some(|records|))
  {
    if |records| > 0 {
      assert (records + [s])[1..] == records[1..] + [s];
      assert records[0] in records;
      FindExactAfterAppend(records[1..], s);
    }
  }

  /** The corrected grant is idempotent. */
  lemma GrantIdempotent(records: seq<Stored>, user: string, permission: string, params: Option<map<string, Json>>)
    requires NoNullParams(records)
    ensures Granted(Granted(records, user, permission, params).value, user, permission, params) ==
            Granted(records, user, permission, params)
  {
  }

  /** Revoking a permission that was not granted changes nothing. */
  lemma RevokeAbsentIsNoOp(records: seq<Stored>, user: string, permission: string, params: Option<map<string, Json>>)
    requires NoNullParams(records)
    requires Stored(user, permission, NonNull(params)) !in records
    ensures Revoked(records, user, permission, params) == Ok(records)
  {
  }

  /** Revoking what the corrected grant just added restores the table, also
      for a grant and revoke without parameters. */
  lemma GrantRevokeRoundTrip(records: seq<Stored>, user: string, permission: string, params: Option<map<string, Json>>)
    requires NoNullParams(records)
    requires Stored(user, permission, NonNull(params)) !in records
    ensures Revoked(Granted(records, user, permission, params).value, user, permission, params) == Ok(records)
  {
    var s := Stored(user, permission, NonNull(params));
    assert Granted(records, user, permission, params) == Ok(records + [s]);
    FindExactAfterAppend(records, s);
    assert (records + [s])[..|records|] == records;
    assert FindExact(records + [s], user, permission, NonNull(params)) == Ok(Some(|records|));
    assert (records + [s])[|records| + 1..] == [];
    assert records + [] == records;
    assert Revoked(records + [s], user, permission, params) == Ok(records);
  }

  /** One step of the lookup from row `n` on. */
  lemma FindExactStep(records: seq<Stored>, n: nat, user: string, permission: string,
                      params: Option<map<string, Json>>)
    requires n < |records|
    ensures var x := records[n];
            var here := x.user == user && x.permission == permission;
            Shift(FindExact(records[n..], user, permission, params), n) ==
            (if here && x.params.None? then Err(NullParams)
             else if here && x.params == params then Ok(Some(n))
             else Shift(FindExact(records[n + 1..], user, permission, params), n + 1))
  {
    assert records[n..][1..] == records[n + 1..];
    var r := FindExact(records[n + 1..], user, permission, params);
    assert Shift(Shift(r, 1), n) == Shift(r, n + 1);
  }

  /** The permission table. */
  class PermissionStore {
    var records: seq<Stored>

    constructor ()
      ensures records == []
    {
      records := [];
    }

    /** `findExactPermission` as the loop over the table. */
    method FindExactPermission(user: string, permission: string, params: Option<map<string, Json>>)
      returns (r: Result<Option<nat>, Failure>)
      ensures r == FindExact(records, user, permission, params)
    {
      var n := 0;
      while n < |records|
        invariant 0 <= n <= |records|
        invariant FindExact(records, user, permission, params) == Shift(FindExact(records[n..], user, permission, params), n)
      {
        FindExactStep(records, n, user, permission, params);
        var x := records[n];
        if x.user == user && x.permission == permission {
          if x.params.None? {
            return Err(NullParams);
          }
          if x.params == params {
            return Ok(Some(n));
          }
        }
        n := n + 1;
      }
      return Ok(None);
    }

    /** `grant` as written. */
    method GrantAsWritten(user: string, permission: string, params: Option<map<string, Json>>)
      returns (r: Result<(), Failure>)
      modifies this
      ensures var g := GrantedAsWritten(old(records), user, permission, params);
              r.Ok? == g.Ok? && records == (if g.Ok? then g.value else old(records))
    {
      var found := FindExactPermission(user, permission, params);
      if found.Err? {
        return Err(found.error);
      }
      if found.value.None? {
        records := records + [Stored(user, permission, params)];
      }
      return Ok(());
    }

    /** `grant` with a null parameter map counted as empty. */
    method Grant(user: string, permission: string, params: Option<map<string, Json>>)
      returns (r: Result<(), Failure>)
      modifies this
      ensures var g := Granted(old(records), user, permission, params);
              r.Ok? == g.Ok? && records == (if g.Ok? then g.value else old(records))
    {
      var p := NonNull(params);
      var found := FindExactPermission(user, permission, p);
      if found.Err? {
        return Err(found.error);
      }
      if found.value.None? {
        records := records + [Stored(user, permission, p)];
      }
      return Ok(());
    }

    /** `revoke`. */
    method Revoke(user: string, permission: string, params: Option<map<string, Json>>)
      returns (r: Result<(), Failure>)
      modifies this
      ensures var g := Revoked(old(records), user, permission, params);
              r.Ok? == g.Ok? && records == (if g.Ok? then g.value else old(records))
    {
      var found := FindExactPermission(user, permission, NonNull(params));
      if found.Err? {
        return Err(found.error);
      }
      if found.value.Some? {
        records := records[..found.value.value] + records[found.value.value + 1..];
      }
      return Ok(());
    }

    /** `revokeAll`. */
    method RevokeAll(user: string, permission: string)
      modifies this
      ensures records == RevokedAll(old(records), user, permission)
    {
      records := RevokedAll(records, user, permission);
    }
  }
}
