/** The access decisions of the service's `User`: whether a logged-in user
    may access another user, and which date range a project user access
    rule grants for a table. Database lookups (group membership, project
    access controls, the access record, the modules of a table) are given
    as parameters. */
module ServiceUser {
  import opened Wrappers
  import opened ProjectUserAccess
  import opened ClientUser

  /** The fields of a user that the decisions read. */
  datatype Account = Account(userid: string, role: Role)

  /** `ForbiddenException("User %s not found or access forbidden")`. */
  datatype AccessDenied = AccessDenied(subject: string)

  /** Whether a professional reaches the target through a group or a
      project access control, as looked up in the database. */
  datatype Reach = Reach(inGroup: bool, viaProject: bool)

  /** `checkAccessibleUser`: a missing target is forbidden; admins and the
      user itself pass; patients are refused anyone else; an admin target is
      refused to non-admins; otherwise a shared group or a project access
      control lets the user through. */
  function CheckAccessibleUser(subject: string, getUser: Option<Account>, user: Account, reach: Reach): (r: Result<Account, AccessDenied>)
    ensures r.Ok? ==> getUser.Some? && r.value == getUser.value
    ensures r.Err? ==> r.error == AccessDenied(subject)
  {
    if getUser.None? then Err(AccessDenied(subject))
    else if user.role == Admin || getUser.value.userid == user.userid then Ok(getUser.value)
    else if user.role == Patient then Err(AccessDenied(subject))
    else if getUser.value.role == Admin then Err(AccessDenied(subject))
    else if reach.inGroup || reach.viaProject then Ok(getUser.value)
    else Err(AccessDenied(subject))
  }

  /** Who may access whom: an existing target, and either an admin caller,
      the caller itself, or a professional reaching a non-admin target. */
  lemma AccessibleUserMeans(subject: string, getUser: Option<Account>, user: Account, reach: Reach)
    ensures CheckAccessibleUser(subject, getUser, user, reach).Ok? <==>
              getUser.Some? &&
              (user.role == Admin || getUser.value.userid == user.userid ||
               (user.role == Professional && getUser.value.role != Admin && (reach.inGroup || reach.viaProject)))
  {
  }

  /** A patient reaches only itself, and an admin target is reached only by
      admins and by itself. */
  lemma AccessibleUserLimits(subject: string, target: Account, user: Account, reach: Reach)
    ensures user.role == Patient ==>
              (CheckAccessibleUser(subject, Some(target), user, reach).Ok? <==> target.userid == user.userid)
    ensures target.role == Admin && user.role != Admin && target.userid != user.userid ==>
              CheckAccessibleUser(subject, Some(target), user, reach).Err?
  {
  }

  /** `ProjectUserAccessRestriction`: a module, an access mode and an
      optional start and end date. */
  datatype Restriction = Restriction(moduleName: string, accessMode: string, start: Option<int>, end: Option<int>)

  /** `matchesAccessRestriction`: the module is one of the table's modules
      and the restriction's mode matches the required mode. Access modes
      are named by strings and `matchesRequest` stands for
      `AccessMode.matchesRequest`. */
  predicate MatchesAccessRestriction(restrict: Restriction, modules: set<string>, requiredMode: string,
                                         matchesRequest: (string, string) -> bool) {
    restrict.moduleName in modules && matchesRequest(restrict.accessMode, requiredMode)
  }

  /** The restrictions that match, in order. */
  function Matching(rs: seq<Restriction>, modules: set<string>, requiredMode: string,
                       matchesRequest: (string, string) -> bool): (r: seq<Restriction>)
    ensures forall x :: x in r <==> x in rs && MatchesAccessRestriction(x, modules, requiredMode, matchesRequest)
  {
    if |rs| == 0 then []
    else
      var rest := Matching(rs[1..], modules, requiredMode, matchesRequest);
      assert forall x :: x in rs <==> x == rs[0] || x in rs[1..];
      if MatchesAccessRestriction(rs[0], modules, requiredMode, matchesRequest) then [rs[0]] + rest else rest
  }

  /** The earlier of two start bounds, where an absent bound absorbs. */
  function EarlierStart(a: Option<int>, b: Option<int>): Option<int> {
    if a.None? || b.None? then None else if b.value < a.value then b else a
  }

  /** The later of two end bounds, where an absent bound absorbs. */
  function LaterEnd(a: Option<int>, b: Option<int>): Option<int> {
    if a.None? || b.None? then None else if b.value > a.value then b else a
  }

  /** The hull of a non-empty list of restrictions, folded from the left as
      the loop does. */
  function Hull(rs: seq<Restriction>): (Option<int>, Option<int>)
    requires |rs| > 0
  {
    if |rs| == 1 then (rs[0].start, rs[0].end)
    else
      var h := Hull(rs[..|rs| - 1]);
      var last := rs[|rs| - 1];
      (EarlierStart(h.0, last.start), LaterEnd(h.1, last.end))
  }

  /** One more restriction widens the hull by its own bounds. */
  lemma HullAppend(rs: seq<Restriction>, x: Restriction)
    requires |rs| > 0
    ensures Hull(rs + [x]) == (EarlierStart(Hull(rs).0, x.start), LaterEnd(Hull(rs).1, x.end))
  {
    assert (rs + [x])[..|rs|] == rs;
  }

  /** The hull starts at the earliest start, and is open at the start as
      soon as one restriction is; likewise for the end. */
  lemma {:induction false} HullMeans(rs: seq<Restriction>)
    requires |rs| > 0
    ensures Hull(rs).0.None? <==> exists x :: x in rs && x.start.None?
    ensures Hull(rs).0.Some? ==>
              (Hull(rs).0 in (set x | x in rs :: x.start) && forall x :: x in rs ==> Hull(rs).0.value <= x.start.value)
    ensures Hull(rs).1.None? <==> exists x :: x in rs && x.end.None?
    ensures Hull(rs).1.Some? ==>
              (Hull(rs).1 in (set x | x in rs :: x.end) && forall x :: x in rs ==> Hull(rs).1.value >= x.end.value)
  {
    if |rs| > 1 {
      var init := rs[..|rs| - 1];
      var last := rs[|rs| - 1];
      HullMeans(init);
      assert forall x :: x in rs <==> x in init || x == last;
    }
  }

  /** `findAccessibleProjectUserRange`: the full range without restrictions;
      no access for a table in no module or when no restriction matches;
      otherwise the hull of the matching restrictions. */
  function AccessibleRange(restrictions: Option<seq<Restriction>>, modules: set<string>, requiredMode: string,
                              matchesRequest: (string, string) -> bool): Option<(Option<int>, Option<int>)>
  {
    if restrictions.None? then Some((None, None))
    else if modules == {} then None
    else
      var m := Matching(restrictions.value, modules, requiredMode, matchesRequest);
      if |m| == 0 then None else Some(Hull(m))
  }

  /** `findAccessibleProjectUserRange` as the loop over the restrictions that
      keeps the range in two variables. */
  method FindAccessibleProjectUserRange(restrictions: Option<seq<Restriction>>, modules: set<string>,
                                           requiredMode: string, matchesRequest: (string, string) -> bool)
    returns (r: Option<(Option<int>, Option<int>)>)
    ensures r == AccessibleRange(restrictions, modules, requiredMode, matchesRequest)
  {
    if restrictions.None? {
      return Some((None, None));
    }
    if modules == {} {
      return None;
    }
    var rs := restrictions.value;
    var start: Option<int> := None;
    var end: Option<int> := None;
    var foundMatch := false;
    ghost var matched: seq<Restriction> := [];
    var n := 0;
    while n < |rs|
      invariant 0 <= n <= |rs|
      invariant matched == Matching(rs[..n], modules, requiredMode, matchesRequest)
      invariant foundMatch <==> |matched| > 0
      invariant foundMatch ==> (start, end) == Hull(matched)
    {
      var restrict := rs[n];
      MatchingAppend(rs[..n], restrict, modules, requiredMode, matchesRequest);
      assert rs[..n + 1] == rs[..n] + [restrict];
      if MatchesAccessRestriction(restrict, modules, requiredMode, matchesRequest) {
        if !foundMatch {
          foundMatch := true;
          start := restrict.start;
          end := restrict.end;
        } else {
          HullAppend(matched, restrict);
          if restrict.start.None? {
            start := None;
          } else if start.Some? && restrict.start.value < start.value {
            start := restrict.start;
          }
          if restrict.end.None? {
            end := None;
          } else if end.Some? && restrict.end.value > end.value {
            end := restrict.end;
          }
        }
        matched := matched + [restrict];
      }
      n := n + 1;
    }
    assert rs[..n] == rs;
    if foundMatch {
      r := Some((start, end));
    } else {
      r := None;
    }
  }

  /** Filtering a list with one more element filters the list and then the
      element. */
  lemma {:induction false} MatchingAppend(rs: seq<Restriction>, x: Restriction, modules: set<string>,
                                             requiredMode: string, matchesRequest: (string, string) -> bool)
    ensures Matching(rs + [x], modules, requiredMode, matchesRequest) ==
              Matching(rs, modules, requiredMode, matchesRequest) +
              (if MatchesAccessRestriction(x, modules, requiredMode, matchesRequest) then [x] else [])
  {
    if |rs| > 0 {
      assert (rs + [x])[1..] == rs[1..] + [x];
      MatchingAppend(rs[1..], x, modules, requiredMode, matchesRequest);
    }
  }

  /** The range a granted access covers: every matching restriction's range
      lies inside it, and a restriction without a bound makes that side
      unbounded. */
  lemma AccessibleRangeCovers(restrictions: seq<Restriction>, modules: set<string>, requiredMode: string,
                                 matchesRequest: (string, string) -> bool, x: Restriction)
    requires modules != {}
    requires x in restrictions && MatchesAccessRestriction(x, modules, requiredMode, matchesRequest)
    ensures var r := AccessibleRange(Some(restrictions), modules, requiredMode, matchesRequest);
            r.Some? &&
            (r.value.0.Some? ==> x.start.Some? && r.value.0.value <= x.start.value) &&
            (r.value.1.Some? ==> x.end.Some? && r.value.1.value >= x.end.value)
  {
    var m := Matching(restrictions, modules, requiredMode, matchesRequest);
    assert x in m;
    HullMeans(m);
  }

  /** `checkAccessibleProjectUser`: like `checkAccessibleUser`, except that
      an access record for the project (its rule given as `accessRule`, the
      table's modules as `modules`) can grant a date range first. Admins,
      the user itself, group members and project access controls get the
      full range. */
  function CheckAccessibleProjectUser(subject: string, getUser: Option<Account>, user: Account,
                                         accessRule: Option<Option<seq<Restriction>>>, modules: set<string>,
                                         requiredMode: string, matchesRequest: (string, string) -> bool, reach: Reach)
    : (r: Result<Access<Account>, AccessDenied>)
    ensures r.Ok? ==> getUser.Some? && r.value.user == getUser.value
    ensures r.Err? ==> r.error == AccessDenied(subject)
  {
    if getUser.None? then Err(AccessDenied(subject))
    else if user.role == Admin || getUser.value.userid == user.userid then Ok(Access(getUser.value, None, None))
    else
      var range := if accessRule.Some? then AccessibleRange(accessRule.value, modules, requiredMode, matchesRequest) else None;
      if range.Some? then Ok(Access(getUser.value, range.value.0, range.value.1))
      else if user.role == Patient then Err(AccessDenied(subject))
      else if getUser.value.role == Admin then Err(AccessDenied(subject))
      else if reach.inGroup || reach.viaProject then Ok(Access(getUser.value, None, None))
      else Err(AccessDenied(subject))
  }

  /** A project access record can give even a patient a restricted range on
      another user, and only a record can restrict the range. */
  lemma ProjectAccessMeans(subject: string, getUser: Option<Account>, user: Account,
                              accessRule: Option<Option<seq<Restriction>>>, modules: set<string>,
                              requiredMode: string, matchesRequest: (string, string) -> bool, reach: Reach)
    ensures var r := CheckAccessibleProjectUser(subject, getUser, user, accessRule, modules, requiredMode,
                                                matchesRequest, reach);
            (r.Ok? && (r.value.startDate.Some? || r.value.endDate.Some?) ==>
               accessRule.Some? && user.role != Admin && getUser.value.userid != user.userid)
    ensures var r := CheckAccessibleProjectUser(subject, getUser, user, accessRule, modules, requiredMode,
                                                matchesRequest, reach);
            accessRule.None? ==>
              (r.Ok? <==> CheckAccessibleUser(subject, getUser, user, reach).Ok?) &&
              (r.Ok? ==> r.value.startDate.None? && r.value.endDate.None?)
  {
  }
}
