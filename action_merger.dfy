/** Merging of logged database actions so that each record keeps one action:
    the newest action of a record absorbs the data of the older ones. */
module DatabaseActionMerger {
  import opened Wrappers
  import opened Json

  datatype ActionKind = INSERT | UPDATE | DELETE

  /** The data of an insert or update action: column name to value, as the
      action's JSON data parses. */
  type Data = map<string, Json>

  /** The fields of an action that merging reads or writes. */
  datatype ActionValue = ActionValue(recordId: string, action: ActionKind, data: Data, time: int, order: int)

  /** A database action. Merging changes only its kind and its data. */
  class DatabaseAction {
    const recordId: string
    var action: ActionKind
    var data: Data
    const time: int
    const order: int

    constructor (recordId: string, action: ActionKind, data: Data, time: int, order: int)
      ensures Value() == ActionValue(recordId, action, data, time, order)
    {
      this.recordId := recordId;
      this.action := action;
      this.data := data;
      this.time := time;
      this.order := order;
    }

    function Value(): ActionValue
      reads this
    {
      ActionValue(recordId, action, data, time, order)
    }
  }

  function Values(actions: seq<DatabaseAction>): (vs: seq<ActionValue>)
    reads actions
    ensures |vs| == |actions|
  {
    if |actions| == 0 then []
    else Values(actions[..|actions| - 1]) + [actions[|actions| - 1].Value()]
  }

  lemma {:induction false} ValuesAt(actions: seq<DatabaseAction>)
    ensures forall i :: 0 <= i < |actions| ==> Values(actions)[i] == actions[i].Value()
    decreases |actions|
  {
    if |actions| > 0 {
      ValuesAt(actions[..|actions| - 1]);
    }
  }

  // ---------------------------------------------------------------------
  // Merging the actions of one record (values)

  /** The data of `newest` actions over `older` ones: a newer value wins. */
  function Overlay(vs: seq<ActionValue>): Data {
    if |vs| == 0 then map[] else Overlay(vs[1..]) + vs[0].data
  }

  /** The walk back from an update over older actions (newest first): each
      older insert or update adds the keys the data lacks; an insert ends
      the walk and makes the result an insert; a delete is an error. */
  function MergeWalk(data: Data, olders: seq<ActionValue>): (r: Result<(ActionKind, Data), string>)
    ensures r.Ok? ==> r.value.0 != DELETE
    decreases |olders|
  {
    if |olders| == 0 then Ok((UPDATE, data))
    else if olders[0].action == DELETE then Err("Can't merge action DELETE into update action")
    else
      var merged := olders[0].data + data;
      if olders[0].action == INSERT then Ok((INSERT, merged)) else MergeWalk(merged, olders[1..])
  }

  /** The merged action of one record's actions, newest first. */
  function MergeRecord(vs: seq<ActionValue>): (r: Result<ActionValue, string>)
    requires |vs| > 0
    ensures r.Ok? ==> r.value.recordId == vs[0].recordId && r.value.time == vs[0].time &&
                      r.value.order == vs[0].order
    ensures vs[0].action != UPDATE || |vs| == 1 ==> r == Ok(vs[0])
  {
    if vs[0].action != UPDATE || |vs| == 1 then Ok(vs[0])
    else match MergeWalk(vs[0].data, vs[1..])
      case Err(e) => Err(e)
      case Ok(kd) => Ok(vs[0].(action := kd.0, data := kd.1))
  }

  /** How many older actions the walk visits: up to and including the first
      that is not an update. */
  function Walked(olders: seq<ActionValue>): (n: nat)
    ensures n <= |olders|
  {
    if |olders| == 0 then 0
    else if olders[0].action != UPDATE then 1
    else 1 + Walked(olders[1..])
  }

  /** Walking back over updates, the first action of another kind has kind
      `kind`. */
  predicate Reaches(olders: seq<ActionValue>, kind: ActionKind) {
    exists k :: 0 <= k < |olders| && olders[k].action == kind &&
      forall j :: 0 <= j < k ==> olders[j].action == UPDATE
  }

  lemma MapUnionAssociates(a: Data, b: Data, c: Data)
    ensures a + (b + c) == (a + b) + c
  {
  }

  /** Past an update, the walk reaches the same kind as from the next
      action. */
  lemma ReachesPastUpdate(olders: seq<ActionValue>, kind: ActionKind)
    requires |olders| > 0 && olders[0].action == UPDATE && kind != UPDATE
    ensures Reaches(olders, kind) <==> Reaches(olders[1..], kind)
  {
    var tail := olders[1..];
    if Reaches(tail, kind) {
      var k :| 0 <= k < |tail| && tail[k].action == kind &&
               forall j :: 0 <= j < k ==> tail[j].action == UPDATE;
      assert olders[k + 1].action == kind;
      assert forall j :: 1 <= j < k + 1 ==> olders[j] == tail[j - 1];
    }
    if Reaches(olders, kind) {
      var k :| 0 <= k < |olders| && olders[k].action == kind &&
               forall j :: 0 <= j < k ==> olders[j].action == UPDATE;
      assert tail[k - 1].action == kind;
      assert forall j :: 0 <= j < k - 1 ==> tail[j] == olders[j + 1];
    }
  }

  /** The walk fails exactly when a delete comes before any insert, and on
      success it is an insert exactly when it reached one. */
  lemma {:induction false} WalkOutcome(data: Data, olders: seq<ActionValue>)
    ensures MergeWalk(data, olders).Err? <==> Reaches(olders, DELETE)
    ensures MergeWalk(data, olders).Ok? ==>
              (MergeWalk(data, olders).value.0 == INSERT <==> Reaches(olders, INSERT))
    decreases |olders|
  {
    if |olders| > 0 {
      if olders[0].action == UPDATE {
        WalkOutcome(olders[0].data + data, olders[1..]);
        ReachesPastUpdate(olders, DELETE);
        ReachesPastUpdate(olders, INSERT);
      } else {
        assert olders[0].action == DELETE ==> Reaches(olders, DELETE);
        assert olders[0].action == INSERT ==> Reaches(olders, INSERT);
      }
    }
  }

  /** On success the walk's data is the overlay of the walked actions under
      the newer data. */
  lemma {:induction false} WalkData(data: Data, olders: seq<ActionValue>)
    requires MergeWalk(data, olders).Ok?
    ensures MergeWalk(data, olders).value.1 == Overlay(olders[..Walked(olders)]) + data
    decreases |olders|
  {
    if |olders| > 0 {
      var pre := olders[..Walked(olders)];
      if olders[0].action == INSERT {
        assert pre == [olders[0]];
        assert pre[1..] == [];
        assert Overlay(pre) == map[] + olders[0].data;
        assert map[] + olders[0].data == olders[0].data;
      } else {
        var tail := olders[1..];
        WalkData(olders[0].data + data, tail);
        var m := Walked(tail);
        assert pre[1..] == tail[..m];
        assert Overlay(pre) == Overlay(tail[..m]) + olders[0].data;
        MapUnionAssociates(Overlay(tail[..m]), olders[0].data, data);
      }
    } else {
      assert Overlay(olders[..0]) + data == data;
    }
  }

  /** Where the walked actions disagree, the newest one wins: a key of the
      overlay has the value of the first action that has the key. */
  lemma {:induction false} OverlayNewestWins(vs: seq<ActionValue>, key: string)
    ensures key in Overlay(vs) <==> exists j :: 0 <= j < |vs| && key in vs[j].data
    ensures key in Overlay(vs) ==>
              exists j :: 0 <= j < |vs| && key in vs[j].data && Overlay(vs)[key] == vs[j].data[key] &&
                forall i :: 0 <= i < j ==> key !in vs[i].data
    decreases |vs|
  {
    if |vs| > 0 {
      var tail := vs[1..];
      OverlayNewestWins(tail, key);
      assert forall j :: 0 <= j < |tail| ==> tail[j] == vs[j + 1];
      if key in vs[0].data {
        assert Overlay(vs)[key] == vs[0].data[key];
      } else if key in Overlay(vs) {
        var j :| 0 <= j < |tail| && key in tail[j].data && Overlay(tail)[key] == tail[j].data[key] &&
                 forall i :: 0 <= i < j ==> key !in tail[i].data;
        assert key in vs[j + 1].data;
        assert forall i :: 1 <= i < j + 1 ==> key !in vs[i].data;
      }
    }
  }

  /** The merge of an update with older actions: it fails when a delete
      comes first; otherwise it is an insert when an insert comes first, and
      its data is the overlay of the actions up to that insert. */
  lemma MergeUpdateMeans(vs: seq<ActionValue>)
    requires |vs| > 1 && vs[0].action == UPDATE
    ensures MergeRecord(vs).Err? <==> Reaches(vs[1..], DELETE)
    ensures MergeRecord(vs).Ok? ==>
              MergeRecord(vs).value.data == Overlay(vs[..1 + Walked(vs[1..])]) &&
              (MergeRecord(vs).value.action == INSERT <==> Reaches(vs[1..], INSERT)) &&
              (MergeRecord(vs).value.action == UPDATE <==> !Reaches(vs[1..], INSERT))
  {
    var tail := vs[1..];
    WalkOutcome(vs[0].data, tail);
    if MergeWalk(vs[0].data, tail).Ok? {
      WalkData(vs[0].data, tail);
    }
    var pre := vs[..1 + Walked(tail)];
    assert pre[1..] == tail[..Walked(tail)];
  }

  /** A newer update's values are kept: older actions add only keys it
      lacks. */
  lemma MergeKeepsNewestData(vs: seq<ActionValue>, key: string)
    requires |vs| > 0 && MergeRecord(vs).Ok? && key in vs[0].data
    ensures key in MergeRecord(vs).value.data && MergeRecord(vs).value.data[key] == vs[0].data[key]
  {
    if vs[0].action == UPDATE && |vs| > 1 {
      MergeUpdateMeans(vs);
      OverlayNewestWins(vs[..1 + Walked(vs[1..])], key);
    }
  }

  /** A delete after older inserts cannot be merged into a newer update. */
  lemma MergeExamples(id: string, d: Data, e: Data)
    ensures MergeRecord([ActionValue(id, UPDATE, d, 5, 0), ActionValue(id, DELETE, map[], 4, 0)]).Err?
    ensures MergeRecord([ActionValue(id, UPDATE, d, 5, 1), ActionValue(id, INSERT, e, 5, 0)])
            == Ok(ActionValue(id, INSERT, e + d, 5, 1))
    ensures MergeRecord([ActionValue(id, DELETE, map[], 5, 0), ActionValue(id, UPDATE, e, 4, 0)])
            == Ok(ActionValue(id, DELETE, map[], 5, 0))
  {
    var vs := [ActionValue(id, UPDATE, d, 5, 1), ActionValue(id, INSERT, e, 5, 0)];
    assert vs[1..][0] == ActionValue(id, INSERT, e, 5, 0);
  }

  // ---------------------------------------------------------------------
  // Merging the actions of one record (objects)

  /** `mergeActionData`: copies the keys of the older data that the newer
      data lacks. */
  method MergeActionData(data: Data, prevData: Data) returns (merged: Data)
    ensures merged == prevData + data
  {
    merged := data;
    var keys := prevData.Keys;
    while keys != {}
      invariant keys <= prevData.Keys
      invariant merged.Keys == data.Keys + (prevData.Keys - keys)
      invariant forall k :: k in merged ==> merged[k] == if k in data then data[k] else prevData[k]
      decreases keys
    {
      var key :| key in keys;
      if key !in merged {
        merged := merged[key := prevData[key]];
      }
      keys := keys - {key};
    }
    assert merged.Keys == (prevData + data).Keys;
  }

  /** `mergeRecordActions`: merges the actions of one record, newest first,
      into the newest action object and returns the number of older actions
      to delete. */
  method MergeRecordActions(actions: seq<DatabaseAction>) returns (r: Result<nat, string>)
    requires |actions| > 0
    modifies actions[0]
    ensures r.Ok? <==> MergeRecord(old(Values(actions))).Ok?
    ensures r.Ok? ==> r.value == |actions| - 1 &&
                      actions[0].Value() == MergeRecord(old(Values(actions))).value
    ensures r.Err? ==> r.error == MergeRecord(old(Values(actions))).error &&
                       actions[0].Value() == old(actions[0].Value())
  {
    ValuesAt(actions);
    var action := actions[0];
    var deleteCount := 0;
    var i := 1;
    if !(action.action == INSERT || action.action == DELETE || |actions| == 1) {
      var walked := MergeUpdate(actions);
      if walked.Err? {
        return Err(walked.error);
      }
      i := walked.value;
      deleteCount := i - 1;
    }
    while i < |actions|
      invariant 1 <= i <= |actions| && deleteCount == i - 1
      decreases |actions| - i
    {
      i := i + 1;
      deleteCount := deleteCount + 1;
    }
    return Ok(deleteCount);
  }

  /** The update branch of `mergeRecordActions`: walks back from the update
      `actions[0]` over older updates, merging their data under its own,
      until an insert (which the action becomes) or the end; a delete stops
      the merge with an error. The result is the position after the last
      action visited. */
  method MergeUpdate(actions: seq<DatabaseAction>) returns (r: Result<nat, string>)
    requires |actions| > 1 && actions[0].action == UPDATE
    modifies actions[0]
    ensures r.Ok? <==> MergeRecord(old(Values(actions))).Ok?
    ensures r.Ok? ==> 1 <= r.value <= |actions| &&
                      actions[0].Value() == MergeRecord(old(Values(actions))).value
    ensures r.Err? ==> r.error == MergeRecord(old(Values(actions))).error &&
                       actions[0].Value() == old(actions[0].Value())
  {
    ghost var vs := Values(actions);
    ValuesAt(actions);
    var action := actions[0];
    var i := 1;
    var data := action.data;
    var merged := false;
    while !merged && i < |actions|
      invariant 1 <= i <= |actions|
      invariant !merged ==> action.Value() == vs[0] && forall j :: 0 <= j < |actions| ==> actions[j].Value() == vs[j]
      invariant !merged ==> MergeWalk(vs[0].data, vs[1..]) == MergeWalk(data, vs[i..])
      invariant merged ==> MergeWalk(vs[0].data, vs[1..]) == Ok((INSERT, data)) &&
                           action.Value() == vs[0].(action := INSERT)
      decreases |actions| - i
    {
      var prevAction := actions[i];
      assert vs[i..][0] == vs[i] && vs[i..][1..] == vs[i + 1..];
      if prevAction.action == DELETE {
        return Err("Can't merge action DELETE into update action");
      }
      data := MergeActionData(data, prevAction.data);
      if prevAction.action == INSERT {
        action.action := INSERT;
        merged := true;
      }
      i := i + 1;
    }
    action.data := data;
    return Ok(i);
  }


  // ---------------------------------------------------------------------
  // Grouping by record

  /** The keys of the record map, built from the last action backwards:
      each record id in the order of its last action, newest first. */
  function Order(actions: seq<DatabaseAction>): (ks: seq<string>)
    ensures forall k :: k in ks ==> |Group(actions, k)| > 0
    decreases |actions|
  {
    if |actions| == 0 then []
    else
      var ks := Order(actions[1..]);
      if actions[0].recordId in ks then ks else ks + [actions[0].recordId]
  }

  /** The actions of one record, newest first. */
  function Group(actions: seq<DatabaseAction>, id: string): (g: seq<DatabaseAction>)
    ensures forall i :: 0 <= i < |g| ==> g[i] in actions && g[i].recordId == id
    decreases |actions|
  {
    if |actions| == 0 then []
    else Group(actions[1..], id) + (if actions[0].recordId == id then [actions[0]] else [])
  }

  /** The index of the last action on `id`, or -1. */
  function LastPos(actions: seq<DatabaseAction>, id: string): (p: int)
    ensures -1 <= p < |actions|
    decreases |actions|
  {
    if |actions| == 0 then -1
    else
      var p := LastPos(actions[1..], id);
      if p >= 0 then p + 1 else if actions[0].recordId == id then 0 else -1
  }

  /** Each record with an action appears exactly once. */
  lemma {:induction false} OrderMeans(actions: seq<DatabaseAction>)
    ensures forall k :: k in Order(actions) <==> exists i :: 0 <= i < |actions| && actions[i].recordId == k
    ensures forall p, q :: 0 <= p < q < |Order(actions)| ==> Order(actions)[p] != Order(actions)[q]
    decreases |actions|
  {
    if |actions| > 0 {
      var tail := actions[1..];
      OrderMeans(tail);
      assert forall i :: 0 <= i < |tail| ==> tail[i] == actions[i + 1];
      forall k | exists i :: 0 <= i < |actions| && actions[i].recordId == k
        ensures k in Order(actions)
      {
        var i :| 0 <= i < |actions| && actions[i].recordId == k;
        if i > 0 {
          assert tail[i - 1].recordId == k;
        }
      }
    }
  }

  /** The records are ordered by the position of their last action, latest
      first, and the newest action of a record heads its group. */
  lemma {:induction false} OrderFollowsLastAction(actions: seq<DatabaseAction>)
    ensures forall k :: k in Order(actions) ==>
              LastPos(actions, k) >= 0 && Group(actions, k)[0] == actions[LastPos(actions, k)] &&
              actions[LastPos(actions, k)].recordId == k
    ensures forall p, q :: 0 <= p < q < |Order(actions)| ==>
              LastPos(actions, Order(actions)[q]) < LastPos(actions, Order(actions)[p])
    decreases |actions|
  {
    if |actions| > 0 {
      var tail := actions[1..];
      OrderFollowsLastAction(tail);
      assert forall i :: 0 <= i < |tail| ==> tail[i] == actions[i + 1];
      var ks := Order(tail);
      forall k | k in Order(actions)
        ensures LastPos(actions, k) >= 0 && Group(actions, k)[0] == actions[LastPos(actions, k)] &&
                actions[LastPos(actions, k)].recordId == k
      {
        if k in ks {
          assert Group(actions, k)[0] == Group(tail, k)[0];
        } else {
          GroupOfAbsent(tail, k);
        }
      }
      if actions[0].recordId !in ks {
        GroupOfAbsent(tail, actions[0].recordId);
      }
    }
  }

  /** There are never more records than actions, so merging never returns
      more actions than it is given. */
  lemma {:induction false} OrderNoLonger(actions: seq<DatabaseAction>)
    ensures |Order(actions)| <= |actions|
    decreases |actions|
  {
    if |actions| > 0 {
      OrderNoLonger(actions[1..]);
    }
  }

  lemma {:induction false} GroupOfAbsent(actions: seq<DatabaseAction>, id: string)
    requires id !in Order(actions)
    ensures Group(actions, id) == [] && LastPos(actions, id) == -1
    decreases |actions|
  {
    if |actions| > 0 {
      var tail := actions[1..];
      GroupOfAbsent(tail, id);
    }
  }

  /** The grouping loop of `mergeActions`: from the last action back, each
      action is appended to the list of its record, and a record seen for
      the first time is appended to the keys. */
  method GroupByRecord(actions: seq<DatabaseAction>) returns (keys: seq<string>, groups: map<string, seq<DatabaseAction>>)
    ensures keys == Order(actions) && groups == GroupMap(actions)
  {
    keys := [];
    groups := map[];
    var i := |actions|;
    while i > 0
      invariant 0 <= i <= |actions|
      invariant keys == Order(actions[i..])
      invariant forall k :: k in groups <==> k in keys
      invariant forall k :: k in groups ==> groups[k] == Group(actions[i..], k)
    {
      i := i - 1;
      var action := actions[i];
      assert actions[i..][0] == action && actions[i..][1..] == actions[i + 1..];
      if action.recordId in groups {
        groups := groups[action.recordId := groups[action.recordId] + [action]];
      } else {
        GroupOfAbsent(actions[i + 1..], action.recordId);
        groups := groups[action.recordId := [action]];
        keys := keys + [action.recordId];
      }
    }
    assert actions[0..] == actions;
    assert groups == GroupMap(actions);
  }

  /** The record map that `mergeActions` builds: each record's actions,
      newest first. */
  function GroupMap(actions: seq<DatabaseAction>): (groups: map<string, seq<DatabaseAction>>)
    ensures forall k :: k in Order(actions) ==> k in groups && |groups[k]| > 0
  {
    map k | k in Order(actions) :: Group(actions, k)
  }

  /** The merged list: the first action of each record's group in `ks`,
      the record added last first, as `add(0, ...)` builds it. */
  function Heads(groups: map<string, seq<DatabaseAction>>, ks: seq<string>): (hs: seq<DatabaseAction>)
    requires forall k :: k in ks ==> k in groups && |groups[k]| > 0
    ensures |hs| == |ks|
  {
    if |ks| == 0 then []
    else [groups[ks[|ks| - 1]][0]] + Heads(groups, ks[..|ks| - 1])
  }

  lemma {:induction false} HeadsAt(groups: map<string, seq<DatabaseAction>>, ks: seq<string>)
    requires forall k :: k in ks ==> k in groups && |groups[k]| > 0
    ensures forall p :: 0 <= p < |ks| ==> Heads(groups, ks)[p] == groups[ks[|ks| - 1 - p]][0]
    decreases |ks|
  {
    if |ks| > 0 {
      var init := ks[..|ks| - 1];
      HeadsAt(groups, init);
      assert forall p :: 1 <= p < |ks| ==> Heads(groups, ks)[p] == Heads(groups, init)[p - 1];
    }
  }

  /** A successful merge of a group's values, `before`, into the value
      `head` of its first action. */
  predicate MergedInto(before: seq<ActionValue>, head: ActionValue) {
    |before| > 0 && MergeRecord(before) == Ok(head)
  }

  /** The values of a group whose merge fails. */
  predicate MergeFails(before: seq<ActionValue>) {
    |before| > 0 && MergeRecord(before).Err?
  }

  /** The groups a merge walks through: each listed record has a non-empty
      group of its own actions, and no record is listed twice. */
  predicate Grouped(keys: seq<string>, groups: map<string, seq<DatabaseAction>>) {
    (forall k :: k in keys ==> k in groups && |groups[k]| > 0) &&
    (forall k, i :: k in keys && 0 <= i < |groups[k]| ==> groups[k][i].recordId == k) &&
    (forall p, q :: 0 <= p < q < |keys| ==> keys[p] != keys[q])
  }

  /** The record map holds, for each record of the order, a non-empty list
      of that record's actions, and no record is listed twice. */
  lemma GroupMapGrouped(actions: seq<DatabaseAction>)
    ensures Grouped(Order(actions), GroupMap(actions))
  {
    OrderMeans(actions);
  }

  /** One round of the merge loop: merges the group of `keys[j]`, keeps the
      merges of the earlier rounds and leaves the later groups as they were.
      `before` holds the values of each group when the loop started. */
  method MergeStep(keys: seq<string>, groups: map<string, seq<DatabaseAction>>,
                   ghost before: map<string, seq<ActionValue>>, j: nat)
    returns (r: Result<nat, string>)
    requires Grouped(keys, groups) && j < |keys|
    requires forall k :: k in keys ==> k in before
    requires forall m :: 0 <= m < j ==> MergedInto(before[keys[m]], groups[keys[m]][0].Value())
    requires forall m :: j <= m < |keys| ==> Values(groups[keys[m]]) == before[keys[m]]
    modifies groups[keys[j]][0]
    ensures r.Err? ==> MergeFails(before[keys[j]])
    ensures r.Ok? ==> forall m :: 0 <= m < j + 1 ==> MergedInto(before[keys[m]], groups[keys[m]][0].Value())
    ensures forall m :: j + 1 <= m < |keys| ==> Values(groups[keys[m]]) == before[keys[m]]
  {
    var group := groups[keys[j]];
    r := MergeRecordActions(group);
    forall m | j + 1 <= m < |keys|
      ensures Values(groups[keys[m]]) == before[keys[m]]
    {
      assert group[0] !in groups[keys[m]];
    }
    forall m | 0 <= m < j
      ensures groups[keys[m]][0].Value() == old(groups[keys[m]][0].Value())
    {
      assert group[0] != groups[keys[m]][0];
    }
  }

  /** The merged list grows at the front, one record at a time. */
  lemma HeadsStep(groups: map<string, seq<DatabaseAction>>, ks: seq<string>, j: nat)
    requires forall k :: k in ks ==> k in groups && |groups[k]| > 0
    requires j < |ks|
    ensures Heads(groups, ks[..j + 1]) == [groups[ks[j]][0]] + Heads(groups, ks[..j])
  {
    assert ks[..j + 1][..j] == ks[..j];
  }

  /** The merge loop of `mergeActions`: each record's actions are merged
      into the group's first action, which is added at the front of the
      result. `before` holds the values of each group on entry. */
  method MergeGroups(actions: seq<DatabaseAction>, keys: seq<string>, groups: map<string, seq<DatabaseAction>>,
                     ghost before: map<string, seq<ActionValue>>)
    returns (r: Result<seq<DatabaseAction>, string>, ghost failed: nat)
    requires Grouped(keys, groups)
    requires forall k :: k in keys ==> groups[k][0] in actions
    requires forall k :: k in keys ==> k in before && before[k] == Values(groups[k])
    modifies actions
    ensures r.Ok? ==> r.value == Heads(groups, keys)
    ensures r.Ok? ==> forall m :: 0 <= m < |keys| ==> MergedInto(before[keys[m]], groups[keys[m]][0].Value())
    ensures r.Err? ==> failed < |keys| && MergeFails(before[keys[failed]])
  {
    var merged: seq<DatabaseAction> := [];
    var j := 0;
    while j < |keys|
      invariant 0 <= j <= |keys|
      invariant merged == Heads(groups, keys[..j])
      invariant forall m :: 0 <= m < j ==> MergedInto(before[keys[m]], groups[keys[m]][0].Value())
      invariant forall m :: j <= m < |keys| ==> Values(groups[keys[m]]) == before[keys[m]]
    {
      var res := MergeStep(keys, groups, before, j);
      if res.Err? {
        return Err(res.error), j;
      }
      HeadsStep(groups, keys, j);
      merged := [groups[keys[j]][0]] + merged;
      j := j + 1;
    }
    assert keys[..j] == keys;
    return Ok(merged), 0;
  }

  /** `mergeActions`: one merged action per record, ordered by the position
      of the record's last action; the merged action is that last action
      object, changed in place. */
  method MergeActions(actions: seq<DatabaseAction>) returns (r: Result<seq<DatabaseAction>, string>)
    modifies actions
    ensures r.Ok? ==> r.value == Heads(GroupMap(actions), Order(actions))
    ensures r.Ok? ==> forall k :: k in Order(actions) ==>
              MergedInto(old(Values(Group(actions, k))), Group(actions, k)[0].Value())
    ensures r.Err? ==> exists k :: k in Order(actions) && MergeFails(old(Values(Group(actions, k))))
  {
    var keys, groups := GroupByRecord(actions);
    GroupMapGrouped(actions);
    ghost var before := map k | k in keys :: Values(groups[k]);
    assert forall k :: k in keys ==> before[k] == old(Values(Group(actions, k)));
    ghost var failed;
    r, failed := MergeGroups(actions, keys, groups, before);
    if r.Err? {
      assert keys[failed] in Order(actions);
    } else {
      forall k | k in Order(actions)
        ensures MergedInto(old(Values(Group(actions, k))), Group(actions, k)[0].Value())
      {
        var m :| 0 <= m < |keys| && keys[m] == k;
      }
    }
  }

  /** The merged action at position `p` is the newest action of the record
      that is `p`-th from the end of the order. */
  lemma MergedAt(actions: seq<DatabaseAction>, p: nat)
    requires p < |Order(actions)|
    ensures var ks := Order(actions);
      var h := Heads(GroupMap(actions), ks)[p];
      h.recordId == ks[|ks| - 1 - p] && LastPos(actions, h.recordId) >= 0 &&
      h == actions[LastPos(actions, h.recordId)]
  {
    var ks := Order(actions);
    var groups := GroupMap(actions);
    var k := ks[|ks| - 1 - p];
    assert Heads(groups, ks)[p] == groups[k][0] by {
      HeadsAt(groups, ks);
    }
    assert groups[k] == Group(actions, k);
    assert Group(actions, k)[0].recordId == k;
    assert LastPos(actions, k) >= 0 && Group(actions, k)[0] == actions[LastPos(actions, k)] &&
           actions[LastPos(actions, k)].recordId == k by {
      OrderFollowsLastAction(actions);
    }
  }

  /** Merged actions appear in the order of their records' last actions. */
  lemma MergedBefore(actions: seq<DatabaseAction>, p: nat, q: nat)
    requires p < q < |Order(actions)|
    ensures var hs := Heads(GroupMap(actions), Order(actions));
      LastPos(actions, hs[p].recordId) < LastPos(actions, hs[q].recordId)
  {
    var ks := Order(actions);
    var n := |ks|;
    MergedAt(actions, p);
    MergedAt(actions, q);
    OrderFollowsLastAction(actions);
    assert LastPos(actions, ks[n - 1 - p]) < LastPos(actions, ks[n - 1 - q]);
  }

  /** Every record of the input has a merged action. */
  lemma MergedCovers(actions: seq<DatabaseAction>, i: nat)
    requires i < |actions|
    ensures var hs := Heads(GroupMap(actions), Order(actions));
      exists p :: 0 <= p < |hs| && hs[p].recordId == actions[i].recordId
  {
    var ks := Order(actions);
    assert actions[i].recordId in ks by {
      OrderMeans(actions);
    }
    var m :| 0 <= m < |ks| && ks[m] == actions[i].recordId;
    MergedAt(actions, |ks| - 1 - m);
  }

  /** The merged list holds one action per record of the input: the
      record's newest action object, and the records ordered by the
      position of their last action. */
  lemma MergedActionsOrder(actions: seq<DatabaseAction>)
    ensures var hs := Heads(GroupMap(actions), Order(actions));
      (forall p :: 0 <= p < |hs| ==>
         LastPos(actions, hs[p].recordId) >= 0 && hs[p] == actions[LastPos(actions, hs[p].recordId)]) &&
      (forall p, q :: 0 <= p < q < |hs| ==>
         LastPos(actions, hs[p].recordId) < LastPos(actions, hs[q].recordId)) &&
      (forall i :: 0 <= i < |actions| ==> exists p :: 0 <= p < |hs| && hs[p].recordId == actions[i].recordId)
  {
    var hs := Heads(GroupMap(actions), Order(actions));
    forall p | 0 <= p < |hs|
      ensures LastPos(actions, hs[p].recordId) >= 0 && hs[p] == actions[LastPos(actions, hs[p].recordId)]
    {
      MergedAt(actions, p);
    }
    forall p, q | 0 <= p < q < |hs|
      ensures LastPos(actions, hs[p].recordId) < LastPos(actions, hs[q].recordId)
    {
      MergedBefore(actions, p, q);
    }
    forall i | 0 <= i < |actions|
      ensures exists p :: 0 <= p < |hs| && hs[p].recordId == actions[i].recordId
    {
      MergedCovers(actions, i);
    }
  }
}
