/** The rules by which a database synchroniser decides what to exchange with
    a remote database: which tables take part, which progress rows apply,
    which logged actions are still new (those after the (time, order) stamp
    of the table's progress), how incoming actions are grouped before they
    are written, and how many actions one read returns. The database queries
    themselves are parameters: the rows a query returns are given. */
module DatabaseSynchronizer {
  import opened Wrappers
  import opened JavaText
  import opened PrimitiveValueComparison
  import opened DatabaseCriteria
  import opened CriteriaMatcher
  import opened DatabaseActionMerger

  /** A row of the progress table: everything up to and including the action
      with this (time, order) stamp has been synchronised for `table`. */
  datatype SyncProgress = SyncProgress(table: string, time: int, order: int)

  /** Only records with `startTime <= sampleTime < endTime` are exchanged for
      `table`. */
  datatype TimeRangeRestriction = TimeRangeRestriction(table: string, startTime: int, endTime: int)

  /** The properties of a synchroniser. A `None` list is a list set to null. */
  datatype Settings = Settings(
    includeTables: Option<seq<string>>,
    excludeTables: Option<seq<string>>,
    timeRangeRestrictions: Option<seq<TimeRangeRestriction>>,
    allowWriteResourceTables: bool,
    includeWriteResourceTables: seq<string>,
    user: string)

  /** A new synchroniser: empty lists and no writes to resource tables. */
  function NewSynchronizer(user: string): Settings {
    Settings(Some([]), Some([]), Some([]), false, [], user)
  }

  /** Tables whose name starts with an underscore are reserved. */
  predicate Reserved(table: string) {
    StartsWith(table, "_")
  }

  predicate Listed(tables: Option<seq<string>>, table: string) {
    tables.Some? && table in tables.value
  }

  // ---------------------------------------------------------------------
  // Table selection

  /** `isTableIncluded`. */
  predicate IsTableIncluded(s: Settings, table: string) {
    if Reserved(table) then false
    else if Listed(s.excludeTables, table) then false
    else if s.includeTables.Some? && |s.includeTables.value| > 0 && table !in s.includeTables.value then false
    else true
  }

  /** A table is synchronised iff it is not reserved, not excluded, and
      either there are no include tables or it is one of them. */
  lemma IsTableIncludedMeans(s: Settings, table: string)
    ensures IsTableIncluded(s, table) <==>
              !Reserved(table) && !Listed(s.excludeTables, table) &&
              (s.includeTables.None? || |s.includeTables.value| == 0 || table in s.includeTables.value)
  {
  }

  /** An excluded table is never synchronised, even when it is also
      included; a new synchroniser takes every table that is not reserved. */
  lemma ExcludeWinsOverInclude(s: Settings, table: string)
    ensures Listed(s.excludeTables, table) ==> !IsTableIncluded(s, table)
    ensures IsTableIncluded(NewSynchronizer(s.user), table) <==> !Reserved(table)
  {
  }

  /** `isWriteResourceTableAllowed`: never without the flag; with the flag,
      an empty list allows every table and a non-empty one only its own. */
  predicate IsWriteResourceTableAllowed(s: Settings, table: string) {
    s.allowWriteResourceTables &&
    (|s.includeWriteResourceTables| == 0 || table in s.includeWriteResourceTables)
  }

  lemma WriteResourceTableCases(s: Settings, table: string)
    ensures !s.allowWriteResourceTables ==> !IsWriteResourceTableAllowed(s, table)
    ensures s.allowWriteResourceTables && |s.includeWriteResourceTables| == 0 ==>
              IsWriteResourceTableAllowed(s, table)
    ensures s.allowWriteResourceTables && |s.includeWriteResourceTables| > 0 ==>
              (IsWriteResourceTableAllowed(s, table) <==> table in s.includeWriteResourceTables)
    ensures !IsWriteResourceTableAllowed(NewSynchronizer(s.user), table)
  {
  }

  /** `getSyncTables`: the tables of the database that are synchronised, in
      the order the database lists them. */
  function SyncTables(s: Settings, allTables: seq<string>): (ts: seq<string>)
    ensures forall t :: t in ts <==> t in allTables && IsTableIncluded(s, t)
    ensures |ts| <= |allTables|
  {
    if |allTables| == 0 then []
    else
      var rest := SyncTables(s, allTables[1..]);
      assert forall t :: t in allTables <==> t == allTables[0] || t in allTables[1..];
      if IsTableIncluded(s, allTables[0]) then [allTables[0]] + rest else rest
  }

  // ---------------------------------------------------------------------
  // Finding the entry of a table

  /** The position of the first occurrence of `table`, or `|tables|`. */
  function FirstIndex(tables: seq<string>, table: string): (k: nat)
    ensures k <= |tables|
    ensures k < |tables| ==> tables[k] == table
    ensures forall j :: 0 <= j < k ==> tables[j] != table
  {
    if |tables| == 0 then 0
    else if tables[0] == table then 0
    else 1 + FirstIndex(tables[1..], table)
  }

  function ProgressTables(ps: seq<SyncProgress>): (ts: seq<string>)
    ensures |ts| == |ps| && forall i :: 0 <= i < |ps| ==> ts[i] == ps[i].table
  {
    seq(|ps|, i requires 0 <= i < |ps| => ps[i].table)
  }

  function RestrictionTables(rs: seq<TimeRangeRestriction>): (ts: seq<string>)
    ensures |ts| == |rs| && forall i :: 0 <= i < |rs| ==> ts[i] == rs[i].table
  {
    seq(|rs|, i requires 0 <= i < |rs| => rs[i].table)
  }

  /** `findTableProgress`: the first progress row of the table, if any. */
  function FindTableProgress(table: string, progress: Option<seq<SyncProgress>>): Option<SyncProgress> {
    match progress
    case None => None
    case Some(ps) =>
      var k := FirstIndex(ProgressTables(ps), table);
      if k < |ps| then Some(ps[k]) else None
  }

  /** No list gives no progress; otherwise the result is the first row of
      the table, and there is none only when no row is for the table. */
  lemma FindTableProgressMeans(table: string, progress: Option<seq<SyncProgress>>)
    ensures progress.None? ==> FindTableProgress(table, progress).None?
    ensures progress.Some? && FindTableProgress(table, progress).None? ==>
              forall i :: 0 <= i < |progress.value| ==> progress.value[i].table != table
    ensures FindTableProgress(table, progress).Some? ==>
              (exists k :: 0 <= k < |progress.value| && progress.value[k] == FindTableProgress(table, progress).value &&
                 progress.value[k].table == table &&
                 forall j :: 0 <= j < k ==> progress.value[j].table != table)
  {
    if progress.Some? {
      var k := FirstIndex(ProgressTables(progress.value), table);
    }
  }

  /** `findTimeRangeRestriction`: the first restriction on the table, if any. */
  function FindTimeRangeRestriction(s: Settings, table: string): Option<TimeRangeRestriction> {
    match s.timeRangeRestrictions
    case None => None
    case Some(rs) =>
      var k := FirstIndex(RestrictionTables(rs), table);
      if k < |rs| then Some(rs[k]) else None
  }

  /** No list gives no restriction; otherwise the result is the first
      restriction on the table, and there is none only when no restriction
      is on the table. */
  lemma FindTimeRangeRestrictionMeans(s: Settings, table: string)
    ensures s.timeRangeRestrictions.None? ==> FindTimeRangeRestriction(s, table).None?
    ensures s.timeRangeRestrictions.Some? && FindTimeRangeRestriction(s, table).None? ==>
              forall i :: 0 <= i < |s.timeRangeRestrictions.value| ==> s.timeRangeRestrictions.value[i].table != table
    ensures FindTimeRangeRestriction(s, table).Some? ==>
              (exists k :: 0 <= k < |s.timeRangeRestrictions.value| &&
                 s.timeRangeRestrictions.value[k] == FindTimeRangeRestriction(s, table).value &&
                 s.timeRangeRestrictions.value[k].table == table &&
                 forall j :: 0 <= j < k ==> s.timeRangeRestrictions.value[j].table != table)
  {
    if s.timeRangeRestrictions.Some? {
      var k := FirstIndex(RestrictionTables(s.timeRangeRestrictions.value), table);
    }
  }

  // ---------------------------------------------------------------------
  // getSyncProgress

  /** The progress rows of synchronised tables, in their original order. */
  function IncludedRows(s: Settings, rows: seq<SyncProgress>): (r: seq<SyncProgress>)
    ensures forall p :: p in r ==> p in rows && IsTableIncluded(s, p.table)
  {
    if |rows| == 0 then []
    else
      var last := rows[|rows| - 1];
      IncludedRows(s, rows[..|rows| - 1]) + (if IsTableIncluded(s, last.table) then [last] else [])
  }

  /** No two rows of synchronised tables before position `n` are for the
      same table. */
  predicate DistinctBefore(s: Settings, rows: seq<SyncProgress>, n: nat)
    requires n <= |rows|
  {
    forall i, j :: 0 <= i < j < n && IsTableIncluded(s, rows[i].table) && IsTableIncluded(s, rows[j].table) ==>
      rows[i].table != rows[j].table
  }

  predicate DistinctIncluded(s: Settings, rows: seq<SyncProgress>) {
    DistinctBefore(s, rows, |rows|)
  }

  function DuplicateProgressMessage(table: string): string {
    "Duplicate sync progress for table \"" + table + "\""
  }

  /** The tables of the synchronised rows before position `n`. */
  function SeenTables(s: Settings, rows: seq<SyncProgress>, n: nat): set<string>
    requires n <= |rows|
  {
    set k | 0 <= k < n && IsTableIncluded(s, rows[k].table) :: rows[k].table
  }

  lemma IncludedRowsStep(s: Settings, rows: seq<SyncProgress>, n: nat)
    requires n < |rows|
    ensures IncludedRows(s, rows[..n + 1]) ==
            IncludedRows(s, rows[..n]) + (if IsTableIncluded(s, rows[n].table) then [rows[n]] else [])
  {
    assert rows[..n + 1][..n] == rows[..n];
  }

  lemma SeenTablesStep(s: Settings, rows: seq<SyncProgress>, n: nat)
    requires n < |rows|
    ensures SeenTables(s, rows, n + 1) ==
            SeenTables(s, rows, n) + (if IsTableIncluded(s, rows[n].table) then {rows[n].table} else {})
  {
  }

  /** A row keeps the rows distinct iff it is not synchronised or its table
      has not been seen. */
  lemma DistinctStep(s: Settings, rows: seq<SyncProgress>, n: nat)
    requires n < |rows| && DistinctBefore(s, rows, n)
    ensures DistinctBefore(s, rows, n + 1) <==>
              !(IsTableIncluded(s, rows[n].table) && rows[n].table in SeenTables(s, rows, n))
  {
    if IsTableIncluded(s, rows[n].table) && rows[n].table in SeenTables(s, rows, n) {
      var i :| 0 <= i < n && IsTableIncluded(s, rows[i].table) && rows[i].table == rows[n].table;
    }
  }

  /** Two synchronised rows for one table make the rows not distinct. */
  lemma ClashBreaksDistinct(s: Settings, rows: seq<SyncProgress>, i: nat, j: nat)
    requires i < j < |rows| && IsTableIncluded(s, rows[i].table) && IsTableIncluded(s, rows[j].table)
    requires rows[i].table == rows[j].table
    ensures !DistinctIncluded(s, rows)
  {
  }

  /** `getSyncProgress` on the rows the database returns for the user: the
      rows of synchronised tables, or an error when two of them are for the
      same table. */
  method GetSyncProgress(s: Settings, rows: seq<SyncProgress>) returns (r: Result<seq<SyncProgress>, string>)
    ensures r.Ok? <==> DistinctIncluded(s, rows)
    ensures r.Ok? ==> r.value == IncludedRows(s, rows)
    ensures r.Err? ==> (exists i, j :: 0 <= i < j < |rows| && IsTableIncluded(s, rows[i].table) &&
                          IsTableIncluded(s, rows[j].table) && rows[i].table == rows[j].table &&
                          r.error == DuplicateProgressMessage(rows[j].table))
  {
    var values: seq<SyncProgress> := [];
    var keys: set<string> := {};
    var n := 0;
    while n < |rows|
      invariant n <= |rows|
      invariant values == IncludedRows(s, rows[..n])
      invariant keys == SeenTables(s, rows, n)
      invariant DistinctBefore(s, rows, n)
    {
      var sp := rows[n];
      IncludedRowsStep(s, rows, n);
      SeenTablesStep(s, rows, n);
      DistinctStep(s, rows, n);
      if !IsTableIncluded(s, sp.table) {
        n := n + 1;
        continue;
      }
      if sp.table in keys {
        var i :| 0 <= i < n && IsTableIncluded(s, rows[i].table) && rows[i].table == sp.table;
        ClashBreaksDistinct(s, rows, i, n);
        return Err(DuplicateProgressMessage(sp.table));
      }
      values := values + [sp];
      keys := keys + {sp.table};
      n := n + 1;
    }
    assert rows[..n] == rows;
    return Ok(values);
  }

  // ---------------------------------------------------------------------
  // The skip rule and the read criteria

  /** An incoming action is already synchronised when its (time, order) stamp
      is at or before the stamp of the table's progress. */
  predicate AlreadySynced(progress: Option<SyncProgress>, time: int, order: int) {
    progress.Some? &&
    (time < progress.value.time || (time == progress.value.time && order <= progress.value.order))
  }

  /** A logged action as a row of an action table. */
  datatype ActionRow = ActionRow(action: string, source: Option<string>, time: int, order: int, sampleTime: Option<int>)

  function LongValue(i: int): Value {
    Int(Long, i)
  }

  function OptionalText(v: Option<string>): Value {
    if v.Some? then Str(v.value) else Null
  }

  function OptionalLong(v: Option<int>): Value {
    if v.Some? then LongValue(v.value) else Null
  }

  /** The record of a row, as the criteria see it. */
  function RowRecord(row: ActionRow): Record {
    map["action" := Str(row.action), "source" := OptionalText(row.source),
        "time" := LongValue(row.time), "order" := LongValue(row.order),
        "sampleTime" := OptionalLong(row.sampleTime)]
  }

  function SourceCriteria(excludeSources: Option<seq<string>>): (xs: seq<Criteria>)
    ensures AllSupported(xs)
  {
    if excludeSources.None? then []
    else
      var ex := excludeSources.value;
      seq(|ex|, i requires 0 <= i < |ex| => Compare(NE, "source", Str(ex[i])))
  }

  function ProgressCriteria(progress: Option<SyncProgress>): (xs: seq<Criteria>)
    ensures AllSupported(xs)
  {
    if progress.None? then []
    else
      var p := progress.value;
      var sameTime := And([Compare(EQ, "time", LongValue(p.time)), Compare(GT, "order", LongValue(p.order))]);
      var after := Or([Compare(GT, "time", LongValue(p.time)), sameTime]);
      assert Supported(sameTime);
      assert Supported(after);
      [after]
  }

  function MaxTimeCriteria(maxTime: Option<int>): (xs: seq<Criteria>)
    ensures AllSupported(xs)
  {
    if maxTime.None? then [] else [Compare(LE, "time", LongValue(maxTime.value))]
  }

  function RestrictionCriteria(restriction: Option<TimeRangeRestriction>): (xs: seq<Criteria>)
    ensures AllSupported(xs)
  {
    if restriction.None? then []
    else [Compare(GE, "sampleTime", LongValue(restriction.value.startTime)),
          Compare(LT, "sampleTime", LongValue(restriction.value.endTime))]
  }

  /** `getReadSyncCriteria`: the conjunction of the parts above. */
  function ReadSyncCriteria(s: Settings, table: string, progress: Option<SyncProgress>,
                            maxTime: Option<int>, excludeSources: Option<seq<string>>): (c: Criteria)
    ensures Supported(c) && c.And?
  {
    var xs := [Compare(NE, "action", Str("SELECT"))] + SourceCriteria(excludeSources) +
              ProgressCriteria(progress) + MaxTimeCriteria(maxTime) +
              RestrictionCriteria(FindTimeRangeRestriction(s, table));
    assert AllSupported(xs) by {
      AllSupportedConcat([Compare(NE, "action", Str("SELECT"))], SourceCriteria(excludeSources));
      AllSupportedConcat([Compare(NE, "action", Str("SELECT"))] + SourceCriteria(excludeSources),
                         ProgressCriteria(progress));
      AllSupportedConcat([Compare(NE, "action", Str("SELECT"))] + SourceCriteria(excludeSources) +
                         ProgressCriteria(progress), MaxTimeCriteria(maxTime));
      AllSupportedConcat([Compare(NE, "action", Str("SELECT"))] + SourceCriteria(excludeSources) +
                         ProgressCriteria(progress) + MaxTimeCriteria(maxTime),
                         RestrictionCriteria(FindTimeRangeRestriction(s, table)));
    }
    And(xs)
  }

  lemma AllSupportedConcat(a: seq<Criteria>, b: seq<Criteria>)
    requires AllSupported(a) && AllSupported(b)
    ensures AllSupported(a + b)
  {
    assert forall i :: 0 <= i < |a + b| ==> (a + b)[i] == if i < |a| then a[i] else b[i - |a|];
  }

  /** Every criterion of a list holds for the record. */
  predicate AllHold(rec: Record, xs: seq<Criteria>)
    requires AllSupported(xs)
  {
    forall i :: 0 <= i < |xs| ==> Holds(rec, xs[i])
  }

  lemma AllHoldConcat(rec: Record, a: seq<Criteria>, b: seq<Criteria>)
    requires AllSupported(a) && AllSupported(b)
    ensures AllSupported(a + b)
    ensures AllHold(rec, a + b) <==> AllHold(rec, a) && AllHold(rec, b)
  {
    AllSupportedConcat(a, b);
    assert forall i :: 0 <= i < |a| ==> (a + b)[i] == a[i];
    assert forall i :: 0 <= i < |b| ==> (a + b)[|a| + i] == b[i];
  }

  /** Which rows the read criteria select. */
  predicate NotExcludedSource(excludeSources: Option<seq<string>>, source: Option<string>) {
    excludeSources.None? || source.None? || source.value !in excludeSources.value
  }

  predicate WithinMaxTime(maxTime: Option<int>, time: int) {
    maxTime.None? || time <= maxTime.value
  }

  predicate WithinRestriction(restriction: Option<TimeRangeRestriction>, sampleTime: Option<int>) {
    restriction.None? ||
    (sampleTime.Some? && restriction.value.startTime <= sampleTime.value < restriction.value.endTime)
  }

  predicate Selected(s: Settings, table: string, progress: Option<SyncProgress>,
                     maxTime: Option<int>, excludeSources: Option<seq<string>>, row: ActionRow) {
    row.action != "SELECT" && NotExcludedSource(excludeSources, row.source) &&
    !AlreadySynced(progress, row.time, row.order) && WithinMaxTime(maxTime, row.time) &&
    WithinRestriction(FindTimeRangeRestriction(s, table), row.sampleTime)
  }

  lemma SourcePartHolds(excludeSources: Option<seq<string>>, row: ActionRow)
    ensures AllHold(RowRecord(row), SourceCriteria(excludeSources)) <==> NotExcludedSource(excludeSources, row.source)
  {
    var rec := RowRecord(row);
    assert Lookup(rec, "source") == OptionalText(row.source);
    if excludeSources.Some? && row.source.Some? && row.source.value in excludeSources.value {
      var ex := excludeSources.value;
      var i :| 0 <= i < |ex| && ex[i] == row.source.value;
      assert !Holds(rec, SourceCriteria(excludeSources)[i]);
    }
  }

  /** The progress part selects exactly the actions the skip rule would not
      skip: time > t, or time = t and order > o. */
  lemma ProgressPartHolds(progress: Option<SyncProgress>, row: ActionRow)
    ensures AllHold(RowRecord(row), ProgressCriteria(progress)) <==> !AlreadySynced(progress, row.time, row.order)
  {
    var rec := RowRecord(row);
    assert Lookup(rec, "time") == LongValue(row.time);
    assert Lookup(rec, "order") == LongValue(row.order);
    if progress.Some? {
      var c := ProgressCriteria(progress)[0];
      assert Holds(rec, c.operands[0]) <==> row.time > progress.value.time;
      assert Holds(rec, c.operands[1]) <==> row.time == progress.value.time && row.order > progress.value.order by {
        var d := c.operands[1];
        assert Holds(rec, d) <==> Holds(rec, d.operands[0]) && Holds(rec, d.operands[1]);
      }
      assert Holds(rec, c) <==> Holds(rec, c.operands[0]) || Holds(rec, c.operands[1]);
    }
  }

  lemma MaxTimePartHolds(maxTime: Option<int>, row: ActionRow)
    ensures AllHold(RowRecord(row), MaxTimeCriteria(maxTime)) <==> WithinMaxTime(maxTime, row.time)
  {
    if maxTime.Some? {
      var rec := RowRecord(row);
      assert Lookup(rec, "time") == LongValue(row.time);
      assert AllHold(rec, MaxTimeCriteria(maxTime)) <==> Holds(rec, MaxTimeCriteria(maxTime)[0]);
    }
  }

  lemma RestrictionPartHolds(restriction: Option<TimeRangeRestriction>, row: ActionRow)
    ensures AllHold(RowRecord(row), RestrictionCriteria(restriction)) <==> WithinRestriction(restriction, row.sampleTime)
  {
    if restriction.Some? {
      var rec := RowRecord(row);
      var xs := RestrictionCriteria(restriction);
      assert Lookup(rec, "sampleTime") == OptionalLong(row.sampleTime);
      assert AllHold(rec, xs) <==> Holds(rec, xs[0]) && Holds(rec, xs[1]);
    }
  }

  /** The read criteria never fail, and select a row iff it is not a SELECT,
      its source is not excluded, it is after the progress stamp (the exact
      complement of the skip rule), at or before `maxTime`, and its sample
      time lies in the table's time range restriction [start, end). */
  lemma ReadSyncCriteriaSelects(s: Settings, table: string, progress: Option<SyncProgress>,
                                maxTime: Option<int>, excludeSources: Option<seq<string>>, row: ActionRow)
    ensures Matches(RowRecord(row), ReadSyncCriteria(s, table, progress, maxTime, excludeSources)) ==
            Ok(Selected(s, table, progress, maxTime, excludeSources, row))
  {
    var rec := RowRecord(row);
    var c := ReadSyncCriteria(s, table, progress, maxTime, excludeSources);
    MatchesMeansHolds(rec, c);
    var a: seq<Criteria> := [Compare(NE, "action", Str("SELECT"))];
    var b := SourceCriteria(excludeSources);
    var p := ProgressCriteria(progress);
    var m := MaxTimeCriteria(maxTime);
    var r := RestrictionCriteria(FindTimeRangeRestriction(s, table));
    assert AllHold(rec, a) <==> row.action != "SELECT" by {
      assert Lookup(rec, "action") == Str(row.action);
    }
    SourcePartHolds(excludeSources, row);
    ProgressPartHolds(progress, row);
    MaxTimePartHolds(maxTime, row);
    RestrictionPartHolds(FindTimeRangeRestriction(s, table), row);
    AllHoldConcat(rec, a, b);
    AllHoldConcat(rec, a + b, p);
    AllHoldConcat(rec, a + b + p, m);
    AllHoldConcat(rec, a + b + p + m, r);
    assert c.operands == a + b + p + m + r;
  }

  // ---------------------------------------------------------------------
  // readSyncActions

  /** The database's limit on a select: 0 or less means no limit. */
  function Limit(rows: seq<ActionValue>, maxCount: int): (r: seq<ActionValue>)
    ensures maxCount > 0 ==> |r| <= maxCount
    ensures r <= rows
  {
    if maxCount > 0 && maxCount < |rows| then rows[..maxCount] else rows
  }

  /** New action objects for the rows a select returns. */
  method ToActions(rows: seq<ActionValue>) returns (actions: seq<DatabaseAction>)
    ensures |actions| == |rows|
    ensures forall i :: 0 <= i < |actions| ==> fresh(actions[i])
  {
    actions := [];
    var n := 0;
    while n < |rows|
      invariant n <= |rows| && |actions| == n
      invariant forall i :: 0 <= i < |actions| ==> fresh(actions[i])
    {
      var v := rows[n];
      var a := new DatabaseAction(v.recordId, v.action, v.data, v.time, v.order);
      actions := actions + [a];
      n := n + 1;
    }
  }

  /** `readSyncActions`: for each synchronised table, the new actions (the
      rows `selected(table)` that the read criteria select, in (time, order)
      order) are read up to the remaining count and merged per record. Tables
      are read until the count is reached. */
  method ReadSyncActions(s: Settings, allTables: seq<string>, selected: string -> seq<ActionValue>, maxCount: int)
    returns (r: Result<seq<DatabaseAction>, string>)
    ensures r.Ok? && maxCount > 0 ==> |r.value| <= maxCount
    ensures r.Err? ==> StartsWith(r.error, "Can't merge database actions: ")
  {
    var tables := SyncTables(s, allTables);
    var actions: seq<DatabaseAction> := [];
    var n := 0;
    while n < |tables| && (maxCount <= 0 || maxCount > |actions|)
      invariant n <= |tables|
      invariant maxCount > 0 ==> |actions| <= maxCount
    {
      var table := tables[n];
      var iterMaxCount := if maxCount > 0 then maxCount - |actions| else 0;
      var unmerged := ToActions(Limit(selected(table), iterMaxCount));
      var merged := MergeActions(unmerged);
      if merged.Err? {
        var msg := "Can't merge database actions: " + merged.error;
        assert msg[..|"Can't merge database actions: "|] == "Can't merge database actions: ";
        return Err(msg);
      }
      assert |merged.value| <= |unmerged| by {
        OrderNoLonger(unmerged);
      }
      actions := actions + merged.value;
      n := n + 1;
    }
    return Ok(actions);
  }

  // ---------------------------------------------------------------------
  // getNextActionGroup

  /** An incoming action from the remote database. */
  datatype SyncAction = SyncAction(table: Option<string>, user: string, action: ActionKind, time: int, order: int)

  /** A group of actions written together, and the last action it covers. */
  datatype ActionGroup = ActionGroup(items: seq<SyncAction>, lastAction: SyncAction)

  /** The skip rule applied to an incoming action. */
  predicate Synced(a: SyncAction, progressList: Option<seq<SyncProgress>>)
    requires a.table.Some?
  {
    AlreadySynced(FindTableProgress(a.table.value, progressList), a.time, a.order)
  }

  /** Whether `a` may join the group that `first` started. */
  predicate SameGroup(first: SyncAction, a: SyncAction, splitByUser: bool) {
    first.action == a.action && first.table == a.table && (!splitByUser || first.user == a.user)
  }

  predicate TablesSet(actions: seq<SyncAction>, lo: nat, hi: nat)
    requires lo <= hi <= |actions|
  {
    forall k :: lo <= k < hi ==> actions[k].table.Some?
  }

  /** The actions of `[lo, hi)` that are neither synchronised nor skipped by
      validation, in their order. */
  function Kept(actions: seq<SyncAction>, skip: seq<bool>, progressList: Option<seq<SyncProgress>>, lo: nat, hi: nat): seq<SyncAction>
    requires lo <= hi <= |actions| == |skip| && TablesSet(actions, lo, hi)
    decreases hi
  {
    if hi == lo then []
    else
      var a := actions[hi - 1];
      Kept(actions, skip, progressList, lo, hi - 1) + (if !Synced(a, progressList) && !skip[hi - 1] then [a] else [])
  }

  /** The last position in `[lo, hi)` that is not synchronised, or `lo - 1`. */
  function LastNew(actions: seq<SyncAction>, progressList: Option<seq<SyncProgress>>, lo: nat, hi: nat): (k: int)
    requires lo <= hi <= |actions| && TablesSet(actions, lo, hi)
    ensures lo - 1 <= k < hi
    decreases hi
  {
    if hi == lo then lo - 1
    else if !Synced(actions[hi - 1], progressList) then hi - 1
    else LastNew(actions, progressList, lo, hi - 1)
  }

  /** The group that a call ending at `next` returns, when the first new
      action is at `f`. */
  predicate GroupFrom(actions: seq<SyncAction>, skip: seq<bool>, progressList: Option<seq<SyncProgress>>,
                      f: nat, next: nat, g: ActionGroup)
    requires f < next <= |actions| == |skip| && TablesSet(actions, f, next)
  {
    g.items == Kept(actions, skip, progressList, f, next) &&
    0 <= LastNew(actions, progressList, f, next) && g.lastAction == actions[LastNew(actions, progressList, f, next)]
  }

  /** The state of the loop of `getNextActionGroup` after the group was
      started by the action at `f`, with the loop at `next`. */
  predicate Grouping(actions: seq<SyncAction>, skip: seq<bool>, progressList: Option<seq<SyncProgress>>,
                     splitTables: set<string>, pos: nat, f: nat, next: nat, items: seq<SyncAction>, lastAction: SyncAction)
    requires pos <= next <= |actions| == |skip| && TablesSet(actions, pos, next)
  {
    pos <= f < next &&
    var splitByUser := actions[f].table.value in splitTables;
    (forall k :: pos <= k < f ==> Synced(actions[k], progressList)) &&
    !Synced(actions[f], progressList) &&
    GroupFrom(actions, skip, progressList, f, next, ActionGroup(items, lastAction)) &&
    forall a :: a in items ==> SameGroup(actions[f], a, splitByUser)
  }

  /** An already synchronised action changes nothing in the group. */
  lemma GroupingPassesSynced(actions: seq<SyncAction>, skip: seq<bool>, progressList: Option<seq<SyncProgress>>,
                             splitTables: set<string>, pos: nat, f: nat, next: nat, items: seq<SyncAction>, lastAction: SyncAction)
    requires pos <= next < |actions| == |skip| && TablesSet(actions, pos, next + 1)
    requires Grouping(actions, skip, progressList, splitTables, pos, f, next, items, lastAction)
    requires Synced(actions[next], progressList)
    ensures Grouping(actions, skip, progressList, splitTables, pos, f, next + 1, items, lastAction)
  {
  }

  /** A new action becomes the last action, and an item unless validation
      skips it. */
  lemma GroupingTakesNew(actions: seq<SyncAction>, skip: seq<bool>, progressList: Option<seq<SyncProgress>>,
                         splitTables: set<string>, pos: nat, f: nat, next: nat, items: seq<SyncAction>, lastAction: SyncAction)
    requires pos <= next < |actions| == |skip| && TablesSet(actions, pos, next + 1)
    requires Grouping(actions, skip, progressList, splitTables, pos, f, next, items, lastAction)
    requires !Synced(actions[next], progressList)
    requires !skip[next] ==> SameGroup(actions[f], actions[next], actions[f].table.value in splitTables)
    ensures Grouping(actions, skip, progressList, splitTables, pos, f, next + 1,
                     items + (if skip[next] then [] else [actions[next]]), actions[next])
  {
  }

  /** The first new action starts the group. */
  lemma GroupingStarts(actions: seq<SyncAction>, skip: seq<bool>, progressList: Option<seq<SyncProgress>>,
                       splitTables: set<string>, pos: nat, next: nat)
    requires pos <= next < |actions| == |skip| && TablesSet(actions, pos, next + 1)
    requires forall k :: pos <= k < next ==> Synced(actions[k], progressList)
    requires !Synced(actions[next], progressList)
    ensures Grouping(actions, skip, progressList, splitTables, pos, next, next + 1,
                     if skip[next] then [] else [actions[next]], actions[next])
  {
    assert Kept(actions, skip, progressList, next, next + 1) == if skip[next] then [] else [actions[next]];
  }

  /** The group started at `f` ends before `next`: the list ends there, or
      the action there is new, not skipped, and does not belong to the group. */
  predicate GroupEnds(actions: seq<SyncAction>, skip: seq<bool>, progressList: Option<seq<SyncProgress>>,
                      splitTables: set<string>, pos: nat, f: nat, next: nat, g: ActionGroup)
    requires pos <= f < next <= |actions| == |skip| && TablesSet(actions, pos, next)
  {
    var splitByUser := actions[f].table.value in splitTables;
    Grouping(actions, skip, progressList, splitTables, pos, f, next, g.items, g.lastAction) &&
    (next < |actions| ==>
       actions[next].table.Some? && !Synced(actions[next], progressList) && !skip[next] &&
       !SameGroup(actions[f], actions[next], splitByUser))
  }

  /** `getNextActionGroup` from position `pos`: already synchronised actions
      are passed over; the first new action starts the group; later actions
      that validation does not skip end the group when they differ from the
      first in action, table or (for tables split by user) user. An action
      without a table is an error. */
  method NextActionGroup(actions: seq<SyncAction>, pos: nat, progressList: Option<seq<SyncProgress>>,
                         skip: seq<bool>, splitTables: set<string>)
    returns (r: Result<Option<ActionGroup>, string>, next: nat)
    requires pos <= |actions| == |skip|
    ensures pos <= next <= |actions|
    ensures r.Err? ==> (r.error == "Table not set" && next < |actions| && actions[next].table.None? &&
                        TablesSet(actions, pos, next))
    ensures r.Ok? ==> TablesSet(actions, pos, next)
    ensures r.Ok? && r.value.None? ==>
              next == |actions| && forall k :: pos <= k < next ==> Synced(actions[k], progressList)
    ensures r.Ok? && r.value.Some? ==>
              exists f :: pos <= f < next && GroupEnds(actions, skip, progressList, splitTables, pos, f, next, r.value.value)
  {
    var first: Option<nat> := None;
    var isTableSplitByUser := false;
    var items: seq<SyncAction> := [];
    var lastAction := SyncAction(None, "", INSERT, 0, 0);
    next := pos;
    while next < |actions|
      invariant pos <= next <= |actions|
      invariant TablesSet(actions, pos, next)
      invariant first.None? ==> items == [] && forall k :: pos <= k < next ==> Synced(actions[k], progressList)
      invariant first.Some? ==> pos <= first.value < next
      invariant first.Some? ==> isTableSplitByUser == (actions[first.value].table.value in splitTables)
      invariant first.Some? ==>
                  Grouping(actions, skip, progressList, splitTables, pos, first.value, next, items, lastAction)
    {
      var action := actions[next];
      if action.table.None? {
        return Err("Table not set"), next;
      }
      assert TablesSet(actions, pos, next + 1);
      var progress := FindTableProgress(action.table.value, progressList);
      if AlreadySynced(progress, action.time, action.order) {
        if first.Some? {
          GroupingPassesSynced(actions, skip, progressList, splitTables, pos, first.value, next, items, lastAction);
        }
        next := next + 1;
        continue;
      }
      if first.None? {
        first := Some(next);
        isTableSplitByUser := action.table.value in splitTables;
        GroupingStarts(actions, skip, progressList, splitTables, pos, next);
        items := if skip[next] then [] else [action];
      } else {
        if !skip[next] && !SameGroup(actions[first.value], action, isTableSplitByUser) {
          assert GroupEnds(actions, skip, progressList, splitTables, pos, first.value, next, ActionGroup(items, lastAction));
          return Ok(Some(ActionGroup(items, lastAction))), next;
        }
        GroupingTakesNew(actions, skip, progressList, splitTables, pos, first.value, next, items, lastAction);
        items := items + (if skip[next] then [] else [action]);
      }
      lastAction := action;
      next := next + 1;
    }
    if first.None? {
      return Ok(None), next;
    }
    assert GroupEnds(actions, skip, progressList, splitTables, pos, first.value, next, ActionGroup(items, lastAction));
    return Ok(Some(ActionGroup(items, lastAction))), next;
  }
}
