/** The restrictions a client puts on synchronisation: which tables take part
    (include and exclude lists) and which time ranges, and how two
    restrictions are combined so that the result allows what either allows. */
module SyncRestrictions {
  import opened Wrappers
  import opened DatabaseSynchronizer

  /** The table rule of a restriction: not reserved, not excluded, and in the
      include list when that list is not empty. */
  predicate TableMatches(includeTables: seq<string>, excludeTables: seq<string>, table: string) {
    !Reserved(table) && table !in excludeTables && (|includeTables| == 0 || table in includeTables)
  }

  /** The tables of `tables` that the first or the second rule matches, in
      their order. */
  function EitherMatches(incA: seq<string>, excA: seq<string>, incB: seq<string>, excB: seq<string>,
                         tables: seq<string>): (r: seq<string>)
    ensures forall t :: t in r <==> t in tables && (TableMatches(incA, excA, t) || TableMatches(incB, excB, t))
    ensures |r| <= |tables|
    ensures |r| == |tables| ==> forall i :: 0 <= i < |tables| ==>
              TableMatches(incA, excA, tables[i]) || TableMatches(incB, excB, tables[i])
  {
    if |tables| == 0 then []
    else
      var rest := EitherMatches(incA, excA, incB, excB, tables[1..]);
      assert forall t :: t in tables <==> t == tables[0] || t in tables[1..];
      assert forall i :: 1 <= i < |tables| ==> tables[i] == tables[1..][i - 1];
      if TableMatches(incA, excA, tables[0]) || TableMatches(incB, excB, tables[0]) then [tables[0]] + rest
      else rest
  }

  /** The include list of a merged restriction: none when every project
      table matches, otherwise the matching tables. */
  function MergedIncludes(matching: seq<string>, projectTables: seq<string>): seq<string> {
    if |matching| == |projectTables| then [] else matching
  }

  /** On the project tables, the merged restriction matches exactly the
      tables that either restriction matches. */
  lemma MergedMatchesEither(incA: seq<string>, excA: seq<string>, incB: seq<string>, excB: seq<string>,
                            projectTables: seq<string>)
    requires |EitherMatches(incA, excA, incB, excB, projectTables)| > 0
    ensures var inc := MergedIncludes(EitherMatches(incA, excA, incB, excB, projectTables), projectTables);
            forall t :: t in projectTables ==>
              (TableMatches(inc, [], t) <==> TableMatches(incA, excA, t) || TableMatches(incB, excB, t))
  {
    var matching := EitherMatches(incA, excA, incB, excB, projectTables);
    if |matching| == |projectTables| {
      forall t | t in projectTables
        ensures TableMatches(incA, excA, t) || TableMatches(incB, excB, t)
      {
        var i :| 0 <= i < |projectTables| && projectTables[i] == t;
      }
    }
  }

  /** `SyncTableRestriction`. The lists are never null: the setters turn
      null into an empty list. */
  class SyncTableRestriction {
    var includeTables: seq<string>
    var excludeTables: seq<string>

    constructor ()
      ensures includeTables == [] && excludeTables == []
    {
      includeTables := [];
      excludeTables := [];
    }

    method SetIncludeTables(tables: Option<seq<string>>)
      modifies this
      ensures includeTables == (if tables.None? then [] else tables.value)
      ensures excludeTables == old(excludeTables)
    {
      if tables.None? {
        includeTables := [];
      } else {
        includeTables := tables.value;
      }
    }

    method SetExcludeTables(tables: Option<seq<string>>)
      modifies this
      ensures excludeTables == (if tables.None? then [] else tables.value)
      ensures includeTables == old(includeTables)
    {
      if tables.None? {
        excludeTables := [];
      } else {
        excludeTables := tables.value;
      }
    }

    method AddIncludeTable(table: string)
      modifies this
      ensures includeTables == old(includeTables) + [table]
      ensures excludeTables == old(excludeTables)
    {
      includeTables := includeTables + [table];
    }

    method AddExcludeTable(table: string)
      modifies this
      ensures excludeTables == old(excludeTables) + [table]
      ensures includeTables == old(includeTables)
    {
      excludeTables := excludeTables + [table];
    }

    /** `matchesTable`. */
    predicate MatchesTable(table: string)
      reads this
    {
      TableMatches(includeTables, excludeTables, table)
    }

    /** The loop of `mergeOr`: the tables that this or the other
      restriction matches, in their order. */
    method MatchingTables(other: SyncTableRestriction, tables: seq<string>) returns (includes: seq<string>)
      ensures includes == EitherMatches(includeTables, excludeTables, other.includeTables, other.excludeTables, tables)
    {
      includes := [];
      var n := 0;
      while n < |tables|
        invariant n <= |tables|
        invariant includes + EitherMatches(includeTables, excludeTables, other.includeTables, other.excludeTables, tables[n..]) ==
                  EitherMatches(includeTables, excludeTables, other.includeTables, other.excludeTables, tables)
      {
        assert tables[n..][1..] == tables[n + 1..];
        if MatchesTable(tables[n]) || other.MatchesTable(tables[n]) {
          includes := includes + [tables[n]];
        }
        n := n + 1;
      }
      assert tables[n..] == [];
    }

    /** `mergeOr`: null for a null or empty project list or when no project
      table matches either restriction; otherwise a new restriction that
      includes the matching project tables, or includes everything when
      every project table matches. */
    method MergeOr(other: SyncTableRestriction, projectTables: Option<seq<string>>) returns (r: SyncTableRestriction?)
      ensures projectTables.None? || |projectTables.value| == 0 ==> r == null
      ensures projectTables.Some? ==>
                (r == null <==> |EitherMatches(includeTables, excludeTables, other.includeTables,
                                               other.excludeTables, projectTables.value)| == 0)
      ensures r != null ==> fresh(r) && r.excludeTables == []
      ensures r != null ==>
                (r.includeTables == MergedIncludes(EitherMatches(includeTables, excludeTables, other.includeTables,
                                                                 other.excludeTables, projectTables.value),
                                                   projectTables.value))
      ensures r != null ==> forall t :: t in projectTables.value ==>
                (r.MatchesTable(t) <==> MatchesTable(t) || other.MatchesTable(t))
    {
      if projectTables.None? || |projectTables.value| == 0 {
        return null;
      }
      var tables := projectTables.value;
      var includes := MatchingTables(other, tables);
      if |includes| == 0 {
        return null;
      }
      r := new SyncTableRestriction();
      if |includes| != |tables| {
        r.SetIncludeTables(Some(includes));
      }
      MergedMatchesEither(includeTables, excludeTables, other.includeTables, other.excludeTables, tables);
    }
  }

  /** `SyncRestriction`: whether synchronisation is enabled at all, the table
      restriction, and the time range restrictions. */
  class SyncRestriction {
    var syncEnabled: bool
    var tableRestriction: SyncTableRestriction
    var timeRangeRestrictions: seq<TimeRangeRestriction>

    /** A new restriction enables synchronisation of every table. */
    constructor ()
      ensures syncEnabled && fresh(tableRestriction)
      ensures tableRestriction.includeTables == [] && tableRestriction.excludeTables == []
      ensures timeRangeRestrictions == []
    {
      syncEnabled := true;
      tableRestriction := new SyncTableRestriction();
      timeRangeRestrictions := [];
    }

    /** `mergeOr`: when both are enabled the table restrictions are merged,
      and a merge that allows no table disables the result; when one is
      enabled its table restriction is shared; when neither is the result
      is disabled. The time ranges of this and then the other are appended
      in every case, and neither input is changed. */
    method MergeOr(other: SyncRestriction, tables: Option<seq<string>>) returns (r: SyncRestriction)
      ensures fresh(r)
      ensures r.timeRangeRestrictions == timeRangeRestrictions + other.timeRangeRestrictions
      ensures syncEnabled && other.syncEnabled ==>
                (r.syncEnabled <==>
                   (tables.Some? &&
                    |EitherMatches(tableRestriction.includeTables, tableRestriction.excludeTables,
                                   other.tableRestriction.includeTables, other.tableRestriction.excludeTables,
                                   tables.value)| > 0))
      ensures syncEnabled && other.syncEnabled && r.syncEnabled ==>
                fresh(r.tableRestriction) &&
                forall t :: t in tables.value ==>
                  (r.tableRestriction.MatchesTable(t) <==>
                     tableRestriction.MatchesTable(t) || other.tableRestriction.MatchesTable(t))
      ensures syncEnabled && !other.syncEnabled ==> r.syncEnabled && r.tableRestriction == tableRestriction
      ensures !syncEnabled && other.syncEnabled ==> r.syncEnabled && r.tableRestriction == other.tableRestriction
      ensures !syncEnabled && !other.syncEnabled ==> !r.syncEnabled
    {
      r := new SyncRestriction();
      if syncEnabled && other.syncEnabled {
        var tableRestrict := tableRestriction.MergeOr(other.tableRestriction, tables);
        if tableRestrict != null {
          r.tableRestriction := tableRestrict;
        } else {
          r.syncEnabled := false;
        }
      } else if syncEnabled {
        r.tableRestriction := tableRestriction;
      } else if other.syncEnabled {
        r.tableRestriction := other.tableRestriction;
      } else {
        r.syncEnabled := false;
      }
      r.timeRangeRestrictions := r.timeRangeRestrictions + timeRangeRestrictions;
      r.timeRangeRestrictions := r.timeRangeRestrictions + other.timeRangeRestrictions;
    }
  }
}
