/** The per-database metadata cache: sorted lists of logical and physical
    table names, the action tables and keys of user tables, and per-table
    metadata maps. Cached objects are represented by their names; what
    they hold does not matter to the cache. */
module DatabaseCache {
  import opened Wrappers
  import opened JavaText

  /** A (user, table) key. */
  datatype UserTable = UserTable(user: string, table: string)

  // ---------------------------------------------------------------------------
  // Name lists, sorted with String.compareTo
  // ---------------------------------------------------------------------------

  predicate LessEq(a: string, b: string) {
    !Less(b, a)
  }

  lemma LessEqTransitive(a: string, b: string, c: string)
    requires LessEq(a, b) && LessEq(b, c)
    ensures LessEq(a, c)
  {
    if Less(c, a) {
      LessTrichotomy(a, b);
      if a != b {
        LessTransitive(c, a, b);
      }
    }
  }

  /** Every name is ordered before or equal to every later name. */
  predicate Sorted(s: seq<string>) {
    forall i, j :: 0 <= i < j < |s| ==> LessEq(s[i], s[j])
  }

  /** Every name is strictly before every later name: sorted and without
      duplicates. */
  predicate StrictlySorted(s: seq<string>) {
    forall i, j :: 0 <= i < j < |s| ==> Less(s[i], s[j])
  }

  predicate Distinct(s: seq<string>) {
    forall i, j :: 0 <= i < j < |s| ==> s[i] != s[j]
  }

  /** Inserts a name into a sorted list before the first name that is not
      smaller. */
  function Insert(x: string, s: seq<string>): seq<string> {
    if |s| == 0 then [x]
    else if LessEq(x, s[0]) then [x] + s
    else [s[0]] + Insert(x, s[1..])
  }

  /** `Collections.sort` on a list of strings: its result is the sorted
      permutation of the list, written here as an insertion sort. */
  function SortNames(xs: seq<string>): seq<string> {
    if |xs| == 0 then [] else Insert(xs[0], SortNames(xs[1..]))
  }

  lemma {:induction false} InsertPermutes(x: string, s: seq<string>)
    ensures multiset(Insert(x, s)) == multiset(s) + multiset{x}
  {
    if |s| > 0 && !LessEq(x, s[0]) {
      InsertPermutes(x, s[1..]);
      assert s == [s[0]] + s[1..];
    }
  }

  lemma SortedCons(h: string, t: seq<string>)
    requires Sorted(t)
    requires forall y :: y in t ==> LessEq(h, y)
    ensures Sorted([h] + t)
  {
    var r := [h] + t;
    forall i, j | 0 <= i < j < |r|
      ensures LessEq(r[i], r[j])
    {
      if i == 0 {
        assert r[j] == t[j - 1];
      } else {
        assert r[i] == t[i - 1] && r[j] == t[j - 1];
      }
    }
  }

  lemma {:induction false} InsertSorted(x: string, s: seq<string>)
    requires Sorted(s)
    ensures Sorted(Insert(x, s))
  {
    if |s| == 0 {
    } else if LessEq(x, s[0]) {
      forall y | y in s
        ensures LessEq(x, y)
      {
        var k :| 0 <= k < |s| && s[k] == y;
        if k > 0 {
          LessEqTransitive(x, s[0], y);
        }
      }
      SortedCons(x, s);
    } else {
      assert Sorted(s[1..]);
      InsertSorted(x, s[1..]);
      InsertPermutes(x, s[1..]);
      var rest := Insert(x, s[1..]);
      assert LessEq(s[0], x) by {
        LessTrichotomy(x, s[0]);
      }
      forall y | y in rest
        ensures LessEq(s[0], y)
      {
        assert y in multiset(rest);
        if y != x {
          assert y in s[1..];
          var k :| 1 <= k < |s| && s[k] == y;
        }
      }
      SortedCons(s[0], rest);
    }
  }

  /** The sort yields a sorted permutation of its input. */
  lemma {:induction false} SortNamesSorts(xs: seq<string>)
    ensures Sorted(SortNames(xs))
    ensures multiset(SortNames(xs)) == multiset(xs)
  {
    if |xs| > 0 {
      SortNamesSorts(xs[1..]);
      InsertSorted(xs[0], SortNames(xs[1..]));
      InsertPermutes(xs[0], SortNames(xs[1..]));
      assert xs == [xs[0]] + xs[1..];
    }
  }

  lemma SortedDistinctIsStrict(s: seq<string>)
    requires Sorted(s) && Distinct(s)
    ensures StrictlySorted(s)
  {
    forall i, j | 0 <= i < j < |s|
      ensures Less(s[i], s[j])
    {
      LessTrichotomy(s[i], s[j]);
    }
  }

  lemma {:induction false} DistinctCount(s: seq<string>, v: string)
    requires Distinct(s)
    ensures multiset(s)[v] <= 1
  {
    if |s| > 0 {
      assert s == [s[0]] + s[1..];
      DistinctCount(s[1..], v);
      if s[0] == v {
        assert v !in s[1..];
      }
    }
  }

  lemma TwoCopies(s: seq<string>, i: nat, j: nat)
    requires i < j < |s| && s[i] == s[j]
    ensures multiset(s)[s[i]] >= 2
  {
    assert s == s[..j] + s[j..];
    assert s[i] == s[..j][i];
    assert s[j] == s[j..][0];
  }

  lemma DistinctPermutation(a: seq<string>, b: seq<string>)
    requires Distinct(a) && multiset(a) == multiset(b)
    ensures Distinct(b)
  {
    forall i, j | 0 <= i < j < |b|
      ensures b[i] != b[j]
    {
      DistinctCount(a, b[i]);
      if b[i] == b[j] {
        TwoCopies(b, i, j);
      }
    }
  }

  /** Adding a name that is not in a duplicate-free list and sorting gives a
      strictly sorted list: the name list stays sorted and duplicate-free
      whatever the order it was set in. */
  lemma AddedAndSorted(s: seq<string>, x: string)
    requires Distinct(s) && x !in s
    ensures StrictlySorted(SortNames(s + [x]))
    ensures multiset(SortNames(s + [x])) == multiset(s) + multiset{x}
    ensures forall n :: n in SortNames(s + [x]) <==> n in s || n == x
  {
    var t := s + [x];
    SortNamesSorts(t);
    assert Distinct(t);
    DistinctPermutation(t, SortNames(t));
    SortedDistinctIsStrict(SortNames(t));
    forall n
      ensures n in SortNames(t) <==> n in s || n == x
    {
      assert n in SortNames(t) <==> n in multiset(t);
    }
  }

  /** `List.remove(Object)`: drops the first occurrence, if any. */
  function RemoveFirst(s: seq<string>, x: string): seq<string> {
    if |s| == 0 then []
    else if s[0] == x then s[1..]
    else [s[0]] + RemoveFirst(s[1..], x)
  }

  /** Removing drops one occurrence of the name when there is one, and
      otherwise changes nothing. */
  lemma {:induction false} RemoveFirstMeans(s: seq<string>, x: string)
    ensures x !in s ==> RemoveFirst(s, x) == s
    ensures x in s ==> |RemoveFirst(s, x)| == |s| - 1
    ensures multiset(RemoveFirst(s, x)) == multiset(s) - multiset{x}
  {
    if |s| > 0 {
      var t := s[1..];
      assert s == [s[0]] + t;
      RemoveFirstMeans(t, x);
      if s[0] != x {
        var r := RemoveFirst(t, x);
        assert RemoveFirst(s, x) == [s[0]] + r;
        assert multiset([s[0]] + r) == multiset{s[0]} + multiset(r);
        assert multiset(s) == multiset{s[0]} + multiset(t);
        assert x in s ==> x in t;
      }
    }
  }

  /** A name list that may not be set yet, with the first occurrence of a
      name removed when it is set. */
  function RemoveName(tables: Option<seq<string>>, table: string): Option<seq<string>> {
    if tables.None? then None else Some(RemoveFirst(tables.value, table))
  }

  /** Removing a name from a strictly sorted list leaves it strictly sorted
      and removes exactly that name. */
  lemma StrictCons(h: string, t: seq<string>)
    requires StrictlySorted(t)
    requires forall y :: y in t ==> Less(h, y)
    ensures StrictlySorted([h] + t)
  {
    var r := [h] + t;
    forall i, j | 0 <= i < j < |r|
      ensures Less(r[i], r[j])
    {
      if i == 0 {
        assert r[j] == t[j - 1];
      } else {
        assert r[i] == t[i - 1] && r[j] == t[j - 1];
      }
    }
  }

  lemma {:induction false} RemoveKeepsStrict(s: seq<string>, x: string)
    requires StrictlySorted(s)
    ensures StrictlySorted(RemoveFirst(s, x))
    ensures forall n :: n in RemoveFirst(s, x) <==> n in s && n != x
  {
    if |s| > 0 {
      assert s == [s[0]] + s[1..];
      assert StrictlySorted(s[1..]);
      RemoveKeepsStrict(s[1..], x);
      if s[0] != x {
        var rest := RemoveFirst(s[1..], x);
        forall y | y in rest
          ensures Less(s[0], y)
        {
          var k :| 1 <= k < |s| && s[k] == y;
        }
        StrictCons(s[0], rest);
      } else {
        forall i | 1 <= i < |s|
          ensures s[i] != x
        {
          LessTrichotomy(s[0], s[i]);
        }
      }
    }
  }

  /** The entries of a (user, table) map that do not belong to `table`. */
  function WithoutTable<V>(m: map<UserTable, V>, table: string): map<UserTable, V> {
    map k | k in m && k.table != table :: m[k]
  }

  /** The key loops of `removeLogicalTable`: the keys are walked one by one
      and every key of the table is removed. */
  method RemoveTableKeys<V>(m: map<UserTable, V>, table: string) returns (r: map<UserTable, V>)
    ensures r == WithoutTable(m, table)
  {
    r := m;
    var keys := m.Keys;
    while keys != {}
      invariant keys <= m.Keys
      invariant r == map k | k in m && (k in keys || k.table != table) :: m[k]
      decreases keys
    {
      var k :| k in keys;
      if k.table == table {
        r := r - {k};
      }
      keys := keys - {k};
    }
  }

  /** Removing a table keeps exactly the entries of the other tables, with
      their values. */
  lemma WithoutTableKeeps<V>(m: map<UserTable, V>, table: string)
    ensures forall k :: k in WithoutTable(m, table) <==> k in m && k.table != table
    ensures forall k :: k in WithoutTable(m, table) ==> WithoutTable(m, table)[k] == m[k]
  {
  }

  // ---------------------------------------------------------------------------
  // The cached metadata of one database
  // ---------------------------------------------------------------------------

  /** `DatabaseCachedMetadata`. A list or map that is `None` has not been
      loaded yet (null in the source). Cached objects are represented by
      their names: an action table by its physical name, table metadata
      and compound indexes by their descriptions. */
  class CachedMetadata {
    var actionTables: map<UserTable, string>
    var userTableKeys: map<UserTable, string>
    var logicalTables: Option<seq<string>>
    var physicalTables: Option<seq<string>>
    var tableMetadata: Option<map<string, seq<string>>>
    var tableFields: map<string, seq<string>>
    var tableDataClasses: map<string, string>
    var tableCompoundIndexes: map<string, seq<string>>
    var tableSplitByUser: map<string, bool>

    /** New metadata: empty maps, and no lists and no table metadata yet. */
    constructor ()
      ensures actionTables == map[] && userTableKeys == map[]
      ensures logicalTables.None? && physicalTables.None? && tableMetadata.None?
      ensures tableFields == map[] && tableDataClasses == map[]
      ensures tableCompoundIndexes == map[] && tableSplitByUser == map[]
    {
      actionTables := map[];
      userTableKeys := map[];
      logicalTables := None;
      physicalTables := None;
      tableMetadata := None;
      tableFields := map[];
      tableDataClasses := map[];
      tableCompoundIndexes := map[];
      tableSplitByUser := map[];
    }

    /** `getLogicalTables`: a copy of the list, or null before it is set. */
    method GetLogicalTables() returns (r: Option<seq<string>>)
      ensures r == logicalTables
    {
      r := logicalTables;
    }

    method SetLogicalTables(tables: Option<seq<string>>)
      modifies this
      ensures logicalTables == tables
      ensures physicalTables == old(physicalTables) && tableMetadata == old(tableMetadata)
      ensures actionTables == old(actionTables) && userTableKeys == old(userTableKeys)
    {
      logicalTables := tables;
    }

    /** `addLogicalTable`: no effect before the list is set or when it holds
      the name; otherwise the name is added and the list sorted, so a list
      without duplicates becomes strictly sorted and gains exactly the
      name. */
    method AddLogicalTable(table: string)
      modifies this
      ensures old(logicalTables).None? || table in old(logicalTables).value ==>
                logicalTables == old(logicalTables)
      ensures old(logicalTables).Some? && table !in old(logicalTables).value ==>
                logicalTables.Some? && Sorted(logicalTables.value) &&
                multiset(logicalTables.value) == multiset(old(logicalTables).value) + multiset{table}
      ensures old(logicalTables).Some? && Distinct(old(logicalTables).value) && table !in old(logicalTables).value ==>
                logicalTables.Some? && StrictlySorted(logicalTables.value) &&
                forall n :: n in logicalTables.value <==> n in old(logicalTables).value || n == table
      ensures old(logicalTables).Some? && StrictlySorted(old(logicalTables).value) ==>
                logicalTables.Some? && StrictlySorted(logicalTables.value)
      ensures physicalTables == old(physicalTables) && tableMetadata == old(tableMetadata)
      ensures actionTables == old(actionTables) && userTableKeys == old(userTableKeys)
    {
      if logicalTables.None? || table in logicalTables.value {
        return;
      }
      var tables := logicalTables.value + [table];
      SortNamesSorts(tables);
      StrictIsDistinct(logicalTables.value);
      if Distinct(logicalTables.value) {
        AddedAndSorted(logicalTables.value, table);
      }
      logicalTables := Some(SortNames(tables));
    }

    /** `getPhysicalTables`: a copy of the list, or null before it is set. */
    method GetPhysicalTables() returns (r: Option<seq<string>>)
      ensures r == physicalTables
    {
      r := physicalTables;
    }

    method SetPhysicalTables(tables: Option<seq<string>>)
      modifies this
      ensures physicalTables == tables
      ensures logicalTables == old(logicalTables) && tableMetadata == old(tableMetadata)
      ensures actionTables == old(actionTables) && userTableKeys == old(userTableKeys)
    {
      physicalTables := tables;
    }

    /** `addPhysicalTable`: the same rule as for logical tables. */
    method AddPhysicalTable(table: string)
      modifies this
      ensures old(physicalTables).None? || table in old(physicalTables).value ==>
                physicalTables == old(physicalTables)
      ensures old(physicalTables).Some? && table !in old(physicalTables).value ==>
                physicalTables.Some? && Sorted(physicalTables.value) &&
                multiset(physicalTables.value) == multiset(old(physicalTables).value) + multiset{table}
      ensures old(physicalTables).Some? && Distinct(old(physicalTables).value) && table !in old(physicalTables).value ==>
                physicalTables.Some? && StrictlySorted(physicalTables.value) &&
                forall n :: n in physicalTables.value <==> n in old(physicalTables).value || n == table
      ensures old(physicalTables).Some? && StrictlySorted(old(physicalTables).value) ==>
                physicalTables.Some? && StrictlySorted(physicalTables.value)
      ensures logicalTables == old(logicalTables) && tableMetadata == old(tableMetadata)
      ensures actionTables == old(actionTables) && userTableKeys == old(userTableKeys)
    {
      if physicalTables.None? || table in physicalTables.value {
        return;
      }
      var tables := physicalTables.value + [table];
      SortNamesSorts(tables);
      StrictIsDistinct(physicalTables.value);
      if Distinct(physicalTables.value) {
        AddedAndSorted(physicalTables.value, table);
      }
      physicalTables := Some(SortNames(tables));
    }

    /** `removePhysicalTable`: no effect before the list is set; otherwise
      the first occurrence of the name is removed. */
    method RemovePhysicalTable(table: string)
      modifies this
      ensures physicalTables == RemoveName(old(physicalTables), table)
      ensures logicalTables == old(logicalTables) && tableMetadata == old(tableMetadata)
      ensures actionTables == old(actionTables) && userTableKeys == old(userTableKeys)
    {
      if physicalTables.Some? {
        physicalTables := Some(RemoveFirst(physicalTables.value, table));
      }
    }

    /** `removeUserTable`: removes exactly the one (user, table) key from the
      action tables and the user-table keys. */
    method RemoveUserTable(user: string, table: string)
      modifies this
      ensures actionTables == old(actionTables) - {UserTable(user, table)}
      ensures userTableKeys == old(userTableKeys) - {UserTable(user, table)}
      ensures logicalTables == old(logicalTables) && physicalTables == old(physicalTables)
      ensures tableMetadata == old(tableMetadata)
    {
      var key := UserTable(user, table);
      actionTables := actionTables - {key};
      userTableKeys := userTableKeys - {key};
    }

    /** `removeLogicalTable` as written: the key loops and the removals up to
      the table metadata happen, then the table metadata, which is null
      until it is loaded, is dereferenced; in that case the call throws
      a NullPointerException and the split-by-user entry stays. */
    method RemoveLogicalTableAsWritten(table: string) returns (r: Result<(), string>)
      modifies this
      ensures actionTables == WithoutTable(old(actionTables), table)
      ensures userTableKeys == WithoutTable(old(userTableKeys), table)
      ensures logicalTables == RemoveName(old(logicalTables), table)
      ensures tableFields == old(tableFields) - {table}
      ensures tableDataClasses == old(tableDataClasses) - {table}
      ensures tableCompoundIndexes == old(tableCompoundIndexes) - {table}
      ensures r.Err? <==> old(tableMetadata).None?
      ensures r.Err? ==> r.error == "NullPointerException" && tableSplitByUser == old(tableSplitByUser)
      ensures r.Ok? ==> tableMetadata == Some(old(tableMetadata).value - {table}) &&
                        tableSplitByUser == old(tableSplitByUser) - {table}
      ensures physicalTables == old(physicalTables)
    {
      actionTables := RemoveTableKeys(actionTables, table);
      userTableKeys := RemoveTableKeys(userTableKeys, table);
      if logicalTables.Some? {
        logicalTables := Some(RemoveFirst(logicalTables.value, table));
      }
      tableCompoundIndexes := tableCompoundIndexes - {table};
      tableDataClasses := tableDataClasses - {table};
      tableFields := tableFields - {table};
      if tableMetadata.None? {
        return Err("NullPointerException");
      }
      tableMetadata := Some(tableMetadata.value - {table});
      tableSplitByUser := tableSplitByUser - {table};
      r := Ok(());
    }

    /** `removeLogicalTable` with the table metadata guarded like the
      logical table list: every entry of the table is removed from every
      cache, entries of other tables stay, and a strictly sorted list of
      logical tables stays strictly sorted without the name. */
    method RemoveLogicalTable(table: string)
      modifies this
      ensures actionTables == WithoutTable(old(actionTables), table)
      ensures userTableKeys == WithoutTable(old(userTableKeys), table)
      ensures logicalTables == RemoveName(old(logicalTables), table)
      ensures tableMetadata == (if old(tableMetadata).None? then None
                                else Some(old(tableMetadata).value - {table}))
      ensures tableFields == old(tableFields) - {table}
      ensures tableDataClasses == old(tableDataClasses) - {table}
      ensures tableCompoundIndexes == old(tableCompoundIndexes) - {table}
      ensures tableSplitByUser == old(tableSplitByUser) - {table}
      ensures physicalTables == old(physicalTables)
    {
      actionTables := RemoveTableKeys(actionTables, table);
      userTableKeys := RemoveTableKeys(userTableKeys, table);
      if logicalTables.Some? {
        logicalTables := Some(RemoveFirst(logicalTables.value, table));
      }
      tableCompoundIndexes := tableCompoundIndexes - {table};
      tableDataClasses := tableDataClasses - {table};
      tableFields := tableFields - {table};
      if tableMetadata.Some? {
        tableMetadata := Some(tableMetadata.value - {table});
      }
      tableSplitByUser := tableSplitByUser - {table};
    }
  }

  lemma StrictIsDistinct(s: seq<string>)
    ensures StrictlySorted(s) ==> Distinct(s)
  {
    if StrictlySorted(s) {
      forall i, j | 0 <= i < j < |s|
        ensures s[i] != s[j]
      {
        LessTrichotomy(s[i], s[j]);
      }
    }
  }

  /** Removing a name from a list that may not be set yet: a strictly
      sorted list stays strictly sorted and loses exactly that name, and an
      unset list stays unset. */
  lemma RemoveNameKeepsStrict(tables: Option<seq<string>>, table: string)
    ensures tables.None? ==> RemoveName(tables, table).None?
    ensures tables.Some? && StrictlySorted(tables.value) ==>
              RemoveName(tables, table).Some? && StrictlySorted(RemoveName(tables, table).value) &&
              forall n :: n in RemoveName(tables, table).value <==> n in tables.value && n != table
  {
    if tables.Some? && StrictlySorted(tables.value) {
      RemoveKeepsStrict(tables.value, table);
    }
  }

  // ---------------------------------------------------------------------------
  // The cache of all databases
  // ---------------------------------------------------------------------------

  /** `DatabaseCache`: the metadata of each database, by database name. */
  class Cache {
    var databases: map<string, CachedMetadata>

    constructor ()
      ensures databases == map[]
    {
      databases := map[];
    }

    method ContainsDatabase(db: string) returns (r: bool)
      ensures r <==> db in databases
    {
      r := db in databases;
    }

    method RemoveDatabase(db: string)
      modifies this
      ensures databases == old(databases) - {db}
    {
      databases := databases - {db};
    }

    /** `getCachedMetadata`: the metadata of the database, created empty on
      first use. */
    method GetCachedMetadata(db: string) returns (m: CachedMetadata)
      modifies this
      ensures old(db in databases) ==> m == old(databases[db]) && databases == old(databases)
      ensures !old(db in databases) ==>
                fresh(m) && databases == old(databases)[db := m] &&
                m.logicalTables.None? && m.physicalTables.None? && m.tableMetadata.None? &&
                m.actionTables == map[] && m.userTableKeys == map[]
    {
      if db in databases {
        m := databases[db];
      } else {
        m := new CachedMetadata();
        databases := databases[db := m];
      }
    }
  }

  /** Removing a logical table before the table metadata of the database has
      been loaded: the source throws. */
  method RemoveBeforeMetadataLoaded() returns (r: Result<(), string>)
    ensures r == Err("NullPointerException")
  {
    var m := new CachedMetadata();
    m.SetLogicalTables(Some(["a", "b"]));
    r := m.RemoveLogicalTableAsWritten("a");
  }
}
