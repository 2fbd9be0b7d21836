/** The registry of database listeners and database action listeners, each
    a list of listeners per database name. Listeners are represented by
    identities; what a listener does when it is called is outside the
    model, so a notification is the sequence of calls it makes. */
module DatabaseListenerRepository {

  /** The listeners registered for a database: none when it has no entry. */
  function ListOf<L>(m: map<string, seq<L>>, database: string): seq<L> {
    if database in m then m[database] else []
  }

  /** `List.remove(Object)`: the first occurrence removed, if any. */
  function RemoveOne<L(==)>(s: seq<L>, x: L): seq<L> {
    if |s| == 0 then []
    else if s[0] == x then s[1..]
    else [s[0]] + RemoveOne(s[1..], x)
  }

  /** Removing takes out one occurrence when there is one and keeps the rest
      in order. */
  lemma {:induction false} RemoveOneMeans<L>(s: seq<L>, x: L)
    ensures x !in s ==> RemoveOne(s, x) == s
    ensures x in s ==> |RemoveOne(s, x)| == |s| - 1
  {
    if |s| > 0 {
      var t := s[1..];
      assert s == [s[0]] + t;
      RemoveOneMeans(t, x);
    }
  }

  lemma {:induction false} RemoveOnePermutes<L>(s: seq<L>, x: L)
    ensures multiset(RemoveOne(s, x)) == multiset(s) - multiset{x}
  {
    if |s| > 0 {
      var t := s[1..];
      assert s == [s[0]] + t;
      RemoveOnePermutes(t, x);
      if s[0] != x {
        assert RemoveOne(s, x) == [s[0]] + RemoveOne(t, x);
        assert multiset(s) == multiset{s[0]} + multiset(t);
      }
    }
  }

  /** Removing empties a list exactly when the listener was its only
      element. */
  lemma EmptiedOnlyBySingle<L>(s: seq<L>, x: L)
    requires |s| > 0
    ensures |RemoveOne(s, x)| == 0 <==> s == [x]
  {
    RemoveOneMeans(s, x);
    if |s| == 1 && x in s {
      assert s[0] == x;
    }
  }

  /** Removing the listener that was added last of its kind undoes the
      addition. */
  lemma {:induction false} RemoveOneAfterAppend<L>(s: seq<L>, x: L)
    requires x !in s
    ensures RemoveOne(s + [x], x) == s
  {
    if |s| > 0 {
      assert (s + [x])[1..] == s[1..] + [x];
      RemoveOneAfterAppend(s[1..], x);
      assert s == [s[0]] + s[1..];
    }
  }

  /** `computeIfAbsent(...).add(listener)`. */
  function Added<L>(m: map<string, seq<L>>, database: string, listener: L): map<string, seq<L>> {
    m[database := ListOf(m, database) + [listener]]
  }

  /** `remove`: no effect for a database without listeners; otherwise one
      occurrence is removed and an emptied list loses its entry. */
  function Removed<L(==)>(m: map<string, seq<L>>, database: string, listener: L): map<string, seq<L>> {
    if database !in m then m
    else
      var ls := RemoveOne(m[database], listener);
      if |ls| == 0 then m - {database} else m[database := ls]
  }

  /** No database is registered with an empty list. */
  predicate NoEmptyLists<L>(m: map<string, seq<L>>) {
    forall d :: d in m ==> |m[d]| > 0
  }

  /** Adding appends the listener (duplicates allowed), leaves every other
      database alone and keeps every list non-empty. */
  lemma AddedMeans<L>(m: map<string, seq<L>>, database: string, listener: L)
    ensures ListOf(Added(m, database, listener), database) == ListOf(m, database) + [listener]
    ensures forall d :: d != database ==> ListOf(Added(m, database, listener), d) == ListOf(m, d)
    ensures NoEmptyLists(m) ==> NoEmptyLists(Added(m, database, listener))
  {
  }

  /** Removing takes one occurrence out of the database's list and leaves
      other databases alone. */
  lemma RemovedMeans<L>(m: map<string, seq<L>>, database: string, listener: L)
    ensures ListOf(Removed(m, database, listener), database) == RemoveOne(ListOf(m, database), listener)
    ensures forall d :: d != database ==> ListOf(Removed(m, database, listener), d) == ListOf(m, d)
  {
  }

  /** Removing the last listener of a database removes its entry, no list is
      left empty. */
  lemma RemovedDropsEmptied<L>(m: map<string, seq<L>>, database: string, listener: L)
    requires NoEmptyLists(m)
    ensures NoEmptyLists(Removed(m, database, listener))
    ensures database in Removed(m, database, listener) <==>
              database in m && m[database] != [listener]
  {
    if database in m {
      EmptiedOnlyBySingle(m[database], listener);
    }
  }

  /** Removing a listener that is not registered for the database changes
      nothing. */
  lemma RemoveUnknownIsNoOp<L>(m: map<string, seq<L>>, database: string, listener: L)
    requires NoEmptyLists(m)
    requires listener !in ListOf(m, database)
    ensures Removed(m, database, listener) == m
  {
    if database in m {
      RemoveOneMeans(m[database], listener);
      assert m[database := m[database]] == m;
    }
  }

  /** Adding a listener that was not registered and removing it again
      restores the registry. */
  lemma AddRemoveRoundTrip<L>(m: map<string, seq<L>>, database: string, listener: L)
    requires NoEmptyLists(m)
    requires listener !in ListOf(m, database)
    ensures Removed(Added(m, database, listener), database, listener) == m
  {
    RemoveOneAfterAppend(ListOf(m, database), listener);
  }

  /** A delivered call: the listener and what it was told. */
  datatype Call<L, E> = Call(listener: L, event: E)

  /** `DatabaseListenerRepository`: the two registries. `L` identifies
      database listeners, `A` database action listeners. */
  class ListenerRepository<L(==), A(==)> {
    var listeners: map<string, seq<L>>
    var actionListeners: map<string, seq<A>>

    /** No database is registered with an empty list of either kind. */
    predicate Valid()
      reads this
    {
      NoEmptyLists(listeners) && NoEmptyLists(actionListeners)
    }

    constructor ()
      ensures listeners == map[] && actionListeners == map[]
      ensures Valid()
    {
      listeners := map[];
      actionListeners := map[];
    }

    method AddDatabaseListener(database: string, listener: L)
      modifies this
      requires Valid()
      ensures Valid()
      ensures listeners == Added(old(listeners), database, listener)
      ensures actionListeners == old(actionListeners)
    {
      AddedMeans(listeners, database, listener);
      var ls := if database in listeners then listeners[database] else [];
      listeners := listeners[database := ls + [listener]];
    }

    method RemoveDatabaseListener(database: string, listener: L)
      modifies this
      requires Valid()
      ensures Valid()
      ensures listeners == Removed(old(listeners), database, listener)
      ensures actionListeners == old(actionListeners)
    {
      RemovedDropsEmptied(listeners, database, listener);
      if database !in listeners {
        return;
      }
      var ls := RemoveOne(listeners[database], listener);
      if |ls| == 0 {
        listeners := listeners - {database};
      } else {
        listeners := listeners[database := ls];
      }
    }

    /** `getDatabaseListeners`: a copy of the list, empty for an unknown
      database. */
    method GetDatabaseListeners(database: string) returns (r: seq<L>)
      ensures r == ListOf(listeners, database)
    {
      if database !in listeners {
        r := [];
      } else {
        r := listeners[database];
      }
    }

    method AddDatabaseActionListener(database: string, listener: A)
      modifies this
      requires Valid()
      ensures Valid()
      ensures actionListeners == Added(old(actionListeners), database, listener)
      ensures listeners == old(listeners)
    {
      AddedMeans(actionListeners, database, listener);
      var ls := if database in actionListeners then actionListeners[database] else [];
      actionListeners := actionListeners[database := ls + [listener]];
    }

    method RemoveDatabaseActionListener(database: string, listener: A)
      modifies this
      requires Valid()
      ensures Valid()
      ensures actionListeners == Removed(old(actionListeners), database, listener)
      ensures listeners == old(listeners)
    {
      RemovedDropsEmptied(actionListeners, database, listener);
      if database !in actionListeners {
        return;
      }
      var ls := RemoveOne(actionListeners[database], listener);
      if |ls| == 0 {
        actionListeners := actionListeners - {database};
      } else {
        actionListeners := actionListeners[database := ls];
      }
    }

    method GetDatabaseActionListeners(database: string) returns (r: seq<A>)
      ensures r == ListOf(actionListeners, database)
    {
      if database !in actionListeners {
        r := [];
      } else {
        r := actionListeners[database];
      }
    }

    /** `notifyDatabaseEvent`: every listener of the event's database is
      called once with the event, in registration order, and no other
      listener. */
    method NotifyDatabaseEvent<E>(database: string, event: E) returns (calls: seq<Call<L, E>>)
      ensures |calls| == |ListOf(listeners, database)|
      ensures forall i :: 0 <= i < |calls| ==> calls[i] == Call(ListOf(listeners, database)[i], event)
    {
      var ls := GetDatabaseListeners(database);
      calls := [];
      var n := 0;
      while n < |ls|
        invariant n <= |ls| && |calls| == n
        invariant forall i :: 0 <= i < n ==> calls[i] == Call(ls[i], event)
      {
        calls := calls + [Call(ls[n], event)];
        n := n + 1;
      }
    }

    /** `notifyAddDatabaseActions`: every action listener of the database is
      called once with the table and the actions, in registration order. */
    method NotifyAddDatabaseActions<T>(database: string, table: string, actions: seq<T>)
      returns (calls: seq<Call<A, (string, string, seq<T>)>>)
      ensures |calls| == |ListOf(actionListeners, database)|
      ensures forall i :: 0 <= i < |calls| ==>
                calls[i] == Call(ListOf(actionListeners, database)[i], (database, table, actions))
    {
      var ls := GetDatabaseActionListeners(database);
      calls := [];
      var n := 0;
      while n < |ls|
        invariant n <= |ls| && |calls| == n
        invariant forall i :: 0 <= i < n ==> calls[i] == Call(ls[i], (database, table, actions))
      {
        calls := calls + [Call(ls[n], (database, table, actions))];
        n := n + 1;
      }
    }
  }
}
