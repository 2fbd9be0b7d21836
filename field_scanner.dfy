/** The field scanner of database object classes with its bounded
    least-recently-used cache. Reflection is represented by a class
    declaration value: its superclass when that is a database object class
    too, and its declared fields with their optional database-field
    annotation. */
module DatabaseFieldScanner {
  import opened Wrappers

  /** `MAX_CACHE_SIZE`. */
  const MAX_CACHE_SIZE: nat := 100

  /** A declared field: its name and its `@DatabaseField` annotation, if any
      (the annotation is represented by its description). */
  datatype FieldDecl = FieldDecl(name: string, annotation: Option<string>)

  /** `DatabaseFieldSpec`: the property name and the annotation. */
  datatype FieldSpec = FieldSpec(name: string, annotation: string)

  /** A database object class: the superclass when it is a database object
      class as well, and the declared fields in declaration order. */
  datatype ClassDecl = ClassDecl(name: string, superclass: Option<ClassDecl>, fields: seq<FieldDecl>)

  /** The specifications of the annotated fields among `fields`, in order. */
  function AnnotatedFields(fields: seq<FieldDecl>): seq<FieldSpec> {
    if |fields| == 0 then []
    else
      var last := fields[|fields| - 1];
      AnnotatedFields(fields[..|fields| - 1]) +
        (if last.annotation.Some? then [FieldSpec(last.name, last.annotation.value)] else [])
  }

  /** What a scan of the class yields: the fields of the superclass chain
      first, then the annotated fields of the class itself. */
  function ScanFields(c: ClassDecl): seq<FieldSpec>
    decreases c
  {
    (if c.superclass.Some? then ScanFields(c.superclass.value) else []) + AnnotatedFields(c.fields)
  }

  /** Every scanned specification comes from an annotated field, and an
      annotated field is never dropped. */
  lemma {:induction false} AnnotatedFieldsMeans(fields: seq<FieldDecl>)
    ensures forall s :: s in AnnotatedFields(fields) <==>
              exists f :: f in fields && f.annotation.Some? && s == FieldSpec(f.name, f.annotation.value)
    ensures |AnnotatedFields(fields)| <= |fields|
  {
    if |fields| > 0 {
      var init := fields[..|fields| - 1];
      AnnotatedFieldsMeans(init);
      assert fields == init + [fields[|fields| - 1]];
    }
  }

  /** `a` is a (database object) superclass of `c`, directly or not. */
  predicate Ancestor(a: ClassDecl, c: ClassDecl)
    decreases c
  {
    c.superclass.Some? && (c.superclass.value == a || Ancestor(a, c.superclass.value))
  }

  /** The length of the superclass chain. */
  function Depth(c: ClassDecl): nat
    decreases c
  {
    if c.superclass.Some? then 1 + Depth(c.superclass.value) else 0
  }

  lemma {:induction false} AncestorShallower(a: ClassDecl, c: ClassDecl)
    requires Ancestor(a, c)
    ensures Depth(a) < Depth(c)
    decreases c
  {
    if c.superclass.value != a {
      AncestorShallower(a, c.superclass.value);
    }
  }

  /** The fields of every superclass come before the fields of a subclass:
      the scan of an ancestor is a prefix of the scan of the class. */
  lemma {:induction false} AncestorFieldsFirst(a: ClassDecl, c: ClassDecl)
    requires Ancestor(a, c)
    ensures |ScanFields(a)| <= |ScanFields(c)|
    ensures ScanFields(c)[..|ScanFields(a)|] == ScanFields(a)
    decreases c
  {
    var sup := c.superclass.value;
    if sup != a {
      AncestorFieldsFirst(a, sup);
    }
    assert ScanFields(c) == ScanFields(sup) + AnnotatedFields(c.fields);
  }

  // ---------------------------------------------------------------------------
  // The insertion-ordered map behind the cache (a LinkedHashMap)
  // ---------------------------------------------------------------------------

  datatype Entry = Entry(key: ClassDecl, fields: seq<FieldSpec>)

  predicate KeysDistinct(es: seq<Entry>) {
    forall i, j :: 0 <= i < j < |es| ==> es[i].key != es[j].key
  }

  predicate HasKey(es: seq<Entry>, k: ClassDecl) {
    exists i :: 0 <= i < |es| && es[i].key == k
  }

  /** `LinkedHashMap.remove`: the map without the key. */
  function RemoveKey(es: seq<Entry>, k: ClassDecl): seq<Entry> {
    if |es| == 0 then []
    else (if es[0].key == k then [] else [es[0]]) + RemoveKey(es[1..], k)
  }

  /** `LinkedHashMap.put`: a present key keeps its place and gets the new
      value; a new key goes at the end. */
  function PutEntry(es: seq<Entry>, k: ClassDecl, v: seq<FieldSpec>): seq<Entry> {
    if |es| == 0 then [Entry(k, v)]
    else if es[0].key == k then [Entry(k, v)] + es[1..]
    else [es[0]] + PutEntry(es[1..], k, v)
  }

  /** Removing a key keeps the other entries in their order and drops one
      entry when the key is present in a map without duplicate keys. */
  lemma {:induction false} RemoveKeyMeans(es: seq<Entry>, k: ClassDecl)
    requires KeysDistinct(es)
    ensures forall e :: e in RemoveKey(es, k) <==> e in es && e.key != k
    ensures KeysDistinct(RemoveKey(es, k))
    ensures |RemoveKey(es, k)| == if HasKey(es, k) then |es| - 1 else |es|
  {
    if |es| > 0 {
      var t := es[1..];
      assert es == [es[0]] + t;
      assert KeysDistinct(t);
      RemoveKeyMeans(t, k);
      var r := RemoveKey(es, k);
      if es[0].key == k {
        assert !HasKey(t, k);
      } else {
        assert HasKey(es, k) <==> HasKey(t, k);
        forall i, j | 0 <= i < j < |r|
          ensures r[i].key != r[j].key
        {
          assert r[j] in RemoveKey(t, k);
          if i == 0 {
            assert r[j] in t;
          }
        }
      }
    }
  }

  /** Putting a new key appends it. */
  lemma {:induction false} PutEntryAppends(es: seq<Entry>, k: ClassDecl, v: seq<FieldSpec>)
    requires !HasKey(es, k)
    ensures PutEntry(es, k, v) == es + [Entry(k, v)]
  {
    if |es| > 0 {
      assert !HasKey(es[1..], k) by {
        forall i | 0 <= i < |es[1..]|
          ensures es[1..][i].key != k
        {
          assert es[1..][i] == es[i + 1];
        }
      }
      PutEntryAppends(es[1..], k, v);
    }
  }

  /** After a put the map holds the new entry and the entries of the other
      keys, and it grows only when the key is new. */
  lemma {:induction false} PutEntryMembers(es: seq<Entry>, k: ClassDecl, v: seq<FieldSpec>)
    requires KeysDistinct(es)
    ensures forall e :: e in PutEntry(es, k, v) <==> e == Entry(k, v) || (e in es && e.key != k)
    ensures |PutEntry(es, k, v)| == if HasKey(es, k) then |es| else |es| + 1
  {
    if |es| > 0 {
      var t := es[1..];
      assert es == [es[0]] + t;
      assert KeysDistinct(t);
      PutEntryMembers(t, k, v);
      if es[0].key == k {
        assert !HasKey(t, k);
      } else {
        assert HasKey(es, k) <==> HasKey(t, k);
      }
    }
  }

  /** A put replaces a value in place or appends: the keys already there
      stay where they are. */
  lemma {:induction false} PutEntryKeepsKeys(es: seq<Entry>, k: ClassDecl, v: seq<FieldSpec>)
    ensures |PutEntry(es, k, v)| >= |es|
    ensures forall i :: 0 <= i < |es| ==> PutEntry(es, k, v)[i].key == es[i].key
  {
    if |es| > 0 && es[0].key != k {
      PutEntryKeepsKeys(es[1..], k, v);
    }
  }

  /** A put keeps the keys distinct. */
  lemma PutEntryDistinct(es: seq<Entry>, k: ClassDecl, v: seq<FieldSpec>)
    requires KeysDistinct(es)
    ensures KeysDistinct(PutEntry(es, k, v))
  {
    PutEntryKeepsKeys(es, k, v);
    PutEntryMembers(es, k, v);
    if !HasKey(es, k) {
      PutEntryAppends(es, k, v);
    }
  }

  /** Every cached entry holds what a scan of its class yields. */
  predicate Consistent(es: seq<Entry>) {
    forall i :: 0 <= i < |es| ==> es[i].fields == ScanFields(es[i].key)
  }

  /** The cache invariant: at most `MAX_CACHE_SIZE` classes, each once, each
      with its scanned fields. */
  predicate CacheInvariant(es: seq<Entry>) {
    |es| <= MAX_CACHE_SIZE && KeysDistinct(es) && Consistent(es)
  }

  /** The least recently used entry goes when the cache is full; then the
      class is put. */
  function Evict(es: seq<Entry>): seq<Entry> {
    if |es| == MAX_CACHE_SIZE then es[1..] else es
  }

  /** Putting a scanned class keeps the invariant, and the class ends up
      most recently used when it was not cached yet. */
  lemma PutKeepsInvariant(es: seq<Entry>, c: ClassDecl)
    requires CacheInvariant(es)
    ensures CacheInvariant(PutEntry(Evict(es), c, ScanFields(c)))
    ensures !HasKey(Evict(es), c) ==>
              PutEntry(Evict(es), c, ScanFields(c)) == Evict(es) + [Entry(c, ScanFields(c))]
  {
    var e := Evict(es);
    assert KeysDistinct(e);
    PutEntryMembers(e, c, ScanFields(c));
    PutEntryDistinct(e, c, ScanFields(c));
    if !HasKey(e, c) {
      PutEntryAppends(e, c, ScanFields(c));
    }
    var r := PutEntry(e, c, ScanFields(c));
    forall i | 0 <= i < |r|
      ensures r[i].fields == ScanFields(r[i].key)
    {
      assert r[i] in r;
      if r[i] != Entry(c, ScanFields(c)) {
        var j :| 0 <= j < |e| && e[j] == r[i];
        if |es| == MAX_CACHE_SIZE {
          assert e[j] == es[j + 1];
        }
      }
    }
  }

  /** A miss on a full cache evicts the least recently used class, the
      first one, and appends the new class. */
  lemma MissOnFullEvictsOldest(es: seq<Entry>, c: ClassDecl, v: seq<FieldSpec>)
    requires CacheInvariant(es) && |es| == MAX_CACHE_SIZE && !HasKey(es, c)
    ensures PutEntry(Evict(es), c, v) == es[1..] + [Entry(c, v)]
    ensures !HasKey(PutEntry(Evict(es), c, v), es[0].key)
    ensures |PutEntry(Evict(es), c, v)| == MAX_CACHE_SIZE
  {
    assert !HasKey(es[1..], c) by {
      forall i | 0 <= i < |es[1..]|
        ensures es[1..][i].key != c
      {
        assert es[1..][i] == es[i + 1];
      }
    }
    PutEntryAppends(es[1..], c, v);
    var r := es[1..] + [Entry(c, v)];
    forall i | 0 <= i < |r|
      ensures r[i].key != es[0].key
    {
      if i < |r| - 1 {
        assert r[i] == es[i + 1];
      } else {
        assert es[0] in es;
      }
    }
  }

  /** A hit moves the class to the most recently used place and keeps the
      invariant. */
  lemma TouchKeepsInvariant(es: seq<Entry>, i: nat)
    requires CacheInvariant(es) && i < |es|
    ensures CacheInvariant(RemoveKey(es, es[i].key) + [es[i]])
  {
    var k := es[i].key;
    RemoveKeyMeans(es, k);
    assert HasKey(es, k);
    var r := RemoveKey(es, k);
    var s := r + [es[i]];
    forall a, b | 0 <= a < b < |s|
      ensures s[a].key != s[b].key
    {
      if b == |r| {
        assert s[a] in r;
      } else {
        assert s[a] == r[a] && s[b] == r[b];
      }
    }
    forall a | 0 <= a < |s|
      ensures s[a].fields == ScanFields(s[a].key)
    {
      if a < |r| {
        assert s[a] in r;
        var j :| 0 <= j < |es| && es[j] == s[a];
      }
    }
  }

  /** The entries a scan of `c` may add: `c` itself and its superclasses. */
  predicate AddsOnlyChain(before: seq<Entry>, after: seq<Entry>, c: ClassDecl) {
    forall e :: e in after ==> e in before || e.key == c || Ancestor(e.key, c)
  }

  /** A class that was not cached is still not cached after its superclass
      chain has been scanned, nor after an eviction. */
  lemma MissStaysMissing(before: seq<Entry>, after: seq<Entry>, c: ClassDecl)
    requires !HasKey(before, c)
    requires c.superclass.Some? ==> AddsOnlyChain(before, after, c.superclass.value)
    requires c.superclass.None? ==> after == before
    ensures !HasKey(Evict(after), c)
    ensures AddsOnlyChain(before, Evict(after), c)
  {
    forall i | 0 <= i < |Evict(after)|
      ensures Evict(after)[i] in after
    {
      if |after| == MAX_CACHE_SIZE {
        assert Evict(after)[i] == after[i + 1];
      }
    }
    forall i | 0 <= i < |Evict(after)|
      ensures Evict(after)[i].key != c
    {
      var e := Evict(after)[i];
      if e !in before {
        var sup := c.superclass.value;
        if e.key != sup {
          AncestorShallower(e.key, sup);
        }
      }
    }
  }

  /** Putting the class itself adds no other class. */
  lemma PutAddsOnlyChain(before: seq<Entry>, es: seq<Entry>, c: ClassDecl, v: seq<FieldSpec>)
    requires KeysDistinct(es) && AddsOnlyChain(before, es, c)
    ensures AddsOnlyChain(before, PutEntry(es, c, v), c)
  {
    PutEntryMembers(es, c, v);
  }

  /** `LinkedHashMap.get` of a present key. */
  function Lookup(es: seq<Entry>, k: ClassDecl): seq<FieldSpec>
    requires HasKey(es, k)
  {
    if es[0].key == k then es[0].fields
    else
      assert HasKey(es[1..], k) by {
        var i :| 0 <= i < |es| && es[i].key == k;
        assert es[1..][i - 1] == es[i];
      }
      Lookup(es[1..], k)
  }

  /** The stored entry of a cached class holds what a scan yields. */
  lemma {:induction false} HitIsScan(es: seq<Entry>, c: ClassDecl) returns (i: nat)
    requires Consistent(es) && HasKey(es, c)
    ensures i < |es| && es[i] == Entry(c, Lookup(es, c))
    ensures Lookup(es, c) == ScanFields(c)
  {
    if es[0].key == c {
      i := 0;
    } else {
      assert HasKey(es[1..], c) by {
        var j :| 0 <= j < |es| && es[j].key == c;
        assert es[1..][j - 1] == es[j];
      }
      var k := HitIsScan(es[1..], c);
      i := k + 1;
    }
  }

  /** The loop over the declared fields: the specification of every
      annotated field is appended, in declaration order. */
  method AppendAnnotated(prefix: seq<FieldSpec>, fields: seq<FieldDecl>) returns (result: seq<FieldSpec>)
    ensures result == prefix + AnnotatedFields(fields)
  {
    result := prefix;
    var n := 0;
    while n < |fields|
      invariant n <= |fields|
      invariant result == prefix + AnnotatedFields(fields[..n])
    {
      assert fields[..n + 1][..n] == fields[..n];
      var field := fields[n];
      if field.annotation.Some? {
        result := result + [FieldSpec(field.name, field.annotation.value)];
      }
      n := n + 1;
    }
    assert fields[..n] == fields;
  }

  /** `DatabaseFieldScanner`'s static cache. */
  class FieldScanner {
    var cache: seq<Entry>

    constructor ()
      ensures cache == []
    {
      cache := [];
    }

    /** `getDatabaseFields`: a cached class is moved to the most recently
      used place and its stored fields returned; otherwise the superclass
      is scanned first (through this cache), the annotated declared fields
      are appended, and the result is put, evicting the least recently used
      class when the cache is full. Either way the result is what a scan
      yields and the class ends up most recently used. */
    method GetDatabaseFields(clazz: ClassDecl) returns (result: seq<FieldSpec>)
      requires CacheInvariant(cache)
      modifies this
      ensures CacheInvariant(cache)
      ensures result == ScanFields(clazz)
      ensures |cache| > 0 && cache[|cache| - 1] == Entry(clazz, result)
      ensures old(HasKey(cache, clazz)) ==> cache == RemoveKey(old(cache), clazz) + [Entry(clazz, result)]
      ensures AddsOnlyChain(old(cache), cache, clazz)
      decreases clazz
    {
      if HasKey(cache, clazz) {
        ghost var i := HitIsScan(cache, clazz);
        TouchKeepsInvariant(cache, i);
        RemoveKeyMeans(cache, clazz);
        result := Lookup(cache, clazz);
        cache := RemoveKey(cache, clazz) + [Entry(clazz, result)];
        return;
      }
      ghost var before := cache;
      result := [];
      if clazz.superclass.Some? {
        result := GetDatabaseFields(clazz.superclass.value);
      }
      MissStaysMissing(before, cache, clazz);
      result := AppendAnnotated(result, clazz.fields);
      PutKeepsInvariant(cache, clazz);
      PutAddsOnlyChain(before, Evict(cache), clazz, result);
      cache := PutEntry(Evict(cache), clazz, result);
    }

    /** `getDatabaseFieldNames`: the names of the scanned fields, in the same
      order and of the same number. */
    method GetDatabaseFieldNames(clazz: ClassDecl) returns (names: seq<string>)
      requires CacheInvariant(cache)
      modifies this
      ensures CacheInvariant(cache)
      ensures |names| == |ScanFields(clazz)|
      ensures forall i :: 0 <= i < |names| ==> names[i] == ScanFields(clazz)[i].name
    {
      var fields := GetDatabaseFields(clazz);
      names := [];
      var n := 0;
      while n < |fields|
        invariant n <= |fields| && |names| == n
        invariant forall i :: 0 <= i < n ==> names[i] == fields[i].name
      {
        names := names + [fields[n].name];
        n := n + 1;
      }
    }
  }
}
