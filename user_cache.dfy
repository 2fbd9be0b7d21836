/** The in-memory cache of the users of the authentication database: the
    list of users in load order and three indexes on it, by user ID, by
    email address and by the local part of the email address (the text
    before the first `@`). Users are compared by value, as the database
    objects are. */
module UserCache {
  import opened Wrappers
  import opened JavaText
  import opened DatabaseListenerRepository

  /** A user record: the two keys, the pending email address and the
      remaining fields as one value. */
  datatype User = User(userid: string, email: string, emailPendingVerification: Option<string>, details: string)

  /** `email.indexOf('@')` for an address that has one. */
  function AtIndex(email: string): (i: nat)
    requires '@' in email
    ensures i < |email| && email[i] == '@' && '@' !in email[..i]
  {
    if email[0] == '@' then 0
    else
      assert '@' in email[1..];
      var j := AtIndex(email[1..]);
      assert email[..j + 1] == [email[0]] + email[1..][..j];
      j + 1
  }

  /** `email.substring(0, email.indexOf('@'))`. */
  function EmailLocal(email: string): (local: string)
    requires '@' in email
    ensures |local| < |email| && '@' !in local && email[..|local|] == local && email[|local|] == '@'
  {
    email[..AtIndex(email)]
  }

  /** `List.indexOf`: the first position of `x`, or -1. */
  function IndexOf(s: seq<User>, x: User): (i: int)
    ensures -1 <= i < |s|
    ensures i < 0 <==> x !in s
    ensures 0 <= i ==> s[i] == x && x !in s[..i]
  {
    if |s| == 0 then -1
    else if s[0] == x then 0
    else
      var j := IndexOf(s[1..], x);
      assert s == [s[0]] + s[1..];
      if j < 0 then -1
      else
        assert s[..j + 1] == [s[0]] + s[1..][..j];
        j + 1
  }

  /** `remove(indexOf(prev))` followed by `add(index, user)`: the user takes
      the place of the first occurrence of `prev`. */
  function Replaced(s: seq<User>, prev: User, user: User): seq<User>
    requires prev in s
  {
    s[IndexOf(s, prev) := user]
  }

  /** No user occurs twice. */
  ghost predicate NoDuplicates(s: seq<User>) {
    forall i, j :: 0 <= i < j < |s| ==> s[i] != s[j]
  }

  /** In a list without duplicates, replacing `prev` by a user that is not in
      the list (or is `prev` itself) swaps the two members and keeps the
      list free of duplicates. */
  lemma ReplacedMembers(s: seq<User>, prev: User, user: User)
    requires NoDuplicates(s) && prev in s
    requires user in s ==> user == prev
    ensures |Replaced(s, prev, user)| == |s|
    ensures forall x :: x in Replaced(s, prev, user) <==> x == user || (x in s && x != prev)
    ensures NoDuplicates(Replaced(s, prev, user))
  {
    var i := IndexOf(s, prev);
    var r := Replaced(s, prev, user);
    forall x
      ensures x in r <==> x == user || (x in s && x != prev)
    {
      assert r[i] == user;
      if x in s && x != prev {
        var k :| 0 <= k < |s| && s[k] == x;
        assert r[k] == x;
      }
      if x in r && x != user {
        var k :| 0 <= k < |r| && r[k] == x;
        assert k != i && s[k] == x;
      }
    }
  }

  /** Removing a member of a list without duplicates takes out exactly that
      member. */
  lemma {:induction false} RemoveOneMembers(s: seq<User>, x: User)
    requires NoDuplicates(s)
    ensures forall y :: y in RemoveOne(s, x) <==> y in s && y != x
    ensures NoDuplicates(RemoveOne(s, x))
  {
    if |s| > 0 {
      var t := s[1..];
      assert s == [s[0]] + t;
      RemoveOneMembers(t, x);
      if s[0] != x {
        var r := RemoveOne(s, x);
        assert r == [s[0]] + RemoveOne(t, x);
        assert s[0] !in t by {
          forall k | 0 <= k < |t| ensures t[k] != s[0] {
            assert t[k] == s[k + 1];
          }
        }
        forall i, j | 0 <= i < j < |r| ensures r[i] != r[j] {
          if i == 0 {
            assert r[j] in RemoveOne(t, x);
          } else {
            assert r[i] == RemoveOne(t, x)[i - 1] && r[j] == RemoveOne(t, x)[j - 1];
          }
        }
      }
    }
  }

  /** The list of users and its three indexes. */
  datatype CacheState = CacheState(users: seq<User>, useridMap: map<string, User>,
                                   emailMap: map<string, User>, emailLocalMap: map<string, seq<User>>)

  const EmptyCache := CacheState([], map[], map[], map[])

  /** Every cached email address has an `@`. */
  ghost predicate EmailsHaveAt(users: seq<User>) {
    forall u :: u in users ==> '@' in u.email
  }

  /** No user occurs twice, and no two users share a user ID or an email
      address. */
  ghost predicate KeysUnique(users: seq<User>) {
    && NoDuplicates(users)
    && (forall a, b :: a in users && b in users && a.userid == b.userid ==> a == b)
    && (forall a, b :: a in users && b in users && a.email == b.email ==> a == b)
  }

  /** `useridMap` maps exactly the user IDs of the users to those users. */
  ghost predicate UseridIndexed(users: seq<User>, m: map<string, User>) {
    && (forall id :: id in m ==> m[id] in users && m[id].userid == id)
    && (forall u :: u in users ==> u.userid in m)
  }

  /** `emailMap` maps exactly the email addresses of the users to those
      users. */
  ghost predicate EmailIndexed(users: seq<User>, m: map<string, User>) {
    && (forall e :: e in m ==> m[e] in users && m[e].email == e)
    && (forall u :: u in users ==> u.email in m)
  }

  /** `emailLocalMap` maps every local part in use to the non-empty list of
      the users with that local part, each once. */
  ghost predicate LocalIndexed(users: seq<User>, m: map<string, seq<User>>) {
    && (forall l :: l in m ==>
          |m[l]| > 0 && NoDuplicates(m[l]) &&
          forall u :: u in m[l] ==> u in users && '@' in u.email && EmailLocal(u.email) == l)
    && (forall u :: u in users && '@' in u.email ==> EmailLocal(u.email) in m && u in m[EmailLocal(u.email)])
  }

  /** The invariant of the cache. */
  ghost predicate Valid(st: CacheState) {
    && EmailsHaveAt(st.users)
    && KeysUnique(st.users)
    && UseridIndexed(st.users, st.useridMap)
    && EmailIndexed(st.users, st.emailMap)
    && LocalIndexed(st.users, st.emailLocalMap)
  }

  /** `addUser`: appended to the list and entered in the three indexes. */
  function WithUser(st: CacheState, user: User): CacheState
    requires '@' in user.email
  {
    CacheState(st.users + [user], st.useridMap[user.userid := user], st.emailMap[user.email := user],
               Added(st.emailLocalMap, EmailLocal(user.email), user))
  }

  /** What `updateUser` needs to run without an exception: the user ID is
      cached, the cached user is in the list, both email addresses have an
      `@`, the old local part is indexed and, when the local part stays, its
      list holds the cached user. */
  ghost predicate UpdateDefined(st: CacheState, user: User) {
    && user.userid in st.useridMap
    && var prev := st.useridMap[user.userid];
    && prev in st.users
    && '@' in user.email && '@' in prev.email
    && EmailLocal(prev.email) in st.emailLocalMap
    && (EmailLocal(user.email) == EmailLocal(prev.email) ==> prev in st.emailLocalMap[EmailLocal(prev.email)])
  }

  /** `updateUser`: the user replaces the cached user with the same user ID,
      in the list, in the ID index and in the email index (where the old
      address is dropped), and in the local-part index (in place when the
      local part is unchanged, otherwise moved to the end of the list of the
      new local part). */
  function WithUpdate(st: CacheState, user: User): CacheState
    requires UpdateDefined(st, user)
  {
    var prev := st.useridMap[user.userid];
    var local := EmailLocal(user.email);
    var prevLocal := EmailLocal(prev.email);
    var emails := if user.email != prev.email then st.emailMap - {prev.email} else st.emailMap;
    var locals :=
      if local == prevLocal then st.emailLocalMap[local := Replaced(st.emailLocalMap[local], prev, user)]
      else Added(Removed(st.emailLocalMap, prevLocal, prev), local, user);
    CacheState(Replaced(st.users, prev, user), st.useridMap[user.userid := user], emails[user.email := user], locals)
  }

  /** What `deleteUser` needs: a cached user's address has an `@` and its
      local part is indexed. */
  ghost predicate DeleteDefined(st: CacheState, userid: string) {
    userid in st.useridMap ==>
      '@' in st.useridMap[userid].email && EmailLocal(st.useridMap[userid].email) in st.emailLocalMap
  }

  /** `deleteUser`: no change for an unknown user ID; otherwise the user
      leaves the list and the three indexes, and an emptied local-part list
      loses its entry. */
  function WithoutUser(st: CacheState, userid: string): CacheState
    requires DeleteDefined(st, userid)
  {
    if userid !in st.useridMap then st
    else
      var u := st.useridMap[userid];
      CacheState(RemoveOne(st.users, u), st.useridMap - {userid}, st.emailMap - {u.email},
                 Removed(st.emailLocalMap, EmailLocal(u.email), u))
  }

  /** The cache loaded from the database: the users added one by one. */
  function Loaded(loaded: seq<User>): CacheState
    requires forall u :: u in loaded ==> '@' in u.email
  {
    if |loaded| == 0 then EmptyCache
    else WithUser(Loaded(loaded[..|loaded| - 1]), loaded[|loaded| - 1])
  }

  /** The users that a filter accepts, in cache order. */
  function Filter(users: seq<User>, matches: User -> bool): (r: seq<User>)
    ensures forall u :: u in r <==> u in users && matches(u)
    ensures |r| <= |users|
  {
    if |users| == 0 then []
    else
      var rest := Filter(users[..|users| - 1], matches);
      var last := users[|users| - 1];
      assert users == users[..|users| - 1] + [last];
      if matches(last) then rest + [last] else rest
  }

  /** Appending a user that is not in a list without duplicates keeps it
      without duplicates. */
  lemma AppendNoDuplicates(s: seq<User>, x: User)
    requires NoDuplicates(s) && x !in s
    ensures NoDuplicates(s + [x])
  {
    var r := s + [x];
    forall i, j | 0 <= i < j < |r| ensures r[i] != r[j] {
      assert r[i] == s[i];
      if j == |s| {
        assert r[i] in s;
      } else {
        assert r[j] == s[j];
      }
    }
  }

  /** The local-part index stays exact when `user` joins the users and is
      appended to the list of its local part. */
  lemma LocalsAfterAdd(users: seq<User>, m: map<string, seq<User>>, user: User)
    requires LocalIndexed(users, m) && '@' in user.email && user !in users
    ensures LocalIndexed(users + [user], Added(m, EmailLocal(user.email), user))
  {
    var users' := users + [user];
    var l := EmailLocal(user.email);
    var m' := Added(m, l, user);
    AddedMeans(m, l, user);
    assert user !in ListOf(m, l);
    AppendNoDuplicates(ListOf(m, l), user);
    forall k | k in m' ensures forall u :: u in m'[k] ==> u in users' && '@' in u.email && EmailLocal(u.email) == k {
      assert ListOf(m', k) == m'[k];
    }
  }

  /** Appending a user with a new user ID and a new email address keeps the
      keys unique. */
  lemma KeysUniqueAfterAdd(users: seq<User>, ids: map<string, User>, emails: map<string, User>, user: User)
    requires KeysUnique(users) && UseridIndexed(users, ids) && EmailIndexed(users, emails)
    requires user.userid !in ids && user.email !in emails
    ensures KeysUnique(users + [user])
  {
    var users' := users + [user];
    assert user !in users;
    AppendNoDuplicates(users, user);
    forall a, b | a in users' && b in users' && (a.userid == b.userid || a.email == b.email)
      ensures a == b
    {
      assert a in users || a == user;
      assert b in users || b == user;
    }
  }

  /** Appending a user and entering it under its user ID keeps the ID index
      exact. */
  lemma UseridIndexAfterAdd(users: seq<User>, m: map<string, User>, user: User)
    requires UseridIndexed(users, m)
    ensures UseridIndexed(users + [user], m[user.userid := user])
  {
    var users' := users + [user];
    var m' := m[user.userid := user];
    forall id | id in m' ensures m'[id] in users' && m'[id].userid == id {
      if id != user.userid {
        assert m'[id] == m[id] && m[id] in users;
      }
    }
    forall u | u in users' ensures u.userid in m' {
      assert u in users || u == user;
    }
  }

  /** Appending a user and entering it under its email address keeps the
      email index exact. */
  lemma EmailIndexAfterAdd(users: seq<User>, m: map<string, User>, user: User)
    requires EmailIndexed(users, m)
    ensures EmailIndexed(users + [user], m[user.email := user])
  {
    var users' := users + [user];
    var m' := m[user.email := user];
    forall e | e in m' ensures m'[e] in users' && m'[e].email == e {
      if e != user.email {
        assert m'[e] == m[e] && m[e] in users;
      }
    }
    forall u | u in users' ensures u.email in m' {
      assert u in users || u == user;
    }
  }

  /** Adding a user whose user ID and email address are new keeps the cache
      valid, puts the user at the end of the list and in every index. */
  lemma AddKeepsValid(st: CacheState, user: User)
    requires Valid(st) && '@' in user.email
    requires user.userid !in st.useridMap && user.email !in st.emailMap
    ensures Valid(WithUser(st, user))
    ensures WithUser(st, user).users == st.users + [user]
    ensures var st' := WithUser(st, user);
            st'.useridMap[user.userid] == user && st'.emailMap[user.email] == user &&
            user in st'.emailLocalMap[EmailLocal(user.email)]
  {
    var st' := WithUser(st, user);
    KeysUniqueAfterAdd(st.users, st.useridMap, st.emailMap, user);
    UseridIndexAfterAdd(st.users, st.useridMap, user);
    EmailIndexAfterAdd(st.users, st.emailMap, user);
    assert user !in st.users;
    LocalsAfterAdd(st.users, st.emailLocalMap, user);
  }

  /** A user whose keys no listed user has is in neither key index. */
  lemma KeysNotIndexed(users: seq<User>, ids: map<string, User>, emails: map<string, User>, user: User)
    requires UseridIndexed(users, ids) && EmailIndexed(users, emails)
    requires forall u :: u in users ==> u.userid != user.userid && u.email != user.email
    ensures user.userid !in ids && user.email !in emails
  {
  }

  /** The cache loaded from users with distinct user IDs and email addresses
      is valid and lists them in load order. */
  lemma {:induction false} LoadedValid(loaded: seq<User>)
    requires forall u :: u in loaded ==> '@' in u.email
    requires forall i, j :: 0 <= i < j < |loaded| ==>
               loaded[i].userid != loaded[j].userid && loaded[i].email != loaded[j].email
    ensures Valid(Loaded(loaded)) && Loaded(loaded).users == loaded
  {
    if |loaded| > 0 {
      var prefix := loaded[..|loaded| - 1];
      var user := loaded[|loaded| - 1];
      assert prefix + [user] == loaded;
      LoadedValid(prefix);
      var st := Loaded(prefix);
      forall k | 0 <= k < |prefix|
        ensures prefix[k].userid != user.userid && prefix[k].email != user.email
      {
        assert prefix[k] == loaded[k];
      }
      KeysNotIndexed(st.users, st.useridMap, st.emailMap, user);
      AddKeepsValid(st, user);
      assert Loaded(loaded) == WithUser(st, user);
    }
  }

  /** The local-part index depends on the users only through which users
      there are. */
  lemma LocalsSameMembers(users: seq<User>, users': seq<User>, m: map<string, seq<User>>)
    requires LocalIndexed(users, m)
    requires forall x :: x in users' <==> x in users
    ensures LocalIndexed(users', m)
  {
  }

  /** Removing a listed user from the list and from the list of its local
      part, dropping an emptied entry, keeps the local-part index exact. */
  lemma LocalsAfterRemove(users: seq<User>, m: map<string, seq<User>>, u: User)
    requires LocalIndexed(users, m) && NoDuplicates(users) && u in users && '@' in u.email
    ensures LocalIndexed(RemoveOne(users, u), Removed(m, EmailLocal(u.email), u))
  {
    var l := EmailLocal(u.email);
    var users' := RemoveOne(users, u);
    var m' := Removed(m, l, u);
    RemoveOneMembers(users, u);
    RemoveOneMembers(m[l], u);
    RemovedMeans(m, l, u);
    assert NoEmptyLists(m);
    RemovedDropsEmptied(m, l, u);
    forall k | k in m'
      ensures NoDuplicates(m'[k]) && forall x :: x in m'[k] ==> x in users' && '@' in x.email && EmailLocal(x.email) == k
    {
      assert ListOf(m', k) == m'[k];
    }
    forall x | x in users' && '@' in x.email
      ensures EmailLocal(x.email) in m' && x in m'[EmailLocal(x.email)]
    {
      var k := EmailLocal(x.email);
      assert x in ListOf(m', k);
    }
  }

  /** A list without duplicates drawn from users with unique keys has
      unique keys. */
  lemma KeysUniqueSubset(users: seq<User>, users': seq<User>)
    requires KeysUnique(users) && NoDuplicates(users')
    requires forall x :: x in users' ==> x in users
    ensures KeysUnique(users')
  {
  }

  /** Removing a listed user and its user ID keeps the ID index exact. */
  lemma UseridIndexAfterRemove(users: seq<User>, users': seq<User>, ids: map<string, User>, u: User)
    requires KeysUnique(users) && UseridIndexed(users, ids) && u in users
    requires forall x :: x in users' <==> x in users && x != u
    ensures UseridIndexed(users', ids - {u.userid})
  {
    forall id | id in ids - {u.userid} ensures ids[id] in users' {
      assert ids[id] in users && ids[id] != u;
    }
    forall x | x in users' ensures x.userid != u.userid {
      assert x in users && x != u;
    }
  }

  /** Removing a listed user and its address keeps the email index exact. */
  lemma EmailIndexAfterRemove(users: seq<User>, users': seq<User>, emails: map<string, User>, u: User)
    requires KeysUnique(users) && EmailIndexed(users, emails) && u in users
    requires forall x :: x in users' <==> x in users && x != u
    ensures EmailIndexed(users', emails - {u.email})
  {
    forall e | e in emails - {u.email} ensures emails[e] in users' {
      assert emails[e] in users && emails[e] != u;
    }
    forall x | x in users' ensures x.email != u.email {
      assert x in users && x != u;
    }
  }

  /** `users'` is `users` with `prev` swapped for `user`. */
  ghost predicate Swapped(users: seq<User>, users': seq<User>, prev: User, user: User) {
    forall x :: x in users' <==> x == user || (x in users && x != prev)
  }

  /** Swapping in a user with the same user ID and an email address of its
      own keeps the keys unique. */
  lemma KeysUniqueAfterSwap(users: seq<User>, users': seq<User>, prev: User, user: User)
    requires KeysUnique(users) && NoDuplicates(users') && prev in users && Swapped(users, users', prev, user)
    requires prev.userid == user.userid
    requires forall u :: u in users && u.email == user.email ==> u == prev
    ensures KeysUnique(users')
  {
    assert forall x :: x in users' && x != user ==> x in users && x.userid != user.userid && x.email != user.email;
    forall a, b | a in users' && b in users' && (a.userid == b.userid || a.email == b.email)
      ensures a == b
    {
      if a != user && b != user {
        assert a in users && b in users;
      }
    }
  }

  /** Swapping in the user under the same user ID keeps the ID index exact. */
  lemma UseridIndexAfterSwap(users: seq<User>, users': seq<User>, m: map<string, User>, prev: User, user: User)
    requires UseridIndexed(users, m) && Swapped(users, users', prev, user)
    requires user.userid in m && m[user.userid] == prev
    ensures UseridIndexed(users', m[user.userid := user])
  {
    var m' := m[user.userid := user];
    forall id | id in m' ensures m'[id] in users' && m'[id].userid == id {
      if id != user.userid {
        assert m'[id] == m[id] && m[id] in users && m[id] != prev;
      }
    }
  }

  /** Moving the entry of the old address to the new one keeps the email
      index exact. */
  lemma EmailIndexAfterSwap(users: seq<User>, users': seq<User>, m: map<string, User>, prev: User, user: User)
    requires EmailIndexed(users, m) && Swapped(users, users', prev, user) && prev in users
    requires forall u :: u in users && u.email == prev.email ==> u == prev
    ensures var emails := if user.email != prev.email then m - {prev.email} else m;
            EmailIndexed(users', emails[user.email := user])
  {
    var emails := if user.email != prev.email then m - {prev.email} else m;
    var m' := emails[user.email := user];
    forall e | e in m' ensures m'[e] in users' && m'[e].email == e {
      if e != user.email {
        assert m'[e] == m[e] && m[e] in users && m[e] != prev;
      }
    }
    forall x | x in users' ensures x.email in m' {
      if x != user {
        assert x in users && x != prev && x.email != prev.email;
      }
    }
  }

  /** Replacing the user in the list of an unchanged local part keeps the
      local-part index exact. */
  lemma LocalsAfterSwapInPlace(users: seq<User>, users': seq<User>, m: map<string, seq<User>>, prev: User, user: User)
    requires LocalIndexed(users, m) && Swapped(users, users', prev, user) && prev in users
    requires user in users ==> user == prev
    requires '@' in user.email && '@' in prev.email && EmailLocal(user.email) == EmailLocal(prev.email)
    ensures EmailLocal(prev.email) in m && prev in m[EmailLocal(prev.email)]
    ensures var l := EmailLocal(user.email);
            LocalIndexed(users', m[l := Replaced(m[l], prev, user)])
  {
    var l := EmailLocal(user.email);
    ReplacedMembers(m[l], prev, user);
  }

  /** Moving the user from the list of its old local part to the end of the
      list of its new one keeps the local-part index exact. */
  lemma LocalsAfterSwapMoved(users: seq<User>, users': seq<User>, m: map<string, seq<User>>, prev: User, user: User)
    requires LocalIndexed(users, m) && NoDuplicates(users) && Swapped(users, users', prev, user) && prev in users
    requires user in users ==> user == prev
    requires '@' in user.email && '@' in prev.email && EmailLocal(user.email) != EmailLocal(prev.email)
    ensures LocalIndexed(users', Added(Removed(m, EmailLocal(prev.email), prev), EmailLocal(user.email), user))
  {
    var rest := RemoveOne(users, prev);
    RemoveOneMembers(users, prev);
    LocalsAfterRemove(users, m, prev);
    LocalsAfterAdd(rest, Removed(m, EmailLocal(prev.email), prev), user);
    LocalsSameMembers(rest + [user], users', Added(Removed(m, EmailLocal(prev.email), prev), EmailLocal(user.email), user));
  }

  /** Updating a cached user to a record with an email address that no
      other user has keeps the cache valid; the number of users stays and
      the record takes the old one's place in every index. */
  lemma UpdateKeepsValid(st: CacheState, user: User)
    requires Valid(st) && user.userid in st.useridMap && '@' in user.email
    requires user.email in st.emailMap ==> st.emailMap[user.email].userid == user.userid
    ensures UpdateDefined(st, user)
    ensures Valid(WithUpdate(st, user))
    ensures var st' := WithUpdate(st, user);
            |st'.users| == |st.users| && st'.useridMap[user.userid] == user && st'.emailMap[user.email] == user
  {
    var prev := st.useridMap[user.userid];
    var users' := Replaced(st.users, prev, user);
    assert prev in st.users && '@' in prev.email;
    assert user in st.users ==> user == prev;
    ReplacedMembers(st.users, prev, user);
    forall u | u in st.users && u.email == user.email ensures u == prev {
      assert st.emailMap[user.email] == u;
    }
    KeysUniqueAfterSwap(st.users, users', prev, user);
    UseridIndexAfterSwap(st.users, users', st.useridMap, prev, user);
    EmailIndexAfterSwap(st.users, users', st.emailMap, prev, user);
    if EmailLocal(user.email) == EmailLocal(prev.email) {
      LocalsAfterSwapInPlace(st.users, users', st.emailLocalMap, prev, user);
    } else {
      LocalsAfterSwapMoved(st.users, users', st.emailLocalMap, prev, user);
    }
  }

  /** In a valid cache an update keeps every position of the list: the
      user with the updated ID is replaced there and no other user moves. */
  lemma UpdateInPlace(st: CacheState, user: User)
    requires Valid(st) && user.userid in st.useridMap && '@' in user.email
    ensures UpdateDefined(st, user)
    ensures var users' := WithUpdate(st, user).users;
            |users'| == |st.users| &&
            forall k :: 0 <= k < |st.users| ==>
              users'[k] == (if st.users[k].userid == user.userid then user else st.users[k])
  {
    var prev := st.useridMap[user.userid];
    assert prev in st.users && '@' in prev.email;
    var i := IndexOf(st.users, prev);
    forall k | 0 <= k < |st.users| ensures st.users[k].userid == user.userid <==> k == i {
      if st.users[k].userid == user.userid {
        assert st.users[k] == prev;
      }
    }
  }

  /** Deleting keeps the cache valid and takes out exactly the user with the
      ID, if there is one; an unknown ID changes nothing. */
  lemma DeleteKeepsValid(st: CacheState, userid: string)
    requires Valid(st)
    ensures DeleteDefined(st, userid)
    ensures Valid(WithoutUser(st, userid))
    ensures forall u :: u in WithoutUser(st, userid).users <==> u in st.users && u.userid != userid
    ensures |WithoutUser(st, userid).users| == |st.users| - (if userid in st.useridMap then 1 else 0)
    ensures userid !in st.useridMap ==> WithoutUser(st, userid) == st
  {
    if userid in st.useridMap {
      var u := st.useridMap[userid];
      assert u in st.users && '@' in u.email;
      RemoveOneMembers(st.users, u);
      RemoveOneMeans(st.users, u);
      var users' := RemoveOne(st.users, u);
      KeysUniqueSubset(st.users, users');
      UseridIndexAfterRemove(st.users, users', st.useridMap, u);
      EmailIndexAfterRemove(st.users, users', st.emailMap, u);
      LocalsAfterRemove(st.users, st.emailLocalMap, u);
    }
  }

  /** `emailExists`: the address is a user's email address or the address
      waiting for verification. */
  predicate UsesEmail(u: User, email: string) {
    u.email == email || u.emailPendingVerification == Some(email)
  }

  /** `filter == null || filter.matches(user)`. */
  predicate Accepts(filter: Option<User -> bool>, u: User) {
    filter.None? || filter.value(u)
  }

  /** `UserCache`: the list and its indexes, updated together. */
  class UserCache {
    var users: seq<User>
    var useridMap: map<string, User>
    var emailMap: map<string, User>
    var emailLocalMap: map<string, seq<User>>

    function State(): CacheState
      reads this
    {
      CacheState(users, useridMap, emailMap, emailLocalMap)
    }

    /** The cache of the users read from the database, added in order. */
    constructor (loaded: seq<User>)
      requires forall u :: u in loaded ==> '@' in u.email
      ensures State() == Loaded(loaded)
    {
      users := [];
      useridMap := map[];
      emailMap := map[];
      emailLocalMap := map[];
      new;
      var n := 0;
      while n < |loaded|
        invariant 0 <= n <= |loaded|
        invariant State() == Loaded(loaded[..n])
      {
        assert loaded[..n + 1][..n] == loaded[..n];
        AddUser(loaded[n]);
        n := n + 1;
      }
      assert loaded[..n] == loaded;
    }

    /** `createUser` after the database insert: `addUser`. */
    method AddUser(user: User)
      requires '@' in user.email
      modifies this
      ensures State() == WithUser(old(State()), user)
    {
      users := users + [user];
      useridMap := useridMap[user.userid := user];
      var local := EmailLocal(user.email);
      emailMap := emailMap[user.email := user];
      var list := if local in emailLocalMap then emailLocalMap[local] else [];
      emailLocalMap := emailLocalMap[local := list + [user]];
    }

    /** `updateUser` after the database update. */
    method UpdateUser(user: User)
      requires UpdateDefined(State(), user)
      modifies this
      ensures State() == WithUpdate(old(State()), user)
    {
      var prev := useridMap[user.userid];
      var index := IndexOf(users, prev);
      users := users[index := user];
      useridMap := useridMap[user.userid := user];
      var prevLocal := EmailLocal(prev.email);
      var local := EmailLocal(user.email);
      if user.email != prev.email {
        emailMap := emailMap - {prev.email};
      }
      emailMap := emailMap[user.email := user];
      if local == prevLocal {
        var list := emailLocalMap[local];
        index := IndexOf(list, prev);
        emailLocalMap := emailLocalMap[local := list[index := user]];
      } else {
        var prevList := RemoveOne(emailLocalMap[prevLocal], prev);
        if |prevList| == 0 {
          emailLocalMap := emailLocalMap - {prevLocal};
        } else {
          emailLocalMap := emailLocalMap[prevLocal := prevList];
        }
        var list := if local in emailLocalMap then emailLocalMap[local] else [];
        emailLocalMap := emailLocalMap[local := list + [user]];
      }
    }

    /** `deleteUser` after the database delete. */
    method DeleteUser(userid: string)
      requires DeleteDefined(State(), userid)
      modifies this
      ensures State() == WithoutUser(old(State()), userid)
    {
      if userid !in useridMap {
        return;
      }
      var user := useridMap[userid];
      users := RemoveOne(users, user);
      useridMap := useridMap - {userid};
      var local := EmailLocal(user.email);
      emailMap := emailMap - {user.email};
      var list := RemoveOne(emailLocalMap[local], user);
      if |list| == 0 {
        emailLocalMap := emailLocalMap - {local};
      } else {
        emailLocalMap := emailLocalMap[local := list];
      }
    }

    /** `findByUserid`: the cached user with the ID, or null. */
    method FindByUserid(userid: string) returns (r: Option<User>)
      ensures r.Some? <==> userid in useridMap
      ensures Valid(State()) ==> (r.Some? <==> exists u :: u in users && u.userid == userid)
      ensures r.Some? && Valid(State()) ==> r.value in users && r.value.userid == userid
    {
      if userid in useridMap {
        r := Some(useridMap[userid]);
      } else {
        r := None;
      }
    }

    /** `findByEmail`: the cached user with the lower-cased address, or
      null. */
    method FindByEmail(email: string) returns (r: Option<User>)
      ensures r.Some? <==> ToLower(email) in emailMap
      ensures Valid(State()) ==> (r.Some? <==> exists u :: u in users && u.email == ToLower(email))
      ensures r.Some? && Valid(State()) ==> r.value in users && r.value.email == ToLower(email)
    {
      var lower := ToLower(email);
      if lower in emailMap {
        r := Some(emailMap[lower]);
      } else {
        r := None;
      }
    }

    /** `find`: by user ID from protocol version 6.0.0 on, by email address
      before. */
    method Find(atLeastV6: bool, user: string) returns (r: Option<User>)
      ensures atLeastV6 ==> (r.Some? <==> user in useridMap)
      ensures !atLeastV6 ==> (r.Some? <==> ToLower(user) in emailMap)
      ensures r.Some? && Valid(State()) ==>
                r.value in users && (if atLeastV6 then r.value.userid == user else r.value.email == ToLower(user))
    {
      if atLeastV6 {
        r := FindByUserid(user);
      } else {
        r := FindByEmail(user);
      }
    }

    /** `emailExists`: whether some user has the lower-cased address as
      email address or as address waiting for verification. */
    method EmailExists(email: string) returns (r: bool)
      ensures r <==> exists u :: u in users && UsesEmail(u, ToLower(email))
    {
      var lower := ToLower(email);
      var n := 0;
      while n < |users|
        invariant 0 <= n <= |users|
        invariant forall k :: 0 <= k < n ==> !UsesEmail(users[k], lower)
      {
        if users[n].email == lower || users[n].emailPendingVerification == Some(lower) {
          assert users[n] in users && UsesEmail(users[n], lower);
          return true;
        }
        n := n + 1;
      }
      return false;
    }

    /** `findByEmailLocal`: the users whose local part is the lower-cased
      argument, in the order they joined that local part. */
    method FindByEmailLocal(emailLocal: string) returns (r: seq<User>)
      ensures r == ListOf(emailLocalMap, ToLower(emailLocal))
      ensures Valid(State()) ==>
                forall u :: u in r <==> u in users && EmailLocal(u.email) == ToLower(emailLocal)
    {
      var lower := ToLower(emailLocal);
      if lower !in emailLocalMap {
        return [];
      }
      r := emailLocalMap[lower];
    }

    /** `getUsers` without the final sort: the users the filter accepts, in
      cache order. */
    method GetUsers(filter: Option<User -> bool>) returns (r: seq<User>)
      ensures r == Filter(users, u => Accepts(filter, u))
      ensures forall u :: u in r <==> u in users && Accepts(filter, u)
    {
      r := [];
      var n := 0;
      while n < |users|
        invariant 0 <= n <= |users|
        invariant r == Filter(users[..n], u => Accepts(filter, u))
      {
        assert users[..n + 1][..n] == users[..n];
        if filter.None? || filter.value(users[n]) {
          r := r + [users[n]];
        }
        n := n + 1;
      }
      assert users[..n] == users;
    }

    /** `getCount`. */
    method GetCount() returns (n: nat)
      ensures n == |users|
    {
      n := |users|;
    }
  }
}
