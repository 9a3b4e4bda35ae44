/** Query and BatchQuery (rbac.go:135-188): the items directly assigned to one
    user, or to each of several users, optionally restricted to one item type.
    No hierarchy expansion happens here. */
module Query {
  import opened Types
  import opened Store

  /** The type filter: TypeAny adds no `rbacitem.type = ?` condition. */
  predicate KindMatches(filter: ItemType, kind: ItemType)
  {
    filter == TypeAny || kind == filter
  }

  /** An assignment row survives the join with rbacitem and the type filter. */
  predicate Joined(items: map<string, Row>, kind: ItemType, a: Assignment)
  {
    a.item in items && KindMatches(kind, items[a.item].kind)
  }

  /** The names Query selects for `user` from the assignment rows `rows`, in row order. */
  function Selected(items: map<string, Row>, rows: seq<Assignment>, kind: ItemType, user: string): seq<string>
    decreases |rows|
  {
    if rows == [] then []
    else
      var a := rows[|rows| - 1];
      Selected(items, rows[..|rows| - 1], kind, user) + (if a.user == user && Joined(items, kind, a) then [a.item] else [])
  }

  /** Query (rbac.go:135-151): the names, or the store's error. With no match
      the result is an empty list, not an error. */
  function Query(t: Tables, kind: ItemType, user: string, fault: Option<string>): (r: Result<seq<string>>)
    ensures r.Failure? <==> fault.Some?
    ensures r.Failure? ==> r.error == StoreError(fault.value)
  {
    match fault
    case Some(msg) => Failure(StoreError(msg))
    case None => Success(Selected(t.items, t.assignments, kind, user))
  }

  lemma {:induction false} SelectedMembers(items: map<string, Row>, rows: seq<Assignment>, kind: ItemType, user: string, x: string)
    decreases |rows|
    ensures x in Selected(items, rows, kind, user)
        <==> Assignment(x, user) in rows && x in items && KindMatches(kind, items[x].kind)
  {
    if rows != [] {
      var init := rows[..|rows| - 1];
      SelectedMembers(items, init, kind, user, x);
      assert rows == init + [rows[|rows| - 1]];
    }
  }

  lemma {:induction false} SelectedNoDup(items: map<string, Row>, rows: seq<Assignment>, kind: ItemType, user: string)
    requires NoDup(rows)
    decreases |rows|
    ensures NoDup(Selected(items, rows, kind, user))
  {
    if rows != [] {
      var init := rows[..|rows| - 1];
      var a := rows[|rows| - 1];
      assert NoDup(init);
      SelectedNoDup(items, init, kind, user);
      if a.user == user && Joined(items, kind, a) {
        SelectedMembers(items, init, kind, user, a.item);
        assert a !in init;
      }
    }
  }

  /** Query returns exactly the stored items of the requested type (any type for
      TypeAny) that are assigned to the user, each once. */
  lemma QueryExact(t: Tables, kind: ItemType, user: string)
    requires NoDup(t.assignments)
    ensures Query(t, kind, user, None).Success?
    ensures forall x :: (x in Query(t, kind, user, None).value
        <==> Assignment(x, user) in t.assignments && x in t.items && KindMatches(kind, t.items[x].kind))
    ensures NoDup(Query(t, kind, user, None).value)
    ensures (forall x :: !(Assignment(x, user) in t.assignments && x in t.items && KindMatches(kind, t.items[x].kind)))
            ==> Query(t, kind, user, None).value == []
  {
    forall x ensures x in Selected(t.items, t.assignments, kind, user)
        <==> Assignment(x, user) in t.assignments && x in t.items && KindMatches(kind, t.items[x].kind) {
      SelectedMembers(t.items, t.assignments, kind, user, x);
    }
    SelectedNoDup(t.items, t.assignments, kind, user);
    var rows := Selected(t.items, t.assignments, kind, user);
    if rows != [] {
      assert rows[0] in rows;
    }
  }

  /** The (user_id, name) rows of the batch query, as assignment rows, in table order. */
  function BatchRows(items: map<string, Row>, rows: seq<Assignment>, kind: ItemType, users: seq<string>)
    : (r: seq<Assignment>)
    decreases |rows|
    ensures forall a :: a in r ==> a.user in users
  {
    if rows == [] then []
    else
      var a := rows[|rows| - 1];
      BatchRows(items, rows[..|rows| - 1], kind, users) + (if a.user in users && Joined(items, kind, a) then [a] else [])
  }

  /** Grouping the batch rows by one requested user gives that user's Query rows. */
  lemma {:induction false} BatchRowsOfUser(items: map<string, Row>, rows: seq<Assignment>, kind: ItemType,
                                           users: seq<string>, user: string)
    requires user in users
    decreases |rows|
    ensures AssignedTo(BatchRows(items, rows, kind, users), user) == Selected(items, rows, kind, user)
  {
    if rows != [] {
      var init := rows[..|rows| - 1];
      var a := rows[|rows| - 1];
      BatchRowsOfUser(items, init, kind, users, user);
      var before := BatchRows(items, init, kind, users);
      var added := if a.user in users && Joined(items, kind, a) then [a] else [];
      if added == [] {
        assert BatchRows(items, rows, kind, users) == before;
      } else {
        var all := before + added;
        assert all[..|all| - 1] == before;
      }
    }
  }

  /** Index i is the last position of its user in `users`. */
  predicate IsLast(users: seq<string>, i: int)
    requires 0 <= i < |users|
  {
    forall j :: i < j < |users| ==> users[j] != users[i]
  }

  /** entries[i] holds the names of the rows of users[i] when i is the last index
      of that user, and nothing otherwise. */
  ghost predicate Grouped(entries: seq<seq<string>>, users: seq<string>, rows: seq<Assignment>)
  {
    && |entries| == |users|
    && forall i :: 0 <= i < |users| ==>
         entries[i] == (if IsLast(users, i) then AssignedTo(rows, users[i]) else [])
  }

  /** Appending the name of row n at the last index of its user extends the
      grouping of the first n rows to the first n + 1. */
  lemma GroupedStep(entries: seq<seq<string>>, users: seq<string>, rows: seq<Assignment>, n: int, index: int)
    requires 0 <= n < |rows| && Grouped(entries, users, rows[..n])
    requires 0 <= index < |users| && users[index] == rows[n].user && IsLast(users, index)
    ensures Grouped(entries[index := entries[index] + [rows[n].item]], users, rows[..n + 1])
  {
    var all := rows[..n + 1];
    assert all[..|all| - 1] == rows[..n];
    forall i | 0 <= i < |users| && i != index && IsLast(users, i)
      ensures users[i] != rows[n].user
    {
      if i < index {
        assert users[index] != users[i];
      } else {
        assert users[i] != users[index];
      }
    }
  }

  /** What BatchQuery promises of its entries: the entry at the last index of a
      user is exactly what Query returns for that user; every other entry is empty. */
  ghost predicate Answers(t: Tables, kind: ItemType, users: seq<string>, entries: seq<seq<string>>)
  {
    && |entries| == |users|
    && forall i :: 0 <= i < |users| ==>
         if IsLast(users, i) then Query(t, kind, users[i], None) == Success(entries[i]) else entries[i] == []
  }

  /** Grouped batch rows hold, at the last index of each user, what Query returns
      for that user. */
  lemma GroupedAnswers(t: Tables, kind: ItemType, users: seq<string>, entries: seq<seq<string>>)
    requires Grouped(entries, users, BatchRows(t.items, t.assignments, kind, users))
    ensures Answers(t, kind, users, entries)
  {
    forall i | 0 <= i < |users| && IsLast(users, i)
      ensures entries[i] == Selected(t.items, t.assignments, kind, users[i])
    {
      BatchRowsOfUser(t.items, t.assignments, kind, users, users[i]);
    }
  }

  /** iMap sends every requested user, and nothing else, to the last index at
      which that user occurs. */
  ghost predicate LastIndexes(iMap: map<string, int>, users: seq<string>)
  {
    && (forall u :: u in iMap <==> u in users)
    && (forall u :: u in iMap ==> 0 <= iMap[u] < |users| && users[iMap[u]] == u && IsLast(users, iMap[u]))
  }

  /** With no user requested twice, entry i is exactly what Query returns for users[i]. */
  lemma AnswersDistinct(t: Tables, kind: ItemType, users: seq<string>, entries: seq<seq<string>>)
    requires NoDup(users) && Answers(t, kind, users, entries)
    ensures forall i :: 0 <= i < |users| ==> Query(t, kind, users[i], None) == Success(entries[i])
  {
    forall i | 0 <= i < |users| ensures IsLast(users, i) {
    }
  }

  /** The name -> index map of BatchQuery (rbac.go:159-162): a later index of a
      repeated user overwrites an earlier one. */
  method LastIndexMap(users: seq<string>) returns (iMap: map<string, int>)
    ensures LastIndexes(iMap, users)
  {
    iMap := map[];
    var index := 0;
    while index < |users|
      invariant 0 <= index <= |users|
      invariant forall u :: u in iMap <==> u in users[..index]
      invariant forall u :: u in iMap ==>
                  0 <= iMap[u] < index && users[iMap[u]] == u
                  && forall j :: iMap[u] < j < index ==> users[j] != u
    {
      iMap := iMap[users[index] := index];
      index := index + 1;
    }
    assert users[..index] == users;
  }

  /** The user of any batch row has its last index in iMap. */
  lemma LastIndexAt(iMap: map<string, int>, users: seq<string>, rows: seq<Assignment>, k: int)
    requires LastIndexes(iMap, users)
    requires forall a :: a in rows ==> a.user in users
    requires 0 <= k < |rows|
    ensures rows[k].user in iMap
    ensures 0 <= iMap[rows[k].user] < |users| && users[iMap[rows[k].user]] == rows[k].user
    ensures IsLast(users, iMap[rows[k].user])
  {
    assert rows[k] in rows;
  }

  /** The scan loop of BatchQuery (rbac.go:163, 175-183): each row's name is
      appended to the entry at the index iMap gives its user. */
  method GroupRows(rows: seq<Assignment>, users: seq<string>, iMap: map<string, int>)
    returns (entries: seq<seq<string>>)
    requires LastIndexes(iMap, users)
    requires forall a :: a in rows ==> a.user in users
    ensures Grouped(entries, users, rows)
  {
    var rv := new seq<string>[|users|](_ => []);
    ghost var filled: seq<seq<string>> := rv[..];
    var k := 0;
    while k < |rows|
      invariant 0 <= k <= |rows|
      invariant rv[..] == filled
      invariant Grouped(filled, users, rows[..k])
    {
      var user, role := rows[k].user, rows[k].item;
      LastIndexAt(iMap, users, rows, k);
      var index := iMap[user];
      GroupedStep(filled, users, rows, k, index);
      filled := filled[index := filled[index] + [role]];
      rv[index] := rv[index] + [role];
      assert rv[..] == filled;
      k := k + 1;
    }
    assert rows[..k] == rows;
    return rv[..];
  }

  /** BatchQuery (rbac.go:153-188): one entry per requested index. The name ->
      index map keeps the last index of a repeated user, so only that entry is
      filled; every other entry, and that of a user without matches, is empty.
      No user at all means no query and an empty result. */
  method BatchQuery(t: Tables, kind: ItemType, users: seq<string>, fault: Option<string>)
    returns (r: Result<seq<seq<string>>>)
    ensures users == [] ==> r == Success([])
    ensures users != [] ==> (r.Failure? <==> fault.Some?)
    ensures r.Failure? ==> r.error == StoreError(fault.value)
    ensures r.Success? ==> |r.value| == |users| && Answers(t, kind, users, r.value)
  {
    if |users| == 0 {
      return Success([]);
    }
    var iMap := LastIndexMap(users);
    if fault.Some? {
      return Failure(StoreError(fault.value));
    }
    var rows := BatchRows(t.items, t.assignments, kind, users);
    var entries := GroupRows(rows, users, iMap);
    GroupedAnswers(t, kind, users, entries);
    return Success(entries);
  }
}
