/** The direct writes of rbac.go: granting and revoking an item for a user, and
    linking and unlinking a child item. Each is one statement against the store;
    a statement the store refuses changes nothing. */
module Rbac {
  import opened Types
  import opened Store

  /** `DELETE ... LIMIT 1`: drop the first row equal to `a`. */
  function RemoveFirst<T(==,!new)>(rows: seq<T>, a: T): (r: seq<T>)
    ensures a !in rows ==> r == rows
    ensures a in rows ==> |r| == |rows| - 1
    ensures forall x :: x in r ==> x in rows
    ensures forall x :: x in rows && x != a ==> x in r
  {
    if rows == [] then []
    else if rows[0] == a then rows[1..]
    else [rows[0]] + RemoveFirst(rows[1..], a)
  }

  /** Exactly one occurrence of `a` is dropped, if there is one: as multisets,
      the new table is the old one minus `a`. */
  lemma {:induction false} RemoveFirstCount<T(!new)>(rows: seq<T>, a: T)
    ensures multiset(RemoveFirst(rows, a)) == multiset(rows) - multiset{a}
  {
    if rows != [] {
      assert rows == [rows[0]] + rows[1..];
      if rows[0] != a {
        RemoveFirstCount(rows[1..], a);
        assert RemoveFirst(rows, a) == [rows[0]] + RemoveFirst(rows[1..], a);
      }
    }
  }

  lemma {:induction false} RemoveFirstNoDup<T(!new)>(rows: seq<T>, a: T)
    requires NoDup(rows)
    ensures NoDup(RemoveFirst(rows, a))
    ensures a !in RemoveFirst(rows, a)
  {
    if rows != [] && rows[0] != a {
      RemoveFirstNoDup(rows[1..], a);
      assert NoDup(rows[1..]) by {
        forall i, j | 0 <= i < j < |rows[1..]| ensures rows[1..][i] != rows[1..][j] {
          assert rows[1..][i] == rows[i + 1] && rows[1..][j] == rows[j + 1];
        }
      }
      assert rows[0] !in rows[1..];
    }
  }

  /** `DELETE` without a limit: drop every row equal to `a`. */
  function RemoveAll<T(==,!new)>(rows: seq<T>, a: T): (r: seq<T>)
    ensures forall x :: x in r <==> x in rows && x != a
    ensures |r| <= |rows|
  {
    if rows == [] then []
    else (if rows[0] == a then [] else [rows[0]]) + RemoveAll(rows[1..], a)
  }

  lemma {:induction false} RemoveAllNoDup<T(!new)>(rows: seq<T>, a: T)
    requires NoDup(rows)
    ensures NoDup(RemoveAll(rows, a))
  {
    if rows != [] {
      assert NoDup(rows[1..]) by {
        forall i, j | 0 <= i < j < |rows[1..]| ensures rows[1..][i] != rows[1..][j] {
          assert rows[1..][i] == rows[i + 1] && rows[1..][j] == rows[j + 1];
        }
      }
      RemoveAllNoDup(rows[1..], a);
      assert rows[0] !in rows[1..];
    }
  }

  /** Assign (rbac.go:47-50): `INSERT IGNORE`, so granting an item a user already
      holds is not an error and adds no second row. */
  method Assign(db: Db, item: string, user: string, fault: Option<string>) returns (err: Option<Error>)
    requires db.Valid()
    modifies db
    ensures db.Valid()
    ensures db.items == old(db.items) && db.edges == old(db.edges)
    ensures fault.Some? ==> err == Some(StoreError(fault.value)) && db.assignments == old(db.assignments)
    ensures fault.None? ==> err == None && Assignment(item, user) in db.assignments
    ensures fault.None? && Assignment(item, user) in old(db.assignments) ==> db.assignments == old(db.assignments)
    ensures fault.None? && Assignment(item, user) !in old(db.assignments) ==>
              db.assignments == old(db.assignments) + [Assignment(item, user)]
  {
    if fault.Some? {
      return Some(StoreError(fault.value));
    }
    var a := Assignment(item, user);
    if a !in db.assignments {
      db.assignments := db.assignments + [a];
    }
    return None;
  }

  /** Revoke (rbac.go:52-55): deletes at most one matching row. */
  method Revoke(db: Db, item: string, user: string, fault: Option<string>) returns (err: Option<Error>)
    requires db.Valid()
    modifies db
    ensures db.Valid()
    ensures db.items == old(db.items) && db.edges == old(db.edges)
    ensures fault.Some? ==> err == Some(StoreError(fault.value)) && db.assignments == old(db.assignments)
    ensures fault.None? ==> err == None && db.assignments == RemoveFirst(old(db.assignments), Assignment(item, user))
    ensures Assignment(item, user) !in db.assignments || fault.Some?
    ensures |old(db.assignments)| - |db.assignments| <= 1
  {
    if fault.Some? {
      return Some(StoreError(fault.value));
    }
    RemoveFirstNoDup(db.assignments, Assignment(item, user));
    db.assignments := RemoveFirst(db.assignments, Assignment(item, user));
    return None;
  }

  /** `SELECT COUNT(*) FROM rbacitem WHERE name = ? OR name = ?`: names are unique. */
  function CountNamed(items: map<string, Row>, item: string, child: string): (n: nat)
    ensures n == 2 <==> item != child && item in items && child in items
    ensures n <= 2
  {
    (if item in items then 1 else 0) + (if child != item && child in items then 1 else 0)
  }

  /** AddItemChild (rbac.go:57-77): both items must exist (so a self link fails
      the count check before the self check is reached); `INSERT IGNORE` makes
      re-adding an existing edge a no-op. */
  method AddItemChild(db: Db, item: string, child: string, countFault: Option<string>, insertFault: Option<string>)
    returns (err: Option<Error>)
    requires db.Valid()
    modifies db
    ensures db.Valid()
    ensures db.items == old(db.items) && db.assignments == old(db.assignments)
    ensures err.None? <==> countFault.None? && insertFault.None?
                            && item != child && item in db.items && child in db.items
    ensures err.Some? ==> db.edges == old(db.edges)
    ensures countFault.Some? ==> err == Some(StoreError(countFault.value))
    ensures countFault.None? && CountNamed(db.items, item, child) != 2 ==> err == Some(ItemOrChildNotFound)
    ensures item == child && countFault.None? ==> err == Some(ItemOrChildNotFound)
    ensures countFault.None? && CountNamed(db.items, item, child) == 2 && insertFault.Some? ==>
              err == Some(StoreError(insertFault.value))
    ensures err.None? && Edge(item, child) in old(db.edges) ==> db.edges == old(db.edges)
    ensures err.None? && Edge(item, child) !in old(db.edges) ==> db.edges == old(db.edges) + [Edge(item, child)]
  {
    if countFault.Some? {
      return Some(StoreError(countFault.value));
    }
    var n := CountNamed(db.items, item, child);
    if n != 2 {
      return Some(ItemOrChildNotFound);
    }
    if item == child {
      return Some(SelfChild);
    }
    if insertFault.Some? {
      return Some(StoreError(insertFault.value));
    }
    var e := Edge(item, child);
    if e !in db.edges {
      db.edges := db.edges + [e];
    }
    return None;
  }

  /** RemoveItemChild (rbac.go:79-82): deletes the edge, if present. */
  method RemoveItemChild(db: Db, item: string, child: string, fault: Option<string>) returns (err: Option<Error>)
    requires db.Valid()
    modifies db
    ensures db.Valid()
    ensures db.items == old(db.items) && db.assignments == old(db.assignments)
    ensures fault.Some? ==> err == Some(StoreError(fault.value)) && db.edges == old(db.edges)
    ensures fault.None? ==> err == None && db.edges == RemoveAll(old(db.edges), Edge(item, child))
    ensures fault.None? ==> forall e :: e in db.edges <==> e in old(db.edges) && e != Edge(item, child)
  {
    if fault.Some? {
      return Some(StoreError(fault.value));
    }
    RemoveAllNoDup(db.edges, Edge(item, child));
    db.edges := RemoveAll(db.edges, Edge(item, child));
    return None;
  }
}
