/** Sync (rbac.go:190-254): make the items assigned to one user exactly the
    requested list, deleting and inserting only the difference, inside one
    transaction. */
module Reconcile {
  import opened Types
  import opened Store
  import opened Seqs

  /** The two loops of Sync (rbac.go:199-209): the names of `xs`, in order, for
      which IndexOfString finds no occurrence in `ys`. */
  method Difference(xs: seq<string>, ys: seq<string>) returns (d: seq<string>)
    ensures d == Minus(xs, ys)
    ensures forall x :: x in d <==> x in xs && x !in ys
  {
    d := [];
    var i := 0;
    while i < |xs|
      invariant 0 <= i <= |xs|
      invariant d == Minus(xs[..i], ys)
    {
      assert xs[..i + 1][..i] == xs[..i];
      if IndexOf(ys, xs[i]) == -1 {
        d := d + [xs[i]];
      }
      i := i + 1;
    }
    assert xs[..i] == xs;
    forall x ensures x in d <==> x in xs && x !in ys {
      MinusMembers(xs, ys, x);
    }
  }

  /** `DELETE FROM rbacassignment WHERE user_id = ? AND item_name IN (...)`. */
  function DropItems(rows: seq<Assignment>, user: string, names: seq<string>): seq<Assignment>
    decreases |rows|
  {
    if rows == [] then []
    else
      var a := rows[|rows| - 1];
      DropItems(rows[..|rows| - 1], user, names) + (if a.user == user && a.item in names then [] else [a])
  }

  /** The rows of the multi-row `INSERT INTO rbacassignment`, one per name. */
  function RowsFor(names: seq<string>, user: string): seq<Assignment>
    decreases |names|
  {
    if names == [] then []
    else RowsFor(names[..|names| - 1], user) + [Assignment(names[|names| - 1], user)]
  }

  lemma {:induction false} DropItemsMembers(rows: seq<Assignment>, user: string, names: seq<string>, a: Assignment)
    decreases |rows|
    ensures a in DropItems(rows, user, names) <==> a in rows && !(a.user == user && a.item in names)
  {
    if rows != [] {
      var init := rows[..|rows| - 1];
      DropItemsMembers(init, user, names, a);
      assert rows == init + [rows[|rows| - 1]];
    }
  }

  lemma {:induction false} DropItemsNoDup(rows: seq<Assignment>, user: string, names: seq<string>)
    requires NoDup(rows)
    decreases |rows|
    ensures NoDup(DropItems(rows, user, names))
  {
    if rows != [] {
      var init := rows[..|rows| - 1];
      var a := rows[|rows| - 1];
      assert NoDup(init);
      DropItemsNoDup(init, user, names);
      DropItemsMembers(init, user, names, a);
      assert a !in init;
    }
  }

  /** A DELETE with no names removes nothing. */
  lemma {:induction false} DropNothing(rows: seq<Assignment>, user: string)
    decreases |rows|
    ensures DropItems(rows, user, []) == rows
  {
    if rows != [] {
      DropNothing(rows[..|rows| - 1], user);
      assert rows == rows[..|rows| - 1] + [rows[|rows| - 1]];
    }
  }

  lemma {:induction false} RowsForMembers(names: seq<string>, user: string, a: Assignment)
    decreases |names|
    ensures a in RowsFor(names, user) <==> a.user == user && a.item in names
  {
    if names != [] {
      var init := names[..|names| - 1];
      RowsForMembers(init, user, a);
      assert names == init + [names[|names| - 1]];
    }
  }

  lemma {:induction false} RowsForNoDup(names: seq<string>, user: string)
    requires NoDup(names)
    decreases |names|
    ensures NoDup(RowsFor(names, user))
  {
    if names != [] {
      var init := names[..|names| - 1];
      var x := names[|names| - 1];
      assert NoDup(init);
      RowsForNoDup(init, user);
      RowsForMembers(init, user, Assignment(x, user));
      assert x !in init;
    }
  }

  /** Two duplicate-free lists with no common element concatenate to a duplicate-free list. */
  lemma NoDupConcat<T>(xs: seq<T>, ys: seq<T>)
    requires NoDup(xs) && NoDup(ys)
    requires forall x :: x in xs ==> x !in ys
    ensures NoDup(xs + ys)
  {
    var s := xs + ys;
    forall i, j | 0 <= i < j < |s| ensures s[i] != s[j] {
      if i < |xs| && |xs| <= j {
        assert s[i] in xs && s[j] == ys[j - |xs|];
      }
    }
  }

  /** The names Sync deletes for `user`. */
  function RemoveList(rows: seq<Assignment>, user: string, items: seq<string>): seq<string>
  {
    Minus(AssignedTo(rows, user), items)
  }

  /** The names Sync inserts for `user`. */
  function InsertList(rows: seq<Assignment>, user: string, items: seq<string>): seq<string>
  {
    Minus(items, AssignedTo(rows, user))
  }

  /** Nothing to delete and nothing to insert: Sync opens no transaction. */
  predicate InSync(rows: seq<Assignment>, user: string, items: seq<string>)
  {
    RemoveList(rows, user, items) == [] && InsertList(rows, user, items) == []
  }

  /** The table after a committed Sync transaction. */
  function Reconciled(rows: seq<Assignment>, user: string, items: seq<string>): seq<Assignment>
  {
    DropItems(rows, user, RemoveList(rows, user, items)) + RowsFor(InsertList(rows, user, items), user)
  }

  /** A user is in sync exactly when the items assigned to the user are the
      requested names (as sets: order and repetition do not matter). */
  lemma InSyncExact(rows: seq<Assignment>, user: string, items: seq<string>)
    ensures InSync(rows, user, items) <==> forall x :: Assignment(x, user) in rows <==> x in items
  {
    MinusEmptyBothWays(AssignedTo(rows, user), items);
    forall x ensures x in AssignedTo(rows, user) <==> Assignment(x, user) in rows {
      AssignedToMembers(rows, user, x);
    }
  }

  /** After the committed transaction the user holds exactly the requested names,
      every other user's rows are untouched, and the unique key still holds. */
  lemma ReconciledExact(rows: seq<Assignment>, user: string, items: seq<string>)
    requires NoDup(rows) && NoDup(InsertList(rows, user, items))
    ensures forall x :: Assignment(x, user) in Reconciled(rows, user, items) <==> x in items
    ensures forall a: Assignment :: a.user != user ==> (a in Reconciled(rows, user, items) <==> a in rows)
    ensures NoDup(Reconciled(rows, user, items))
  {
    var existing := AssignedTo(rows, user);
    var removed, inserted := RemoveList(rows, user, items), InsertList(rows, user, items);
    var kept, added := DropItems(rows, user, removed), RowsFor(inserted, user);
    forall a ensures a in kept <==> a in rows && !(a.user == user && a.item in removed) {
      DropItemsMembers(rows, user, removed, a);
    }
    forall a ensures a in added <==> a.user == user && a.item in inserted {
      RowsForMembers(inserted, user, a);
    }
    forall x ensures x in removed <==> x in existing && x !in items {
      MinusMembers(existing, items, x);
    }
    forall x ensures x in inserted <==> x in items && x !in existing {
      MinusMembers(items, existing, x);
    }
    forall x ensures x in existing <==> Assignment(x, user) in rows {
      AssignedToMembers(rows, user, x);
    }
    DropItemsNoDup(rows, user, removed);
    RowsForNoDup(inserted, user);
    NoDupConcat(kept, added);
  }

  /** A second Sync with the same list, after a committed one, writes nothing. */
  lemma SyncSettles(rows: seq<Assignment>, user: string, items: seq<string>)
    requires NoDup(rows) && NoDup(InsertList(rows, user, items))
    ensures InSync(Reconciled(rows, user, items), user, items)
  {
    ReconciledExact(rows, user, items);
    InSyncExact(Reconciled(rows, user, items), user, items);
  }

  /** The message the store reports for each statement of Sync, if it fails. */
  datatype SyncFaults = SyncFaults(
    read: Option<string>,      // SELECT item_name ... WHERE user_id = ?
    begin: Option<string>,     // dbx.Begin
    delete: Option<string>,    // the DELETE of removeList
    insert: Option<string>,    // the INSERT of insertList
    commit: Option<string>,    // tx.Commit
    rollback: Option<string>)  // tx.Rollback

  /** The error the rollback closure returns: the cause, joined with the
      rollback's own error when that fails too. */
  function RolledBack(cause: Error, rollbackFault: Option<string>): (e: Error)
    ensures rollbackFault.None? ==> e == cause
    ensures rollbackFault.Some? ==> e.WithRollback? && e.cause == cause && e.rollback == rollbackFault.value
  {
    match rollbackFault
    case None => cause
    case Some(msg) => WithRollback(cause, msg)
  }

  /** Every statement of the transaction succeeds: begin, the DELETE when there
      is something to remove, the INSERT (whose rows the unique key accepts)
      when there is something to add, and the commit. */
  predicate Commits(removeList: seq<string>, insertList: seq<string>, faults: SyncFaults)
  {
    && faults.begin.None?
    && (removeList == [] || faults.delete.None?)
    && (insertList == [] || (faults.insert.None? && NoDup(insertList)))
    && faults.commit.None?
  }

  /** The transaction of Sync (rbac.go:211-250), entered when there is something
      to delete or to insert. Its writes go to a staged copy of the table that
      becomes visible only at commit; a failed statement rolls the transaction
      back and leaves the table as it was. */
  method Transact(db: Db, user: string, items: seq<string>, removeList: seq<string>, insertList: seq<string>,
                  faults: SyncFaults) returns (err: Option<Error>)
    requires db.Valid()
    requires removeList == RemoveList(db.assignments, user, items) && insertList == InsertList(db.assignments, user, items)
    modifies db
    ensures db.Valid()
    ensures db.items == old(db.items) && db.edges == old(db.edges)
    ensures err.Some? ==> db.assignments == old(db.assignments)
    ensures err.None? ==> db.assignments == Reconciled(old(db.assignments), user, items)
    ensures err.None? ==> NoDup(insertList)
    ensures faults.begin.Some? ==> err == Some(StoreError(faults.begin.value))
    ensures faults.begin.None? && removeList != [] && faults.delete.Some? ==>
              err == Some(RolledBack(StoreError(faults.delete.value), faults.rollback))
    ensures (faults.begin.None? && (removeList == [] || faults.delete.None?)
             && faults.insert.None? && !NoDup(insertList)) ==>
              err == Some(RolledBack(DuplicateKey, faults.rollback))
    ensures (faults.begin.None? && (removeList == [] || faults.delete.None?)
             && insertList != [] && faults.insert.Some?) ==>
              err == Some(RolledBack(StoreError(faults.insert.value), faults.rollback))
    ensures (faults.begin.None? && (removeList == [] || faults.delete.None?)
             && (insertList == [] || (faults.insert.None? && NoDup(insertList))) && faults.commit.Some?) ==>
              err == Some(StoreError(faults.commit.value))
    ensures err.None? <==> Commits(removeList, insertList, faults)
  {
    if faults.begin.Some? {
      return Some(StoreError(faults.begin.value));
    }
    var staged := db.assignments;

    if |removeList| > 0 {
      if faults.delete.Some? {
        return Some(RolledBack(StoreError(faults.delete.value), faults.rollback));
      }
      staged := DropItems(staged, user, removeList);
    } else {
      DropNothing(db.assignments, user);
    }

    if |insertList| > 0 {
      if faults.insert.Some? {
        return Some(RolledBack(StoreError(faults.insert.value), faults.rollback));
      }
      if !NoDup(insertList) {
        // a name repeated in the request is inserted twice: the unique key refuses the statement
        return Some(RolledBack(DuplicateKey, faults.rollback));
      }
      staged := staged + RowsFor(insertList, user);
    }

    if faults.commit.Some? {
      return Some(StoreError(faults.commit.value));
    }
    assert staged == Reconciled(db.assignments, user, items);
    ReconciledExact(db.assignments, user, items);
    db.assignments := staged;
    return None;
  }

  /** Sync (rbac.go:190-254): read the user's items, compute both differences,
      and run the transaction only when one of them is non-empty. */
  method Sync(db: Db, user: string, items: seq<string>, faults: SyncFaults) returns (err: Option<Error>)
    requires db.Valid()
    modifies db
    ensures db.Valid()
    ensures db.items == old(db.items) && db.edges == old(db.edges)
    ensures err.Some? ==> db.assignments == old(db.assignments)
    ensures err.None? && !InSync(old(db.assignments), user, items) ==> db.assignments == Reconciled(old(db.assignments), user, items)
    ensures err.None? ==> forall x :: Assignment(x, user) in db.assignments <==> x in items
    ensures err.None? ==> forall a: Assignment :: a.user != user ==> (a in db.assignments <==> a in old(db.assignments))
    ensures faults.read.Some? ==> err == Some(StoreError(faults.read.value))
    ensures faults.read.None? && InSync(old(db.assignments), user, items) ==>
              err == None && db.assignments == old(db.assignments)
    ensures faults.read.None? && !InSync(old(db.assignments), user, items) && faults.begin.Some? ==>
              err == Some(StoreError(faults.begin.value))
    ensures (faults.read.None? && faults.begin.None? && RemoveList(old(db.assignments), user, items) != []
             && faults.delete.Some?) ==>
              err == Some(RolledBack(StoreError(faults.delete.value), faults.rollback))
    ensures (faults.read.None? && faults.begin.None?
             && (RemoveList(old(db.assignments), user, items) == [] || faults.delete.None?)
             && faults.insert.None? && !NoDup(InsertList(old(db.assignments), user, items))) ==>
              err == Some(RolledBack(DuplicateKey, faults.rollback))
    ensures (faults.read.None? && faults.begin.None?
             && (RemoveList(old(db.assignments), user, items) == [] || faults.delete.None?)
             && InsertList(old(db.assignments), user, items) != [] && faults.insert.Some?) ==>
              err == Some(RolledBack(StoreError(faults.insert.value), faults.rollback))
    ensures (faults.read.None? && !InSync(old(db.assignments), user, items) && faults.begin.None?
             && (RemoveList(old(db.assignments), user, items) == [] || faults.delete.None?)
             && (InsertList(old(db.assignments), user, items) == []
                 || (faults.insert.None? && NoDup(InsertList(old(db.assignments), user, items))))
             && faults.commit.Some?) ==>
              err == Some(StoreError(faults.commit.value))
    ensures err.None? <==>
              (faults.read.None?
               && (InSync(old(db.assignments), user, items)
                   || Commits(RemoveList(old(db.assignments), user, items),
                              InsertList(old(db.assignments), user, items), faults)))
    ensures (NoDup(items) && faults.read.None? && faults.begin.None? && faults.delete.None?
             && faults.insert.None? && faults.commit.None?) ==> err == None
  {
    if faults.read.Some? {
      return Some(StoreError(faults.read.value));
    }
    var existing := AssignedTo(db.assignments, user);

    var removeList := Difference(existing, items);
    var insertList := Difference(items, existing);
    if NoDup(items) {
      MinusNoDup(items, existing);
    }

    if |removeList| > 0 || |insertList| > 0 {
      ghost var rows := db.assignments;
      err := Transact(db, user, items, removeList, insertList, faults);
      if err.None? {
        ReconciledExact(rows, user, items);
      }
      return err;
    }
    InSyncExact(db.assignments, user, items);
    return None;
  }
}
