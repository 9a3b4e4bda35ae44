/** The database the library talks to (the global `dbx` handle), as an explicit
    object holding the three tables: rbacitem, rbacitemchild and rbacassignment. */
module Store {
  import opened Types

  class Db {
    var items: map<string, Row>
    var edges: seq<Edge>
    var assignments: seq<Assignment>

    /** What the schema guarantees: (parent, child) and (item_name, user_id) are
        unique keys, and no edge links an item to itself (AddItemChild refuses it). */
    ghost predicate Valid()
      reads this
    {
      && NoDup(edges)
      && (forall e :: e in edges ==> e.parent != e.child)
      && NoDup(assignments)
    }

    /** The current contents of the tables. */
    function Snapshot(): Tables
      reads this
    {
      Tables(items, edges, assignments)
    }

    /** An empty database. */
    constructor ()
      ensures Valid()
      ensures items == map[] && edges == [] && assignments == []
    {
      items, edges, assignments := map[], [], [];
    }
  }

  /** `SELECT item_name FROM rbacassignment WHERE user_id = ?`: the items assigned
      to `user`, in table order. */
  function AssignedTo(rows: seq<Assignment>, user: string): seq<string>
    decreases |rows|
  {
    if rows == [] then []
    else
      var last := rows[|rows| - 1];
      AssignedTo(rows[..|rows| - 1], user) + (if last.user == user then [last.item] else [])
  }

  /** The read returns exactly the items of the user's rows. */
  lemma {:induction false} AssignedToMembers(rows: seq<Assignment>, user: string, x: string)
    decreases |rows|
    ensures x in AssignedTo(rows, user) <==> Assignment(x, user) in rows
  {
    if rows != [] {
      var init := rows[..|rows| - 1];
      AssignedToMembers(init, user, x);
      assert rows == init + [rows[|rows| - 1]];
    }
  }

  /** With the unique key on (item_name, user_id), no item is listed twice. */
  lemma {:induction false} AssignedToNoDup(rows: seq<Assignment>, user: string)
    requires NoDup(rows)
    decreases |rows|
    ensures NoDup(AssignedTo(rows, user))
  {
    if rows != [] {
      var init := rows[..|rows| - 1];
      var last := rows[|rows| - 1];
      assert NoDup(init);
      AssignedToNoDup(init, user);
      if last.user == user {
        AssignedToMembers(init, user, last.item);
        assert last !in init;
      }
    }
  }
}
