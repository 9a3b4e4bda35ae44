/** The tests of rbac_test.go replayed on the model, each against a fresh empty
    store with no store failure, plus concrete cases of the depth guard and of
    the Insert defect. */
module Scenarios {
  import opened Types
  import opened Store
  import Items
  import Rbac
  import Access
  import Query
  import Reconcile
  import Seqs

  // ----- helpers -----

  /** NewItem(kind, name).Insert() on a store that works. */
  method InsertNew(db: Db, kind: ItemType, name: string) returns (err: Option<Error>)
    requires db.Valid()
    modifies db
    ensures db.Valid()
    ensures db.edges == old(db.edges) && db.assignments == old(db.assignments)
    ensures name != "" && name !in old(db.items) ==> err == None && db.items == old(db.items)[name := Row(kind, "")]
  {
    var item := new Items.Item(kind, name);
    err := item.Insert(db, None, None);
  }

  /** ChildRows over a table with one more edge at the end. */
  lemma ChildRowsSnoc(items: map<string, Row>, edges: seq<Edge>, e: Edge, p: string)
    ensures Items.ChildRows(items, edges + [e], p)
         == Items.ChildRows(items, edges, p)
            + (if e.parent == p && e.child in items then [Items.StoredItem(items, e.child)] else [])
  {
    assert (edges + [e])[..|edges|] == edges;
  }

  /** Selected over a table with one more assignment at the end. */
  lemma SelectedSnoc(items: map<string, Row>, rows: seq<Assignment>, a: Assignment, kind: ItemType, user: string)
    ensures Query.Selected(items, rows + [a], kind, user)
         == Query.Selected(items, rows, kind, user) + (if a.user == user && Query.Joined(items, kind, a) then [a.item] else [])
  {
    assert (rows + [a])[..|rows|] == rows;
  }

  /** A list without repetitions has as many elements as the set of its elements. */
  lemma {:induction false} NoDupLength(s: seq<string>, xs: set<string>)
    requires NoDup(s) && forall x :: x in s <==> x in xs
    decreases |s|
    ensures |s| == |xs|
  {
    if s != [] {
      var init, last := s[..|s| - 1], s[|s| - 1];
      assert s == init + [last];
      assert NoDup(init) && last !in init;
      NoDupLength(init, xs - {last});
    }
  }

  // ----- TestCreateItem (rbac_test.go:12-22) -----

  /** The item reads back with the name and description it was inserted with. */
  method CreateItemReplay() returns (err: Option<Error>, loaded: Result<ItemData>)
    ensures err == None
    ensures loaded == Success(ItemData("test", TypeOperation, "desc"))
  {
    var db := new Db();
    var item := new Items.Item(TypeOperation, "test");
    item.description := "desc";
    err := item.Insert(db, None, None);
    loaded := Items.LoadItem(db.Snapshot(), "test", None);
  }

  // ----- the hierarchy of TestAddChild and TestCheckAccess -----

  /** The five item names the two tests use: role -> task -> {op, op2}, with
      task2 left unlinked. */
  datatype Names = Names(role: string, task: string, task2: string, op: string, op2: string)

  predicate Distinct(n: Names)
  {
    && n.role != "" && n.task != "" && n.task2 != "" && n.op != "" && n.op2 != ""
    && n.role != n.task && n.role != n.task2 && n.role != n.op && n.role != n.op2
    && n.task != n.task2 && n.task != n.op && n.task != n.op2
    && n.task2 != n.op && n.task2 != n.op2
    && n.op != n.op2
  }

  function HierarchyItems(n: Names): map<string, Row>
  {
    map[n.role := Row(TypeRole, ""), n.task := Row(TypeTask, ""), n.task2 := Row(TypeTask, ""),
        n.op := Row(TypeOperation, ""), n.op2 := Row(TypeOperation, "")]
  }

  function HierarchyEdges(n: Names): seq<Edge>
  {
    [Edge(n.task, n.op), Edge(n.task, n.op2), Edge(n.role, n.task)]
  }

  /** The child lists of the hierarchy, in link order. */
  lemma HierarchyKids(n: Names, p: string)
    requires Distinct(n)
    ensures p == n.role ==> Items.ChildRows(HierarchyItems(n), HierarchyEdges(n), p) == [ItemData(n.task, TypeTask, "")]
    ensures p == n.task ==> Items.ChildRows(HierarchyItems(n), HierarchyEdges(n), p)
                             == [ItemData(n.op, TypeOperation, ""), ItemData(n.op2, TypeOperation, "")]
    ensures p != n.role && p != n.task ==> Items.ChildRows(HierarchyItems(n), HierarchyEdges(n), p) == []
  {
    var items, e := HierarchyItems(n), HierarchyEdges(n);
    assert e == [] + [e[0]] + [e[1]] + [e[2]];
    ChildRowsSnoc(items, [], e[0], p);
    ChildRowsSnoc(items, [] + [e[0]], e[1], p);
    ChildRowsSnoc(items, [] + [e[0]] + [e[1]], e[2], p);
  }

  /** Inserting the five items, every insert succeeding. */
  method InsertHierarchy(n: Names) returns (db: Db)
    requires Distinct(n)
    ensures fresh(db) && db.Valid()
    ensures db.items == HierarchyItems(n) && db.edges == [] && db.assignments == []
  {
    db := new Db();
    var err := InsertNew(db, TypeRole, n.role);
    err := InsertNew(db, TypeTask, n.task);
    err := InsertNew(db, TypeTask, n.task2);
    assert db.items == map[n.role := Row(TypeRole, ""), n.task := Row(TypeTask, ""), n.task2 := Row(TypeTask, "")];
    err := InsertNew(db, TypeOperation, n.op);
    assert db.items == map[n.role := Row(TypeRole, ""), n.task := Row(TypeTask, ""), n.task2 := Row(TypeTask, ""),
                           n.op := Row(TypeOperation, "")];
    err := InsertNew(db, TypeOperation, n.op2);
  }

  /** Linking the hierarchy, every link succeeding. */
  method BuildHierarchy(n: Names) returns (db: Db)
    requires Distinct(n)
    ensures fresh(db) && db.Valid()
    ensures db.items == HierarchyItems(n) && db.edges == HierarchyEdges(n) && db.assignments == []
  {
    db := InsertHierarchy(n);
    var err := Rbac.AddItemChild(db, n.task, n.op, None, None);
    err := Rbac.AddItemChild(db, n.task, n.op2, None, None);
    assert db.edges == HierarchyEdges(n)[..2];
    err := Rbac.AddItemChild(db, n.role, n.task, None, None);
  }

  // ----- TestAddChild (rbac_test.go:24-59) -----

  /** The children of testrole and testtask, in link order, and none for a name
      that is no parent. */
  method AddChildReplay() returns (ofRole: Result<seq<ItemData>>, ofTask: Result<seq<ItemData>>,
                                   ofUnknown: Result<seq<ItemData>>)
    ensures ofRole == Success([ItemData("testtask", TypeTask, "")])
    ensures ofTask == Success([ItemData("testop", TypeOperation, ""), ItemData("testop2", TypeOperation, "")])
    ensures ofUnknown == Success([])
  {
    var n := Names("testrole", "testtask", "testtask2", "testop", "testop2");
    var db := BuildHierarchy(n);
    HierarchyKids(n, "testrole");
    HierarchyKids(n, "testtask");
    HierarchyKids(n, "testtask1");
    ofRole := Items.LoadChildren(db.Snapshot(), "testrole", None);
    ofTask := Items.LoadChildren(db.Snapshot(), "testtask", None);
    ofUnknown := Items.LoadChildren(db.Snapshot(), "testtask1", None);
  }

  // ----- TestCheckAccess (rbac_test.go:61-97) -----

  /** Below the task lie exactly the two operations, which have no children. */
  lemma TaskSubtree(n: Names, t: Tables, target: string)
    requires Distinct(n) && t.items == HierarchyItems(n) && t.edges == HierarchyEdges(n)
    ensures Access.CheckChildren(t, map[], 1, target, n.task) == Success(target == n.op || target == n.op2)
  {
    var none: map<string, string> := map[];
    var opData, op2Data := ItemData(n.op, TypeOperation, ""), ItemData(n.op2, TypeOperation, "");
    HierarchyKids(n, n.task);
    HierarchyKids(n, n.op);
    HierarchyKids(n, n.op2);
    assert FaultAt(none, n.op) == None && FaultAt(none, n.op2) == None && FaultAt(none, n.task) == None;
    assert Access.CheckChildren(t, none, 2, target, n.op) == Success(false);
    assert Access.CheckChildren(t, none, 2, target, n.op2) == Success(false);
    assert Access.CheckEach(t, none, 1, target, [op2Data]) == Success(target == n.op2);
    assert Access.CheckEach(t, none, 1, target, [opData, op2Data]) == Success(target == n.op || target == n.op2);
  }

  /** With only the role assigned, the user holds the role and everything below
      it, and nothing else: task2, which is not linked, is denied. */
  lemma HierarchyAccess(n: Names, user: string, target: string)
    requires Distinct(n)
    ensures Access.CheckAccess(Tables(HierarchyItems(n), HierarchyEdges(n), [Assignment(n.role, user)]),
                               None, map[], target, user)
         == Success(target == n.role || target == n.task || target == n.op || target == n.op2)
  {
    var t := Tables(HierarchyItems(n), HierarchyEdges(n), [Assignment(n.role, user)]);
    var none: map<string, string> := map[];
    HierarchyKids(n, n.role);
    TaskSubtree(n, t, target);
    assert FaultAt(none, n.role) == None;
    assert Access.CheckEach(t, none, 0, target, [ItemData(n.task, TypeTask, "")])
        == Success(target == n.task || target == n.op || target == n.op2);
    assert Access.CheckChildren(t, none, 0, target, n.role) == Success(target == n.task || target == n.op || target == n.op2);
    assert AssignedTo(t.assignments, user) == [n.role] by {
      assert t.assignments[..0] == [];
    }
    assert Access.CheckAssigned(t, none, target, [n.role][1..]) == Success(false);
    assert Access.CheckAssigned(t, none, target, [n.role])
        == Success(target == n.role || target == n.task || target == n.op || target == n.op2);
  }

  /** The user is denied checkrole before the grant; after it, holds checkrole,
      checktask, checkop and checkop2, and is still denied checktask2. */
  method CheckAccessReplay() returns (before: Result<bool>, after: seq<Result<bool>>)
    ensures before == Success(false)
    ensures after == [Success(true), Success(true), Success(false), Success(true), Success(true)]
  {
    var n := Names("checkrole", "checktask", "checktask2", "checkop", "checkop2");
    var db := BuildHierarchy(n);
    before := Access.CheckAccess(db.Snapshot(), None, map[], "checkrole", "u");
    var err := Rbac.Assign(db, "checkrole", "u", None);
    assert db.assignments == [Assignment("checkrole", "u")];
    var t := db.Snapshot();
    HierarchyAccess(n, "u", "checkrole");
    HierarchyAccess(n, "u", "checktask");
    HierarchyAccess(n, "u", "checktask2");
    HierarchyAccess(n, "u", "checkop");
    HierarchyAccess(n, "u", "checkop2");
    after := [Access.CheckAccess(t, None, map[], "checkrole", "u"), Access.CheckAccess(t, None, map[], "checktask", "u"),
              Access.CheckAccess(t, None, map[], "checktask2", "u"), Access.CheckAccess(t, None, map[], "checkop", "u"),
              Access.CheckAccess(t, None, map[], "checkop2", "u")];
  }

  // ----- TestQuery (rbac_test.go:129-153) -----

  const QueryItems := map["queryrole1" := Row(TypeRole, ""), "querytask1" := Row(TypeTask, ""),
                          "querytask2" := Row(TypeTask, "")]
  const QueryAssignments := [Assignment("queryrole1", "queryu"), Assignment("querytask1", "queryu"),
                             Assignment("querytask2", "queryu")]

  lemma QuerySelected(kind: ItemType)
    ensures kind == TypeAny ==>
              Query.Selected(QueryItems, QueryAssignments, kind, "queryu") == ["queryrole1", "querytask1", "querytask2"]
    ensures kind == TypeTask ==> Query.Selected(QueryItems, QueryAssignments, kind, "queryu") == ["querytask1", "querytask2"]
    ensures kind == TypeRole ==> Query.Selected(QueryItems, QueryAssignments, kind, "queryu") == ["queryrole1"]
  {
    var r := QueryAssignments;
    assert r == [] + [r[0]] + [r[1]] + [r[2]];
    SelectedSnoc(QueryItems, [], r[0], kind, "queryu");
    SelectedSnoc(QueryItems, [] + [r[0]], r[1], kind, "queryu");
    SelectedSnoc(QueryItems, [] + [r[0]] + [r[1]], r[2], kind, "queryu");
  }

  /** The items and grants of TestQuery, every call succeeding. */
  method QuerySetup() returns (db: Db)
    ensures fresh(db) && db.items == QueryItems && db.assignments == QueryAssignments
  {
    db := new Db();
    var err := InsertNew(db, TypeRole, "queryrole1");
    err := InsertNew(db, TypeTask, "querytask1");
    err := InsertNew(db, TypeTask, "querytask2");
    assert db.items == QueryItems;
    err := Rbac.Assign(db, "queryrole1", "queryu", None);
    err := Rbac.Assign(db, "querytask1", "queryu", None);
    err := Rbac.Assign(db, "querytask2", "queryu", None);
  }

  /** Any type lists all three assignments, in grant order; a type filter keeps
      only the items of that type. */
  method QueryReplay() returns (any: Result<seq<string>>, tasks: Result<seq<string>>, roles: Result<seq<string>>)
    ensures any == Success(["queryrole1", "querytask1", "querytask2"])
    ensures tasks == Success(["querytask1", "querytask2"])
    ensures roles == Success(["queryrole1"])
  {
    var db := QuerySetup();
    QuerySelected(TypeAny);
    QuerySelected(TypeTask);
    QuerySelected(TypeRole);
    any := Query.Query(db.Snapshot(), TypeAny, "queryu", None);
    tasks := Query.Query(db.Snapshot(), TypeTask, "queryu", None);
    roles := Query.Query(db.Snapshot(), TypeRole, "queryu", None);
  }

  // ----- TestBatchQuery (rbac_test.go:99-127) -----

  const BatchItems := map["batchrole1" := Row(TypeRole, ""), "batchrole2" := Row(TypeRole, ""),
                          "batchrole3" := Row(TypeRole, ""), "task" := Row(TypeTask, "")]
  const BatchAssignments := [Assignment("task", "u1"), Assignment("batchrole1", "u1"),
                             Assignment("batchrole2", "u2"), Assignment("batchrole3", "u2")]

  lemma BatchSelected(user: string)
    ensures user == "u1" ==> Query.Selected(BatchItems, BatchAssignments, TypeRole, user) == ["batchrole1"]
    ensures user == "u2" ==> Query.Selected(BatchItems, BatchAssignments, TypeRole, user) == ["batchrole2", "batchrole3"]
    ensures user == "u3" ==> Query.Selected(BatchItems, BatchAssignments, TypeRole, user) == []
  {
    var r := BatchAssignments;
    assert r == [] + [r[0]] + [r[1]] + [r[2]] + [r[3]];
    SelectedSnoc(BatchItems, [], r[0], TypeRole, user);
    SelectedSnoc(BatchItems, [] + [r[0]], r[1], TypeRole, user);
    SelectedSnoc(BatchItems, [] + [r[0]] + [r[1]], r[2], TypeRole, user);
    SelectedSnoc(BatchItems, [] + [r[0]] + [r[1]] + [r[2]], r[3], TypeRole, user);
  }

  /** The items of TestBatchQuery, every insert succeeding. */
  method BatchInserts() returns (db: Db)
    ensures fresh(db) && db.Valid()
    ensures db.items == BatchItems && db.edges == [] && db.assignments == []
  {
    db := new Db();
    var err := InsertNew(db, TypeRole, "batchrole1");
    err := InsertNew(db, TypeRole, "batchrole2");
    err := InsertNew(db, TypeRole, "batchrole3");
    err := InsertNew(db, TypeTask, "task");
  }

  /** The grants of TestBatchQuery, every call succeeding. */
  method BatchSetup() returns (db: Db)
    ensures fresh(db) && db.items == BatchItems && db.edges == [] && db.assignments == BatchAssignments
  {
    db := BatchInserts();
    var err := Rbac.Assign(db, "task", "u1", None);
    err := Rbac.Assign(db, "batchrole1", "u1", None);
    assert db.assignments == BatchAssignments[..2];
    err := Rbac.Assign(db, "batchrole2", "u2", None);
    assert db.assignments == BatchAssignments[..3];
    err := Rbac.Assign(db, "batchrole3", "u2", None);
  }

  /** The only entries BatchQuery may return on the tables of TestBatchQuery. */
  lemma BatchAnswers(entries: seq<seq<string>>)
    requires Query.Answers(Tables(BatchItems, [], BatchAssignments), TypeRole, ["u1", "u2", "u3"], entries)
    ensures entries == [["batchrole1"], ["batchrole2", "batchrole3"], []]
  {
    var t, users := Tables(BatchItems, [], BatchAssignments), ["u1", "u2", "u3"];
    Query.AnswersDistinct(t, TypeRole, users, entries);
    assert Query.Query(t, TypeRole, users[0], None) == Success(entries[0]);
    assert Query.Query(t, TypeRole, users[1], None) == Success(entries[1]);
    assert Query.Query(t, TypeRole, users[2], None) == Success(entries[2]);
    BatchSelected("u1");
    BatchSelected("u2");
    BatchSelected("u3");
  }

  /** One role for u1 (its task is filtered out), two for u2, none for u3. */
  method BatchQueryReplay() returns (r: Result<seq<seq<string>>>)
    ensures r == Success([["batchrole1"], ["batchrole2", "batchrole3"], []])
  {
    var db := BatchSetup();
    r := Query.BatchQuery(db.Snapshot(), TypeRole, ["u1", "u2", "u3"], None);
    BatchAnswers(r.value);
  }

  // ----- TestSync (rbac_test.go:155-185) -----

  const SyncItems := map["sync1" := Row(TypeRole, ""), "sync2" := Row(TypeRole, ""), "sync3" := Row(TypeRole, "")]

  /** The items of TestSync, every insert succeeding. */
  method SyncInserts() returns (db: Db)
    ensures fresh(db) && db.Valid()
    ensures db.items == SyncItems && db.edges == [] && db.assignments == []
  {
    db := new Db();
    var err := InsertNew(db, TypeRole, "sync1");
    err := InsertNew(db, TypeRole, "sync2");
    err := InsertNew(db, TypeRole, "sync3");
  }

  /** Two duplicate-free lists with the same elements have the same length. */
  lemma SameLength(s: seq<string>, u: seq<string>)
    requires NoDup(s) && NoDup(u) && forall x :: x in s <==> x in u
    ensures |s| == |u|
  {
    var xs := set x | x in u;
    NoDupLength(s, xs);
    NoDupLength(u, xs);
  }

  /** One Sync of the test with the check(TypeAny, ...) that follows it: the
      listing has exactly the requested items, as many as were requested. */
  method SyncAndList(db: Db, items: seq<string>) returns (err: Option<Error>, listed: Result<seq<string>>)
    requires db.Valid() && NoDup(items)
    requires forall x :: x in items ==> x in db.items
    modifies db
    ensures db.Valid() && db.items == old(db.items)
    ensures err == None
    ensures listed.Success? && |listed.value| == |items| && forall x :: x in listed.value <==> x in items
  {
    var none := Reconcile.SyncFaults(None, None, None, None, None, None);
    err := Reconcile.Sync(db, "syncu", items, none);
    Query.QueryExact(db.Snapshot(), TypeAny, "syncu");
    listed := Query.Query(db.Snapshot(), TypeAny, "syncu", None);
    SameLength(listed.value, items);
  }

  /** The grant before the first Sync, and the listing that shows it. */
  method SyncGrant() returns (db: Db, err: Option<Error>, granted: Result<seq<string>>)
    ensures fresh(db) && db.Valid() && db.items == SyncItems
    ensures err == None
    ensures granted == Success(["sync1"])
  {
    db := SyncInserts();
    err := Rbac.Assign(db, "sync1", "syncu", None);
    assert db.assignments == [] + [Assignment("sync1", "syncu")];
    SelectedSnoc(db.items, [], Assignment("sync1", "syncu"), TypeAny, "syncu");
    assert Query.Selected(db.items, [] + [Assignment("sync1", "syncu")], TypeAny, "syncu") == ["sync1"];
    granted := Query.Query(db.Snapshot(), TypeAny, "syncu", None);
  }

  /** Every Sync succeeds, and afterwards Query lists exactly the requested items. */
  method SyncReplay() returns (errs: seq<Option<Error>>, granted: Result<seq<string>>, cleared: Result<seq<string>>,
                               first: Result<seq<string>>, second: Result<seq<string>>)
    ensures errs == [None, None, None, None]
    ensures granted == Success(["sync1"])
    ensures cleared == Success([])
    ensures first.Success? && |first.value| == 2 && "sync1" in first.value && "sync3" in first.value
    ensures second.Success? && |second.value| == 2 && "sync2" in second.value && "sync3" in second.value
  {
    var db, e0;
    db, e0, granted := SyncGrant();
    var e1, e2, e3;
    e1, cleared := SyncAndList(db, []);
    e2, first := SyncAndList(db, ["sync1", "sync3"]);
    e3, second := SyncAndList(db, ["sync2", "sync3"]);
    errs := [e0, e1, e2, e3];
  }

  /** A failing INSERT or COMMIT of the Sync transaction is reported, and the
      table stays empty. */
  method FailedSyncWrites() returns (onInsert: Option<Error>, onCommit: Option<Error>, rows: seq<Assignment>)
    ensures onInsert == Some(StoreError("disk full"))
    ensures onCommit == Some(StoreError("commit lost"))
    ensures rows == []
  {
    var db := new Db();
    assert Reconcile.InsertList([], "u", ["x"]) == ["x"] by {
      assert AssignedTo([], "u") == [];
      assert Seqs.Minus(["x"], []) == Seqs.Minus([], []) + ["x"];
    }
    onInsert := Reconcile.Sync(db, "u", ["x"], Reconcile.SyncFaults(None, None, None, Some("disk full"), None, None));
    onCommit := Reconcile.Sync(db, "u", ["x"], Reconcile.SyncFaults(None, None, None, None, Some("commit lost"), None));
    rows := db.assignments;
  }

  /** A failing INSERT IGNORE of AddItemChild is reported, and no edge is stored. */
  method FailedLink() returns (err: Option<Error>, edges: seq<Edge>)
    ensures err == Some(StoreError("disk full"))
    ensures edges == []
  {
    var db := new Db();
    var e := InsertNew(db, TypeRole, "r");
    e := InsertNew(db, TypeTask, "t");
    err := Rbac.AddItemChild(db, "r", "t", None, Some("disk full"));
    edges := db.edges;
  }

  // ----- the depth guard and the order of the walk -----

  const ChainItems := map["a" := Row(TypeRole, ""), "b" := Row(TypeTask, ""), "c" := Row(TypeTask, ""),
                          "d" := Row(TypeTask, ""), "e" := Row(TypeOperation, "")]
  const ChainEdges := [Edge("a", "b"), Edge("b", "c"), Edge("c", "d"), Edge("d", "e")]

  lemma ChainKids(p: string)
    ensures p == "a" ==> Items.ChildRows(ChainItems, ChainEdges, p) == [ItemData("b", TypeTask, "")]
    ensures p == "b" ==> Items.ChildRows(ChainItems, ChainEdges, p) == [ItemData("c", TypeTask, "")]
    ensures p == "c" ==> Items.ChildRows(ChainItems, ChainEdges, p) == [ItemData("d", TypeTask, "")]
    ensures p == "d" ==> Items.ChildRows(ChainItems, ChainEdges, p) == [ItemData("e", TypeOperation, "")]
  {
    var e := ChainEdges;
    assert e == [] + [e[0]] + [e[1]] + [e[2]] + [e[3]];
    ChildRowsSnoc(ChainItems, [], e[0], p);
    ChildRowsSnoc(ChainItems, [] + [e[0]], e[1], p);
    ChildRowsSnoc(ChainItems, [] + [e[0]] + [e[1]], e[2], p);
    ChildRowsSnoc(ChainItems, [] + [e[0]] + [e[1]] + [e[2]], e[3], p);
  }

  /** Below the only grant a, the chain a -> b -> c -> d -> e: e, four edges
      down, is found among the children of d. */
  lemma DepthFound()
    ensures Access.CheckAccess(Tables(ChainItems, ChainEdges, [Assignment("a", "u")]), None, map[], "e", "u")
         == Success(true)
  {
    var t := Tables(ChainItems, ChainEdges, [Assignment("a", "u")]);
    var none: map<string, string> := map[];
    ChainKids("a");
    ChainKids("b");
    ChainKids("c");
    ChainKids("d");
    assert AssignedTo(t.assignments, "u") == ["a"] by {
      assert t.assignments[..0] == [];
    }
    assert Access.CheckChildren(t, none, 3, "e", "d") == Success(true);
    assert Access.CheckChildren(t, none, 2, "e", "c") == Success(true);
    assert Access.CheckChildren(t, none, 1, "e", "b") == Success(true);
    assert Access.CheckChildren(t, none, 0, "e", "a") == Success(true);
  }

  /** On the same chain, a target that is no item makes the walk descend into
      e, one level past MaxCheckRecursionLevel, and the answer is the depth
      error rather than a denial. */
  lemma DepthGuard(target: string)
    requires target !in ChainItems
    ensures Access.CheckAccess(Tables(ChainItems, ChainEdges, [Assignment("a", "u")]), None, map[], target, "u")
         == Failure(LimitReached(target))
  {
    var t := Tables(ChainItems, ChainEdges, [Assignment("a", "u")]);
    var none: map<string, string> := map[];
    ChainKids("a");
    ChainKids("b");
    ChainKids("c");
    ChainKids("d");
    assert AssignedTo(t.assignments, "u") == ["a"] by {
      assert t.assignments[..0] == [];
    }
    assert Access.CheckChildren(t, none, 4, target, "e") == Failure(LimitReached(target));
    assert Access.CheckChildren(t, none, 3, target, "d") == Failure(LimitReached(target));
    assert Access.CheckChildren(t, none, 2, target, "c") == Failure(LimitReached(target));
    assert Access.CheckChildren(t, none, 1, target, "b") == Failure(LimitReached(target));
    assert Access.CheckChildren(t, none, 0, target, "a") == Failure(LimitReached(target));
  }

  /** The assignments are walked in order and the first error ends the check: a
      failing child read below the first grant hides a later direct grant. */
  lemma ErrorBeforeGrant()
    ensures Access.CheckAccess(Tables(map["x" := Row(TypeRole, ""), "y" := Row(TypeOperation, "")], [],
                                      [Assignment("x", "u"), Assignment("y", "u")]),
                               None, map["x" := "timeout"], "y", "u")
         == Failure(StoreError("timeout"))
  {
    var rows := [Assignment("x", "u"), Assignment("y", "u")];
    assert AssignedTo(rows, "u") == ["x", "y"] by {
      assert rows[..1] == [rows[0]] && rows[..1][..0] == [];
    }
  }

  // ----- the Insert defect (item.go:68-73) -----

  /** When validate's uniqueness lookup fails, Insert as written reports success
      and stores nothing; InsertChecked reports the lookup's error. */
  method InsertLookupFailure() returns (asWritten: Option<Error>, stored: bool, corrected: Option<Error>)
    ensures asWritten == None && !stored
    ensures corrected == Some(StoreError("connection refused"))
  {
    var db := new Db();
    var item := new Items.Item(TypeRole, "admin");
    asWritten := item.Insert(db, Some("connection refused"), None);
    stored := "admin" in db.items;
    corrected := item.InsertChecked(db, Some("connection refused"), None);
  }
}
