/** Items and their direct children (item.go): construction, validation,
    insertion, deletion, and the child-list read the access check walks. */
module Items {
  import opened Types
  import opened Store

  /** The item stored under `name`, as a read returns it. */
  function StoredItem(items: map<string, Row>, name: string): ItemData
    requires name in items
  {
    ItemData(name, items[name].kind, items[name].description)
  }

  /** The rows of `SELECT rbacitem.* FROM rbacitemchild JOIN rbacitem ON
      rbacitemchild.parent = ? AND rbacitemchild.child = rbacitem.name`, in
      edge order: an edge whose child is no longer stored yields no row. */
  function ChildRows(items: map<string, Row>, edges: seq<Edge>, parent: string): seq<ItemData>
    decreases |edges|
  {
    if edges == [] then []
    else
      var e := edges[|edges| - 1];
      ChildRows(items, edges[..|edges| - 1], parent)
        + (if e.parent == parent && e.child in items
           then [StoredItem(items, e.child)]
           else [])
  }

  /** The free function LoadChildren: the children of `name`, or the store's error. */
  function LoadChildren(t: Tables, name: string, fault: Option<string>): (r: Result<seq<ItemData>>)
    ensures r.Failure? <==> fault.Some?
    ensures r.Failure? ==> r.error == StoreError(fault.value)
  {
    match fault
    case Some(msg) => Failure(StoreError(msg))
    case None => Success(ChildRows(t.items, t.edges, name))
  }

  lemma {:induction false} ChildRowsMembers(items: map<string, Row>, edges: seq<Edge>, parent: string, c: ItemData)
    decreases |edges|
    ensures c in ChildRows(items, edges, parent)
        <==> Edge(parent, c.name) in edges && c.name in items
             && c == StoredItem(items, c.name)
  {
    if edges != [] {
      var init := edges[..|edges| - 1];
      ChildRowsMembers(items, init, parent, c);
      assert edges == init + [edges[|edges| - 1]];
    }
  }

  lemma {:induction false} ChildRowsNoDup(items: map<string, Row>, edges: seq<Edge>, parent: string)
    requires NoDup(edges)
    decreases |edges|
    ensures NoDup(ChildRows(items, edges, parent))
  {
    if edges != [] {
      var init := edges[..|edges| - 1];
      var e := edges[|edges| - 1];
      assert NoDup(init);
      ChildRowsNoDup(items, init, parent);
      if e.parent == parent && e.child in items {
        var c := StoredItem(items, e.child);
        ChildRowsMembers(items, init, parent, c);
        assert e !in init;
      }
    }
  }

  /** A successful LoadChildren lists exactly the stored items linked below `name`,
      each once, and nothing for a name that is no edge's parent. */
  lemma LoadChildrenExact(t: Tables, name: string)
    requires NoDup(t.edges)
    ensures LoadChildren(t, name, None).Success?
    ensures forall c :: (c in LoadChildren(t, name, None).value
        <==> Edge(name, c.name) in t.edges && c.name in t.items && c == StoredItem(t.items, c.name))
    ensures NoDup(LoadChildren(t, name, None).value)
    ensures (forall e :: e in t.edges ==> e.parent != name) ==> LoadChildren(t, name, None).value == []
  {
    forall c ensures c in ChildRows(t.items, t.edges, name)
        <==> Edge(name, c.name) in t.edges && c.name in t.items && c == StoredItem(t.items, c.name) {
      ChildRowsMembers(t.items, t.edges, name, c);
    }
    ChildRowsNoDup(t.items, t.edges, name);
    var rows := ChildRows(t.items, t.edges, name);
    if rows != [] {
      assert rows[0] in rows;
    }
  }

  /** LoadItem (item.go:17-24): the stored item with that name, NoRows when there
      is none, or the store's error. */
  function LoadItem(t: Tables, name: string, fault: Option<string>): (r: Result<ItemData>)
    ensures fault.Some? ==> r == Failure(StoreError(fault.value))
    ensures fault.None? && name !in t.items ==> r == Failure(NoRows)
    ensures r.Success? <==> fault.None? && name in t.items
    ensures r.Success? ==> r.value.name == name && t.items[name] == Row(r.value.kind, r.value.description)
  {
    match fault
    case Some(msg) => Failure(StoreError(msg))
    case None => if name in t.items then Success(StoredItem(t.items, name)) else Failure(NoRows)
  }

  /** sqlx leaves the destination slice nil when no row matches. */
  function NilIfEmpty(rows: seq<ItemData>): Option<seq<ItemData>>
  {
    if rows == [] then None else Some(rows)
  }

  class Item {
    var name: string
    var kind: ItemType
    var description: string
    /** nil (None) until loaded; set by LoadChildren. */
    var children: Option<seq<ItemData>>

    /** NewItem (item.go:10-15). */
    constructor (kind: ItemType, name: string)
      ensures this.name == name && this.kind == kind
      ensures description == "" && children == None
    {
      this.name := name;
      this.kind := kind;
      description := "";
      children := None;
    }

    /** The columns Insert writes. */
    function Data(): ItemData
      reads this
    {
      ItemData(name, kind, description)
    }

    /** validate (item.go:26-42): the problems with this item's name, or the
        error of the uniqueness lookup. */
    function Validate(t: Tables, fault: Option<string>): (r: Result<seq<FieldError>>)
      reads this
      ensures name == "" ==> r == Success([FieldError("name", "Name is required")])
      ensures r.Failure? <==> name != "" && fault.Some?
      ensures r.Failure? ==> r.error == StoreError(fault.value)
      ensures name != "" && fault.None? && name in t.items ==> r == Success([FieldError("name", "Duplicate Name")])
      ensures r == Success([]) <==> name != "" && fault.None? && name !in t.items
    {
      if name == "" then Success([FieldError("name", "Name is required")])
      else
        match fault
        case Some(msg) => Failure(StoreError(msg))
        case None =>
          var n := if name in t.items then 1 else 0;  // SELECT COUNT(*) ... WHERE name = ?
          if n != 0 then Success([FieldError("name", "Duplicate Name")]) else Success([])
    }

    /** The method LoadChildren (item.go:44-54): fills `children` once. */
    method LoadChildren(db: Db, fault: Option<string>) returns (err: Option<Error>)
      modifies this
      ensures name == old(name) && kind == old(kind) && description == old(description)
      ensures old(children).Some? ==> err == None && children == old(children)
      ensures old(children).None? && fault.Some? ==> err == Some(StoreError(fault.value)) && children == None
      ensures old(children).None? && fault.None? ==>
                err == None && children == NilIfEmpty(ChildRows(db.items, db.edges, name))
    {
      if children.Some? {
        return None;
      }
      match _default.LoadChildren(db.Snapshot(), name, fault)  // the free function
      case Failure(e) =>
        return Some(e);
      case Success(rows) =>
        children := NilIfEmpty(rows);
        return None;
    }

    /** Insert as written (item.go:68-87): when the uniqueness lookup of validate
        fails, the error is dropped and nil is returned without inserting. */
    method Insert(db: Db, lookupFault: Option<string>, insertFault: Option<string>) returns (err: Option<Error>)
      requires db.Valid()
      modifies db
      ensures db.Valid()
      ensures db.edges == old(db.edges) && db.assignments == old(db.assignments)
      ensures name != "" && lookupFault.Some? ==> err == None && db.items == old(db.items)
      ensures name == "" ==> err == Some(Invalid([FieldError("name", "Name is required")])) && db.items == old(db.items)
      ensures name != "" && lookupFault.None? && name in old(db.items) ==>
                err == Some(Invalid([FieldError("name", "Duplicate Name")])) && db.items == old(db.items)
      ensures name != "" && lookupFault.None? && name !in old(db.items) && insertFault.Some? ==>
                err == Some(StoreError(insertFault.value)) && db.items == old(db.items)
      ensures name != "" && lookupFault.None? && name !in old(db.items) && insertFault.None? ==>
                err == None && db.items == old(db.items)[name := Row(kind, description)]
    {
      var v := Validate(db.Snapshot(), lookupFault);
      if v.Failure? {
        return None;
      }
      if v.value != [] {
        return Some(Invalid(v.value));
      }
      if insertFault.Some? {
        return Some(StoreError(insertFault.value));
      }
      db.items := db.items[name := Row(kind, description)];
      return None;
    }

    /** Insert with the lookup error returned instead of dropped. A nil result
        now means the item was inserted, and LoadItem then reads it back. */
    method InsertChecked(db: Db, lookupFault: Option<string>, insertFault: Option<string>) returns (err: Option<Error>)
      requires db.Valid()
      modifies db
      ensures db.Valid()
      ensures db.edges == old(db.edges) && db.assignments == old(db.assignments)
      ensures err.None? <==> name != "" && name !in old(db.items) && lookupFault.None? && insertFault.None?
      ensures err.Some? ==> db.items == old(db.items)
      ensures err.None? ==> db.items == old(db.items)[name := Row(kind, description)]
      ensures err.None? ==> LoadItem(db.Snapshot(), name, None) == Success(Data())
      ensures name != "" && lookupFault.Some? ==> err == Some(StoreError(lookupFault.value))
      ensures name == "" ==> err == Some(Invalid([FieldError("name", "Name is required")]))
      ensures name != "" && lookupFault.None? && name in old(db.items) ==>
                err == Some(Invalid([FieldError("name", "Duplicate Name")]))
    {
      var v := Validate(db.Snapshot(), lookupFault);
      if v.Failure? {
        return Some(v.error);
      }
      if v.value != [] {
        return Some(Invalid(v.value));
      }
      if insertFault.Some? {
        return Some(StoreError(insertFault.value));
      }
      db.items := db.items[name := Row(kind, description)];
      return None;
    }

    /** Delete (item.go:89-99): removes the item row only; edges and assignments
        that name it stay. */
    method Delete(db: Db, fault: Option<string>) returns (err: Option<Error>)
      requires db.Valid()
      modifies db
      ensures db.Valid()
      ensures db.edges == old(db.edges) && db.assignments == old(db.assignments)
      ensures name == "" ==> err == Some(NoName) && db.items == old(db.items)
      ensures name != "" && fault.Some? ==> err == Some(StoreError(fault.value)) && db.items == old(db.items)
      ensures name != "" && fault.None? ==> err == None && db.items == old(db.items) - {name}
    {
      if name == "" {
        return Some(NoName);
      }
      if fault.Some? {
        return Some(StoreError(fault.value));
      }
      db.items := db.items - {name};
      return None;
    }
  }
}
