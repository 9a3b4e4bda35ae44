/** Values shared by every part of the RBAC model: item kinds, the rows of the
    three tables, the errors the library returns, and the result wrappers. */
module Types {

  datatype Option<+T> = None | Some(value: T)

  datatype Result<+T> = Success(value: T) | Failure(error: Error)

  /** ItemType (rbac.go:13-20). TypeAny is the "no filter" value of Query. */
  datatype ItemType = TypeAny | TypeRole | TypeTask | TypeOperation

  /** One entry of a ValidationContext: the field and its message. */
  datatype FieldError = FieldError(field: string, message: string)

  /** The errors the core returns. */
  datatype Error =
    | StoreError(msg: string)                 // any failure the database reports, passed through
    | NoRows                                  // a single-row read found no row
    | DuplicateKey                            // the unique key of rbacassignment refused a row
    | LimitReached(item: string)              // "MaxCheckRecursionLevel reached, item: %s"
    | ItemOrChildNotFound                     // "item or child not found"
    | SelfChild                               // "self == child"
    | NoName                                  // "no name"
    | Invalid(problems: seq<FieldError>)      // a ValidationContext turned into an error
    | WithRollback(cause: Error, rollback: string)  // "%s; %s": the cause and the failed rollback

  /** The stored columns of an rbacitem row, keyed by its name. Timestamps,
      rule name and data are not modelled. */
  datatype Row = Row(kind: ItemType, description: string)

  /** An item as it is read back from the store (item.Children is nil on every loaded item). */
  datatype ItemData = ItemData(name: string, kind: ItemType, description: string)

  /** An rbacitemchild row. */
  datatype Edge = Edge(parent: string, child: string)

  /** An rbacassignment row (created_at not modelled). */
  datatype Assignment = Assignment(item: string, user: string)

  /** A snapshot of the three tables, in the order in which their rows were inserted. */
  datatype Tables = Tables(items: map<string, Row>, edges: seq<Edge>, assignments: seq<Assignment>)

  /** No element occurs twice: what a unique key guarantees for a table. */
  predicate NoDup<T(==)>(s: seq<T>) {
    forall i, j :: 0 <= i < j < |s| ==> s[i] != s[j]
  }

  /** The message a fault map assigns to a read of `key`, if that read fails. */
  function FaultAt(faults: map<string, string>, key: string): (r: Option<string>)
    ensures r.Some? <==> key in faults
    ensures r.Some? ==> r.value in faults.Values
  {
    if key in faults then Some(faults[key]) else None
  }
}
