/** CheckAccess (rbac.go:84-133): does a user hold an item, directly or through
    the child hierarchy? The walk is depth-first in child order, stops at the
    first hit, and reports an error instead of a verdict as soon as it meets a
    node more than MaxCheckRecursionLevel levels below an assigned item, so it
    terminates on cyclic hierarchies too.

    The specification side: ReachesFrom / ReachesVia (the target lies within n
    child edges), DeepFrom / DeepVia (a chain of n child edges exists) and
    ReadableFrom / ReadableVia (no child list that the walk reads fails). */
module Access {
  import opened Types
  import opened Store
  import Items

  /** rbac.go:11 */
  const MaxCheckRecursionLevel: nat := 3

  /** The number of child edges below an assigned item that the walk can follow. */
  const Reach: nat := MaxCheckRecursionLevel + 1

  function Kids(t: Tables, p: string): seq<ItemData>
  {
    Items.ChildRows(t.items, t.edges, p)
  }

  // ----- the walk: checkChildrenRecursively (rbac.go:91-115) -----

  /** One call of checkChildrenRecursively: the depth guard, then the child read
      (whose failure, if any, `faults` gives per parent), then the children. */
  function CheckChildren(t: Tables, faults: map<string, string>, level: nat, target: string, parent: string)
    : Result<bool>
    decreases MaxCheckRecursionLevel + 1 - level, 1, 0
  {
    if level > MaxCheckRecursionLevel then Failure(LimitReached(target))
    else
      match Items.LoadChildren(t, parent, FaultAt(faults, parent))
      case Failure(e) => Failure(e)
      case Success(children) => CheckEach(t, faults, level, target, children)
  }

  /** The loop over the children (rbac.go:101-114): a child named like the
      target grants at once; otherwise its subtree is searched one level deeper,
      and an error or a grant there ends the loop. */
  function CheckEach(t: Tables, faults: map<string, string>, level: nat, target: string, children: seq<ItemData>)
    : Result<bool>
    requires level <= MaxCheckRecursionLevel
    decreases MaxCheckRecursionLevel + 1 - level, 0, |children|
  {
    if children == [] then Success(false)
    else if children[0].name == target then Success(true)
    else
      match CheckChildren(t, faults, level + 1, target, children[0].name)
      case Failure(e) => Failure(e)
      case Success(ok) => if ok then Success(true) else CheckEach(t, faults, level, target, children[1..])
  }

  /** The loop over the user's assignments (rbac.go:117-132). */
  function CheckAssigned(t: Tables, faults: map<string, string>, target: string, granted: seq<string>)
    : Result<bool>
    decreases |granted|
  {
    if granted == [] then Success(false)
    else if granted[0] == target then Success(true)
    else
      match CheckChildren(t, faults, 0, target, granted[0])
      case Failure(e) => Failure(e)
      case Success(ok) => if ok then Success(true) else CheckAssigned(t, faults, target, granted[1..])
  }

  /** CheckAccess: `readFault` is the failure of the assignment read, `faults`
      those of the child reads. */
  function CheckAccess(t: Tables, readFault: Option<string>, faults: map<string, string>, target: string, user: string)
    : (r: Result<bool>)
    ensures readFault.Some? ==> r == Failure(StoreError(readFault.value))
    ensures readFault.None? && AssignedTo(t.assignments, user) == [] ==> r == Success(false)
    ensures readFault.None? && |AssignedTo(t.assignments, user)| > 0 && AssignedTo(t.assignments, user)[0] == target ==>
              r == Success(true)
  {
    match readFault
    case Some(msg) => Failure(StoreError(msg))
    case None => CheckAssigned(t, faults, target, AssignedTo(t.assignments, user))
  }

  // ----- what the walk is measured against -----

  /** Some node of `children` is the target or reaches it within n more edges. */
  ghost predicate ReachesVia(t: Tables, n: nat, children: seq<ItemData>, target: string)
    decreases n, 1, |children|
  {
    && |children| > 0
    && (|| children[0].name == target
        || ReachesFrom(t, n, children[0].name, target)
        || ReachesVia(t, n, children[1..], target))
  }

  /** The target is reachable from p by a chain of 1 to n child edges. */
  ghost predicate ReachesFrom(t: Tables, n: nat, p: string, target: string)
    decreases n, 0, 0
  {
    n > 0 && ReachesVia(t, n - 1, Kids(t, p), target)
  }

  /** Some node of `children` starts a chain of n child edges. */
  ghost predicate DeepVia(t: Tables, n: nat, children: seq<ItemData>)
    decreases n, 1, |children|
  {
    |children| > 0 && (DeepFrom(t, n, children[0].name) || DeepVia(t, n, children[1..]))
  }

  /** A chain of n child edges starts at p (always true for n == 0). */
  ghost predicate DeepFrom(t: Tables, n: nat, p: string)
    decreases n, 0, 0
  {
    n == 0 || DeepVia(t, n - 1, Kids(t, p))
  }

  /** Every node of `children` is ReadableFrom with depth n. */
  ghost predicate ReadableVia(t: Tables, faults: map<string, string>, n: nat, children: seq<ItemData>)
    decreases n, 1, |children|
  {
    |children| == 0 || (ReadableFrom(t, faults, n, children[0].name) && ReadableVia(t, faults, n, children[1..]))
  }

  /** The child list of every node less than n edges below p reads without failure. */
  ghost predicate ReadableFrom(t: Tables, faults: map<string, string>, n: nat, p: string)
    decreases n, 0, 0
  {
    n == 0 || (p !in faults && ReadableVia(t, faults, n - 1, Kids(t, p)))
  }

  /** An error the walk can return: the depth error for the target, or one of the
      failures the store reports. */
  ghost predicate WalkError(e: Error, faults: map<string, string>, target: string)
  {
    (e.LimitReached? && e.item == target) || (e.StoreError? && e.msg in faults.Values)
  }

  // ----- the walk meets its specification -----

  /** checkChildrenRecursively at `level` searches n = 4 - level edges below p:
      a grant is a real path, a denial means no path and no chain of n edges
      (so the depth guard never turns into a silent denial), a depth error means
      such a chain exists, and when every read succeeds and no chain of n edges
      exists the answer is exactly reachability. */
  lemma {:induction false} CheckChildrenMeetsSpec(t: Tables, faults: map<string, string>, level: nat, target: string, p: string)
    requires level <= Reach
    decreases MaxCheckRecursionLevel + 1 - level, 1, 0
    ensures var r, n := CheckChildren(t, faults, level, target, p), Reach - level;
      && (r == Success(true) ==> ReachesFrom(t, n, p, target))
      && (r == Success(false) ==> !ReachesFrom(t, n, p, target) && !DeepFrom(t, n, p))
      && (r.Failure? ==> WalkError(r.error, faults, target))
      && (r.Failure? && r.error.LimitReached? ==> DeepFrom(t, n, p))
      && (ReadableFrom(t, faults, n, p) && !DeepFrom(t, n, p) ==> r == Success(ReachesFrom(t, n, p, target)))
  {
    if level <= MaxCheckRecursionLevel {
      if p !in faults {
        CheckEachMeetsSpec(t, faults, level, target, Kids(t, p));
      }
    }
  }

  lemma {:induction false} CheckEachMeetsSpec(t: Tables, faults: map<string, string>, level: nat, target: string,
                                               children: seq<ItemData>)
    requires level <= MaxCheckRecursionLevel
    decreases MaxCheckRecursionLevel + 1 - level, 0, |children|
    ensures var r, n := CheckEach(t, faults, level, target, children), MaxCheckRecursionLevel - level;
      && (r == Success(true) ==> ReachesVia(t, n, children, target))
      && (r == Success(false) ==> !ReachesVia(t, n, children, target) && !DeepVia(t, n, children))
      && (r.Failure? ==> WalkError(r.error, faults, target))
      && (r.Failure? && r.error.LimitReached? ==> DeepVia(t, n, children))
      && (ReadableVia(t, faults, n, children) && !DeepVia(t, n, children)
          ==> r == Success(ReachesVia(t, n, children, target)))
  {
    if children != [] && children[0].name != target {
      CheckChildrenMeetsSpec(t, faults, level + 1, target, children[0].name);
      CheckEachMeetsSpec(t, faults, level, target, children[1..]);
    }
  }

  /** The user holds `target` according to the tables: it is assigned to them,
      or lies 1 to 4 child edges below an item assigned to them. */
  ghost predicate Holds(t: Tables, target: string, user: string)
  {
    || Assignment(target, user) in t.assignments
    || exists a :: Assignment(a, user) in t.assignments && ReachesFrom(t, Reach, a, target)
  }

  lemma {:induction false} CheckAssignedMeetsSpec(t: Tables, faults: map<string, string>, target: string, granted: seq<string>)
    decreases |granted|
    ensures var r := CheckAssigned(t, faults, target, granted);
      && (r == Success(true) ==>
            target in granted || exists a :: a in granted && ReachesFrom(t, Reach, a, target))
      && (r == Success(false) ==>
            target !in granted
            && forall a :: a in granted ==> !ReachesFrom(t, Reach, a, target) && !DeepFrom(t, Reach, a))
      && (r.Failure? ==> WalkError(r.error, faults, target))
      && (r.Failure? && r.error.LimitReached? ==> exists a :: a in granted && DeepFrom(t, Reach, a))
      && ((forall a :: a in granted ==> ReadableFrom(t, faults, Reach, a) && !DeepFrom(t, Reach, a)) ==>
          r == Success(target in granted || exists a :: a in granted && ReachesFrom(t, Reach, a, target)))
  {
    if granted != [] && granted[0] != target {
      var rest := granted[1..];
      CheckChildrenMeetsSpec(t, faults, 0, target, granted[0]);
      CheckAssignedMeetsSpec(t, faults, target, rest);
      assert forall a :: a in granted <==> a == granted[0] || a in rest;
    }
  }

  /** CheckAccess (rbac.go:84-133) against the tables: (true, nil) only for an
      item the user Holds; (false, nil) only when the user does not hold it and
      no assigned item starts a chain of 4 child edges (every explored subtree has
      height at most 3, so a cycle or an over-deep hierarchy never reads as a
      denial); a depth error only when such a chain exists; any other error is the
      store's. When every read succeeds and no chain of 4 edges starts at an
      assigned item, the answer is exactly Holds. */
  lemma CheckAccessMeetsSpec(t: Tables, readFault: Option<string>, faults: map<string, string>, target: string, user: string)
    ensures var r := CheckAccess(t, readFault, faults, target, user);
      && (r == Success(true) ==> readFault.None? && Holds(t, target, user))
      && (r == Success(false) ==>
            && readFault.None? && !Holds(t, target, user)
            && forall a :: Assignment(a, user) in t.assignments ==> !DeepFrom(t, Reach, a))
      && (r.Failure? && readFault.None? ==> WalkError(r.error, faults, target))
      && (r.Failure? && r.error.LimitReached? ==>
            exists a :: Assignment(a, user) in t.assignments && DeepFrom(t, Reach, a))
      && (readFault.None?
          && (forall a :: Assignment(a, user) in t.assignments ==>
                ReadableFrom(t, faults, Reach, a) && !DeepFrom(t, Reach, a))
          ==> r == Success(Holds(t, target, user)))
  {
    var granted := AssignedTo(t.assignments, user);
    forall a ensures a in granted <==> Assignment(a, user) in t.assignments {
      AssignedToMembers(t.assignments, user, a);
    }
    if readFault.None? {
      CheckAssignedMeetsSpec(t, faults, target, granted);
    }
  }

  /** A direct grant is never answered with a denial: the walk over an earlier
      assignment may still end in an error first (the assignments are tried in
      order), but (false, nil) is excluded, and with every read succeeding and
      no over-deep assigned item the answer is (true, nil). */
  lemma GrantNeverDenied(t: Tables, readFault: Option<string>, faults: map<string, string>, item: string, user: string)
    requires Assignment(item, user) in t.assignments
    ensures CheckAccess(t, readFault, faults, item, user) != Success(false)
    ensures (readFault.None?
             && forall a :: Assignment(a, user) in t.assignments ==>
                  ReadableFrom(t, faults, Reach, a) && !DeepFrom(t, Reach, a))
            ==> CheckAccess(t, readFault, faults, item, user) == Success(true)
  {
    CheckAccessMeetsSpec(t, readFault, faults, item, user);
  }

  // ----- cycles -----

  lemma {:induction false} DeepFromShorter(t: Tables, n: nat, m: nat, p: string)
    requires m <= n && DeepFrom(t, n, p)
    decreases n, 0, 0
    ensures DeepFrom(t, m, p)
  {
    if m > 0 {
      DeepViaShorter(t, n - 1, m - 1, Kids(t, p));
    }
  }

  lemma {:induction false} DeepViaShorter(t: Tables, n: nat, m: nat, children: seq<ItemData>)
    requires m <= n && DeepVia(t, n, children)
    decreases n, 1, |children|
    ensures DeepVia(t, m, children)
  {
    if DeepFrom(t, n, children[0].name) {
      DeepFromShorter(t, n, m, children[0].name);
    } else {
      DeepViaShorter(t, n, m, children[1..]);
    }
  }

  /** A node that reaches q is one edge deeper than q. */
  lemma {:induction false} ReachesThenDeep(t: Tables, k: nat, p: string, q: string, n: nat)
    requires ReachesFrom(t, k, p, q) && DeepFrom(t, n, q)
    decreases k, 0, 0
    ensures DeepFrom(t, n + 1, p)
  {
    ReachesViaThenDeep(t, k - 1, Kids(t, p), q, n);
  }

  lemma {:induction false} ReachesViaThenDeep(t: Tables, k: nat, children: seq<ItemData>, q: string, n: nat)
    requires ReachesVia(t, k, children, q) && DeepFrom(t, n, q)
    decreases k, 1, |children|
    ensures DeepVia(t, n, children)
  {
    if children[0].name == q {
    } else if ReachesFrom(t, k, children[0].name, q) {
      ReachesThenDeep(t, k, children[0].name, q, n);
      DeepFromShorter(t, n + 1, n, children[0].name);
    } else {
      ReachesViaThenDeep(t, k, children[1..], q, n);
    }
  }

  /** A node on a cycle starts chains of every length. */
  lemma {:induction false} CycleIsDeep(t: Tables, k: nat, p: string, n: nat)
    requires ReachesFrom(t, k, p, p)
    ensures DeepFrom(t, n, p)
  {
    if n > 0 {
      CycleIsDeep(t, k, p, n - 1);
      ReachesThenDeep(t, k, p, p, n - 1);
    }
  }

  /** The depth guard on cycles: if an item assigned to the user lies on a cycle
      of the hierarchy, CheckAccess still terminates, and never answers
      (false, nil): it grants or reports an error. */
  lemma CycleNeverDenies(t: Tables, readFault: Option<string>, faults: map<string, string>, target: string,
                         user: string, a: string, k: nat)
    requires Assignment(a, user) in t.assignments && ReachesFrom(t, k, a, a)
    ensures CheckAccess(t, readFault, faults, target, user) != Success(false)
  {
    CheckAccessMeetsSpec(t, readFault, faults, target, user);
    CycleIsDeep(t, k, a, Reach);
  }
}
