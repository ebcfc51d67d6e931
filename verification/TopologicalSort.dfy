/** Ordering of structure definitions so that each follows the structures it depends on. */
module TopologicalSort {
  datatype Name = Name(text: string)

  type Dependencies = map<Name, seq<Name>>

  function DepsOf(m: Dependencies, s: Name): seq<Name> {
    if s in m then m[s] else []
  }

  /** Every structure that is declared or depended on. */
  ghost function Names(m: Dependencies): set<Name> {
    m.Keys + set s, d | s in m && d in m[s] :: d
  }

  ghost predicate NoDuplicates(order: seq<Name>) {
    forall i, j | 0 <= i < j < |order| :: order[i] != order[j]
  }

  /** Every structure comes after all its dependencies. */
  ghost predicate Ordered(m: Dependencies, order: seq<Name>) {
    forall i | 0 <= i < |order| :: forall d | d in DepsOf(m, order[i]) :: d in order[..i]
  }

  ghost predicate Elements(order: seq<Name>, names: set<Name>) {
    forall s :: s in order <==> s in names
  }

  /** Each structure on the path depends on the next. */
  ghost predicate IsPath(m: Dependencies, p: seq<Name>) {
    |p| > 1 ==> p[1] in DepsOf(m, p[0]) && IsPath(m, p[1..])
  }

  /** A structure that depends on itself through a path. */
  ghost predicate IsCycle(m: Dependencies, p: seq<Name>) {
    |p| >= 2 && IsPath(m, p) && p[0] == p[|p| - 1]
  }

  ghost predicate Circular(m: Dependencies) {
    exists p :: IsCycle(m, p)
  }

  ghost function SetOf(order: seq<Name>): set<Name> {
    set s | s in order
  }

  // ----------------------------------------------------------------- cycles

  /** In an order that respects dependencies, a path only goes back. */
  lemma {:induction false} PathGoesBack(m: Dependencies, order: seq<Name>, p: seq<Name>, i: nat) returns (j: nat)
    requires Ordered(m, order) && IsPath(m, p) && p != [] && i < |order| && order[i] == p[0]
    ensures j <= i < |order| && order[j] == p[|p| - 1] && (|p| > 1 ==> j < i)
    decreases |p|
  {
    if |p| == 1 {
      j := i;
    } else {
      assert p[1] in order[..i];
      var k :| 0 <= k < i && order[k] == p[1];
      j := PathGoesBack(m, order, p[1..], k);
    }
  }

  lemma {:induction false} PathSuffix(m: Dependencies, p: seq<Name>, i: nat)
    requires IsPath(m, p) && i < |p|
    ensures IsPath(m, p[i..])
  {
    if i > 0 {
      PathSuffix(m, p[1..], i - 1);
      assert p[1..][i - 1..] == p[i..];
    } else {
      assert p[0..] == p;
    }
  }

  lemma {:induction false} PathExtends(m: Dependencies, p: seq<Name>, d: Name)
    requires IsPath(m, p) && p != [] && d in DepsOf(m, p[|p| - 1])
    ensures IsPath(m, p + [d])
    decreases |p|
  {
    if |p| > 1 {
      PathExtends(m, p[1..], d);
      assert (p + [d])[1..] == p[1..] + [d];
    }
  }

  lemma {:induction false} OrderedIsAcyclic(m: Dependencies, order: seq<Name>)
    requires Ordered(m, order) && NoDuplicates(order) && Elements(order, Names(m))
    ensures !Circular(m)
  {
    if Circular(m) {
      var p :| IsCycle(m, p);
      assert p[0] in Names(m) by {
        assert p[1] in DepsOf(m, p[0]);
      }
      var i :| 0 <= i < |order| && order[i] == p[0];
      var j := PathGoesBack(m, order, p, i);
      assert false;
    }
  }

  ghost predicate WaitsFor(m: Dependencies, s: Name, rest: set<Name>) {
    exists d :: d in DepsOf(m, s) && d in rest
  }

  /** Where every structure of a set depends on another of the set, there is a cycle. */
  lemma {:induction false} StuckIsCircular(m: Dependencies, rest: set<Name>, p: seq<Name>)
    requires p != [] && IsPath(m, p) && NoDuplicates(p) && SetOf(p) <= rest
    requires forall s | s in rest :: WaitsFor(m, s, rest)
    ensures Circular(m)
    decreases |rest| - |p|
  {
    hide IsPath, NoDuplicates, Circular, WaitsFor;
    DistinctCount(p, rest);
    assert p[|p| - 1] in SetOf(p);
    var d := Awaited(m, p[|p| - 1], rest);
    PathExtends(m, p, d);
    if d in p {
      CloseCycle(m, p, d);
    } else {
      OneMore(p, d);
      DistinctCount(p + [d], rest);
      StuckIsCircular(m, rest, p + [d]);
    }
  }

  lemma {:induction false} Awaited(m: Dependencies, s: Name, rest: set<Name>) returns (d: Name)
    requires WaitsFor(m, s, rest)
    ensures d in DepsOf(m, s) && d in rest
  {
    d :| d in DepsOf(m, s) && d in rest;
  }

  lemma {:induction false} CloseCycle(m: Dependencies, p: seq<Name>, d: Name)
    requires IsPath(m, p + [d]) && d in p
    ensures Circular(m)
  {
    hide IsPath;
    var i :| 0 <= i < |p| && p[i] == d;
    PathSuffix(m, p + [d], i);
    assert IsCycle(m, (p + [d])[i..]);
  }

  lemma {:induction false} OneMore(p: seq<Name>, d: Name)
    requires NoDuplicates(p) && d !in p
    ensures NoDuplicates(p + [d]) && SetOf(p + [d]) == SetOf(p) + {d}
  {
  }

  lemma {:induction false} DistinctCount(p: seq<Name>, names: set<Name>)
    requires NoDuplicates(p) && SetOf(p) <= names
    ensures |p| <= |names|
  {
    SetOfDistinct(p);
    SubsetCount(SetOf(p), names);
  }

  lemma {:induction false} SubsetCount(a: set<Name>, b: set<Name>)
    requires a <= b
    ensures |a| <= |b|
  {
    assert b == a + (b - a);
  }

  // ------------------------------------------------------------- the method

  /** The number of dependencies that are not done yet, with repetitions. */
  ghost function Pending(deps: seq<Name>, done: set<Name>): nat {
    if deps == [] then 0
    else Pending(deps[..|deps| - 1], done) + if deps[|deps| - 1] in done then 0 else 1
  }

  lemma {:induction false} NothingPending(deps: seq<Name>, done: set<Name>)
    ensures Pending(deps, done) == 0 <==> forall d | d in deps :: d in done
  {
    if deps != [] {
      NothingPending(deps[..|deps| - 1], done);
      assert forall d :: d in deps <==> d in deps[..|deps| - 1] || d == deps[|deps| - 1];
    }
  }

  lemma {:induction false} AllPending(deps: seq<Name>)
    ensures Pending(deps, {}) == |deps|
  {
    if deps != [] {
      AllPending(deps[..|deps| - 1]);
    }
  }

  function Count(list: seq<Name>, s: Name): nat {
    if list == [] then 0 else Count(list[..|list| - 1], s) + if list[|list| - 1] == s then 1 else 0
  }

  lemma {:induction false} CountSnoc(list: seq<Name>, x: Name, s: Name)
    ensures Count(list + [x], s) == Count(list, s) + if x == s then 1 else 0
  {
    assert (list + [x])[..|list|] == list;
  }

  lemma {:induction false} CountPrefix(list: seq<Name>, k: nat, s: Name)
    requires k <= |list|
    ensures Count(list[..k], s) <= Count(list, s)
    decreases |list|
  {
    if k < |list| {
      var front := list[..|list| - 1];
      CountPrefix(front, k, s);
      assert front[..k] == list[..k];
    } else {
      assert list[..k] == list;
    }
  }

  lemma {:induction false} CountNext(list: seq<Name>, k: nat, s: Name)
    requires k < |list|
    ensures Count(list[..k + 1], s) == Count(list[..k], s) + if list[k] == s then 1 else 0
    ensures Count(list[..k + 1], s) <= Count(list, s)
  {
    assert list[..k + 1] == list[..k] + [list[k]];
    CountSnoc(list[..k], list[k], s);
    CountPrefix(list, k + 1, s);
  }

  lemma {:induction false} Counted(list: seq<Name>, s: Name)
    ensures Count(list, s) > 0 <==> s in list
  {
    if list != [] {
      Counted(list[..|list| - 1], s);
      assert list == list[..|list| - 1] + [list[|list| - 1]];
    }
  }

  lemma {:induction false} DoneOneMore(deps: seq<Name>, done: set<Name>, c: Name)
    requires c !in done
    ensures Pending(deps, done) == Pending(deps, done + {c}) + Count(deps, c)
  {
    if deps != [] {
      DoneOneMore(deps[..|deps| - 1], done, c);
    }
  }

  /** graph lists, for every structure, those that depend on it, once for each mention; todo is still missing. */
  ghost predicate Reversed(m: Dependencies, graph: Dependencies, todo: set<Name>) {
    forall c, s :: Count(DepsOf(graph, c), s) == if s in todo then 0 else Count(DepsOf(m, s), c)
  }

  method BuildGraph(dependencies: Dependencies) returns (graph: Dependencies, inDegree: map<Name, int>)
    ensures Reversed(dependencies, graph, {})
    ensures inDegree.Keys == Names(dependencies)
    ensures forall s | s in inDegree :: inDegree[s] == |DepsOf(dependencies, s)|
  {
    graph := map[];
    var names := CollectNames(dependencies);
    inDegree := map s | s in names :: 0;
    var todo := dependencies.Keys;
    while todo != {}
      invariant todo <= dependencies.Keys <= names == inDegree.Keys
      invariant Reversed(dependencies, graph, todo)
      invariant forall s | s in inDegree :: inDegree[s] == if s in todo then 0 else |DepsOf(dependencies, s)|
    {
      var struct :| struct in todo;
      graph, inDegree := AddEdges(dependencies, todo, graph, inDegree, struct, dependencies[struct]);
      todo := todo - {struct};
    }
  }

  method AddEdges(ghost m: Dependencies, ghost todo: set<Name>, graph: Dependencies, inDegree: map<Name, int>,
      struct: Name, deps: seq<Name>)
    returns (graph': Dependencies, inDegree': map<Name, int>)
    requires struct in inDegree && struct in todo && deps == DepsOf(m, struct) && Reversed(m, graph, todo)
    ensures inDegree' == inDegree[struct := inDegree[struct] + |deps|]
    ensures Reversed(m, graph', todo - {struct})
  {
    hide Count;
    graph', inDegree' := graph, inDegree;
    NoneCounted(deps);
    for j := 0 to |deps|
      invariant inDegree' == inDegree[struct := inDegree[struct] + j]
      invariant forall c, s :: (Count(DepsOf(graph', c), s) ==
        if s == struct then Count(deps[..j], c) else if s in todo then 0 else Count(DepsOf(m, s), c))
    {
      var dep := deps[j];
      ghost var was := graph';
      graph' := graph'[dep := DepsOf(graph', dep) + [struct]];
      inDegree' := inDegree'[struct := inDegree'[struct] + 1];
      forall c, s
        ensures Count(DepsOf(graph', c), s) ==
          if s == struct then Count(deps[..j + 1], c) else if s in todo then 0 else Count(DepsOf(m, s), c)
      {
        CountNext(deps, j, c);
        CountSnoc(DepsOf(was, dep), struct, s);
      }
    }
    assert deps[..|deps|] == deps;
  }

  lemma {:induction false} NoneCounted(deps: seq<Name>)
    ensures forall c :: Count(deps[..0], c) == 0
  {
  }

  method CollectNames(dependencies: Dependencies) returns (all: set<Name>)
    ensures all == Names(dependencies)
  {
    all := dependencies.Keys;
    var todo := dependencies.Keys;
    while todo != {}
      invariant todo <= dependencies.Keys
      invariant all == dependencies.Keys + set s, d | s in dependencies && s !in todo && d in dependencies[s] :: d
    {
      var struct :| struct in todo;
      todo := todo - {struct};
      all := all + set d | d in dependencies[struct];
    }
  }

  /**
   * The state between two structures: done ones, queued ones, and for every structure the number of its
   * dependencies that are not done.
   */
  ghost predicate Consistent(m: Dependencies, inDegree: map<Name, int>, done: set<Name>, seen: seq<Name>) {
    && inDegree.Keys == Names(m) && NoDuplicates(seen) && Ordered(m, seen)
    && (forall s | s in inDegree :: inDegree[s] == Pending(DepsOf(m, s), done))
    && (forall s :: s in seen <==> s in inDegree && inDegree[s] == 0)
  }

  /** The step for one structure: its dependents have one dependency less, and those left with none are queued. */
  method Process(ghost m: Dependencies, graph: Dependencies, inDegree: map<Name, int>, current: Name, queue: seq<Name>,
      ghost order: seq<Name>)
    returns (inDegree': map<Name, int>, queue': seq<Name>)
    requires Reversed(m, graph, {}) && order != [] && current == order[|order| - 1]
    requires Consistent(m, inDegree, SetOf(order[..|order| - 1]), order + queue)
    ensures Consistent(m, inDegree', SetOf(order), order + queue')
  {
    hide Count, Pending, Ordered, NoDuplicates, Names, DepsOf, SetOf;
    ghost var done := SetOf(order[..|order| - 1]);
    ghost var after := SetOf(order);
    LastNew(order, queue);
    assert current !in done && after == done + {current};
    var neighbors := DepsOf(graph, current);
    inDegree', queue' := inDegree, queue;
    forall s | s in inDegree
      ensures inDegree[s] == Pending(DepsOf(m, s), after) + Count(neighbors, s) - Count(neighbors[..0], s)
    {
      DoneOneMore(DepsOf(m, s), done, current);
      NoneCounted(neighbors);
    }
    for k := 0 to |neighbors|
      invariant inDegree'.Keys == Names(m)
      invariant forall s | s in inDegree' ::
        inDegree'[s] == Pending(DepsOf(m, s), after) + Count(neighbors, s) - Count(neighbors[..k], s)
      invariant NoDuplicates(order + queue') && Ordered(m, order + queue')
      invariant forall s :: s in order + queue' <==> s in inDegree' && inDegree'[s] == 0
    {
      var neighbor := neighbors[k];
      NeighborDepends(m, graph, current, neighbor);
      forall s
        ensures Count(neighbors[..k + 1], s) == Count(neighbors[..k], s) + if neighbor == s then 1 else 0
        ensures Count(neighbors[..k + 1], s) <= Count(neighbors, s)
      {
        CountNext(neighbors, k, s);
      }
      inDegree' := inDegree'[neighbor := inDegree'[neighbor] - 1];
      if inDegree'[neighbor] == 0 {
        NothingPending(DepsOf(m, neighbor), after);
        QueueOne(m, order, queue', neighbor);
        queue' := queue' + [neighbor];
      }
    }
    assert neighbors[..|neighbors|] == neighbors;
  }

  lemma {:induction false} NeighborDepends(m: Dependencies, graph: Dependencies, c: Name, s: Name)
    requires Reversed(m, graph, {}) && s in DepsOf(graph, c)
    ensures s in Names(m)
  {
    Counted(DepsOf(graph, c), s);
    Counted(DepsOf(m, s), c);
  }

  lemma {:induction false} QueueOne(m: Dependencies, order: seq<Name>, queue: seq<Name>, s: Name)
    requires NoDuplicates(order + queue) && Ordered(m, order + queue) && s !in order + queue
    requires forall d | d in DepsOf(m, s) :: d in SetOf(order)
    ensures NoDuplicates(order + (queue + [s])) && Ordered(m, order + (queue + [s]))
  {
    var a, b := order + queue, order + (queue + [s]);
    assert b == a + [s];
    forall i | 0 <= i < |b|
      ensures forall d | d in DepsOf(m, b[i]) :: d in b[..i]
    {
      assert b[..i] == a[..i];
    }
  }

  /**
   * Kahn's algorithm. The length test fails exactly when the dependencies are circular; otherwise the result
   * lists every structure once, after all its dependencies.
   */
  method Sort(dependencies: Dependencies) returns (result: seq<Name>, warned: bool)
    ensures warned <==> Circular(dependencies)
    ensures NoDuplicates(result) && Elements(result, Names(dependencies))
    ensures !warned ==> Ordered(dependencies, result)
  {
    hide Circular, Ordered, NoDuplicates, Names, Pending, Reversed;
    var graph, inDegree := BuildGraph(dependencies);
    var queue := InitialQueue(dependencies, inDegree);
    var order: seq<Name> := [];
    ghost var done: set<Name> := {};
    while queue != []
      invariant Consistent(dependencies, inDegree, done, order + queue)
      invariant done == SetOf(order)
      decreases |Names(dependencies)| - |order|
    {
      var current := queue[0];
      ghost var was, whole := order, order + queue;
      queue := queue[1..];
      order := order + [current];
      assert order + queue == whole;
      assert order[..|order| - 1] == was;
      LastNew(order, queue);
      DistinctCount(order, Names(dependencies));
      inDegree, queue := Process(dependencies, graph, inDegree, current, queue, order);
      done := SetOf(order);
    }
    assert order + queue == order;
    Lengths(dependencies, inDegree, order);
    if |order| != |inDegree| {
      result := ListOf(inDegree.Keys);
      return result, true;
    }
    return order, false;
  }

  /** A run that ends early leaves structures that all wait for one another. */
  lemma {:induction false} Lengths(m: Dependencies, inDegree: map<Name, int>, order: seq<Name>)
    requires Consistent(m, inDegree, SetOf(order), order)
    ensures |order| != |inDegree| <==> Circular(m)
    ensures |order| == |inDegree| ==> Elements(order, Names(m))
  {
    hide IsCycle, Circular, Ordered, Pending, WaitsFor, Names;
    var done := SetOf(order);
    var rest := Names(m) - done;
    SetOfDistinct(order);
    assert done <= Names(m);
    assert Names(m) == done + rest;
    assert |inDegree.Keys| == |inDegree|;
    if rest == {} {
      assert done == Names(m);
      OrderedIsAcyclic(m, order);
    } else {
      forall s | s in rest
        ensures WaitsFor(m, s, rest)
      {
        SomePending(m, s, done);
      }
      var s :| s in rest;
      StuckIsCircular(m, rest, [s]);
    }
  }

  lemma {:induction false} SomePending(m: Dependencies, s: Name, done: set<Name>)
    requires Pending(DepsOf(m, s), done) != 0
    ensures WaitsFor(m, s, Names(m) - done)
  {
    NothingPending(DepsOf(m, s), done);
    var d :| d in DepsOf(m, s) && d !in done;
    assert d in Names(m);
  }

  lemma {:induction false} LastNew(order: seq<Name>, queue: seq<Name>)
    requires order != [] && NoDuplicates(order + queue)
    ensures NoDuplicates(order) && order[|order| - 1] !in SetOf(order[..|order| - 1])
    ensures SetOf(order) == SetOf(order[..|order| - 1]) + {order[|order| - 1]}
  {
    var whole := order + queue;
    assert forall i | 0 <= i < |order| :: order[i] == whole[i];
    assert order == order[..|order| - 1] + [order[|order| - 1]];
  }

  lemma {:induction false} SetOfDistinct(order: seq<Name>)
    requires NoDuplicates(order)
    ensures |SetOf(order)| == |order|
  {
    if order != [] {
      var front, last := order[..|order| - 1], order[|order| - 1];
      SetOfDistinct(front);
      assert SetOf(order) == SetOf(front) + {last};
      assert last !in front;
    } else {
      assert SetOf(order) == {};
    }
  }

  method InitialQueue(ghost m: Dependencies, inDegree: map<Name, int>) returns (queue: seq<Name>)
    requires inDegree.Keys == Names(m) && forall s | s in inDegree :: inDegree[s] == |DepsOf(m, s)|
    ensures Consistent(m, inDegree, {}, [] + queue)
  {
    queue := [];
    var todo := inDegree.Keys;
    while todo != {}
      invariant todo <= inDegree.Keys && NoDuplicates(queue)
      invariant forall s :: s in queue <==> s in inDegree && s !in todo && inDegree[s] == 0
    {
      var struct :| struct in todo;
      todo := todo - {struct};
      if inDegree[struct] == 0 {
        queue := queue + [struct];
      }
    }
    assert [] + queue == queue;
    forall s | s in inDegree
      ensures inDegree[s] == Pending(DepsOf(m, s), {})
    {
      AllPending(DepsOf(m, s));
    }
  }

  method ListOf(names: set<Name>) returns (list: seq<Name>)
    ensures NoDuplicates(list) && Elements(list, names)
  {
    list := [];
    var todo := names;
    while todo != {}
      invariant todo <= names && NoDuplicates(list) && Elements(list, names - todo)
    {
      var s :| s in todo;
      todo := todo - {s};
      list := list + [s];
    }
  }
}
