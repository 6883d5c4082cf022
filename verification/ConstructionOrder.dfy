/**
 The order in which the service constructs its backends: Kahn's algorithm over the dependency lists of
 the configuration, and a depth-first search that reports a cycle when the algorithm stops short.
 */
module ConstructionOrder {
  import opened TreeModel

  /** Each backend with the backends it needs. */
  type Graph = map<string, seq<string>>

  predicate RepeatFree(xs: seq<string>) {
    forall i, j :: 0 <= i < j < |xs| ==> xs[i] != xs[j]
  }

  function SetOf(xs: seq<string>): set<string> {
    set x | x in xs
  }

  ghost predicate AllRepeatFree(g: Graph) {
    forall n :: n in g ==> RepeatFree(g[n])
  }

  ghost predicate NoneMissing(g: Graph) {
    forall n, d :: n in g && d in g[n] ==> d in g
  }

  /** `a` needs `b`. */
  predicate Needs(g: Graph, a: string, b: string) {
    a in g && b in g[a]
  }

  ghost predicate IsWalk(g: Graph, w: seq<string>) {
    forall i, j :: 0 <= i && j == i + 1 < |w| ==> Needs(g, w[i], w[j])
  }

  /** A closed walk along dependencies. */
  ghost predicate IsCycle(g: Graph, w: seq<string>) {
    |w| >= 2 && w[0] == w[|w| - 1] && IsWalk(g, w)
  }

  ghost predicate Acyclic(g: Graph) {
    forall w :: !IsCycle(g, w)
  }

  /** Every backend of the list comes after all the backends it needs. */
  ghost predicate DependenciesFirst(g: Graph, order: seq<string>) {
    forall i :: 0 <= i < |order| ==> order[i] in g && forall d :: d in g[order[i]] ==> d in order[..i]
  }

  // ---- counting ----

  lemma {:induction false} DistinctSize(xs: seq<string>)
    ensures |SetOf(xs)| <= |xs|
    ensures RepeatFree(xs) <==> |SetOf(xs)| == |xs|
  {
    if xs != [] {
      var init, last := xs[..|xs| - 1], xs[|xs| - 1];
      DistinctSize(init);
      assert xs == init + [last];
      assert SetOf(xs) == SetOf(init) + {last};
      if last in init {
        var i :| 0 <= i < |init| && init[i] == last;
        assert xs[i] == xs[|xs| - 1];
        assert SetOf(xs) == SetOf(init);
      } else {
        assert RepeatFree(init) ==> RepeatFree(xs);
      }
    }
  }

  lemma SubsetSize(a: set<string>, b: set<string>)
    requires a <= b
    ensures |a| <= |b| && (|a| == |b| ==> a == b)
  {
    var rest := b - a;
    assert b == a + rest && |b| == |a| + |rest|;
    if |rest| == 0 { assert rest == {}; }
  }

  /** The dependencies of `n` that are already in the order. */
  ghost function DoneDeps(g: Graph, n: string, order: seq<string>): set<string>
    requires n in g
  {
    set d | d in g[n] && d in order
  }

  /** Nothing is left of a list exactly when all of it is done and nothing in it repeats. */
  lemma NothingLeft(g: Graph, n: string, order: seq<string>)
    requires n in g
    ensures |g[n]| >= |DoneDeps(g, n, order)|
    ensures |g[n]| == |DoneDeps(g, n, order)| <==> RepeatFree(g[n]) && forall d :: d in g[n] ==> d in order
  {
    DistinctSize(g[n]);
    assert DoneDeps(g, n, order) <= SetOf(g[n]);
    SubsetSize(DoneDeps(g, n, order), SetOf(g[n]));
    if forall d :: d in g[n] ==> d in order { assert DoneDeps(g, n, order) == SetOf(g[n]); }
    if DoneDeps(g, n, order) == SetOf(g[n]) {
      forall d | d in g[n] ensures d in order { assert d in SetOf(g[n]); }
    }
  }

  lemma OneMoreDone(g: Graph, n: string, order: seq<string>, current: string)
    requires n in g && current !in order
    ensures |DoneDeps(g, n, order + [current])| == |DoneDeps(g, n, order)| + if current in g[n] then 1 else 0
  {
    if current in g[n] {
      assert DoneDeps(g, n, order + [current]) == DoneDeps(g, n, order) + {current};
    } else {
      assert DoneDeps(g, n, order + [current]) == DoneDeps(g, n, order);
    }
  }

  // ---- orders and cycles ----

  /** Along a walk that starts in an order, positions in it only fall. */
  lemma {:induction false} WalkDescends(g: Graph, order: seq<string>, w: seq<string>, i: nat, k: nat) returns (j: nat)
    requires DependenciesFirst(g, order) && IsWalk(g, w) && k < |w|
    requires i < |order| && order[i] == w[0]
    ensures j < |order| && order[j] == w[k] && j + k <= i
    decreases k
  {
    if k == 0 {
      j := i;
    } else {
      var p := WalkDescends(g, order, w, i, k - 1);
      assert Needs(g, w[k - 1], w[k]);
      j :| 0 <= j < p && order[j] == w[k];
    }
  }

  /** No cycle starts at a backend that some order contains. */
  lemma {:induction false} NoCycleAt(g: Graph, order: seq<string>, w: seq<string>, i: nat)
    requires DependenciesFirst(g, order) && i < |order| && w != [] && order[i] == w[0]
    ensures !IsCycle(g, w)
    decreases i
  {
    if IsCycle(g, w) {
      var j := WalkDescends(g, order, w, i, |w| - 1);
      NoCycleAt(g, order, w, j);
    }
  }

  ghost predicate NotOnCycle(g: Graph, n: string) {
    forall w :: IsCycle(g, w) ==> w[0] != n
  }

  lemma OrderedNotOnCycle(g: Graph, order: seq<string>, n: string)
    requires DependenciesFirst(g, order) && n in order
    ensures NotOnCycle(g, n)
  {
    var i :| 0 <= i < |order| && order[i] == n;
    forall w | IsCycle(g, w) ensures w[0] != n {
      if w[0] == n { NoCycleAt(g, order, w, i); }
    }
  }

  /** If every backend outside `done` needs another one outside, no order can contain one of them. */
  lemma {:induction false} StuckOutside(g: Graph, done: seq<string>, order: seq<string>, i: nat)
    requires DependenciesFirst(g, order) && i < |order|
    requires forall m :: m in g && m !in done ==> exists d :: d in g[m] && d !in done
    ensures order[i] in done
    decreases i
  {
    if order[i] !in done {
      var d :| d in g[order[i]] && d !in done;
      var j :| 0 <= j < i && order[j] == d;
      StuckOutside(g, done, order, j);
    }
  }

  // ---- the depth-first search ----

  /** std::find in a list that holds the element. */
  method PositionOf(xs: seq<string>, x: string) returns (i: nat)
    requires x in xs
    ensures i < |xs| && xs[i] == x
  {
    i := 0;
    while xs[i] != x
      invariant 0 <= i < |xs| && x in xs[i..]
      decreases |xs| - i
    {
      i := i + 1;
    }
  }

  class CycleSearch {
    const dependencies: Graph
    var visited: set<string>
    var path: seq<string>
    var cycle: seq<string>          // the reported path, closed
    ghost var finished: seq<string> // left without a cycle, in that order

    constructor (dependencies: Graph)
      ensures this.dependencies == dependencies && Valid() && path == []
    {
      this.dependencies := dependencies;
      visited, path, cycle, finished := {}, [], [], [];
    }

    ghost predicate Valid()
      reads this
    {
      && IsWalk(dependencies, path) && (forall n :: n in path ==> n in dependencies)
      && visited == SetOf(path) + SetOf(finished)
      && visited <= dependencies.Keys
      && DependenciesFirst(dependencies, finished)
    }

    method Clear()
      modifies this
      ensures Valid() && path == []
    {
      visited, path, finished := {}, [], [];
    }

    /** A cycle through the path to `node`, or none anywhere below it. */
    method FindCycle(node: string) returns (found: bool)
      requires Valid() && NoneMissing(dependencies) && node in dependencies
      requires path != [] ==> Needs(dependencies, path[|path| - 1], node)
      modifies this
      ensures found ==> IsCycle(dependencies, cycle)
      ensures !found ==> Valid() && path == old(path) && node in finished
      ensures !found ==> old(finished) <= finished && old(visited) <= visited
      decreases dependencies.Keys - visited
    {
      hide IsWalk, DependenciesFirst, SetOf;
      if node in path {
        var start := PositionOf(path, node);
        ClosedPath(dependencies, path, start, node);
        cycle := path[start..] + [node];
        return true;
      }
      InSetOf(finished, node);
      InSetOf(path, node);
      if node in visited {
        return false;
      }
      ghost var outer, done := path, finished;
      WalkFurther(dependencies, path, node);
      SetOfMore(path, node);
      visited := visited + {node};
      path := path + [node];
      ghost var entered := visited;
      var deps := dependencies[node];
      for k := 0 to |deps|
        invariant Valid() && path == outer + [node]
        invariant done <= finished && entered <= visited
        invariant forall i :: 0 <= i < k ==> deps[i] in finished
      {
        assert Needs(dependencies, node, deps[k]);
        ghost var sofar := finished;
        var inner := FindCycle(deps[k]);
        if inner {
          return true;
        }
        assert forall i :: 0 <= i < k ==> deps[i] in sofar;
      }
      path := path[..|path| - 1];
      assert path == outer;
      WalkPrefix(dependencies, outer, node);
      Extends(dependencies, finished, node);
      SetOfMore(finished, node);
      finished := finished + [node];
      return false;
    }
  }

  lemma InSetOf(xs: seq<string>, x: string)
    ensures x in SetOf(xs) <==> x in xs
  {
  }

  lemma SetOfMore(xs: seq<string>, x: string)
    ensures SetOf(xs + [x]) == SetOf(xs) + {x}
  {
  }

  lemma WalkFurther(g: Graph, w: seq<string>, n: string)
    requires IsWalk(g, w) && (w != [] ==> Needs(g, w[|w| - 1], n))
    ensures IsWalk(g, w + [n])
  {
  }

  lemma WalkPrefix(g: Graph, w: seq<string>, n: string)
    requires IsWalk(g, w + [n])
    ensures IsWalk(g, w)
  {
    forall i, j | 0 <= i && j == i + 1 < |w| ensures Needs(g, w[i], w[j]) {
      assert Needs(g, (w + [n])[i], (w + [n])[j]);
    }
  }

  /** A path that comes back to one of its nodes contains a cycle. */
  lemma ClosedPath(g: Graph, path: seq<string>, start: nat, n: string)
    requires IsWalk(g, path) && start < |path| && path[start] == n && Needs(g, path[|path| - 1], n)
    ensures IsCycle(g, path[start..] + [n])
  {
    var w := path[start..] + [n];
    forall i, j | 0 <= i && j == i + 1 < |w| ensures Needs(g, w[i], w[j]) {
      assert j < |w| - 1 ==> Needs(g, path[start + i], path[start + j]);
    }
  }

  lemma Extends(g: Graph, order: seq<string>, n: string)
    requires DependenciesFirst(g, order) && n in g && forall d :: d in g[n] ==> d in order
    ensures DependenciesFirst(g, order + [n])
  {
    var longer := order + [n];
    forall i | 0 <= i < |longer| ensures longer[i] in g && forall d :: d in g[longer[i]] ==> d in longer[..i] {
      if i < |order| {
        assert longer[..i] == order[..i];
      } else {
        assert longer[..i] == order;
      }
    }
  }

  // ---- Kahn's algorithm ----

  datatype SortResult =
    | Order(order: seq<string>)
    | MissingDependencies(missing: seq<(string, string)>)
    | Circular(cycle: Option<seq<string>>, unprocessed: seq<string>, searches: nat)

  /** `names` is the map's iteration order. */
  ghost predicate Lists(names: seq<string>, g: Graph) {
    RepeatFree(names) && SetOf(names) == g.Keys
  }

  method FindMissing(names: seq<string>, g: Graph) returns (missing: seq<(string, string)>)
    requires Lists(names, g)
    ensures forall p :: p in missing <==> p.0 in g && p.1 in g[p.0] && p.1 !in g
  {
    missing := [];
    for i := 0 to |names|
      invariant forall p :: p in missing <==> p.0 in names[..i] && p.0 in g && p.1 in g[p.0] && p.1 !in g
    {
      assert names[i] in SetOf(names);
      var deps := g[names[i]];
      ghost var before := missing;
      for k := 0 to |deps|
        invariant forall p :: p in missing <==> p in before || (p.0 == names[i] && p.1 in deps[..k] && p.1 !in g)
      {
        assert deps[..k + 1] == deps[..k] + [deps[k]];
        if deps[k] !in g {
          missing := missing + [(names[i], deps[k])];
        }
      }
      assert deps[..|deps|] == deps;
      assert names[..i + 1] == names[..i] + [names[i]];
    }
    forall p: (string, string) | p.0 in g ensures p.0 in names[..|names|] {
      assert p.0 in SetOf(names);
      assert names[..|names|] == names;
    }
  }

  /** The in-degree of `n` counts its dependencies that are not yet in the order. */
  ghost predicate Counted(g: Graph, degree: map<string, int>, n: string, order: seq<string>) {
    n in g && n in degree && degree[n] == |g[n]| - |DoneDeps(g, n, order)|
  }

  /** What the loops of the algorithm keep. */
  ghost predicate KahnState(names: seq<string>, g: Graph, degree: map<string, int>, queue: seq<string>, result: seq<string>) {
    && Lists(names, g) && degree.Keys == g.Keys
    && RepeatFree(result + queue)
    && (forall n :: n in result || n in queue ==> n in g)
    && DependenciesFirst(g, result)
    && (forall n :: n in g ==> Counted(g, degree, n, result))
    && (forall n :: n in g ==> (degree[n] == 0 <==> n in result || n in queue))
  }

  /** The state inside the inner loop: the first `j` names already count `current` as done. */
  ghost predicate MidState(names: seq<string>, g: Graph, degree: map<string, int>, queue: seq<string>,
                           result: seq<string>, current: string, j: nat)
    requires j <= |names|
  {
    && Lists(names, g) && degree.Keys == g.Keys && current !in result
    && RepeatFree(result + [current] + queue)
    && (forall n :: n in result || n in queue || n == current ==> n in g)
    && (forall i :: 0 <= i < j ==> Counted(g, degree, names[i], result + [current]))
    && (forall i :: j <= i < |names| ==> Counted(g, degree, names[i], result))
    && (forall n :: n in g ==> (degree[n] == 0 <==> n in result || n in queue || n == current))
  }

  /** Kahn's loop: what it lists, and why it stops. */
  method Kahn(names: seq<string>, g: Graph) returns (result: seq<string>)
    requires Lists(names, g) && NoneMissing(g)
    ensures RepeatFree(result) && DependenciesFirst(g, result)
    ensures forall n :: n in result ==> n in g
    ensures forall n :: n in g ==>
              (n in result <==> RepeatFree(g[n]) && forall d :: d in g[n] ==> d in result)
  {
    var degree: map<string, int>, queue := Roots(names, g);
    result := [];
    while queue != []
      invariant KahnState(names, g, degree, queue, result)
      decreases |names| - |result|
    {
      hide KahnState, MidState;
      var current := queue[0];
      StartStep(names, g, degree, queue, result, current);
      degree, queue := Relax(names, g, degree, queue[1..], result, current);
      EndStep(names, g, degree, queue, result, current);
      result := result + [current];
    }
    Exhausted(names, g, degree, result);
  }

  /** In-degrees, and the queue of the backends that need nothing. */
  method Roots(names: seq<string>, g: Graph) returns (degree: map<string, int>, queue: seq<string>)
    requires Lists(names, g)
    ensures KahnState(names, g, degree, queue, [])
  {
    degree := map n | n in g :: |g[n]|;
    queue := [];
    for i := 0 to |names|
      invariant RepeatFree(queue)
      invariant forall n :: n in queue <==> n in names[..i] && n in g && degree[n] == 0
    {
      InSetOf(names, names[i]);
      assert names[i] !in names[..i] && names[..i + 1] == names[..i] + [names[i]];
      if degree[names[i]] == 0 {
        queue := queue + [names[i]];
      }
    }
    assert names[..|names|] == names;
    RootsState(names, g, degree, queue);
  }

  lemma RootsState(names: seq<string>, g: Graph, degree: map<string, int>, queue: seq<string>)
    requires Lists(names, g) && RepeatFree(queue)
    requires degree == map n | n in g :: |g[n]|
    requires forall n :: n in queue <==> n in names && n in g && degree[n] == 0
    ensures KahnState(names, g, degree, queue, [])
  {
    assert [] + queue == queue;
    forall n | n in g ensures n in names && Counted(g, degree, n, []) {
      InSetOf(names, n);
      assert DoneDeps(g, n, []) == {};
    }
  }

  /** The inner loop: every backend that needs `current` has one dependency less to wait for. */
  method Relax(names: seq<string>, g: Graph, degree0: map<string, int>, queue0: seq<string>,
               result: seq<string>, current: string)
    returns (degree: map<string, int>, queue: seq<string>)
    requires MidState(names, g, degree0, queue0, result, current, 0)
    ensures MidState(names, g, degree, queue, result, current, |names|)
  {
    hide MidState, Lists;
    degree, queue := degree0, queue0;
    for j := 0 to |names|
      invariant MidState(names, g, degree, queue, result, current, j)
    {
      RelaxStep(names, g, degree, queue, result, current, j);
      var name := names[j];
      if current in g[name] {
        degree := degree[name := degree[name] - 1];
        if degree[name] == 0 {
          queue := queue + [name];
        }
      }
    }
  }

  lemma RelaxStep(names: seq<string>, g: Graph, degree: map<string, int>, queue: seq<string>,
                  result: seq<string>, current: string, j: nat)
    requires j < |names| && MidState(names, g, degree, queue, result, current, j)
    ensures names[j] in g && names[j] in degree
    ensures var name := names[j];
            if current !in g[name] then MidState(names, g, degree, queue, result, current, j + 1)
            else
              var less := degree[name := degree[name] - 1];
              MidState(names, g, less, if less[name] == 0 then queue + [name] else queue, result, current, j + 1)
  {
    hide MidState, Counted;
    MidCounted(names, g, degree, queue, result, current, j);
    if current in g[names[j]] {
      StillWaiting(names, g, degree, queue, result, current, j);
      RelaxNeeded(names, g, degree, queue, result, current, j);
    } else {
      RelaxSkipped(names, g, degree, queue, result, current, j);
    }
  }

  lemma MidCounted(names: seq<string>, g: Graph, degree: map<string, int>, queue: seq<string>,
                   result: seq<string>, current: string, j: nat)
    requires j < |names| && MidState(names, g, degree, queue, result, current, j)
    ensures Counted(g, degree, names[j], result) && names[j] in g && names[j] in degree
    ensures current !in g[names[j]] ==> Counted(g, degree, names[j], result + [current])
  {
    assert Counted(g, degree, names[j], result);
    OneMoreDone(g, names[j], result, current);
    hide DoneDeps, RepeatFree;
  }

  lemma RelaxSkipped(names: seq<string>, g: Graph, degree: map<string, int>, queue: seq<string>,
                     result: seq<string>, current: string, j: nat)
    requires j < |names| && MidState(names, g, degree, queue, result, current, j)
    requires Counted(g, degree, names[j], result + [current])
    ensures MidState(names, g, degree, queue, result, current, j + 1)
  {
    hide Counted, Lists, RepeatFree;
  }

  lemma RelaxNeeded(names: seq<string>, g: Graph, degree: map<string, int>, queue: seq<string>,
                    result: seq<string>, current: string, j: nat)
    requires j < |names| && MidState(names, g, degree, queue, result, current, j)
    requires names[j] in g && current in g[names[j]] && degree[names[j]] > 0
    requires names[j] !in result + [current] + queue
    ensures var name := names[j];
            var less := degree[name := degree[name] - 1];
            MidState(names, g, less, if less[name] == 0 then queue + [name] else queue, result, current, j + 1)
  {
    var name := names[j];
    var less := degree[name := degree[name] - 1];
    assert Counted(g, degree, name, result);
    OneMoreDone(g, name, result, current);
    OtherNames(names, j);
    hide DoneDeps, RepeatFree;
    forall i | 0 <= i < |names| && i != j
      ensures names[i] != name
      ensures forall order :: Counted(g, degree, names[i], order) ==> Counted(g, less, names[i], order)
    {
    }
    QueueOneMore(result + [current] + queue, name);
    assert result + [current] + queue + [name] == result + [current] + (queue + [name]);
  }

  lemma StillWaiting(names: seq<string>, g: Graph, degree: map<string, int>, queue: seq<string>,
                     result: seq<string>, current: string, j: nat)
    requires j < |names| && MidState(names, g, degree, queue, result, current, j)
    requires names[j] in g && current in g[names[j]]
    ensures degree[names[j]] > 0 && names[j] !in result + [current] + queue
  {
    assert Counted(g, degree, names[j], result);
    OneMoreDone(g, names[j], result, current);
    NothingLeft(g, names[j], result + [current]);
  }

  lemma OtherNames(names: seq<string>, j: nat)
    requires RepeatFree(names) && j < |names|
    ensures forall i :: 0 <= i < |names| && i != j ==> names[i] != names[j]
  {
  }

  lemma QueueOneMore(xs: seq<string>, x: string)
    requires RepeatFree(xs) && x !in xs
    ensures RepeatFree(xs + [x])
  {
  }

  lemma NotLonger(names: seq<string>, g: Graph, xs: seq<string>)
    requires Lists(names, g) && RepeatFree(xs) && forall n :: n in xs ==> n in g
    ensures |xs| <= |names|
  {
    DistinctSize(xs);
    DistinctSize(names);
    assert SetOf(xs) <= SetOf(names);
    SubsetSize(SetOf(xs), SetOf(names));
  }

  lemma StartStep(names: seq<string>, g: Graph, degree: map<string, int>, queue: seq<string>, result: seq<string>, current: string)
    requires KahnState(names, g, degree, queue, result) && queue != [] && queue[0] == current
    ensures MidState(names, g, degree, queue[1..], result, current, 0)
    ensures |result| < |names| && current in g && forall d :: d in g[current] ==> d in result
  {
    NotLonger(names, g, result + queue);
    var whole := result + queue;
    assert result + [current] + queue[1..] == whole;
    assert whole[|result|] == current;
    assert forall i :: 0 <= i < |result| ==> whole[i] == result[i];
    assert queue == [current] + queue[1..];
    forall i | 0 <= i < |names| ensures names[i] in g { InSetOf(names, names[i]); }
    NothingLeft(g, current, result);
  }

  lemma EndStep(names: seq<string>, g: Graph, degree: map<string, int>, queue: seq<string>, result: seq<string>, current: string)
    requires MidState(names, g, degree, queue, result, current, |names|) && DependenciesFirst(g, result)
    requires current in g && forall d :: d in g[current] ==> d in result
    ensures KahnState(names, g, degree, queue, result + [current])
  {
    Extends(g, result, current);
    forall n | n in g ensures Counted(g, degree, n, result + [current]) {
      InSetOf(names, n);
      var i :| 0 <= i < |names| && names[i] == n;
    }
  }

  lemma Exhausted(names: seq<string>, g: Graph, degree: map<string, int>, result: seq<string>)
    requires KahnState(names, g, degree, [], result)
    ensures RepeatFree(result) && DependenciesFirst(g, result)
    ensures forall n :: n in result ==> n in g
    ensures forall n :: n in g ==>
              (n in result <==> RepeatFree(g[n]) && forall d :: d in g[n] ==> d in result)
  {
    assert result + [] == result;
    forall n | n in g
      ensures n in result <==> RepeatFree(g[n]) && forall d :: d in g[n] ==> d in result
    {
      NothingLeft(g, n, result);
    }
  }

  /**
   The sort succeeds exactly for an acyclic graph without repeated dependencies, and then lists every
   backend once behind all it needs.  Otherwise it names the missing pairs, or a genuine cycle; the bare
   list of unprocessed backends is reported only when there is no cycle and a dependency is repeated.
   */
  method TopologicalSort(names: seq<string>, g: Graph) returns (r: SortResult)
    requires Lists(names, g)
    ensures r.MissingDependencies? <==> !NoneMissing(g)
    ensures r.MissingDependencies? ==> forall p :: p in r.missing <==> p.0 in g && p.1 in g[p.0] && p.1 !in g
    ensures r.Order? <==> NoneMissing(g) && Acyclic(g) && AllRepeatFree(g)
    ensures r.Order? ==> RepeatFree(r.order) && SetOf(r.order) == g.Keys && DependenciesFirst(g, r.order)
    ensures r.Circular? && r.cycle.Some? ==> IsCycle(g, r.cycle.value)
    ensures r.Circular? ==> (r.cycle.None? <==> Acyclic(g))
    ensures r.Circular? && AllRepeatFree(g) ==> r.cycle.Some? && r.searches == 1
    ensures r.Circular? ==> RepeatFree(r.unprocessed) && forall n :: n in r.unprocessed <==> n in g && Troubled(g, n)
  {
    var missing := FindMissing(names, g);
    if missing != [] {
      assert missing[0] in missing;
      return MissingDependencies(missing);
    }
    forall n, d | n in g && d in g[n] ensures d in g { assert (n, d) !in missing; }
    var result := Kahn(names, g);
    if |result| == |names| {
      AllListed(names, g, result);
      OrderIsAcyclic(g, result);
      return Order(result);
    }
    r := ReportCycle(names, g, result);
  }

  lemma AllListed(names: seq<string>, g: Graph, result: seq<string>)
    requires Lists(names, g) && RepeatFree(result) && forall n :: n in result ==> n in g
    ensures |result| == |names| <==> SetOf(result) == g.Keys
  {
    DistinctSize(result);
    DistinctSize(names);
    assert SetOf(result) <= SetOf(names);
    SubsetSize(SetOf(result), SetOf(names));
  }

  lemma OrderIsAcyclic(g: Graph, order: seq<string>)
    requires DependenciesFirst(g, order) && SetOf(order) == g.Keys
    ensures Acyclic(g)
  {
    forall w ensures !IsCycle(g, w) {
      if IsCycle(g, w) {
        assert Needs(g, w[0], w[1]);
        InSetOf(order, w[0]);
        OrderedNotOnCycle(g, order, w[0]);
      }
    }
  }

  /** What Kahn's loop leaves behind when it stops short. */
  ghost predicate Stuck(names: seq<string>, g: Graph, result: seq<string>) {
    && Lists(names, g) && NoneMissing(g) && RepeatFree(result) && DependenciesFirst(g, result)
    && |result| != |names| && (forall n :: n in result ==> n in g)
    && (forall n :: n in g ==> (n in result <==> RepeatFree(g[n]) && forall d :: d in g[n] ==> d in result))
  }

  /** The error branch: search from each unprocessed backend until a cycle is found. */
  method ReportCycle(names: seq<string>, g: Graph, result: seq<string>) returns (r: SortResult)
    requires Stuck(names, g, result)
    ensures r.Circular? && !(Acyclic(g) && AllRepeatFree(g))
    ensures r.cycle.Some? ==> IsCycle(g, r.cycle.value)
    ensures r.cycle.None? <==> Acyclic(g)
    ensures AllRepeatFree(g) ==> r.cycle.Some? && r.searches == 1
    ensures RepeatFree(r.unprocessed) && forall n :: n in r.unprocessed <==> n in g && Troubled(g, n)
  {
    var unprocessed := Unprocessed(names, g, result);
    LeftBehind(names, g, result, unprocessed);
    hide Troubled, RepeatFree, AllRepeatFree, IsCycle, Stuck;
    var search := new CycleSearch(g);
    var k := 0;
    while k < |unprocessed|
      invariant fresh(search) && search.dependencies == g
      invariant 0 <= k <= |unprocessed|
      invariant forall i :: 0 <= i < k ==> NotOnCycle(g, unprocessed[i])
      invariant k > 0 ==> !AllRepeatFree(g)
    {
      hide NotOnCycle;
      assert unprocessed[k] in unprocessed;
      search.Clear();
      var found := search.FindCycle(unprocessed[k]);
      if found {
        CycleMeansCyclic(g, search.cycle);
        return Circular(Some(search.cycle), unprocessed, k + 1);
      }
      OrderedNotOnCycle(g, search.finished, unprocessed[k]);
      SearchSucceeds(names, g, result, search.finished, unprocessed[k]);
      k := k + 1;
    }
    NoneFound(g, result, unprocessed);
    r := Circular(None, unprocessed, k);
  }

  lemma CycleMeansCyclic(g: Graph, w: seq<string>)
    requires IsCycle(g, w)
    ensures !Acyclic(g)
  {
  }

  method Unprocessed(names: seq<string>, g: Graph, result: seq<string>) returns (unprocessed: seq<string>)
    requires Stuck(names, g, result)
    ensures unprocessed != [] && forall n :: n in unprocessed <==> n in g && n !in result
    ensures RepeatFree(unprocessed)
  {
    unprocessed := [];
    for i := 0 to |names|
      invariant RepeatFree(unprocessed)
      invariant forall n :: n in unprocessed <==> n in names[..i] && n !in result
    {
      assert names[..i + 1] == names[..i] + [names[i]];
      if names[i] !in result {
        unprocessed := unprocessed + [names[i]];
      }
    }
    assert names[..|names|] == names;
    forall n ensures n in g <==> n in names { InSetOf(names, n); }
    AllListed(names, g, result);
    forall n ensures n in result <==> n in SetOf(result) { InSetOf(result, n); }
  }

  ghost predicate LeadsTo(g: Graph, n: string, m: string) {
    exists w :: IsWalk(g, w) && w != [] && w[0] == n && w[|w| - 1] == m
  }

  /** The backend needs, directly or not, or is itself one that is on a cycle or repeats a dependency. */
  ghost predicate Troubled(g: Graph, n: string) {
    exists m :: m in g && LeadsTo(g, n, m) && (!RepeatFree(g[m]) || !NotOnCycle(g, m))
  }

  /** A walk through unlisted backends, as long as asked for or up to a repeated dependency. */
  lemma {:induction false} UnlistedWalk(names: seq<string>, g: Graph, result: seq<string>, n: string, k: nat)
    returns (w: seq<string>)
    requires Stuck(names, g, result) && n in g && n !in result
    ensures IsWalk(g, w) && w != [] && w[0] == n && forall m :: m in w ==> m in g && m !in result
    ensures |w| == k + 1 || !RepeatFree(g[w[|w| - 1]])
  {
    if k == 0 {
      w := [n];
    } else {
      w := UnlistedWalk(names, g, result, n, k - 1);
      var last := w[|w| - 1];
      if RepeatFree(g[last]) {
        assert last in w;
        var d := UnlistedNeed(names, g, result, last);
        WalkFurther(g, w, d);
        w := w + [d];
      }
    }
  }

  lemma UnlistedNeed(names: seq<string>, g: Graph, result: seq<string>, n: string) returns (d: string)
    requires Stuck(names, g, result) && n in g && n !in result && RepeatFree(g[n])
    ensures Needs(g, n, d) && d in g && d !in result
  {
    d :| d in g[n] && d !in result;
  }

  /** A walk with more steps than there are backends comes back to one of them. */
  lemma LongWalkReturns(g: Graph, w: seq<string>) returns (i: nat)
    requires IsWalk(g, w) && |w| > |g.Keys| && forall m :: m in w ==> m in g
    ensures i < |w| && !NotOnCycle(g, w[i])
  {
    DistinctSize(w);
    SubsetSize(SetOf(w), g.Keys);
    var j: nat;
    i, j :| 0 <= i < j < |w| && w[i] == w[j];
    var cycle := w[i..j + 1];
    forall a, b | 0 <= a && b == a + 1 < |cycle| ensures Needs(g, cycle[a], cycle[b]) {
      assert Needs(g, w[i + a], w[i + b]);
    }
    assert IsCycle(g, cycle) && cycle[0] == w[i];
  }

  lemma LeftBehindIsTroubled(names: seq<string>, g: Graph, result: seq<string>, n: string)
    requires Stuck(names, g, result) && n in g && n !in result
    ensures Troubled(g, n)
  {
    var w := UnlistedWalk(names, g, result, n, |g.Keys|);
    hide IsWalk, NotOnCycle, RepeatFree, Stuck, LeadsTo;
    var i := |w| - 1;
    if |w| > |g.Keys| { i := LongWalkReturns(g, w); }
    PartOfWalk(g, w, i);
    assert w[i] in w;
  }

  lemma ListedLeadsToNoTrouble(names: seq<string>, g: Graph, result: seq<string>, n: string, m: string)
    requires Stuck(names, g, result) && n in result && LeadsTo(g, n, m) && m in g
    ensures RepeatFree(g[m]) && NotOnCycle(g, m)
  {
    var w :| IsWalk(g, w) && w != [] && w[0] == n && w[|w| - 1] == m;
    var i :| 0 <= i < |result| && result[i] == n;
    var j := WalkDescends(g, result, w, i, |w| - 1);
    hide NotOnCycle, IsWalk, LeadsTo;
    OrderedNotOnCycle(g, result, m);
  }

  /** Kahn's loop leaves behind exactly the backends that lead to a cycle or a repeated dependency. */
  lemma LeftBehindExactly(names: seq<string>, g: Graph, result: seq<string>, n: string)
    requires Stuck(names, g, result) && n in g
    ensures n !in result <==> Troubled(g, n)
  {
    hide Stuck, LeadsTo, RepeatFree, NotOnCycle;
    if n !in result {
      LeftBehindIsTroubled(names, g, result, n);
    } else if Troubled(g, n) {
      var m :| m in g && LeadsTo(g, n, m) && (!RepeatFree(g[m]) || !NotOnCycle(g, m));
      ListedLeadsToNoTrouble(names, g, result, n, m);
    }
  }

  lemma LeftBehind(names: seq<string>, g: Graph, result: seq<string>, unprocessed: seq<string>)
    requires Stuck(names, g, result) && forall n :: n in unprocessed <==> n in g && n !in result
    ensures forall n :: n in unprocessed <==> n in g && Troubled(g, n)
  {
    hide Troubled, Stuck;
    forall n | n in g ensures n in unprocessed <==> Troubled(g, n) { LeftBehindExactly(names, g, result, n); }
  }

  lemma PartOfWalk(g: Graph, w: seq<string>, i: nat)
    requires IsWalk(g, w) && i < |w|
    ensures LeadsTo(g, w[0], w[i])
  {
    var part := w[..i + 1];
    forall a, b | 0 <= a && b == a + 1 < |part| ensures Needs(g, part[a], part[b]) {
      assert Needs(g, w[a], w[b]);
    }
    assert IsWalk(g, part) && part[0] == w[0] && part[|part| - 1] == w[i];
  }

  lemma EachWaitsOutside(names: seq<string>, g: Graph, result: seq<string>)
    requires Stuck(names, g, result) && AllRepeatFree(g)
    ensures forall m :: m in g && m !in result ==> exists d :: d in g[m] && d !in result
  {
  }

  /** Without repeated dependencies a search from an unprocessed backend cannot end without a cycle. */
  lemma SearchSucceeds(names: seq<string>, g: Graph, result: seq<string>, finished: seq<string>, n: string)
    requires Stuck(names, g, result) && DependenciesFirst(g, finished) && n in finished && n !in result
    ensures !AllRepeatFree(g)
  {
    hide Stuck, AllRepeatFree, DependenciesFirst;
    if AllRepeatFree(g) {
      EachWaitsOutside(names, g, result);
      var i :| 0 <= i < |finished| && finished[i] == n;
      StuckOutside(g, result, finished, i);
    }
  }

  lemma NoneFound(g: Graph, result: seq<string>, unprocessed: seq<string>)
    requires DependenciesFirst(g, result)
    requires forall n :: n in unprocessed <==> n in g && n !in result
    requires forall i :: 0 <= i < |unprocessed| ==> NotOnCycle(g, unprocessed[i])
    ensures Acyclic(g)
  {
    forall w ensures !IsCycle(g, w) {
      if IsCycle(g, w) {
        assert Needs(g, w[0], w[1]);
        if w[0] in result { OrderedNotOnCycle(g, result, w[0]); }
      }
    }
  }

  // ---- where the dependency lists come from, and what the order is for ----

  datatype BackendConfig = BackendConfig(backendType: Option<string>, backend: Option<string>, childNames: seq<string>)

  /** None stands for a missing required property. */
  function GetBackendDependencies(config: BackendConfig): Option<seq<string>> {
    var backendType :- config.backendType;
    if backendType == "simple" || backendType == "file" then Some([])
    else
      var backend :- config.backend;
      Some([backend] + if backendType == "composite" then config.childNames else [])
  }

  /** Which backends a configuration needs, by its type: its backend, and a composite its children as well. */
  lemma DependenciesOf(config: BackendConfig)
    ensures var deps := GetBackendDependencies(config);
            && (config.backendType == None ==> deps == None)
            && (config.backendType == Some("simple") || config.backendType == Some("file") ==> deps == Some([]))
            && (config.backendType.Some? && config.backendType.value !in {"simple", "file"} ==>
                  && (config.backend == None ==> deps == None)
                  && (config.backend.Some? ==>
                        && deps.Some? && |deps.value| > 0 && deps.value[0] == config.backend.value
                        && (config.backendType.value != "composite" ==> SetOf(deps.value) == {config.backend.value})
                        && (config.backendType.value == "composite" ==>
                              && deps.value[1..] == config.childNames
                              && SetOf(deps.value) == {config.backend.value} + SetOf(config.childNames))))
  {
    if config.backend.Some? {
      var deps := [config.backend.value] + config.childNames;
      assert deps[1..] == config.childNames && deps == [config.backend.value] + config.childNames;
      forall d ensures d in deps <==> d == config.backend.value || d in config.childNames {
      }
    }
  }

  /** The same needs, whatever is repeated in a list. */
  lemma {:induction false} SameCycles(g: Graph, h: Graph, w: seq<string>)
    requires g.Keys == h.Keys && forall n :: n in g ==> SetOf(g[n]) == SetOf(h[n])
    ensures IsCycle(g, w) <==> IsCycle(h, w)
  {
    assert forall n, d :: n in g ==> (d in g[n] <==> d in SetOf(g[n])) && (d in h[n] <==> d in SetOf(h[n]));
    hide SetOf;
    assert forall a, b :: Needs(g, a, b) <==> Needs(h, a, b);
  }

  /**
   Naming a dependency twice keeps a graph acyclic and complete, and makes the sort reject it: there is no
   cycle to report then.
   */
  lemma RepeatIsRejected(g: Graph, n: string, d: string)
    requires NoneMissing(g) && Acyclic(g) && n in g && d in g[n]
    ensures var h := g[n := g[n] + [d]];
            NoneMissing(h) && Acyclic(h) && !AllRepeatFree(h)
  {
    var h := g[n := g[n] + [d]];
    forall w ensures !IsCycle(h, w) {
      assert SetOf(h[n]) == SetOf(g[n]);
      SameCycles(g, h, w);
    }
    var k :| 0 <= k < |g[n]| && g[n][k] == d;
    assert h[n][k] == h[n][|g[n]|];
  }

  /** Only a composite that mounts its own root backend, or one backend twice, repeats a dependency. */
  lemma RepeatsComeFromComposites(config: BackendConfig)
    requires GetBackendDependencies(config).Some?
    ensures RepeatFree(GetBackendDependencies(config).value) <==>
              (config.backendType == Some("composite") ==>
                 RepeatFree(config.childNames) && config.backend.value !in config.childNames)
  {
    if config.backendType == Some("composite") { OneInFront(config.backend.value, config.childNames); }
  }

  lemma OneInFront(x: string, xs: seq<string>)
    ensures RepeatFree([x] + xs) <==> RepeatFree(xs) && x !in xs
  {
    var all := [x] + xs;
    assert forall i :: 0 <= i < |xs| ==> all[i + 1] == xs[i];
    if x in xs {
      var i :| 0 <= i < |xs| && xs[i] == x;
      assert all[0] == all[i + 1];
    }
    if !RepeatFree(xs) {
      var i, j :| 0 <= i < j < |xs| && xs[i] == xs[j];
      assert all[i + 1] == all[j + 1];
    }
  }

  /**
   The construction loop.  A factory needs the backends its configuration names to be constructed
   already; `sound` are the backends whose own type and properties a factory accepts.  In a sorted order
   no backend fails for want of a dependency that could be constructed at all.
   */
  method ConstructBackends(order: seq<string>, g: Graph, sound: set<string>) returns (created: set<string>, errors: nat)
    requires RepeatFree(order) && SetOf(order) == g.Keys && DependenciesFirst(g, order)
    ensures created <= g.Keys && errors == |g.Keys| - |created|
    ensures forall n :: n in g ==> (n in created <==> n in sound && forall d :: d in g[n] ==> d in created)
    ensures sound >= g.Keys ==> created == g.Keys && errors == 0
  {
    hide Constructible, DependenciesFirst, RepeatFree, SetOf;
    created, errors := {}, 0;
    NoElements();
    assert order[..0] == [];
    for i := 0 to |order|
      invariant created <= SetOf(order[..i]) && errors == i - |created|
      invariant forall k :: 0 <= k < i ==> (order[k] in created <==> Constructible(g, sound, created, order[k]))
      invariant sound >= g.Keys ==> created == SetOf(order[..i])
    {
      var name := order[i];
      assert order[..i + 1] == order[..i] + [name];
      SetOfMore(order[..i], name);
      InSetOf(order, name);
      ConstructStep(g, sound, order, created, i);
      if name in sound && (forall d :: d in g[name] ==> d in created) {
        created := created + {name};
      } else {
        errors := errors + 1;
      }
    }
    assert order[..|order|] == order;
    DistinctSize(order);
    forall n | n in g ensures n in created <==> n in sound && forall d :: d in g[n] ==> d in created {
      InSetOf(order, n);
      var k :| 0 <= k < |order| && order[k] == n;
      ConstructibleIs(g, sound, created, n);
    }
  }

  lemma NoElements()
    ensures SetOf([]) == {}
  {
  }

  lemma ConstructibleIs(g: Graph, sound: set<string>, created: set<string>, n: string)
    requires n in g
    ensures Constructible(g, sound, created, n) <==> n in sound && forall d :: d in g[n] ==> d in created
  {
  }

  predicate Constructible(g: Graph, sound: set<string>, created: set<string>, n: string) {
    n in g && n in sound && forall d :: d in g[n] ==> d in created
  }

  /** Creating a backend does not change which of the earlier ones, or it itself, are constructible. */
  lemma ConstructStep(g: Graph, sound: set<string>, order: seq<string>, created: set<string>, i: nat)
    requires DependenciesFirst(g, order) && RepeatFree(order) && i < |order| && created <= SetOf(order[..i])
    ensures order[i] !in created && order[i] in g
    ensures Constructible(g, sound, created, order[i]) <==>
              order[i] in sound && forall d :: d in g[order[i]] ==> d in created
    ensures forall k :: 0 <= k <= i ==>
              (Constructible(g, sound, created, order[k]) <==> Constructible(g, sound, created + {order[i]}, order[k]))
    ensures forall k :: 0 <= k < i ==> order[k] != order[i]
    ensures sound >= g.Keys && created == SetOf(order[..i]) ==> Constructible(g, sound, created, order[i])
  {
    forall k | 0 <= k <= i
      ensures Constructible(g, sound, created, order[k]) <==> Constructible(g, sound, created + {order[i]}, order[k])
    {
      forall d | d in g[order[k]] ensures d != order[i] { assert d in order[..k]; }
    }
  }
}
