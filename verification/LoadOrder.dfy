/** Kahn's algorithm over the dependency graph: the order in which packaged binaries are loaded. */
module LoadOrder {
  import opened LoadGraph

  datatype Result = Ok(order: seq<nat>) | Err(name: string)

  /** The dependents pushed for a dependency, in order and with repetitions. */
  ghost function Dependents(e: Edges, d: nat): seq<nat> {
    if e == [] then [] else
      var n := |e| - 1;
      Dependents(e[..n], d) + if e[n].0 == d then [e[n].1] else []
  }

  /** How many dependency entries of `b` are not in `done`. */
  ghost function Waiting(e: Edges, done: set<nat>, b: nat): nat {
    if e == [] then 0 else
      var n := |e| - 1;
      Waiting(e[..n], done, b) + if e[n].1 == b && e[n].0 !in done then 1 else 0
  }

  lemma {:induction false} WaitingZero(e: Edges, done: set<nat>, b: nat)
    ensures Waiting(e, done, b) == 0 <==> forall k :: 0 <= k < |e| && e[k].1 == b ==> e[k].0 in done
  {
    if e != [] {
      WaitingZero(e[..|e| - 1], done, b);
    }
  }

  /** Finishing `d` releases each of its dependents once per entry. */
  lemma {:induction false} WaitingAfter(e: Edges, done: set<nat>, d: nat, b: nat)
    requires d !in done
    ensures Waiting(e, done + {d}, b) + multiset(Dependents(e, d))[b] == Waiting(e, done, b)
  {
    if e != [] {
      WaitingAfter(e[..|e| - 1], done, d, b);
    }
  }

  lemma {:induction false} DependentsAreTargets(e: Edges, d: nat)
    ensures forall b :: b in Dependents(e, d) ==> exists k :: 0 <= k < |e| && e[k].1 == b
  {
    if e != [] {
      var n := |e| - 1;
      DependentsAreTargets(e[..n], d);
      forall b | b in Dependents(e, d)
        ensures exists k :: 0 <= k < |e| && e[k].1 == b
      {
        if b in Dependents(e[..n], d) {
          var k :| 0 <= k < n && e[..n][k].1 == b;
          assert e[k].1 == b;
        } else {
          assert e[n].1 == b;
        }
      }
    }
  }

  // ---------- building the two maps ----------

  ghost predicate Lists(e: Edges, dependents: map<nat, seq<nat>>) {
    forall d :: Dependents(e, d) == if d in dependents then dependents[d] else []
  }

  ghost predicate Built(e: Edges, nodes: set<nat>, dependents: map<nat, seq<nat>>, degrees: map<nat, int>) {
    && Lists(e, dependents)
    && degrees.Keys == nodes
    && (forall b :: b in nodes ==> degrees[b] == Waiting(e, {}, b))
  }

  lemma BuiltAdd(e: Edges, nodes: set<nat>, dependents: map<nat, seq<nat>>, degrees: map<nat, int>, d: nat, b: nat)
    requires Built(e, nodes, dependents, degrees) && b in nodes
    ensures Built(e + [(d, b)], nodes,
                  dependents[d := (if d in dependents then dependents[d] else []) + [b]],
                  degrees[b := degrees[b] + 1])
  {
    var e' := e + [(d, b)];
    assert e'[..|e'| - 1] == e;
  }

  lemma BuiltStart(nodes: set<nat>)
    ensures Built([], nodes, map[], map i | i in nodes :: 0)
  {
  }

  lemma BuiltKeys(e: Edges, nodes: set<nat>, dependents: map<nat, seq<nat>>, degrees: map<nat, int>)
    requires Built(e, nodes, dependents, degrees)
    ensures degrees.Keys == nodes && Lists(e, dependents)
  {
  }

  /** Adds the dependency list of one binary to `node_dependents` and `node_in_degrees`. */
  method AddBinary(index: map<string, nat>, bin: nat, deps: seq<string>, dependents0: map<nat, seq<nat>>,
                   degrees0: map<nat, int>, ghost e0: Edges)
    returns (dependents: map<nat, seq<nat>>, degrees: map<nat, int>)
    requires bin in index.Values && Built(e0, index.Values, dependents0, degrees0)
    ensures Built(e0 + EdgesInto(index, bin, deps), index.Values, dependents, degrees)
  {
    hide Built;
    dependents, degrees := dependents0, degrees0;
    ghost var e := e0;
    for k := 0 to |deps|
      invariant e == e0 + EdgesInto(index, bin, deps[..k])
      invariant Built(e, index.Values, dependents, degrees)
    {
      assert deps[..k + 1][..k] == deps[..k];
      BuiltKeys(e, index.Values, dependents, degrees);
      var d := StripPrefix(deps[k]);
      if d in index {
        BuiltAdd(e, index.Values, dependents, degrees, index[d], bin);
        dependents := dependents[index[d] := (if index[d] in dependents then dependents[index[d]] else []) + [bin]];
        degrees := degrees[bin := degrees[bin] + 1];
        e := e + [(index[d], bin)];
      }
    }
    assert deps[..|deps|] == deps;
  }

  /** The first loop. */
  method Build(graph: seq<Node>) returns (dependents: map<nat, seq<nat>>, degrees: map<nat, int>)
    ensures Built(GraphEdges(graph), Nodes(graph), dependents, degrees)
  {
    hide Built;
    var index := IndexOf(graph);
    dependents := map[];
    degrees := map i | i in index.Values :: 0;
    BuiltStart(index.Values);
    for n := 0 to |graph|
      invariant Built(EdgesOf(index, graph[..n]), index.Values, dependents, degrees)
    {
      assert graph[..n + 1][..n] == graph[..n];
      dependents, degrees := AddBinary(index, index[graph[n].name], graph[n].dependencies, dependents, degrees,
                                       EdgesOf(index, graph[..n]));
    }
    assert graph[..|graph|] == graph;
  }

  // ---------- the main loop ----------

  ghost function Elements(s: seq<nat>): set<nat> {
    set x | x in s
  }

  /** State between two rounds: exactly the nodes without unfinished dependencies have been queued or sorted. */
  ghost predicate Sorting(e: Edges, nodes: set<nat>, degrees: map<nat, int>, queue: seq<nat>, sorted: seq<nat>) {
    && degrees.Keys == nodes
    && NoDuplicates(sorted + queue)
    && (forall b :: b in nodes ==> degrees[b] == Waiting(e, Elements(sorted), b))
    && (forall b :: b in sorted + queue <==> b in nodes && degrees[b] == 0)
    && Topological(e, sorted)
  }

  /** State while the dependents `ds[p..]` of the last sorted node still wait to be released. */
  ghost predicate Releasing(e: Edges, nodes: set<nat>, degrees: map<nat, int>, queue: seq<nat>, sorted: seq<nat>,
                            left: multiset<nat>)
  {
    && degrees.Keys == nodes
    && NoDuplicates(sorted + queue)
    && (forall b :: b in nodes ==> degrees[b] == Waiting(e, Elements(sorted), b) + left[b])
    && (forall b :: b in sorted + queue <==> b in nodes && degrees[b] == 0)
    && Topological(e, sorted)
  }

  lemma TakeNode(e: Edges, nodes: set<nat>, degrees: map<nat, int>, queue: seq<nat>, sorted: seq<nat>)
    requires Sorting(e, nodes, degrees, queue, sorted) && queue != []
    ensures Releasing(e, nodes, degrees, queue[1..], sorted + [queue[0]], multiset(Dependents(e, queue[0])))
  {
    var node := queue[0];
    var sorted' := sorted + [node];
    assert sorted' + queue[1..] == sorted + queue;
    assert node in sorted + queue;
    assert (sorted + queue)[|sorted|] == node;
    assert forall i :: 0 <= i < |sorted| ==> (sorted + queue)[i] == sorted[i];
    assert Elements(sorted') == Elements(sorted) + {node};
    forall b | b in nodes
      ensures degrees[b] == Waiting(e, Elements(sorted'), b) + multiset(Dependents(e, node))[b]
    {
      WaitingAfter(e, Elements(sorted), node, b);
    }
    TakeTopological(e, nodes, degrees, queue, sorted);
    hide Topological, Waiting;
  }

  /** Everything that the next node or an already sorted one waits for is sorted. */
  lemma TakeTopological(e: Edges, nodes: set<nat>, degrees: map<nat, int>, queue: seq<nat>, sorted: seq<nat>)
    requires Sorting(e, nodes, degrees, queue, sorted) && queue != []
    ensures Topological(e, sorted + [queue[0]])
  {
    hide Waiting;
    var sorted' := sorted + [queue[0]];
    assert sorted' + queue[1..] == sorted + queue;
    assert forall i :: 0 <= i < |sorted'| ==> (sorted + queue)[i] == sorted'[i];
    forall i, j | 0 <= i < |sorted'| && 0 <= j < |sorted'| && (sorted'[i], sorted'[j]) in e
      ensures i < j
    {
      assert (sorted + queue)[j] in sorted + queue;
      WaitingZero(e, Elements(sorted), sorted'[j]);
      var k :| 0 <= k < |sorted| && sorted[k] == sorted'[i];
      assert (sorted + queue)[k] == (sorted + queue)[i];
    }
  }

  lemma ReleaseOne(e: Edges, nodes: set<nat>, degrees: map<nat, int>, queue: seq<nat>, sorted: seq<nat>,
                   left: multiset<nat>, b: nat)
    requires Releasing(e, nodes, degrees, queue, sorted, left) && b in left && b in nodes
    ensures Releasing(e, nodes, degrees[b := degrees[b] - 1],
                      if degrees[b] == 1 then queue + [b] else queue, sorted, left - multiset{b})
  {
    assert degrees[b] > 0;
    assert b !in sorted + queue;
    if degrees[b] == 1 {
      assert sorted + (queue + [b]) == (sorted + queue) + [b];
    }
  }

  lemma AllReleased(e: Edges, nodes: set<nat>, degrees: map<nat, int>, queue: seq<nat>, sorted: seq<nat>)
    requires Releasing(e, nodes, degrees, queue, sorted, multiset{})
    ensures Sorting(e, nodes, degrees, queue, sorted)
  {
  }

  /** `for &dependant in dependents`: decrements each in-degree and queues a node when it reaches zero. */
  method Release(ghost e: Edges, ghost nodes: set<nat>, ds: seq<nat>, degrees0: map<nat, int>, queue0: seq<nat>,
                 ghost sorted: seq<nat>) returns (degrees: map<nat, int>, queue: seq<nat>)
    requires Releasing(e, nodes, degrees0, queue0, sorted, multiset(ds))
    requires forall b :: b in ds ==> b in nodes
    ensures Sorting(e, nodes, degrees, queue, sorted)
  {
    degrees, queue := degrees0, queue0;
    assert ds[0..] == ds;
    for p := 0 to |ds|
      invariant Releasing(e, nodes, degrees, queue, sorted, multiset(ds[p..]))
    {
      var b := ds[p];
      assert ds[p..] == [b] + ds[p + 1..];
      assert multiset(ds[p..]) - multiset{b} == multiset(ds[p + 1..]);
      ReleaseOne(e, nodes, degrees, queue, sorted, multiset(ds[p..]), b);
      degrees := degrees[b := degrees[b] - 1];
      if degrees[b] == 0 {
        queue := queue + [b];
      }
    }
    AllReleased(e, nodes, degrees, queue, sorted);
  }

  /** The initial queue: the nodes of in-degree zero, in whatever order the hash map yields them. */
  method Leaves(degrees: map<nat, int>) returns (queue: seq<nat>)
    ensures NoDuplicates(queue)
    ensures forall b :: b in queue <==> b in degrees && degrees[b] == 0
  {
    var rest := degrees.Keys;
    queue := [];
    while rest != {}
      invariant rest <= degrees.Keys && NoDuplicates(queue)
      invariant forall b :: b in queue <==> b in degrees && b !in rest && degrees[b] == 0
      decreases |rest|
    {
      var b :| b in rest;
      rest := rest - {b};
      if degrees[b] == 0 {
        queue := queue + [b];
      }
    }
  }

  lemma StartSorting(e: Edges, nodes: set<nat>, dependents: map<nat, seq<nat>>, degrees: map<nat, int>, queue: seq<nat>)
    requires Built(e, nodes, dependents, degrees) && NoDuplicates(queue)
    requires forall b :: b in queue <==> b in degrees && degrees[b] == 0
    ensures Sorting(e, nodes, degrees, queue, [])
  {
    assert [] + queue == queue;
    assert Elements([]) == {};
  }

  lemma SortedSize(nodes: set<nat>, sorted: seq<nat>)
    requires NoDuplicates(sorted) && Within(sorted, nodes)
    ensures |sorted| <= |nodes|
  {
    if |sorted| > |nodes| {
      var i, j := Pigeonhole(sorted, nodes);
    }
  }

  lemma SortingFacts(e: Edges, nodes: set<nat>, degrees: map<nat, int>, queue: seq<nat>, sorted: seq<nat>)
    requires Sorting(e, nodes, degrees, queue, sorted)
    ensures degrees.Keys == nodes && NoDuplicates(sorted) && Within(sorted, nodes) && Within(queue, nodes)
    ensures |sorted| + |queue| <= |nodes|
  {
    forall i | 0 <= i < |sorted|
      ensures sorted[i] in nodes
    {
      assert (sorted + queue)[i] == sorted[i];
    }
    assert forall i, j :: 0 <= i < j < |sorted| ==>
             (sorted + queue)[i] == sorted[i] && (sorted + queue)[j] == sorted[j];
    assert forall x :: x in queue ==> x in sorted + queue;
    SortedSize(nodes, sorted + queue);
  }

  lemma DependentsInNodes(e: Edges, nodes: set<nat>, d: nat)
    requires forall k :: 0 <= k < |e| ==> e[k].1 in nodes
    ensures forall b :: b in Dependents(e, d) ==> b in nodes
  {
    DependentsAreTargets(e, d);
  }

  /** The main loop. */
  method Drain(ghost e: Edges, ghost nodes: set<nat>, dependents: map<nat, seq<nat>>, degrees0: map<nat, int>,
               queue0: seq<nat>) returns (degrees: map<nat, int>, sorted: seq<nat>)
    requires Sorting(e, nodes, degrees0, queue0, [])
    requires forall k :: 0 <= k < |e| ==> e[k].1 in nodes
    requires Lists(e, dependents)
    ensures Sorting(e, nodes, degrees, [], sorted)
  {
    hide Sorting, Releasing;
    var queue := queue0;
    degrees, sorted := degrees0, [];
    SortingFacts(e, nodes, degrees, queue, sorted);
    while queue != []
      invariant Sorting(e, nodes, degrees, queue, sorted) && |sorted| <= |nodes|
      decreases |nodes| - |sorted|
    {
      var node := queue[0];
      TakeNode(e, nodes, degrees, queue, sorted);
      DependentsInNodes(e, nodes, node);
      queue := queue[1..];
      sorted := sorted + [node];
      degrees, queue := Release(e, nodes, if node in dependents then dependents[node] else [], degrees, queue, sorted);
      SortingFacts(e, nodes, degrees, queue, sorted);
    }
  }

  /** Nodes left with a positive in-degree wait for each other. */
  lemma LeftoversBlocked(e: Edges, nodes: set<nat>, degrees: map<nat, int>, sorted: seq<nat>)
    requires Sorting(e, nodes, degrees, [], sorted)
    requires forall k :: 0 <= k < |e| ==> e[k].0 in nodes
    ensures Blocked(e, nodes - Elements(sorted))
  {
    assert sorted + [] == sorted;
    var stuck := nodes - Elements(sorted);
    forall x | x in stuck
      ensures HasBlocker(e, stuck, x)
    {
      WaitingZero(e, Elements(sorted), x);
      var k :| 0 <= k < |e| && e[k].1 == x && e[k].0 !in Elements(sorted);
      assert e[k] == (e[k].0, x);
    }
  }

  lemma Outcome(e: Edges, nodes: set<nat>, degrees: map<nat, int>, sorted: seq<nat>)
    requires Sorting(e, nodes, degrees, [], sorted)
    requires forall k :: 0 <= k < |e| ==> e[k].0 in nodes && e[k].1 in nodes
    ensures degrees.Keys == nodes && NoDuplicates(sorted) && Topological(e, sorted)
    ensures Blocked(e, nodes - Elements(sorted))
    ensures forall x :: x in degrees && degrees[x] > 0 ==> x in nodes - Elements(sorted)
    ensures if exists x :: x in degrees && degrees[x] > 0 then !Acyclic(e)
            else Acyclic(e) && forall x :: x in sorted <==> x in nodes
  {
    assert sorted + [] == sorted;
    LeftoversBlocked(e, nodes, degrees, sorted);
    if x :| x in degrees && degrees[x] > 0 {
      var p := BlockedMeansCycle(e, nodes - Elements(sorted), x);
    } else {
      assert forall x :: x in nodes ==> x in sorted + [];
      OrderMeansAcyclic(e, sorted);
    }
  }

  /** Sorts the binaries. It succeeds exactly when the packaged dependencies form no cycle; then the order lists
      every node once, each dependency before its dependents. On failure it names a node that waits, through
      other such nodes, for itself or for a node on a cycle. */
  method GenerateBinaryLoadOrder(graph: seq<Node>) returns (r: Result)
    ensures r.Ok? <==> Acyclic(GraphEdges(graph))
    ensures r.Ok? ==> NoDuplicates(r.order) && (forall x :: x in r.order <==> x in Nodes(graph))
    ensures r.Ok? ==> Topological(GraphEdges(graph), r.order)
    ensures r.Err? ==> exists x, stuck :: x in stuck && stuck <= Nodes(graph) && graph[x].name == r.name
                                          && Blocked(GraphEdges(graph), stuck)
  {
    hide Sorting, Built;
    ghost var e, nodes := GraphEdges(graph), Nodes(graph);
    var dependents, degrees := Build(graph);
    var queue := Leaves(degrees);
    StartSorting(e, nodes, dependents, degrees, queue);
    BuiltKeys(e, nodes, dependents, degrees);
    var sorted;
    degrees, sorted := Drain(e, nodes, dependents, degrees, queue);
    Outcome(e, nodes, degrees, sorted);
    if x :| x in degrees && degrees[x] > 0 {
      return Err(graph[x].name);
    }
    return Ok(sorted);
  }
}
