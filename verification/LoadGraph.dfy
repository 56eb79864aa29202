/** The dependency graph among packaged binaries, independently of how it is sorted. */
module LoadGraph {

  datatype Node = Node(name: string, dependencies: seq<string>)

  type Edges = seq<(nat, nat)>   // (dependency, dependent), with repetitions

  /** Dylib paths carry a prefix that binary names do not. */
  function StripPrefix(path: string): string {
    if "/usr/lib/" <= path then path[9..] else path
  }

  /** A dependency entry names a binary: by its name behind the prefix, or by the bare name if that does not itself
      begin with the prefix. */
  predicate Names(dependency: string, name: string) {
    dependency == "/usr/lib/" + name || (dependency == name && !("/usr/lib/" <= name))
  }

  lemma StripNames(dependency: string, name: string)
    ensures Names(dependency, name) <==> StripPrefix(dependency) == name
  {
    if "/usr/lib/" <= dependency {
      assert dependency == "/usr/lib/" + dependency[9..];
    }
    assert ("/usr/lib/" + name)[9..] == name;
  }

  /** The entry names the binary at index `d`. */
  ghost predicate Leads(m: map<string, nat>, dependency: string, d: nat) {
    exists x :: x in m && m[x] == d && Names(dependency, x)
  }

  lemma StripLeads(m: map<string, nat>, dependency: string, d: nat)
    ensures Leads(m, dependency, d) <==> StripPrefix(dependency) in m && m[StripPrefix(dependency)] == d
  {
    forall x
      ensures Names(dependency, x) <==> StripPrefix(dependency) == x
    {
      StripNames(dependency, x);
    }
  }

  /** Name to index; among equal names the last one wins. */
  function IndexOf(graph: seq<Node>): (m: map<string, nat>)
    ensures forall x :: x in m ==> m[x] < |graph| && graph[m[x]].name == x
    ensures forall i :: 0 <= i < |graph| ==> graph[i].name in m && i <= m[graph[i].name]
  {
    if graph == [] then map[] else
      var n := |graph| - 1;
      var m := IndexOf(graph[..n]);
      assert forall i :: 0 <= i < n ==> graph[..n][i] == graph[i];
      m[graph[n].name := n]
  }

  /** The indices that take part in the sort. */
  ghost function Nodes(graph: seq<Node>): set<nat> {
    IndexOf(graph).Values
  }

  ghost predicate DistinctNames(graph: seq<Node>) {
    forall i, j :: 0 <= i < j < |graph| ==> graph[i].name != graph[j].name
  }

  /** With distinct names every index takes part. */
  lemma DistinctNamesAllNodes(graph: seq<Node>)
    requires DistinctNames(graph)
    ensures forall i: nat :: i in Nodes(graph) <==> i < |graph|
  {
    var m := IndexOf(graph);
    forall i: nat | i < |graph|
      ensures i in Nodes(graph)
    {
      assert m[graph[i].name] == i;
    }
  }

  /** The edges contributed by one node's dependency list. */
  function EdgesInto(m: map<string, nat>, bin: nat, deps: seq<string>): (e: Edges)
    ensures forall k :: 0 <= k < |e| ==> e[k].1 == bin && e[k].0 in m.Values
  {
    if deps == [] then [] else
      var n := |deps| - 1;
      var d := StripPrefix(deps[n]);
      EdgesInto(m, bin, deps[..n]) + if d in m then assert m[d] in m.Values; [(m[d], bin)] else []
  }

  function EdgesOf(m: map<string, nat>, graph: seq<Node>): (e: Edges)
    requires forall i :: 0 <= i < |graph| ==> graph[i].name in m
    ensures forall k :: 0 <= k < |e| ==> e[k].0 in m.Values && e[k].1 in m.Values
  {
    if graph == [] then [] else
      var n := |graph| - 1;
      EdgesOf(m, graph[..n]) + EdgesInto(m, m[graph[n].name], graph[n].dependencies)
  }

  /** All edges of the graph; dependencies that are not packaged contribute none. */
  function GraphEdges(graph: seq<Node>): Edges {
    EdgesOf(IndexOf(graph), graph)
  }

  /** Entry `k` of binary `i`'s dependency list names `d`, and `i`'s name stands for `b`. */
  ghost predicate Entry(graph: seq<Node>, m: map<string, nat>, i: nat, k: nat, d: nat, b: nat)
    requires forall i :: 0 <= i < |graph| ==> graph[i].name in m
  {
    && i < |graph| && k < |graph[i].dependencies|
    && b == m[graph[i].name]
    && Leads(m, graph[i].dependencies[k], d)
  }

  lemma {:induction false} EdgesIntoMean(m: map<string, nat>, bin: nat, deps: seq<string>, d: nat)
    ensures (d, bin) in EdgesInto(m, bin, deps) <==>
            exists k :: 0 <= k < |deps| && Leads(m, deps[k], d)
  {
    hide Leads, StripPrefix;
    if deps != [] {
      var n := |deps| - 1;
      StripLeads(m, deps[n], d);
      EdgesIntoMean(m, bin, deps[..n], d);
      assert forall k :: 0 <= k < n ==> deps[..n][k] == deps[k];
    }
  }

  lemma {:induction false} EdgesOfMean(m: map<string, nat>, graph: seq<Node>, d: nat, b: nat)
    requires forall i :: 0 <= i < |graph| ==> graph[i].name in m
    ensures (d, b) in EdgesOf(m, graph) <==> DependsOn(graph, m, d, b)
  {
    if graph != [] {
      var n := |graph| - 1;
      var first, last := EdgesOf(m, graph[..n]), EdgesInto(m, m[graph[n].name], graph[n].dependencies);
      assert EdgesOf(m, graph) == first + last;
      EdgesOfMean(m, graph[..n], d, b);
      LastMeans(m, graph[n], d, b);
      DependsOnLast(m, graph, d, b);
      hide EdgesOf, EdgesInto, DependsOn, EntryOf;
    }
  }

  /** The node has an entry that names `d`, and its own name stands for `b`. */
  ghost predicate EntryOf(m: map<string, nat>, node: Node, d: nat, b: nat)
    requires node.name in m
  {
    b == m[node.name] && exists k :: 0 <= k < |node.dependencies| && Leads(m, node.dependencies[k], d)
  }

  lemma LastMeans(m: map<string, nat>, node: Node, d: nat, b: nat)
    requires node.name in m
    ensures (d, b) in EdgesInto(m, m[node.name], node.dependencies) <==> EntryOf(m, node, d, b)
  {
    hide Leads;
    EdgesIntoMean(m, m[node.name], node.dependencies, d);
  }

  lemma DependsOnLast(m: map<string, nat>, graph: seq<Node>, d: nat, b: nat)
    requires graph != [] && forall i :: 0 <= i < |graph| ==> graph[i].name in m
    ensures var n := |graph| - 1;
            DependsOn(graph, m, d, b) <==> DependsOn(graph[..n], m, d, b) || EntryOf(m, graph[n], d, b)
  {
    hide Leads;
    var n := |graph| - 1;
    if i: nat, k: nat :| Entry(graph[..n], m, i, k, d, b) {
      assert Entry(graph, m, i, k, d, b);
    }
    if EntryOf(m, graph[n], d, b) {
      var k :| 0 <= k < |graph[n].dependencies| && Leads(m, graph[n].dependencies[k], d);
      assert Entry(graph, m, n, k, d, b);
    }
    if i: nat, k: nat :| Entry(graph, m, i, k, d, b) {
      if i < n {
        assert Entry(graph[..n], m, i, k, d, b);
      }
    }
  }

  /** `b` directly depends on `d`. */
  ghost predicate DependsOn(graph: seq<Node>, m: map<string, nat>, d: nat, b: nat)
    requires forall i :: 0 <= i < |graph| ==> graph[i].name in m
  {
    exists i: nat, k: nat :: Entry(graph, m, i, k, d, b)
  }

  /** The edges are exactly the packaged dependency entries. */
  lemma GraphEdgesMean(graph: seq<Node>, d: nat, b: nat)
    ensures (d, b) in GraphEdges(graph) <==> DependsOn(graph, IndexOf(graph), d, b)
  {
    EdgesOfMean(IndexOf(graph), graph, d, b);
  }

  /** With distinct names, binary `b` has an edge from binary `d` exactly when an entry of `b` names `d`. */
  lemma EdgesByName(graph: seq<Node>, d: nat, b: nat)
    requires DistinctNames(graph)
    ensures (d, b) in GraphEdges(graph) <==>
              d < |graph| && b < |graph| && exists k :: 0 <= k < |graph[b].dependencies|
                                                        && Names(graph[b].dependencies[k], graph[d].name)
  {
    var m := IndexOf(graph);
    GraphEdgesMean(graph, d, b);
    hide Names, GraphEdges;
    assert forall i :: 0 <= i < |graph| ==> m[graph[i].name] == i;
    if i: nat, k: nat :| Entry(graph, m, i, k, d, b) {
      assert i == b;
      var x :| x in m && m[x] == d && Names(graph[b].dependencies[k], x);
    }
    if d < |graph| && b < |graph| {
      if k: nat :| k < |graph[b].dependencies| && Names(graph[b].dependencies[k], graph[d].name) {
        assert Leads(m, graph[b].dependencies[k], d);
        assert Entry(graph, m, b, k, d, b);
      }
    }
  }

  // ---------- paths, cycles, orders ----------

  ghost predicate IsPath(e: Edges, p: seq<nat>) {
    forall i :: 0 <= i < |p| - 1 ==> (p[i], p[i + 1]) in e
  }

  ghost predicate IsCycle(e: Edges, p: seq<nat>) {
    |p| >= 2 && p[0] == p[|p| - 1] && IsPath(e, p)
  }

  ghost predicate Acyclic(e: Edges) {
    !exists p :: IsCycle(e, p)
  }

  ghost predicate NoDuplicates(s: seq<nat>) {
    forall i, j :: 0 <= i < j < |s| ==> s[i] != s[j]
  }

  /** Every dependency comes before its dependents. */
  ghost predicate Topological(e: Edges, order: seq<nat>) {
    forall i, j :: 0 <= i < |order| && 0 <= j < |order| && (order[i], order[j]) in e ==> i < j
  }

  /** Along a path, positions in the order strictly increase. */
  lemma {:induction false} PathAdvances(e: Edges, order: seq<nat>, p: seq<nat>, a: nat) returns (b: nat)
    requires forall k :: 0 <= k < |e| ==> e[k].1 in order
    requires Topological(e, order) && IsPath(e, p) && p != [] && a < |order| && order[a] == p[0]
    ensures a + |p| - 1 <= b < |order| && order[b] == p[|p| - 1]
    decreases |p|
  {
    if |p| == 1 {
      b := a;
    } else {
      assert (p[0], p[1]) in e;
      var c: nat :| c < |order| && order[c] == p[1];
      forall i | 0 <= i < |p[1..]| - 1
        ensures (p[1..][i], p[1..][i + 1]) in e
      {
        assert (p[i + 1], p[i + 2]) in e;
      }
      b := PathAdvances(e, order, p[1..], c);
    }
  }

  /** An order of all nodes leaves no room for a cycle. */
  lemma OrderMeansAcyclic(e: Edges, order: seq<nat>)
    requires forall k :: 0 <= k < |e| ==> e[k].0 in order && e[k].1 in order
    requires NoDuplicates(order) && Topological(e, order)
    ensures Acyclic(e)
  {
    if p :| IsCycle(e, p) {
      assert (p[0], p[1]) in e;
      var a: nat :| a < |order| && order[a] == p[0];
      var b := PathAdvances(e, order, p, a);
    }
  }

  /** Every node of `stuck` depends on another of them. */
  ghost predicate Blocked(e: Edges, stuck: set<nat>) {
    forall x {:trigger HasBlocker(e, stuck, x)} :: x in stuck ==> HasBlocker(e, stuck, x)
  }

  ghost predicate HasBlocker(e: Edges, stuck: set<nat>, x: nat) {
    exists d :: d in stuck && (d, x) in e
  }

  lemma Blocker(e: Edges, stuck: set<nat>, x: nat) returns (d: nat)
    requires Blocked(e, stuck) && x in stuck
    ensures d in stuck && (d, x) in e
  {
    assert HasBlocker(e, stuck, x);
    d :| d in stuck && (d, x) in e;
  }

  ghost predicate Within(p: seq<nat>, s: set<nat>) {
    forall i :: 0 <= i < |p| ==> p[i] in s
  }

  lemma {:induction false} WalkBack(e: Edges, stuck: set<nat>, x: nat, k: nat) returns (p: seq<nat>)
    requires Blocked(e, stuck) && x in stuck
    ensures |p| == k + 1 && p[k] == x && IsPath(e, p) && Within(p, stuck)
  {
    if k == 0 {
      p := [x];
    } else {
      var q := WalkBack(e, stuck, x, k - 1);
      var d := Blocker(e, stuck, q[0]);
      p := [d] + q;
      forall i | 0 <= i < |p| - 1
        ensures (p[i], p[i + 1]) in e
      {
        assert i > 0 ==> (q[i - 1], q[i]) in e;
      }
    }
  }

  lemma {:induction false} Pigeonhole(p: seq<nat>, s: set<nat>) returns (i: nat, j: nat)
    requires Within(p, s) && |p| > |s|
    ensures i < j < |p| && p[i] == p[j]
    decreases |p|
  {
    var n := |p| - 1;
    if p[n] in p[..n] {
      i :| i < n && p[..n][i] == p[n];
      j := n;
    } else {
      assert Within(p[..n], s - {p[n]});
      i, j := Pigeonhole(p[..n], s - {p[n]});
    }
  }

  /** Nodes that each wait for another of them contain a cycle. */
  lemma BlockedMeansCycle(e: Edges, stuck: set<nat>, x: nat) returns (p: seq<nat>)
    requires Blocked(e, stuck) && x in stuck
    ensures IsCycle(e, p) && Within(p, stuck)
  {
    var q := WalkBack(e, stuck, x, |stuck|);
    var i, j := Pigeonhole(q, stuck);
    p := q[i..j + 1];
    forall k | 0 <= k < |p| - 1
      ensures (p[k], p[k + 1]) in e
    {
      assert (q[i + k], q[i + k + 1]) in e;
    }
  }
}
