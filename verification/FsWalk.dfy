/** The iterative walk over a directory tree with a stack of names and a stack of iterators. */
module FsWalk {
  import opened Options
  import opened GuestPaths
  import opened FsTree

  /** A directory tree in the order in which its hash maps iterate. A tail of `Entries` is an iterator. */
  datatype Listing = ListedFile | ListedDir(entries: Entries)
  datatype Entries = Done | Entry(name: string, node: Listing, rest: Entries)

  /** The listing shows the node, each child once. */
  ghost predicate Lists(n: Node, l: Listing)
    decreases l
  {
    match l
    case ListedFile => n.File?
    case ListedDir(es) => n.Directory? && ListsChildren(n.children, es)
  }

  ghost predicate ListsChildren(children: map<string, Node>, es: Entries)
    decreases es
  {
    match es
    case Done => children == map[]
    case Entry(c, l, rest) => c in children && Lists(children[c], l) && ListsChildren(children - {c}, rest)
  }

  /** The reference: recursive pre-order. */
  function PreOrder(es: Entries, prefix: Path): seq<Path>
    decreases es
  {
    match es
    case Done => []
    case Entry(c, l, rest) =>
      [prefix + [c]] + (if l.ListedDir? then PreOrder(l.entries, prefix + [c]) else []) + PreOrder(rest, prefix)
  }

  // ---------- the reference lists every descendant exactly once ----------

  /** `q` leads from the directory with these children to one of its descendants. */
  ghost predicate Below(children: map<string, Node>, q: Path) {
    q != [] && q[0] in children && Lookup(children[q[0]], q[1..]).Some?
  }

  lemma {:induction false} ListedIffBelow(children: map<string, Node>, es: Entries, prefix: Path, q: Path)
    requires ListsChildren(children, es)
    ensures q in PreOrder(es, prefix) <==> prefix <= q && Below(children, q[|prefix|..])
    decreases es
  {
    if es.Entry? {
      var c, l := es.name, es.node;
      ListedIffBelow(children - {c}, es.rest, prefix, q);
      if l.ListedDir? {
        ListedIffBelow(children[c].children, l.entries, prefix + [c], q);
      }
      if prefix + [c] <= q {
        assert q[|prefix|..][0] == c;
        assert q[|prefix|..][1..] == q[|prefix + [c]|..];
        var r := q[|prefix + [c]|..];
        assert q == prefix + [c] + r;
        assert Below(children, q[|prefix|..]) <==> Lookup(children[c], r).Some?;
        assert l.ListedDir? ==> (Lookup(children[c], r).Some? <==> r == [] || Below(children[c].children, r));
        assert l.ListedFile? ==> (Lookup(children[c], r).Some? <==> r == []);
        assert q == prefix + [c] <==> r == [];
        assert !Below(children - {c}, q[|prefix|..]);
      } else if prefix <= q && q != prefix {
        assert q[|prefix|..][0] != c by {
          assert q == prefix + q[|prefix|..];
        }
      }
    }
  }

  ghost predicate Distinct(s: seq<Path>) {
    forall i, j :: 0 <= i < j < |s| ==> s[i] != s[j]
  }

  lemma DistinctConcat(a: seq<Path>, b: seq<Path>)
    requires Distinct(a) && Distinct(b) && forall q :: q in a ==> q !in b
    ensures Distinct(a + b)
  {
    forall i, j | 0 <= i < j < |a + b|
      ensures (a + b)[i] != (a + b)[j]
    {
      if i < |a| <= j {
        assert a[i] in a && b[j - |a|] in b;
      }
    }
  }

  lemma {:induction false} PreOrderDistinct(children: map<string, Node>, es: Entries, prefix: Path)
    requires ListsChildren(children, es)
    ensures Distinct(PreOrder(es, prefix))
    decreases es
  {
    if es.Entry? {
      var c, l := es.name, es.node;
      var inner := if l.ListedDir? then PreOrder(l.entries, prefix + [c]) else [];
      PreOrderDistinct(children - {c}, es.rest, prefix);
      if l.ListedDir? {
        PreOrderDistinct(children[c].children, l.entries, prefix + [c]);
      }
      forall q | q in inner
        ensures q !in [prefix + [c]] && q !in PreOrder(es.rest, prefix)
      {
        ListedIffBelow(children[c].children, l.entries, prefix + [c], q);
        ListedIffBelow(children - {c}, es.rest, prefix, q);
        assert q[|prefix|..][0] == c;
      }
      ListedIffBelow(children - {c}, es.rest, prefix, prefix + [c]);
      assert (prefix + [c])[|prefix|..] == [c];
      DistinctConcat([prefix + [c]], inner);
      DistinctConcat([prefix + [c]] + inner, PreOrder(es.rest, prefix));
    }
  }

  // ---------- the walk ----------

  /** What the two stacks still owe. */
  ghost function Pending(names: Path, iterators: seq<Entries>): seq<Path>
    requires |iterators| == |names| + 1
    decreases |names|
  {
    PreOrder(iterators[|names|], names)
    + if names == [] then [] else Pending(names[..|names| - 1], iterators[..|names|])
  }

  ghost function Weight(es: Entries): nat
    decreases es
  {
    match es
    case Done => 1
    case Entry(_, l, rest) => 1 + (if l.ListedDir? then Weight(l.entries) else 0) + Weight(rest)
  }

  ghost function TotalWeight(iterators: seq<Entries>): nat {
    if iterators == [] then 0 else Weight(iterators[|iterators| - 1]) + TotalWeight(iterators[..|iterators| - 1])
  }

  ghost function Joined(paths: seq<Path>): seq<string> {
    seq(|paths|, i requires 0 <= i < |paths| => Join(paths[i]))
  }

  /** One step: the top iterator yields a file. */
  lemma PendingFile(names: Path, iterators: seq<Entries>)
    requires |iterators| == |names| + 1 && iterators[|names|].Entry? && iterators[|names|].node.ListedFile?
    ensures var e := iterators[|names|];
            var its := iterators[|names| := e.rest];
            && Pending(names, iterators) == [names + [e.name]] + Pending(names, its)
            && TotalWeight(its) < TotalWeight(iterators)
  {
    var e := iterators[|names|];
    var its := iterators[|names| := e.rest];
    assert its[..|names|] == iterators[..|names|];
    var below := if names == [] then [] else Pending(names[..|names| - 1], iterators[..|names|]);
    assert Pending(names, its) == PreOrder(e.rest, names) + below;
    assert Pending(names, iterators) == PreOrder(e, names) + below;
    hide Pending, PreOrder;
    PreOrderFile(e, names);
    Reassociate([names + [e.name]], PreOrder(e.rest, names), below);
  }

  lemma PreOrderFile(es: Entries, prefix: Path)
    requires es.Entry? && es.node.ListedFile?
    ensures PreOrder(es, prefix) == [prefix + [es.name]] + PreOrder(es.rest, prefix)
  {
    assert [prefix + [es.name]] + [] == [prefix + [es.name]];
  }

  lemma Reassociate(a: seq<Path>, b: seq<Path>, c: seq<Path>)
    ensures a + b + c == a + (b + c)
  {
  }

  /** One step: the top iterator yields a directory. */
  lemma PendingDir(names: Path, iterators: seq<Entries>)
    requires |iterators| == |names| + 1 && iterators[|names|].Entry? && iterators[|names|].node.ListedDir?
    ensures var e := iterators[|names|];
            Pending(names, iterators)
            == [names + [e.name]] + Pending(names + [e.name], iterators[|names| := e.rest] + [e.node.entries])
  {
    var e := iterators[|names|];
    var rest := iterators[|names| := e.rest];
    var names', its := names + [e.name], rest + [e.node.entries];
    assert rest[..|names|] == iterators[..|names|];
    assert names'[..|names|] == names && its[..|names'|] == rest;
    var below := if names == [] then [] else Pending(names[..|names| - 1], iterators[..|names|]);
    var inner := PreOrder(e.node.entries, names');
    assert Pending(names', its) == inner + Pending(names, rest);
    assert Pending(names, rest) == PreOrder(e.rest, names) + below;
    assert Pending(names, iterators) == [names'] + inner + PreOrder(e.rest, names) + below;
    hide Pending, PreOrder;
    Regroup([names'], inner, PreOrder(e.rest, names), below);
  }

  lemma Regroup(a: seq<Path>, b: seq<Path>, c: seq<Path>, d: seq<Path>)
    ensures a + b + c + d == a + (b + (c + d))
  {
  }

  lemma WeightDir(iterators: seq<Entries>)
    requires iterators != [] && iterators[|iterators| - 1].Entry? && iterators[|iterators| - 1].node.ListedDir?
    ensures var e := iterators[|iterators| - 1];
            TotalWeight(iterators[|iterators| - 1 := e.rest] + [e.node.entries]) < TotalWeight(iterators)
  {
    var e := iterators[|iterators| - 1];
    var rest := iterators[|iterators| - 1 := e.rest];
    assert rest[..|rest| - 1] == iterators[..|iterators| - 1];
    assert (rest + [e.node.entries])[..|rest|] == rest;
  }

  lemma PendingDone(names: Path, iterators: seq<Entries>)
    requires |iterators| == |names| + 1 && iterators[|names|].Done?
    ensures names == [] ==> Pending(names, iterators) == []
    ensures names != [] ==> Pending(names, iterators) == Pending(names[..|names| - 1], iterators[..|names|])
    ensures TotalWeight(iterators[..|names|]) < TotalWeight(iterators)
  {
  }

  lemma PendingFirst(entries: Entries)
    ensures Pending([], [entries]) == PreOrder(entries, []) && Joined([]) == []
  {
  }

  lemma JoinedAppend(paths: seq<Path>, p: Path)
    ensures Joined(paths + [p]) == Joined(paths) + [Join(p)]
  {
  }

  /** `enumerate_recursive` from the directory's own iterator on. */
  method Enumerate(entries: Entries) returns (paths: seq<string>)
    ensures paths == Joined(PreOrder(entries, []))
  {
    hide *;
    ghost var listed: seq<Path> := [];
    PendingFirst(entries);
    paths := [];
    var names: Path := [];
    var iterators := [entries];
    while true
      invariant |iterators| == |names| + 1
      invariant listed + Pending(names, iterators) == PreOrder(entries, [])
      invariant paths == Joined(listed)
      decreases TotalWeight(iterators)
    {
      var top := iterators[|iterators| - 1];
      if top.Entry? {
        if top.node.ListedDir? {
          PendingDir(names, iterators);
          WeightDir(iterators);
        } else {
          PendingFile(names, iterators);
        }
        iterators := iterators[|iterators| - 1 := top.rest];
        names := names + [top.name];
        paths := paths + [Join(names)];
        JoinedAppend(listed, names);
        listed := listed + [names];
        if top.node.ListedDir? {
          iterators := iterators + [top.node.entries];
        } else {
          names := names[..|names| - 1];
        }
      } else {
        PendingDone(names, iterators);
        iterators := iterators[..|iterators| - 1];
        if names == [] {
          assert listed + [] == listed;
          break;
        }
        names := names[..|names| - 1];
      }
    }
    assert names == [] && iterators == [];
  }
}
