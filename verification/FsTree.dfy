/** The guest filesystem as a tree, and the same tree seen as a table from paths to nodes without their children. */
module FsTree {
  import opened Options
  import opened GuestPaths

  /** A host path, component by component. */
  type HostPath = seq<string>

  datatype Location = HostFile(path: HostPath) | IpaMember(id: nat) | Resource(name: string)

  datatype Node =
    | File(location: Location, writeable: bool)
    | Directory(children: map<string, Node>, host: Option<HostPath>)

  /** A node without its children. */
  datatype Top = FileTop(location: Location, writeable: bool) | DirTop(host: Option<HostPath>)

  function TopOf(n: Node): Top {
    match n
    case File(l, w) => FileTop(l, w)
    case Directory(_, h) => DirTop(h)
  }

  /** `lookup_node_inner` */
  function Lookup(n: Node, p: Path): Option<Node>
    decreases |p|
  {
    if p == [] then Some(n)
    else if n.File? || p[0] !in n.children then None
    else Lookup(n.children[p[0]], p[1..])
  }

  function TopAt(n: Node, p: Path): Option<Top> {
    match Lookup(n, p)
    case None => None
    case Some(m) => Some(TopOf(m))
  }

  function Parent(p: Path): Path
    requires p != []
  {
    p[..|p| - 1]
  }

  function Name(p: Path): string
    requires p != []
  {
    p[|p| - 1]
  }

  /** Looking up a path is looking up its parent and then the name there. */
  lemma {:induction false} LookupStep(n: Node, p: Path)
    requires p != []
    ensures var d := Lookup(n, Parent(p));
            Lookup(n, p) == if d.Some? && d.value.Directory? && Name(p) in d.value.children
                            then Some(d.value.children[Name(p)]) else None
    decreases |p|
  {
    if |p| > 1 && n.Directory? && p[0] in n.children {
      LookupStep(n.children[p[0]], p[1..]);
      assert Parent(p)[1..] == Parent(p[1..]);
    } else if |p| == 1 {
      assert n.Directory? && p[0] in n.children ==> Lookup(n.children[p[0]], p[1..]) == Some(n.children[p[0]]);
    }
  }

  // ---------- replacing the children of one directory ----------

  function WithChildren(n: Node, p: Path, children: map<string, Node>): Node
    requires Lookup(n, p).Some? && Lookup(n, p).value.Directory?
    decreases |p|
  {
    if p == [] then n.(children := children)
    else n.(children := n.children[p[0] := WithChildren(n.children[p[0]], p[1..], children)])
  }

  /** Except below the directory, every path has the node it had, up to children. */
  lemma {:induction false} LookupWithChildren(n: Node, p: Path, children: map<string, Node>, q: Path)
    requires Lookup(n, p).Some? && Lookup(n, p).value.Directory?
    ensures var n' := WithChildren(n, p, children);
            if p <= q then Lookup(n', q) == Lookup(Lookup(n, p).value.(children := children), q[|p|..])
            else TopAt(n', q) == TopAt(n, q)
    decreases |p|
  {
    if p == [] {
      assert q[0..] == q;
    } else if q != [] && q[0] == p[0] {
      LookupWithChildren(n.children[p[0]], p[1..], children, q[1..]);
      assert p <= q <==> p[1..] <= q[1..];
      assert p <= q ==> q[|p|..] == q[1..][|p[1..]|..];
    }
  }

  ghost predicate SameBut(a: map<string, Node>, b: map<string, Node>, c: string) {
    forall x :: x != c ==> (x in b <==> x in a) && (x in b ==> b[x] == a[x])
  }

  /** Below a directory whose children change at one name, only paths through that name can change. */
  lemma ChildChange(n: Node, p: Path, children: map<string, Node>, c: string, q: Path)
    requires Lookup(n, p).Some? && Lookup(n, p).value.Directory?
    requires SameBut(Lookup(n, p).value.children, children, c)
    requires !(p + [c] <= q)
    ensures TopAt(WithChildren(n, p, children), q) == TopAt(n, q)
  {
    LookupWithChildren(n, p, children, q);
    if p <= q {
      LookupSplit(n, p, q[|p|..]);
      assert p + q[|p|..] == q;
      var r := q[|p|..];
      if r != [] {
        assert r[0] != c;
        assert r[0] in children <==> r[0] in Lookup(n, p).value.children;
      }
    }
  }

  lemma {:induction false} LookupSplit(n: Node, p: Path, r: Path)
    ensures Lookup(n, p + r) == if Lookup(n, p).Some? then Lookup(Lookup(n, p).value, r) else None
    decreases |p|
  {
    if p == [] {
      assert p + r == r;
    } else if n.Directory? && p[0] in n.children {
      LookupSplit(n.children[p[0]], p[1..], r);
      assert (p + r)[1..] == p[1..] + r;
    }
  }

  /** A node that has no children: a file or an empty directory. */
  predicate Childless(n: Node) {
    n.File? || n.children == map[]
  }

  /** The table changes at one path only. */
  ghost predicate Changed(n: Node, n': Node, at: Path, to: Option<Top>) {
    forall q: Path :: TopAt(n', q) == if q == at then to else TopAt(n, q)
  }

  /** Adding a childless node under a new name, or replacing one by it, changes the table at its path only. */
  lemma InsertChanges(n: Node, p: Path, c: string, child: Node)
    requires Lookup(n, p).Some? && Lookup(n, p).value.Directory? && Childless(child)
    requires c !in Lookup(n, p).value.children
    ensures var d := Lookup(n, p).value;
            Changed(n, WithChildren(n, p, d.children[c := child]), p + [c], Some(TopOf(child)))
  {
    var d := Lookup(n, p).value;
    var n' := WithChildren(n, p, d.children[c := child]);
    forall q: Path
      ensures TopAt(n', q) == if q == p + [c] then Some(TopOf(child)) else TopAt(n, q)
    {
      if p + [c] <= q {
        BelowName(n, p, d.children[c := child], c, q);
      } else {
        ChildChange(n, p, d.children[c := child], c, q);
      }
    }
  }

  /** Removing a childless node changes the table at its path only. */
  lemma RemoveChanges(n: Node, p: Path, c: string)
    requires Lookup(n, p).Some? && Lookup(n, p).value.Directory?
    requires c in Lookup(n, p).value.children && Childless(Lookup(n, p).value.children[c])
    ensures var d := Lookup(n, p).value;
            Changed(n, WithChildren(n, p, d.children - {c}), p + [c], None)
  {
    var d := Lookup(n, p).value;
    var n' := WithChildren(n, p, d.children - {c});
    forall q: Path
      ensures TopAt(n', q) == if q == p + [c] then None else TopAt(n, q)
    {
      if p + [c] <= q {
        BelowName(n, p, d.children - {c}, c, q);
      } else {
        ChildChange(n, p, d.children - {c}, c, q);
      }
    }
  }

  /** What lies at and below name `c`, before and after. */
  lemma BelowName(n: Node, p: Path, children: map<string, Node>, c: string, q: Path)
    requires Lookup(n, p).Some? && Lookup(n, p).value.Directory? && p + [c] <= q
    ensures var r := q[|p| + 1..];
            var d := Lookup(n, p).value;
            && Lookup(n, q) == (if c in d.children then Lookup(d.children[c], r) else None)
            && Lookup(WithChildren(n, p, children), q) == (if c in children then Lookup(children[c], r) else None)
            && (r == [] <==> q == p + [c])
  {
    LookupWithChildren(n, p, children, q);
    LookupSplit(n, p, q[|p|..]);
    assert p + q[|p|..] == q;
    assert q[|p|..][1..] == q[|p| + 1..];
    assert q[|p|..][0] == c;
    assert q == p + [c] + q[|p| + 1..];
  }

  // ---------- the loops ----------

  /** The loop shared by `lookup_node_inner` and `lookup_parent_node`. */
  method Descend(root: Node, components: Path) returns (r: Option<Node>)
    ensures r == Lookup(root, components)
  {
    var node := root;
    for i := 0 to |components|
      invariant Lookup(node, components[i..]) == Lookup(root, components)
    {
      if node.File? || components[i] !in node.children {
        return None;
      }
      assert components[i..][1..] == components[i + 1..];
      node := node.children[components[i]];
    }
    return Some(node);
  }
}
