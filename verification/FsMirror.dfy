/** The writable part of the guest filesystem mirrors host paths; the read-only part is frozen. */
module FsMirror {
  import opened Options
  import opened GuestPaths
  import opened FsTree

  /** The host path behind a writable node. */
  function HostOf(t: Top): Option<HostPath> {
    match t
    case FileTop(HostFile(h), true) => Some(h)
    case FileTop(_, _) => None
    case DirTop(h) => h
  }

  predicate ReadOnly(t: Top) {
    if t.FileTop? then !t.writeable else t.host.None?
  }

  /** Child `c` of a writable directory at `h` is backed by `h/c`. A read-only directory has no writable file. */
  ghost predicate LinkOk(parent: Top, c: string, child: Top) {
    && Proper(c)
    && parent.DirTop?
    && (if parent.host.Some? then HostOf(child) == Some(parent.host.value + [c])
        else child.FileTop? ==> !child.writeable)
  }

  ghost predicate MirrorAt(n: Node, q: Path) {
    q != [] && TopAt(n, q).Some? ==>
      TopAt(n, Parent(q)).Some? && LinkOk(TopAt(n, Parent(q)).value, Name(q), TopAt(n, q).value)
  }

  ghost predicate Mirror(n: Node) {
    n.Directory? && forall q :: MirrorAt(n, q)
  }

  /** Only directories have something below them. */
  lemma ParentIsDirectory(n: Node, q: Path)
    requires q != [] && TopAt(n, q).Some?
    ensures TopAt(n, Parent(q)).Some? && TopAt(n, Parent(q)).value.DirTop?
  {
    LookupStep(n, q);
  }

  // ---------- what never changes ----------

  ghost predicate InReadOnly(n: Node, q: Path) {
    q != [] && TopAt(n, Parent(q)) == Some(DirTop(None))
  }

  ghost predicate KeptAt(n: Node, n': Node, q: Path) {
    && (TopAt(n, q).Some? && ReadOnly(TopAt(n, q).value) ==> TopAt(n', q) == TopAt(n, q))
    && (TopAt(n', q).Some? && ReadOnly(TopAt(n', q).value) ==> TopAt(n', q) == TopAt(n, q))
    && (InReadOnly(n, q) ==> TopAt(n', q) == TopAt(n, q))
    && (InReadOnly(n', q) ==> TopAt(n', q) == TopAt(n, q))
    && (q == [] ==> TopAt(n', q) == TopAt(n, q))
  }

  /** Read-only nodes stay what and where they are, none appears, and read-only directories keep their own lists of
      children. */
  ghost predicate Kept(n: Node, n': Node) {
    forall q :: KeptAt(n, n', q)
  }

  lemma KeptSame(n: Node)
    ensures Kept(n, n)
  {
  }

  lemma KeptTrans(a: Node, b: Node, c: Node)
    requires Kept(a, b) && Kept(b, c)
    ensures Kept(a, c)
  {
    forall q
      ensures KeptAt(a, c, q)
    {
      assert KeptAt(a, b, q) && KeptAt(b, c, q);
      if q != [] {
        assert KeptAt(a, b, Parent(q)) && KeptAt(b, c, Parent(q));
      }
    }
  }

  /** The two kinds of change that an operation makes: a new mirrored node in a writable directory, or a node gone. */
  ghost predicate Allowed(n: Node, at: Path, to: Option<Top>) {
    && at != [] && Proper(Name(at))
    && TopAt(n, Parent(at)).Some? && TopAt(n, Parent(at)).value.DirTop?
    && TopAt(n, Parent(at)).value.host.Some?
    && (to.Some? ==> TopAt(n, at).None?
                     && HostOf(to.value) == Some(TopAt(n, Parent(at)).value.host.value + [Name(at)]))
  }

  lemma ChangeKeeps(n: Node, n': Node, at: Path, to: Option<Top>)
    requires Mirror(n) && Changed(n, n', at, to) && Allowed(n, at, to)
    ensures Mirror(n') && Kept(n, n')
  {
    assert TopAt(n', []) == TopAt(n, []);
    assert n'.Directory?;
    forall q
      ensures MirrorAt(n', q) && KeptAt(n, n', q)
    {
      assert MirrorAt(n, q) && MirrorAt(n, at);
      if q != [] {
        assert TopAt(n', Parent(q)) == if Parent(q) == at then to else TopAt(n, Parent(q));
        if TopAt(n', q).Some? {
          ParentIsDirectory(n', q);
        }
        if TopAt(n, q).Some? {
          ParentIsDirectory(n, q);
        }
      }
    }
  }

  // ---------- no two writable nodes share a host path ----------

  /** A writable directory that is not inside another. */
  ghost predicate Base(n: Node, q: Path) {
    && TopAt(n, q).Some? && TopAt(n, q).value.DirTop? && TopAt(n, q).value.host.Some?
    && (q == [] || InReadOnly(n, q))
  }

  ghost function HostAt(n: Node, q: Path): Option<HostPath> {
    if TopAt(n, q).Some? then HostOf(TopAt(n, q).value) else None
  }

  /** The host directories behind the bases are not inside each other. */
  ghost predicate BasesApart(n: Node) {
    forall a, b :: Base(n, a) && Base(n, b) && HostAt(n, a).value <= HostAt(n, b).value ==> a == b
  }

  lemma BasesStay(n: Node, n': Node)
    requires Kept(n, n') && BasesApart(n)
    ensures BasesApart(n')
  {
    forall a, b | Base(n', a) && Base(n', b) && HostAt(n', a).value <= HostAt(n', b).value
      ensures a == b
    {
      BaseStays(n, n', a);
      BaseStays(n, n', b);
    }
  }

  lemma BaseStays(n: Node, n': Node, a: Path)
    requires Kept(n, n') && Base(n', a)
    ensures Base(n, a) && HostAt(n, a) == HostAt(n', a)
  {
    assert KeptAt(n, n', a);
    if a != [] {
      assert KeptAt(n, n', Parent(a));
    }
  }

  /** A writable node lies in a base and its host path follows the guest path from there. */
  lemma {:induction false} BaseOf(n: Node, q: Path) returns (k: nat)
    requires Mirror(n) && HostAt(n, q).Some?
    ensures k <= |q| && Base(n, q[..k]) && HostAt(n, q) == Some(HostAt(n, q[..k]).value + q[k..])
    decreases |q|
  {
    assert MirrorAt(n, q);
    if q == [] || InReadOnly(n, q) {
      k := |q|;
      assert q[..k] == q && q[k..] == [];
      assert HostAt(n, q).value + q[k..] == HostAt(n, q).value;
    } else {
      k := BaseOf(n, Parent(q));
      assert Parent(q)[..k] == q[..k];
      assert Parent(q)[k..] + [Name(q)] == q[k..];
      var base := HostAt(n, q[..k]).value;
      assert base + Parent(q)[k..] + [Name(q)] == base + q[k..];
    }
  }

  lemma PrefixesCompare(a: HostPath, b: HostPath, h: HostPath)
    requires a <= h && b <= h
    ensures a <= b || b <= a
  {
    assert a == h[..|a|] && b == h[..|b|];
  }

  /** Distinct writable nodes have distinct host paths. */
  lemma HostPathsDistinct(n: Node, p: Path, q: Path)
    requires Mirror(n) && BasesApart(n)
    requires HostAt(n, p).Some? && HostAt(n, p) == HostAt(n, q)
    ensures p == q
  {
    var j := BaseOf(n, p);
    var k := BaseOf(n, q);
    var a, b := HostAt(n, p[..j]).value, HostAt(n, q[..k]).value;
    var h := HostAt(n, p).value;
    assert a <= h && b <= h && h[|a|..] == p[j..] && h[|b|..] == q[k..];
    PrefixesCompare(a, b, h);
    assert p[..j] == q[..k];
    assert p == p[..j] + p[j..] && q == q[..k] + q[k..];
  }

  /** A writable file lies in a writable directory. */
  lemma WritableFileInWritableDirectory(n: Node, q: Path)
    requires Mirror(n) && q != [] && TopAt(n, q).Some? && TopAt(n, q).value.FileTop? && TopAt(n, q).value.writeable
    ensures HostAt(n, Parent(q)).Some? && HostAt(n, q) == Some(HostAt(n, Parent(q)).value + [Name(q)])
  {
    assert MirrorAt(n, q);
  }

  // ---------- where such trees come from ----------

  datatype HostTree = HostLeaf | HostDir(entries: map<string, HostTree>)

  function HostLookup(t: HostTree, q: Path): Option<HostTree>
    decreases |q|
  {
    if q == [] then Some(t)
    else if t.HostLeaf? || q[0] !in t.entries then None
    else HostLookup(t.entries[q[0]], q[1..])
  }

  /** `from_host_dir` */
  function FromHost(t: HostTree, h: HostPath, writeable: bool): Node {
    match t
    case HostLeaf => File(HostFile(h), writeable)
    case HostDir(entries) =>
      Directory(map c | c in entries :: FromHost(entries[c], h + [c], writeable), if writeable then Some(h) else None)
  }

  lemma {:induction false} FromHostTop(t: HostTree, h: HostPath, writeable: bool, q: Path)
    ensures TopAt(FromHost(t, h, writeable), q)
            == match HostLookup(t, q)
               case None => None
               case Some(HostLeaf) => Some(FileTop(HostFile(h + q), writeable))
               case Some(_) => Some(DirTop(if writeable then Some(h + q) else None))
    decreases |q|
  {
    if q == [] {
      assert h + q == h;
    } else if t.HostDir? && q[0] in t.entries {
      FromHostTop(t.entries[q[0]], h + [q[0]], writeable, q[1..]);
      assert h + [q[0]] + q[1..] == h + q;
    }
  }

  lemma {:induction false} HostParent(t: HostTree, q: Path)
    requires q != [] && HostLookup(t, q).Some?
    ensures HostLookup(t, Parent(q)).Some? && HostLookup(t, Parent(q)).value.HostDir?
    decreases |q|
  {
    if |q| > 1 {
      HostParent(t.entries[q[0]], q[1..]);
      assert Parent(q)[1..] == Parent(q[1..]);
    }
  }

  /** Reading in a host directory gives a mirror of it. */
  lemma FromHostMirror(t: HostTree, h: HostPath, writeable: bool)
    requires t.HostDir? && forall q :: HostLookup(t, q).Some? ==> AllProper(q)
    ensures Mirror(FromHost(t, h, writeable))
    ensures writeable ==> forall q :: HostLookup(t, q).Some? ==> HostAt(FromHost(t, h, writeable), q) == Some(h + q)
  {
    var n := FromHost(t, h, writeable);
    forall q
      ensures MirrorAt(n, q)
    {
      FromHostTop(t, h, writeable, q);
      if q != [] && TopAt(n, q).Some? {
        FromHostTop(t, h, writeable, Parent(q));
        HostParent(t, q);
        assert h + Parent(q) + [Name(q)] == h + q;
      }
    }
    forall q | writeable && HostLookup(t, q).Some?
      ensures HostAt(n, q) == Some(h + q)
    {
      FromHostTop(t, h, writeable, q);
    }
  }

  /** A read-only directory over mirrors and read-only files is a mirror. */
  lemma AssembledMirror(children: map<string, Node>)
    requires forall c :: c in children ==> Proper(c) && (children[c].File? ==> !children[c].writeable)
                                           && (children[c].Directory? ==> Mirror(children[c]))
    ensures Mirror(Directory(children, None))
  {
    var n := Directory(children, None);
    forall q
      ensures MirrorAt(n, q)
    {
      if q != [] && TopAt(n, q).Some? {
        ParentIsDirectory(n, q);
        var c := q[0];
        if |q| > 1 {
          assert MirrorAt(children[c], q[1..]);
          assert Parent(q)[1..] == Parent(q[1..]);
          assert Name(q) == Name(q[1..]);
        } else {
          assert q[1..] == [] && Lookup(n, q) == Lookup(children[c], q[1..]) == Some(children[c]);
        }
      }
    }
  }
}
