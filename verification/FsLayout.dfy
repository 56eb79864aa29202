/** The tree the filesystem starts with, and why it is a good one. */
module FsLayout {
  import opened Options
  import opened GuestPaths
  import opened FsTree
  import opened FsMirror

  // ---------- where base directories can be ----------

  /** A host directory read in for writing is the only base of its tree. */
  lemma BaseOfHostDirectory(t: HostTree, h: HostPath, q: Path)
    requires t.HostDir? && Base(FromHost(t, h, true), q)
    ensures q == [] && HostAt(FromHost(t, h, true), q) == Some(h)
  {
    FromHostTop(t, h, true, q);
    if q != [] {
      FromHostTop(t, h, true, Parent(q));
    } else {
      assert h + q == h;
    }
  }

  /** A base below a read-only directory is a base of one of its children. */
  lemma BaseOfChild(children: map<string, Node>, q: Path)
    requires Base(Directory(children, None), q)
    ensures q != [] && q[0] in children && Base(children[q[0]], q[1..])
    ensures HostAt(children[q[0]], q[1..]) == HostAt(Directory(children, None), q)
  {
    var n := Directory(children, None);
    assert q != [];
    if |q| > 1 {
      assert Parent(q)[1..] == Parent(q[1..]);
    }
  }

  /** The bases of two children, equal or different ones, are not inside each other on the host. */
  ghost predicate ChildrenApart(children: map<string, Node>) {
    forall c, d, a, b | c in children && d in children && Base(children[c], a) && Base(children[d], b) ::
      HostAt(children[c], a).value <= HostAt(children[d], b).value ==> c == d && a == b
  }

  lemma AssembledApart(children: map<string, Node>)
    requires ChildrenApart(children)
    ensures BasesApart(Directory(children, None))
  {
    var n := Directory(children, None);
    forall p, q | Base(n, p) && Base(n, q) && HostAt(n, p).value <= HostAt(n, q).value
      ensures p == q
    {
      BaseOfChild(children, p);
      BaseOfChild(children, q);
      assert p == [p[0]] + p[1..] && q == [q[0]] + q[1..];
    }
  }

  /** What a read-only directory may hold. */
  ghost predicate ChildOk(c: string, child: Node) {
    Proper(c) && (if child.File? then !child.writeable else Mirror(child))
  }

  lemma AssembledGood(children: map<string, Node>)
    requires forall c :: c in children ==> ChildOk(c, children[c])
    requires ChildrenApart(children)
    ensures Mirror(Directory(children, None)) && BasesApart(Directory(children, None))
  {
    AssembledMirror(children);
    AssembledApart(children);
  }

  /** A read-only directory with a single good child. */
  lemma WrappedGood(c: string, n: Node)
    requires Proper(c) && Mirror(n) && BasesApart(n)
    ensures Mirror(Directory(map[c := n], None)) && BasesApart(Directory(map[c := n], None))
  {
    assert ChildOk(c, map[c := n][c]);
    AssembledGood(map[c := n]);
  }

  /** Nothing in the tree is writable. */
  ghost predicate Frozen(n: Node) {
    forall q :: !Base(n, q)
  }

  /** A host directory read in read-only is frozen, so it can be an app bundle. */
  lemma ReadOnlyHostDirectory(t: HostTree, h: HostPath)
    requires t.HostDir? && forall q :: HostLookup(t, q).Some? ==> AllProper(q)
    ensures Mirror(FromHost(t, h, false)) && Frozen(FromHost(t, h, false))
  {
    FromHostMirror(t, h, false);
    forall q
      ensures !Base(FromHost(t, h, false), q)
    {
      FromHostTop(t, h, false, q);
    }
  }

  // ---------- the layout ----------

  const DOCUMENTS := "Documents"
  const LIBRARY := "Library"
  const TMP := "tmp"

  /** What the host holds when the filesystem is set up. `sandbox` is the app's directory on the host; `bundle` is the
      app bundle, a host directory or an archive, read-only; `libraries` maps library names to resource files. */
  datatype Setup = Setup(uuid: string, bundleName: string, bundle: Node, sandbox: HostPath, readOnlyMode: bool,
                         documents: HostTree, library: HostTree, tmp: HostTree, libraries: map<string, string>)

  predicate NamesProper(libraries: map<string, string>) {
    forall c :: c in libraries ==> Proper(c)
  }

  ghost predicate HostDirectory(t: HostTree) {
    t.HostDir? && forall q :: HostLookup(t, q).Some? ==> AllProper(q)
  }

  ghost predicate SetupOk(s: Setup) {
    && Proper(s.uuid) && Proper(s.bundleName) && NamesProper(s.libraries)
    && Mirror(s.bundle) && Frozen(s.bundle)
    && HostDirectory(s.documents) && HostDirectory(s.library) && HostDirectory(s.tmp)
  }

  function Writable(t: HostTree, sandbox: HostPath, name: string): Node {
    FromHost(t, sandbox + [name], true)
  }

  function AppChildren(s: Setup): map<string, Node> {
    var children := map[s.bundleName := s.bundle];
    if s.readOnlyMode then children
    else children[DOCUMENTS := Writable(s.documents, s.sandbox, DOCUMENTS)]
                 [LIBRARY := Writable(s.library, s.sandbox, LIBRARY)]
                 [TMP := Writable(s.tmp, s.sandbox, TMP)]
  }

  function Libraries(libraries: map<string, string>): map<string, Node> {
    map c | c in libraries :: File(Resource(libraries[c]), false)
  }

  function Wrap(c: string, n: Node): Node {
    Directory(map[c := n], None)
  }

  function Layout(s: Setup): Node {
    var home := Wrap("mobile", Wrap("Applications", Wrap(s.uuid, Directory(AppChildren(s), None))));
    var lib := Wrap("lib", Directory(Libraries(s.libraries), None));
    Directory(map["var" := home, "usr" := lib], None)
  }

  // ---------- it is good ----------

  /** A child of the app's directory is the bundle, or one of the three host directories and its own only base. */
  lemma AppChild(s: Setup, c: string, q: Path)
    requires SetupOk(s) && c in AppChildren(s) && Base(AppChildren(s)[c], q)
    ensures q == [] && HostAt(AppChildren(s)[c], q) == Some(s.sandbox + [c])
  {
    assert !Base(s.bundle, q);
    var t := if c == TMP then s.tmp else if c == LIBRARY then s.library else s.documents;
    if !s.readOnlyMode && c in {DOCUMENTS, LIBRARY, TMP} {
      assert AppChildren(s)[c] == FromHost(t, s.sandbox + [c], true);
      BaseOfHostDirectory(t, s.sandbox + [c], q);
    }
  }

  lemma AppChildOk(s: Setup, c: string)
    requires SetupOk(s) && c in AppChildren(s)
    ensures ChildOk(c, AppChildren(s)[c])
  {
    hide Mirror;
    FromHostMirror(s.documents, s.sandbox + [DOCUMENTS], true);
    FromHostMirror(s.library, s.sandbox + [LIBRARY], true);
    FromHostMirror(s.tmp, s.sandbox + [TMP], true);
    DirectoryOf(s.bundle);
    assert Proper(DOCUMENTS) && Proper(LIBRARY) && Proper(TMP);
  }

  lemma DirectoryOf(n: Node)
    requires Mirror(n)
    ensures n.Directory?
  {
  }

  lemma AppGood(s: Setup)
    requires SetupOk(s)
    ensures Mirror(Directory(AppChildren(s), None)) && BasesApart(Directory(AppChildren(s), None))
  {
    var children := AppChildren(s);
    forall c | c in children
      ensures ChildOk(c, children[c])
    {
      AppChildOk(s, c);
    }
    forall c, d, a, b | c in children && d in children && Base(children[c], a) && Base(children[d], b)
                        && HostAt(children[c], a).value <= HostAt(children[d], b).value
      ensures c == d && a == b
    {
      AppChild(s, c, a);
      AppChild(s, d, b);
      assert (s.sandbox + [c])[|s.sandbox|] == c && (s.sandbox + [d])[|s.sandbox|] == d;
    }
    hide Mirror, BasesApart, ChildOk, Base, HostAt;
    AssembledGood(children);
  }

  lemma LibrariesGood(libraries: map<string, string>)
    requires NamesProper(libraries)
    ensures Mirror(Directory(Libraries(libraries), None)) && Frozen(Directory(Libraries(libraries), None))
  {
    var children := Libraries(libraries);
    var n := Directory(children, None);
    forall q
      ensures !Base(n, q)
    {
      if Base(n, q) {
        BaseOfChild(children, q);
      }
    }
    assert forall c :: c in children ==> ChildOk(c, children[c]);
    AssembledMirror(children);
  }

  lemma FrozenApart(n: Node)
    requires Frozen(n)
    ensures BasesApart(n)
  {
  }

  lemma FrozenWrap(c: string, n: Node)
    requires Frozen(n)
    ensures Frozen(Wrap(c, n))
  {
    forall q
      ensures !Base(Wrap(c, n), q)
    {
      if Base(Wrap(c, n), q) {
        BaseOfChild(map[c := n], q);
      }
    }
  }

  /** A good tree beside a frozen one. */
  lemma PairGood(c: string, n: Node, d: string, m: Node)
    requires c != d && Proper(c) && Proper(d) && Mirror(n) && BasesApart(n) && Mirror(m) && Frozen(m)
    ensures var r := Directory(map[c := n, d := m], None); Mirror(r) && BasesApart(r)
  {
    var children := map[c := n, d := m];
    assert forall x :: x in children ==> ChildOk(x, children[x]);
    forall x, y, a, b | x in children && y in children && Base(children[x], a) && Base(children[y], b)
                        && HostAt(children[x], a).value <= HostAt(children[y], b).value
      ensures x == y && a == b
    {
      assert x == c && y == c;
    }
    hide Mirror, ChildOk, Base, HostAt;
    AssembledGood(children);
  }

  /** The initial tree mirrors the host and no two of its writable nodes share a host path. */
  lemma LayoutGood(s: Setup)
    requires SetupOk(s)
    ensures Mirror(Layout(s)) && BasesApart(Layout(s))
  {
    AppGood(s);
    LibrariesGood(s.libraries);
    var app, libraries := Directory(AppChildren(s), None), Directory(Libraries(s.libraries), None);
    FrozenApart(libraries);
    FrozenWrap("lib", libraries);
    hide Mirror, BasesApart, Frozen, AppChildren, Libraries;
    WrappedGood(s.uuid, app);
    WrappedGood("Applications", Wrap(s.uuid, app));
    WrappedGood("mobile", Wrap("Applications", Wrap(s.uuid, app)));
    WrappedGood("lib", libraries);
    PairGood("var", Wrap("mobile", Wrap("Applications", Wrap(s.uuid, app))), "usr", Wrap("lib", libraries));
  }

  // ---------- where things are ----------

  lemma WrapFinds(c: string, n: Node, q: Path)
    requires q != [] && q[0] == c
    ensures Lookup(Wrap(c, n), q) == Lookup(n, q[1..])
  {
  }

  function HomePath(s: Setup): Path {
    ["var", "mobile", "Applications", s.uuid]
  }

  /** The app's directory is below its UUID and holds what `AppChildren` says. */
  lemma HomeFinds(s: Setup, q: Path)
    ensures Lookup(Layout(s), HomePath(s) + q) == Lookup(Directory(AppChildren(s), None), q)
  {
    var app := Directory(AppChildren(s), None);
    hide AppChildren;
    var p4 := [s.uuid] + q;
    var p3 := ["Applications"] + p4;
    var p2 := ["mobile"] + p3;
    var p1 := ["var"] + p2;
    assert HomePath(s) + q == p1;
    assert p1[1..] == p2 && p2[1..] == p3 && p3[1..] == p4 && p4[1..] == q;
    WrapFinds("mobile", Wrap("Applications", Wrap(s.uuid, app)), p2);
    WrapFinds("Applications", Wrap(s.uuid, app), p3);
    WrapFinds(s.uuid, app, p4);
  }

  /** Each file and directory of the app's host Documents, Library and tmp is found below the app's directory, backed by
      its own host path; nothing else is there. */
  lemma SandboxFinds(s: Setup, name: string, q: Path)
    requires !s.readOnlyMode && name in {DOCUMENTS, LIBRARY, TMP}
    ensures var t := if name == TMP then s.tmp else if name == LIBRARY then s.library else s.documents;
            var r := TopAt(Layout(s), HomePath(s) + [name] + q);
            match HostLookup(t, q)
            case None => r == None
            case Some(HostLeaf) => r == Some(FileTop(HostFile(s.sandbox + [name] + q), true))
            case Some(_) => r == Some(DirTop(Some(s.sandbox + [name] + q)))
  {
    var t := if name == TMP then s.tmp else if name == LIBRARY then s.library else s.documents;
    assert HomePath(s) + [name] + q == HomePath(s) + ([name] + q);
    HomeFinds(s, [name] + q);
    assert ([name] + q)[1..] == q;
    assert AppChildren(s)[name] == FromHost(t, s.sandbox + [name], true);
    FromHostTop(t, s.sandbox + [name], true, q);
  }

  /** The bundle is found below the app's directory, and each library below /usr/lib, for reading only. */
  lemma ReadOnlyFinds(s: Setup, q: Path, c: string)
    ensures s.bundleName !in {DOCUMENTS, LIBRARY, TMP} ==>
              Lookup(Layout(s), HomePath(s) + [s.bundleName] + q) == Lookup(s.bundle, q)
    ensures TopAt(Layout(s), ["usr", "lib", c])
            == if c in s.libraries then Some(FileTop(Resource(s.libraries[c]), false)) else None
  {
    assert HomePath(s) + [s.bundleName] + q == HomePath(s) + ([s.bundleName] + q);
    HomeFinds(s, [s.bundleName] + q);
    assert ([s.bundleName] + q)[1..] == q;
    var libraries := Directory(Libraries(s.libraries), None);
    var p := ["usr", "lib", c];
    assert p[1..] == ["lib", c] && ["lib", c][1..] == [c] && [c][1..] == [];
    WrapFinds("lib", libraries, ["lib", c]);
    if c in s.libraries {
      assert Lookup(libraries, [c]) == Lookup(libraries.children[c], []);
    }
  }
}
