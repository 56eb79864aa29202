/** The guest filesystem: opening, creating, removing and renaming, proved against the table of nodes. */
module GuestFs {
  import opened Options
  import opened GuestPaths
  import opened FsTree
  import opened FsMirror
  import opened FsWalk

  datatype Error =
    | AccessDenied | AlreadyExist | DirectoryNotEmpty | DoesNotExist | IoError
    | InvalidParentDir | IsDirectory | NonexistentParentDir | ReadonlyParentDir
    | Panics   // the original panics

  datatype Result<+T> = Ok(value: T) | Err(error: Error)

  datatype OpenOptions =
    OpenOptions(read: bool, write: bool, append: bool, create: bool, truncate: bool, exclusive: bool)

  /** What a successful open gives access to. */
  datatype Handle = HostHandle(path: HostPath) | IpaHandle(id: nat) | ResourceHandle(name: string) | DirectoryHandle

  const FOR_RENAME := OpenOptions(false, true, false, true, true, false)

  // ---------- what the calls answer, in terms of the table ----------

  /** The filesystem seen as a table of nodes. */
  type Table = Path -> Option<Top>

  function TableOf(n: Node): Table {
    (q: Path) => TopAt(n, q)
  }

  /** The table with one entry replaced. */
  function Put(t: Table, at: Path, to: Option<Top>): Table {
    (q: Path) => if q == at then to else t(q)
  }

  predicate IsDir(t: Option<Top>) {
    t.Some? && t.value.DirTop?
  }

  predicate WritableDir(t: Option<Top>) {
    IsDir(t) && t.value.host.Some?
  }

  /** A new node may appear here, backed by the parent's host path and the name. */
  predicate Free(t: Table, at: Path) {
    at != [] && WritableDir(t(Parent(at))) && t(at).None?
  }

  function NewHost(t: Table, at: Path): HostPath
    requires Free(t, at)
  {
    t(Parent(at)).value.host.value + [Name(at)]
  }

  /** `hostOk` is whether the host opens the file. If not, the original panics. */
  function OpenFile(l: Location, writeable: bool, o: OpenOptions, hostOk: bool): Result<Handle> {
    if !writeable && (o.append || o.write) then Err(AccessDenied)
    else match l
      case HostFile(h) => if hostOk then Ok(HostHandle(h)) else Err(Panics)
      case IpaMember(id) => if writeable || o.append || o.write then Err(Panics) else Ok(IpaHandle(id))
      case Resource(name) =>
        if writeable || o.append || o.write || !hostOk then Err(Panics) else Ok(ResourceHandle(name))
  }

  function OpenAnswer(t: Table, at: Path, o: OpenOptions, hostOk: bool): Result<Handle> {
    if at == [] || t(Parent(at)).None? then Err(DoesNotExist)
    else if !IsDir(t(Parent(at))) then Err(NonexistentParentDir)
    else match t(at)
      case Some(n) =>
        if o.create && o.exclusive then Err(AlreadyExist)
        else if n.FileTop? then OpenFile(n.location, n.writeable, o, hostOk)
        else if o.write then Err(IsDirectory) else Ok(DirectoryHandle)
      case None =>
        if !o.create then Err(DoesNotExist)
        else if !WritableDir(t(Parent(at))) then Err(AccessDenied)
        else if hostOk then Ok(HostHandle(NewHost(t, at))) else Err(Panics)
  }

  /** Whether an open creates the file, and the table after it. */
  predicate OpenCreates(t: Table, at: Path, o: OpenOptions, hostOk: bool) {
    Free(t, at) && o.create && hostOk
  }

  function OpenTable(t: Table, at: Path, o: OpenOptions, hostOk: bool): Table {
    if OpenCreates(t, at, o, hostOk) then Put(t, at, Some(FileTop(HostFile(NewHost(t, at)), true))) else t
  }

  function CreateDirAnswer(t: Table, at: Path, hostOk: bool): Result<()> {
    if at == [] || t(Parent(at)).None? then Err(NonexistentParentDir)
    else if !IsDir(t(Parent(at))) then Err(InvalidParentDir)
    else if t(at).Some? then Err(AlreadyExist)
    else if !Free(t, at) then Err(ReadonlyParentDir)
    else if hostOk then Ok(()) else Err(Panics)
  }

  function CreateDirTable(t: Table, at: Path, hostOk: bool): Table {
    if Free(t, at) && hostOk then Put(t, at, Some(DirTop(Some(NewHost(t, at))))) else t
  }

  ghost predicate HasChild(t: Table, at: Path) {
    exists c: string :: t(at + [c]).Some?
  }

  ghost function RemoveAnswer(t: Table, at: Path, hostOk: bool): Result<()> {
    if at == [] || t(Parent(at)).None? then Err(NonexistentParentDir)
    else if !IsDir(t(Parent(at))) then Err(InvalidParentDir)
    else if !WritableDir(t(Parent(at))) then Err(ReadonlyParentDir)
    else match t(at)
      case None => Err(DoesNotExist)
      case Some(FileTop(l, w)) =>
        if !w then Err(AccessDenied) else if !l.HostFile? || !hostOk then Err(Panics) else Ok(())
      case Some(DirTop(h)) =>
        if HasChild(t, at) then Err(DirectoryNotEmpty)
        else if h.None? then Err(AccessDenied)
        else if hostOk then Ok(()) else Err(Panics)
  }

  ghost function RemoveTable(t: Table, at: Path, hostOk: bool): Table {
    if RemoveAnswer(t, at, hostOk).Ok? then Put(t, at, None) else t
  }

  predicate Movable(n: Option<Top>) {
    n.Some? && n.value.FileTop? && n.value.location.HostFile? && n.value.writeable
  }

  /** A file of the host that may only be read. */
  predicate FrozenHostFile(n: Option<Top>) {
    n.Some? && n.value.FileTop? && n.value.location.HostFile? && !n.value.writeable
  }

  /** Whether a rename creates its target first; `createOk` is the host's answer to that. */
  predicate CreatesTarget(t: Table, from: Path, to: Path, createOk: bool) {
    Movable(t(from)) && OpenCreates(t, to, FOR_RENAME, createOk)
  }

  /** `hostOk` is whether the host renames the file. */
  function RenameAnswer(t: Table, from: Path, to: Path, createOk: bool, hostOk: bool): Result<()> {
    match t(from)
    case None => Err(DoesNotExist)
    case Some(DirTop(_)) => Err(Panics)
    case Some(FileTop(l, w)) =>
      if !l.HostFile? then Err(IsDirectory)
      else if !w then Err(Panics)
      else if t(to).None? && OpenAnswer(t, to, FOR_RENAME, createOk).Err? then
        Err(OpenAnswer(t, to, FOR_RENAME, createOk).error)
      else if IsDir(t(to)) then Err(IsDirectory)
      else if t(to).Some? && !t(to).value.location.HostFile? then Err(AccessDenied)
      else if t(to).Some? && !t(to).value.writeable then Err(Panics)
      else if hostOk then Ok(()) else Err(IoError)
  }

  function RenameTable(t: Table, from: Path, to: Path, createOk: bool, hostOk: bool): Table {
    var t1 := if Movable(t(from)) then OpenTable(t, to, FOR_RENAME, createOk) else t;
    if RenameAnswer(t, from, to, createOk, hostOk).Ok? then Put(t1, from, None) else t1
  }

  /** The tree shows this table. */
  ghost predicate Shows(n: Node, t: Table) {
    forall q: Path :: TopAt(n, q) == t(q)
  }

  lemma SameShows(n: Node)
    ensures Shows(n, TableOf(n))
  {
  }

  lemma ChangedShows(n: Node, n': Node, t: Table, at: Path, to: Option<Top>)
    requires Shows(n, t) && Changed(n, n', at, to)
    ensures Shows(n', Put(t, at, to))
  {
  }

  // ---------- when a rename leaves its target ----------

  /** A successful rename leaves something at its target exactly when it moves the file to another path. */
  lemma RenameLeavesTarget(t: Table, from: Path, to: Path, createOk: bool)
    requires RenameAnswer(t, from, to, createOk, true).Ok?
    ensures RenameTable(t, from, to, createOk, true)(to).Some? <==> from != to
    ensures RenameTable(t, from, to, createOk, true)(from).None?
  {
  }

  /** Renaming a file onto itself succeeds and the file is gone. */
  lemma RenameOntoItself(h: HostPath)
    ensures var t := TableOf(Directory(map["a" := File(HostFile(h + ["a"]), true)], Some(h)));
            && RenameAnswer(t, ["a"], ["a"], true, true).Ok?
            && t(["a"]).Some? && RenameTable(t, ["a"], ["a"], true, true)(["a"]).None?
  {
    var n := Directory(map["a" := File(HostFile(h + ["a"]), true)], Some(h));
    assert ["a"][1..] == [];
    assert Lookup(n, ["a"]) == Lookup(n.children["a"], []);
  }

  // ---------- when the original panics ----------

  /** With a host that answers, opening here reaches a file of the host or of the resources. */
  predicate OpenAsksHost(t: Table, at: Path, o: OpenOptions) {
    var r := OpenAnswer(t, at, o, true);
    r.Ok? && (r.value.HostHandle? || r.value.ResourceHandle?)
  }

  /** In a mirrored tree opening panics exactly when it reaches the host and the host fails; removing and creating a
      directory panic exactly when all conditions are met and the host fails. Removing is never denied in a writable
      directory. */
  lemma PanicsExactly(n: Node, at: Path, o: OpenOptions, hostOk: bool)
    requires Mirror(n)
    ensures var t := TableOf(n);
            && (OpenAnswer(t, at, o, hostOk) == Err(Panics) <==> !hostOk && OpenAsksHost(t, at, o))
            && (CreateDirAnswer(t, at, hostOk) == Err(Panics) <==> !hostOk && CreateDirAnswer(t, at, true).Ok?)
            && (RemoveAnswer(t, at, hostOk) == Err(Panics) <==> !hostOk && RemoveAnswer(t, at, true).Ok?)
            && RemoveAnswer(t, at, hostOk) != Err(AccessDenied)
  {
    assert MirrorAt(n, at);
  }

  /** A rename panics exactly when its source is a directory or a read-only host file, or when the source can be moved
      and the target is a read-only host file or has to be created and the host fails to. */
  lemma RenamePanicsExactly(n: Node, from: Path, to: Path, createOk: bool, hostOk: bool)
    requires Mirror(n)
    ensures var t := TableOf(n);
            RenameAnswer(t, from, to, createOk, hostOk) == Err(Panics) <==>
              || IsDir(t(from)) || FrozenHostFile(t(from))
              || (Movable(t(from)) && (FrozenHostFile(t(to)) || (Free(t, to) && !createOk)))
  {
    assert MirrorAt(n, to);
    var t := TableOf(n);
    assert t(to) == TopAt(n, to) && t(from) == TopAt(n, from);
  }

  /** A call that panics has changed nothing. */
  lemma PanicsChangeNothing(t: Table, from: Path, to: Path, createOk: bool, hostOk: bool)
    requires RenameAnswer(t, from, to, createOk, hostOk) == Err(Panics)
    ensures RenameTable(t, from, to, createOk, hostOk) == t
  {
  }

  // ---------- in a mirrored tree ----------

  /** What every operation keeps. */
  ghost predicate Good(n: Node) {
    Mirror(n) && BasesApart(n)
  }

  ghost predicate KeepsGood(n: Node, n': Node) {
    Good(n) ==> Good(n') && Kept(n, n')
  }

  lemma SameKeeps(n: Node)
    ensures KeepsGood(n, n)
  {
    KeptSame(n);
  }

  lemma NewNodeKeeps(n: Node, n': Node, at: Path, t: Top)
    requires Free(TableOf(n), at) && AllProper(at) && HostOf(t) == Some(NewHost(TableOf(n), at))
    requires Changed(n, n', at, Some(t))
    ensures KeepsGood(n, n')
  {
    if Good(n) {
      ChangeKeeps(n, n', at, Some(t));
      BasesStay(n, n');
    }
  }

  /** Adding a node under a free name of a writable directory. */
  lemma AddChild(n: Node, at: Path, d: Node, child: Node)
    requires at != [] && AllProper(at) && Lookup(n, Parent(at)) == Some(d) && d.Directory? && d.host.Some?
    requires Name(at) !in d.children && Childless(child) && HostOf(TopOf(child)) == Some(d.host.value + [Name(at)])
    ensures Free(TableOf(n), at)
    ensures var n' := WithChildren(n, Parent(at), d.children[Name(at) := child]);
            Changed(n, n', at, Some(TopOf(child))) && KeepsGood(n, n') && n'.Directory?
  {
    LookupStep(n, at);
    InsertChanges(n, Parent(at), Name(at), child);
    assert Parent(at) + [Name(at)] == at;
    NewNodeKeeps(n, WithChildren(n, Parent(at), d.children[Name(at) := child]), at, TopOf(child));
  }

  lemma GoneKeeps(n: Node, n': Node, at: Path)
    requires at != [] && AllProper(at) && WritableDir(TopAt(n, Parent(at))) && Changed(n, n', at, None)
    ensures KeepsGood(n, n')
  {
    if Good(n) {
      ChangeKeeps(n, n', at, None);
      BasesStay(n, n');
    }
  }

  lemma KeepsGoodTrans(a: Node, b: Node, c: Node)
    requires KeepsGood(a, b) && KeepsGood(b, c)
    ensures KeepsGood(a, c)
  {
    if Good(a) {
      KeptTrans(a, b, c);
    }
  }

  lemma {:induction false} PathsProper(n: Node, q: Path)
    requires Mirror(n) && TopAt(n, q).Some?
    ensures AllProper(q)
    decreases |q|
  {
    if q != [] {
      assert MirrorAt(n, q);
      PathsProper(n, Parent(q));
      assert forall i :: 0 <= i < |q| ==> q[i] == if i < |q| - 1 then Parent(q)[i] else Name(q);
    }
  }

  /** Each path of a walk, resolved relative to the directory where the walk began, leads to the node it was listed for;
      every descendant is listed, once. */
  lemma WalkLooksUp(root: Node, base: Path, es: Entries)
    requires Mirror(root) && AllProper(base)
    requires Lookup(root, base).Some? && Lists(Lookup(root, base).value, ListedDir(es))
    ensures Distinct(PreOrder(es, []))
    ensures forall q :: q in PreOrder(es, []) <==> q != [] && Lookup(root, base + q).Some?
    ensures forall q :: q in PreOrder(es, []) ==>
              AllProper(q) && Resolve(Join(q), Render(base)) == base + q
              && Lookup(root, Resolve(Join(q), Render(base))) == Lookup(Lookup(root, base).value, q)
  {
    var d := Lookup(root, base).value;
    PreOrderDistinct(d.children, es, []);
    forall q
      ensures q in PreOrder(es, []) <==> q != [] && Lookup(root, base + q).Some?
      ensures Lookup(root, base + q) == Lookup(d, q)
    {
      ListedIffBelow(d.children, es, [], q);
      assert q[0..] == q;
      LookupSplit(root, base, q);
    }
    forall q | q in PreOrder(es, [])
      ensures AllProper(q) && Resolve(Join(q), Render(base)) == base + q
    {
      PathsProper(root, base + q);
      assert forall i :: 0 <= i < |q| ==> q[i] == (base + q)[|base| + i];
      ResolveJoin(q, Render(base));
      RenderRoundTrip(base, "/");
    }
  }

  // ---------- the filesystem object ----------

  class Fs {
    var root: Node
    var workingDirectory: string

    ghost predicate Valid()
      reads this
    {
      root.Directory? && Absolute(workingDirectory)
    }

    constructor (tree: Node, home: string)
      requires tree.Directory? && Absolute(home)
      ensures Valid() && root == tree && workingDirectory == home
    {
      root := tree;
      workingDirectory := home;
    }

    ghost function At(path: string): Path
      reads this
    {
      Resolve(path, workingDirectory)
    }

    method LookupNode(path: string) returns (r: Option<Node>)
      requires Valid()
      ensures r == Lookup(root, At(path))
    {
      var components := ResolvePath(path, Some(workingDirectory));
      r := Descend(root, components);
    }

    /** The parent's node, its path and the final component. */
    method LookupParentNode(path: string) returns (r: Option<(Node, Path, string)>)
      requires Valid()
      ensures AllProper(At(path))
      ensures r.None? <==> At(path) == [] || Lookup(root, Parent(At(path))).None?
      ensures r.Some? ==> At(path) != [] && r.value.1 + [r.value.2] == At(path)
                          && Parent(At(path)) == r.value.1 && Name(At(path)) == r.value.2
                          && Lookup(root, r.value.1) == Some(r.value.0)
    {
      var components := ResolvePath(path, Some(workingDirectory));
      if components == [] {
        return None;
      }
      var parent := Descend(root, Parent(components));
      if parent.None? {
        return None;
      }
      return Some((parent.value, Parent(components), Name(components)));
    }

    /** On success the working directory is the directory meant, and relative paths continue from there. */
    method ChangeWorkingDirectory(path: string) returns (r: Result<string>)
      requires Valid()
      modifies this`workingDirectory
      ensures Valid()
      ensures r.Ok? <==> IsDir(TopAt(root, old(At(path))))
      ensures r.Err? ==> workingDirectory == old(workingDirectory)
      ensures r.Ok? ==> r.value == workingDirectory == Render(old(At(path)))
                        && forall rel: string :: !Absolute(rel) ==> At(rel) == ApplyAll(old(At(path)), Split(rel))
    {
      var resolved := ResolvePath(path, Some(workingDirectory));
      var node := Descend(root, resolved);
      if node.None? || node.value.File? {
        return Err(DoesNotExist);
      }
      var text := WritePath(resolved);
      RenderRoundTrip(resolved, "/");
      workingDirectory := text;
      return Ok(workingDirectory);
    }

    /** A new node under a free name of a writable directory. */
    method Add(p: Path, name: string, directory: Node, child: Node, ghost at: Path)
      requires Valid() && at != [] && AllProper(at) && p == Parent(at) && name == Name(at)
      requires Lookup(root, p) == Some(directory) && directory.Directory? && directory.host.Some?
      requires name !in directory.children && Childless(child)
      requires HostOf(TopOf(child)) == Some(directory.host.value + [name])
      modifies this`root
      ensures Valid() && Free(TableOf(old(root)), at)
      ensures NewHost(TableOf(old(root)), at) == directory.host.value + [name]
      ensures Shows(root, Put(TableOf(old(root)), at, Some(TopOf(child)))) && KeepsGood(old(root), root)
    {
      hide KeepsGood, Changed, Shows;
      AddChild(root, at, directory, child);
      SameShows(root);
      root := WithChildren(root, p, directory.children[name := child]);
      ChangedShows(old(root), root, TableOf(old(root)), at, Some(TopOf(child)));
    }

    method OpenWithOptions(path: string, o: OpenOptions, hostOk: bool) returns (r: Result<Handle>)
      requires Valid() && (o.truncate || o.create ==> o.write || o.append)
      modifies this`root
      ensures Valid() && r == OpenAnswer(TableOf(old(root)), At(path), o, hostOk)
      ensures Shows(root, OpenTable(TableOf(old(root)), At(path), o, hostOk))
      ensures !OpenCreates(TableOf(old(root)), At(path), o, hostOk) ==> root == old(root)
      ensures KeepsGood(old(root), root)
    {
      hide KeepsGood, Shows, Put, Resolve, WithChildren;
      SameKeeps(root);
      SameShows(root);
      ghost var at := At(path);
      var parent := LookupParentNode(path);
      if parent.None? {
        return Err(DoesNotExist);
      }
      var (node, p, name) := parent.value;
      LookupStep(root, at);
      if node.File? {
        return Err(NonexistentParentDir);
      }
      if name in node.children {
        if o.create && o.exclusive {
          return Err(AlreadyExist);
        }
        match node.children[name] {
          case File(location, writeable) => return OpenFile(location, writeable, o, hostOk);
          case Directory(_, _) =>
            if o.write {
              return Err(IsDirectory);
            }
            return Ok(DirectoryHandle);
        }
      }
      if !o.create {
        return Err(DoesNotExist);
      }
      if node.host.None? {
        return Err(AccessDenied);
      }
      if !hostOk {
        return Err(Panics);
      }
      var host := node.host.value + [name];
      var child := File(HostFile(host), true);
      Add(p, name, node, child, at);
      return Ok(HostHandle(host));
    }

    method CreateDir(path: string, hostOk: bool) returns (r: Result<()>)
      requires Valid()
      modifies this`root
      ensures Valid() && r == CreateDirAnswer(TableOf(old(root)), At(path), hostOk)
      ensures Shows(root, CreateDirTable(TableOf(old(root)), At(path), hostOk))
      ensures r.Err? ==> root == old(root)
      ensures KeepsGood(old(root), root)
    {
      hide KeepsGood, Shows, Put, Resolve, WithChildren;
      SameKeeps(root);
      SameShows(root);
      ghost var at := At(path);
      var parent := LookupParentNode(path);
      if parent.None? {
        return Err(NonexistentParentDir);
      }
      var (node, p, name) := parent.value;
      LookupStep(root, at);
      if node.File? {
        return Err(InvalidParentDir);
      }
      if name in node.children {
        return Err(AlreadyExist);
      }
      if node.host.None? {
        return Err(ReadonlyParentDir);
      }
      if !hostOk {
        return Err(Panics);
      }
      var child := Directory(map[], Some(node.host.value + [name]));
      Add(p, name, node, child, at);
      return Ok(());
    }

    method Remove(path: string, hostOk: bool) returns (r: Result<()>)
      requires Valid()
      modifies this`root
      ensures Valid() && r == RemoveAnswer(TableOf(old(root)), At(path), hostOk)
      ensures Shows(root, RemoveTable(TableOf(old(root)), At(path), hostOk))
      ensures r.Err? ==> root == old(root)
      ensures KeepsGood(old(root), root)
    {
      hide KeepsGood, Changed, Shows, Put, Resolve;
      SameKeeps(root);
      SameShows(root);
      ghost var at := At(path);
      var parent := LookupParentNode(path);
      if parent.None? {
        return Err(NonexistentParentDir);
      }
      var (node, p, name) := parent.value;
      LookupStep(root, at);
      if node.File? {
        return Err(InvalidParentDir);
      }
      if node.host.None? {
        return Err(ReadonlyParentDir);
      }
      if name !in node.children {
        return Err(DoesNotExist);
      }
      match node.children[name] {
        case File(location, writeable) =>
          if !writeable {
            return Err(AccessDenied);
          }
          if !location.HostFile? || !hostOk {
            return Err(Panics);
          }
        case Directory(children, host) =>
          ChildrenOf(root, at);
          if children != map[] {
            return Err(DirectoryNotEmpty);
          }
          if host.None? {
            return Err(AccessDenied);
          }
          if !hostOk {
            return Err(Panics);
          }
      }
      RemoveChanges(root, p, name);
      root := WithChildren(root, p, node.children - {name});
      GoneKeeps(old(root), root, at);
      SameShows(old(root));
      ChangedShows(old(root), root, TableOf(old(root)), at, None);
      return Ok(());
    }

    /** The last step of a rename: the old file's entry goes. */
    method Forget(path: string)
      requires Valid() && Movable(TopAt(root, At(path)))
      modifies this`root
      ensures Valid() && Changed(old(root), root, At(path), None)
      ensures KeepsGood(old(root), root)
    {
      ghost var at := At(path);
      if at != [] {
        LookupStep(root, at);
      }
      var parent := LookupParentNode(path);
      var (node, p, name) := parent.value;
      RemoveChanges(root, p, name);
      root := WithChildren(root, p, node.children - {name});
      ForgottenKeeps(old(root), root, at);
    }

    method Rename(from: string, to: string, createOk: bool, hostOk: bool) returns (r: Result<()>)
      requires Valid()
      modifies this`root
      ensures Valid() && r == RenameAnswer(TableOf(old(root)), At(from), At(to), createOk, hostOk)
      ensures Shows(root, RenameTable(TableOf(old(root)), At(from), At(to), createOk, hostOk))
      ensures KeepsGood(old(root), root)
    {
      hide KeepsGood, Shows, Put, Changed, Resolve, OpenAnswer;
      SameKeeps(root);
      SameShows(root);
      ghost var t, f, g := TableOf(root), At(from), At(to);
      var source := LookupNode(from);
      if source.None? {
        return Err(DoesNotExist);
      }
      if source.value.Directory? {
        return Err(Panics);
      }
      if !source.value.location.HostFile? {
        return Err(IsDirectory);
      }
      if !source.value.writeable {
        return Err(Panics);
      }
      var target := LookupNode(to);
      if target.None? {
        var answer := OpenWithOptions(to, FOR_RENAME, createOk);
        if answer.Err? {
          return Err(answer.error);
        }
      }
      ghost var middle, t1 := root, OpenTable(t, g, FOR_RENAME, createOk);
      ShowsAt(root, t1, f, g);
      Created(t, g, createOk);
      target := LookupNode(to);
      if target.value.Directory? {
        return Err(IsDirectory);
      }
      if !target.value.location.HostFile? {
        return Err(AccessDenied);
      }
      if !target.value.writeable {
        return Err(Panics);
      }
      if !hostOk {
        return Err(IoError);
      }
      Forget(from);
      ChangedShows(middle, root, t1, f, None);
      KeepsGoodTrans(old(root), middle, root);
      return Ok(());
    }

    /** `listing` is the tree in the order in which its hash maps iterate. */
    method EnumerateRecursive(path: string, listing: Listing) returns (r: Result<seq<string>>)
      requires Valid()
      requires IsDir(TopAt(root, At(path))) ==> Lists(Lookup(root, At(path)).value, listing)
      ensures r.Ok? <==> IsDir(TopAt(root, At(path)))
      ensures r.Ok? ==> listing.ListedDir? && r.value == Joined(PreOrder(listing.entries, []))
    {
      var node := LookupNode(path);
      if node.None? || node.value.File? {
        return Err(DoesNotExist);
      }
      var paths := Enumerate(listing.entries);
      return Ok(paths);
    }
  }

  lemma ShowsAt(n: Node, t: Table, p: Path, q: Path)
    requires Shows(n, t)
    ensures TopAt(n, p) == t(p) && TopAt(n, q) == t(q)
  {
  }

  /** After a successful open for renaming there is a writable host file at the path. */
  lemma Created(t: Table, at: Path, createOk: bool)
    ensures var t1 := OpenTable(t, at, FOR_RENAME, createOk);
            && (forall q: Path :: q != at ==> t1(q) == t(q))
            && (t(at).Some? ==> t1(at) == t(at))
            && (t(at).None? && OpenAnswer(t, at, FOR_RENAME, createOk).Ok? ==> Movable(t1(at)))
  {
  }

  /** Whoever has a movable file's parent has a writable directory, or the tree was not mirrored. */
  lemma ForgottenKeeps(n: Node, n': Node, at: Path)
    requires at != [] && AllProper(at) && Movable(TopAt(n, at)) && Changed(n, n', at, None)
    ensures KeepsGood(n, n')
  {
    if Good(n) {
      WritableFileInWritableDirectory(n, at);
      ParentIsDirectory(n, at);
      GoneKeeps(n, n', at);
    }
  }

  lemma ChildrenOf(n: Node, at: Path)
    requires Lookup(n, at).Some? && Lookup(n, at).value.Directory?
    ensures HasChild(TableOf(n), at) <==> Lookup(n, at).value.children != map[]
  {
    var d := Lookup(n, at).value;
    forall c: string
      ensures TopAt(n, at + [c]).Some? <==> c in d.children
    {
      LookupStep(n, at + [c]);
      assert Parent(at + [c]) == at;
    }
    if d.children != map[] {
      var c :| c in d.children;
      assert TopAt(n, at + [c]).Some?;
    }
  }
}
