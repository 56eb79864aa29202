/** Whole runs of the guest filesystem, against runs of a plain table of nodes. */
module FsRuns {
  import opened Options
  import opened GuestPaths
  import opened FsTree
  import opened FsMirror
  import opened FsLayout
  import opened GuestFs

  /** A call, together with the host's answers to it. */
  datatype Op =
    | Open(path: string, options: OpenOptions, hostOk: bool)
    | MakeDir(path: string, hostOk: bool)
    | Delete(path: string, hostOk: bool)
    | Move(from: string, to: string, createOk: bool, hostOk: bool)
    | ChangeDir(path: string)

  /** What a call returns to the guest. */
  datatype Answer = Opened(handle: Result<Handle>) | Done(result: Result<()>) | Entered(ok: bool)

  /** The table of nodes and the working directory. */
  datatype State = State(table: Table, directory: string)

  function StateOf(root: Node, directory: string): State {
    State(TableOf(root), directory)
  }

  /** What a call answers in a state. */
  ghost function Says(s: State, op: Op): Answer {
    match op
    case Open(path, o, hostOk) => Opened(OpenAnswer(s.table, Resolve(path, s.directory), o, hostOk))
    case MakeDir(path, hostOk) => Done(CreateDirAnswer(s.table, Resolve(path, s.directory), hostOk))
    case Delete(path, hostOk) => Done(RemoveAnswer(s.table, Resolve(path, s.directory), hostOk))
    case Move(from, to, createOk, hostOk) =>
      Done(RenameAnswer(s.table, Resolve(from, s.directory), Resolve(to, s.directory), createOk, hostOk))
    case ChangeDir(path) => Entered(IsDir(s.table(Resolve(path, s.directory))))
  }

  /** The state after a call. */
  ghost function After(s: State, op: Op): State {
    match op
    case Open(path, o, hostOk) => s.(table := OpenTable(s.table, Resolve(path, s.directory), o, hostOk))
    case MakeDir(path, hostOk) => s.(table := CreateDirTable(s.table, Resolve(path, s.directory), hostOk))
    case Delete(path, hostOk) => s.(table := RemoveTable(s.table, Resolve(path, s.directory), hostOk))
    case Move(from, to, createOk, hostOk) =>
      s.(table := RenameTable(s.table, Resolve(from, s.directory), Resolve(to, s.directory), createOk, hostOk))
    case ChangeDir(path) =>
      var at := Resolve(path, s.directory);
      if IsDir(s.table(at)) then s.(directory := Render(at)) else s
  }

  ghost function Replay(s: State, ops: seq<Op>): State {
    if ops == [] then s else After(Replay(s, ops[..|ops| - 1]), ops[|ops| - 1])
  }

  // ---------- only the entries of the table matter ----------

  ghost predicate SameTable(t: Table, u: Table) {
    forall q: Path :: t(q) == u(q)
  }

  ghost predicate SameState(s: State, s': State) {
    SameTable(s.table, s'.table) && s.directory == s'.directory
  }

  lemma SameRemove(t: Table, u: Table, at: Path, hostOk: bool)
    requires SameTable(t, u)
    ensures RemoveAnswer(t, at, hostOk) == RemoveAnswer(u, at, hostOk)
    ensures SameTable(RemoveTable(t, at, hostOk), RemoveTable(u, at, hostOk))
  {
    assert HasChild(t, at) <==> HasChild(u, at) by {
      assert forall c: string :: t(at + [c]) == u(at + [c]);
    }
  }

  lemma SameOpen(t: Table, u: Table, at: Path, o: OpenOptions, hostOk: bool)
    requires SameTable(t, u)
    ensures OpenAnswer(t, at, o, hostOk) == OpenAnswer(u, at, o, hostOk)
    ensures SameTable(OpenTable(t, at, o, hostOk), OpenTable(u, at, o, hostOk))
  {
  }

  lemma SameCreateDir(t: Table, u: Table, at: Path, hostOk: bool)
    requires SameTable(t, u)
    ensures CreateDirAnswer(t, at, hostOk) == CreateDirAnswer(u, at, hostOk)
    ensures SameTable(CreateDirTable(t, at, hostOk), CreateDirTable(u, at, hostOk))
  {
  }

  lemma SameRename(t: Table, u: Table, from: Path, to: Path, createOk: bool, hostOk: bool)
    requires SameTable(t, u)
    ensures RenameAnswer(t, from, to, createOk, hostOk) == RenameAnswer(u, from, to, createOk, hostOk)
    ensures SameTable(RenameTable(t, from, to, createOk, hostOk), RenameTable(u, from, to, createOk, hostOk))
  {
    SameOpen(t, u, to, FOR_RENAME, createOk);
    assert t(from) == u(from) && t(to) == u(to);
    hide OpenAnswer, OpenTable;
  }

  lemma SameAfter(s: State, s': State, op: Op)
    requires SameState(s, s')
    ensures Says(s, op) == Says(s', op) && SameState(After(s, op), After(s', op))
  {
    hide SameTable, OpenAnswer, OpenTable, CreateDirAnswer, CreateDirTable, RemoveAnswer, RemoveTable, RenameAnswer,
      RenameTable, Resolve, Render;
    match op {
      case Open(path, o, hostOk) => SameOpen(s.table, s'.table, Resolve(path, s.directory), o, hostOk);
      case MakeDir(path, hostOk) => SameCreateDir(s.table, s'.table, Resolve(path, s.directory), hostOk);
      case Delete(path, hostOk) => SameRemove(s.table, s'.table, Resolve(path, s.directory), hostOk);
      case Move(from, to, createOk, hostOk) =>
        SameRename(s.table, s'.table, Resolve(from, s.directory), Resolve(to, s.directory), createOk, hostOk);
      case ChangeDir(path) => SameEntry(s.table, s'.table, Resolve(path, s.directory));
    }
  }

  lemma SameEntry(t: Table, u: Table, q: Path)
    requires SameTable(t, u)
    ensures t(q) == u(q)
  {
  }

  lemma SameTrans(a: State, b: State, c: State)
    requires SameState(a, b) && SameState(b, c)
    ensures SameState(a, c)
  {
  }

  lemma ShowsSame(n: Node, t: Table)
    requires Shows(n, t)
    ensures SameTable(TableOf(n), t)
  {
  }

  // ---------- runs ----------

  /** What the original asserts about the options of an open. */
  predicate OptionsOk(op: Op) {
    op.Open? ==> (op.options.truncate || op.options.create ==> op.options.write || op.options.append)
  }

  /** One call on the filesystem is one step of the table. */
  method Do(fs: Fs, op: Op) returns (a: Answer)
    requires fs.Valid() && OptionsOk(op)
    modifies fs
    ensures fs.Valid() && KeepsGood(old(fs.root), fs.root)
    ensures a == Says(StateOf(old(fs.root), old(fs.workingDirectory)), op)
    ensures SameState(StateOf(fs.root, fs.workingDirectory), After(StateOf(old(fs.root), old(fs.workingDirectory)), op))
  {
    hide KeepsGood, Shows, SameTable, OpenAnswer, OpenTable, CreateDirAnswer, CreateDirTable, RemoveAnswer, RemoveTable,
      RenameAnswer, RenameTable, Resolve, Render;
    match op {
      case Open(path, o, hostOk) =>
        var r := fs.OpenWithOptions(path, o, hostOk);
        a := Opened(r);
      case MakeDir(path, hostOk) =>
        var r := fs.CreateDir(path, hostOk);
        a := Done(r);
      case Delete(path, hostOk) =>
        var r := fs.Remove(path, hostOk);
        a := Done(r);
      case Move(from, to, createOk, hostOk) =>
        var r := fs.Rename(from, to, createOk, hostOk);
        a := Done(r);
      case ChangeDir(path) =>
        var r := fs.ChangeWorkingDirectory(path);
        SameKeeps(fs.root);
        SameShows(fs.root);
        a := Entered(r.Ok?);
    }
    ShowsSame(fs.root, After(StateOf(old(fs.root), old(fs.workingDirectory)), op).table);
  }

  /** Every run of operations answers as the replayed table does and leaves the tree showing that table. A good tree
      stays good, its read-only part stays as it was, and no two writable nodes share a host path. */
  method Run(fs: Fs, ops: seq<Op>) returns (answers: seq<Answer>)
    requires fs.Valid() && forall i :: 0 <= i < |ops| ==> OptionsOk(ops[i])
    modifies fs
    ensures fs.Valid() && |answers| == |ops|
    ensures var s := StateOf(old(fs.root), old(fs.workingDirectory));
            && SameState(StateOf(fs.root, fs.workingDirectory), Replay(s, ops))
            && forall i :: 0 <= i < |ops| ==> answers[i] == Says(Replay(s, ops[..i]), ops[i])
    ensures old(Good(fs.root)) ==> Good(fs.root) && Kept(old(fs.root), fs.root) && NothingShared(fs.root)
  {
    hide Good, Kept, SameState, Says, After, KeepsGood, NothingShared, StateOf;
    ghost var s := StateOf(fs.root, fs.workingDirectory);
    SameKeeps(fs.root);
    SameStart(s);
    answers := [];
    for i := 0 to |ops|
      invariant fs.Valid() && |answers| == i && KeepsGood(old(fs.root), fs.root)
      invariant SameState(StateOf(fs.root, fs.workingDirectory), Replay(s, ops[..i]))
      invariant forall k :: 0 <= k < i ==> answers[k] == Says(Replay(s, ops[..k]), ops[k])
    {
      ghost var before, now := fs.root, StateOf(fs.root, fs.workingDirectory);
      var a := Do(fs, ops[i]);
      SameAfter(now, Replay(s, ops[..i]), ops[i]);
      assert ops[..i + 1][..i] == ops[..i];
      SameTrans(StateOf(fs.root, fs.workingDirectory), After(now, ops[i]), Replay(s, ops[..i + 1]));
      KeepsGoodTrans(old(fs.root), before, fs.root);
      answers := answers + [a];
    }
    assert ops[..|ops|] == ops;
    GoodMeans(old(fs.root), fs.root);
  }

  lemma SameStart(s: State)
    ensures SameState(s, Replay(s, []))
  {
  }

  /** Writable nodes at different paths have different host paths. */
  ghost predicate NothingShared(n: Node) {
    forall p, q :: HostAt(n, p).Some? && HostAt(n, p) == HostAt(n, q) ==> p == q
  }

  lemma GoodMeans(n: Node, n': Node)
    requires KeepsGood(n, n')
    ensures Good(n) ==> Good(n') && Kept(n, n') && NothingShared(n')
  {
    if Good(n) {
      forall p, q | HostAt(n', p).Some? && HostAt(n', p) == HostAt(n', q)
        ensures p == q
      {
        HostPathsDistinct(n', p, q);
      }
    }
  }

  /** Every run from the initial layout: the read-only part of the layout stays, and no two writable nodes ever share a
      host path. */
  method RunFromLaunch(setup: Setup, home: string, ops: seq<Op>) returns (fs: Fs, answers: seq<Answer>)
    requires SetupOk(setup) && Absolute(home) && forall i :: 0 <= i < |ops| ==> OptionsOk(ops[i])
    ensures fresh(fs) && fs.Valid() && |answers| == |ops|
    ensures var s := StateOf(Layout(setup), home);
            && SameState(StateOf(fs.root, fs.workingDirectory), Replay(s, ops))
            && forall i :: 0 <= i < |ops| ==> answers[i] == Says(Replay(s, ops[..i]), ops[i])
    ensures Good(fs.root) && Kept(Layout(setup), fs.root) && NothingShared(fs.root)
  {
    hide Kept, NothingShared, SameState, Says, Replay, StateOf, Mirror, BasesApart, Layout;
    LayoutGood(setup);
    DirectoryOf(Layout(setup));
    fs := new Fs(Layout(setup), home);
    answers := Run(fs, ops);
  }
}
