/** What the answers of the filesystem calls mean, and which calls undo each other. */
module FsAnswers {
  import opened Options
  import opened GuestPaths
  import opened FsTree
  import opened FsMirror
  import opened GuestFs

  /** The parent is there and is a directory. */
  predicate InDirectory(t: Table, at: Path) {
    at != [] && IsDir(t(Parent(at)))
  }

  predicate NotDirectory(t: Table, at: Path) {
    at != [] && t(Parent(at)).Some? && t(Parent(at)).value.FileTop?
  }

  predicate NoParent(t: Table, at: Path) {
    at == [] || t(Parent(at)) == None
  }

  predicate Writes(o: OpenOptions) {
    o.write || o.append
  }

  /** A handle gives access to what is at the path after the call: to a host file under the node's own host path, and
      for writing only if the node is writable; to archive members and resources only for reading. */
  lemma HandleIsNode(t: Table, at: Path, o: OpenOptions, hostOk: bool)
    ensures var r, t' := OpenAnswer(t, at, o, hostOk), OpenTable(t, at, o, hostOk);
            && (r.Ok? ==> t'(at).Some? && (t(at).Some? ==> t'(at) == t(at)))
            && (r.Ok? && r.value.HostHandle? ==>
                  exists w :: t'(at) == Some(FileTop(HostFile(r.value.path), w)) && (Writes(o) ==> w))
            && (r.Ok? && r.value.IpaHandle? ==> t(at) == Some(FileTop(IpaMember(r.value.id), false)) && !Writes(o))
            && (r.Ok? && r.value.ResourceHandle? ==>
                  t(at) == Some(FileTop(Resource(r.value.name), false)) && !Writes(o))
            && (r.Ok? && r.value.DirectoryHandle? ==> IsDir(t(at)) && !o.write)
            && (r.Ok? && o.create && o.exclusive ==> t(at) == None)
  {
    var r, t' := OpenAnswer(t, at, o, hostOk), OpenTable(t, at, o, hostOk);
    if r.Ok? && r.value.HostHandle? {
      assert t'(at) == Some(FileTop(HostFile(r.value.path), t'(at).value.writeable));
    }
  }

  /** When and how opening fails, panics aside. */
  lemma OpenFails(t: Table, at: Path, o: OpenOptions, hostOk: bool)
    ensures var r := OpenAnswer(t, at, o, hostOk);
            && (r == Err(DoesNotExist) <==> NoParent(t, at) || (InDirectory(t, at) && t(at) == None && !o.create))
            && (r == Err(NonexistentParentDir) <==> NotDirectory(t, at))
            && (r == Err(AlreadyExist) <==> InDirectory(t, at) && t(at).Some? && o.create && o.exclusive)
            && (r == Err(IsDirectory) <==> InDirectory(t, at) && IsDir(t(at)) && o.write && !(o.create && o.exclusive))
            && (r == Err(AccessDenied) <==>
                  && InDirectory(t, at)
                  && (|| (t(at) == None && o.create && t(Parent(at)).value.host == None)
                      || (t(at).Some? && t(at).value.FileTop? && !t(at).value.writeable && Writes(o)
                          && !(o.create && o.exclusive))))
            && r != Err(DirectoryNotEmpty) && r != Err(IoError) && r != Err(InvalidParentDir)
            && r != Err(ReadonlyParentDir)
  {
  }

  /** When and how making a directory fails, panics aside, and what it leaves. */
  lemma CreateDirFails(t: Table, at: Path, hostOk: bool)
    ensures var r, t' := CreateDirAnswer(t, at, hostOk), CreateDirTable(t, at, hostOk);
            && (r == Err(NonexistentParentDir) <==> NoParent(t, at))
            && (r == Err(InvalidParentDir) <==> NotDirectory(t, at))
            && (r == Err(AlreadyExist) <==> InDirectory(t, at) && t(at).Some?)
            && (r == Err(ReadonlyParentDir) <==>
                  InDirectory(t, at) && t(at) == None && t(Parent(at)).value.host == None)
            && (r == Ok(()) <==> InDirectory(t, at) && t(at) == None && t(Parent(at)).value.host.Some? && hostOk)
            && (r == Ok(()) ==> t'(at) == Some(DirTop(Some(t(Parent(at)).value.host.value + [Name(at)]))))
            && (forall q: Path :: q != at || r != Ok(()) ==> t'(q) == t(q))
  {
  }

  /** When and how removing fails, panics aside, and what it leaves. */
  lemma RemoveFails(t: Table, at: Path, hostOk: bool)
    ensures var r, t' := RemoveAnswer(t, at, hostOk), RemoveTable(t, at, hostOk);
            && (r == Err(NonexistentParentDir) <==> NoParent(t, at))
            && (r == Err(InvalidParentDir) <==> NotDirectory(t, at))
            && (r == Err(ReadonlyParentDir) <==> InDirectory(t, at) && t(Parent(at)).value.host == None)
            && (r == Err(DoesNotExist) <==> InDirectory(t, at) && t(Parent(at)).value.host.Some? && t(at) == None)
            && (r == Err(DirectoryNotEmpty) <==>
                  && InDirectory(t, at) && t(Parent(at)).value.host.Some? && IsDir(t(at))
                  && exists c: string :: t(at + [c]).Some?)
            && (r == Ok(()) ==> t'(at) == None)
            && (forall q: Path :: q != at || r != Ok(()) ==> t'(q) == t(q))
  {
  }

  /** When and how renaming fails, panics aside, and what it leaves: without success at most a new target, with success
      no source, and the target's own host file. */
  lemma RenameFails(t: Table, from: Path, to: Path, createOk: bool, hostOk: bool)
    ensures var r, t' := RenameAnswer(t, from, to, createOk, hostOk), RenameTable(t, from, to, createOk, hostOk);
            && (t(from) == None ==> r == Err(DoesNotExist))
            && (t(from).Some? && t(from).value.FileTop? && !t(from).value.location.HostFile? ==> r == Err(IsDirectory))
            && (Movable(t(from)) && IsDir(t(to)) ==> r == Err(IsDirectory))
            && (Movable(t(from)) && t(to).Some? && t(to).value.FileTop? && !t(to).value.location.HostFile? ==>
                  r == Err(AccessDenied))
            && (Movable(t(from)) && t(to) == None && InDirectory(t, to) && t(Parent(to)).value.host == None ==>
                  r == Err(AccessDenied))
            && (Movable(t(from)) && t(to) == None && NoParent(t, to) ==> r == Err(DoesNotExist))
            && (r == Ok(()) <==>
                  && Movable(t(from)) && hostOk
                  && (|| Movable(t(to))
                      || (createOk && t(to) == None && InDirectory(t, to) && WritableDir(t(Parent(to))))))
            && (r == Ok(()) && from != to ==> Movable(t'(to)) && t'(from) == None)
            && (r == Ok(()) && from != to && t(to) == None ==>
                  t'(to) == Some(FileTop(HostFile(t(Parent(to)).value.host.value + [Name(to)]), true)))
            && (forall q: Path :: q != from && q != to ==> t'(q) == t(q))
            && (r != Ok(()) && from != to ==> t'(from) == t(from))
  {
  }

  // ---------- calls that undo each other ----------

  lemma NothingBelow(n: Node, at: Path, c: string)
    requires TopAt(n, at) == None
    ensures TopAt(n, at + [c]) == None
  {
    LookupStep(n, at + [c]);
    assert Parent(at + [c]) == at;
  }

  /** Removing a directory just made, or a file just created, brings the table back. */
  lemma CreateThenRemove(n: Node, at: Path, o: OpenOptions)
    ensures var t := TableOf(n);
            CreateDirAnswer(t, at, true).Ok? ==>
              var t1 := CreateDirTable(t, at, true);
              RemoveAnswer(t1, at, true).Ok? && forall q: Path :: RemoveTable(t1, at, true)(q) == t(q)
    ensures var t := TableOf(n);
            OpenCreates(t, at, o, true) ==>
              var t1 := OpenTable(t, at, o, true);
              RemoveAnswer(t1, at, true).Ok? && forall q: Path :: RemoveTable(t1, at, true)(q) == t(q)
  {
    var t := TableOf(n);
    if Free(t, at) {
      forall c: string
        ensures t(at + [c]) == None
      {
        NothingBelow(n, at, c);
      }
      assert Parent(at) != at;
      CreatedEmpty(t, at);
    }
  }

  lemma CreatedEmpty(t: Table, at: Path)
    requires Free(t, at) && forall c: string :: t(at + [c]) == None
    ensures !HasChild(CreateDirTable(t, at, true), at)
  {
    forall c: string
      ensures CreateDirTable(t, at, true)(at + [c]) == None
    {
      assert at + [c] != at;
    }
  }
}
