/** Guest paths: splitting at slashes, resolving to a list of components, writing such a list as a path again. */
module GuestPaths {
  import opened Options

  type Path = seq<string>

  predicate NoSlash(c: string) {
    '/' !in c
  }

  /** A component that a resolved path may have. */
  predicate Proper(c: string) {
    c != "" && c != "." && c != ".." && NoSlash(c)
  }

  predicate AllProper(p: Path) {
    forall i :: 0 <= i < |p| ==> Proper(p[i])
  }

  predicate Absolute(path: string) {
    path != "" && path[0] == '/'
  }

  function Split(s: string): (r: seq<string>)
    ensures |r| > 0 && forall i :: 0 <= i < |r| ==> NoSlash(r[i])
  {
    if s == "" then [""] else Prepend(s[0], Split(s[1..]))
  }

  /** A character in front of a split string starts a new part or extends the first. */
  function Prepend(c: char, r: seq<string>): (r': seq<string>)
    requires |r| > 0
    ensures |r'| > 0
    ensures (forall i :: 0 <= i < |r| ==> NoSlash(r[i])) ==> forall i :: 0 <= i < |r'| ==> NoSlash(r'[i])
  {
    if c == '/' then [""] + r else [[c] + r[0]] + r[1..]
  }

  lemma PrependConcat(c: char, r: seq<string>, t: seq<string>)
    requires |r| > 0
    ensures Prepend(c, r + t) == Prepend(c, r) + t
  {
    assert (r + t)[0] == r[0] && (r + t)[1..] == r[1..] + t;
  }

  lemma {:induction false} SplitAt(a: string, b: string)
    ensures Split(a + "/" + b) == Split(a) + Split(b)
  {
    var s := a + "/" + b;
    if a == "" {
      assert s[0] == '/' && s[1..] == b;
    } else {
      hide Prepend;
      SplitAt(a[1..], b);
      assert s[0] == a[0] && s[1..] == a[1..] + "/" + b;
      PrependConcat(a[0], Split(a[1..]), Split(b));
    }
  }

  lemma {:induction false} SplitPlain(c: string)
    requires NoSlash(c)
    ensures Split(c) == [c]
  {
    if c != "" {
      SplitPlain(c[1..]);
      assert [c[0]] + c[1..] == c;
    }
  }

  // ---------- resolving ----------

  function ApplyComponent(p: Path, c: string): Path {
    if c == "" || c == "." then p
    else if c == ".." then if p == [] then [] else p[..|p| - 1]
    else p + [c]
  }

  function ApplyAll(p: Path, cs: seq<string>): Path
    decreases |cs|
  {
    if cs == [] then p else ApplyAll(ApplyComponent(p, cs[0]), cs[1..])
  }

  /** What a path means: an absolute one starts at the root, any other at the directory `base`. */
  function Resolve(path: string, base: string): Path {
    ApplyAll(if Absolute(path) then [] else ApplyAll([], Split(base)), Split(path))
  }

  lemma {:induction false} ApplyAllAppend(p: Path, a: seq<string>, b: seq<string>)
    ensures ApplyAll(p, a + b) == ApplyAll(ApplyAll(p, a), b)
    decreases |a|
  {
    if a == [] {
      assert a + b == b;
    } else {
      assert (a + b)[1..] == a[1..] + b;
      ApplyAllAppend(ApplyComponent(p, a[0]), a[1..], b);
    }
  }

  lemma {:induction false} ApplyAllProper(p: Path, cs: seq<string>)
    requires AllProper(p) && forall i :: 0 <= i < |cs| ==> NoSlash(cs[i])
    ensures AllProper(ApplyAll(p, cs))
    decreases |cs|
  {
    if cs != [] {
      ApplyAllProper(ApplyComponent(p, cs[0]), cs[1..]);
    }
  }

  /** A resolved path has no empty, `.` or `..` component, and no slash inside one. */
  lemma ResolveProper(path: string, base: string)
    ensures AllProper(Resolve(path, base))
  {
    ApplyAllProper([], Split(base));
    ApplyAllProper(if Absolute(path) then [] else ApplyAll([], Split(base)), Split(path));
  }

  /** Resolving a relative path against a directory is resolving the two joined by a slash. */
  lemma ResolveRelative(path: string, base: string, any: string)
    requires Absolute(base) && !Absolute(path)
    ensures Resolve(path, base) == Resolve(base + "/" + path, any)
  {
    SplitAt(base, path);
    ApplyAllAppend([], Split(base), Split(path));
  }

  lemma {:induction false} ApplyProper(p: Path, cs: Path)
    requires AllProper(cs)
    ensures ApplyAll(p, cs) == p + cs
    decreases |cs|
  {
    if cs != [] {
      ApplyProper(p + [cs[0]], cs[1..]);
      assert p + [cs[0]] + cs[1..] == p + cs;
    }
  }

  // ---------- what the components mean ----------

  /** A path followed by a slash and more means: what the path means, then the further components. The empty path, which
      a slash makes absolute, is the exception. */
  lemma ResolveMore(p: string, rest: string, base: string)
    requires p != ""
    ensures Resolve(p + "/" + rest, base) == ApplyAll(Resolve(p, base), Split(rest))
  {
    var q := p + "/" + rest;
    assert q[0] == p[0];
    SplitAt(p, rest);
    ApplyAllAppend(if Absolute(p) then [] else ApplyAll([], Split(base)), Split(p), Split(rest));
  }

  lemma ApplyOne(p: Path, c: string)
    requires NoSlash(c)
    ensures ApplyAll(p, Split(c)) == ApplyComponent(p, c)
  {
    SplitPlain(c);
    assert [c][1..] == [];
  }

  /** `..` goes to the parent directory, and stays at the root. */
  lemma ResolveParent(p: string, base: string)
    requires p != ""
    ensures var at := Resolve(p, base);
            Resolve(p + "/..", base) == if at == [] then [] else at[..|at| - 1]
  {
    ResolveMore(p, "..", base);
    ApplyOne(Resolve(p, base), "..");
    assert p + "/" + ".." == p + "/..";
  }

  /** A proper name goes to the child of that name. */
  lemma ResolveChild(p: string, c: string, base: string)
    requires p != "" && Proper(c)
    ensures Resolve(p + "/" + c, base) == Resolve(p, base) + [c]
  {
    ResolveMore(p, c, base);
    ApplyOne(Resolve(p, base), c);
  }

  /** Going to a child and back leads nowhere else. */
  lemma ResolveChildAndBack(p: string, c: string, base: string)
    requires p != "" && Proper(c)
    ensures Resolve(p + "/" + c + "/..", base) == Resolve(p, base)
  {
    ResolveChild(p, c, base);
    ResolveParent(p + "/" + c, base);
    var at := Resolve(p, base);
    assert (at + [c])[..|at|] == at;
  }

  /** `.` and a slash at the end make no difference. */
  lemma ResolveSame(p: string, base: string)
    requires p != ""
    ensures Resolve(p + "/.", base) == Resolve(p, base) && Resolve(p + "/", base) == Resolve(p, base)
  {
    var at := Resolve(p, base);
    ResolveMore(p, ".", base);
    ApplyOne(at, ".");
    assert p + "/" + "." == p + "/.";
    ResolveMore(p, "", base);
    ApplyOne(at, "");
    assert p + "/" + "" == p + "/";
  }

  /** An absolute path means the same everywhere; the empty path is the base; a lone slash, also before `..` or `.`, is
      the root. */
  lemma ResolveEnds(p: string, base: string, other: string)
    ensures Absolute(p) ==> Resolve(p, base) == Resolve(p, other)
    ensures Resolve("", base) == Resolve(".", base) == ApplyAll([], Split(base))
    ensures Resolve("/", base) == Resolve("/..", base) == Resolve("/.", base) == []
    ensures Absolute(base) ==> Resolve("", base) == Resolve(base, other)
  {
    var b := ApplyAll([], Split(base));
    ApplyOne(b, "");
    ApplyOne(b, ".");
    SplitAt("", "");
    SplitAt("", "..");
    SplitAt("", ".");
    assert "" + "/" + "" == "/" && "" + "/" + ".." == "/.." && "" + "/" + "." == "/.";
    ApplyAllAppend([], Split(""), Split(""));
    ApplyAllAppend([], Split(""), Split(".."));
    ApplyAllAppend([], Split(""), Split("."));
    ApplyOne([], "");
    ApplyOne([], "..");
    ApplyOne([], ".");
  }

  // ---------- components joined by slashes ----------

  function Join(p: Path): string {
    if p == [] then "" else if |p| == 1 then p[0] else Join(p[..|p| - 1]) + "/" + p[|p| - 1]
  }

  lemma {:induction false} SplitJoin(p: Path)
    requires p != [] && AllProper(p)
    ensures Split(Join(p)) == p && !Absolute(Join(p)) && Join(p) != ""
  {
    SplitPlain(p[|p| - 1]);
    if |p| > 1 {
      var init := p[..|p| - 1];
      SplitJoin(init);
      SplitAt(Join(init), p[|p| - 1]);
      assert init + [p[|p| - 1]] == p;
      assert Join(p) == Join(init) + "/" + p[|p| - 1];
      assert Join(p)[0] == Join(init)[0];
    } else {
      assert [p[0]] == p;
    }
  }

  /** A listed path, taken relative to a directory, leads to that directory's descendant with these components. */
  lemma ResolveJoin(p: Path, base: string)
    requires p != [] && AllProper(p)
    ensures Resolve(Join(p), base) == ApplyAll([], Split(base)) + p
  {
    SplitJoin(p);
    ApplyProper(ApplyAll([], Split(base)), p);
  }

  // ---------- components written as an absolute path ----------

  function Slashed(p: Path): string {
    if p == [] then "" else Slashed(p[..|p| - 1]) + "/" + p[|p| - 1]
  }

  /** The form in which the working directory is kept. */
  function Render(p: Path): string {
    if p == [] then "/" else Slashed(p)
  }

  lemma {:induction false} SplitSlashed(p: Path)
    requires AllProper(p)
    ensures Split(Slashed(p)) == [""] + p && (p != [] ==> Absolute(Slashed(p)))
  {
    if p != [] {
      SplitPlain(p[|p| - 1]);
      SplitSlashed(p[..|p| - 1]);
      SplitAt(Slashed(p[..|p| - 1]), p[|p| - 1]);
      assert p[..|p| - 1] + [p[|p| - 1]] == p;
    }
  }

  /** A resolved path written out and resolved again is the same path, whatever the working directory. */
  lemma RenderRoundTrip(p: Path, any: string)
    requires AllProper(p)
    ensures Absolute(Render(p)) && Resolve(Render(p), any) == p && ApplyAll([], Split(Render(p))) == p
  {
    SplitSlashed(p);
    if p != [] {
      ApplyAllAppend([], [""], p);
      ApplyProper([], p);
    } else {
      assert Split("/") == [""] + [""];
      ApplyAllAppend([], [""], [""]);
    }
  }

  // ---------- the loops ----------

  method ApplyComponents(start: Path, text: string) returns (components: Path)
    ensures components == ApplyAll(start, Split(text))
  {
    components := start;
    var parts := Split(text);
    for i := 0 to |parts|
      invariant ApplyAll(components, parts[i..]) == ApplyAll(start, parts)
    {
      if parts[i] == "" || parts[i] == "." {
      } else if parts[i] == ".." {
        if components != [] {
          components := components[..|components| - 1];
        }
      } else {
        components := components + [parts[i]];
      }
      assert parts[i..][1..] == parts[i + 1..];
    }
  }

  method ResolvePath(path: string, relativeTo: Option<string>) returns (components: Path)
    requires !Absolute(path) ==> relativeTo.Some? && Absolute(relativeTo.value)
    ensures components == Resolve(path, if relativeTo.Some? then relativeTo.value else "/")
    ensures AllProper(components)
  {
    components := [];
    if !Absolute(path) {
      components := ApplyComponents(components, relativeTo.value);
    }
    components := ApplyComponents(components, path);
    ResolveProper(path, if relativeTo.Some? then relativeTo.value else "/");
  }

  /** The loop of `change_working_directory` that writes a resolved path out. */
  method WritePath(resolved: Path) returns (path: string)
    ensures path == Render(resolved)
  {
    if resolved == [] {
      return "/";
    }
    path := "";
    for i := 0 to |resolved|
      invariant path == Slashed(resolved[..i])
    {
      assert resolved[..i + 1][..i] == resolved[..i];
      path := path + "/";
      path := path + resolved[i];
    }
    assert resolved[..|resolved|] == resolved;
  }
}
