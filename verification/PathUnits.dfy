/** What `ap_getparents` computes, twice: as a fold over slash-terminated units of the path, and as the four
    passes over its characters; and why the two agree. */
module PathUnits {

  /** A path is a list of units: segments together with the slash that ends them, then perhaps a last segment
      without a slash. */
  ghost predicate IsUnit(u: string) {
    u != [] && '/' !in u[..|u| - 1]
  }

  predicate Closed(u: string)
  {
    u != [] && u[|u| - 1] == '/'
  }

  ghost predicate UnitList(us: seq<string>) {
    && (forall i :: 0 <= i < |us| ==> IsUnit(us[i]))
    && (forall i :: 0 <= i < |us| - 1 ==> Closed(us[i]))
  }

  /** Index of the first slash, or the length. */
  function FirstSlash(s: string): (k: nat)
    ensures k <= |s| && '/' !in s[..k] && (k < |s| ==> s[k] == '/')
  {
    if s == [] || s[0] == '/' then 0 else
      var k := FirstSlash(s[1..]) + 1;
      assert s[..k] == [s[0]] + s[1..][..k - 1];
      k
  }

  function Units(s: string): (us: seq<string>)
    ensures UnitList(us)
  {
    var k := FirstSlash(s);
    if k == |s| then
      if s == [] then [] else [s]
    else
      [s[..k + 1]] + Units(s[k + 1..])
  }

  function Join(us: seq<string>): string {
    if us == [] then [] else us[0] + Join(us[1..])
  }

  function Pop(us: seq<string>): seq<string> {
    if us == [] then [] else us[..|us| - 1]
  }

  /** The reference: one pass over the units with a stack. */
  function Reduce(stack: seq<string>, us: seq<string>): seq<string>
    decreases |us|
  {
    if us == [] then stack
    else if us[0] == "./" || us[0] == "." then Reduce(stack, us[1..])
    else if us[0] == "../" || us[0] == ".." then Reduce(Pop(stack), us[1..])
    else Reduce(stack + [us[0]], us[1..])
  }

  function Normalize(s: string): string {
    Join(Reduce([], Units(s)))
  }

  // ---------- joining and splitting ----------

  lemma {:induction false} JoinUnits(s: string)
    ensures Join(Units(s)) == s
    decreases |s|
  {
    var k := FirstSlash(s);
    if k < |s| {
      JoinUnits(s[k + 1..]);
      assert Units(s)[1..] == Units(s[k + 1..]);
    } else if s != [] {
      assert Join([s]) == s + Join([]);
    }
  }

  lemma FirstSlashOf(u: string, rest: string)
    requires IsUnit(u) && (Closed(u) || rest == [])
    ensures FirstSlash(u + rest) == if Closed(u) then |u| - 1 else |u|
  {
    var k, n := FirstSlash(u + rest), |u| - 1;
    assert forall i :: 0 <= i < n ==> u[i] == u[..n][i] && (u + rest)[i] == u[i];
    assert k > n ==> (u + rest)[..k][n] == u[n];
  }

  lemma {:induction false} UnitsJoin(us: seq<string>)
    requires UnitList(us)
    ensures Units(Join(us)) == us
  {
    if us != [] {
      var u, rest := us[0], Join(us[1..]);
      assert UnitList(us[1..]) && IsUnit(u) && (us[1..] == [] || Closed(u));
      assert Join(us) == u + rest && us == [u] + us[1..];
      UnitsJoin(us[1..]);
      hide UnitList, IsUnit, Join;
      FirstSlashOf(u, rest);
      if Closed(u) {
        assert (u + rest)[..|u|] == u && (u + rest)[|u|..] == rest;
      } else {
        assert us[1..] == [] && rest == [] && u + rest == u;
      }
    }
  }

  lemma {:induction false} JoinConcat(a: seq<string>, b: seq<string>)
    ensures Join(a + b) == Join(a) + Join(b)
  {
    if a == [] {
      assert a + b == b;
    } else {
      JoinConcat(a[1..], b);
      assert (a + b)[0] == a[0] && (a + b)[1..] == a[1..] + b;
      Reassociate(a[0], Join(a[1..]), Join(b));
    }
  }

  lemma Reassociate(x: string, y: string, z: string)
    ensures x + (y + z) == x + y + z
  {
  }

  lemma JoinSnoc(a: seq<string>, u: string)
    ensures Join(a + [u]) == Join(a) + u
  {
    JoinConcat(a, [u]);
    assert Join([u]) == u + Join([]);
  }

  // ---------- properties of the reference ----------

  ghost predicate NoDots(us: seq<string>) {
    forall i :: 0 <= i < |us| ==> us[i] !in {"./", ".", "../", ".."}
  }

  lemma UnitListWithout(a: seq<string>, u: string, b: seq<string>)
    requires UnitList(a + [u] + b)
    ensures UnitList(a + b)
  {
    var all := a + [u] + b;
    forall i | 0 <= i < |a + b|
      ensures IsUnit((a + b)[i]) && (i < |a + b| - 1 ==> Closed((a + b)[i]))
    {
      assert (a + b)[i] == if i < |a| then all[i] else all[i + 1];
    }
  }

  lemma {:induction false} ReduceShape(stack: seq<string>, us: seq<string>)
    requires UnitList(stack + us) && NoDots(stack)
    ensures UnitList(Reduce(stack, us)) && NoDots(Reduce(stack, us))
    ensures |Join(Reduce(stack, us))| <= |Join(stack)| + |Join(us)|
    decreases |us|
  {
    if us == [] {
      assert stack + us == stack;
    } else {
      var u, rest := us[0], us[1..];
      assert stack + us == (stack + [u]) + rest;
      JoinSnoc(stack, u);
      if u == "./" || u == "." {
        UnitListWithout(stack, u, rest);
        ReduceShape(stack, rest);
      } else if u == "../" || u == ".." {
        UnitListWithout(stack, u, rest);
        if stack != [] {
          var top := stack[|stack| - 1];
          assert Pop(stack) + [top] == stack;
          JoinSnoc(Pop(stack), top);
          UnitListWithout(Pop(stack), top, rest);
        }
        ReduceShape(Pop(stack), rest);
      } else {
        ReduceShape(stack + [u], rest);
      }
    }
  }

  /** The result has no `.` or `..` segment and is not longer than the path. */
  lemma NormalizeClean(s: string)
    ensures NoDots(Units(Normalize(s))) && |Normalize(s)| <= |s|
  {
    var us := Units(s);
    assert [] + us == us;
    ReduceShape([], us);
    UnitsJoin(Reduce([], us));
    JoinUnits(s);
  }

  lemma {:induction false} ReduceClean(stack: seq<string>, us: seq<string>)
    requires NoDots(us)
    ensures Reduce(stack, us) == stack + us
    decreases |us|
  {
    if us != [] {
      ReduceClean(stack + [us[0]], us[1..]);
      assert stack + [us[0]] + us[1..] == stack + us;
    }
  }

  /** Normalizing twice changes nothing more. */
  lemma NormalizeIdempotent(s: string)
    ensures Normalize(Normalize(s)) == Normalize(s)
  {
    NormalizeClean(s);
    ReduceClean([], Units(Normalize(s)));
    assert [] + Units(Normalize(s)) == Units(Normalize(s));
    JoinUnits(Normalize(s));
  }

  // ---------- what the reference says about single segments ----------

  /** Ends a path so that a new unit begins. */
  predicate Complete(s: string) {
    s == "" || s[|s| - 1] == '/'
  }

  lemma {:induction false} UnitsOfComplete(s: string)
    requires Complete(s)
    ensures forall i :: 0 <= i < |Units(s)| ==> Closed(Units(s)[i])
    decreases |s|
  {
    var k := FirstSlash(s);
    if k < |s| {
      assert Complete(s[k + 1..]);
      UnitsOfComplete(s[k + 1..]);
    }
  }

  lemma UnitsConcat(s: string, t: string)
    requires Complete(s)
    ensures Units(s + t) == Units(s) + Units(t)
  {
    UnitsOfComplete(s);
    JoinUnits(s);
    JoinUnits(t);
    JoinConcat(Units(s), Units(t));
    UnitsJoin(Units(s) + Units(t));
  }

  lemma {:induction false} ReduceConcat(stack: seq<string>, a: seq<string>, b: seq<string>)
    ensures Reduce(stack, a + b) == Reduce(Reduce(stack, a), b)
    decreases |a|
  {
    if a == [] {
      assert a + b == b;
    } else {
      var u := a[0];
      assert (a + b)[0] == u && (a + b)[1..] == a[1..] + b;
      var stack' := if u == "./" || u == "." then stack
                    else if u == "../" || u == ".." then Pop(stack) else stack + [u];
      ReduceConcat(stack', a[1..], b);
    }
  }

  lemma UnitsOfUnit(u: string)
    requires IsUnit(u)
    ensures Units(u) == [u]
  {
    assert UnitList([u]) && [u][1..] == [];
    assert Join([u]) == u + [] == u;
    UnitsJoin([u]);
  }

  /** What a segment in the middle of a path does: the rest is reduced on what the segment leaves. */
  lemma ReduceMiddle(s: string, u: string, t: string)
    requires Complete(s) && IsUnit(u) && Closed(u)
    ensures Reduce([], Units(s + u + t)) == Reduce(Reduce(Reduce([], Units(s)), [u]), Units(t))
  {
    assert Complete(s + u);
    UnitsConcat(s + u, t);
    UnitsConcat(s, u);
    UnitsOfUnit(u);
    ReduceConcat([], Units(s) + [u], Units(t));
    ReduceConcat([], Units(s), [u]);
  }

  lemma DotUnits()
    ensures IsUnit("./") && Closed("./") && IsUnit("../") && Closed("../") && Complete("") && Units("") == []
  {
  }

  lemma ReduceOne(r: seq<string>, u: string)
    ensures Reduce(r, [u]) == if u == "./" || u == "." then r
                              else if u == "../" || u == ".." then Pop(r) else r + [u]
  {
    assert [u][1..] == [];
  }

  lemma ReduceRest(s: string, t: string)
    requires Complete(s)
    ensures Reduce([], Units(s + t)) == Reduce(Reduce([], Units(s)), Units(t))
  {
    UnitsConcat(s, t);
    ReduceConcat([], Units(s), Units(t));
  }

  /** A segment followed by `../` goes away together with it. */
  lemma NormalizeParent(s: string, u: string, t: string)
    requires Complete(s) && IsUnit(u) && Closed(u) && u != "./" && u != "../"
    ensures Normalize(s + u + "../" + t) == Normalize(s + t)
  {
    var r := Reduce([], Units(s));
    DotUnits();
    assert Complete(s + u);
    assert u != "." && u != "..";
    hide Reduce, Units, IsUnit, Closed, Complete, Join;
    ReduceRest(s, t);
    ReduceMiddle(s + u, "../", t);
    ReduceMiddle(s, u, "");
    assert s + u + "" == s + u;
    ReduceOne(r, u);
    ReduceOne(r + [u], "../");
    assert Pop(r + [u]) == r;
    EmptyReduce(r + [u]);
  }

  lemma EmptyReduce(r: seq<string>)
    ensures Reduce(r, []) == r
  {
  }

  /** `./` anywhere, and a `../` with no segment before it, go away alone. */
  lemma NormalizeDot(s: string, t: string)
    requires Complete(s)
    ensures Normalize(s + "./" + t) == Normalize(s + t)
    ensures Normalize("../" + t) == Normalize(t)
  {
    DotUnits();
    hide Units, IsUnit, Closed, Complete, Join;
    ReduceRest(s, t);
    ReduceMiddle(s, "./", t);
    ReduceOne(Reduce([], Units(s)), "./");
    ReduceMiddle("", "../", t);
    assert "" + "../" + t == "../" + t;
    ReduceOne([], "../");
    hide Reduce;
    EmptyReduce([]);
  }
}
