/** The four passes of `ap_getparents` as functions on strings, and the proof that together they compute the
    one-pass reference. */
module PathPasses {
  import opened PathUnits

  predicate AtStart(pre: string) {
    pre == [] || pre[|pre| - 1] == '/'
  }

  /** Pass a: removes `./` at the start of a segment. `start` says whether `s` begins a segment. */
  function DropDots(s: string, start: bool): string
    decreases |s|
  {
    if s == [] then []
    else if start && "./" <= s then DropDots(s[2..], true)
    else [s[0]] + DropDots(s[1..], s[0] == '/')
  }

  /** Pass b: removes a last segment `.`. */
  function DropLastDot(s: string): string {
    if s == "." || (|s| > 1 && s[|s| - 1] == '.' && s[|s| - 2] == '/') then s[..|s| - 1] else s
  }

  /** The longest prefix that ends in a slash. */
  function UpToSlash(t: string): (r: string)
    ensures |r| <= |t| && r == t[..|r|]
  {
    if AtStart(t) then t else UpToSlash(t[..|t| - 1])
  }

  /** Drops the last unit of a prefix that ends in a slash. */
  function DropLastUnit(pre: string): (r: string)
    ensures |r| <= |pre| && r == pre[..|r|]
  {
    if pre == [] then [] else UpToSlash(pre[..|pre| - 1])
  }

  /** Pass c: `pre` has been scanned; a segment `../` removes itself and the unit before it. */
  function PopUnits(pre: string, s: string): string
    decreases |s|
  {
    if s == [] then pre
    else if AtStart(pre) && "../" <= s then PopUnits(DropLastUnit(pre), s[3..])
    else PopUnits(pre + [s[0]], s[1..])
  }

  /** Pass d: removes a last segment `..` together with the unit before it. */
  function DropLastParent(s: string): string {
    if s == ".." then []
    else if |s| > 2 && s[|s| - 1] == '.' && s[|s| - 2] == '.' && s[|s| - 3] == '/' then DropLastUnit(s[..|s| - 2])
    else s
  }

  function FourPasses(s: string): string {
    DropLastParent(PopUnits([], DropLastDot(DropDots(s, true))))
  }

  // ---------- each pass on a list of units ----------

  /** All units but the last end in a slash, so a joined list ends a segment exactly where a unit ends. */
  ghost predicate AllClosed(us: seq<string>) {
    forall i :: 0 <= i < |us| ==> Closed(us[i])
  }

  lemma {:induction false} JoinAtStart(us: seq<string>)
    requires AllClosed(us)
    ensures AtStart(Join(us))
  {
    if us != [] {
      var n := |us| - 1;
      assert us == us[..n] + [us[n]];
      JoinSnoc(us[..n], us[n]);
    }
  }

  lemma UnitTail(u: string)
    requires IsUnit(u) && |u| > 1
    ensures u[0] != '/' && IsUnit(u[1..]) && Closed(u[1..]) == Closed(u)
  {
    assert u[..|u| - 1] == [u[0]] + u[1..][..|u| - 2];
  }

  lemma {:induction false} DropDotsCopies(v: string, rest: string)
    requires IsUnit(v) && (rest == [] || Closed(v))
    ensures DropDots(v + rest, false) == v + DropDots(rest, Closed(v))
  {
    DropDotsStep(v, rest, false);
    if |v| > 1 {
      UnitTail(v);
      DropDotsCopies(v[1..], rest);
      assert v == [v[0]] + v[1..];
    } else {
      assert v == [v[0]] && v[1..] + rest == rest;
    }
  }

  lemma DropDotsStep(v: string, rest: string, start: bool)
    requires v != [] && !(start && "./" <= v + rest)
    ensures DropDots(v + rest, start) == [v[0]] + DropDots(v[1..] + rest, v[0] == '/')
  {
    assert (v + rest)[1..] == v[1..] + rest;
  }

  function WithoutDots(us: seq<string>): seq<string> {
    if us == [] then []
    else if us[0] == "./" then WithoutDots(us[1..])
    else [us[0]] + WithoutDots(us[1..])
  }

  lemma DotSlashPrefix(u: string, rest: string)
    requires IsUnit(u) && (Closed(u) || rest == [])
    ensures "./" <= u + rest <==> u == "./"
    ensures "../" <= u + rest <==> u == "../"
  {
    var s := u + rest;
    assert "./" <= s <==> |s| >= 2 && s[0] == '.' && s[1] == '/';
    assert "../" <= s <==> |s| >= 3 && s[0] == '.' && s[1] == '.' && s[2] == '/';
    assert |u| > 1 ==> u[0] == u[..|u| - 1][0];
    assert |u| > 2 ==> u[1] == u[..|u| - 1][1];
    assert |u| > 3 ==> u[2] == u[..|u| - 1][2];
    assert u == "./" <==> |u| == 2 && u[0] == '.' && u[1] == '/';
    assert u == "../" <==> |u| == 3 && u[0] == '.' && u[1] == '.' && u[2] == '/';
  }

  lemma {:induction false} PassA(us: seq<string>)
    requires UnitList(us)
    ensures DropDots(Join(us), true) == Join(WithoutDots(us))
  {
    if us != [] {
      var u, rest := us[0], Join(us[1..]);
      assert UnitList(us[1..]);
      assert |us| == 1 ==> us[1..] == [];
      PassA(us[1..]);
      DotSlashPrefix(u, rest);
      if u == "./" {
        assert (u + rest)[2..] == rest;
      } else {
        PassAUnit(u, rest);
        assert WithoutDots(us)[1..] == WithoutDots(us[1..]);
        assert rest == [] ==> DropDots(rest, false) == DropDots(rest, true);
      }
    }
  }

  lemma PassAUnit(u: string, rest: string)
    requires IsUnit(u) && (Closed(u) || rest == []) && u != "./"
    ensures DropDots(u + rest, true) == u + DropDots(rest, Closed(u))
  {
    DotSlashPrefix(u, rest);
    DropDotsStep(u, rest, true);
    if |u| > 1 {
      PassATail(u, rest);
    } else {
      assert u == [u[0]] && u[1..] + rest == rest;
    }
  }

  lemma PassATail(u: string, rest: string)
    requires IsUnit(u) && |u| > 1 && (Closed(u) || rest == [])
    ensures [u[0]] + DropDots(u[1..] + rest, u[0] == '/') == u + DropDots(rest, Closed(u))
  {
    UnitTail(u);
    DropDotsCopies(u[1..], rest);
  }

  /** A list without its last unit, when that unit is `u`. */
  function WithoutLast(us: seq<string>, u: string): seq<string> {
    if us != [] && us[|us| - 1] == u then us[..|us| - 1] else us
  }

  lemma PassB(us: seq<string>)
    requires UnitList(us)
    ensures DropLastDot(Join(us)) == Join(WithoutLast(us, "."))
  {
    if us != [] {
      var n := |us| - 1;
      var u := us[n];
      assert us == us[..n] + [u];
      JoinSnoc(us[..n], u);
      JoinAtStart(us[..n]);
      var p := Join(us[..n]);
      if u == "." {
        assert (p + u)[..|p + u| - 1] == p;
      } else {
        LastDot(p, u);
      }
    }
  }

  lemma LastDot(p: string, u: string)
    requires IsUnit(u) && u != "." && AtStart(p)
    ensures DropLastDot(p + u) == p + u
  {
    var s := p + u;
    assert s[|s| - 1] == u[|u| - 1];
    if |u| > 1 {
      assert u[|u| - 2] == u[..|u| - 1][|u| - 2];
      assert s[|s| - 2] == u[|u| - 2];
    }
    assert |u| == 1 ==> u == [u[0]];
  }

  /** The reference fold restricted to `../`. */
  function PopList(stack: seq<string>, us: seq<string>): seq<string>
    decreases |us|
  {
    if us == [] then stack
    else if us[0] == "../" then PopList(Pop(stack), us[1..])
    else PopList(stack + [us[0]], us[1..])
  }

  lemma {:induction false} UpToSlashUnit(p: string, v: string)
    requires AtStart(p) && '/' !in v
    ensures UpToSlash(p + v) == p
  {
    if v == [] {
      assert p + v == p;
    } else {
      assert (p + v)[|p + v| - 1] == v[|v| - 1];
      assert (p + v)[..|p + v| - 1] == p + v[..|v| - 1];
      UpToSlashUnit(p, v[..|v| - 1]);
    }
  }

  lemma DropLastUnitPops(us: seq<string>)
    requires UnitList(us) && AllClosed(us)
    ensures DropLastUnit(Join(us)) == Join(Pop(us))
  {
    if us != [] {
      var n := |us| - 1;
      var u, p := us[n], Join(us[..n]);
      assert us == us[..n] + [u];
      JoinSnoc(us[..n], u);
      JoinAtStart(us[..n]);
      DropLastUnitOf(p, u);
    }
  }

  lemma DropLastUnitOf(p: string, u: string)
    requires AtStart(p) && IsUnit(u) && Closed(u)
    ensures DropLastUnit(p + u) == p
  {
    UpToSlashUnit(p, u[..|u| - 1]);
    hide UpToSlash, AtStart;
    assert (p + u)[..|p + u| - 1] == p + u[..|u| - 1];
  }

  lemma PopUnitsStep(pre: string, v: string, rest: string)
    requires v != [] && !(AtStart(pre) && "../" <= v + rest)
    ensures PopUnits(pre, v + rest) == PopUnits(pre + [v[0]], v[1..] + rest)
  {
    assert (v + rest)[1..] == v[1..] + rest;
  }

  lemma {:induction false} PopUnitsCopies(pre: string, v: string, rest: string)
    requires !AtStart(pre) && IsUnit(v) && (rest == [] || Closed(v))
    ensures PopUnits(pre, v + rest) == PopUnits(pre + v, rest)
    decreases |v|
  {
    PopUnitsStep(pre, v, rest);
    if |v| == 1 {
      assert v == [v[0]] && v[1..] + rest == rest;
    } else {
      UnitTail(v);
      PopUnitsCopies(pre + [v[0]], v[1..], rest);
      assert pre + [v[0]] + v[1..] == pre + v;
    }
  }

  lemma PopUnitsUnit(pre: string, u: string, rest: string)
    requires AtStart(pre) && IsUnit(u) && (rest == [] || Closed(u)) && u != "../"
    ensures PopUnits(pre, u + rest) == PopUnits(pre + u, rest)
  {
    hide PopUnits;
    DotSlashPrefix(u, rest);
    PopUnitsStep(pre, u, rest);
    if |u| == 1 {
      assert u == [u[0]] && u[1..] + rest == rest;
    } else {
      PopUnitsTail(pre, u, rest);
    }
  }

  lemma PopUnitsTail(pre: string, u: string, rest: string)
    requires IsUnit(u) && |u| > 1 && (rest == [] || Closed(u))
    ensures PopUnits(pre + [u[0]], u[1..] + rest) == PopUnits(pre + u, rest)
  {
    UnitTail(u);
    PopUnitsCopies(pre + [u[0]], u[1..], rest);
    assert pre + [u[0]] + u[1..] == pre + u;
  }

  lemma {:induction false} PassC(stack: seq<string>, us: seq<string>)
    requires UnitList(stack) && AllClosed(stack) && UnitList(us)
    ensures PopUnits(Join(stack), Join(us)) == Join(PopList(stack, us))
    decreases |us|
  {
    if us != [] {
      var u, rest := us[0], Join(us[1..]);
      assert UnitList(us[1..]);
      assert |us| == 1 ==> us[1..] == [];
      JoinAtStart(stack);
      DotSlashPrefix(u, rest);
      if u == "../" {
        assert (u + rest)[3..] == rest;
        DropLastUnitPops(stack);
        PassC(Pop(stack), us[1..]);
      } else {
        PopUnitsUnit(Join(stack), u, rest);
        JoinSnoc(stack, u);
        if Closed(u) {
          PassC(stack + [u], us[1..]);
        } else {
          assert us[1..] == [] && rest == [];
        }
      }
    }
  }

  lemma PassD(us: seq<string>)
    requires UnitList(us)
    ensures DropLastParent(Join(us)) == Join(if us != [] && us[|us| - 1] == ".." then Pop(Pop(us)) else us)
  {
    if us != [] {
      var n := |us| - 1;
      var u, p := us[n], Join(us[..n]);
      assert us == us[..n] + [u];
      JoinSnoc(us[..n], u);
      JoinAtStart(us[..n]);
      if u == ".." {
        DropLastUnitPops(us[..n]);
        assert (p + u)[..|p + u| - 2] == p;
        assert p == [] ==> p + u == "..";
      } else {
        LastParent(p, u);
      }
    }
  }

  lemma LastParent(p: string, u: string)
    requires IsUnit(u) && u != ".." && AtStart(p)
    ensures DropLastParent(p + u) == p + u
  {
    var s := p + u;
    assert s[|s| - 1] == u[|u| - 1];
    if |u| > 1 {
      assert u[|u| - 2] == u[..|u| - 1][|u| - 2];
      assert s[|s| - 2] == u[|u| - 2];
    }
    if |u| > 2 {
      assert u[|u| - 3] == u[..|u| - 1][|u| - 3];
      assert s[|s| - 3] == u[|u| - 3];
    }
    assert |u| == 2 ==> u == [u[0], u[1]];
    assert |u| == 1 && p != [] ==> s[|s| - 2] == p[|p| - 1];
  }

  // ---------- the passes together ----------

  ghost predicate NoDotSlash(us: seq<string>) {
    forall i :: 0 <= i < |us| ==> us[i] != "./"
  }

  lemma {:induction false} WithoutDotsShape(us: seq<string>)
    requires UnitList(us)
    ensures UnitList(WithoutDots(us)) && NoDotSlash(WithoutDots(us))
    ensures us == [] ==> WithoutDots(us) == []
  {
    if us != [] {
      var u, rest := us[0], us[1..];
      assert IsUnit(u) && UnitList(rest) && (rest == [] || Closed(u));
      hide UnitList, NoDotSlash, IsUnit, Closed;
      WithoutDotsShape(rest);
      if u != "./" {
        ConsShape(u, WithoutDots(rest));
      }
    }
  }

  lemma ConsShape(u: string, us: seq<string>)
    requires IsUnit(u) && u != "./" && (us == [] || Closed(u)) && UnitList(us) && NoDotSlash(us)
    ensures UnitList([u] + us) && NoDotSlash([u] + us)
  {
    hide IsUnit, Closed;
  }

  lemma {:induction false} PopListShape(stack: seq<string>, us: seq<string>)
    requires UnitList(stack + us)
    ensures UnitList(PopList(stack, us))
    decreases |us|
  {
    if us == [] {
      assert stack + us == stack;
    } else {
      var u, rest := us[0], us[1..];
      assert stack + us == (stack + [u]) + rest;
      if u == "../" {
        UnitListWithout(stack, u, rest);
        if stack != [] {
          assert Pop(stack) + [stack[|stack| - 1]] == stack;
          UnitListWithout(Pop(stack), stack[|stack| - 1], rest);
        }
        PopListShape(Pop(stack), rest);
      } else {
        PopListShape(stack + [u], rest);
      }
    }
  }

  /** The unit-level meaning of the four passes. */
  function FourListPasses(stack: seq<string>, us: seq<string>): seq<string> {
    var r := PopList(stack, WithoutLast(WithoutDots(us), "."));
    if r != [] && r[|r| - 1] == ".." then Pop(Pop(r)) else r
  }

  /** An open unit can only be the last one, so handling it after the closed ones changes nothing. */
  lemma {:induction false} ListPassesAreReduce(stack: seq<string>, us: seq<string>)
    requires UnitList(us) && AllClosed(stack)
    ensures FourListPasses(stack, us) == Reduce(stack, us)
    decreases |us|
  {
    if us != [] {
      var u, rest := us[0], us[1..];
      assert us == [u] + rest && IsUnit(u) && UnitList(rest) && (rest == [] || Closed(u));
      hide UnitList, IsUnit, FourListPasses, Reduce, AllClosed;
      if Closed(u) {
        ClosedStep(stack, u, rest);
        ListPassesAreReduce(StackAfter(stack, u), rest);
      } else {
        assert us == [u];
        LastOpenUnit(stack, u);
      }
    }
  }

  /** What a closed unit does to the stack. */
  function StackAfter(stack: seq<string>, u: string): seq<string> {
    if u == "./" then stack else if u == "../" then Pop(stack) else stack + [u]
  }

  lemma ClosedStep(stack: seq<string>, u: string, rest: seq<string>)
    requires Closed(u) && AllClosed(stack)
    ensures AllClosed(StackAfter(stack, u))
    ensures FourListPasses(stack, [u] + rest) == FourListPasses(StackAfter(stack, u), rest)
    ensures Reduce(stack, [u] + rest) == Reduce(StackAfter(stack, u), rest)
  {
    PassesStep(stack, u, rest);
    hide FourListPasses;
    assert ([u] + rest)[1..] == rest;
  }

  lemma PassesStep(stack: seq<string>, u: string, rest: seq<string>)
    requires Closed(u)
    ensures FourListPasses(stack, [u] + rest) == FourListPasses(StackAfter(stack, u), rest)
  {
    assert ([u] + rest)[1..] == rest;
    var ws := WithoutLast(WithoutDots(rest), ".");
    WithoutLastCons(u, WithoutDots(rest));
    assert ([u] + ws)[1..] == ws;
    assert u != "./" ==> PopList(stack, [u] + ws) == PopList(StackAfter(stack, u), ws);
    hide PopList;
  }

  lemma WithoutLastCons(u: string, us: seq<string>)
    requires Closed(u)
    ensures WithoutLast([u] + us, ".") == [u] + WithoutLast(us, ".")
  {
  }

  lemma LastOpenUnit(stack: seq<string>, u: string)
    requires IsUnit(u) && !Closed(u) && AllClosed(stack)
    ensures FourListPasses(stack, [u]) == Reduce(stack, [u])
  {
    assert WithoutDots([u]) == [u];
    if u == "." {
      assert WithoutLast([u], ".") == [];
    } else {
      assert WithoutLast([u], ".") == [u];
      assert PopList(stack, [u]) == PopList(stack + [u], []) == stack + [u];
      assert Pop(stack + [u]) == stack;
      assert Reduce(stack, [u]) == if u == ".." then Pop(stack) else stack + [u];
    }
  }

  lemma WithoutLastShape(us: seq<string>)
    requires UnitList(us)
    ensures UnitList(WithoutLast(us, "."))
  {
  }

  lemma EmptyUnits()
    ensures UnitList([]) && AllClosed([]) && Join([]) == []
  {
  }

  /** The four passes compute the one-pass reference, for every string. */
  lemma FourPassesNormalize(s: string)
    ensures FourPasses(s) == Normalize(s)
  {
    hide UnitList, Join, Units, Reduce, PopList, WithoutDots, WithoutLast, DropDots, DropLastDot, PopUnits,
      DropLastParent;
    var us := Units(s);
    JoinUnits(s);
    PassA(us);
    WithoutDotsShape(us);
    var us1 := WithoutDots(us);
    PassB(us1);
    var us2 := WithoutLast(us1, ".");
    WithoutLastShape(us1);
    EmptyUnits();
    PassC([], us2);
    assert [] + us2 == us2;
    PopListShape([], us2);
    PassD(PopList([], us2));
    ListPassesAreReduce([], us);
  }
}
