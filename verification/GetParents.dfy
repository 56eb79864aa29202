/** `ap_getparents`: four in-place passes over a NUL-terminated buffer. */
module GetParents {
  import opened PathUnits
  import opened PathPasses

  const NUL: char := '\0'

  /** The buffer holds the C string `s`. */
  ghost predicate Holds(buf: seq<char>, s: string) {
    |s| < |buf| && buf[..|s|] == s && buf[|s|] == NUL && NUL !in s
  }

  /** The characters before the first NUL. */
  function CString(buf: seq<char>): (s: string)
    requires NUL in buf
    ensures Holds(buf, s)
  {
    if buf[0] == NUL then [] else
      assert NUL in buf[1..];
      var t := CString(buf[1..]);
      assert buf[..|t| + 1] == [buf[0]] + t;
      [buf[0]] + t
  }

  lemma HoldsUnique(buf: seq<char>, s: string, t: string)
    requires Holds(buf, s) && Holds(buf, t)
    ensures s == t
  {
  }

  /** Whether position `l` of `s` begins a segment. */
  predicate StartsAt(s: string, l: nat)
    requires l <= |s|
  {
    l == 0 || s[l - 1] == '/'
  }

  // ---------- pass a ----------

  lemma DropDotsCopy(s: string, l: nat)
    requires l < |s|
    requires !(StartsAt(s, l) && l + 2 <= |s| && s[l] == '.' && s[l + 1] == '/')
    ensures DropDots(s[l..], StartsAt(s, l)) == [s[l]] + DropDots(s[l + 1..], StartsAt(s, l + 1))
  {
    assert s[l..][1..] == s[l + 1..];
    assert "./" <= s[l..] ==> s[l..][0] == '.' && s[l..][1] == '/';
  }

  /** A prefix without dots is copied as it is. */
  lemma {:induction false} DropDotsPrefix(s: string, k: nat)
    requires k <= |s| && '.' !in s[..k]
    ensures DropDots(s, true) == s[..k] + DropDots(s[k..], StartsAt(s, k))
  {
    if k == 0 {
      assert s[0..] == s;
    } else {
      assert '.' !in s[..k - 1] by {
        assert s[..k - 1] == s[..k][..k - 1];
      }
      DropDotsPrefix(s, k - 1);
      assert s[..k][k - 1] == s[k - 1];
      DropDotsCopy(s, k - 1);
      hide DropDots, StartsAt;
      assert s[..k] == s[..k - 1] + [s[k - 1]];
    }
  }

  /** State of pass a: `w` characters written, `l` characters of `s` read. */
  ghost predicate Compacting(buf: seq<char>, s: string, w: nat, l: nat) {
    && w <= l <= |s| < |buf|
    && buf[l..|s|] == s[l..] && buf[|s|] == NUL
    && (l > 0 ==> buf[l - 1] == s[l - 1])
    && buf[..w] + DropDots(s[l..], StartsAt(s, l)) == DropDots(s, true)
  }

  lemma CompactSkip(buf: seq<char>, s: string, w: nat, l: nat)
    requires Compacting(buf, s, w, l) && l + 2 <= |s| && StartsAt(s, l) && s[l] == '.' && s[l + 1] == '/'
    ensures Compacting(buf, s, w, l + 2)
  {
    assert "./" <= s[l..];
    assert s[l..][2..] == s[l + 2..];
    assert buf[l..|s|][1] == buf[l + 1];
  }

  lemma CompactCopy(buf: seq<char>, s: string, w: nat, l: nat)
    requires Compacting(buf, s, w, l) && l < |s|
    requires !(StartsAt(s, l) && l + 2 <= |s| && s[l] == '.' && s[l + 1] == '/')
    ensures Compacting(buf[w := buf[l]], s, w + 1, l + 1)
  {
    DropDotsCopy(s, l);
    hide DropDots;
    var buf' := buf[w := buf[l]];
    assert buf[l] == buf[l..|s|][0] == s[l];
    assert buf'[..w + 1] == buf[..w] + [s[l]];
    assert buf'[l + 1..|s|] == buf[l..|s|][1..] == s[l..][1..] == s[l + 1..];
  }

  lemma {:induction false} DropDotsChars(s: string, start: bool)
    requires NUL !in s
    ensures NUL !in DropDots(s, start) && |DropDots(s, start)| <= |s|
    decreases |s|
  {
    if s != [] {
      if start && "./" <= s {
        DropDotsChars(s[2..], true);
      } else {
        DropDotsChars(s[1..], s[0] == '/');
      }
    }
  }

  lemma CompactingReads(buf: seq<char>, s: string, w: nat, l: nat)
    requires Compacting(buf, s, w, l)
    ensures w <= l <= |s| < |buf|
    ensures buf[l] == if l < |s| then s[l] else NUL
    ensures l < |s| ==> buf[l + 1] == if l + 1 < |s| then s[l + 1] else NUL
    ensures l > 0 ==> buf[l - 1] == s[l - 1]
    ensures l == |s| ==> buf[..w] == DropDots(s, true)
  {
    assert l < |s| ==> s[l] == buf[l..|s|][0];
    assert l + 1 < |s| ==> s[l + 1] == buf[l..|s|][1];
    assert l == |s| ==> s[l..] == [] && buf[..w] + [] == buf[..w];
  }

  lemma CompactingStarts(buf: seq<char>, s: string, k: nat)
    requires Holds(buf, s) && k <= |s| && '.' !in s[..k]
    ensures Compacting(buf, s, k, k)
  {
    DropDotsPrefix(s, k);
    assert buf[k..|s|] == buf[..|s|][k..];
    assert k > 0 ==> buf[k - 1] == buf[..|s|][k - 1];
  }

  /** Pass a. */
  method RemoveDots(name: array<char>, ghost s: string) returns (w: nat, firstDot: nat)
    requires Holds(name[..], s)
    modifies name
    ensures w == |DropDots(s, true)| <= |s| < name.Length && name[..w] == DropDots(s, true)
    ensures firstDot <= w && '.' !in name[..firstDot]
    ensures forall i :: |s| <= i < name.Length ==> name[i] == old(name[i])
  {
    hide DropDots, Compacting;
    var next := 0;
    while name[next] != NUL && name[next] != '.'
      invariant next <= |s| && '.' !in s[..next]
      decreases |s| - next
    {
      assert s[..next + 1] == s[..next] + [s[next]];
      next := next + 1;
    }
    firstDot := next;
    var l := next;
    w := next;
    CompactingStarts(name[..], s, next);
    while name[l] != NUL
      invariant firstDot <= w <= l <= |s| && Compacting(name[..], s, w, l)
      invariant name[..firstDot] == s[..firstDot]
      invariant forall i :: |s| <= i < name.Length ==> name[i] == old(name[i])
      decreases |s| - l
    {
      CompactingReads(name[..], s, w, l);
      if name[l] == '.' && name[l + 1] == '/' && (l == 0 || name[l - 1] == '/') {
        CompactSkip(name[..], s, w, l);
        l := l + 2;
      } else {
        CompactCopy(name[..], s, w, l);
        ghost var buf := name[..];
        name[w] := name[l];
        assert name[..] == buf[w := buf[l]];
        w, l := w + 1, l + 1;
      }
    }
    CompactingReads(name[..], s, w, l);
  }

  lemma CutDotKeeps(a: string, k: nat)
    requires k <= |a| && '.' !in a[..k]
    ensures k <= |DropLastDot(a)| <= |a| && '.' !in DropLastDot(a)[..k]
  {
    assert k == |a| && a != [] ==> a[..k][k - 1] == a[k - 1];
    assert k < |a| ==> a[..|a| - 1][..k] == a[..k];
  }

  /** Pass b: cuts off a last segment `.` and terminates the string. */
  method CutDot(name: array<char>, w0: nat, ghost t: string)
    requires w0 == |t| < name.Length && name[..w0] == t && NUL !in t
    modifies name
    ensures Holds(name[..], DropLastDot(t))
    ensures forall i :: w0 < i < name.Length ==> name[i] == old(name[i])
  {
    var w := w0;
    if w == 1 && name[0] == '.' {
      w := w - 1;
    } else if w > 1 && name[w - 1] == '.' && name[w - 2] == '/' {
      w := w - 1;
    }
    assert t == "." <==> |t| == 1 && t[0] == '.';
    name[w] := NUL;
    assert name[..w] == t[..w];
  }

  // ---------- passes c and d ----------

  /** A scanned prefix without dots is kept. */
  lemma {:induction false} PopUnitsPrefix(t: string, k: nat)
    requires k <= |t| && '.' !in t[..k]
    ensures PopUnits([], t) == PopUnits(t[..k], t[k..])
  {
    if k == 0 {
      assert t[0..] == t;
    } else {
      assert t[..k - 1] == t[..k][..k - 1];
      PopUnitsPrefix(t, k - 1);
      var u := t[k - 1..];
      assert t[..k][k - 1] == u[0] && u[1..] == t[k..];
      assert t[..k] == t[..k - 1] + [u[0]];
    }
  }

  /** Where the unit before position `l0` begins: skips that unit's own slash and goes back to the one before,
      if any. */
  method BackOneUnit(name: array<char>, l0: nat) returns (l: nat)
    requires l0 <= name.Length
    ensures l == |DropLastUnit(name[..l0])| <= l0
    ensures name[..l] == DropLastUnit(name[..l0])
  {
    var i: int := l0 - 2;
    if i >= 0 {
      assert name[..l0][..l0 - 1] == name[..l0 - 1];
      while i >= 0 && name[i] != '/'
        invariant -1 <= i <= l0 - 2
        invariant UpToSlash(name[..i + 1]) == UpToSlash(name[..l0 - 1])
      {
        assert name[..i + 1][..i] == name[..i];
        i := i - 1;
      }
      i := i + 1;
    } else {
      i := 0;
    }
    l := i;
    assert name[..l0][..l] == name[..l];
  }

  /** Copies the rest of the string from `m0` down to `n0`, up to and including its terminator. */
  method CloseGap(name: array<char>, n0: nat, m0: nat, ghost t: string)
    requires Holds(name[..], t) && n0 < m0 <= |t|
    modifies name
    ensures Holds(name[..], t[..n0] + t[m0..])
    ensures forall i :: |t| < i < name.Length ==> name[i] == old(name[i])
  {
    var n, m := n0, m0;
    name[n] := name[m];
    while name[n] != NUL
      invariant m <= |t| && m - n == m0 - n0 && n0 <= n
      invariant name[..n] == t[..n0] + t[m0..m]
      invariant forall i :: m <= i < |t| ==> name[i] == t[i]
      invariant name[n] == if m < |t| then t[m] else NUL
      invariant name[|t|] == NUL
      invariant forall i :: |t| < i < name.Length ==> name[i] == old(name[i])
      decreases |t| - m
    {
      assert name[..n + 1] == t[..n0] + t[m0..m + 1];
      n, m := n + 1, m + 1;
      name[n] := name[m];
    }
    assert m == |t|;
    assert t[m0..m] == t[m0..];
  }

  /** Pass c: scans from `l0`; `../` at the start of a segment removes itself and the unit before it. Returns the
      final length. */
  method RemoveParents(name: array<char>, l0: nat, ghost t: string) returns (l: nat)
    requires Holds(name[..], t) && l0 <= |t|
    modifies name
    ensures Holds(name[..], PopUnits(t[..l0], t[l0..])) && l == |PopUnits(t[..l0], t[l0..])| <= |t|
    ensures forall i :: |t| < i < name.Length ==> name[i] == old(name[i])
  {
    hide PopUnits, DropLastUnit;
    l := l0;
    ghost var u := t;
    while name[l] != NUL
      invariant l <= |u| <= |t| && Holds(name[..], u)
      invariant PopUnits(u[..l], u[l..]) == PopUnits(t[..l0], t[l0..])
      invariant forall i :: |t| < i < name.Length ==> name[i] == old(name[i])
      decreases |u| - l
    {
      assert name[l] == u[l];
      if name[l] == '.' && name[l + 1] == '.' && name[l + 2] == '/' && (l == 0 || name[l - 1] == '/') {
        var m := l + 3;
        ParentStep(u, l);
        assert name[..l] == u[..l];
        l := BackOneUnit(name, l);
        CloseGap(name, l, m, u);
        u := u[..l] + u[m..];
      } else {
        ScanStep(u, l);
        l := l + 1;
      }
    }
    PopUnitsDone(u);
  }

  lemma PopUnitsDone(u: string)
    ensures PopUnits(u[..|u|], u[|u|..]) == u
  {
    assert u[..|u|] == u;
  }

  lemma ParentStep(u: string, l: nat)
    requires l + 3 <= |u| && StartsAt(u, l) && u[l] == '.' && u[l + 1] == '.' && u[l + 2] == '/'
    ensures var n := |DropLastUnit(u[..l])|;
            && u[..n] == DropLastUnit(u[..l])
            && PopUnits(u[..l], u[l..]) == PopUnits((u[..n] + u[l + 3..])[..n], (u[..n] + u[l + 3..])[n..])
  {
    var n := |DropLastUnit(u[..l])|;
    assert u[..l][..n] == u[..n];
    assert "../" <= u[l..] && u[l..][3..] == u[l + 3..];
    assert (u[..n] + u[l + 3..])[..n] == u[..n] && (u[..n] + u[l + 3..])[n..] == u[l + 3..];
  }

  lemma ScanStep(u: string, l: nat)
    requires l < |u|
    requires !(StartsAt(u, l) && l + 3 <= |u| && u[l] == '.' && u[l + 1] == '.' && u[l + 2] == '/')
    ensures PopUnits(u[..l], u[l..]) == PopUnits(u[..l + 1], u[l + 1..])
  {
    var v := u[l..];
    assert "../" <= v ==> v[0] == '.' && v[1] == '.' && v[2] == '/';
    assert v[1..] == u[l + 1..] && u[..l] + [v[0]] == u[..l + 1];
  }

  /** Pass d: cuts off a last segment `..` and the unit before it. */
  method CutParent(name: array<char>, l: nat, ghost t: string)
    requires Holds(name[..], t) && l == |t|
    modifies name
    ensures Holds(name[..], DropLastParent(t))
    ensures forall i :: |t| < i < name.Length ==> name[i] == old(name[i])
  {
    if l == 2 && name[0] == '.' && name[1] == '.' {
      assert t == "..";
      name[0] := NUL;
    } else if l > 2 && name[l - 1] == '.' && name[l - 2] == '.' && name[l - 3] == '/' {
      assert name[..l - 2] == t[..l - 2];
      var k := BackOneUnit(name, l - 2);
      assert name[..k] == t[..k];
      name[k] := NUL;
    }
  }

  /** The whole function. For every NUL-terminated buffer the string becomes its normal form; nothing behind its
      terminator is touched. */
  method ApGetParents(name: array<char>)
    requires NUL in name[..]
    modifies name
    ensures NUL in name[..] && CString(name[..]) == Normalize(old(CString(name[..])))
    ensures forall i :: |old(CString(name[..]))| < i < name.Length ==> name[i] == old(name[i])
  {
    hide DropDots, DropLastDot, PopUnits, DropLastParent, Normalize, CString;
    ghost var s := CString(name[..]);
    DropDotsChars(s, true);
    var w, firstDot := RemoveDots(name, s);
    ghost var a := DropDots(s, true);
    CutDot(name, w, a);
    ghost var b := DropLastDot(a);
    CutDotKeeps(a, firstDot);
    PopUnitsPrefix(b, firstDot);
    var l := RemoveParents(name, firstDot, b);
    ghost var c := PopUnits([], b);
    CutParent(name, l, c);
    FourPassesNormalize(s);
    HoldsUnique(name[..], CString(name[..]), Normalize(s));
  }
}
