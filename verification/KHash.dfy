/** The hash table of khash.h: open addressing, tombstones, and a rehash that works inside the key and value
    arrays. The table is proved to be a finite map. */
module KHashTable {
  import opened Probing
  import opened FlagWords
  import opened Buckets
  import opened Rounding
  import Rehashing

  lemma WordsCoverBuckets(n: nat)
    requires IsPow2(n)
    ensures n <= 16 * FSize(n)
  {
    if n >= 16 {
      assert IsPow2(n / 2) && IsPow2(n / 2 / 2) && IsPow2(n / 2 / 2 / 2);
    }
  }

  /** The probe loop of `kh_get`: stops at the first bucket that is empty or holds the key (`!back`), or when it
      returns to the bucket it started from (`back`). */
  method Walk<K(==)>(flags: array<bv32>, keys: array<K>, n: nat, key: K, h: nat, ghost stop: nat)
    returns (i: nat, back: bool, ghost step: nat)
    requires 0 < n <= 16 * flags.Length && n <= keys.Length
    requires stop < n && FlagAt(flags[..], Probe(h, stop, n)).empty
    ensures step <= stop && i == Probe(h, step, n)
    ensures NoStopBefore(Unpack(flags[..], n), keys[..], key, h, step)
    ensures if back then step > 0 && i == Probe(h, 0, n) else Stops(FlagAt(flags[..], i), keys[i], key)
  {
    var s := 0;
    i := h % n;
    var last := i;
    back := false;
    step := 0;
    while !Stops(FlagAt(flags[..], i), keys[i], key)
      invariant s <= stop && i == Probe(h, s, n)
      invariant NoStopBefore(Unpack(flags[..], n), keys[..], key, h, s)
      decreases stop - s
    {
      ProbeNext(h, s, n);
      s := s + 1;
      i := (i + s) % n;
      if i == last {
        return i, true, s;
      }
    }
    step := s;
  }

  /** The probe loop of `kh_put`: like `Walk`, but remembers the last tombstone passed and prefers it to the
      empty bucket that ends the search. */
  method WalkForPut<K(==)>(flags: array<bv32>, keys: array<K>, n: nat, key: K, h: nat, ghost stop: nat)
    returns (x: nat, ghost sx: nat, ghost step: nat)
    requires IsPow2(n) && n <= 16 * flags.Length && n <= keys.Length
    requires stop < n && FlagAt(flags[..], Probe(h, stop, n)).empty
    ensures sx <= step <= stop && x == Probe(h, sx, n)
    ensures NoStopBefore(Unpack(flags[..], n), keys[..], key, h, step)
    ensures var i := Probe(h, step, n);
            && Stops(FlagAt(flags[..], i), keys[i], key)
            && (sx < step ==> FlagAt(flags[..], i).empty && FlagAt(flags[..], x).del)
  {
    hide NoStopBefore, IsPow2;
    NothingBefore(Unpack(flags[..], n), keys[..], key, h);
    var site: int, i, s := n, h % n, 0;
    var pick: int := n;
    ghost var ssite := 0;
    if FlagAt(flags[..], i).empty {
      return i, 0, 0;
    }
    var last := i;
    while !Stops(FlagAt(flags[..], i), keys[i], key)
      invariant s <= stop && i == Probe(h, s, n)
      invariant NoStopBefore(Unpack(flags[..], n), keys[..], key, h, s)
      invariant site != n ==> ssite < s && site == Probe(h, ssite, n) && FlagAt(flags[..], site).del
      decreases stop - s
    {
      if FlagAt(flags[..], i).del {
        site, ssite := i, s;
      }
      StillNoStop(Unpack(flags[..], n), keys[..], key, h, s);
      ProbeNext(h, s, n);
      s := s + 1;
      i := (i + s) % n;
      ProbeInjective(h, 0, s, n);
      if i == last {
        assert false;
        pick := site;
        break;
      }
    }
    sx, step := if FlagAt(flags[..], i).empty && site != n then ssite else s, s;
    if pick == n {
      pick := if FlagAt(flags[..], i).empty && site != n then site else i;
    }
    x := pick;
  }

  /** Probes the new flags up to the first empty bucket. */
  method FindEmpty(newFlags: array<bv32>, n: nat, h: nat, ghost stop: nat) returns (i: nat, ghost step: nat)
    requires 0 < n <= 16 * newFlags.Length
    requires stop < n && FlagAt(newFlags[..], Probe(h, stop, n)).empty
    ensures step < n && i == Probe(h, step, n)
    ensures PathOccupied(Unpack(newFlags[..], n), h, step) && FlagAt(newFlags[..], i).empty
  {
    var s := 0;
    i := h % n;
    while !FlagAt(newFlags[..], i).empty
      invariant s <= stop && i == Probe(h, s, n)
      invariant PathOccupied(Unpack(newFlags[..], n), h, s)
      decreases stop - s
    {
      ProbeNext(h, s, n);
      s := s + 1;
      i := (i + s) % n;
    }
    step := s;
  }

  ghost predicate Apart<K, V>(flags: array<bv32>, newFlags: array<bv32>, keys: array<K>, vals: array<V>) {
    && flags != newFlags && flags as object != keys && flags as object != vals
    && newFlags as object != keys && newFlags as object != vals && keys as object != vals
    && keys.Length == vals.Length
  }

  /** The bucket the key in hand goes to. */
  method Target<K(==), V>(flags: array<bv32>, newFlags: array<bv32>, keys: array<K>, vals: array<V>,
                          n: nat, nn: nat, hash: K -> nat, key: K, ghost at: map<K, nat>, ghost m: map<K, V>)
    returns (i: nat, ghost step: nat)
    requires n <= 16 * flags.Length && nn <= 16 * newFlags.Length && |m| <= nn
    requires Rehashing.Moving(Unpack(flags[..], n), Unpack(newFlags[..], nn), keys[..], vals[..], hash, at, m, {key})
    ensures step < nn && i == Probe(hash(key), step, nn)
    ensures PathOccupied(Unpack(newFlags[..], nn), hash(key), step) && FlagAt(newFlags[..], i).empty
  {
    ghost var stop := Rehashing.RoomInHand(Unpack(flags[..], n), Unpack(newFlags[..], nn), keys[..], vals[..],
                                        hash, at, m, key);
    i, step := FindEmpty(newFlags, nn, hash(key), stop);
  }

  /** Puts the key in hand into bucket `i`, the empty bucket its probe found; a waiting key found there is
      picked up. */
  method Settle<K(==), V>(flags: array<bv32>, newFlags: array<bv32>, keys: array<K>, vals: array<V>,
                          n: nat, nn: nat, hash: K -> nat, key: K, val: V, i: nat, ghost step: nat,
                          ghost at: map<K, nat>, ghost m: map<K, V>)
    returns (done: bool, key': K, val': V, ghost at': map<K, nat>)
    requires Apart(flags, newFlags, keys, vals) && n <= 16 * flags.Length && nn <= 16 * newFlags.Length
    requires Rehashing.Moving(Unpack(flags[..], n), Unpack(newFlags[..], nn), keys[..], vals[..], hash, at, m, {key})
    requires m[key] == val
    requires step < nn && i == Probe(hash(key), step, nn)
    requires PathOccupied(Unpack(newFlags[..], nn), hash(key), step) && FlagAt(newFlags[..], i).empty
    modifies flags, newFlags, keys, vals
    ensures Rehashing.Moving(Unpack(flags[..], n), Unpack(newFlags[..], nn), keys[..], vals[..], hash, at', m,
                          if done then {} else {key'})
    ensures !done ==> m[key'] == val'
    ensures Live(Unpack(flags[..], n)) <= old(Live(Unpack(flags[..], n)))
    ensures !done ==> |Live(Unpack(flags[..], n))| < old(|Live(Unpack(flags[..], n))|)
  {
    ghost var next := Rehashing.Round(Unpack(flags[..], n), Unpack(newFlags[..], nn), keys[..], vals[..],
                                   hash, at, m, key, step, i);
    at' := next.at;
    key', val', done := key, val, true;
    SetIsEmptyFalse(newFlags, i, nn);
    if i < n && FlagAt(flags[..], i).Live() {
      key', val', done := keys[i], vals[i], false;
      SetIsDelTrue(flags, i, n);
    }
    keys[i] := key;
    vals[i] := val;
    assert keys[..] == next.keys && vals[..] == next.vals;
    assert Unpack(newFlags[..], nn) == next.g;
    assert Unpack(flags[..], n) == next.f;
  }

  /** The kick-out loop: runs until the key in hand lands in a bucket no waiting key uses. */
  method KickOut<K(==), V>(flags: array<bv32>, newFlags: array<bv32>, keys: array<K>, vals: array<V>,
                           n: nat, nn: nat, hash: K -> nat, key0: K, val0: V,
                           ghost at0: map<K, nat>, ghost m: map<K, V>, ghost waiting: set<nat>)
    returns (ghost at: map<K, nat>)
    requires Apart(flags, newFlags, keys, vals) && n <= 16 * flags.Length && nn <= 16 * newFlags.Length
    requires Rehashing.Moving(Unpack(flags[..], n), Unpack(newFlags[..], nn), keys[..], vals[..], hash, at0, m, {key0})
    requires m[key0] == val0 && |m| <= nn && Live(Unpack(flags[..], n)) == waiting
    modifies flags, newFlags, keys, vals
    ensures Rehashing.Moving(Unpack(flags[..], n), Unpack(newFlags[..], nn), keys[..], vals[..], hash, at, m, {})
    ensures Live(Unpack(flags[..], n)) <= waiting
  {
    var key, val, done := key0, val0, false;
    at := at0;
    while !done
      invariant Rehashing.Moving(Unpack(flags[..], n), Unpack(newFlags[..], nn), keys[..], vals[..], hash, at, m,
                              if done then {} else {key})
      invariant !done ==> m[key] == val
      invariant Live(Unpack(flags[..], n)) <= waiting
      decreases !done, |Live(Unpack(flags[..], n))|
    {
      var i, step := Target(flags, newFlags, keys, vals, n, nn, hash, key, at, m);
      done, key, val, at := Settle(flags, newFlags, keys, vals, n, nn, hash, key, val, i, step, at, m);
    }
  }

  ghost predicate AllFrom(s: set<nat>, j: nat) {
    forall i :: i in s ==> j <= i
  }

  lemma AllFromNext(s: set<nat>, s': set<nat>, j: nat)
    requires AllFrom(s, j) && s' <= s && j !in s'
    ensures AllFrom(s', j + 1)
  {
  }

  /** The rehash loop: every live bucket below `j` has been moved. */
  method MoveAll<K(==), V>(flags: array<bv32>, newFlags: array<bv32>, keys: array<K>, vals: array<V>,
                           n: nat, nn: nat, hash: K -> nat, ghost at0: map<K, nat>, ghost m: map<K, V>)
    returns (ghost at: map<K, nat>)
    requires Apart(flags, newFlags, keys, vals) && n <= 16 * flags.Length && nn <= 16 * newFlags.Length
    requires Rehashing.Moving(Unpack(flags[..], n), Unpack(newFlags[..], nn), keys[..], vals[..], hash, at0, m, {})
    requires |m| <= nn
    modifies flags, newFlags, keys, vals
    ensures Rehashing.Moving(Unpack(flags[..], n), Unpack(newFlags[..], nn), keys[..], vals[..], hash, at, m, {})
    ensures Live(Unpack(flags[..], n)) == {}
  {
    at := at0;
    for j := 0 to n
      invariant Rehashing.Moving(Unpack(flags[..], n), Unpack(newFlags[..], nn), keys[..], vals[..], hash, at, m, {})
      invariant AllFrom(Live(Unpack(flags[..], n)), j)
    {
      ghost var waiting := Live(Unpack(flags[..], n));
      if FlagAt(flags[..], j).Live() {
        var key, val := keys[j], vals[j];
        Rehashing.PickUp(Unpack(flags[..], n), Unpack(newFlags[..], nn), keys[..], vals[..], hash, at, m, j);
        SetIsDelTrue(flags, j, n);
        at := KickOut(flags, newFlags, keys, vals, n, nn, hash, key, val, at - {key}, m, waiting - {j});
      }
      AllFromNext(waiting, Live(Unpack(flags[..], n)), j);
    }
  }

  /** `krealloc`: the common prefix is kept. */
  method Realloc<T(0)>(a: array<T>, n: nat) returns (b: array<T>)
    ensures fresh(b) && b.Length == n
    ensures forall i :: 0 <= i < n && i < a.Length ==> b[i] == a[i]
  {
    b := new T[n];
    var common := if n < a.Length then n else a.Length;
    for i := 0 to common
      invariant forall j :: 0 <= j < i ==> b[j] == a[j]
    {
      b[i] := a[i];
    }
  }

  /** Fresh flag words with every bucket empty. */
  method NewFlags(nn: nat) returns (newFlags: array<bv32>)
    requires IsPow2(nn)
    ensures fresh(newFlags) && nn <= 16 * newFlags.Length
    ensures forall i :: 0 <= i < nn ==> Unpack(newFlags[..], nn)[i] == Flag(true, false)
  {
    WordsCoverBuckets(nn);
    newFlags := new bv32[FSize(nn)];
    FillAllEmpty(newFlags, nn);
  }

  ghost predicate Represents<K, V>(f: seq<Flag>, keys: seq<K>, vals: seq<V>, hash: K -> nat,
                                   at: map<K, nat>, m: map<K, V>)
  {
    && |f| == |keys| == |vals|
    && at.Keys == m.Keys && Rehashing.Carries(at, vals, m)
    && (if f == [] then at == map[] else TableOk(f, keys, hash, at))
  }

  lemma StartsMoving<K, V>(f: seq<Flag>, g: seq<Flag>, keys: seq<K>, vals: seq<V>, keys': seq<K>, vals': seq<V>,
                           hash: K -> nat, at: map<K, nat>, m: map<K, V>)
    requires Represents(f, keys, vals, hash, at, m)
    requires IsPow2(|g|) && |g| <= |keys'| == |vals'| && |f| <= |keys'|
    requires forall i :: 0 <= i < |g| ==> g[i] == Flag(true, false)
    requires forall i :: 0 <= i < |f| ==> keys'[i] == keys[i]
    requires forall i :: 0 <= i < |f| ==> vals'[i] == vals[i]
    ensures Rehashing.Moving(f, g, keys', vals', hash, at, m, {})
  {
    Rehashing.Starts(f, g, keys, keys', hash, at);
    assert forall k :: k in at ==> at[k] in Live(f);
  }

  lemma FinishesMoving<K, V>(f: seq<Flag>, g: seq<Flag>, keys: seq<K>, vals: seq<V>, keys': seq<K>, vals': seq<V>,
                             hash: K -> nat, at: map<K, nat>, m: map<K, V>)
    requires Rehashing.Moving(f, g, keys, vals, hash, at, m, {}) && Live(f) == {}
    requires |keys'| == |vals'| == |g| > 0
    requires forall i :: 0 <= i < |g| ==> keys'[i] == keys[i]
    requires forall i :: 0 <= i < |g| ==> vals'[i] == vals[i]
    ensures Represents(g, keys', vals', hash, at, m) && Rehashing.NoTombstones(g) && Occupied(g) == Live(g)
  {
    Rehashing.Finishes(f, g, keys, hash, at);
    assert keys' == keys[..|g|];
    assert forall k :: k in at ==> at[k] in Live(f) + Live(g);
  }

  /** Allocates the new statuses and, to grow, longer arrays. */
  method Expand<K(==, 0), V(0)>(flags: array<bv32>, keys: array<K>, vals: array<V>, n: nat, nn: nat,
                                ghost hash: K -> nat, ghost at: map<K, nat>, ghost m: map<K, V>)
    returns (newFlags: array<bv32>, ks: array<K>, vs: array<V>)
    requires flags as object != keys && flags as object != vals && keys as object != vals
    requires n <= 16 * flags.Length && keys.Length == vals.Length == n
    requires Represents(Unpack(flags[..], n), keys[..], vals[..], hash, at, m)
    requires IsPow2(nn)
    ensures fresh(newFlags) && (ks == keys || fresh(ks)) && (vs == vals || fresh(vs))
    ensures nn <= 16 * newFlags.Length && Apart(flags, newFlags, ks, vs)
    ensures Rehashing.Moving(Unpack(flags[..], n), Unpack(newFlags[..], nn), ks[..], vs[..], hash, at, m, {})
  {
    newFlags := NewFlags(nn);
    ks, vs := keys, vals;
    if n < nn {
      ks := Realloc(keys, nn);
      vs := Realloc(vals, nn);
    }
    StartsMoving(Unpack(flags[..], n), Unpack(newFlags[..], nn), keys[..], vals[..], ks[..], vs[..], hash, at, m);
  }

  /** Cuts the arrays down to `nn` buckets if they are longer. */
  method Shrink<K(==, 0), V(0)>(keys: array<K>, vals: array<V>, nn: nat) returns (ks: array<K>, vs: array<V>)
    requires keys.Length == vals.Length && nn <= keys.Length && keys as object != vals
    ensures (ks == keys || fresh(ks)) && (vs == vals || fresh(vs)) && ks as object != vs
    ensures ks.Length == vs.Length == nn
    ensures forall i :: 0 <= i < nn ==> ks[i] == keys[i]
    ensures forall i :: 0 <= i < nn ==> vs[i] == vals[i]
  {
    ks, vs := keys, vals;
    if keys.Length > nn {
      ks := Realloc(keys, nn);
      vs := Realloc(vals, nn);
    }
  }

  /** Rehashing to capacity `nn`, growing, shrinking or keeping the arrays. */
  method Rebuild<K(==, 0), V(0)>(flags: array<bv32>, keys: array<K>, vals: array<V>, n: nat, nn: nat,
                                 hash: K -> nat, ghost at0: map<K, nat>, ghost m: map<K, V>)
    returns (newFlags: array<bv32>, ks: array<K>, vs: array<V>, ghost at: map<K, nat>)
    requires flags as object != keys && flags as object != vals && keys as object != vals
    requires n <= 16 * flags.Length && keys.Length == vals.Length == n
    requires Represents(Unpack(flags[..], n), keys[..], vals[..], hash, at0, m)
    requires IsPow2(nn) && |m| <= nn
    modifies flags, keys, vals
    ensures fresh(newFlags) && (ks == keys || fresh(ks)) && (vs == vals || fresh(vs))
    ensures newFlags as object != ks && newFlags as object != vs && ks as object != vs
    ensures nn <= 16 * newFlags.Length && ks.Length == vs.Length == nn
    ensures Represents(Unpack(newFlags[..], nn), ks[..], vs[..], hash, at, m)
    ensures var f := Unpack(newFlags[..], nn); Rehashing.NoTombstones(f) && Occupied(f) == Live(f)
  {
    var ks1, vs1;
    newFlags, ks1, vs1 := Expand(flags, keys, vals, n, nn, hash, at0, m);
    at := MoveAll(flags, newFlags, ks1, vs1, n, nn, hash, at0, m);
    ks, vs := Shrink(ks1, vs1, nn);
    FinishesMoving(Unpack(flags[..], n), Unpack(newFlags[..], nn), ks1[..], vs1[..], ks[..], vs[..], hash, at, m);
  }

  /** Everything `Valid` says about the arrays and counters, as a property of values. */
  ghost predicate Good<K, V>(f: seq<Flag>, keys: seq<K>, vals: seq<V>, hash: K -> nat, at: map<K, nat>,
                             m: map<K, V>, size: nat, nOccupied: nat, upperBound: nat)
  {
    && Represents(f, keys, vals, hash, at, m)
    && (|f| == 0 || |f| >= 4)
    && size == |Live(f)| && nOccupied == |Occupied(f)|
    && upperBound == (if |f| == 0 then 0 else UpperBound(|f|))
    && nOccupied <= upperBound
  }

  lemma GoodRepresents<K, V>(f: seq<Flag>, keys: seq<K>, vals: seq<V>, hash: K -> nat, at: map<K, nat>,
                             m: map<K, V>, size: nat, nOccupied: nat, upperBound: nat)
    requires Good(f, keys, vals, hash, at, m, size, nOccupied, upperBound)
    ensures Represents(f, keys, vals, hash, at, m)
  {
  }

  lemma PutGood<K, V>(f: seq<Flag>, keys: seq<K>, vals: seq<V>, hash: K -> nat, at: map<K, nat>, m: map<K, V>,
                      size: nat, nOccupied: nat, upperBound: nat, key: K, s: nat, x: nat)
    requires Good(f, keys, vals, hash, at, m, size, nOccupied, upperBound) && key !in m
    requires s < |f| && x == Probe(hash(key), s, |f|) && PathOccupied(f, hash(key), s) && !f[x].Live()
    requires f[x].empty ==> nOccupied < upperBound
    ensures Good(f[x := Flag(false, false)], keys[x := key], vals, hash, at[key := x], m[key := vals[x]],
                 size + 1, nOccupied + if f[x].empty then 1 else 0, upperBound)
  {
    assert f != [] && TableOk(f, keys, hash, at) && key !in at;
    hide TableOk, PathOccupied, Rehashing.Carries, UpperBound;
    PutKeepsTable(f, keys, hash, at, key, s, x);
    CarriesNew(at, vals, m, key, x);
    PutCounts(f, x);
    hide Live, Occupied;
  }

  lemma CarriesNew<K, V>(at: map<K, nat>, vals: seq<V>, m: map<K, V>, key: K, x: nat)
    requires at.Keys == m.Keys && Rehashing.Carries(at, vals, m) && key !in m && x < |vals|
    ensures at[key := x].Keys == m[key := vals[x]].Keys && Rehashing.Carries(at[key := x], vals, m[key := vals[x]])
  {
  }

  lemma PutCounts(f: seq<Flag>, x: nat)
    requires x < |f| && !f[x].Live()
    ensures |Live(f[x := Flag(false, false)])| == |Live(f)| + 1
    ensures |Occupied(f[x := Flag(false, false)])| == |Occupied(f)| + if f[x].empty then 1 else 0
  {
    LiveUpdate(f, x, Flag(false, false));
    assert x !in Live(f);
    assert !f[x].empty ==> Occupied(f) + {x} == Occupied(f);
  }

  lemma DelGood<K, V>(f: seq<Flag>, keys: seq<K>, vals: seq<V>, hash: K -> nat, at: map<K, nat>, m: map<K, V>,
                      size: nat, nOccupied: nat, upperBound: nat, x: nat)
    requires Good(f, keys, vals, hash, at, m, size, nOccupied, upperBound) && x < |f| && f[x].Live()
    ensures keys[x] in m && size > 0
    ensures Good(f[x := Flag(false, true)], keys, vals, hash, at - {keys[x]}, m - {keys[x]},
                 size - 1, nOccupied, upperBound)
  {
    assert x in Live(f);
    DelKeepsTable(f, keys, hash, at, x);
    LiveUpdate(f, x, Flag(false, true));
    assert Occupied(f[x := Flag(false, true)]) == Occupied(f);
  }

  lemma StoreGood<K, V>(f: seq<Flag>, keys: seq<K>, vals: seq<V>, hash: K -> nat, at: map<K, nat>, m: map<K, V>,
                        size: nat, nOccupied: nat, upperBound: nat, x: nat, v: V)
    requires Good(f, keys, vals, hash, at, m, size, nOccupied, upperBound) && x < |f| && f[x].Live()
    ensures keys[x] in m
    ensures Good(f, keys, vals[x := v], hash, at, m[keys[x] := v], size, nOccupied, upperBound)
  {
    assert x in Live(f);
    forall k | k in at
      ensures vals[x := v][at[k]] == m[keys[x] := v][k]
    {
      assert at[k] in Live(f);
    }
  }

  lemma ClearGood<K, V>(f: seq<Flag>, keys: seq<K>, vals: seq<V>, hash: K -> nat)
    requires IsPow2(|f|) && |f| >= 4 && |f| == |keys| == |vals|
    requires forall i :: 0 <= i < |f| ==> f[i] == Flag(true, false)
    ensures Good(f, keys, vals, hash, map[], map[], 0, 0, UpperBound(|f|))
  {
    Rehashing.FreshStatuses(f);
  }

  lemma RebuiltGood<K, V>(f: seq<Flag>, keys: seq<K>, vals: seq<V>, hash: K -> nat, at: map<K, nat>, m: map<K, V>)
    requires |f| >= 4 && Represents(f, keys, vals, hash, at, m) && Occupied(f) == Live(f) && |m| <= UpperBound(|f|)
    ensures Good(f, keys, vals, hash, at, m, |m|, |m|, UpperBound(|f|))
  {
    RepresentsSize(f, keys, vals, hash, at, m);
  }

  lemma RepresentsSize<K, V>(f: seq<Flag>, keys: seq<K>, vals: seq<V>, hash: K -> nat, at: map<K, nat>, m: map<K, V>)
    requires Represents(f, keys, vals, hash, at, m)
    ensures |Live(f)| == |m|
  {
    if f == [] {
      assert Live(f) == {};
      assert m.Keys == {};
    } else {
      IndexedSize(Live(f), keys, at);
      assert |at.Keys| == |m.Keys|;
    }
  }

  /** Rounded-up capacity for a resize request. */
  function Capacity(request: nat): (n: nat)
    ensures IsPow2(n) && n >= 4 && n >= request && (n == 4 || n < 2 * request)
  {
    if RoundUp(request) < 4 then
      assert IsPow2(2) && IsPow2(4);
      4
    else
      RoundUp(request)
  }

  class KHash<K(==, 0), V(0)> {
    const hash: K -> nat
    var nBuckets: nat
    var size: nat
    var nOccupied: nat
    var upperBound: nat
    var flags: array<bv32>
    var keys: array<K>
    var vals: array<V>
    ghost var at: map<K, nat>           // the bucket of each live key
    ghost var Contents: map<K, V>       // the finite map the table stands for

    /** The objects that make up the table. */
    ghost function Parts(): set<object>
      reads this
    {
      {this, flags, keys, vals}
    }

    ghost predicate Shape()
      reads this
    {
      && flags as object != keys && flags as object != vals && keys as object != vals
      && nBuckets <= 16 * flags.Length && nBuckets == keys.Length == vals.Length
    }

    ghost predicate Valid()
      reads this, flags, keys, vals
    {
      && Shape()
      && Good(Unpack(flags[..], nBuckets), keys[..], vals[..], hash, at, Contents, size, nOccupied, upperBound)
    }

    constructor (hash: K -> nat)
      ensures Valid() && fresh(Parts())
      ensures Contents == map[] && this.hash == hash && nBuckets == 0
    {
      this.hash := hash;
      nBuckets, size, nOccupied, upperBound := 0, 0, 0, 0;
      flags, keys, vals := new bv32[0], new K[0], new V[0];
      at, Contents := map[], map[];
    }

    /** `__ac_isempty(flags, i)` and `__ac_isdel(flags, i)`; a bucket with neither is `kh_exist`. */
    function Status(i: nat): (f: Flag)
      requires Shape() && i < nBuckets
      reads this, flags
      ensures f == Unpack(flags[..], nBuckets)[i]
    {
      FlagAt(flags[..], i)
    }

    /** A table is either unallocated and empty, or has a power-of-two capacity. */
    lemma CapacityGood()
      requires Valid()
      ensures if nBuckets == 0 then
                Contents == map[] && size == nOccupied == upperBound == 0
              else
                IsPow2(nBuckets) && nBuckets >= 4 && 100 * upperBound <= 77 * nBuckets + 50 < 100 * upperBound + 100
      ensures size <= nOccupied <= upperBound
    {
      var f := Unpack(flags[..], nBuckets);
      assert Live(f) <= Occupied(f);
      SubsetSize(Live(f), Occupied(f));
      assert f == [] ==> Live(f) == {} == Occupied(f) && Contents.Keys == {};
    }

    /** The number of keys is the number of live buckets. */
    lemma SizeIsCardinality()
      requires Valid()
      ensures size == |Contents|
    {
      RepresentsSize(Unpack(flags[..], nBuckets), keys[..], vals[..], hash, at, Contents);
    }

    /** A step at which every search from `h` has stopped. */
    lemma SearchLimit(h: nat) returns (s: nat)
      requires Valid() && nBuckets > 0
      ensures s < nBuckets && FlagAt(flags[..], Probe(h, s, nBuckets)).empty
    {
      BoundBelow(nBuckets);
      var e := EmptyBucketExists(Unpack(flags[..], nBuckets));
      s := StepOf(h, e, nBuckets);
    }

    /** The bucket of a key, or `nBuckets`. */
    method Get(key: K) returns (x: nat)
      requires Valid()
      ensures x <= nBuckets
      ensures x < nBuckets <==> key in Contents
      ensures x < nBuckets ==> Status(x).Live() && keys[x] == key && vals[x] == Contents[key]
    {
      if nBuckets == 0 {
        return 0;
      }
      ghost var stop := SearchLimit(hash(key));
      var i, back, step := Walk(flags, keys, nBuckets, key, hash(key), stop);
      ghost var f := Unpack(flags[..], nBuckets);
      if back {
        SearchExhausted(f, keys[..], hash, at, key, step);
        return nBuckets;
      }
      SearchStops(f, keys[..], hash, at, key, step);
      assert key in at ==> at[key] in Live(f);
      return if Status(i).Live() then i else nBuckets;
    }

    /** Changes the capacity. A request too small for the live keys changes nothing; otherwise the table gets the
        rounded-up capacity, no tombstones, and the same contents. */
    method Resize(request: nat)
      requires Valid()
      modifies this, flags, keys, vals
      ensures Valid() && fresh(Parts() - old(Parts()))
      ensures Contents == old(Contents) && size == old(size)
      ensures if 100 * old(size) + 50 > 77 * Capacity(request) then
                unchanged(this) && unchanged(flags) && unchanged(keys) && unchanged(vals)
              else
                && nBuckets == Capacity(request) && nOccupied == size
                && Rehashing.NoTombstones(Unpack(flags[..], nBuckets))
    {
      var nn := Capacity(request);
      if size < UpperBound(nn) {
        Rehash(nn);
      }
    }

    /** The rehash proper. */
    method Rehash(nn: nat)
      requires Valid() && IsPow2(nn) && nn >= 4 && size < UpperBound(nn)
      modifies this, flags, keys, vals
      ensures Valid() && fresh(Parts() - old(Parts()))
      ensures Contents == old(Contents) && size == old(size)
      ensures nBuckets == nn && nOccupied == size && Rehashing.NoTombstones(Unpack(flags[..], nBuckets))
    {
      hide Good, Represents, Unpack, Rehashing.NoTombstones, IsPow2, Live, Occupied;
      SizeIsCardinality();
      GoodRepresents(Unpack(flags[..], nBuckets), keys[..], vals[..], hash, at, Contents, size, nOccupied, upperBound);
      BoundBelow(nn);
      var newFlags, ks, vs, at' := Rebuild(flags, keys, vals, nBuckets, nn, hash, at, Contents);
      RebuiltGood(Unpack(newFlags[..], nn), ks[..], vs[..], hash, at', Contents);
      Install(newFlags, ks, vs, nn, at');
    }

    /** Puts the rebuilt arrays and counters in place. */
    method Install(newFlags: array<bv32>, ks: array<K>, vs: array<V>, nn: nat, ghost at': map<K, nat>)
      requires newFlags as object != ks && newFlags as object != vs && ks as object != vs
      requires nn <= 16 * newFlags.Length && nn == ks.Length == vs.Length
      requires Good(Unpack(newFlags[..], nn), ks[..], vs[..], hash, at', Contents, size, size, UpperBound(nn))
      modifies this
      ensures Valid() && flags == newFlags && keys == ks && vals == vs
      ensures Contents == old(Contents) && size == old(size) && nBuckets == nn && nOccupied == size
    {
      hide Good, Unpack;
      flags, keys, vals, at := newFlags, ks, vs, at';
      nBuckets, nOccupied, upperBound := nn, size, UpperBound(nn);
    }

    /** The first half of `kh_put`: a table without free buckets is rehashed at its own capacity when more than
        half of its buckets hold no key, and at twice its capacity otherwise. */
    method MakeRoom()
      requires Valid()
      modifies this, flags, keys, vals
      ensures Valid() && fresh(Parts() - old(Parts()))
      ensures Contents == old(Contents) && size == old(size) && nBuckets > 0 && nOccupied < upperBound
      ensures if old(nOccupied) < old(upperBound) then
                unchanged(this) && unchanged(flags) && unchanged(keys) && unchanged(vals)
              else
                && Rehashing.NoTombstones(Unpack(flags[..], nBuckets))
                && nBuckets == if old(nBuckets) == 0 then 4
                               else if old(nBuckets) > 2 * size then old(nBuckets) else 2 * old(nBuckets)
    {
      hide Good, Unpack, Rehashing.NoTombstones;
      CapacityGood();
      if nOccupied >= upperBound {
        RoomAfterResize(nBuckets, size);
        if nBuckets > 2 * size {
          Resize(nBuckets - 1);
        } else {
          Resize(nBuckets + 1);
        }
        CapacityGood();
      }
    }

    /** The bucket `kh_put` uses for a key: its own when it is present, and otherwise one that is not live and
        not behind an empty bucket of the key's probe path. */
    method Choose(key: K) returns (x: nat, ghost sx: nat)
      requires Valid() && nBuckets > 0
      ensures sx < nBuckets && x == Probe(hash(key), sx, nBuckets)
      ensures PathOccupied(Unpack(flags[..], nBuckets), hash(key), sx)
      ensures key in Contents <==> Status(x).Live()
      ensures key in Contents ==> keys[x] == key && Contents[key] == vals[x]
    {
      ghost var stop := SearchLimit(hash(key));
      ghost var step;
      CapacityGood();
      x, sx, step := WalkForPut(flags, keys, nBuckets, key, hash(key), stop);
      ChosenBucket(Unpack(flags[..], nBuckets), keys[..], vals[..], hash, at, Contents, key, sx, step);
    }

    /** The second half of `kh_put`. */
    method Insert(key: K) returns (x: nat, ret: nat)
      requires Valid() && nBuckets > 0 && nOccupied < upperBound
      modifies this`size, this`nOccupied, this`at, this`Contents, flags, keys
      ensures Valid()
      ensures x < nBuckets && Status(x).Live() && keys[x] == key
      ensures Contents == if key in old(Contents) then old(Contents) else old(Contents)[key := vals[x]]
      ensures key in Contents && Contents[key] == vals[x]
      ensures old(Status(x)).Live() <==> key in old(Contents)
      ensures ret == if key in old(Contents) then 0 else if old(Status(x)).empty then 1 else 2
    {
      hide Good, PathOccupied;
      ghost var f, sx := Unpack(flags[..], nBuckets), 0;
      x, sx := Choose(key);
      if Status(x).Live() {
        return x, 0;
      }
      PutGood(f, keys[..], vals[..], hash, at, Contents, size, nOccupied, upperBound, key, sx, x);
      at, Contents := at[key := x], Contents[key := vals[x]];
      ret := if Status(x).empty then 1 else 2;
      size, nOccupied := size + 1, nOccupied + if Status(x).empty then 1 else 0;
      ghost var ks := keys[..];
      keys[x] := key;
      assert keys[..] == ks[x := key];
      SetIsBothFalse(flags, x, nBuckets);
    }

    /** Finds or makes a bucket for a key: `ret` is 0 for a key already present, 1 for a new key in an empty
        bucket, 2 for a new key in a tombstone. The value of a new key is whatever the bucket held. */
    method Put(key: K) returns (x: nat, ret: nat)
      requires Valid()
      modifies this, flags, keys, vals
      ensures Valid() && fresh(Parts() - old(Parts()))
      ensures x < nBuckets && Status(x).Live() && keys[x] == key
      ensures Contents == if key in old(Contents) then old(Contents) else old(Contents)[key := vals[x]]
      ensures key in Contents && Contents[key] == vals[x]
      ensures old(nOccupied) < old(upperBound) ==> nBuckets == old(nBuckets)
      ensures ret == if key in old(Contents) then 0
                     else if old(nOccupied) < old(upperBound) && x < old(nBuckets) && !old(Status(x)).empty then 2
                     else 1
    {
      hide Good;
      MakeRoom();
      label roomy:
      x, ret := Insert(key);
      assert key !in old(Contents) && old(nOccupied) >= old(upperBound) ==> old@roomy(Status(x)).empty;
    }

    /** Stores a value in a live bucket. */
    method SetValue(x: nat, v: V)
      requires Valid() && x < nBuckets && Status(x).Live()
      modifies this`Contents, vals
      ensures Valid()
      ensures keys[x] in old(Contents) && Contents == old(Contents)[keys[x] := v]
    {
      StoreGood(Unpack(flags[..], nBuckets), keys[..], vals[..], hash, at, Contents, size, nOccupied, upperBound, x, v);
      Contents := Contents[keys[x] := v];
      ghost var vs := vals[..];
      vals[x] := v;
      assert vals[..] == vs[x := v];
    }

    /** Removes the key in bucket `x`; does nothing for a bucket that is not live or is `nBuckets`. */
    method Del(x: nat)
      requires Valid() && x <= nBuckets
      modifies this`size, this`at, this`Contents, flags
      ensures Valid()
      ensures if x < nBuckets && old(Status(x)).Live() then
                && keys[x] in old(Contents) && Contents == old(Contents) - {keys[x]}
                && size == old(size) - 1
              else
                Contents == old(Contents) && size == old(size)
    {
      hide Good;
      if x != nBuckets && Status(x).Live() {
        DelGood(Unpack(flags[..], nBuckets), keys[..], vals[..], hash, at, Contents, size, nOccupied, upperBound, x);
        at, Contents := at - {keys[x]}, Contents - {keys[x]};
        SetIsDelTrue(flags, x, nBuckets);
        size := size - 1;
      }
    }

    /** Empties the table, keeping its capacity. */
    method Clear()
      requires Valid()
      modifies this`size, this`nOccupied, this`at, this`Contents, flags
      ensures Valid()
      ensures Contents == map[] && size == 0 && nOccupied == 0
    {
      hide Good;
      CapacityGood();
      if nBuckets == 0 {
        return;
      }
      FillAllEmpty(flags, nBuckets);
      ClearGood(Unpack(flags[..], nBuckets), keys[..], vals[..], hash);
      size, nOccupied := 0, 0;
      at, Contents := map[], map[];
    }
  }

  /** What `kh_put` may do with the bucket its search chose. */
  lemma ChosenBucket<K, V>(f: seq<Flag>, keys: seq<K>, vals: seq<V>, hash: K -> nat, at: map<K, nat>, m: map<K, V>,
                           key: K, sx: nat, step: nat)
    requires f != [] && Represents(f, keys, vals, hash, at, m)
    requires sx <= step < |f| && NoStopBefore(f, keys, key, hash(key), step)
    requires var i := Probe(hash(key), step, |f|);
             && Stops(f[i], keys[i], key) && (sx < step ==> f[i].empty && f[Probe(hash(key), sx, |f|)].del)
    ensures var x := Probe(hash(key), sx, |f|);
            && (key in m <==> f[x].Live()) && PathOccupied(f, hash(key), sx)
            && (key in m ==> keys[x] == key && m[key] == vals[x])
  {
    SearchStops(f, keys, hash, at, key, step);
    assert key in at ==> at[key] in Live(f);
  }

  lemma RoomAfterResize(n: nat, size: nat)
    requires n == 0 || (IsPow2(n) && n >= 4)
    requires size <= if n == 0 then 0 else UpperBound(n)
    ensures n > 2 * size ==> Capacity(n - 1) == n && size < UpperBound(n)
    ensures var n' := if n == 0 then 4 else 2 * n; Capacity(n + 1) == n' && size < UpperBound(n')
  {
    if n > 0 {
      DoublePow2(n);
      RoundUpUnique(n - 1, n);
      RoundUpUnique(n + 1, 2 * n);
    }
  }

  lemma SubsetSize(a: set<nat>, b: set<nat>)
    requires a <= b
    ensures |a| <= |b|
  {
    assert |b - a| == |b| - |a|;
  }

  lemma BoundBelow(n: nat)
    requires n >= 4
    ensures UpperBound(n) < n
  {
  }
}
