/** What the arrays of the hash table mean: which buckets are live, where each key sits, and why a probe
    finds it. Everything here is about values; the class in KHash.dfy updates arrays. */
module Buckets {
  import opened Probing
  import opened FlagWords

  /** 77 percent of the capacity, rounded to the nearest number. */
  function UpperBound(n: nat): (u: nat)
    ensures 100 * u <= 77 * n + 50 < 100 * u + 100
  {
    (77 * n + 50) / 100
  }

  ghost function Live(f: seq<Flag>): (r: set<nat>)
    ensures forall i :: i in r <==> 0 <= i < |f| && f[i].Live()
  {
    set i | 0 <= i < |f| && f[i].Live()
  }

  ghost function Occupied(f: seq<Flag>): (r: set<nat>)
    ensures forall i :: i in r <==> 0 <= i < |f| && !f[i].empty
  {
    set i | 0 <= i < |f| && !f[i].empty
  }

  /** `at` is the inverse of `keys` on the given buckets. */
  ghost predicate Indexed<K>(slots: set<nat>, keys: seq<K>, at: map<K, nat>) {
    && (forall i :: i in slots ==> i < |keys|)
    && (forall k :: k in at ==> at[k] in slots && keys[at[k]] == k)
    && (forall i :: i in slots ==> keys[i] in at && at[keys[i]] == i)
  }

  /** The first `s` buckets on the probe path from `h` are not empty. */
  ghost predicate PathOccupied(f: seq<Flag>, h: nat, s: nat)
    requires |f| > 0
  {
    forall t: nat :: t < s ==> !f[Probe(h, t, |f|)].empty
  }

  /** A live key is never hidden behind an empty bucket of its own probe path. */
  ghost predicate Reachable<K>(f: seq<Flag>, keys: seq<K>, hash: K -> nat)
    requires IsPow2(|f|) && |f| <= |keys|
  {
    forall i :: 0 <= i < |f| && f[i].Live() ==>
      PathOccupied(f, hash(keys[i]), StepOf(hash(keys[i]), i, |f|))
  }

  ghost predicate TableOk<K>(f: seq<Flag>, keys: seq<K>, hash: K -> nat, at: map<K, nat>) {
    && IsPow2(|f|) && |f| == |keys|
    && Indexed(Live(f), keys, at)
    && Reachable(f, keys, hash)
  }

  /** The loop condition of `kh_get` and `kh_put`, negated. */
  predicate Stops<K(==)>(f: Flag, k: K, key: K) {
    f.empty || (!f.del && k == key)
  }

  ghost predicate NoStopBefore<K>(f: seq<Flag>, keys: seq<K>, key: K, h: nat, s: nat)
    requires 0 < |f| <= |keys|
  {
    forall t: nat :: t < s ==> !Stops(f[Probe(h, t, |f|)], keys[Probe(h, t, |f|)], key)
  }

  lemma NothingBefore<K>(f: seq<Flag>, keys: seq<K>, key: K, h: nat)
    requires 0 < |f| <= |keys|
    ensures NoStopBefore(f, keys, key, h, 0)
  {
  }

  lemma StillNoStop<K>(f: seq<Flag>, keys: seq<K>, key: K, h: nat, s: nat)
    requires 0 < |f| <= |keys| && NoStopBefore(f, keys, key, h, s)
    requires var i := Probe(h, s, |f|); !Stops(f[i], keys[i], key)
    ensures NoStopBefore(f, keys, key, h, s + 1)
  {
  }

  lemma EmptyBucketExists(f: seq<Flag>) returns (e: nat)
    requires |Occupied(f)| < |f|
    ensures e < |f| && f[e].empty
  {
    assert (forall i :: 0 <= i < |f| ==> !f[i].empty) ==> Occupied(f) == Range(|f|);
    e :| 0 <= e < |f| && f[e].empty;
  }

  /** The first stop of a search is the key's own bucket when the key is live, and an empty bucket otherwise. */
  lemma SearchStops<K>(f: seq<Flag>, keys: seq<K>, hash: K -> nat, at: map<K, nat>, key: K, s: nat)
    requires TableOk(f, keys, hash, at) && s < |f|
    requires NoStopBefore(f, keys, key, hash(key), s)
    requires var i := Probe(hash(key), s, |f|); Stops(f[i], keys[i], key)
    ensures var i := Probe(hash(key), s, |f|);
            if key in at then i == at[key] else f[i].empty
  {
    var h, n := hash(key), |f|;
    var i := Probe(h, s, n);
    if key in at {
      var p := at[key];
      var sp := StepOf(h, p, n);
      assert p in Live(f);
      assert Probe(h, sp, n) == p;
      assert s <= sp;
      assert s < sp ==> i in Live(f);
    } else {
      assert !f[i].empty ==> i in Live(f);
    }
  }

  /** A search that comes back to its first bucket has seen every bucket. */
  lemma SearchExhausted<K>(f: seq<Flag>, keys: seq<K>, hash: K -> nat, at: map<K, nat>, key: K, s: nat)
    requires TableOk(f, keys, hash, at) && s > 0
    requires NoStopBefore(f, keys, key, hash(key), s)
    requires Probe(hash(key), s, |f|) == Probe(hash(key), 0, |f|)
    ensures key !in at
  {
    var h, n := hash(key), |f|;
    if s < n {
      ProbeInjective(h, 0, s, n);
    }
    assert key in at ==> at[key] in Live(f) && StepOf(h, at[key], n) < s;
  }

  lemma LiveUpdate(f: seq<Flag>, i: nat, g: Flag)
    requires i < |f|
    ensures Live(f[i := g]) == if g.Live() then Live(f) + {i} else Live(f) - {i}
    ensures Occupied(f[i := g]) == if g.empty then Occupied(f) - {i} else Occupied(f) + {i}
  {
  }

  lemma PathGrows(f: seq<Flag>, f': seq<Flag>, h: nat, s: nat)
    requires 0 < |f| == |f'| && PathOccupied(f, h, s)
    requires forall i :: 0 <= i < |f| && !f[i].empty ==> !f'[i].empty
    ensures PathOccupied(f', h, s)
  {
  }

  /** Reachability after a bucket on the path of `key` is given to `key`. */
  lemma ReachableInsert<K>(f: seq<Flag>, keys: seq<K>, hash: K -> nat, key: K, s: nat, x: nat)
    requires IsPow2(|f|) && |f| <= |keys| && Reachable(f, keys, hash)
    requires s < |f| && x == Probe(hash(key), s, |f|) && PathOccupied(f, hash(key), s)
    requires !f[x].Live()
    ensures Reachable(f[x := Flag(false, false)], keys[x := key], hash)
  {
    var f', keys', n := f[x := Flag(false, false)], keys[x := key], |f|;
    StepOfUnique(hash(key), s, n);
    forall i | 0 <= i < n && f'[i].Live()
      ensures PathOccupied(f', hash(keys'[i]), StepOf(hash(keys'[i]), i, n))
    {
      PathGrows(f, f', hash(keys'[i]), StepOf(hash(keys'[i]), i, n));
    }
  }

  lemma IndexedInsert<K>(slots: set<nat>, keys: seq<K>, at: map<K, nat>, key: K, x: nat)
    requires Indexed(slots, keys, at) && key !in at && x !in slots && x < |keys|
    ensures Indexed(slots + {x}, keys[x := key], at[key := x])
  {
  }

  lemma IndexedRemove<K>(slots: set<nat>, keys: seq<K>, at: map<K, nat>, x: nat)
    requires Indexed(slots, keys, at) && x in slots
    ensures Indexed(slots - {x}, keys, at - {keys[x]})
  {
  }

  lemma PutKeepsTable<K>(f: seq<Flag>, keys: seq<K>, hash: K -> nat, at: map<K, nat>, key: K, s: nat, x: nat)
    requires TableOk(f, keys, hash, at) && key !in at
    requires s < |f| && x == Probe(hash(key), s, |f|) && PathOccupied(f, hash(key), s)
    requires !f[x].Live()
    ensures TableOk(f[x := Flag(false, false)], keys[x := key], hash, at[key := x])
  {
    LiveUpdate(f, x, Flag(false, false));
    IndexedInsert(Live(f), keys, at, key, x);
    ReachableInsert(f, keys, hash, key, s, x);
  }

  lemma DelKeepsTable<K>(f: seq<Flag>, keys: seq<K>, hash: K -> nat, at: map<K, nat>, x: nat)
    requires TableOk(f, keys, hash, at) && x < |f| && f[x].Live()
    ensures TableOk(f[x := Flag(false, true)], keys, hash, at - {keys[x]})
  {
    var f' := f[x := Flag(false, true)];
    LiveUpdate(f, x, Flag(false, true));
    IndexedRemove(Live(f), keys, at, x);
    forall i | 0 <= i < |f| && f'[i].Live()
      ensures PathOccupied(f', hash(keys[i]), StepOf(hash(keys[i]), i, |f|))
    {
      PathGrows(f, f', hash(keys[i]), StepOf(hash(keys[i]), i, |f|));
    }
  }

  lemma {:induction false} IndexedSize<K>(slots: set<nat>, keys: seq<K>, at: map<K, nat>)
    requires Indexed(slots, keys, at)
    ensures |slots| == |at|
    decreases |slots|
  {
    if slots == {} {
      assert at.Keys == {};
    } else {
      var x :| x in slots;
      IndexedRemove(slots, keys, at, x);
      IndexedSize(slots - {x}, keys, at - {keys[x]});
      assert at.Keys == (at - {keys[x]}).Keys + {keys[x]};
    }
  }
}
