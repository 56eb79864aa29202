/** The invariant of the in-place rehash. `f` holds the old statuses and `g` the new ones; both describe the
    same key array. A bucket live in `f` still waits to be moved, a bucket live in `g` has its final key, and
    at most one key is in hand. */
module Rehashing {
  import opened Probing
  import opened FlagWords
  import opened Buckets

  /** New statuses are only ever "empty" or "live". */
  ghost predicate NoTombstones(g: seq<Flag>) {
    forall i :: 0 <= i < |g| ==> !g[i].del
  }

  ghost predicate Inv<K>(f: seq<Flag>, g: seq<Flag>, keys: seq<K>, hash: K -> nat, at: map<K, nat>) {
    && IsPow2(|g|) && |g| <= |keys| && |f| <= |keys|
    && NoTombstones(g)
    && Live(f) !! Live(g)
    && Indexed(Live(f) + Live(g), keys, at)
    && Reachable(g, keys, hash)
  }

  lemma FreshStatuses(g: seq<Flag>)
    requires forall i :: 0 <= i < |g| ==> g[i] == Flag(true, false)
    ensures NoTombstones(g) && Live(g) == {} && Occupied(g) == {}
  {
  }

  lemma Starts<K>(f: seq<Flag>, g: seq<Flag>, keys: seq<K>, keys': seq<K>, hash: K -> nat, at: map<K, nat>)
    requires TableOk(f, keys, hash, at) || (f == [] && at == map[])
    requires IsPow2(|g|) && |g| <= |keys'| && |f| <= |keys'|
    requires forall i :: 0 <= i < |f| && i < |keys| ==> keys'[i] == keys[i]
    requires forall i :: 0 <= i < |g| ==> g[i] == Flag(true, false)
    ensures Inv(f, g, keys', hash, at)
  {
    FreshStatuses(g);
    assert Live(f) + Live(g) == Live(f);
  }

  /** Taking a live key out of the old table by marking its bucket deleted there. */
  lemma TakeOut<K>(f: seq<Flag>, g: seq<Flag>, keys: seq<K>, hash: K -> nat, at: map<K, nat>, j: nat, b: Flag)
    requires Inv(f, g, keys, hash, at) && j < |f| && f[j].Live() && b == f[j].(del := true)
    ensures Inv(f[j := b], g, keys, hash, at - {keys[j]})
    ensures Live(f[j := b]) == Live(f) - {j}
  {
    LiveUpdate(f, j, b);
    IndexedRemove(Live(f) + Live(g), keys, at, j);
    assert Live(f[j := b]) + Live(g) == Live(f) + Live(g) - {j};
  }

  /** The key in hand goes to a bucket that no waiting key uses. */
  lemma Place<K>(f: seq<Flag>, g: seq<Flag>, keys: seq<K>, hash: K -> nat, at: map<K, nat>,
                 key: K, s: nat, i: nat, b: Flag)
    requires Inv(f, g, keys, hash, at) && key !in at
    requires s < |g| && i == Probe(hash(key), s, |g|) && PathOccupied(g, hash(key), s)
    requires g[i].empty && b == g[i].(empty := false)
    requires i !in Live(f)
    ensures Inv(f, g[i := b], keys[i := key], hash, at[key := i])
    ensures Live(g[i := b]) == Live(g) + {i}
  {
    LiveUpdate(g, i, b);
    IndexedInsert(Live(f) + Live(g), keys, at, key, i);
    assert Live(f) + Live(g[i := b]) == Live(f) + Live(g) + {i};
    ReachableInsert(g, keys, hash, key, s, i);
    assert b == Flag(false, false);
  }

  /** Every key of `m` is either in a bucket with its value or in hand. */
  ghost predicate Moving<K, V>(f: seq<Flag>, g: seq<Flag>, keys: seq<K>, vals: seq<V>, hash: K -> nat,
                               at: map<K, nat>, m: map<K, V>, hand: set<K>)
  {
    && Inv(f, g, keys, hash, at) && |vals| == |keys|
    && m.Keys == at.Keys + hand && at.Keys !! hand
    && Carries(at, vals, m)
  }

  /** The values at the indexed buckets are those of `m`. */
  ghost predicate Carries<K, V>(at: map<K, nat>, vals: seq<V>, m: map<K, V>) {
    forall k :: k in at ==> at[k] < |vals| && k in m && vals[at[k]] == m[k]
  }

  datatype State<K, V> = State(f: seq<Flag>, g: seq<Flag>, keys: seq<K>, vals: seq<V>, at: map<K, nat>)

  /** The same with its value: the element is in hand from now on. */
  lemma PickUp<K, V>(f: seq<Flag>, g: seq<Flag>, keys: seq<K>, vals: seq<V>, hash: K -> nat, at: map<K, nat>,
                     m: map<K, V>, j: nat)
    requires Moving(f, g, keys, vals, hash, at, m, {}) && j < |f| && f[j].Live()
    ensures Moving(f[j := f[j].(del := true)], g, keys, vals, hash, at - {keys[j]}, m, {keys[j]})
    ensures m[keys[j]] == vals[j]
    ensures Live(f[j := f[j].(del := true)]) == Live(f) - {j}
  {
    assert j in Live(f) + Live(g);
    TakeOut(f, g, keys, hash, at, j, f[j].(del := true));
  }

  /** While a key is in hand and the new capacity can hold all keys, the key's probe path has an empty bucket. */
  lemma RoomInHand<K, V>(f: seq<Flag>, g: seq<Flag>, keys: seq<K>, vals: seq<V>, hash: K -> nat,
                         at: map<K, nat>, m: map<K, V>, key: K) returns (stop: nat)
    requires Moving(f, g, keys, vals, hash, at, m, {key}) && |m| <= |g|
    ensures stop < |g| && g[Probe(hash(key), stop, |g|)].empty
  {
    IndexedSize(Live(f) + Live(g), keys, at);
    assert |Live(f) + Live(g)| == |Live(f)| + |Live(g)|;
    assert |m.Keys| == |at.Keys| + 1;
    assert Occupied(g) == Live(g);
    var e := EmptyBucketExists(g);
    stop := StepOf(hash(key), e, |g|);
  }

  /** One round of the kick-out loop, on values. */
  lemma Round<K, V>(f: seq<Flag>, g: seq<Flag>, keys: seq<K>, vals: seq<V>, hash: K -> nat, at: map<K, nat>,
                    m: map<K, V>, key: K, s: nat, i: nat) returns (r: State<K, V>)
    requires Moving(f, g, keys, vals, hash, at, m, {key})
    requires s < |g| && i == Probe(hash(key), s, |g|) && PathOccupied(g, hash(key), s) && g[i].empty
    ensures r.g == g[i := g[i].(empty := false)] && r.keys == keys[i := key] && r.vals == vals[i := m[key]]
    ensures Live(r.g) == Live(g) + {i} && i !in Live(g)
    ensures if i < |f| && f[i].Live() then
              && r.f == f[i := f[i].(del := true)] && Live(r.f) == Live(f) - {i}
              && Moving(r.f, r.g, r.keys, r.vals, hash, r.at, m, {keys[i]}) && m[keys[i]] == vals[i]
            else
              r.f == f && Moving(r.f, r.g, r.keys, r.vals, hash, r.at, m, {})
  {
    var f1, at1 := f, at;
    if i < |f| && f[i].Live() {
      assert i in Live(f) + Live(g);
      TakeOut(f, g, keys, hash, at, i, f[i].(del := true));
      f1, at1 := f[i := f[i].(del := true)], at - {keys[i]};
    }
    Place(f1, g, keys, hash, at1, key, s, i, g[i].(empty := false));
    r := State(f1, g[i := g[i].(empty := false)], keys[i := key], vals[i := m[key]], at1[key := i]);
    CarriesPlaced(f1, g, keys, vals, at1, m, key, i);
  }

  lemma CarriesPlaced<K, V>(f: seq<Flag>, g: seq<Flag>, keys: seq<K>, vals: seq<V>, at: map<K, nat>,
                            m: map<K, V>, key: K, i: nat)
    requires Indexed(Live(f) + Live(g), keys, at) && Carries(at, vals, m) && |vals| == |keys|
    requires key in m && i !in Live(f) && i !in Live(g) && i < |vals|
    ensures Carries(at[key := i], vals[i := m[key]], m)
  {
  }

  /** When nothing waits any more, the new statuses describe a valid table with the same index. */
  lemma Finishes<K>(f: seq<Flag>, g: seq<Flag>, keys: seq<K>, hash: K -> nat, at: map<K, nat>)
    requires Inv(f, g, keys, hash, at) && Live(f) == {}
    ensures TableOk(g, keys[..|g|], hash, at)
  {
    assert Live(f) + Live(g) == Live(g);
    var keys' := keys[..|g|];
    assert forall i :: 0 <= i < |g| ==> keys'[i] == keys[i];
    assert Indexed(Live(g), keys', at);
    assert Reachable(g, keys', hash);
  }
}
