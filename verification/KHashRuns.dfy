/** Whole runs of the hash table, against runs of a plain finite map. */
module KHashRuns {
  import opened KHashTable

  datatype Op<K, V> = Store(key: K, val: V) | Remove(key: K) | ClearAll | Reserve(request: nat)

  /** What a run means for a finite map. */
  ghost function Replay<K, V>(m: map<K, V>, ops: seq<Op<K, V>>): map<K, V> {
    if ops == [] then m else
      var rest := ops[..|ops| - 1];
      match ops[|ops| - 1]
      case Store(k, v) => Replay(m, rest)[k := v]
      case Remove(k) => Replay(m, rest) - {k}
      case ClearAll => map[]
      case Reserve(_) => Replay(m, rest)
  }

  /** `kh_put` followed by a store to `kh_value`. */
  method DoStore<K(==, 0), V(0)>(h: KHash<K, V>, k: K, v: V)
    requires h.Valid()
    modifies h, h.flags, h.keys, h.vals
    ensures h.Valid() && fresh(h.Parts() - old(h.Parts())) && h.Contents == old(h.Contents)[k := v]
  {
    hide Good;
    var x, _ := h.Put(k);
    h.SetValue(x, v);
  }

  /** `kh_get` followed by `kh_del`. */
  method DoRemove<K(==, 0), V(0)>(h: KHash<K, V>, k: K)
    requires h.Valid()
    modifies h, h.flags, h.keys, h.vals
    ensures h.Valid() && h.Parts() == old(h.Parts()) && h.Contents == old(h.Contents) - {k}
  {
    hide Good;
    var x := h.Get(k);
    h.Del(x);
  }

  /** Every run of stores, removals, clears and resizes leaves the table holding exactly what a finite map would,
      and a lookup at the end finds a key exactly when that map has it. */
  method Run<K(==, 0), V(0)>(h: KHash<K, V>, ops: seq<Op<K, V>>, probe: K) returns (found: bool, x: nat)
    requires h.Valid()
    modifies h, h.flags, h.keys, h.vals
    ensures h.Valid() && h.Contents == Replay(old(h.Contents), ops) && h.size == |h.Contents|
    ensures found <==> probe in Replay(old(h.Contents), ops)
    ensures found ==> x < h.nBuckets && h.keys[x] == probe && h.vals[x] == Replay(old(h.Contents), ops)[probe]
  {
    hide Good;
    for i := 0 to |ops|
      invariant h.Valid() && fresh(h.Parts() - old(h.Parts()))
      invariant h.Contents == Replay(old(h.Contents), ops[..i])
    {
      assert ops[..i + 1][..|ops[..i + 1]| - 1] == ops[..i];
      match ops[i] {
        case Store(k, v) => DoStore(h, k, v);
        case Remove(k) => DoRemove(h, k);
        case ClearAll => h.Clear();
        case Reserve(n) => h.Resize(n);
      }
    }
    assert ops[..|ops|] == ops;
    h.SizeIsCardinality();
    x := h.Get(probe);
    found := x != h.nBuckets;
  }
}
