/** Two status bits per bucket, packed sixteen buckets to a 32-bit word. */
module FlagWords {

  datatype Flag = Flag(empty: bool, del: bool) {
    predicate Live() {
      !empty && !del
    }
  }

  /** Number of words allocated for `m` buckets. */
  function FSize(m: nat): nat {
    if m < 16 then 1 else m / 16
  }

  /** The low four bits of a bucket number, `i & 0xf`, as a word. */
  function Lane(i: nat): (k: bv32)
    ensures k < 16
  {
    match i % 16
    case 0 => 0 case 1 => 1 case 2 => 2 case 3 => 3 case 4 => 4 case 5 => 5 case 6 => 6 case 7 => 7
    case 8 => 8 case 9 => 9 case 10 => 10 case 11 => 11 case 12 => 12 case 13 => 13 case 14 => 14 case _ => 15
  }

  lemma LaneInjective(i: nat, j: nat)
    requires i / 16 == j / 16 && i != j
    ensures Lane(i) != Lane(j)
  {
    assert i % 16 != j % 16;
  }

  function Decode(w: bv32, k: bv32): Flag
    requires k < 16
  {
    Flag((w >> (2 * k)) & 2 != 0, (w >> (2 * k)) & 1 != 0)
  }

  function WithDelTrue(w: bv32, k: bv32): bv32
    requires k < 16
  {
    w | (1 << (2 * k))
  }

  function WithEmptyFalse(w: bv32, k: bv32): bv32
    requires k < 16
  {
    w & !(2 << (2 * k))
  }

  function WithBothFalse(w: bv32, k: bv32): bv32
    requires k < 16
  {
    w & !(3 << (2 * k))
  }

  /** Each setter changes the status of its own lane and of no other. */
  lemma DelTrueLanes(w: bv32, k: bv32, j: bv32)
    requires k < 16 && j < 16
    ensures Decode(WithDelTrue(w, k), j) == if j == k then Decode(w, k).(del := true) else Decode(w, j)
  {
  }

  lemma EmptyFalseLanes(w: bv32, k: bv32, j: bv32)
    requires k < 16 && j < 16
    ensures Decode(WithEmptyFalse(w, k), j) == if j == k then Decode(w, k).(empty := false) else Decode(w, j)
  {
  }

  lemma BothFalseLanes(w: bv32, k: bv32, j: bv32)
    requires k < 16 && j < 16
    ensures Decode(WithBothFalse(w, k), j) == if j == k then Flag(false, false) else Decode(w, j)
  {
  }

  /** The byte pattern 0xaa marks every bucket empty and not deleted. */
  const ALL_EMPTY: bv32 := 0xaaaa_aaaa

  lemma AllEmptyDecodes(k: bv32)
    requires k < 16
    ensures Decode(ALL_EMPTY, k) == Flag(true, false)
  {
  }

  function FlagAt(words: seq<bv32>, i: nat): Flag
    requires i / 16 < |words|
  {
    Decode(words[i / 16], Lane(i))
  }

  /** The statuses of buckets `0..n`. */
  function Unpack(words: seq<bv32>, n: nat): (r: seq<Flag>)
    requires n <= 16 * |words|
  {
    seq(n, i requires 0 <= i < n => FlagAt(words, i))
  }

  lemma UnpackUpdate(words: seq<bv32>, n: nat, i: nat, w: bv32, f: Flag)
    requires n <= 16 * |words| && i < n
    requires Decode(w, Lane(i)) == f
    requires forall j :: 0 <= j < n && j != i && j / 16 == i / 16 ==> Decode(w, Lane(j)) == FlagAt(words, j)
    ensures Unpack(words[i / 16 := w], n) == Unpack(words, n)[i := f]
  {
  }

  lemma DelTrueUnpacks(words: seq<bv32>, n: nat, i: nat)
    requires n <= 16 * |words| && i < n
    ensures Unpack(words[i / 16 := WithDelTrue(words[i / 16], Lane(i))], n)
            == Unpack(words, n)[i := FlagAt(words, i).(del := true)]
  {
    var w, k := words[i / 16], Lane(i);
    DelTrueLanes(w, k, k);
    forall j | 0 <= j < n && j != i && j / 16 == i / 16
      ensures Decode(WithDelTrue(w, k), Lane(j)) == FlagAt(words, j)
    {
      LaneInjective(i, j);
      DelTrueLanes(w, k, Lane(j));
    }
    UnpackUpdate(words, n, i, WithDelTrue(w, k), FlagAt(words, i).(del := true));
  }

  lemma EmptyFalseUnpacks(words: seq<bv32>, n: nat, i: nat)
    requires n <= 16 * |words| && i < n
    ensures Unpack(words[i / 16 := WithEmptyFalse(words[i / 16], Lane(i))], n)
            == Unpack(words, n)[i := FlagAt(words, i).(empty := false)]
  {
    var w, k := words[i / 16], Lane(i);
    EmptyFalseLanes(w, k, k);
    forall j | 0 <= j < n && j != i && j / 16 == i / 16
      ensures Decode(WithEmptyFalse(w, k), Lane(j)) == FlagAt(words, j)
    {
      LaneInjective(i, j);
      EmptyFalseLanes(w, k, Lane(j));
    }
    UnpackUpdate(words, n, i, WithEmptyFalse(w, k), FlagAt(words, i).(empty := false));
  }

  lemma BothFalseUnpacks(words: seq<bv32>, n: nat, i: nat)
    requires n <= 16 * |words| && i < n
    ensures Unpack(words[i / 16 := WithBothFalse(words[i / 16], Lane(i))], n)
            == Unpack(words, n)[i := Flag(false, false)]
  {
    var w, k := words[i / 16], Lane(i);
    BothFalseLanes(w, k, k);
    forall j | 0 <= j < n && j != i && j / 16 == i / 16
      ensures Decode(WithBothFalse(w, k), Lane(j)) == FlagAt(words, j)
    {
      LaneInjective(i, j);
      BothFalseLanes(w, k, Lane(j));
    }
    UnpackUpdate(words, n, i, WithBothFalse(w, k), Flag(false, false));
  }

  method SetIsDelTrue(flags: array<bv32>, i: nat, ghost n: nat)
    requires n <= 16 * flags.Length && i < n
    modifies flags
    ensures Unpack(flags[..], n) == old(Unpack(flags[..], n))[i := old(FlagAt(flags[..], i)).(del := true)]
  {
    ghost var words := flags[..];
    DelTrueUnpacks(words, n, i);
    flags[i / 16] := WithDelTrue(flags[i / 16], Lane(i));
    assert flags[..] == words[i / 16 := WithDelTrue(words[i / 16], Lane(i))];
  }

  method SetIsEmptyFalse(flags: array<bv32>, i: nat, ghost n: nat)
    requires n <= 16 * flags.Length && i < n
    modifies flags
    ensures Unpack(flags[..], n) == old(Unpack(flags[..], n))[i := old(FlagAt(flags[..], i)).(empty := false)]
  {
    ghost var words := flags[..];
    EmptyFalseUnpacks(words, n, i);
    flags[i / 16] := WithEmptyFalse(flags[i / 16], Lane(i));
    assert flags[..] == words[i / 16 := WithEmptyFalse(words[i / 16], Lane(i))];
  }

  method SetIsBothFalse(flags: array<bv32>, i: nat, ghost n: nat)
    requires n <= 16 * flags.Length && i < n
    modifies flags
    ensures Unpack(flags[..], n) == old(Unpack(flags[..], n))[i := Flag(false, false)]
  {
    ghost var words := flags[..];
    BothFalseUnpacks(words, n, i);
    flags[i / 16] := WithBothFalse(flags[i / 16], Lane(i));
    assert flags[..] == words[i / 16 := WithBothFalse(words[i / 16], Lane(i))];
  }

  /** Makes every bucket empty, word by word. */
  method FillAllEmpty(flags: array<bv32>, ghost n: nat)
    requires n <= 16 * flags.Length
    modifies flags
    ensures Unpack(flags[..], n) == seq(n, _ => Flag(true, false))
  {
    for k := 0 to flags.Length
      invariant forall j :: 0 <= j < k ==> flags[j] == ALL_EMPTY
    {
      flags[k] := ALL_EMPTY;
    }
    forall j | 0 <= j < n
      ensures Unpack(flags[..], n)[j] == Flag(true, false)
    {
      AllEmptyDecodes(Lane(j));
    }
  }

  /** The top bit of a word and every bit below it. */
  function Smear(v: bv32): bv32 {
    var x2 := v | (v >> 1);
    var x3 := x2 | (x2 >> 2);
    var x4 := x3 | (x3 >> 4);
    var x5 := x4 | (x4 >> 8);
    x5 | (x5 >> 16)
  }

  /** Rounding up to a power of two by smearing the top bit. */
  function KRoundUp32(x: bv32): bv32 {
    Smear(x - 1) + 1
  }

  /** For every word from 1 to 2^31 the result is the power of two `r` with `r/2 < x <= r`; for 0 and for words above
      2^31 it wraps to 0. */
  lemma RoundedWord(x: bv32)
    ensures var r := KRoundUp32(x); 0 < x <= 0x8000_0000 ==> r & (r - 1) == 0 && r >> 1 < x <= r
    ensures x == 0 || x > 0x8000_0000 ==> KRoundUp32(x) == 0
  {
  }
}
