/** Rounding a requested capacity up to a power of two: on numbers, and by the bit-smearing macro on words. */
module Rounding {
  import opened Probing
  import opened FlagWords

  /** The power of two that `kroundup32` yields (for 0, where the macro yields 0, both end up at 4 in `Resize`). */
  function RoundUp(x: nat): (r: nat)
    ensures IsPow2(r) && x <= r
    ensures r == 1 || r < 2 * x
    decreases x
  {
    if x <= 1 then 1 else
      var half := RoundUp((x + 1) / 2);
      assert 2 * half / 2 == half;
      2 * half
  }

  lemma {:induction false} Pow2Gap(a: nat, b: nat)
    requires IsPow2(a) && IsPow2(b) && a < b
    ensures 2 * a <= b
    decreases a
  {
    if a > 1 {
      Pow2Gap(a / 2, b / 2);
    }
  }

  lemma RoundUpUnique(x: nat, n: nat)
    requires IsPow2(n) && n >= 2 && n / 2 < x <= n
    ensures RoundUp(x) == n
  {
    var r := RoundUp(x);
    if r < n {
      Pow2Gap(r, n);
    } else if n < r {
      Pow2Gap(n, r);
    }
  }

  // ---------- the rounding macro on words ----------

  predicate Odd(w: bv32) {
    w & 1 == 1
  }

  function Half(w: bv32): bv32 {
    w >> 1
  }

  function Twice(w: bv32): bv32 {
    w << 1
  }

  function Next(w: bv32): bv32 {
    w + 1
  }

  /** The top bit is clear. */
  predicate Small(w: bv32) {
    w & 0x8000_0000 == 0
  }

  /** The number a word stands for. */
  function Value(w: bv32): nat
    decreases w
  {
    if w == 0 then 0 else 2 * Value(Half(w)) + if Odd(w) then 1 else 0
  }

  lemma ValueStep(w: bv32)
    ensures Value(w) == 2 * Value(Half(w)) + if Odd(w) then 1 else 0
  {
    assert Half(0) == 0 && !Odd(0);
  }

  lemma HalfBits(w: bv32)
    requires w != 0
    ensures Half(w) < w && (Half(w) == 0 ==> Odd(w))
  {
  }

  lemma {:induction false} ValuePositive(w: bv32)
    requires w != 0
    ensures Value(w) > 0
    decreases w
  {
    HalfBits(w);
    ValueStep(w);
    hide Value, Half, Odd;
    if Half(w) != 0 {
      ValuePositive(Half(w));
    }
  }

  lemma EvenNext(v: bv32)
    requires !Odd(v)
    ensures Half(Next(v)) == Half(v) && Odd(Next(v))
  {
  }

  lemma OddNext(v: bv32)
    requires Odd(v) && v != 0xffff_ffff
    ensures Half(Next(v)) == Next(Half(v)) && !Odd(Next(v)) && Half(v) != 0xffff_ffff
  {
  }

  lemma OddNotZero(v: bv32)
    requires Odd(v)
    ensures v != 0
  {
  }

  lemma {:induction false} ValueNext(v: bv32)
    requires v != 0xffff_ffff
    ensures Value(Next(v)) == Value(v) + 1
    decreases v
  {
    hide Value, Odd, Half, Next;
    ValueStep(v);
    ValueStep(Next(v));
    if Odd(v) {
      OddNext(v);
      OddNotZero(v);
      HalfBits(v);
      ValueNext(Half(v));
    } else {
      EvenNext(v);
    }
  }

  lemma TwiceBits(w: bv32)
    requires Small(w)
    ensures Half(Twice(w)) == w && !Odd(Twice(w))
  {
  }

  lemma SmearStep(v: bv32)
    requires v != 0
    ensures Smear(v) == (Smear(v >> 1) << 1) | 1
  {
  }

  lemma SmearTop(v: bv32)
    requires Small(v)
    ensures Smear(v >> 1) & 0xC000_0000 == 0
  {
  }

  lemma NextOfOdd(s: bv32)
    requires s & 0xC000_0000 == 0
    ensures ((s << 1) | 1) + 1 == (s + 1) << 1 && (s + 1) & 0x8000_0000 == 0
  {
  }

  /** Smearing a word is smearing its half and doubling. */
  lemma SmearHalf(v: bv32)
    requires v != 0 && Small(v)
    ensures Next(Smear(v)) == Twice(Next(Smear(Half(v)))) && Small(Next(Smear(Half(v))))
  {
    SmearStep(v);
    SmearTop(v);
    hide Smear;
    NextOfOdd(Smear(v >> 1));
  }

  lemma SmallHalf(v: bv32)
    ensures Small(Half(v))
  {
  }

  lemma SmearZero()
    ensures Value(Next(Smear(0))) == 1 == RoundUp(1) && Value(0) == 0
  {
    assert Next(Smear(0)) == 1;
    assert Half(1) == 0 && Odd(1);
  }

  lemma {:induction false} SmearRoundsUp(v: bv32)
    requires Small(v)
    ensures Value(Next(Smear(v))) == RoundUp(Value(v) + 1)
    decreases v
  {
    hide Value, Odd, Smear, RoundUp, Half, Next, Twice, Small;
    if v == 0 {
      SmearZero();
    } else {
      HalfBits(v);
      SmallHalf(v);
      SmearHalf(v);
      SmearRoundsUp(Half(v));
      TwiceBits(Next(Smear(Half(v))));
      ValueStep(Next(Smear(v)));
      ValueStep(v);
      ValuePositive(v);
      RoundUpStep(Value(v), Value(Half(v)));
    }
  }

  lemma RoundUpStep(n: nat, half: nat)
    requires n > 0 && half == n / 2
    ensures RoundUp(n + 1) == 2 * RoundUp(half + 1)
  {
    assert (n + 1 + 1) / 2 == half + 1;
  }

  lemma BeforeBits(x: bv32)
    requires 0 < x <= 0x8000_0000
    ensures Small(x - 1) && x - 1 != 0xffff_ffff && Next(x - 1) == x
  {
  }

  lemma MacroOf(x: bv32)
    ensures KRoundUp32(x) == Next(Smear(x - 1))
  {
    hide Smear;
  }

  /** On every word from 1 to 2^31 the macro computes the capacity that `Resize` rounds up to. */
  lemma MacroRoundsUp(x: bv32)
    requires 0 < x <= 0x8000_0000
    ensures Value(KRoundUp32(x)) == RoundUp(Value(x))
  {
    hide Value, Smear, RoundUp, KRoundUp32, Next, Small;
    BeforeBits(x);
    MacroOf(x);
    SmearRoundsUp(x - 1);
    ValueNext(x - 1);
  }
}
