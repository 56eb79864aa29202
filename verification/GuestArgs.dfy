/** Conversion of single arguments to and from 32-bit words. */
module GuestArgs {
  import opened GuestSpace
  import opened Arithmetic

  const WORD: nat := 0x1_0000_0000

  type Word = w: nat | w < 0x1_0000_0000
  type U64 = v: nat | v < 0x1_0000_0000_0000_0000
  type I64 = v: int | -0x8000_0000_0000_0000 <= v < 0x8000_0000_0000_0000
  type I32 = v: int | -0x8000_0000 <= v < 0x8000_0000
  type U16 = v: nat | v < 0x1_0000
  type I16 = v: int | -0x8000 <= v < 0x8000
  type U8 = v: nat | v < 0x100
  type I8 = v: int | -0x80 <= v < 0x80

  datatype Kind = KU32 | KI32 | KU16 | KI16 | KU8 | KI8 | KBool | KF32 | KPtr | KFunction | KU64 | KI64 | KF64

  /** Floating-point values are carried as their bit patterns, pointers and functions as addresses. */
  datatype Arg =
    | ArgU32(u32: Word) | ArgI32(i32: I32) | ArgU16(u16: U16) | ArgI16(i16: I16) | ArgU8(u8: U8) | ArgI8(i8: I8)
    | ArgBool(flag: bool) | ArgF32(f32: Word) | ArgPtr(ptr: Word) | ArgFunction(func: Word)
    | ArgU64(u64: U64) | ArgI64(i64: I64) | ArgF64(f64: U64)

  function KindOf(a: Arg): Kind {
    match a
    case ArgU32(_) => KU32
    case ArgI32(_) => KI32
    case ArgU16(_) => KU16
    case ArgI16(_) => KI16
    case ArgU8(_) => KU8
    case ArgI8(_) => KI8
    case ArgBool(_) => KBool
    case ArgF32(_) => KF32
    case ArgPtr(_) => KPtr
    case ArgFunction(_) => KFunction
    case ArgU64(_) => KU64
    case ArgI64(_) => KI64
    case ArgF64(_) => KF64
  }

  /** `GuestArg::REG_COUNT` */
  function RegCount(k: Kind): nat {
    match k
    case KU64 => 2
    case KI64 => 2
    case KF64 => 2
    case _ => 1
  }

  /** `x as u32` and `x as u64`: two's complement. */
  function Wrap(x: int, m: int): (r: nat)
    requires m > 0 && -m <= x < m
    ensures r < m
  {
    if x < 0 then x + m else x
  }

  /** `x as iN`: the low bits, read as a signed number below `m / 2`. */
  function Signed(x: nat, m: nat): int
    requires m > 0
  {
    if x % m < m / 2 then x % m else x % m - m
  }

  function Split(v: U64): (s: seq<Word>)
    ensures |s| == 2
  {
    [v % 0x1_0000_0000, v / 0x1_0000_0000]
  }

  function Combine(lo: Word, hi: Word): U64 {
    lo + 0x1_0000_0000 * hi
  }

  /** `GuestArg::to_regs` */
  function ToRegs(a: Arg): (s: seq<Word>)
    ensures |s| == RegCount(KindOf(a))
  {
    match a
    case ArgU32(v) => [v]
    case ArgI32(v) => [Wrap(v, WORD)]
    case ArgU16(v) => [v]
    case ArgI16(v) => [Wrap(v, WORD)]
    case ArgU8(v) => [v]
    case ArgI8(v) => [Wrap(v, WORD)]
    case ArgBool(b) => [if b then 1 else 0]
    case ArgF32(v) => [v]
    case ArgPtr(v) => [v]
    case ArgFunction(v) => [v]
    case ArgU64(v) => Split(v)
    case ArgI64(v) => Split(Wrap(v, 0x1_0000_0000_0000_0000))
    case ArgF64(v) => Split(v)
  }

  /** `GuestArg::from_regs`, for whatever the registers hold. */
  function FromRegs(k: Kind, regs: seq<Word>): (a: Arg)
    requires |regs| == RegCount(k)
    ensures KindOf(a) == k
  {
    match k
    case KU32 => ArgU32(regs[0])
    case KI32 => ArgI32(Signed(regs[0], WORD))
    case KU16 => ArgU16(regs[0] % 0x1_0000)
    case KI16 => ArgI16(Signed(regs[0], 0x1_0000))
    case KU8 => ArgU8(regs[0] % 0x100)
    case KI8 => ArgI8(Signed(regs[0], 0x100))
    case KBool => ArgBool(regs[0] != 0)
    case KF32 => ArgF32(regs[0])
    case KPtr => ArgPtr(regs[0])
    case KFunction => ArgFunction(regs[0])
    case KU64 => ArgU64(Combine(regs[0], regs[1]))
    case KI64 => ArgI64(Signed(Combine(regs[0], regs[1]), 0x1_0000_0000_0000_0000))
    case KF64 => ArgF64(Combine(regs[0], regs[1]))
  }

  lemma SignedWrap(x: int, m: nat)
    requires m in {0x100, 0x1_0000, 0x1_0000_0000} && -(m as int) <= 2 * x < m
    ensures Signed(Wrap(x, WORD), m) == x
  {
    assert x >= 0 ==> x % m == x;
    assert x < 0 ==> (x + WORD) % m == x + m;
  }

  lemma SignedWrap64(x: I64)
    ensures Signed(Wrap(x, 0x1_0000_0000_0000_0000), 0x1_0000_0000_0000_0000) == x
  {
  }

  lemma CombineSplit(v: U64)
    ensures Combine(Split(v)[0], Split(v)[1]) == v
  {
  }

  /** Every argument survives the trip through registers, sign extension and truncation included. */
  lemma ArgRoundTrip(a: Arg)
    ensures FromRegs(KindOf(a), ToRegs(a)) == a
  {
    hide Signed, Wrap, Split, Combine;
    match a {
      case ArgI32(v) => SignedWrap(v, WORD);
      case ArgI16(v) => SignedWrap(v, 0x1_0000);
      case ArgI8(v) => SignedWrap(v, 0x100);
      case ArgU64(v) => CombineSplit(v);
      case ArgF64(v) => CombineSplit(v);
      case ArgI64(v) =>
        CombineSplit(Wrap(v, 0x1_0000_0000_0000_0000));
        SignedWrap64(v);
      case _ =>
    }
  }

  // ---------- little-endian words ----------

  /** The number whose bytes an argument is passed as: the value itself, modulo 2^32 or 2^64 for signed types. */
  function Bits(a: Arg): nat {
    match a
    case ArgU32(v) => v
    case ArgI32(v) => v % 0x1_0000_0000
    case ArgU16(v) => v
    case ArgI16(v) => v % 0x1_0000_0000
    case ArgU8(v) => v
    case ArgI8(v) => v % 0x1_0000_0000
    case ArgBool(b) => if b then 1 else 0
    case ArgF32(v) => v
    case ArgPtr(v) => v
    case ArgFunction(v) => v
    case ArgU64(v) => v
    case ArgI64(v) => v % 0x1_0000_0000_0000_0000
    case ArgF64(v) => v
  }

  /** The bytes of a row of words, each least significant byte first. */
  function WordBytes(ws: seq<Word>): seq<byte> {
    if ws == [] then [] else WordBytes(ws[..|ws| - 1]) + ToLe(ws[|ws| - 1], 4)
  }

  lemma WordBytesOne(w: Word)
    ensures WordBytes([w]) == ToLe(w, 4)
  {
    assert [w][..0] == [];
    assert [] + ToLe(w, 4) == ToLe(w, 4);
  }

  lemma WordBytesTwo(lo: Word, hi: Word)
    ensures WordBytes([lo, hi]) == ToLe(lo, 4) + ToLe(hi, 4)
  {
    WordBytesOne(lo);
    assert [lo, hi][..1] == [lo];
  }

  lemma SplitBytes(v: U64)
    ensures WordBytes(Split(v)) == ToLe(v, 8)
  {
    var lo, hi := v % 0x1_0000_0000, v / 0x1_0000_0000;
    assert Split(v) == [lo, hi];
    WordBytesTwo(lo, hi);
    Pow256Values();
    ToLeTruncates(v, 4, 4);
    Shifts(v);
    ToLeConcat(v, 4, 4);
  }

  lemma WrapIsModulo(x: int, m: int)
    requires m > 0 && -m <= x < m
    ensures Wrap(x, m) == x % m
  {
    if x < 0 {
      DivModUnique(x, m, -1, x + m);
    } else {
      DivModUnique(x, m, 0, x);
    }
  }

  /** The words of an argument, in the order in which they are passed, are its bytes least significant first. */
  lemma ArgBytes(a: Arg)
    ensures WordBytes(ToRegs(a)) == ToLe(Bits(a), 4 * RegCount(KindOf(a)))
  {
    hide WordBytes, ToLe, Split, Wrap;
    match a {
      case ArgI32(v) => WrapIsModulo(v, WORD);
      case ArgI16(v) => WrapIsModulo(v, WORD);
      case ArgI8(v) => WrapIsModulo(v, WORD);
      case ArgU64(v) => SplitBytes(v);
      case ArgF64(v) => SplitBytes(v);
      case ArgI64(v) =>
        WrapIsModulo(v, 0x1_0000_0000_0000_0000);
        SplitBytes(Wrap(v, 0x1_0000_0000_0000_0000));
      case _ =>
    }
    if RegCount(KindOf(a)) == 1 {
      WordBytesOne(ToRegs(a)[0]);
      assert ToRegs(a) == [ToRegs(a)[0]];
    }
  }

  /** What a callee makes of any words: the little-endian number they hold, cut to the type's size, with the sign that
      fits the type's range. */
  lemma WordsMean(k: Kind, regs: seq<Word>)
    requires |regs| == RegCount(k)
    ensures var n, a := FromLe(WordBytes(regs)), FromRegs(k, regs);
            match k
            case KU32 => a.u32 == n
            case KI32 => (a.i32 - n) % 0x1_0000_0000 == 0
            case KU16 => (a.u16 - n) % 0x1_0000 == 0
            case KI16 => (a.i16 - n) % 0x1_0000 == 0
            case KU8 => (a.u8 - n) % 0x100 == 0
            case KI8 => (a.i8 - n) % 0x100 == 0
            case KBool => a.flag <==> n != 0
            case KF32 => a.f32 == n
            case KPtr => a.ptr == n
            case KFunction => a.func == n
            case KU64 => a.u64 == n
            case KI64 => (a.i64 - n) % 0x1_0000_0000_0000_0000 == 0
            case KF64 => a.f64 == n
  {
    hide WordBytes, FromLe, Signed, Combine;
    if |regs| == 1 {
      assert regs == [regs[0]];
      OneWordMeans(regs[0]);
    } else {
      assert regs == [regs[0], regs[1]];
      TwoWordsMean(regs[0], regs[1]);
    }
    match k {
      case KI32 => SignedFits(regs[0], WORD);
      case KU16 => CutFits(regs[0], 0x1_0000);
      case KI16 => SignedFits(regs[0], 0x1_0000);
      case KU8 => CutFits(regs[0], 0x100);
      case KI8 => SignedFits(regs[0], 0x100);
      case KI64 => SignedFits(Combine(regs[0], regs[1]), 0x1_0000_0000_0000_0000);
      case _ =>
    }
  }

  lemma OneWordMeans(w: Word)
    ensures FromLe(WordBytes([w])) == w
  {
    hide WordBytes;
    WordBytesOne(w);
    Pow256Values();
    FromLeToLe(w, 4);
  }

  lemma TwoWordsMean(lo: Word, hi: Word)
    ensures FromLe(WordBytes([lo, hi])) == Combine(lo, hi)
  {
    hide WordBytes;
    WordBytesTwo(lo, hi);
    Pow256Values();
    FromLeToLe(lo, 4);
    FromLeToLe(hi, 4);
    FromLeConcat(ToLe(lo, 4), ToLe(hi, 4));
  }

  lemma CutFits(x: nat, m: nat)
    requires m > 0
    ensures (x % m - x) % m == 0
  {
    DivModUnique(x % m - x, m, -(x / m), 0);
  }

  lemma SignedFits(x: nat, m: nat)
    requires m > 0
    ensures (Signed(x, m) - x) % m == 0
  {
    var q := if x % m < m / 2 then -(x / m) else -(x / m) - 1;
    assert m * (-(x / m) - 1) == -(m * (x / m)) - m;
    DivModUnique(Signed(x, m) - x, m, q, 0);
  }

  // ---------- argument lists ----------

  function Kinds(args: seq<Arg>): (ks: seq<Kind>)
    ensures |ks| == |args|
  {
    seq(|args|, i requires 0 <= i < |args| => KindOf(args[i]))
  }

  /** Words taken by arguments of the given kinds. */
  function WordCount(ks: seq<Kind>): nat {
    if ks == [] then 0 else WordCount(ks[..|ks| - 1]) + RegCount(ks[|ks| - 1])
  }

  /** The words of an argument list, in order; arguments are not aligned to even positions. */
  function Flatten(args: seq<Arg>): (ws: seq<Word>)
    ensures |ws| == WordCount(Kinds(args))
  {
    if args == [] then [] else
      var n := |args| - 1;
      assert Kinds(args)[..n] == Kinds(args[..n]);
      Flatten(args[..n]) + ToRegs(args[n])
  }

  /** The arguments a callee of these kinds finds in a row of words. */
  function Parse(ks: seq<Kind>, ws: seq<Word>): (args: seq<Arg>)
    requires |ws| == WordCount(ks)
    ensures |args| == |ks|
  {
    if ks == [] then [] else
      var n := |ks| - 1;
      var m := WordCount(ks[..n]);
      Parse(ks[..n], ws[..m]) + [FromRegs(ks[n], ws[m..])]
  }

  /** Word `j` of argument `i` comes after the words of the arguments before it. */
  lemma {:induction false} ArgumentAt(args: seq<Arg>, i: nat, j: nat, k: nat)
    requires i < |args| && j < RegCount(KindOf(args[i])) && k == WordCount(Kinds(args[..i])) + j
    ensures k < |Flatten(args)| && Flatten(args)[k] == ToRegs(args[i])[j]
    decreases |args|
  {
    hide ToRegs, RegCount, KindOf;
    var n := |args| - 1;
    assert Flatten(args) == Flatten(args[..n]) + ToRegs(args[n]);
    if i < n {
      assert args[..n][..i] == args[..i];
      ArgumentAt(args[..n], i, j, k);
    }
  }

  lemma {:induction false} ParseFlatten(args: seq<Arg>)
    ensures Parse(Kinds(args), Flatten(args)) == args
  {
    hide FromRegs, ToRegs, KindOf, RegCount;
    if args != [] {
      var n := |args| - 1;
      var ks, ws := Kinds(args), Flatten(args);
      assert ks[..n] == Kinds(args[..n]);
      ParseFlatten(args[..n]);
      assert ws[..|Flatten(args[..n])|] == Flatten(args[..n]);
      assert ws[|Flatten(args[..n])|..] == ToRegs(args[n]);
      ArgRoundTrip(args[n]);
    }
  }
}
