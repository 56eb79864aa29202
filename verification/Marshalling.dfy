/** Passing argument lists in r0-r3 and on the guest stack. */
module Marshalling {
  import opened GuestSpace
  import opened GuestArgs

  const SP: nat := 13
  const LR: nat := 14
  const PC: nat := 15
  const FRAME_POINTER: nat := 7

  // ---------- words in memory ----------

  /** Guest memory is fully readable and writable here. */
  ghost predicate FullMemory(mem: Host) {
    forall a :: 0 <= a < WORD ==> a in mem
  }

  lemma {:induction false} FromLeBound(s: seq<byte>)
    ensures FromLe(s) < Pow256(|s|)
  {
    if s != [] {
      FromLeBound(s[1..]);
    }
  }

  function ReadWord(mem: Host, a: nat): (w: Word)
    requires Allocated(mem, a, 4)
  {
    FromLeBound(HostRead(mem, a, 4));
    Pow256Values();
    FromLe(HostRead(mem, a, 4))
  }

  function WriteWord(mem: Host, a: nat, w: Word): Host
    requires Allocated(mem, a, 4)
  {
    HostWrite(mem, a, ToLe(w, 4))
  }

  lemma ReadWritten(mem: Host, a: nat, w: Word)
    requires Allocated(mem, a, 4)
    ensures Allocated(WriteWord(mem, a, w), a, 4) && ReadWord(WriteWord(mem, a, w), a) == w
  {
    Pow256Values();
    FromLeToLe(w, 4);
    assert HostRead(WriteWord(mem, a, w), a, 4) == ToLe(w, 4);
  }

  /** Bytes outside `lo..hi` are the same. */
  ghost predicate SameOutside(mem: Host, mem': Host, lo: nat, hi: nat) {
    mem'.Keys == mem.Keys && forall a :: a in mem && !(lo <= a < hi) ==> mem'[a] == mem[a]
  }

  lemma ReadOutside(mem: Host, mem': Host, lo: nat, hi: nat, a: nat)
    requires SameOutside(mem, mem', lo, hi) && Allocated(mem, a, 4) && (a + 4 <= lo || hi <= a)
    ensures Allocated(mem', a, 4) && ReadWord(mem', a) == ReadWord(mem, a)
  {
    assert HostRead(mem', a, 4) == HostRead(mem, a, 4);
  }

  // ---------- argument slots ----------

  /** Where the `k`-th argument word lives: r0-r3, then the stack from the callee's entry SP. */
  function Slot(regs: seq<Word>, mem: Host, sp: nat, k: nat): Word
    requires |regs| == 16 && (k >= 4 ==> Allocated(mem, sp + 4 * (k - 4), 4))
  {
    if k < 4 then regs[k] else ReadWord(mem, sp + 4 * (k - 4))
  }

  /** The stack has room for `n` argument words above `sp`. */
  ghost predicate Room(mem: Host, sp: nat, n: nat) {
    FullMemory(mem) && (n > 4 ==> sp + 4 * (n - 4) <= WORD)
  }

  ghost predicate HoldsWords(regs: seq<Word>, mem: Host, sp: nat, ws: seq<Word>)
    requires |regs| == 16 && Room(mem, sp, |ws|)
  {
    forall k :: 0 <= k < |ws| ==> Slot(regs, mem, sp, k) == ws[k]
  }

  /** The first four words are in r0-r3, the others on the stack from the entry SP upwards, without gaps. */
  ghost predicate Passed(entry: seq<Word>, mem: Host, ws: seq<Word>) {
    && |entry| == 16 && Room(mem, entry[SP], |ws|)
    && (forall k :: 0 <= k < |ws| && k < 4 ==> entry[k] == ws[k])
    && (forall k :: 4 <= k < |ws| ==> ReadWord(mem, entry[SP] + 4 * (k - 4)) == ws[k])
  }

  lemma HeldIsPassed(entry: seq<Word>, mem: Host, ws: seq<Word>)
    requires |entry| == 16 && Room(mem, entry[SP], |ws|) && HoldsWords(entry, mem, entry[SP], ws)
    ensures Passed(entry, mem, ws)
  {
    hide ReadWord;
    assert forall k :: 0 <= k < |ws| ==> Slot(entry, mem, entry[SP], k) == ws[k];
  }

  /** First byte above the stack slots of `n` argument words. */
  function StackEnd(sp: nat, n: nat): nat {
    if n > 4 then sp + 4 * (n - 4) else sp
  }

  /** Effect of writing one more word: earlier slots keep their words. */
  lemma SlotWritten(regs: seq<Word>, mem: Host, sp: nat, ws: seq<Word>, w: Word)
    requires |regs| == 16 && Room(mem, sp, |ws| + 1) && HoldsWords(regs, mem, sp, ws)
    ensures |ws| < 4 ==> HoldsWords(regs[|ws| := w], mem, sp, ws + [w])
    ensures |ws| >= 4 ==>
              var a := sp + 4 * (|ws| - 4);
              && Allocated(mem, a, 4) && FullMemory(WriteWord(mem, a, w))
              && HoldsWords(regs, WriteWord(mem, a, w), sp, ws + [w])
              && SameOutside(mem, WriteWord(mem, a, w), a, a + 4)
  {
    if |ws| >= 4 {
      var a := sp + 4 * (|ws| - 4);
      assert Allocated(mem, a, 4);
      var mem' := WriteWord(mem, a, w);
      assert SameOutside(mem, mem', a, a + 4);
      ReadWritten(mem, a, w);
      forall k | 4 <= k < |ws|
        ensures ReadWord(mem', sp + 4 * (k - 4)) == ws[k]
      {
        assert Slot(regs, mem, sp, k) == ws[k];
        ReadOutside(mem, mem', a, a + 4, sp + 4 * (k - 4));
      }
    }
  }

  lemma SameOutsideTrans(m0: Host, m1: Host, m2: Host, lo: nat, mid: nat, hi: nat)
    requires SameOutside(m0, m1, lo, mid) && SameOutside(m1, m2, mid, hi) && lo <= mid <= hi
    ensures SameOutside(m0, m2, lo, hi)
  {
  }

  // ---------- function addresses with a Thumb bit ----------

  predicate IsThumb(f: Word) {
    f % 2 == 1
  }

  function WithoutThumb(f: Word): Word {
    f - f % 2
  }

  /** `pc | thumb` */
  function WithThumb(pc: Word, thumb: bool): Word {
    if thumb && pc % 2 == 0 then pc + 1 else pc
  }

  /** The registers named r0-r3 and SP aside, two register files agree. */
  ghost predicate SameCallee(r: seq<Word>, r': seq<Word>) {
    |r| == |r'| == 16 && forall j :: 4 <= j < 16 && j != SP ==> r'[j] == r[j]
  }

  class Cpu {
    const regs: array<Word>
    var thumb: bool
    var mem: Host

    ghost predicate Valid()
      reads this, regs
    {
      regs.Length == 16 && FullMemory(mem)
    }

    constructor (mem: Host)
      requires FullMemory(mem)
      ensures Valid() && fresh(regs) && this.mem == mem
    {
      regs := new Word[16](_ => 0);
      thumb := false;
      this.mem := mem;
    }

    /** The loop body of `write_next_arg`. `ws` are the words written so far. */
    method WriteWordArg(w: Word, ghost ws: seq<Word>, off: nat)
      requires Valid() && off == |ws| && Room(mem, regs[SP], off + 1) && HoldsWords(regs[..], mem, regs[SP], ws)
      modifies this`mem, regs
      ensures Valid() && Room(mem, regs[SP], off + 1) && HoldsWords(regs[..], mem, regs[SP], ws + [w])
      ensures regs[SP] == old(regs[SP]) && SameCallee(old(regs[..]), regs[..])
      ensures SameOutside(old(mem), mem, StackEnd(regs[SP], off), StackEnd(regs[SP], off + 1))
    {
      hide HoldsWords, ReadWord, WriteWord;
      ghost var r := regs[..];
      SlotWritten(r, mem, regs[SP], ws, w);
      if off < 4 {
        regs[off] := w;
        assert regs[..] == r[off := w];
      } else {
        mem := WriteWord(mem, regs[SP] + 4 * (off - 4), w);
      }
    }

    /** `write_next_arg` */
    method WriteNextArg(arg: Arg, ghost ws: seq<Word>, off: nat) returns (off': nat)
      requires Valid() && off == |ws| && HoldsRoom(mem, regs[SP], ws, off + RegCount(KindOf(arg)))
      requires HoldsWords(regs[..], mem, regs[SP], ws)
      modifies this`mem, regs
      ensures Valid() && off' == off + RegCount(KindOf(arg)) && Room(mem, regs[SP], off')
      ensures HoldsWords(regs[..], mem, regs[SP], ws + ToRegs(arg))
      ensures regs[SP] == old(regs[SP]) && SameCallee(old(regs[..]), regs[..])
      ensures SameOutside(old(mem), mem, StackEnd(regs[SP], off), StackEnd(regs[SP], off'))
    {
      hide HoldsWords, KindOf;
      var fake := ToRegs(arg);
      off' := off;
      assert ws + fake[..0] == ws;
      for i := 0 to |fake|
        invariant Valid() && off' == off + i && HoldsRoom(mem, regs[SP], ws, off + |fake|)
        invariant HoldsWords(regs[..], mem, regs[SP], ws + fake[..i])
        invariant regs[SP] == old(regs[SP]) && SameCallee(old(regs[..]), regs[..])
        invariant SameOutside(old(mem), mem, StackEnd(regs[SP], off), StackEnd(regs[SP], off'))
      {
        ghost var before := mem;
        WriteWordArg(fake[i], ws + fake[..i], off');
        assert ws + fake[..i] + [fake[i]] == ws + fake[..i + 1];
        off' := off' + 1;
        SameOutsideTrans(old(mem), before, mem, StackEnd(regs[SP], off), StackEnd(regs[SP], off' - 1),
                         StackEnd(regs[SP], off'));
      }
      assert fake[..|fake|] == fake;
    }

    /** All arguments, after the words already placed (none, or the return pointer). */
    method WriteArgs(args: seq<Arg>, ghost ws: seq<Word>, off: nat)
      requires Valid() && off == |ws| && HoldsRoom(mem, regs[SP], ws, off + |Flatten(args)|)
      requires HoldsWords(regs[..], mem, regs[SP], ws)
      modifies this`mem, regs
      ensures Valid() && Room(mem, regs[SP], off + |Flatten(args)|)
      ensures HoldsWords(regs[..], mem, regs[SP], ws + Flatten(args))
      ensures regs[SP] == old(regs[SP]) && SameCallee(old(regs[..]), regs[..])
      ensures SameOutside(old(mem), mem, StackEnd(regs[SP], off), StackEnd(regs[SP], off + |Flatten(args)|))
    {
      hide HoldsWords, KindOf, RegCount, ToRegs;
      var at := off;
      assert ws + Flatten(args[..0]) == ws;
      for i := 0 to |args|
        invariant Valid() && at == off + |Flatten(args[..i])| && HoldsRoom(mem, regs[SP], ws, at)
        invariant HoldsRoom(mem, regs[SP], ws, off + |Flatten(args)|)
        invariant HoldsWords(regs[..], mem, regs[SP], ws + Flatten(args[..i]))
        invariant regs[SP] == old(regs[SP]) && SameCallee(old(regs[..]), regs[..])
        invariant SameOutside(old(mem), mem, StackEnd(regs[SP], off), StackEnd(regs[SP], at))
      {
        ghost var before, at0 := mem, at;
        FlattenStep(args, i);
        at := WriteNextArg(args[i], ws + Flatten(args[..i]), at);
        assert ws + Flatten(args[..i]) + ToRegs(args[i]) == ws + Flatten(args[..i + 1]);
        SameOutsideTrans(old(mem), before, mem, StackEnd(regs[SP], off), StackEnd(regs[SP], at0),
                         StackEnd(regs[SP], at));
      }
      assert args[..|args|] == args;
    }

    /** `read_next_arg` */
    method ReadNextArg(kind: Kind, off: nat) returns (arg: Arg, off': nat)
      requires Valid() && Room(mem, regs[SP], off + RegCount(kind))
      ensures off' == off + RegCount(kind)
      ensures arg == FromRegs(kind, Slots(regs[..], mem, regs[SP], off, off'))
    {
      hide FromRegs, RegCount, ReadWord;
      var fake: seq<Word> := [];
      off' := off;
      for i := 0 to RegCount(kind)
        invariant off' == off + i
        invariant fake == Slots(regs[..], mem, regs[SP], off, off')
      {
        var w := if off' < 4 then regs[off'] else ReadWord(mem, regs[SP] + 4 * (off' - 4));
        SlotsConcat(regs[..], mem, regs[SP], off, off', off' + 1);
        assert Slots(regs[..], mem, regs[SP], off', off' + 1)[0] == Slot(regs[..], mem, regs[SP], off') == w;
        fake := fake + [w];
        off' := off' + 1;
      }
      arg := FromRegs(kind, fake);
    }

    /** The argument list a callee finds at its entry SP. */
    method ReadArgs(kinds: seq<Kind>, off: nat) returns (args: seq<Arg>)
      requires Valid() && Room(mem, regs[SP], off + WordCount(kinds))
      ensures args == Parse(kinds, Slots(regs[..], mem, regs[SP], off, off + WordCount(kinds)))
    {
      hide FromRegs, RegCount, ReadWord, Slot;
      args := [];
      var at := off;
      for i := 0 to |kinds|
        invariant at == off + WordCount(kinds[..i]) && Room(mem, regs[SP], at)
        invariant args == Parse(kinds[..i], Slots(regs[..], mem, regs[SP], off, at))
      {
        WordCountStep(kinds, i);
        ghost var at0 := at;
        var arg;
        arg, at := ReadNextArg(kinds[i], at);
        ParseStep(kinds, i, Slots(regs[..], mem, regs[SP], off, at0), Slots(regs[..], mem, regs[SP], at0, at));
        SlotsConcat(regs[..], mem, regs[SP], off, at0, at);
        args := args + [arg];
      }
      assert kinds[..|kinds|] == kinds;
    }

    /** `extend_stack_for_args` */
    method ExtendStack(count: nat) returns (old_sp: Word)
      requires Valid() && (count > 4 ==> 4 * (count - 4) <= regs[SP])
      modifies regs
      ensures old_sp == old(regs[SP]) && StackEnd(regs[SP], count) == old_sp
      ensures forall j :: 0 <= j < 16 && j != SP ==> regs[j] == old(regs[j])
    {
      old_sp := regs[SP];
      if count > 4 {
        regs[SP] := old_sp - 4 * (count - 4);
      }
    }

    /** `Cpu::branch` */
    method Branch(f: Word)
      requires Valid()
      modifies this`thumb, regs
      ensures regs[..] == old(regs[..])[PC := WithoutThumb(f)] && thumb == IsThumb(f)
      ensures WithThumb(regs[PC], thumb) == f
    {
      regs[PC] := WithoutThumb(f);
      thumb := IsThumb(f);
    }

    /** The callee runs: it may leave any register values and any memory contents. */
    method RunCallee(regs': seq<Word>, thumb': bool, mem': Host)
      requires Valid() && |regs'| == 16 && FullMemory(mem')
      modifies this`thumb, this`mem, regs
      ensures Valid() && regs[..] == regs' && mem == mem' && thumb == thumb'
    {
      for i := 0 to 16
        invariant forall j :: 0 <= j < i ==> regs[j] == regs'[j]
      {
        regs[i] := regs'[i];
      }
      mem, thumb := mem', thumb';
    }

    /** `call_from_host` of a host function whose result comes back in registers. At its entry the callee reads back
        exactly the argument list; only stack bytes between its SP and the caller's have changed; afterwards SP is
        the caller's again, whatever the callee did. */
    method CallHostFunction(args: seq<Arg>, regs': seq<Word>, thumb': bool, mem': Host)
      returns (seen: seq<Arg>, ghost entry: seq<Word>, ghost entryMem: Host)
      requires Valid() && |regs'| == 16 && FullMemory(mem')
      requires |Flatten(args)| > 4 ==> 4 * (|Flatten(args)| - 4) <= regs[SP]
      modifies this`thumb, this`mem, regs
      ensures seen == args && Passed(entry, entryMem, Flatten(args))
      ensures SameCallee(old(regs[..]), entry) && StackEnd(entry[SP], |Flatten(args)|) == old(regs[SP])
      ensures SameOutside(old(mem), entryMem, entry[SP], old(regs[SP]))
      ensures regs[..] == regs'[SP := old(regs[SP])] && mem == mem'
    {
      hide HoldsWords, Passed, Flatten, Parse;
      var n := |Flatten(args)|;
      var oldSp := ExtendStack(n);
      NoWordsYet(regs[..], mem, regs[SP]);
      WriteArgs(args, [], 0);
      seen := CalleeReads(args, []);
      entry, entryMem := regs[..], mem;
      assert [] + Flatten(args) == Flatten(args);
      HeldIsPassed(entry, mem, Flatten(args));
      RunCallee(regs', thumb', mem');
      regs[SP] := oldSp;
    }

    /** What the callee reads when the caller wrote `ws` and then `args`. */
    method CalleeReads(args: seq<Arg>, ghost ws: seq<Word>, off: nat := 0) returns (seen: seq<Arg>)
      requires Valid() && off == |ws| && Room(mem, regs[SP], off + |Flatten(args)|)
      requires Room(mem, regs[SP], |ws + Flatten(args)|) && HoldsWords(regs[..], mem, regs[SP], ws + Flatten(args))
      ensures seen == args
    {
      hide HoldsWords, Slot, FromRegs, RegCount, KindOf, Parse;
      seen := ReadArgs(Kinds(args), off);
      SlotsHold(regs[..], mem, regs[SP], ws, Flatten(args));
      ParseFlatten(args);
    }

    /** `call_from_host` of a host function whose result of `size` bytes comes back in memory. The buffer is taken
        from the stack and its address passed as a hidden first argument. That register is not counted when the
        stack is extended, so from four argument words on the last word lands on the buffer. */
    method CallHostFunctionLarge(args: seq<Arg>, size: nat, regs': seq<Word>, thumb': bool, mem': Host)
      returns (seen: seq<Arg>, buffer: Word, ghost entry: seq<Word>, ghost entryMem: Host)
      requires Valid() && |regs'| == 16 && FullMemory(mem') && size >= 4
      requires size <= regs[SP] && StackNeed(|Flatten(args)|) <= regs[SP] - size
      modifies this`thumb, this`mem, regs
      ensures seen == args && buffer == old(regs[SP]) - size && Passed(entry, entryMem, [buffer] + Flatten(args))
      ensures SameCallee(old(regs[..]), entry) && entry[0] == buffer
      ensures |Flatten(args)| < 4 ==> entryMem == old(mem)
      ensures |Flatten(args)| >= 4 ==>
                && FullMemory(entryMem)
                && ReadWord(entryMem, buffer) == Flatten(args)[|Flatten(args)| - 1]
                && SameOutside(old(mem), entryMem, entry[SP], buffer + 4)
      ensures regs[..] == regs'[SP := old(regs[SP])] && mem == mem'
    {
      hide HoldsWords, Passed, Flatten, Parse, ReadWord;
      var n := |Flatten(args)|;
      regs[SP] := regs[SP] - size;
      buffer := regs[SP];
      NoWordsYet(regs[..], mem, regs[SP]);
      WriteWordArg(buffer, [], 0);
      assert [] + [buffer] == [buffer] + [];
      LastWord(regs[..], mem, regs[SP], buffer, []);
      var oldSp := ExtendStack(n);
      PointerStays(regs[..], mem, oldSp, regs[SP], buffer);
      WriteArgs(args, [buffer], 1);
      seen := CalleeReads(args, [buffer], 1);
      entry, entryMem := regs[..], mem;
      LastWord(regs[..], mem, regs[SP], buffer, Flatten(args));
      HeldIsPassed(entry, mem, [buffer] + Flatten(args));
      RunCallee(regs', thumb', mem');
      regs[SP] := oldSp;
      regs[SP] := regs[SP] + size;
    }

    /** `call_from_host` of a guest function: a frame with the caller's frame pointer and link register is pushed
        first. At entry the arguments are readable, the frame words are intact, nothing at or above the caller's SP
        has changed and LR leads back to the host; afterwards PC, Thumb flag, LR, SP and frame pointer are the
        caller's again. */
    method CallGuestFunction(f: Word, returnToHost: Word, args: seq<Arg>, regs': seq<Word>, thumb': bool, mem': Host)
      returns (seen: seq<Arg>, ghost entry: seq<Word>, ghost entryThumb: bool, ghost entryMem: Host)
      requires Valid() && |regs'| == 16 && FullMemory(mem')
      requires 8 + StackNeed(|Flatten(args)|) <= regs[SP]
      modifies this`thumb, this`mem, regs
      ensures seen == args && Passed(entry, entryMem, Flatten(args))
      ensures entry[LR] == returnToHost && entry[PC] == f - f % 2 && (entryThumb <==> f % 2 == 1)
      ensures entry[FRAME_POINTER] == old(regs[SP]) - 8
      ensures StackEnd(entry[SP], |Flatten(args)|) == old(regs[SP]) - 8
      ensures SameOutside(old(mem), entryMem, entry[SP], old(regs[SP])) && FullMemory(entryMem)
      ensures ReadWord(entryMem, old(regs[SP]) - 8) == old(regs[FRAME_POINTER])
      ensures ReadWord(entryMem, old(regs[SP]) - 4) == old(regs[LR])
      ensures mem == mem' && thumb == (old(thumb) || old(regs[PC]) % 2 == 1)
      ensures regs[PC] == old(regs[PC]) <==> old(regs[PC]) % 2 == 0
      ensures regs[..] == regs'[PC := old(regs[PC]) - old(regs[PC]) % 2][LR := old(regs[LR])][SP := old(regs[SP])]
                               [FRAME_POINTER := old(regs[FRAME_POINTER])]
    {
      hide HoldsWords, Passed, Flatten, Parse, ReadWord, WriteWord;
      var n := |Flatten(args)|;
      var oldPc := WithThumb(regs[PC], thumb);
      var oldLr := regs[LR];
      var oldSp, oldFp := PushFrame(f, returnToHost);
      ghost var framed := mem;
      var _ := ExtendStack(n);
      NoWordsYet(regs[..], mem, regs[SP]);
      WriteArgs(args, [], 0);
      seen := CalleeReads(args, []);
      entry, entryThumb, entryMem := regs[..], thumb, mem;
      assert [] + Flatten(args) == Flatten(args);
      HeldIsPassed(entry, mem, Flatten(args));
      ReadOutside(framed, mem, regs[SP], oldSp - 8, oldSp - 8);
      ReadOutside(framed, mem, regs[SP], oldSp - 8, oldSp - 4);
      SameOutsideJoin(old(mem), framed, mem, regs[SP], oldSp - 8, oldSp);
      RunCallee(regs', thumb', mem');
      Branch(oldPc);
      regs[LR], regs[SP], regs[FRAME_POINTER] := oldLr, oldSp, oldFp;
    }

    /** `branch_with_link` and the two frame words. */
    method PushFrame(f: Word, returnToHost: Word) returns (oldSp: Word, oldFp: Word)
      requires Valid() && 8 <= regs[SP]
      modifies this`thumb, this`mem, regs
      ensures Valid() && oldSp == old(regs[SP]) && oldFp == old(regs[FRAME_POINTER])
      ensures regs[SP] == regs[FRAME_POINTER] == oldSp - 8 && regs[LR] == returnToHost
      ensures regs[PC] == WithoutThumb(f) && thumb == IsThumb(f)
      ensures ReadWord(mem, oldSp - 8) == oldFp && ReadWord(mem, oldSp - 4) == old(regs[LR])
      ensures SameOutside(old(mem), mem, oldSp - 8, oldSp)
    {
      hide ReadWord, WriteWord;
      var oldLr := regs[LR];
      Branch(f);
      regs[LR] := returnToHost;
      oldSp, oldFp := regs[SP], regs[FRAME_POINTER];
      regs[SP] := oldSp - 8;
      regs[FRAME_POINTER] := regs[SP];
      FrameWords(mem, oldSp - 8, oldFp, oldLr);
      mem := WriteWord(mem, regs[SP], oldFp);
      mem := WriteWord(mem, regs[SP] + 4, oldLr);
    }
  }

  /** Bytes of stack needed for `n` argument words. */
  function StackNeed(n: nat): nat {
    if n > 4 then 4 * (n - 4) else 0
  }

  lemma FrameWords(mem: Host, a: nat, fp: Word, lr: Word)
    requires FullMemory(mem) && a + 8 <= WORD
    ensures Allocated(mem, a, 4)
    ensures var m1 := WriteWord(mem, a, fp);
            && Allocated(m1, a + 4, 4)
            && var m2 := WriteWord(m1, a + 4, lr);
            && FullMemory(m2) && SameOutside(mem, m2, a, a + 8)
            && ReadWord(m2, a) == fp && ReadWord(m2, a + 4) == lr
  {
    assert Allocated(mem, a, 4) && Allocated(mem, a + 4, 4);
    var m1 := WriteWord(mem, a, fp);
    assert Allocated(m1, a, 4) && Allocated(m1, a + 4, 4);
    var m2 := WriteWord(m1, a + 4, lr);
    ReadWritten(mem, a, fp);
    ReadWritten(m1, a + 4, lr);
    assert SameOutside(m1, m2, a + 4, a + 8);
    ReadOutside(m1, m2, a + 4, a + 8, a);
  }

  lemma SameOutsideJoin(m0: Host, m1: Host, m2: Host, lo: nat, mid: nat, hi: nat)
    requires SameOutside(m0, m1, mid, hi) && SameOutside(m1, m2, lo, mid) && lo <= mid <= hi
    ensures SameOutside(m0, m2, lo, hi)
  {
  }

  /** r0 keeps the hidden pointer when SP moves down. */
  lemma PointerStays(regs: seq<Word>, mem: Host, sp: nat, sp': nat, w: Word)
    requires |regs| == 16 && FullMemory(mem) && regs[0] == w
    ensures Room(mem, sp', 1) && HoldsWords(regs, mem, sp', [w])
  {
  }

  lemma LastWord(regs: seq<Word>, mem: Host, sp: nat, w: Word, ws: seq<Word>)
    requires |regs| == 16 && Room(mem, sp, |[w] + ws|) && HoldsWords(regs, mem, sp, [w] + ws)
    ensures regs[0] == w
    ensures |ws| >= 4 ==> Allocated(mem, sp + 4 * (|ws| - 4), 4)
                          && ReadWord(mem, sp + 4 * (|ws| - 4)) == ws[|ws| - 1]
  {
    assert Slot(regs, mem, sp, 0) == ([w] + ws)[0];
    if |ws| >= 4 {
      assert Slot(regs, mem, sp, |ws|) == ([w] + ws)[|ws|] == ws[|ws| - 1];
    }
  }

  lemma NoWordsYet(regs: seq<Word>, mem: Host, sp: nat)
    requires |regs| == 16 && FullMemory(mem)
    ensures Room(mem, sp, 0) && HoldsWords(regs, mem, sp, [])
  {
  }

  ghost predicate HoldsRoom(mem: Host, sp: nat, ws: seq<Word>, n: nat) {
    Room(mem, sp, |ws|) && Room(mem, sp, n)
  }

  /** Argument words `lo..hi`. */
  function Slots(regs: seq<Word>, mem: Host, sp: nat, lo: nat, hi: nat): (ws: seq<Word>)
    requires |regs| == 16 && lo <= hi && Room(mem, sp, hi)
    ensures |ws| == hi - lo
  {
    seq<Word>(hi - lo, i requires 0 <= i < hi - lo => Slot(regs, mem, sp, lo + i))
  }

  lemma SlotsConcat(regs: seq<Word>, mem: Host, sp: nat, lo: nat, mid: nat, hi: nat)
    requires |regs| == 16 && lo <= mid <= hi && Room(mem, sp, mid) && Room(mem, sp, hi)
    ensures Slots(regs, mem, sp, lo, hi) == Slots(regs, mem, sp, lo, mid) + Slots(regs, mem, sp, mid, hi)
  {
  }

  lemma SlotsHold(regs: seq<Word>, mem: Host, sp: nat, ws: seq<Word>, vs: seq<Word>)
    requires |regs| == 16 && Room(mem, sp, |ws + vs|) && HoldsWords(regs, mem, sp, ws + vs)
    ensures Slots(regs, mem, sp, |ws|, |ws| + |vs|) == vs
  {
    hide Slot;
    forall i | 0 <= i < |vs|
      ensures Slots(regs, mem, sp, |ws|, |ws| + |vs|)[i] == vs[i]
    {
      assert (ws + vs)[|ws| + i] == vs[i];
    }
  }

  lemma FlattenStep(args: seq<Arg>, i: nat)
    requires i < |args|
    ensures Flatten(args[..i + 1]) == Flatten(args[..i]) + ToRegs(args[i])
    ensures |Flatten(args[..i])| + RegCount(KindOf(args[i])) <= |Flatten(args)|
  {
    assert args[..i + 1][..i] == args[..i];
    FlattenPrefix(args, i + 1);
  }

  lemma {:induction false} FlattenPrefix(args: seq<Arg>, i: nat)
    requires i <= |args|
    ensures |Flatten(args[..i])| <= |Flatten(args)|
    decreases |args| - i
  {
    if i == |args| {
      assert args[..i] == args;
    } else {
      assert args[..i + 1][..i] == args[..i];
      FlattenPrefix(args, i + 1);
    }
  }

  lemma WordCountStep(ks: seq<Kind>, i: nat)
    requires i < |ks|
    ensures WordCount(ks[..i + 1]) == WordCount(ks[..i]) + RegCount(ks[i]) <= WordCount(ks)
  {
    assert ks[..i + 1][..i] == ks[..i];
    WordCountPrefix(ks, i + 1);
  }

  lemma {:induction false} WordCountPrefix(ks: seq<Kind>, i: nat)
    requires i <= |ks|
    ensures WordCount(ks[..i]) <= WordCount(ks)
    decreases |ks| - i
  {
    if i == |ks| {
      assert ks[..i] == ks;
    } else {
      assert ks[..i + 1][..i] == ks[..i];
      WordCountPrefix(ks, i + 1);
    }
  }

  lemma ParseStep(ks: seq<Kind>, i: nat, ws: seq<Word>, vs: seq<Word>)
    requires i < |ks| && |ws| == WordCount(ks[..i]) && |vs| == RegCount(ks[i])
    ensures |ws + vs| == WordCount(ks[..i + 1])
    ensures Parse(ks[..i + 1], ws + vs) == Parse(ks[..i], ws) + [FromRegs(ks[i], vs)]
  {
    assert ks[..i + 1][..i] == ks[..i];
    assert (ws + vs)[..|ws|] == ws && (ws + vs)[|ws|..] == vs;
  }
}
