/** Whole runs of mapping calls. */
module GuestMemoryRuns {
  import opened GuestSpace
  import opened PageTables
  import opened GuestMemory
  import opened KHashTable

  /** A call, together with the host's answer to it. */
  datatype Op =
    | Map(request: nat, size: nat, prot: bv32, fixed: bool, isFile: bool, off: nat, mask: nat,
          addr: nat, delta: nat, region: seq<byte>)
    | DirectMap(request: nat, size: nat, perms: bv32, fixed: bool, src: nat)
    | Unmap(address: nat, size: nat)

  /** What a call returns to the guest. */
  datatype Answer = Mapping(result: MapResult) | Unmapping(ret: int)

  /** The host answers with memory of the right size that the process does not own yet, or not at all. */
  predicate Answered(op: Op, host: Host) {
    op.Map? ==>
      && (op.mask + 1) % PAGE_SIZE == 0
      && (op.region == [] || (|op.region| == op.size + op.delta && op.addr != 0
                              && RunOf(op.addr, |op.region|) !! host.Keys))
  }

  /** Calls after which the two tables may disagree: the range does not fit below 2^32, or the host refused memory for
      a fixed range. */
  predicate Breaks(op: Op, a: Answer) {
    a.Mapping? && (a.result == Overflow || (a.result == HostFailed && op.Map? && op.fixed))
  }

  // ---------- what a call does to the page map ----------

  ghost predicate Refusal(request: nat, size: nat, fixed: bool, mask: nat, r: MapResult, p: PageMap, p': PageMap) {
    (r == BadArgument || r == Refused) && r == Precheck(request, size, fixed, mask) && p' == p
  }

  ghost predicate Placed(request: nat, size: nat, fixed: bool, mask: nat, host: nat, perms: bv32, r: MapResult,
                         p: PageMap, p': PageMap)
  {
    && r.MappedAt? && Precheck(request, size, fixed, mask) == Ready && r.address + size < GUEST_LIMIT
    && Found(p, RequestStart(request, mask), size, fixed, mask, r.address)
    && p' == Assigned(p, r.address, r.address + size, host, perms)
  }

  /** The range stays reserved without memory: the host has none, or it does not fit below 2^32. */
  ghost predicate LeftReserved(request: nat, size: nat, fixed: bool, mask: nat, r: MapResult, p: PageMap, p': PageMap) {
    && (r == HostFailed || r == Overflow) && Precheck(request, size, fixed, mask) == Ready
    && exists address :: ReservedAt(request, size, fixed, mask, r, p, p', address)
  }

  ghost predicate ReservedAt(request: nat, size: nat, fixed: bool, mask: nat, r: MapResult, p: PageMap, p': PageMap,
                             address: nat)
  {
    && Found(p, RequestStart(request, mask), size, fixed, mask, address)
    && p' == Reserved(p, address, address + size)
    && (r == Overflow ==> address + size >= GUEST_LIMIT)
  }

  ghost predicate UnmappedTo(address: nat, size: nat, ret: int, p: PageMap, p': PageMap, stop: nat) {
    && address <= stop <= address + size && Aligned(stop)
    && p' == Removed(p, address, stop) && PagesIn(address, stop) <= p.Keys
    && (ret == 0 <==> stop == address + size) && (ret != 0 ==> stop !in p)
  }

  ghost predicate Effect(op: Op, a: Answer, p: PageMap, p': PageMap) {
    match op
    case Map(request, size, prot, fixed, isFile, off, mask, addr, delta, region) =>
      && a.Mapping?
      && (|| Refusal(request, size, fixed, mask, a.result, p, p')
          || (region != [] && Placed(request, size, fixed, mask, addr + delta, StoredPerms(prot, isFile, size, off),
                                     a.result, p, p'))
          || ((a.result == HostFailed <==> region == []) && LeftReserved(request, size, fixed, mask, a.result, p, p')))
    case DirectMap(request, size, perms, fixed, src) =>
      && a.Mapping?
      && (|| Refusal(request, size, fixed, PAGE_MASK, a.result, p, p')
          || Placed(request, size, fixed, PAGE_MASK, src, perms, a.result, p, p')
          || (a.result == Overflow && LeftReserved(request, size, fixed, PAGE_MASK, a.result, p, p')))
    case Unmap(address, size) =>
      && a.Unmapping? && (a.ret == 0 || a.ret == -1)
      && if !Aligned(address) || size == 0 || size % PAGE_SIZE != 0 then a.ret == -1 && p' == p
         else exists stop :: UnmappedTo(address, size, a.ret, p, p', stop)
  }

  // ---------- calls ----------

  method DoMap(space: AddressSpace, op: Op) returns (r: MapResult)
    requires space.Valid() && op.Map? && Answered(op, space.host)
    modifies space`host, space.memory, space.memory.flags, space.memory.keys, space.memory.vals, space.pageTable
    ensures space.Sound() && fresh(space.memory.Parts() - old(space.memory.Parts()))
    ensures Effect(op, Mapping(r), old(space.Pages()), space.Pages())
    ensures !Breaks(op, Mapping(r)) ==> space.Valid() && (old(space.Backed()) ==> space.Backed())
  {
    hide Good, Found, Coherent, Assigned, Reserved, PagesOk, Hosted, Unaliased, WithRegion, RequestStart, StoredPerms,
      Precheck;
    ghost var p := space.Pages();
    r := space.Mmap(op.request, op.size, op.prot, op.fixed, op.isFile, op.off, op.mask, op.addr, op.delta, op.region);
    ghost var p' := space.Pages();
    if r == HostFailed {
      ghost var address :| FailedMap(old(space.Table()), p, p', op.request, op.size, op.fixed, op.mask, address,
                                     Coherent(space.Table(), p'));
      assert ReservedAt(op.request, op.size, op.fixed, op.mask, r, p, p', address);
    } else if r == Overflow {
      ghost var address :| DoesNotFit(p, p', op.request, op.size, op.fixed, op.mask, address);
      assert ReservedAt(op.request, op.size, op.fixed, op.mask, r, p, p', address);
    }
  }

  method DoDirectMap(space: AddressSpace, op: Op) returns (r: MapResult)
    requires space.Valid() && op.DirectMap?
    modifies space.memory, space.memory.flags, space.memory.keys, space.memory.vals, space.pageTable
    ensures space.Sound() && fresh(space.memory.Parts() - old(space.memory.Parts()))
    ensures Effect(op, Mapping(r), old(space.Pages()), space.Pages())
    ensures !Breaks(op, Mapping(r)) ==> space.Valid()
  {
    hide Good, Found, Coherent, Assigned, Reserved, PagesOk, RequestStart, Precheck;
    ghost var p := space.Pages();
    r := space.DirectMmap(op.request, op.size, op.perms, op.fixed, op.src);
    if r == Overflow {
      ghost var address :| DoesNotFit(p, space.Pages(), op.request, op.size, op.fixed, PAGE_MASK, address);
      assert ReservedAt(op.request, op.size, op.fixed, PAGE_MASK, r, p, space.Pages(), address);
    }
  }

  /** One call: its effect on the page map, and what it keeps. */
  method Step(space: AddressSpace, op: Op) returns (a: Answer)
    requires space.Valid() && Answered(op, space.host)
    modifies space`host, space.memory, space.memory.flags, space.memory.keys, space.memory.vals, space.pageTable
    ensures space.Sound() && fresh(space.memory.Parts() - old(space.memory.Parts()))
    ensures Effect(op, a, old(space.Pages()), space.Pages())
    ensures !Breaks(op, a) ==> space.Valid() && (old(space.Backed()) && !op.DirectMap? ==> space.Backed())
  {
    hide Good, Coherent, PagesOk, Hosted, Unaliased, Removed, PagesIn, Refusal, Placed, LeftReserved, StoredPerms;
    match op {
      case Map(_, _, _, _, _, _, _, _, _, _) =>
        var r := DoMap(space, op);
        a := Mapping(r);
      case DirectMap(_, _, _, _, _) =>
        var r := DoDirectMap(space, op);
        a := Mapping(r);
      case Unmap(address, size) =>
        ghost var p := space.Pages();
        var ret;
        ghost var stop;
        ret, stop := space.Munmap(address, size);
        a := Unmapping(ret);
        assert Aligned(address) && size != 0 && size % PAGE_SIZE == 0 ==>
                 UnmappedTo(address, size, ret, p, space.Pages(), stop);
    }
  }

  /** The page maps `trace` follow from one another by the calls and their answers. */
  ghost predicate Follows(ops: seq<Op>, answers: seq<Answer>, trace: seq<PageMap>) {
    && |trace| == |answers| + 1 <= |ops| + 1
    && forall i :: 0 <= i < |answers| ==> Effect(ops[i], answers[i], trace[i], trace[i + 1])
  }

  lemma FollowsStep(ops: seq<Op>, answers: seq<Answer>, trace: seq<PageMap>, a: Answer, p: PageMap)
    requires Follows(ops, answers, trace) && |answers| < |ops| && Effect(ops[|answers|], a, trace[|answers|], p)
    ensures Follows(ops, answers + [a], trace + [p])
  {
    hide Effect;
  }

  /** A run of map, direct map and unmap calls. The page map goes through the effects of the calls in order. The run
      ends early exactly at a call that breaks the tables' agreement, or at a host answer that is none. Otherwise the
      translation read through the flat page table is the hash table's for every address, nothing is mapped in the low
      region, and without direct maps every page keeps its own host memory. */
  method Run(space: AddressSpace, ops: seq<Op>, vaddr: nat)
    returns (answers: seq<Answer>, page: nat, ghost trace: seq<PageMap>)
    requires space.Valid()
    modifies space`host, space.memory, space.memory.flags, space.memory.keys, space.memory.vals, space.pageTable
    ensures Follows(ops, answers, trace)
    ensures trace[0] == old(space.Pages()) && trace[|answers|] == space.Pages()
    ensures forall i :: 0 <= i < |answers| && Breaks(ops[i], answers[i]) ==> i == |answers| - 1
    ensures |answers| < |ops| ==>
              || !Answered(ops[|answers|], space.host)
              || (answers != [] && Breaks(ops[|answers| - 1], answers[|answers| - 1]))
    ensures (answers == [] || !Breaks(ops[|answers| - 1], answers[|answers| - 1])) ==>
              && space.Valid() && page == Backing(space.Pages(), PageBase(vaddr))
              && (forall b :: b in space.Pages() ==> b >= 0x1000_0000)
              && (old(space.Backed()) && (forall i :: 0 <= i < |answers| ==> !ops[i].DirectMap?) ==> space.Backed())
  {
    hide Good, Coherent, Effect, Follows, Hosted, Unaliased, Answered;
    answers, trace := [], [space.Pages()];
    FollowsStart(ops, space.Pages());
    var i := 0;
    while i < |ops|
      invariant i == |answers| <= |ops| && |trace| == i + 1
      invariant space.Valid() && fresh(space.memory.Parts() - old(space.memory.Parts()))
      invariant Follows(ops, answers, trace) && trace[0] == old(space.Pages()) && trace[i] == space.Pages()
      invariant forall k :: 0 <= k < |answers| ==> !Breaks(ops[k], answers[k])
      invariant old(space.Backed()) && (forall k :: 0 <= k < |answers| ==> !ops[k].DirectMap?) ==> space.Backed()
    {
      if !Answered(ops[i], space.host) {
        break;
      }
      var a := Step(space, ops[i]);
      FollowsStep(ops, answers, trace, a, space.Pages());
      answers, trace := answers + [a], trace + [space.Pages()];
      if Breaks(ops[i], a) {
        return answers, 0, trace;
      }
      i := i + 1;
    }
    page := space.GetMemoryPage(vaddr);
  }

  lemma FollowsStart(ops: seq<Op>, p: PageMap)
    ensures Follows(ops, [], [p])
  {
  }
}
