/** The guest address space: the hash table of pages, and the flat page table that caches it. */
module GuestMemory {
  import opened Arithmetic
  import opened GuestSpace
  import opened PageTables
  import opened GuestViews
  import opened KHashTable

  ghost predicate Free(pages: PageMap, lo: nat, hi: nat) {
    forall b :: b in pages ==> !(lo <= b < hi)
  }

  /** Pages at or above the cursor: they bound how often the search can start over. */
  ghost function MappedFrom(pages: PageMap, v: nat): set<nat> {
    set b | b in pages && b >= v
  }

  lemma MappedFromShrinks(pages: PageMap, v: nat)
    ensures |MappedFrom(pages, v + PAGE_SIZE)| <= |MappedFrom(pages, v)|
    ensures v in pages ==> |MappedFrom(pages, v + PAGE_SIZE)| < |MappedFrom(pages, v)|
  {
    var a, b := MappedFrom(pages, v + PAGE_SIZE), MappedFrom(pages, v);
    assert a <= b && v !in a;
    SubsetSize(a, b);
    assert v in pages ==> a <= b - {v};
    SubsetSize(a, b - {v});
  }

  /** No aligned range of this size that starts in `lo..hi` is free. */
  ghost predicate NoneBefore(pages: PageMap, lo: nat, hi: nat, size: nat) {
    forall a :: lo <= a < hi && Aligned(a) ==> !Free(pages, a, a + size)
  }

  lemma NoneBeforeExtends(pages: PageMap, lo: nat, hi: nat, size: nat, v: nat)
    requires NoneBefore(pages, lo, hi, size) && v in pages && hi <= v < hi + size && Aligned(v)
    ensures NoneBefore(pages, lo, v + PAGE_SIZE, size)
  {
    forall a | lo <= a < v + PAGE_SIZE && Aligned(a)
      ensures !Free(pages, a, a + size)
    {
      assert a >= hi ==> a <= v < a + size;
    }
  }

  /** The search so far: pages between the start of the range and the cursor are free. */
  ghost predicate Searching(pages: PageMap, start: nat, size: nat, fixed: bool, mask: nat, address: nat, v: nat) {
    && start <= address && Aligned(address) && start <= v && Aligned(v)
    && (fixed ==> address == start)
    && (!fixed ==> Free(pages, address, v))
    && (!fixed && mask + 1 == PAGE_SIZE ==> address <= v && NoneBefore(pages, start, address, size))
    && (Free(pages, start, start + size) ==> address == start)
  }

  lemma SearchMoves(pages: PageMap, start: nat, size: nat, mask: nat, address: nat, v: nat)
    requires Searching(pages, start, size, false, mask, address, v) && v < address + size && v in pages
    requires (mask + 1) % PAGE_SIZE == 0
    ensures Searching(pages, start, size, false, mask, v + mask + 1, v + PAGE_SIZE)
  {
    hide NoneBefore;
    if mask + 1 == PAGE_SIZE {
      NoneBeforeExtends(pages, start, address, size, v);
    }
    assert Aligned(v + mask + 1) && Aligned(v + PAGE_SIZE);
    assert Free(pages, start, start + size) ==> !(start <= v < start + size);
  }

  lemma SearchPasses(pages: PageMap, start: nat, size: nat, fixed: bool, mask: nat, address: nat, v: nat)
    requires PagesOk(pages) && Searching(pages, start, size, fixed, mask, address, v) && (fixed || v !in pages)
    ensures Searching(pages, start, size, fixed, mask, address, v + PAGE_SIZE)
  {
    hide NoneBefore;
    assert Aligned(v + PAGE_SIZE);
    assert forall b :: b in pages && v <= b < v + PAGE_SIZE ==> b == v;
  }

  lemma SearchStarts(pages: PageMap, start: nat, size: nat, fixed: bool, mask: nat)
    requires Aligned(start)
    ensures Searching(pages, start, size, fixed, mask, start, start)
  {
  }

  lemma SearchDone(pages: PageMap, start: nat, size: nat, fixed: bool, mask: nat, address: nat, v: nat)
    requires Searching(pages, start, size, fixed, mask, address, v) && v >= address + size
    ensures Found(pages, start, size, fixed, mask, address)
  {
  }

  /** The range the search settles on: free, not below the request, and for the default mask the first such
      range. A fixed request is taken as it is. */
  ghost predicate Found(pages: PageMap, start: nat, size: nat, fixed: bool, mask: nat, address: nat) {
    && start <= address && Aligned(address)
    && (fixed ==> address == start)
    && (!fixed ==> Free(pages, address, address + size))
    && (!fixed && mask + 1 == PAGE_SIZE ==> NoneBefore(pages, start, address, size))
    && (Free(pages, start, start + size) ==> address == start)
  }

  /** Outcome of a mapping call. `Overflow`: the reserved range does not fit below 2^32, where the original
      truncates its address. */
  datatype MapResult = MappedAt(address: nat) | BadArgument | Refused | HostFailed | Overflow | Ready

  /** What the argument checks say, before anything is reserved. */
  function Precheck(request: nat, size: nat, fixed: bool, mask: nat): MapResult {
    if !Aligned(request) || size == 0 || size % (mask + 1) != 0 then BadArgument
    else if fixed && request < LOW_LIMIT then Refused
    else Ready
  }

  lemma PrecheckMeans(request: nat, size: nat, fixed: bool, mask: nat)
    ensures Precheck(request, size, fixed, mask) == BadArgument <==>
              request % PAGE_SIZE != 0 || size == 0 || size % (mask + 1) != 0
  {
  }

  /** After a failed host `mmap` the range stays reserved. The page table agrees with the hash table exactly when no
      page of the range was cached, so a failed fixed remap of mapped pages leaves them disagreeing. */
  ghost predicate FailedMap(table: seq<nat>, pages: PageMap, pages': PageMap, request: nat, size: nat, fixed: bool,
                            mask: nat, address: nat, coherent: bool)
  {
    && Found(pages, RequestStart(request, mask), size, fixed, mask, address)
    && pages' == Reserved(pages, address, address + size)
    && (coherent <==> forall i :: 0 <= i < |table| && address <= i * PAGE_SIZE < address + size ==> table[i] == 0)
  }

  /** The range found does not end below 2^32; it stays reserved. */
  ghost predicate DoesNotFit(pages: PageMap, pages': PageMap, request: nat, size: nat, fixed: bool, mask: nat,
                             address: nat)
  {
    && Found(pages, RequestStart(request, mask), size, fixed, mask, address)
    && address + size >= GUEST_LIMIT
    && pages' == Reserved(pages, address, address + size)
  }

  /** Remapping a cached page whose host `mmap` then fails: the flat table still gives the old host page, the hash table
      gives none. */
  lemma FailedRemapDisagrees(address: nat, old_host: nat, perms: bv32)
    requires Aligned(address) && address >= LOW_LIMIT && old_host != 0
    ensures var pages := map[address := Page(old_host, perms)];
            var table := seq(address / PAGE_SIZE + 1, i => if i == address / PAGE_SIZE then old_host else 0);
            var pages' := Reserved(pages, address, address + PAGE_SIZE);
            && Coherent(table, pages)
            && FailedMap(table, pages, pages', address, PAGE_SIZE, true, PAGE_MASK, address, false)
            && !Coherent(table, pages')
            && table[address / PAGE_SIZE] == old_host && Backing(pages', address) == 0
  {
    var i := address / PAGE_SIZE;
    var pages := map[address := Page(old_host, perms)];
    var table := seq(i + 1, k => if k == i then old_host else 0);
    assert i * PAGE_SIZE == address;
    assert forall k :: 0 <= k <= i && k * PAGE_SIZE in pages ==> k == i;
    assert table[i] == old_host;
    assert address in PagesIn(address, address + PAGE_SIZE);
    assert RequestStart(address, PAGE_MASK) == address;
  }

  lemma HostRefused(table: seq<nat>, pages: PageMap, pages': PageMap, request: nat, size: nat, fixed: bool,
                    mask: nat, address: nat)
    requires Coherent(table, pages) && Found(pages, RequestStart(request, mask), size, fixed, mask, address)
    requires pages' == Reserved(pages, address, address + size)
    ensures FailedMap(table, pages, pages', request, size, fixed, mask, address, Coherent(table, pages'))
    ensures !fixed ==> Coherent(table, pages')
  {
    CoherentAround(table, pages, address, address + size);
  }

  lemma MultipleOfPage(size: nat, mask: nat)
    requires (mask + 1) % PAGE_SIZE == 0 && size % (mask + 1) == 0
    ensures size % PAGE_SIZE == 0
  {
    var m := mask + 1;
    var q, c := size / m, m / PAGE_SIZE;
    assert size == m * q == PAGE_SIZE * c * q == PAGE_SIZE * (c * q);
  }

  class AddressSpace {
    const memory: KHash<nat, Page>
    const pageTable: array?<nat>     // null when its allocation failed
    var host: Host                   // the host bytes the process owns

    ghost function Pages(): PageMap
      reads this, memory
    {
      memory.Contents
    }

    ghost function Table(): seq<nat>
      reads this, pageTable
    {
      if pageTable == null then [] else pageTable[..]
    }

    /** Structure only: the two tables exist and do not share storage. */
    ghost predicate Sound()
      reads this, memory, memory.flags, memory.keys, memory.vals
    {
      && memory.Valid()
      && (pageTable != null ==> pageTable as object !in memory.Parts())
      && PagesOk(Pages())
    }

    ghost predicate Valid()
      reads this, memory, memory.flags, memory.keys, memory.vals, pageTable
    {
      Sound() && Coherent(Table(), Pages())
    }

    /** Every mapped page has its own run of host memory. */
    ghost predicate Backed()
      reads this, memory
    {
      Hosted(Pages(), host) && Unaliased(Pages())
    }

    /** `Dynarmic_nativeInitialize`: an empty hash table with room for 0x1000 buckets and a zeroed page table,
        unless its allocation fails. */
    constructor (hash: nat -> nat, entries: nat, haveTable: bool)
      ensures Valid() && Backed() && Pages() == map[] && fresh(memory) && fresh(memory.Parts())
      ensures if haveTable then pageTable != null && fresh(pageTable) && pageTable.Length == entries
              else pageTable == null
    {
      hide Good, Capacity;
      var m := new KHash<nat, Page>(hash);
      m.Resize(0x1000);
      memory := m;
      host := map[];
      if haveTable {
        pageTable := new nat[entries](_ => 0);
      } else {
        pageTable := null;
      }
    }

    /** A table entry read through the flat table when it covers the address, through the hash table otherwise. */
    method GetMemoryPage(vaddr: nat) returns (page: nat)
      requires Valid()
      ensures page == Backing(Pages(), PageBase(vaddr))
    {
      hide Good;
      var idx := vaddr / PAGE_SIZE;
      if pageTable != null && idx < pageTable.Length {
        assert Table()[idx] == Backing(Pages(), idx * PAGE_SIZE);
        return pageTable[idx];
      }
      var k := memory.Get(PageBase(vaddr));
      if k == memory.nBuckets {
        return 0;
      }
      return memory.vals[k].addr;
    }

    /** The search loop of `Dynarmic_mem_reserve`. The start of the range moves while the cursor runs; each move
        passes a mapped page. */
    method FindRange(start: nat, size: nat, fixed: bool, mask: nat) returns (address: nat)
      requires Sound() && Aligned(start) && (mask + 1) % PAGE_SIZE == 0
      ensures Found(Pages(), start, size, fixed, mask, address)
    {
      hide Good, Searching, NoneBefore, Free;
      address := start;
      var vaddr: nat := start;
      SearchStarts(Pages(), start, size, fixed, mask);
      while vaddr < address + size
        invariant Searching(Pages(), start, size, fixed, mask, address, vaddr)
        decreases |MappedFrom(Pages(), vaddr)|, if vaddr < address + size then address + size - vaddr else 0
      {
        MappedFromShrinks(Pages(), vaddr);
        var k := memory.Get(vaddr);
        if k != memory.nBuckets && !fixed {
          SearchMoves(Pages(), start, size, mask, address, vaddr);
          address := vaddr + mask + 1;
        } else {
          SearchPasses(Pages(), start, size, fixed, mask, address, vaddr);
        }
        vaddr := vaddr + PAGE_SIZE;
      }
      SearchDone(Pages(), start, size, fixed, mask, address, vaddr);
    }

    /** `kh_put`, then a store of a zeroed page. */
    method PutPage(v: nat)
      requires Sound() && Aligned(v) && v >= LOW_LIMIT
      modifies memory, memory.flags, memory.keys, memory.vals
      ensures Sound() && fresh(memory.Parts() - old(memory.Parts())) && Table() == old(Table())
      ensures Pages() == old(Pages())[v := Page(0, 0)]
    {
      hide Good;
      var k, _ := memory.Put(v);
      memory.SetValue(k, Page(0, 0));
    }

    /** The second loop of `Dynarmic_mem_reserve`: an empty page for every page of the range. */
    method PutPages(lo: nat, hi: nat)
      requires Sound() && Aligned(lo) && Aligned(hi) && LOW_LIMIT <= lo <= hi
      modifies memory, memory.flags, memory.keys, memory.vals
      ensures Sound() && fresh(memory.Parts() - old(memory.Parts())) && Table() == old(Table())
      ensures Pages() == Reserved(old(Pages()), lo, hi)
    {
      hide Good, Reserved, PagesOk, Aligned;
      RangeStarts(Pages(), lo, 0, 0);
      var vaddr: nat := lo;
      while vaddr < hi
        invariant lo <= vaddr <= hi && Aligned(vaddr)
        invariant Sound() && fresh(memory.Parts() - old(memory.Parts())) && Table() == old(Table())
        invariant Pages() == Reserved(old(Pages()), lo, vaddr)
      {
        RangeSteps(old(Pages()), lo, vaddr, 0, 0);
        NextPage(vaddr, hi);
        PutPage(vaddr);
        vaddr := vaddr + PAGE_SIZE;
      }
    }

    /** `Dynarmic_mem_reserve`: refuses a fixed address in the low region, otherwise reserves the range found. */
    method Reserve(request: nat, size: nat, fixed: bool, mask: nat) returns (ok: bool, address: nat)
      requires Sound() && size % PAGE_SIZE == 0 && (mask + 1) % PAGE_SIZE == 0
      modifies memory, memory.flags, memory.keys, memory.vals
      ensures Sound() && fresh(memory.Parts() - old(memory.Parts())) && Table() == old(Table())
      ensures ok <==> !(fixed && request < LOW_LIMIT)
      ensures !ok ==> Pages() == old(Pages())
      ensures ok ==>
                address >= LOW_LIMIT && Found(old(Pages()), RequestStart(request, mask), size, fixed, mask, address)
      ensures ok ==> Pages() == Reserved(old(Pages()), address, address + size)
    {
      hide Good, Found;
      if fixed && request < LOW_LIMIT {
        return false, 0;
      }
      RequestStartAligned(request, mask);
      address := FindRange(RequestStart(request, mask), size, fixed, mask);
      FoundAddress(Pages(), RequestStart(request, mask), size, fixed, mask, address);
      PutPages(address, address + size);
      ok := true;
    }

    /** One round of the mapping loops: the table entry and the page record change together. */
    method AssignPage(v: nat, addr: nat, perms: bv32, ghost hi: nat)
      requires Sound() && Aligned(v) && v in Pages() && CoherentExcept(Table(), Pages(), v, hi)
      modifies memory`Contents, memory.vals, pageTable
      ensures Sound() && Pages() == old(Pages())[v := Page(addr, perms)]
      ensures CoherentExcept(Table(), Pages(), v + PAGE_SIZE, hi)
    {
      hide Good, CoherentExcept, Aligned;
      ghost var table := Table();
      CoherentUpdate(table, Pages(), v, hi, Page(addr, perms));
      var idx := v / PAGE_SIZE;
      if pageTable != null && idx < pageTable.Length {
        pageTable[idx] := addr;
        assert pageTable[..] == table[idx := addr];
      }
      assert Table() == if v / PAGE_SIZE < |table| then table[v / PAGE_SIZE := addr] else table;
      var k := memory.Get(v);
      memory.SetValue(k, Page(addr, perms));
    }

    /** The mapping loops of `Dynarmic_mmap` and `Dynarmic_direct_mmap`. */
    method AssignPages(lo: nat, hi: nat, addr: nat, perms: bv32)
      requires Sound() && Aligned(lo) && Aligned(hi) && lo <= hi && PagesIn(lo, hi) <= Pages().Keys
      requires CoherentExcept(Table(), Pages(), lo, hi)
      modifies memory`Contents, memory.vals, pageTable
      ensures Valid() && Pages() == Assigned(old(Pages()), lo, hi, addr, perms)
    {
      hide Good, CoherentExcept, Coherent, Assigned, PagesOk, Aligned;
      RangeStarts(Pages(), lo, addr, perms);
      var vaddr: nat := lo;
      while vaddr < hi
        invariant lo <= vaddr <= hi && Aligned(vaddr)
        invariant Sound() && CoherentExcept(Table(), Pages(), vaddr, hi)
        invariant Pages() == Assigned(old(Pages()), lo, vaddr, addr, perms)
      {
        RangeSteps(old(Pages()), lo, vaddr, addr, perms);
        NextPage(vaddr, hi);
        AssignedHas(old(Pages()), lo, vaddr, hi, addr, perms);
        AssignPage(vaddr, addr + (vaddr - lo), perms, hi);
        vaddr := vaddr + PAGE_SIZE;
      }
      CoherentDone(Table(), Pages(), vaddr, hi);
    }

    /** What both mapping calls do after the reservation. */
    method Bind(lo: nat, hi: nat, addr: nat, perms: bv32, ghost pages: PageMap)
      requires Sound() && Aligned(lo) && Aligned(hi) && lo <= hi
      requires Coherent(Table(), pages) && Pages() == Reserved(pages, lo, hi)
      modifies memory`Contents, memory.vals, pageTable
      ensures Valid() && Pages() == Assigned(pages, lo, hi, addr, perms)
    {
      hide Good, Coherent, CoherentExcept, Assigned, Reserved, PagesOk;
      CoherentAround(Table(), pages, lo, hi);
      ReservedHas(pages, lo, hi);
      AssignedReserved(pages, lo, hi, addr, perms);
      AssignPages(lo, hi, addr, perms);
    }

    /** The argument checks and the reservation that both mapping calls begin with. */
    method Prepare(request: nat, size: nat, fixed: bool, mask: nat) returns (r: MapResult)
      requires Sound() && (mask + 1) % PAGE_SIZE == 0
      modifies memory, memory.flags, memory.keys, memory.vals
      ensures Sound() && fresh(memory.Parts() - old(memory.Parts())) && Table() == old(Table())
      ensures !r.MappedAt? ==>
                && (r == BadArgument || r == Refused)
                && r == Precheck(request, size, fixed, mask) && Pages() == old(Pages())
      ensures r.MappedAt? ==>
                && Precheck(request, size, fixed, mask) == Ready
                && Aligned(r.address) && Aligned(r.address + size) && size > 0
                && Found(old(Pages()), RequestStart(request, mask), size, fixed, mask, r.address)
                && Pages() == Reserved(old(Pages()), r.address, r.address + size)
    {
      hide Good, Found, Reserved, PagesOk, RequestStart;
      if request % PAGE_SIZE != 0 || size == 0 || size % (mask + 1) != 0 {
        return BadArgument;
      }
      MultipleOfPage(size, mask);
      ghost var pages := Pages();
      var ok, address := Reserve(request, size, fixed, mask);
      if !ok {
        return Refused;
      }
      FoundAddress(pages, RequestStart(request, mask), size, fixed, mask, address);
      return MappedAt(address);
    }

    /** `Dynarmic_direct_mmap`: maps a range onto host memory the caller already owns. */
    method DirectMmap(request: nat, size: nat, perms: bv32, fixed: bool, src: nat) returns (r: MapResult)
      requires Valid()
      modifies memory, memory.flags, memory.keys, memory.vals, pageTable
      ensures Sound() && fresh(memory.Parts() - old(memory.Parts()))
      ensures r != Ready && r != HostFailed
      ensures Precheck(request, size, fixed, PAGE_MASK) == if r.MappedAt? || r == Overflow then Ready else r
      ensures r == BadArgument || r == Refused ==> Valid() && Pages() == old(Pages())
      ensures r.MappedAt? ==>
                && Valid() && r.address + size < GUEST_LIMIT
                && Found(old(Pages()), RequestStart(request, PAGE_MASK), size, fixed, PAGE_MASK, r.address)
                && Pages() == Assigned(old(Pages()), r.address, r.address + size, src, perms)
      ensures r == Overflow ==> exists address :: DoesNotFit(old(Pages()), Pages(), request, size, fixed, PAGE_MASK,
                                                             address)
      ensures (r.MappedAt? && old(Backed()) && src != 0 && Allocated(host, src, size)
               && Unused(old(Pages()), r.address, r.address + size, src, size))
              ==> Backed()
      ensures r.MappedAt? && src != 0 && Allocated(host, src, size) ==>
                Replaced(old(Pages()), host, Pages(), host, r.address, HostRead(host, src, size))
      ensures r == BadArgument <==> request % PAGE_SIZE != 0 || size == 0 || size % PAGE_SIZE != 0
    {
      hide Good, Found, Coherent, Assigned, Reserved, PagesOk, Hosted, Unaliased, RequestStart, Unused, Allocated,
        Replaced, Precheck;
      PrecheckMeans(request, size, fixed, PAGE_MASK);
      ghost var pages := Pages();
      r := Prepare(request, size, fixed, PAGE_MASK);
      if !r.MappedAt? {
        return;
      }
      var address := r.address;
      if address + size >= GUEST_LIMIT {
        assert DoesNotFit(pages, Pages(), request, size, fixed, PAGE_MASK, address);
        return Overflow;
      }
      Bind(address, address + size, src, perms, pages);
      if src != 0 && Allocated(host, src, size) {
        DirectMapShows(pages, host, address, address + size, src, perms);
      }
      if Hosted(pages, host) && Unaliased(pages) && src != 0 && Allocated(host, src, size)
         && Unused(pages, address, address + size, src, size) {
        AssignedBacked(pages, host, address, address + size, src, perms);
      }
    }

    /** `Dynarmic_mmap`: maps a range onto memory obtained from the host's `mmap`. `region` is what it yields at
        `addr`, or nothing when it fails; `delta` is the part of the file offset below a host page. */
    method Mmap(request: nat, size: nat, prot: bv32, fixed: bool, isFile: bool, off: nat, mask: nat,
                addr: nat, delta: nat, region: seq<byte>)
      returns (r: MapResult)
      requires Valid() && (mask + 1) % PAGE_SIZE == 0
      requires region == [] || (|region| == size + delta && addr != 0 && RunOf(addr, |region|) !! host.Keys)
      modifies this`host, memory, memory.flags, memory.keys, memory.vals, pageTable
      ensures Sound() && fresh(memory.Parts() - old(memory.Parts()))
      ensures r != Ready
      ensures Precheck(request, size, fixed, mask)
              == if r.MappedAt? || r == Overflow || r == HostFailed then Ready else r
      ensures r == BadArgument || r == Refused ==> Valid() && Pages() == old(Pages()) && host == old(host)
      ensures r.MappedAt? ==>
                && Valid() && r.address + size < GUEST_LIMIT
                && Found(old(Pages()), RequestStart(request, mask), size, fixed, mask, r.address)
                && Pages() == Assigned(old(Pages()), r.address, r.address + size, addr + delta,
                                       StoredPerms(prot, isFile, size, off))
                && host == WithRegion(old(host), addr, region)
      ensures r.MappedAt? && old(Backed()) ==>
                && Backed() && delta < |region|
                && Replaced(old(Pages()), old(host), Pages(), host, r.address, region[delta..])
      ensures r == BadArgument <==> request % PAGE_SIZE != 0 || size == 0 || size % (mask + 1) != 0
      ensures r == Overflow ==>
                && host == old(host)
                && exists address :: DoesNotFit(old(Pages()), Pages(), request, size, fixed, mask, address)
      ensures r == HostFailed || r.MappedAt? || r == Overflow ==> (r == HostFailed <==> region == [])
      ensures r == HostFailed ==> exists address :: FailedMap(old(Table()), old(Pages()), Pages(), request, size, fixed,
                                                              mask, address, Coherent(Table(), Pages()))
      ensures r == HostFailed ==> host == old(host) && (!fixed ==> Valid()) && (old(Backed()) ==> Backed())
    {
      hide Good, Found, Coherent, Assigned, Reserved, PagesOk, Hosted, Unaliased, WithRegion, FailedMap, RequestStart,
        StoredPerms, RunOf, Replaced, Precheck;
      PrecheckMeans(request, size, fixed, mask);
      ghost var pages, table := Pages(), Table();
      r := Prepare(request, size, fixed, mask);
      if !r.MappedAt? {
        return;
      }
      var address := r.address;
      if region == [] {
        HostRefused(table, pages, Pages(), request, size, fixed, mask, address);
        ReservationBacked(pages, host, address, address + size);
        return HostFailed;
      }
      if address + size >= GUEST_LIMIT {
        assert DoesNotFit(pages, Pages(), request, size, fixed, mask, address);
        return Overflow;
      }
      var perms := StoredPerms(prot, isFile, size, off);
      Bind(address, address + size, addr + delta, perms, pages);
      FreshMapBacked(pages, host, address, address + size, addr, delta, region, perms);
      if Hosted(pages, host) && Unaliased(pages) {
        MapShows(pages, host, address, address + size, addr, delta, region, perms);
      }
      host := WithRegion(host, addr, region);
    }

    /** One round of `Dynarmic_munmap`. */
    method UnmapPage(v: nat) returns (ok: bool)
      requires Valid() && Aligned(v)
      modifies this`host, memory`size, memory`at, memory`Contents, memory.flags, pageTable
      ensures Valid() && (ok <==> v in old(Pages()))
      ensures Pages() == old(Pages()) - {v}
      ensures !ok ==> host == old(host)
      ensures old(Backed()) ==> Backed()
      ensures old(Backed()) && ok ==> Replaced(old(Pages()), old(host), Pages(), host, v, ZeroBytes(PAGE_SIZE))
    {
      hide Good, Coherent, Aligned, Hosted, Unaliased, PagesOk, Replaced;
      ghost var table, pages := Table(), Pages();
      var k := memory.Get(v);
      if k == memory.nBuckets {
        assert Pages() - {v} == Pages();
        return false;
      }
      CoherentRemove(table, pages, v);
      PagesOkRemove(pages, v);
      var idx := v / PAGE_SIZE;
      if pageTable != null && idx < pageTable.Length {
        pageTable[idx] := 0;
        assert pageTable[..] == table[idx := 0];
      }
      assert Table() == if v / PAGE_SIZE < |table| then table[v / PAGE_SIZE := 0] else table;
      var page := memory.vals[k];
      UnmapBacked(pages, host, v);
      if Hosted(pages, host) && Unaliased(pages) {
        UnmapShows(pages, host, v);
      }
      if page.addr != 0 {
        host := host - RunOf(page.addr, PAGE_SIZE);
      }
      memory.Del(k);
      ok := true;
    }

    /** The loop of `Dynarmic_munmap`: stops at the first page that is not mapped. */
    method UnmapRange(lo: nat, hi: nat) returns (ok: bool, ghost stop: nat)
      requires Valid() && Aligned(lo) && Aligned(hi) && lo <= hi
      modifies this`host, memory`size, memory`at, memory`Contents, memory.flags, pageTable
      ensures Valid() && (old(Backed()) ==> Backed())
      ensures lo <= stop <= hi && Aligned(stop)
      ensures Pages() == Removed(old(Pages()), lo, stop) && PagesIn(lo, stop) <= old(Pages()).Keys
      ensures if ok then stop == hi else stop < hi && stop !in old(Pages())
      ensures old(Backed()) ==> Replaced(old(Pages()), old(host), Pages(), host, lo, ZeroBytes(stop - lo))
    {
      hide Good, Coherent, Hosted, Unaliased, PagesOk, Removed, Aligned, PagesIn, Replaced, ZeroBytes;
      ReplacedNothing(Pages(), host, lo);
      assert ZeroBytes(0) == [];
      RangeStarts(Pages(), lo, 0, 0);
      EmptyRange(lo);
      var vaddr: nat := lo;
      while vaddr < hi
        invariant lo <= vaddr <= hi && Aligned(vaddr)
        invariant Valid() && (old(Backed()) ==> Backed())
        invariant Pages() == Removed(old(Pages()), lo, vaddr) && PagesIn(lo, vaddr) <= old(Pages()).Keys
        invariant old(Backed()) ==> Replaced(old(Pages()), old(host), Pages(), host, lo, ZeroBytes(vaddr - lo))
      {
        RangeSteps(old(Pages()), lo, vaddr, 0, 0);
        PagesInStep(lo, vaddr);
        NextPage(vaddr, hi);
        RemovedHas(old(Pages()), lo, vaddr);
        ghost var pages, before := Pages(), host;
        ok := UnmapPage(vaddr);
        if !ok {
          return false, vaddr;
        }
        if old(Backed()) {
          ReplacedZeros(old(Pages()), old(host), pages, before, Pages(), host, lo, vaddr - lo, PAGE_SIZE);
        }
        vaddr := vaddr + PAGE_SIZE;
      }
      return true, vaddr;
    }

    /** `Dynarmic_munmap`. A call that fails part-way has unmapped exactly the pages before the first missing one. */
    method Munmap(address: nat, size: nat) returns (ret: int, ghost stop: nat)
      requires Valid()
      modifies this`host, memory`size, memory`at, memory`Contents, memory.flags, pageTable
      ensures Valid() && (old(Backed()) ==> Backed())
      ensures ret == 0 || ret == -1
      ensures !Aligned(address) || size == 0 || size % PAGE_SIZE != 0 ==> ret == -1 && Pages() == old(Pages())
      ensures Aligned(address) && size != 0 && size % PAGE_SIZE == 0 ==>
                && address <= stop <= address + size && Aligned(stop)
                && Pages() == Removed(old(Pages()), address, stop) && PagesIn(address, stop) <= old(Pages()).Keys
                && if ret == 0 then stop == address + size else stop < address + size && stop !in old(Pages())
      ensures old(Backed()) && address <= stop ==>
                Replaced(old(Pages()), old(host), Pages(), host, address, ZeroBytes(stop - address))
    {
      hide Good, Coherent, Hosted, Unaliased, PagesOk, Removed, PagesIn, Replaced;
      ReplacedNothing(Pages(), host, address);
      stop := address;
      if address % PAGE_SIZE != 0 {
        return -1, address;
      }
      if size == 0 || size % PAGE_SIZE != 0 {
        return -1, address;
      }
      var ok;
      ok, stop := UnmapRange(address, address + size);
      ret := if ok then 0 else -1;
    }

    // ---------- loads and stores of the guest CPU ----------

    method MemoryRead8(vaddr: nat) returns (v: byte)
      requires Valid() && Hosted(Pages(), host) && vaddr < GUEST_LIMIT
      ensures v == Load(Pages(), host, vaddr) && [v] == LoadBytes(Pages(), host, vaddr, 1)
      ensures v as nat == FromLe(LoadBytes(Pages(), host, vaddr, 1))
    {
      hide Good, Coherent;
      assert LoadBytes(Pages(), host, vaddr, 1) == [Load(Pages(), host, vaddr)];
      var page := GetMemoryPage(vaddr);
      if page == 0 {
        return 0;
      }
      assert page + vaddr % PAGE_SIZE in host;
      return host[page + vaddr % PAGE_SIZE];
    }

    /** The aligned path of the wider loads: one host access, since the word does not leave its page. */
    method ReadWord(vaddr: nat, n: nat) returns (v: nat)
      requires Valid() && Hosted(Pages(), host) && vaddr < GUEST_LIMIT
      requires n in {2, 4, 8} && vaddr % n == 0
      ensures v == FromLe(LoadBytes(Pages(), host, vaddr, n))
    {
      hide Good, Coherent, Hosted, LoadBytes, FromLe;
      WordInPage(vaddr, n);
      LoadPage(Pages(), host, vaddr, n);
      FromLeZeros(n);
      var page := GetMemoryPage(vaddr);
      if page == 0 {
        return 0;
      }
      return FromLe(HostRead(host, page + vaddr % PAGE_SIZE, n));
    }

    method MemoryRead16(vaddr: nat) returns (v: nat)
      requires Valid() && Hosted(Pages(), host) && vaddr < GUEST_LIMIT
      ensures v == FromLe(LoadBytes(Pages(), host, vaddr, 2))
    {
      hide Good, Hosted, Coherent, LoadBytes, FromLe;
      if vaddr % 2 != 0 {
        var a := MemoryRead8(vaddr);
        var b := MemoryRead8((vaddr + 1) % GUEST_LIMIT);
        LoadSplit(Pages(), host, vaddr, 1);
        Pow256Values();
        return b as nat * 0x100 + a as nat;
      }
      v := ReadWord(vaddr, 2);
    }

    method MemoryRead32(vaddr: nat) returns (v: nat)
      requires Valid() && Hosted(Pages(), host) && vaddr < GUEST_LIMIT
      ensures v == FromLe(LoadBytes(Pages(), host, vaddr, 4))
    {
      hide Good, Hosted, Coherent, LoadBytes, FromLe;
      if vaddr % 4 != 0 {
        var a := MemoryRead16(vaddr);
        var b := MemoryRead16((vaddr + 2) % GUEST_LIMIT);
        LoadSplit(Pages(), host, vaddr, 2);
        Pow256Values();
        return b * 0x10000 + a;
      }
      v := ReadWord(vaddr, 4);
    }

    method MemoryRead64(vaddr: nat) returns (v: nat)
      requires Valid() && Hosted(Pages(), host) && vaddr < GUEST_LIMIT
      ensures v == FromLe(LoadBytes(Pages(), host, vaddr, 8))
    {
      hide Good, Hosted, Coherent, LoadBytes, FromLe;
      if vaddr % 8 != 0 {
        var a := MemoryRead32(vaddr);
        var b := MemoryRead32((vaddr + 4) % GUEST_LIMIT);
        LoadSplit(Pages(), host, vaddr, 4);
        Pow256Values();
        return b * 0x100000000 + a;
      }
      v := ReadWord(vaddr, 8);
    }

    method MemoryWrite8(vaddr: nat, value: byte)
      requires Valid() && Hosted(Pages(), host) && vaddr < GUEST_LIMIT
      modifies this`host
      ensures host == Store(Pages(), old(host), vaddr, value) == StoreBytes(Pages(), old(host), vaddr, [value])
      ensures host == StoreBytes(Pages(), old(host), vaddr, ToLe(value as nat, 1)) && Hosted(Pages(), host)
    {
      hide Good, Coherent;
      assert ToLe(value as nat, 1) == [value] + ToLe(0, 0);
      assert StoreBytes(Pages(), host, vaddr, [value]) == Store(Pages(), host, vaddr, value) by {
        assert [value][1..] == [];
      }
      StoreKeepsHosted(Pages(), host, vaddr, [value]);
      var page := GetMemoryPage(vaddr);
      if page != 0 {
        host := host[page + vaddr % PAGE_SIZE := value];
      }
    }

    /** The aligned path of the wider stores. */
    method WriteWord(vaddr: nat, s: seq<byte>)
      requires Valid() && Hosted(Pages(), host) && vaddr < GUEST_LIMIT
      requires |s| in {2, 4, 8} && vaddr % |s| == 0
      modifies this`host
      ensures host == StoreBytes(Pages(), old(host), vaddr, s) && Hosted(Pages(), host)
    {
      hide Good, Coherent, Hosted, StoreBytes;
      WordInPage(vaddr, |s|);
      StorePage(Pages(), host, vaddr, s);
      StoreKeepsHosted(Pages(), host, vaddr, s);
      var page := GetMemoryPage(vaddr);
      if page != 0 {
        host := HostWrite(host, page + vaddr % PAGE_SIZE, s);
      }
    }

    method MemoryWrite16(vaddr: nat, value: nat)
      requires Valid() && Hosted(Pages(), host) && vaddr < GUEST_LIMIT
      modifies this`host
      ensures host == StoreBytes(Pages(), old(host), vaddr, ToLe(value, 2)) && Hosted(Pages(), host)
    {
      hide Good, Hosted, Coherent, StoreBytes, ToLe;
      if vaddr % 2 != 0 {
        StoreSplit(Pages(), host, vaddr, value, 1);
        Halves(value, 1);
        MemoryWrite8(vaddr, ((value) % 256) as byte);
        MemoryWrite8((vaddr + 1) % GUEST_LIMIT, ((value / 0x100) % 256) as byte);
        return;
      }
      WriteWord(vaddr, ToLe(value, 2));
    }

    method MemoryWrite32(vaddr: nat, value: nat)
      requires Valid() && Hosted(Pages(), host) && vaddr < GUEST_LIMIT
      modifies this`host
      ensures host == StoreBytes(Pages(), old(host), vaddr, ToLe(value, 4)) && Hosted(Pages(), host)
    {
      hide Good, Hosted, Coherent, StoreBytes, ToLe;
      if vaddr % 4 != 0 {
        StoreSplit(Pages(), host, vaddr, value, 2);
        Halves(value, 2);
        MemoryWrite16(vaddr, (value) % 0x10000);
        MemoryWrite16((vaddr + 2) % GUEST_LIMIT, (value / 0x10000) % 0x10000);
        return;
      }
      WriteWord(vaddr, ToLe(value, 4));
    }

    method MemoryWrite64(vaddr: nat, value: nat)
      requires Valid() && Hosted(Pages(), host) && vaddr < GUEST_LIMIT
      modifies this`host
      ensures host == StoreBytes(Pages(), old(host), vaddr, ToLe(value, 8)) && Hosted(Pages(), host)
    {
      hide Good, Hosted, Coherent, StoreBytes, ToLe;
      if vaddr % 8 != 0 {
        StoreSplit(Pages(), host, vaddr, value, 4);
        Halves(value, 4);
        MemoryWrite32(vaddr, (value) % 0x100000000);
        MemoryWrite32((vaddr + 4) % GUEST_LIMIT, (value / 0x100000000) % 0x100000000);
        return;
      }
      WriteWord(vaddr, ToLe(value, 8));
    }

    // ---------- block transfers ----------

    /** The part of a block write that falls into one page. */
    method WriteRun(a: nat, n: nat, ghost address: nat, chunk: seq<byte>, ghost src: seq<byte>, ghost host0: Host)
      returns (ok: bool)
      requires Valid() && Backed() && Written(Pages(), host0, host, address, a, src)
      requires address <= a && a + n <= address + |src| && a % PAGE_SIZE + n <= PAGE_SIZE
      requires chunk == src[a - address..a - address + n]
      modifies this`host
      ensures Backed() && (ok <==> Mapped(Pages(), a))
      ensures Written(Pages(), host0, host, address, if ok then a + n else a, src)
    {
      hide Good, Coherent, Hosted, Unaliased, Written, Load, HostWrite, Allocated;
      var page := GetMemoryPage(a);
      if page == 0 {
        return false;
      }
      WrittenStep(Pages(), host0, host, address, a, src, n);
      host := HostWrite(host, page + a % PAGE_SIZE, chunk);
      return true;
    }

    /** `Dynarmic_mem_1write`: copies page by page and stops at the first unmapped page. `stop` is where. */
    method MemWrite(address: nat, size: nat, src: seq<byte>) returns (ret: int, ghost stop: nat)
      requires Valid() && Backed() && |src| == size
      modifies this`host
      ensures Backed() && Written(Pages(), old(host), host, address, stop, src)
      ensures ret == if Covered(Pages(), address, address + size) then 0 else 1
      ensures ret == 0 ==> stop == address + size
      ensures ret == 1 ==> !Mapped(Pages(), stop) && (stop == address || Aligned(stop))
    {
      hide Good, Coherent, Hosted, Unaliased, Written, Load, Covered, Mapped, TransferAt, PageBase, Aligned;
      var end := address + size;
      var vaddr := PageBase(address);
      var pos: nat := 0;
      TransferStarts(Pages(), host, address, end, src);
      while vaddr < end
        invariant Backed() && TransferAt(address, end, vaddr, address + pos)
        invariant Written(Pages(), old(host), host, address, address + pos, src)
        invariant Covered(Pages(), address, vaddr)
        decreases end + PAGE_SIZE - vaddr
      {
        var start := if vaddr < address then address - vaddr else 0;
        var last := if vaddr + PAGE_SIZE <= end then PAGE_SIZE else end - vaddr;
        var len := last - start;
        TransferRound(Pages(), address, end, vaddr, address + pos);
        var ok := WriteRun(vaddr + start, len, address, src[pos..pos + len], src, old(host));
        if !ok {
          return 1, address + pos;
        }
        pos := pos + len;
        vaddr := vaddr + PAGE_SIZE;
      }
      TransferEnds(Pages(), address, end, vaddr, address + pos);
      return 0, address + pos;
    }

    /** The part of a block read that falls into one page. */
    method ReadRun(address: nat, data: seq<byte>, n: nat) returns (ok: bool, data': seq<byte>)
      requires Valid() && Hosted(Pages(), host) && IsRead(Pages(), host, address, data)
      requires (address + |data|) % PAGE_SIZE + n <= PAGE_SIZE
      ensures ok <==> Mapped(Pages(), address + |data|)
      ensures IsRead(Pages(), host, address, data') && |data'| == |data| + if ok then n else 0
    {
      hide Good, Coherent, Hosted, IsRead, Load;
      var a := address + |data|;
      var page := GetMemoryPage(a);
      if page == 0 {
        return false, data;
      }
      IsReadStep(Pages(), host, address, data, n);
      return true, data + HostRead(host, page + a % PAGE_SIZE, n);
    }

    /** `Dynarmic_mem_1read`. */
    method MemRead(address: nat, size: nat) returns (ret: int, data: seq<byte>)
      requires Valid() && Hosted(Pages(), host)
      ensures IsRead(Pages(), host, address, data)
      ensures ret == if Covered(Pages(), address, address + size) then 0 else 1
      ensures ret == 0 ==> |data| == size
    {
      hide Good, Coherent, Hosted, IsRead, Load, Covered, Mapped, Written, TransferAt, PageBase, Aligned;
      var end := address + size;
      var vaddr := PageBase(address);
      data := [];
      TransferStarts(Pages(), host, address, end, seq(size, _ => 0));
      ReadStarts(Pages(), host, address);
      while vaddr < end
        invariant TransferAt(address, end, vaddr, address + |data|)
        invariant IsRead(Pages(), host, address, data)
        invariant Covered(Pages(), address, vaddr)
        decreases end + PAGE_SIZE - vaddr
      {
        var start := if vaddr < address then address - vaddr else 0;
        var last := if vaddr + PAGE_SIZE <= end then PAGE_SIZE else end - vaddr;
        TransferRound(Pages(), address, end, vaddr, address + |data|);
        var ok;
        ok, data := ReadRun(address, data, last - start);
        if !ok {
          return 1, data;
        }
        vaddr := vaddr + PAGE_SIZE;
      }
      TransferEnds(Pages(), address, end, vaddr, address + |data|);
      return 0, data;
    }

    /** A block written and read back is the same block. */
    method WriteThenRead(address: nat, size: nat, src: seq<byte>) returns (ret: int, data: seq<byte>)
      requires Valid() && Backed() && |src| == size
      modifies this`host
      ensures ret == if Covered(Pages(), address, address + size) then 0 else 1
      ensures ret == 0 ==> data == src
    {
      hide Good, Coherent, Hosted, Unaliased, Covered, Load;
      ghost var stop;
      ret, stop := MemWrite(address, size, src);
      if ret != 0 {
        return ret, [];
      }
      ret, data := MemRead(address, size);
      ReadBack(Pages(), old(host), host, address, src, data);
    }
  }

  /** The cursor of a block transfer: everything before `vaddr`, cut to the block, has been moved. */
  predicate TransferAt(address: nat, end: nat, vaddr: nat, moved: nat) {
    && Aligned(vaddr) && PageBase(address) <= vaddr
    && address <= moved <= end
    && moved == if vaddr <= address then address else if vaddr <= end then vaddr else end
  }

  lemma TransferStarts(pages: PageMap, host: Host, address: nat, end: nat, src: seq<byte>)
    requires end == address + |src|
    ensures TransferAt(address, end, PageBase(address), address)
    ensures Written(pages, host, host, address, address, src)
    ensures Covered(pages, address, PageBase(address))
  {
  }

  lemma ReadStarts(pages: PageMap, host: Host, address: nat)
    ensures IsRead(pages, host, address, [])
  {
  }

  lemma ReadBack(pages: PageMap, host0: Host, host: Host, address: nat, src: seq<byte>, data: seq<byte>)
    requires Written(pages, host0, host, address, address + |src|, src) && IsRead(pages, host, address, data)
    requires |data| == |src|
    ensures data == src
  {
  }

  lemma TransferRound(pages: PageMap, address: nat, end: nat, vaddr: nat, moved: nat)
    requires vaddr < end && TransferAt(address, end, vaddr, moved)
    ensures var start := if vaddr < address then address - vaddr else 0;
            var last := if vaddr + PAGE_SIZE <= end then PAGE_SIZE else end - vaddr;
            && start <= last && moved == vaddr + start && address <= moved && moved + (last - start) <= end
            && moved % PAGE_SIZE + (last - start) <= PAGE_SIZE
            && TransferAt(address, end, vaddr + PAGE_SIZE, moved + (last - start))
    ensures Mapped(pages, moved) && Covered(pages, address, vaddr) ==> Covered(pages, address, vaddr + PAGE_SIZE)
    ensures !Mapped(pages, moved) ==> !Covered(pages, address, end) && (moved == address || Aligned(moved))
  {
    assert PageBase(moved) == vaddr == PageBase(vaddr);
    assert moved % PAGE_SIZE == moved - vaddr;
    assert Mapped(pages, moved) == Mapped(pages, vaddr);
    assert vaddr % PAGE_SIZE == 0;
  }

  lemma TransferEnds(pages: PageMap, address: nat, end: nat, vaddr: nat, moved: nat)
    requires TransferAt(address, end, vaddr, moved) && Covered(pages, address, vaddr) && end <= vaddr
    ensures Covered(pages, address, end) && moved == end
  {
  }

  lemma WordInPage(a: nat, n: nat)
    requires n in {2, 4, 8} && a % n == 0 && a < GUEST_LIMIT
    ensures a % PAGE_SIZE + n <= PAGE_SIZE && a + n <= GUEST_LIMIT
  {
    if n == 2 {
      HalfwordInPage(a);
    } else if n == 4 {
      WholeWordInPage(a);
    } else {
      DoubleWordInPage(a);
    }
  }

  lemma HalfwordInPage(a: nat)
    requires a % 2 == 0 && a < GUEST_LIMIT
    ensures a % PAGE_SIZE + 2 <= PAGE_SIZE && a + 2 <= GUEST_LIMIT
  {
  }

  lemma WholeWordInPage(a: nat)
    requires a % 4 == 0 && a < GUEST_LIMIT
    ensures a % PAGE_SIZE + 4 <= PAGE_SIZE && a + 4 <= GUEST_LIMIT
  {
  }

  lemma DoubleWordInPage(a: nat)
    requires a % 8 == 0 && a < GUEST_LIMIT
    ensures a % PAGE_SIZE + 8 <= PAGE_SIZE && a + 8 <= GUEST_LIMIT
  {
  }

  /** Truncating casts of the two halves of a value. */
  lemma Halves(v: nat, n: nat)
    requires n in {1, 2, 4}
    ensures ToLe(v % Pow256(n), n) == ToLe(v, n) && ToLe(Shift(v, n) % Pow256(n), n) == ToLe(Shift(v, n), n)
    ensures Pow256(1) == 0x100 && Pow256(2) == 0x1_0000 && Pow256(4) == 0x1_0000_0000
    ensures Shift(v, 1) == v / 0x100 && Shift(v, 2) == v / 0x1_0000 && Shift(v, 4) == v / 0x1_0000_0000
  {
    ToLeTruncates(v, n, n);
    ToLeTruncates(Shift(v, n), n, n);
    Pow256Values();
    Shifts(v);
  }

  const PROT_EXEC: bv32 := 4

  /** Executable file mappings of more than one page that start at the file's beginning are made writable. */
  function StoredPerms(prot: bv32, isFile: bool, size: nat, off: nat): bv32 {
    if Bit(prot, PROT_EXEC) != 0 && isFile && size > 0x1000 && off == 0 then WithWrite(prot) else prot
  }

  /** The address the search starts from: out of the low region and rounded up to the mask. */
  function RequestStart(request: nat, mask: nat): nat {
    AlignUp(if request < LOW_LIMIT then request + LOW_LIMIT else request, mask)
  }

  /** Rights are stored as asked for, with the write right added exactly for executable file mappings of more than one
      page from the file's beginning. */
  lemma StoredPermsMean(prot: bv32, isFile: bool, size: nat, off: nat)
    ensures var p := StoredPerms(prot, isFile, size, off);
            && Bit(p, 1) == Bit(prot, 1) && Bit(p, 4) == Bit(prot, 4)
            && Bit(p, 2) == if Bit(prot, 4) != 0 && isFile && size > 4096 && off == 0 then 2 else Bit(prot, 2)
  {
    WriteBit(prot);
    ReadBit(prot);
    ExecBit(prot);
    hide Bit, WithWrite;
  }

  /** Rights to read, write and execute are the bits 1, 2 and 4. */
  function Bit(perms: bv32, right: bv32): bv32 {
    perms & right
  }

  function WithWrite(prot: bv32): bv32 {
    prot | 2
  }

  lemma WriteBit(prot: bv32)
    ensures Bit(WithWrite(prot), 2) == 2
  {
  }

  lemma ReadBit(prot: bv32)
    ensures Bit(WithWrite(prot), 1) == Bit(prot, 1)
  {
  }

  lemma ExecBit(prot: bv32)
    ensures Bit(WithWrite(prot), 4) == Bit(prot, 4)
  {
  }

  /** The search starts at the first multiple of the mask plus one that is not below the request, which is moved up by
      0x10000000 if it lies below that; a free range there is taken. */
  lemma RequestStartExact(pages: PageMap, request: nat, size: nat, fixed: bool, mask: nat, address: nat)
    requires Found(pages, RequestStart(request, mask), size, fixed, mask, address)
    ensures var wanted := if request < 0x1000_0000 then request + 0x1000_0000 else request;
            && RequestStart(request, mask) % (mask + 1) == 0
            && wanted <= RequestStart(request, mask) <= wanted + mask
            && (wanted % (mask + 1) == 0 ==> RequestStart(request, mask) == wanted)
            && (wanted % (mask + 1) == 0 && Free(pages, wanted, wanted + size) ==> address == wanted)
  {
    var wanted := if request < 0x1000_0000 then request + 0x1000_0000 else request;
    AlignUpExact(wanted, mask);
    hide AlignUp;
  }

  lemma AlignUpExact(a: nat, mask: nat)
    ensures AlignUp(a, mask) % (mask + 1) == 0 && a <= AlignUp(a, mask) <= a + mask
    ensures a % (mask + 1) == 0 ==> AlignUp(a, mask) == a
  {
    var m := mask + 1;
    var q := (a + mask) / m;
    assert a + mask == m * q + (a + mask) % m;
    assert q * m == m * q;
    DivModUnique(q * m, m, q, 0);
    if a % m == 0 {
      assert a == m * (a / m);
      DivModUnique(a + mask, m, a / m, mask);
    }
  }

  lemma RequestStartAligned(request: nat, mask: nat)
    requires (mask + 1) % PAGE_SIZE == 0
    ensures Aligned(RequestStart(request, mask)) && RequestStart(request, mask) >= LOW_LIMIT
  {
    var a := if request < LOW_LIMIT then request + LOW_LIMIT else request;
    var m := mask + 1;
    var q := (a + mask) / m;
    MultipleAligned(q, m);
    assert a + mask == m * q + (a + mask) % m;
  }

  lemma MultipleAligned(q: nat, m: nat)
    requires m % PAGE_SIZE == 0
    ensures Aligned(q * m)
  {
    var c := m / PAGE_SIZE;
    assert q * m == q * (c * PAGE_SIZE) == PAGE_SIZE * (q * c);
    DivModUnique(q * m, PAGE_SIZE, q * c, 0);
  }

  lemma FoundAddress(pages: PageMap, start: nat, size: nat, fixed: bool, mask: nat, address: nat)
    requires Found(pages, start, size, fixed, mask, address)
    ensures start <= address && Aligned(address)
  {
  }
}
