/** The page map and the flat page table as values: what the mapping calls do to them, and when they agree. */
module PageTables {
  import opened GuestSpace

  /** Nothing is mapped below this address. */
  const LOW_LIMIT: nat := 0x1000_0000

  predicate Aligned(a: nat) {
    a % PAGE_SIZE == 0
  }

  ghost predicate PagesOk(pages: PageMap) {
    forall b :: b in pages ==> Aligned(b) && b >= LOW_LIMIT
  }

  /** Outside `lo..hi`, the page table entry of every page it covers is what the hash table says. */
  ghost predicate CoherentExcept(table: seq<nat>, pages: PageMap, lo: nat, hi: nat) {
    forall i :: 0 <= i < |table| && !(lo <= i * PAGE_SIZE < hi) ==> table[i] == Backing(pages, i * PAGE_SIZE)
  }

  ghost predicate Coherent(table: seq<nat>, pages: PageMap) {
    forall i :: 0 <= i < |table| ==> table[i] == Backing(pages, i * PAGE_SIZE)
  }

  /** The pages of `lo..hi`. */
  ghost function PagesIn(lo: nat, hi: nat): set<nat> {
    set b: nat | lo <= b < hi && Aligned(b)
  }

  ghost function Removed(pages: PageMap, lo: nat, hi: nat): PageMap {
    pages - PagesIn(lo, hi)
  }

  /** Every page of the range present, without a host address yet. */
  ghost function Reserved(pages: PageMap, lo: nat, hi: nat): PageMap {
    map b | b in pages.Keys + PagesIn(lo, hi) :: if b in PagesIn(lo, hi) then Page(0, 0) else pages[b]
  }

  /** Every page of the range present and backed by consecutive host pages from `addr`. */
  ghost function Assigned(pages: PageMap, lo: nat, hi: nat, addr: nat, perms: bv32): PageMap {
    map b | b in pages.Keys + PagesIn(lo, hi) :: if b in PagesIn(lo, hi) then Page(addr + (b - lo), perms) else pages[b]
  }

  lemma PagesInStep(lo: nat, v: nat)
    requires lo <= v && Aligned(lo) && Aligned(v)
    ensures PagesIn(lo, v + PAGE_SIZE) == PagesIn(lo, v) + {v} && v !in PagesIn(lo, v)
  {
  }

  lemma RangeSteps(pages: PageMap, lo: nat, v: nat, addr: nat, perms: bv32)
    requires lo <= v && Aligned(lo) && Aligned(v)
    ensures Removed(pages, lo, v + PAGE_SIZE) == Removed(pages, lo, v) - {v}
    ensures Reserved(pages, lo, v + PAGE_SIZE) == Reserved(pages, lo, v)[v := Page(0, 0)]
    ensures Assigned(pages, lo, v + PAGE_SIZE, addr, perms)
            == Assigned(pages, lo, v, addr, perms)[v := Page(addr + (v - lo), perms)]
  {
    PagesInStep(lo, v);
  }

  lemma NextPage(v: nat, hi: nat)
    requires Aligned(v) && Aligned(hi) && v < hi
    ensures Aligned(v + PAGE_SIZE) && v + PAGE_SIZE <= hi
  {
  }

  lemma RangeStarts(pages: PageMap, lo: nat, addr: nat, perms: bv32)
    ensures Removed(pages, lo, lo) == pages && Reserved(pages, lo, lo) == pages
            && Assigned(pages, lo, lo, addr, perms) == pages
  {
    assert PagesIn(lo, lo) == {};
  }

  lemma AssignedHas(pages: PageMap, lo: nat, v: nat, hi: nat, addr: nat, perms: bv32)
    requires lo <= v < hi && Aligned(v) && PagesIn(lo, hi) <= pages.Keys
    ensures v in Assigned(pages, lo, v, addr, perms)
  {
    assert v in PagesIn(lo, hi);
  }

  lemma EmptyRange(a: nat)
    ensures PagesIn(a, a) == {}
  {
  }

  lemma RemovedHas(pages: PageMap, lo: nat, v: nat)
    requires Aligned(v)
    ensures v in Removed(pages, lo, v) <==> v in pages
    ensures v !in pages ==> Removed(pages, lo, v) - {v} == Removed(pages, lo, v)
  {
  }

  lemma PagesOkRemove(pages: PageMap, v: nat)
    requires PagesOk(pages)
    ensures PagesOk(pages - {v})
  {
  }

  lemma UnmapBacked(pages: PageMap, host: Host, v: nat)
    requires v in pages
    ensures var host' := if pages[v].addr == 0 then host else host - RunOf(pages[v].addr, PAGE_SIZE);
            Hosted(pages, host) && Unaliased(pages) ==> Hosted(pages - {v}, host') && Unaliased(pages - {v})
  {
    if Hosted(pages, host) && Unaliased(pages) {
      RemovedBacked(pages, host, v);
    }
  }

  lemma ReservedHas(pages: PageMap, lo: nat, hi: nat)
    ensures PagesIn(lo, hi) <= Reserved(pages, lo, hi).Keys
  {
  }

  lemma CoherentDone(table: seq<nat>, pages: PageMap, v: nat, hi: nat)
    requires CoherentExcept(table, pages, v, hi) && v >= hi
    ensures Coherent(table, pages)
  {
  }

  /** Assigning host pages to reserved pages is the same as assigning them outright. */
  lemma AssignedReserved(pages: PageMap, lo: nat, hi: nat, addr: nat, perms: bv32)
    ensures Assigned(Reserved(pages, lo, hi), lo, hi, addr, perms) == Assigned(pages, lo, hi, addr, perms)
  {
  }

  /** One table entry and one hash entry change together. */
  lemma CoherentUpdate(table: seq<nat>, pages: PageMap, v: nat, hi: nat, page: Page)
    requires Aligned(v) && CoherentExcept(table, pages, v, hi)
    ensures var table' := if v / PAGE_SIZE < |table| then table[v / PAGE_SIZE := page.addr] else table;
            CoherentExcept(table', pages[v := page], v + PAGE_SIZE, hi)
  {
    assert v / PAGE_SIZE * PAGE_SIZE == v;
  }

  lemma CoherentRemove(table: seq<nat>, pages: PageMap, v: nat)
    requires Aligned(v) && Coherent(table, pages)
    ensures var table' := if v / PAGE_SIZE < |table| then table[v / PAGE_SIZE := 0] else table;
            Coherent(table', pages - {v})
  {
    assert v / PAGE_SIZE * PAGE_SIZE == v;
  }

  lemma CoherentAround(table: seq<nat>, pages: PageMap, lo: nat, hi: nat)
    requires Coherent(table, pages) && Aligned(lo)
    ensures CoherentExcept(table, Reserved(pages, lo, hi), lo, hi)
    ensures Coherent(table, Reserved(pages, lo, hi)) <==>
            forall i :: 0 <= i < |table| && lo <= i * PAGE_SIZE < hi ==> table[i] == 0
  {
    var pages' := Reserved(pages, lo, hi);
    forall i | 0 <= i < |table|
      ensures Backing(pages', i * PAGE_SIZE) == if lo <= i * PAGE_SIZE < hi then 0 else Backing(pages, i * PAGE_SIZE)
    {
      assert Aligned(i * PAGE_SIZE);
    }
  }

  // ---------- host memory behind the pages ----------

  /** No mapped page outside `lo..hi` uses the host run `addr..addr + n`. */
  ghost predicate Unused(pages: PageMap, lo: nat, hi: nat, addr: nat, n: nat) {
    forall b :: b in pages && !(lo <= b < hi) && pages[b].addr != 0 ==>
      pages[b].addr + PAGE_SIZE <= addr || addr + n <= pages[b].addr
  }

  lemma AssignedHosted(pages: PageMap, host: Host, lo: nat, hi: nat, addr: nat, perms: bv32)
    requires Hosted(pages, host) && Aligned(lo) && Aligned(hi) && lo <= hi && Allocated(host, addr, hi - lo)
    ensures Hosted(Assigned(pages, lo, hi, addr, perms), host)
  {
    var pages' := Assigned(pages, lo, hi, addr, perms);
    forall b | b in pages' && pages'[b].addr != 0
      ensures Allocated(host, pages'[b].addr, PAGE_SIZE)
    {
      if b in PagesIn(lo, hi) {
        NextPage(b, hi);
      }
    }
  }

  /** Two pages of the range get different host pages. */
  lemma RangeApart(lo: nat, hi: nat, b: nat, c: nat)
    requires b in PagesIn(lo, hi) && c in PagesIn(lo, hi) && b < c
    ensures b + PAGE_SIZE <= c
  {
    NextPage(b, c);
  }

  lemma AssignedApart(pages: PageMap, lo: nat, hi: nat, addr: nat, perms: bv32, b: nat, c: nat)
    requires PagesOk(pages) && Unaliased(pages) && Aligned(hi) && lo <= hi && Unused(pages, lo, hi, addr, hi - lo)
    requires var p := Assigned(pages, lo, hi, addr, perms);
             b in p && c in p && p[b].addr != 0 && p[c].addr != 0 && b < c
    ensures var p := Assigned(pages, lo, hi, addr, perms);
            p[b].addr + PAGE_SIZE <= p[c].addr || p[c].addr + PAGE_SIZE <= p[b].addr
  {
    var inB, inC := b in PagesIn(lo, hi), c in PagesIn(lo, hi);
    if inB {
      NextPage(b, hi);
    }
    if inC {
      NextPage(c, hi);
    }
    if inB && inC {
      RangeApart(lo, hi, b, c);
    }
  }

  lemma AssignedBacked(pages: PageMap, host: Host, lo: nat, hi: nat, addr: nat, perms: bv32)
    requires PagesOk(pages) && Hosted(pages, host) && Unaliased(pages) && Aligned(lo) && Aligned(hi) && lo <= hi
    requires addr != 0 && Allocated(host, addr, hi - lo) && Unused(pages, lo, hi, addr, hi - lo)
    ensures Hosted(Assigned(pages, lo, hi, addr, perms), host) && Unaliased(Assigned(pages, lo, hi, addr, perms))
  {
    hide Hosted, Unused, Assigned, PagesOk;
    AssignedHosted(pages, host, lo, hi, addr, perms);
    var p := Assigned(pages, lo, hi, addr, perms);
    forall b, c | b in p && c in p && b != c && p[b].addr != 0 && p[c].addr != 0
      ensures p[b].addr + PAGE_SIZE <= p[c].addr || p[c].addr + PAGE_SIZE <= p[b].addr
    {
      if b < c {
        AssignedApart(pages, lo, hi, addr, perms, b, c);
      } else {
        AssignedApart(pages, lo, hi, addr, perms, c, b);
      }
    }
  }

  lemma ReservationBacked(pages: PageMap, host: Host, lo: nat, hi: nat)
    ensures Hosted(pages, host) && Unaliased(pages) ==>
              Hosted(Reserved(pages, lo, hi), host) && Unaliased(Reserved(pages, lo, hi))
  {
    if Hosted(pages, host) && Unaliased(pages) {
      ReservedBacked(pages, host, lo, hi);
    }
  }

  lemma ReservedBacked(pages: PageMap, host: Host, lo: nat, hi: nat)
    requires Hosted(pages, host) && Unaliased(pages)
    ensures Hosted(Reserved(pages, lo, hi), host) && Unaliased(Reserved(pages, lo, hi))
  {
  }

  /** Host memory after `mmap` returned a new region at `addr`. */
  function WithRegion(host: Host, addr: nat, region: seq<byte>): Host {
    map a | a in host.Keys + RunOf(addr, |region|) :: if a in RunOf(addr, |region|) then region[a - addr] else host[a]
  }

  predicate InRun(a: nat, addr: nat, n: nat) {
    addr <= a < addr + n
  }

  function RunOf(addr: nat, n: nat): set<nat> {
    set a: nat | addr <= a < addr + n && InRun(a, addr, n)
  }

  lemma FreshRegionBacked(pages: PageMap, host: Host, lo: nat, hi: nat, addr: nat, delta: nat, region: seq<byte>)
    requires Hosted(pages, host) && lo < hi && |region| == delta + (hi - lo) && RunOf(addr, |region|) !! host.Keys
    ensures Hosted(pages, WithRegion(host, addr, region))
    ensures Allocated(WithRegion(host, addr, region), addr + delta, hi - lo)
    ensures Unused(pages, lo, hi, addr + delta, hi - lo)
  {
    var start := addr + delta;
    assert forall a :: start <= a < start + (hi - lo) ==> InRun(a, addr, |region|);
    forall b | b in pages && !(lo <= b < hi) && pages[b].addr != 0
      ensures pages[b].addr + PAGE_SIZE <= start || start + (hi - lo) <= pages[b].addr
    {
      var p := pages[b].addr;
      assert p in host && p !in RunOf(addr, |region|) && !InRun(p, addr, |region|);
      assert InRun(start, addr, |region|);
      assert p <= start < p + PAGE_SIZE ==> start in host;
    }
  }

  lemma FreshMapBacked(pages: PageMap, host: Host, lo: nat, hi: nat, addr: nat, delta: nat, region: seq<byte>,
                       perms: bv32)
    requires PagesOk(pages) && Aligned(lo) && Aligned(hi) && lo < hi && addr != 0
    requires |region| == delta + (hi - lo) && RunOf(addr, |region|) !! host.Keys
    ensures Hosted(pages, host) && Unaliased(pages) ==>
              && Hosted(Assigned(pages, lo, hi, addr + delta, perms), WithRegion(host, addr, region))
              && Unaliased(Assigned(pages, lo, hi, addr + delta, perms))
  {
    if Hosted(pages, host) && Unaliased(pages) {
      FreshRegionBacked(pages, host, lo, hi, addr, delta, region);
      AssignedBacked(pages, WithRegion(host, addr, region), lo, hi, addr + delta, perms);
    }
  }

  /** Giving back the host memory of one unaliased page keeps the others backed. */
  lemma RemovedBacked(pages: PageMap, host: Host, v: nat)
    requires Hosted(pages, host) && Unaliased(pages) && v in pages
    ensures var host' := if pages[v].addr == 0 then host else host - RunOf(pages[v].addr, PAGE_SIZE);
            Hosted(pages - {v}, host') && Unaliased(pages - {v})
  {
  }

  /** `(address + mask) & ~mask` for a mask of the form 2^k - 1 */
  function AlignUp(a: nat, mask: nat): nat {
    (a + mask) / (mask + 1) * (mask + 1)
  }
}
