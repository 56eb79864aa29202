/** What the guest sees of a mapping call: the bytes it reads and the rights it gets. */
module GuestViews {
  import opened GuestSpace
  import opened PageTables

  /** After the change the guest reads `bytes` from `lo` on, and everywhere else what it read before. */
  ghost predicate Replaced(pages: PageMap, host: Host, pages': PageMap, host': Host, lo: nat, bytes: seq<byte>) {
    forall a: nat ::
      Load(pages', host', a) == if lo <= a < lo + |bytes| then bytes[a - lo] else Load(pages, host, a)
  }

  lemma PageInRange(lo: nat, hi: nat, a: nat)
    requires Aligned(lo) && Aligned(hi)
    ensures PageBase(a) in PagesIn(lo, hi) <==> lo <= a < hi
  {
    var b := PageBase(a);
    assert Aligned(b);
    if lo <= a && b < lo {
      NextPage(b, lo);
    }
    if b < hi {
      NextPage(b, hi);
    }
  }

  function ZeroBytes(n: nat): (s: seq<byte>)
    ensures |s| == n && forall i :: 0 <= i < n ==> s[i] == 0
  {
    seq(n, _ => 0)
  }

  /** Fresh host memory shows up in the mapped range, byte by byte. */
  lemma MapShows(pages: PageMap, host: Host, lo: nat, hi: nat, addr: nat, delta: nat, region: seq<byte>, perms: bv32)
    requires Hosted(pages, host) && Aligned(lo) && Aligned(hi) && lo <= hi && addr != 0
    requires |region| == delta + (hi - lo) && RunOf(addr, |region|) !! host.Keys
    ensures Replaced(pages, host, Assigned(pages, lo, hi, addr + delta, perms), WithRegion(host, addr, region), lo,
                     region[delta..])
  {
    var pages', host' := Assigned(pages, lo, hi, addr + delta, perms), WithRegion(host, addr, region);
    forall a: nat
      ensures Load(pages', host', a) == if lo <= a < hi then region[delta..][a - lo] else Load(pages, host, a)
    {
      PageInRange(lo, hi, a);
      if lo <= a < hi {
        assert Translate(pages', a) == addr + delta + (a - lo);
        assert Translate(pages', a) in RunOf(addr, |region|);
      } else if Mapped(pages, a) {
        assert Allocated(host, pages[PageBase(a)].addr, PAGE_SIZE);
        assert Translate(pages, a) in host;
      }
    }
  }

  /** Host memory the process already owns shows up likewise. */
  lemma DirectMapShows(pages: PageMap, host: Host, lo: nat, hi: nat, src: nat, perms: bv32)
    requires Aligned(lo) && Aligned(hi) && lo <= hi && src != 0 && Allocated(host, src, hi - lo)
    ensures Replaced(pages, host, Assigned(pages, lo, hi, src, perms), host, lo, HostRead(host, src, hi - lo))
  {
    var pages' := Assigned(pages, lo, hi, src, perms);
    forall a: nat
      ensures Load(pages', host, a)
              == if lo <= a < hi then HostRead(host, src, hi - lo)[a - lo] else Load(pages, host, a)
    {
      PageInRange(lo, hi, a);
      if lo <= a < hi {
        assert Translate(pages', a) == src + (a - lo);
      }
    }
  }

  /** A range that is only reserved reads as zeros. */
  lemma ReservedShows(pages: PageMap, host: Host, lo: nat, hi: nat)
    requires Aligned(lo) && Aligned(hi) && lo <= hi
    ensures Replaced(pages, host, Reserved(pages, lo, hi), host, lo, ZeroBytes(hi - lo))
  {
    forall a: nat
      ensures Load(Reserved(pages, lo, hi), host, a) == if lo <= a < hi then 0 else Load(pages, host, a)
    {
      PageInRange(lo, hi, a);
    }
  }

  /** An unmapped page reads as zeros, and giving its host memory back changes no other guest byte. */
  lemma UnmapShows(pages: PageMap, host: Host, v: nat)
    requires Hosted(pages, host) && Unaliased(pages) && v in pages && Aligned(v)
    ensures var host' := if pages[v].addr == 0 then host else host - RunOf(pages[v].addr, PAGE_SIZE);
            Replaced(pages, host, pages - {v}, host', v, ZeroBytes(PAGE_SIZE))
  {
    var host' := if pages[v].addr == 0 then host else host - RunOf(pages[v].addr, PAGE_SIZE);
    forall a: nat
      ensures Load(pages - {v}, host', a) == if v <= a < v + PAGE_SIZE then 0 else Load(pages, host, a)
    {
      var b := PageBase(a);
      PageInRange(v, v + PAGE_SIZE, a);
      assert b in PagesIn(v, v + PAGE_SIZE) <==> b == v by {
        assert Aligned(b);
        if v < b {
          NextPage(v, b);
        }
      }
      if b != v && Mapped(pages, a) {
        UnmapElsewhere(pages, v, b, a);
      }
    }
  }

  lemma UnmapElsewhere(pages: PageMap, v: nat, b: nat, a: nat)
    requires Unaliased(pages) && v in pages && b == PageBase(a) && b != v && Mapped(pages, a)
    ensures pages[v].addr != 0 ==> Translate(pages, a) !in RunOf(pages[v].addr, PAGE_SIZE)
  {
  }

  lemma ReplacedNothing(pages: PageMap, host: Host, lo: nat)
    ensures Replaced(pages, host, pages, host, lo, [])
  {
  }

  /** Two neighbouring ranges of zeros make one. */
  lemma ReplacedZeros(p: PageMap, h: Host, p1: PageMap, h1: Host, p2: PageMap, h2: Host, lo: nat, n: nat, k: nat)
    requires Replaced(p, h, p1, h1, lo, ZeroBytes(n)) && Replaced(p1, h1, p2, h2, lo + n, ZeroBytes(k))
    ensures Replaced(p, h, p2, h2, lo, ZeroBytes(n + k))
  {
    forall a: nat
      ensures Load(p2, h2, a) == if lo <= a < lo + n + k then 0 else Load(p, h, a)
    {
      assert Load(p1, h1, a) == if lo <= a < lo + n then 0 else Load(p, h, a);
      assert Load(p2, h2, a) == if lo + n <= a < lo + n + k then 0 else Load(p1, h1, a);
    }
  }

  /** Every page of the range gets the rights, every other page keeps its record. */
  lemma MapRights(pages: PageMap, lo: nat, hi: nat, addr: nat, perms: bv32, b: nat)
    ensures var pages' := Assigned(pages, lo, hi, addr, perms);
            if lo <= b < hi && Aligned(b) then b in pages' && pages'[b].perms == perms
            else (b in pages' <==> b in pages) && (b in pages ==> pages'[b] == pages[b])
  {
  }
}
