/** What guest memory means: pages of 4096 bytes, each backed by a run of host bytes. */
module GuestSpace {
  import opened Arithmetic

  newtype byte = x: int | 0 <= x < 256

  const PAGE_SIZE: nat := 4096
  const PAGE_MASK: nat := PAGE_SIZE - 1
  const GUEST_LIMIT: nat := 0x1_0000_0000

  /** `struct memory_page`; a null `addr` is 0. */
  datatype Page = Page(addr: nat, perms: bv32)

  type PageMap = map<nat, Page>
  type Host = map<nat, byte>

  function PageBase(a: nat): (b: nat)
    ensures b % PAGE_SIZE == 0 && b <= a < b + PAGE_SIZE
  {
    a / PAGE_SIZE * PAGE_SIZE
  }

  /** Host address behind a guest page, or 0. */
  function Backing(pages: PageMap, base: nat): nat {
    if base in pages then pages[base].addr else 0
  }

  ghost predicate Allocated(host: Host, addr: nat, n: nat) {
    forall a :: addr <= a < addr + n ==> a in host
  }

  /** Every backed page lies in allocated host memory. */
  ghost predicate Hosted(pages: PageMap, host: Host) {
    forall b :: b in pages && pages[b].addr != 0 ==> Allocated(host, pages[b].addr, PAGE_SIZE)
  }

  /** No host byte backs two guest bytes. */
  ghost predicate Unaliased(pages: PageMap) {
    forall b, c :: b in pages && c in pages && b != c && pages[b].addr != 0 && pages[c].addr != 0 ==>
      pages[b].addr + PAGE_SIZE <= pages[c].addr || pages[c].addr + PAGE_SIZE <= pages[b].addr
  }

  predicate Mapped(pages: PageMap, a: nat) {
    Backing(pages, PageBase(a)) != 0
  }

  /** Host address of a guest byte. */
  function Translate(pages: PageMap, a: nat): nat
  {
    Backing(pages, PageBase(a)) + a % PAGE_SIZE
  }

  /** The byte a guest load sees; unmapped memory reads as 0. */
  function Load(pages: PageMap, host: Host, a: nat): byte {
    if Mapped(pages, a) && Translate(pages, a) in host then host[Translate(pages, a)] else 0
  }

  /** A guest byte store; a store to unmapped memory does nothing. */
  function Store(pages: PageMap, host: Host, a: nat, v: byte): Host {
    if Mapped(pages, a) then host[Translate(pages, a) := v] else host
  }

  /** Byte loads at consecutive 32-bit addresses. */
  function LoadBytes(pages: PageMap, host: Host, a: nat, n: nat): (s: seq<byte>)
    ensures |s| == n
    decreases n
  {
    if n == 0 then [] else [Load(pages, host, a)] + LoadBytes(pages, host, (a + 1) % GUEST_LIMIT, n - 1)
  }

  /** Byte stores at consecutive 32-bit addresses. */
  function StoreBytes(pages: PageMap, host: Host, a: nat, s: seq<byte>): Host
    decreases |s|
  {
    if s == [] then host else
      StoreBytes(pages, Store(pages, host, a, s[0]), (a + 1) % GUEST_LIMIT, s[1..])
  }

  /** A run of host bytes. */
  function HostRead(host: Host, addr: nat, n: nat): (s: seq<byte>)
    requires Allocated(host, addr, n)
    ensures |s| == n
  {
    seq(n, i requires 0 <= i < n => host[addr + i])
  }

  function HostWrite(host: Host, addr: nat, s: seq<byte>): (h: Host)
    requires Allocated(host, addr, |s|)
    ensures h.Keys == host.Keys
  {
    map a | a in host :: if addr <= a < addr + |s| then s[a - addr] else host[a]
  }

  // ---------- little-endian numbers ----------

  function FromLe(s: seq<byte>): nat {
    if s == [] then 0 else s[0] as nat + 256 * FromLe(s[1..])
  }

  function ToLe(v: nat, n: nat): (s: seq<byte>)
    ensures |s| == n
  {
    if n == 0 then [] else [(v % 256) as byte] + ToLe(v / 256, n - 1)
  }

  function Pow256(n: nat): (p: nat)
    ensures p > 0
  {
    if n == 0 then 1 else 256 * Pow256(n - 1)
  }

  lemma {:induction false} FromLeToLe(v: nat, n: nat)
    requires v < Pow256(n)
    ensures FromLe(ToLe(v, n)) == v
  {
    if n > 0 {
      FromLeToLe(v / 256, n - 1);
      assert ToLe(v, n)[1..] == ToLe(v / 256, n - 1);
    }
  }

  lemma {:induction false} FromLeConcat(a: seq<byte>, b: seq<byte>)
    ensures FromLe(a + b) == FromLe(a) + Pow256(|a|) * FromLe(b)
  {
    if a == [] {
      assert a + b == b;
    } else {
      FromLeConcat(a[1..], b);
      assert (a + b)[1..] == a[1..] + b;
      MulAssoc(256, Pow256(|a| - 1), FromLe(b));
    }
  }

  lemma MulAssoc(a: nat, b: nat, c: nat)
    ensures a * (b * c) == (a * b) * c
  {
  }

  /** `v >> (8 * m)` */
  function Shift(v: nat, m: nat): nat
    decreases m
  {
    if m == 0 then v else Shift(v / 256, m - 1)
  }

  lemma {:induction false} ToLeConcat(v: nat, m: nat, n: nat)
    ensures ToLe(v, m + n) == ToLe(v, m) + ToLe(Shift(v, m), n)
    decreases m
  {
    if m > 0 {
      ToLeConcat(v / 256, m - 1, n);
    }
  }

  lemma Shifts(v: nat)
    ensures Shift(v, 1) == v / 0x100 && Shift(v, 2) == v / 0x1_0000 && Shift(v, 4) == v / 0x1_0000_0000
  {
    assert Shift(v / 256, 1) == v / 256 / 256;
    assert Shift(v, 4) == Shift(v / 256, 3) == Shift(v / 256 / 256, 2) == Shift(v / 256 / 256 / 256, 1);
  }

  lemma Pow256Values()
    ensures Pow256(1) == 0x100 && Pow256(2) == 0x1_0000 && Pow256(4) == 0x1_0000_0000
  {
    assert Pow256(3) == 256 * Pow256(2);
  }

  // ---------- accesses inside one page ----------

  lemma InsidePage(a: nat, i: nat)
    requires a % PAGE_SIZE + i < PAGE_SIZE
    ensures PageBase(a + i) == PageBase(a) && (a + i) % PAGE_SIZE == a % PAGE_SIZE + i
  {
  }

  lemma {:induction false} LoadBytesAt(pages: PageMap, host: Host, a: nat, n: nat, i: nat)
    requires i < n && a + n <= GUEST_LIMIT
    ensures LoadBytes(pages, host, a, n)[i] == Load(pages, host, a + i)
    decreases n
  {
    hide Load;
    if i > 0 {
      assert (a + 1) % GUEST_LIMIT == a + 1;
      LoadBytesAt(pages, host, a + 1, n - 1, i - 1);
    }
  }

  lemma LoadPage(pages: PageMap, host: Host, a: nat, n: nat)
    requires Hosted(pages, host) && a % PAGE_SIZE + n <= PAGE_SIZE && a + n <= GUEST_LIMIT
    ensures !Mapped(pages, a) ==> LoadBytes(pages, host, a, n) == seq(n, _ => 0)
    ensures Mapped(pages, a) ==> Allocated(host, Translate(pages, a), n)
                                 && LoadBytes(pages, host, a, n) == HostRead(host, Translate(pages, a), n)
  {
    forall i | 0 <= i < n
      ensures LoadBytes(pages, host, a, n)[i] == Load(pages, host, a + i)
      ensures PageBase(a + i) == PageBase(a) && (a + i) % PAGE_SIZE == a % PAGE_SIZE + i
    {
      LoadBytesAt(pages, host, a, n, i);
      InsidePage(a, i);
    }
  }

  lemma HostWriteStep(host: Host, p: nat, s: seq<byte>)
    requires s != [] && Allocated(host, p, |s|)
    ensures Allocated(host[p := s[0]], p + 1, |s| - 1)
    ensures HostWrite(host, p, s) == HostWrite(host[p := s[0]], p + 1, s[1..])
  {
  }

  lemma {:induction false} StorePage(pages: PageMap, host: Host, a: nat, s: seq<byte>)
    requires Hosted(pages, host) && a % PAGE_SIZE + |s| <= PAGE_SIZE && a + |s| <= GUEST_LIMIT
    ensures !Mapped(pages, a) ==> StoreBytes(pages, host, a, s) == host
    ensures Mapped(pages, a) ==> Allocated(host, Translate(pages, a), |s|)
                                 && StoreBytes(pages, host, a, s) == HostWrite(host, Translate(pages, a), s)
    decreases |s|
  {
    hide HostWrite;
    if s == [] {
      EmptyHostWrite(host, Translate(pages, a));
    } else {
      assert Mapped(pages, a) ==> Translate(pages, a) in host;
      var host' := Store(pages, host, a, s[0]);
      assert host'.Keys == host.Keys;
      if Mapped(pages, a) {
        HostWriteStep(host, Translate(pages, a), s);
      }
      if |s| == 1 {
        EmptyHostWrite(host', Translate(pages, a) + 1);
        assert s[1..] == [];
      } else {
        InsidePage(a, 1);
        StorePage(pages, host', a + 1, s[1..]);
      }
    }
  }

  lemma EmptyHostWrite(host: Host, p: nat)
    ensures HostWrite(host, p, []) == host
  {
  }

  lemma NextAddress(a: nat, m: nat)
    requires a < GUEST_LIMIT && m > 0
    ensures ((a + 1) % GUEST_LIMIT + (m - 1)) % GUEST_LIMIT == (a + m) % GUEST_LIMIT
  {
  }

  lemma {:induction false} LoadConcat(pages: PageMap, host: Host, a: nat, m: nat, n: nat)
    requires a < GUEST_LIMIT
    ensures LoadBytes(pages, host, a, m + n)
            == LoadBytes(pages, host, a, m) + LoadBytes(pages, host, (a + m) % GUEST_LIMIT, n)
    decreases m
  {
    hide Load;
    if m > 0 {
      var a' := (a + 1) % GUEST_LIMIT;
      LoadConcat(pages, host, a', m - 1, n);
      NextAddress(a, m);
    }
  }

  lemma {:induction false} StoreConcat(pages: PageMap, host: Host, a: nat, s: seq<byte>, t: seq<byte>)
    requires a < GUEST_LIMIT
    ensures StoreBytes(pages, host, a, s + t)
            == StoreBytes(pages, StoreBytes(pages, host, a, s), (a + |s|) % GUEST_LIMIT, t)
    decreases |s|
  {
    if s == [] {
      assert s + t == t;
    } else {
      var a' := (a + 1) % GUEST_LIMIT;
      assert (s + t)[1..] == s[1..] + t;
      StoreConcat(pages, Store(pages, host, a, s[0]), a', s[1..], t);
      NextAddress(a, |s|);
    }
  }

  lemma {:induction false} StoreKeepsHosted(pages: PageMap, host: Host, a: nat, s: seq<byte>)
    requires Hosted(pages, host)
    ensures Hosted(pages, StoreBytes(pages, host, a, s)) && StoreBytes(pages, host, a, s).Keys == host.Keys
    decreases |s|
  {
    if s != [] {
      assert Mapped(pages, a) ==> Translate(pages, a) in host;
      StoreKeepsHosted(pages, Store(pages, host, a, s[0]), (a + 1) % GUEST_LIMIT, s[1..]);
    }
  }

  /** A host write inside one page changes the guest bytes of that run and no other. */
  lemma PageWriteLocal(pages: PageMap, host: Host, a: nat, s: seq<byte>, x: nat)
    requires Hosted(pages, host) && Unaliased(pages) && Mapped(pages, a) && a % PAGE_SIZE + |s| <= PAGE_SIZE
    ensures Allocated(host, Translate(pages, a), |s|)
    ensures Load(pages, HostWrite(host, Translate(pages, a), s), x)
            == if a <= x < a + |s| then s[x - a] else Load(pages, host, x)
  {
    var b, c := PageBase(a), PageBase(x);
    if a <= x < a + |s| {
      InsidePage(a, x - a);
    } else if Mapped(pages, x) && b == c {
      assert x % PAGE_SIZE - a % PAGE_SIZE == x - a;
    }
  }

  // ---------- wider accesses ----------

  lemma {:induction false} FromLeZeros(n: nat)
    ensures FromLe(seq(n, _ => 0 as byte)) == 0
  {
    if n > 0 {
      FromLeZeros(n - 1);
      assert seq(n, _ => 0 as byte)[1..] == seq(n - 1, _ => 0 as byte);
    }
  }

  /** A load of `2n` bytes is two loads of `n` bytes. */
  lemma LoadSplit(pages: PageMap, host: Host, a: nat, n: nat)
    requires a < GUEST_LIMIT
    ensures FromLe(LoadBytes(pages, host, a, n + n))
            == FromLe(LoadBytes(pages, host, a, n))
               + Pow256(n) * FromLe(LoadBytes(pages, host, (a + n) % GUEST_LIMIT, n))
  {
    LoadConcat(pages, host, a, n, n);
    FromLeConcat(LoadBytes(pages, host, a, n), LoadBytes(pages, host, (a + n) % GUEST_LIMIT, n));
  }

  /** A store of `2n` bytes is two stores of `n` bytes. */
  lemma StoreSplit(pages: PageMap, host: Host, a: nat, v: nat, n: nat)
    requires a < GUEST_LIMIT
    ensures StoreBytes(pages, host, a, ToLe(v, n + n))
            == StoreBytes(pages, StoreBytes(pages, host, a, ToLe(v, n)), (a + n) % GUEST_LIMIT, ToLe(Shift(v, n), n))
  {
    ToLeConcat(v, n, n);
    StoreConcat(pages, host, a, ToLe(v, n), ToLe(Shift(v, n), n));
  }

  lemma {:induction false} ToLeTruncates(v: nat, n: nat, m: nat)
    requires m <= n
    ensures ToLe(v % Pow256(n), m) == ToLe(v, m)
    decreases m
  {
    if m > 0 {
      TruncateStep(v, Pow256(n - 1));
      ToLeTruncates(v / 256, n - 1, m - 1);
    }
  }

  lemma TruncateStep(v: nat, p: nat)
    requires p > 0
    ensures v % (256 * p) % 256 == v % 256 && v % (256 * p) / 256 == v / 256 % p
  {
    var q := v / 256;
    var k, r := q / p, q % p;
    assert q == p * k + r;
    var s := 256 * r + v % 256;
    assert v == (256 * p) * k + s by {
      assert (256 * p) * k == 256 * (p * k);
    }
    assert 0 <= s < 256 * p;
    DivModUnique(v, 256 * p, k, s);
  }

  // ---------- block transfers ----------

  /** Guest memory after the bytes of `src` have been written up to `upto`; everything else is as before. */
  ghost predicate Written(pages: PageMap, host0: Host, host: Host, address: nat, upto: nat, src: seq<byte>) {
    && address <= upto <= address + |src|
    && (forall a: nat ::
          Load(pages, host, a) == if address <= a < upto then src[a - address] else Load(pages, host0, a))
  }

  lemma WrittenStep(pages: PageMap, host0: Host, host: Host, address: nat, upto: nat, src: seq<byte>, n: nat)
    requires Hosted(pages, host) && Unaliased(pages) && Mapped(pages, upto)
    requires Written(pages, host0, host, address, upto, src)
    requires upto + n <= address + |src| && upto % PAGE_SIZE + n <= PAGE_SIZE
    ensures var s := src[upto - address..upto - address + n];
            && Allocated(host, Translate(pages, upto), n)
            && Written(pages, host0, HostWrite(host, Translate(pages, upto), s), address, upto + n, src)
            && Hosted(pages, HostWrite(host, Translate(pages, upto), s))
  {
    hide Load, Translate, Mapped;
    var s := src[upto - address..upto - address + n];
    PageWriteLocal(pages, host, upto, s, upto);
    var host' := HostWrite(host, Translate(pages, upto), s);
    forall a: nat
      ensures Load(pages, host', a) == if address <= a < upto + n then src[a - address] else Load(pages, host0, a)
    {
      PageWriteLocal(pages, host, upto, s, a);
    }
  }

  /** The guest bytes from `address` on. */
  ghost predicate IsRead(pages: PageMap, host: Host, address: nat, data: seq<byte>) {
    forall i :: 0 <= i < |data| ==> data[i] == Load(pages, host, address + i)
  }

  lemma IsReadStep(pages: PageMap, host: Host, address: nat, data: seq<byte>, n: nat)
    requires Hosted(pages, host) && IsRead(pages, host, address, data)
    requires var a := address + |data|; Mapped(pages, a) && a % PAGE_SIZE + n <= PAGE_SIZE
    ensures var a := address + |data|;
            && Allocated(host, Translate(pages, a), n)
            && IsRead(pages, host, address, data + HostRead(host, Translate(pages, a), n))
  {
    var a := address + |data|;
    assert Allocated(host, Backing(pages, PageBase(a)), PAGE_SIZE);
    var data' := data + HostRead(host, Translate(pages, a), n);
    forall i | 0 <= i < |data'|
      ensures data'[i] == Load(pages, host, address + i)
    {
      if i >= |data| {
        var k := i - |data|;
        InsidePage(a, k);
        assert data'[i] == HostRead(host, Translate(pages, a), n)[k] == host[Translate(pages, a) + k];
      }
    }
  }

  /** Every page that the loops over `address..end` visit is mapped. */
  ghost predicate Covered(pages: PageMap, address: nat, end: nat) {
    forall b :: PageBase(address) <= b < end && b % PAGE_SIZE == 0 ==> Mapped(pages, b)
  }
}
