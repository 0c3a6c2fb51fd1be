/** kmem_cache_init of src/slab.c: from a freshly counted zone to the state in which every run starts. */
module SlabInit {
  import opened Bits
  import opened PageAlloc
  import opened PageLedger
  import opened SlabGeometry
  import opened FreeList
  import opened SlabState
  import opened SlabInvariant
  import opened SlabSafety
  import opened SlabRuns
  import opened SlabAllocator
  import opened ListHead
  import opened MemoryInit

  const SMALLEST: nat := 16
  const ALIGN_BITS: nat := 4

  const CACHE_NAMES: seq<string> :=
    ["16bytes", "32bytes", "64bytes", "128bytes", "256bytes", "512bytes", "1024bytes", "2048bytes"]

  /** A zone whose pages belong to no slab and usable caches without slabs satisfy the invariant. */
  lemma NoSlabsIsSound(s: Kmem, reserved: set<nat>)
    requires Shaped(s) && Ledger(s.zone, reserved) && AllListsEmpty(s.lists)
    requires forall c | 0 <= c < |s.caches| && s.caches[c].name.Some? :: CacheOk(s.caches[c])
    requires forall i | 0 <= i < s.zone.pages :: s.zone.memMap[i].slab == 0
    requires s.table.Some? ==> IsHead(s.zone, s.table.value) && s.zone.memMap[s.table.value].private == CACHE_CACHE_PAGE
    ensures Inv(s, reserved)
  {
  }

  /** The first n of the eight caches are in place, the rest of the table is empty. */
  ghost predicate TableUpTo(caches: seq<Cache>, n: nat) {
    && n <= 8 <= |caches|
    && (forall i: nat | i < n :: caches[i] == NewCacheOf(i))
    && (forall i: nat | n <= i < |caches| :: caches[i].name.None?)
  }

  lemma SizesInRange(i: nat)
    requires i < 8
    ensures SMALLEST <= SMALLEST * Pow2(i) <= KMALLOC_MAX_SIZE
  {
    Pow2Monotone(i, 7);
    assert Pow2(7) == 128;
  }

  function NewCacheOf(i: nat): Cache
    requires i < 8
  {
    SizesInRange(i);
    NewCache(Some(CACHE_NAMES[i]), SMALLEST * Pow2(i), Pow2(ALIGN_BITS), 0)
  }

  lemma SizeIsMultiple(i: nat)
    requires i < 8
    ensures RoundedSize(SMALLEST * Pow2(i)) == SMALLEST * Pow2(i) && Rem(SMALLEST * Pow2(i), Pow2(ALIGN_BITS)) == 0
  {
    assert Pow2(3) == 8 && Pow2(4) == 16;
    ProductIsMultiple(Pow2(i), SMALLEST, 16);
    ProductIsMultiple(2 * Pow2(i), 8, 8);
    MaskIsRemainder(SMALLEST * Pow2(i), 3);
    assert Pow2(i) * SMALLEST == SMALLEST * Pow2(i) == 2 * Pow2(i) * 8;
  }

  lemma DefaultLayoutFits(i: nat)
    requires i < 8
    ensures SMALLEST <= SMALLEST * Pow2(i) <= KMALLOC_MAX_SIZE && LayoutFits(SMALLEST * Pow2(i), Pow2(ALIGN_BITS))
  {
    SizesInRange(i);
    SizeIsMultiple(i);
    DivisorFits(SMALLEST * Pow2(i), ALIGN_BITS);
    GeometryFits(SMALLEST * Pow2(i), ALIGN_BITS);
  }

  lemma NamesDiffer(i: nat, j: nat)
    requires i < j < 8
    ensures CACHE_NAMES[i] != CACHE_NAMES[j]
  {
    assert CACHE_NAMES[0][1] == '6' && CACHE_NAMES[1][1] == '2' && CACHE_NAMES[2][1] == '4' && CACHE_NAMES[4][1] == '5';
    assert CACHE_NAMES[3][0] == '1' && CACHE_NAMES[3][1] == '2' && CACHE_NAMES[5][1] == '1' && CACHE_NAMES[5][0] == '5';
    assert CACHE_NAMES[1][0] == '3' && CACHE_NAMES[6][1] == '0' && CACHE_NAMES[7][1] == '0' && CACHE_NAMES[6][0] == '1' && CACHE_NAMES[7][0] == '2';
  }

  /** The scan for a duplicate name passes the caches already there and stops behind them. */
  lemma {:induction false} NameIsNew(caches: seq<Cache>, n: nat, from: nat)
    requires TableUpTo(caches, n) && n < 8 && from <= n
    ensures ScanNames(caches, CACHE_NAMES[n], from) == Entry(n)
    decreases n - from
  {
    if from < n {
      assert caches[from] == NewCacheOf(from);
      NamesDiffer(from, n);
      NameIsNew(caches, n, from + 1);
    }
  }

  /** The eight caches by name and size. */
  lemma DefaultTable(caches: seq<Cache>)
    requires TableUpTo(caches, 8)
    ensures var sizes := [16, 32, 64, 128, 256, 512, 1024, 2048];
            var names := ["16bytes", "32bytes", "64bytes", "128bytes", "256bytes", "512bytes", "1024bytes", "2048bytes"];
            && (forall i | 0 <= i < 8 :: caches[i].name == Some(names[i]) && caches[i].objSize == sizes[i] && caches[i].flag == 0)
            && (forall i | 8 <= i < |caches| :: caches[i].name == None)
  {
    var names := ["16bytes", "32bytes", "64bytes", "128bytes", "256bytes", "512bytes", "1024bytes", "2048bytes"];
    assert names == CACHE_NAMES;
    forall i: nat | i < 8
      ensures caches[i].name == Some(names[i]) && caches[i].flag == 0
      ensures caches[i].objSize == [16, 32, 64, 128, 256, 512, 1024, 2048][i]
    {
      SizeIsMultiple(i);
      DefaultSize(i);
    }
  }

  lemma DefaultSize(i: nat)
    requires i < 8
    ensures SMALLEST * Pow2(i) == [16, 32, 64, 128, 256, 512, 1024, 2048][i]
  {
    assert Pow2(0) == 1 && Pow2(1) == 2 && Pow2(2) == 4 && Pow2(3) == 8;
    assert Pow2(4) == 16 && Pow2(5) == 32 && Pow2(6) == 64 && Pow2(7) == 128;
  }

  /** Their names are pairwise different, so they stay so over every run. */
  lemma TableNamesOk(caches: seq<Cache>)
    requires TableUpTo(caches, 8)
    ensures NamesOk(caches)
  {
    forall i, j | 0 <= i < j < |caches| && caches[j].name.Some?
      ensures caches[i].name.Some? && caches[i].name != caches[j].name
    {
      NamesDiffer(i, j);
    }
  }

  lemma TableIsAscending(caches: seq<Cache>)
    requires TableUpTo(caches, 8)
    ensures Ascending(caches)
  {
    forall i, j | 0 <= i < j < |caches| && caches[i].name.Some? && caches[j].name.Some?
      ensures caches[i].objSize <= caches[j].objSize
    {
      SizeIsMultiple(i);
      SizeIsMultiple(j);
      Pow2Monotone(i, j);
    }
  }

  method FlagTablePages(zone: Zone, page: nat)
    requires page + 2 <= zone.memMap.Length
    modifies zone.memMap
    ensures forall k | 0 <= k < zone.memMap.Length && !(page <= k < page + 2) :: zone.memMap[k] == old(zone.memMap[k])
    ensures forall k | page <= k < page + 2 ::
              zone.memMap[k] == old(zone.memMap[k]).(flags := SetBit(old(zone.memMap[k]).flags, PG_SLAB))
  {
    var pcnt := 2;
    while pcnt > 0
      invariant 0 <= pcnt <= 2
      invariant forall k | 0 <= k < zone.memMap.Length && !(page + pcnt <= k < page + 2) :: zone.memMap[k] == old(zone.memMap[k])
      invariant forall k | page + pcnt <= k < page + 2 ::
                  zone.memMap[k] == old(zone.memMap[k]).(flags := SetBit(old(zone.memMap[k]).flags, PG_SLAB))
    {
      pcnt := pcnt - 1;
      zone.memMap[page + pcnt] := zone.memMap[page + pcnt].(flags := SetBit(zone.memMap[page + pcnt].flags, PG_SLAB));
    }
  }

  /** `z` is a zone after the table's pages were taken and flagged. */
  ghost predicate TableTaken(before: ZoneState, z: ZoneState) {
    && SameLedgerFields(AllocState(before, CACHE_CACHE_PAGE, 0), z)
    && |z.memMap| == |before.memMap|
    && forall i | 0 <= i < |z.memMap| :: z.memMap[i].slab == before.memMap[i].slab && z.memMap[i].virt == before.memMap[i].virt
  }

  /** Pages for the cache table: allocated and flagged; the result is None where the source would go
      on with a bad address. */
  method TakeTablePages(zone: Zone) returns (first: Option<nat>)
    requires zone.Wired()
    modifies zone, zone.memMap
    ensures first == AllocResult(old(zone.View()), CACHE_CACHE_PAGE)
    ensures first.None? ==> zone.View() == old(zone.View())
    ensures first.Some? ==> TableTaken(old(zone.View()), zone.View())
    ensures first.Some? ==> forall k | first.value <= k < first.value + 2 :: k < zone.memMap.Length && BitSet(zone.memMap[k].flags, 7)
  {
    RunFromIsLowest(zone.memMap[..], zone.pages, Pow2(CACHE_CACHE_PAGE), 0);
    assert Pow2(CACHE_CACHE_PAGE) == 2;
    first := PageAlloc.AllocPages(0, CACHE_CACHE_PAGE, zone);
    if first.Some? {
      SetBitSets(zone.memMap[first.value].flags, 7);
      SetBitSets(zone.memMap[first.value + 1].flags, 7);
      FlagTablePages(zone, first.value);
    }
  }

  ghost predicate AllListsEmpty(lists: seq<seq<nat>>) {
    forall c | 0 <= c < |lists| :: lists[c] == []
  }

  /** The memset of the table. */
  method ClearTable(caches: array<Cache>)
    modifies caches
    ensures forall c | 0 <= c < caches.Length :: caches[c] == Cache(None, 0, 0, 0, 0, 0)
  {
    var c := 0;
    while c < caches.Length
      invariant c <= caches.Length && forall d | 0 <= d < c :: caches[d] == Cache(None, 0, 0, 0, 0, 0)
    {
      caches[c] := Cache(None, 0, 0, 0, 0, 0);
      c := c + 1;
    }
  }

  /** Tables without a slab, before or between creations. */
  ghost predicate Empty(a: Allocator)
    reads a, a.Parts()
  {
    a.Wired() && a.Linked() && Shaped(a.View()) && AllListsEmpty(a.lists)
  }

  /** One round of kmem_cache_init's loop. */
  method CreateNth(a: Allocator, n: nat, csize: nat) returns (r: Option<nat>)
    requires n < 8 && csize == SMALLEST * Pow2(n)
    requires Empty(a) && TableUpTo(a.caches[..], n)
    modifies a.caches, a.links.next, a.links.prev
    ensures Empty(a) && TableUpTo(a.caches[..], n + 1) && r == Some(n)
    ensures a.View() == old(a.View()).(caches := a.caches[..])
  {
    ghost var s := a.View();
    SizesInRange(n);
    SizeIsMultiple(n);
    NameIsNew(s.caches, n, 0);
    assert Pow2(ALIGN_BITS) == 16;
    r := a.CreateBody(Some(CACHE_NAMES[n]), csize, 16, 0);
    assert a.caches[..] == s.caches[n := NewCacheOf(n)];
    assert s.lists == s.lists[n := []];
  }

  /** The loop over the eight default caches. */
  method CreateDefaults(a: Allocator)
    requires Empty(a) && TableUpTo(a.caches[..], 0)
    modifies a.caches, a.links.next, a.links.prev
    ensures Empty(a) && TableUpTo(a.caches[..], 8)
    ensures a.View() == old(a.View()).(caches := a.caches[..])
  {
    ghost var s := a.View();
    var csize, n := SMALLEST, 0;
    while n < 8
      invariant n <= 8 && csize == SMALLEST * Pow2(n)
      invariant Empty(a) && TableUpTo(a.caches[..], n) && a.View() == s.(caches := a.caches[..])
    {
      var r := CreateNth(a, n, csize);
      csize := csize * 2;
      n := n + 1;
    }
  }

  /** The state behind kmem_cache_init is sound exactly when its ledger is. */
  lemma DefaultsSoundIff(k: Kmem, reserved: set<nat>)
    requires Shaped(k) && AllListsEmpty(k.lists) && TableUpTo(k.caches, 8)
    requires forall i | 0 <= i < k.zone.pages :: k.zone.memMap[i].slab == 0
    requires k.table.Some? && IsHead(k.zone, k.table.value) && k.zone.memMap[k.table.value].private == CACHE_CACHE_PAGE
    ensures Sound(World(k, map[]), reserved) <==> Ledger(k.zone, reserved)
  {
    TableIsAscending(k.caches);
    TableIsOk(k.caches);
    NothingLive(k);
    if Ledger(k.zone, reserved) {
      NoSlabsIsSound(k, reserved);
    }
  }

  lemma TakenLedgerIff(z: ZoneState, z': ZoneState, reserved: set<nat>)
    requires Ledger(z, reserved) && TableTaken(z, z') && AllocResult(z, CACHE_CACHE_PAGE).Some?
    ensures Ledger(z', reserved) <==> StaysInside(z, CACHE_CACHE_PAGE)
    ensures var t := AllocResult(z, CACHE_CACHE_PAGE).value;
            IsHead(z', t) && z'.memMap[t].private == CACHE_CACHE_PAGE
  {
    var z1 := AllocState(z, CACHE_CACHE_PAGE, 0);
    AllocInTable(z, CACHE_CACHE_PAGE);
    AllocKeepsLedger(z, reserved, CACHE_CACHE_PAGE, 0);
    if Ledger(z', reserved) {
      SameLedger(z', z1, reserved);
    }
    if Ledger(z1, reserved) {
      SameLedger(z1, z', reserved);
    }
  }

  /** kmem_cache_init: all eight creations succeed, the caches ascend from 16 to 2048 bytes, the pages of
      the table are recorded as its own, and nothing is handed out. The state is sound exactly when those
      pages lie inside the zone. */
  method KmemCacheInit(a: Allocator, ghost reserved: set<nat>) returns (ok: bool)
    requires a.Wired() && Shaped(a.View()) && Ledger(a.zone.View(), reserved) && AllListsEmpty(a.lists)
    requires forall i | 0 <= i < a.zone.pages :: a.zone.memMap[i].slab == 0
    requires a.caches.Length == 128
    modifies a`table, a.Parts()
    ensures ok == AllocResult(old(a.zone.View()), CACHE_CACHE_PAGE).Some?
    ensures !ok ==> a.View() == old(a.View())
    ensures ok ==> Empty(a) && TableUpTo(a.caches[..], 8) && a.table == AllocResult(old(a.zone.View()), CACHE_CACHE_PAGE)
    ensures ok ==> (Sound(World(a.View(), map[]), reserved) <==> old(StaysInside(a.zone.View(), CACHE_CACHE_PAGE)))
  {
    ghost var z := a.zone.View();
    var first := TakeTablePages(a.zone);
    if first.None? {
      return false;
    }
    TakenLedgerIff(z, a.zone.View(), reserved);
    a.table := first;
    ClearTable(a.caches);
    CreateDefaults(a);
    DefaultsSoundIff(a.View(), reserved);
    ok := true;
  }

  lemma NothingLive(s: Kmem)
    requires |s.lists| == |s.caches| && AllListsEmpty(s.lists)
    ensures HeldIsLive(World(s, map[]))
  {
    forall p: nat
      ensures !IsSlab(s, p)
    {
    }
  }

  lemma {:induction false} CountFreeGrows(m: seq<Page>, a: nat, n: nat)
    requires a <= n <= |m|
    ensures CountFree(m, a) <= CountFree(m, n)
    decreases n
  {
    if a < n {
      CountFreeGrows(m, a, n - 1);
    }
  }

  lemma {:induction false} FreeBehindFirst(m: seq<Page>, n: nat)
    requires 1 <= n <= |m| && m[0].count > 0 && forall l | 1 <= l < n :: m[l].count == 0
    ensures CountFree(m, n) == n - 1
  {
    if n > 1 {
      FreeBehindFirst(m, n - 1);
    } else {
      assert CountFree(m, 0) == 0;
    }
  }

  /** The pages between the first and the BIOS are free at boot, so the cache table gets two of them. */
  lemma TablePagesFree(z: ZoneState)
    requires 4 <= z.pages <= |z.memMap| && z.freePages == CountFree(z.memMap, z.pages)
    requires forall l | 1 <= l < 4 :: z.memMap[l].count == 0
    requires z.memMap[0].count > 0
    ensures AllocResult(z, CACHE_CACHE_PAGE) == Some(1) && StaysInside(z, CACHE_CACHE_PAGE)
  {
    assert Pow2(CACHE_CACHE_PAGE) == 2;
    CountFreeGrows(z.memMap, 4, z.pages);
    FreeBehindFirst(z.memMap, 4);
    FirstRunUnique(z.memMap, z.pages, 2, Some(1));
  }

  /** mem_map_init and memory_init: page descriptors, list and zone, with the ledger in order. */
  method BootZone(memMap: array<Page>, pageLinks: LinkTable, pages: nat, bootStart: nat, bootIndex: nat) returns (zone: Zone)
    requires KERNEL_END_PAGE <= bootStart <= bootIndex <= pages && pages + MAX_BLOCK <= memMap.Length + 1
    requires pageLinks.Valid() && pages <= pageLinks.next.Length
    modifies memMap, pageLinks.next, pageLinks.prev
    ensures fresh(zone) && zone.memMap == memMap && zone.pages == pages && zone.Wired()
    ensures Ledger(zone.View(), ReservedPages(pages, bootStart, bootIndex))
    ensures AllocResult(zone.View(), CACHE_CACHE_PAGE) == Some(1) && StaysInside(zone.View(), CACHE_CACHE_PAGE)
    ensures forall l | 0 <= l < pages :: memMap[l].slab == old(memMap[l].slab) && memMap[l].virt == Va(l)
  {
    MemMapInit(memMap, pageLinks, pages, bootStart, bootIndex);
    zone := BuildZone(memMap, pageLinks, pages);
    InitialLedger(zone.View(), bootStart, bootIndex);
    TablePagesFree(zone.View());
  }

  /** The slab allocator's tables before kmem_cache_init. */
  method EmptyAllocator(zone: Zone, caches: array<Cache>, hdrs: array<SlabHdr>, mem: array<nat>, links: LinkTable) returns (a: Allocator)
    requires zone.Wired() && links.Valid() && links.next.Length == zone.pages + caches.Length
    requires hdrs.Length == zone.pages && mem.Length == zone.pages * HALVES
    requires mem as object != links.next && mem as object != links.prev
    requires forall i | 0 <= i < zone.pages :: zone.memMap[i].virt == Va(i)
    ensures fresh(a) && a.zone == zone && a.caches == caches && a.hdrs == hdrs && a.mem == mem && a.links == links
    ensures a.Wired() && Shaped(a.View()) && AllListsEmpty(a.lists)
  {
    a := new Allocator(zone, caches, hdrs, mem, links);
  }

  /** Everything from mem_map_init to kmem_cache_init, on cleared memory, with the boot heap behind the
      kernel: it always succeeds, pages 1 and 2 hold the cache table, and the allocator ends in a state
      from which every admissible run is safe. Nothing is asked of the words behind the descriptors. */
  method BootAllocator(memMap: array<Page>, pageLinks: LinkTable, slabLinks: LinkTable, caches: array<Cache>,
                       hdrs: array<SlabHdr>, mem: array<nat>, pages: nat, bootStart: nat, bootIndex: nat)
    returns (a: Allocator, ok: bool)
    requires KERNEL_END_PAGE <= bootStart <= bootIndex <= pages && pages + MAX_BLOCK <= memMap.Length + 1
    requires forall l | 0 <= l < pages :: memMap[l].slab == 0
    requires pageLinks.Valid() && pages <= pageLinks.next.Length
    requires slabLinks.Valid() && slabLinks.next.Length == pages + caches.Length
    requires pageLinks.next != slabLinks.next && pageLinks.next != slabLinks.prev
    requires pageLinks.prev != slabLinks.next && pageLinks.prev != slabLinks.prev
    requires caches.Length == 128 && hdrs.Length == pages && mem.Length == pages * HALVES
    requires mem as object != pageLinks.next && mem as object != pageLinks.prev
    requires mem as object != slabLinks.next && mem as object != slabLinks.prev
    modifies memMap, pageLinks.next, pageLinks.prev, slabLinks.next, slabLinks.prev, caches, hdrs, mem
    ensures fresh(a) && a.zone.memMap == memMap && a.caches == caches && a.table == Some(1)
    ensures ok && a.Valid(ReservedPages(pages, bootStart, bootIndex)) && TableUpTo(caches[..], 8)
    ensures Sound(World(a.View(), map[]), ReservedPages(pages, bootStart, bootIndex))
    ensures forall l: nat | l < pages && MeetsBootRanges(l, bootStart, bootIndex) ::
              memMap[l].count > 0 && l in ReservedPages(pages, bootStart, bootIndex)
  {
    var zone := BootZone(memMap, pageLinks, pages, bootStart, bootIndex);
    a := EmptyAllocator(zone, caches, hdrs, mem, slabLinks);
    ghost var reserved := ReservedPages(pages, bootStart, bootIndex);
    ok := KmemCacheInit(a, reserved);
    RangesAreReserved(a.View(), pages, bootStart, bootIndex);
  }

  lemma RangesAreReserved(k: Kmem, pages: nat, bootStart: nat, bootIndex: nat)
    requires Ledger(k.zone, ReservedPages(pages, bootStart, bootIndex)) && k.zone.pages == pages
    ensures forall l: nat | l < pages && MeetsBootRanges(l, bootStart, bootIndex) ::
              k.zone.memMap[l].count > 0 && l in ReservedPages(pages, bootStart, bootIndex)
  {
    forall l: nat | l < pages && MeetsBootRanges(l, bootStart, bootIndex)
      ensures l in ReservedPages(pages, bootStart, bootIndex)
    {
      BusyIffMeets(l, bootStart, bootIndex);
    }
  }

  lemma SlabOffBoot(k: Kmem, pages: nat, bootStart: nat, bootIndex: nat, p: nat, n: nat)
    requires KERNEL_END_PAGE <= bootStart <= bootIndex <= pages
    requires Inv(k, ReservedPages(pages, bootStart, bootIndex)) && IsSlab(k, p) && n == Pow2(CacheOf(k, p).gfpOrder)
    ensures OffBootRanges(Va(p), Va(p + n), bootStart, bootIndex)
  {
    var reserved := ReservedPages(pages, bootStart, bootIndex);
    SlabPagesClear(k, reserved, p);
    forall r | r in reserved
      ensures Apart(r, p, p + n)
    {
    }
    PagesOffBoot(p, p + n, pages, bootStart, bootIndex);
  }

  lemma InsideIsOff(from: nat, to: nat, a: nat, b: nat, bootStart: nat, bootIndex: nat)
    requires OffBootRanges(from, to, bootStart, bootIndex) && from <= a && b <= to
    ensures OffBootRanges(a, b, bootStart, bootIndex)
  {
  }

  lemma HeldOffBoot(w: World, pages: nat, bootStart: nat, bootIndex: nat, a: nat)
    requires KERNEL_END_PAGE <= bootStart <= bootIndex <= pages
    requires Sound(w, ReservedPages(pages, bootStart, bootIndex)) && a in w.held
    ensures OffBootRanges(a, a + w.held[a], bootStart, bootIndex)
  {
    var p, i := HomePage(w.k, a), HomeIndex(w.k, a);
    HeldHome(w, ReservedPages(pages, bootStart, bootIndex), a);
    var n := Pow2(CacheOf(w.k, p).gfpOrder);
    ObjectEnds(w.k, p, i);
    SlabOffBoot(w.k, pages, bootStart, bootIndex, p, n);
    InsideIsOff(Va(p), Va(p + n), a, a + w.held[a], bootStart, bootIndex);
  }

  /** In every state that a run reaches from there, what callers hold and the pages of every slab are off
      BIOS data, BIOS, video memory, kernel image and boot heap. */
  lemma RunsOffBoot(w: World, ops: seq<Op>, w': World, pages: nat, bootStart: nat, bootIndex: nat, a: nat, q: nat)
    requires KERNEL_END_PAGE <= bootStart <= bootIndex <= pages
    requires Sound(w, ReservedPages(pages, bootStart, bootIndex)) && Reaches(w, ops, w')
    ensures a in w'.held ==> OffBootRanges(a, a + w'.held[a], bootStart, bootIndex)
    ensures IsSlab(w'.k, q) ==> OffBootRanges(Va(q), Va(q + Pow2(CacheOf(w'.k, q).gfpOrder)), bootStart, bootIndex)
  {
    RunKeepsSound(w, ops, w', ReservedPages(pages, bootStart, bootIndex));
    if a in w'.held {
      HeldOffBoot(w', pages, bootStart, bootIndex, a);
    }
    if IsSlab(w'.k, q) {
      SlabOffBoot(w'.k, pages, bootStart, bootIndex, q, Pow2(CacheOf(w'.k, q).gfpOrder));
    }
  }

  // ---------------------------------------------------------------- memory runs out

  /** The eight caches after boot without a slab, their table in pages 1 and 2, in a zone of n pages none
      of which is free. */
  function Exhausted(caches: seq<Cache>, n: nat): Kmem {
    Kmem(ZoneState(seq(n + MAX_BLOCK, i requires i >= 0 => Page(i, 1, 0, if i == 1 then CACHE_CACHE_PAGE else NO_ORDER, Va(i), 0)), n, 0),
         caches, seq(n, _ => SlabHdr(0, 0, 0, 0, 0, 0)), seq(n * HALVES, _ => 0), seq(|caches|, _ => []), Some(1))
  }

  /** All pages but the cache table's. */
  ghost function TheOthers(n: nat): (s: set<nat>)
    requires n >= 3
    ensures |s| == n - 2 && forall i: nat :: i in s <==> i < n && i != 1 && i != 2
  {
    assert |Below(n) - {1}| == n - 1;
    Below(n) - {1} - {2}
  }

  lemma {:induction false} NothingFree(caches: seq<Cache>, n: nat, k: nat)
    requires k <= n
    ensures CountFree(Exhausted(caches, n).zone.memMap, k) == 0
    ensures BlockPages(Exhausted(caches, n).zone.memMap, k) == if k <= 1 then 0 else 2
    decreases k
  {
    assert Pow2(1) == 2;
    if k > 0 {
      NothingFree(caches, n, k - 1);
    }
  }

  lemma TableIsOk(caches: seq<Cache>)
    requires TableUpTo(caches, 8)
    ensures forall c | 0 <= c < |caches| && caches[c].name.Some? :: CacheOk(caches[c])
  {
    forall c | 0 <= c < |caches| && caches[c].name.Some?
      ensures CacheOk(caches[c])
    {
      DefaultLayoutFits(c);
      NewCacheOkIff(Some(CACHE_NAMES[c]), SMALLEST * Pow2(c), Pow2(ALIGN_BITS), 0);
    }
  }

  lemma ExhaustedLedger(caches: seq<Cache>, n: nat)
    requires n >= 3
    ensures Ledger(Exhausted(caches, n).zone, TheOthers(n))
  {
    var z := Exhausted(caches, n).zone;
    NothingFree(caches, n, n);
    assert Pow2(1) == 2;
    assert forall h: nat :: IsHead(z, h) <==> h == 1;
    assert BlockOk(z, 1);
    forall i: nat
      ensures Owned(z, i) <==> i == 1 || i == 2
    {
      assert InBlock(z, 1, i) <==> i == 1 || i == 2;
    }
  }

  lemma ExhaustedShape(caches: seq<Cache>, n: nat)
    ensures var s := Exhausted(caches, n);
            Shaped(s) && s.zone.freePages == 0 && AllListsEmpty(s.lists)
  {
  }

  lemma ExhaustedIsSound(caches: seq<Cache>, n: nat)
    requires TableUpTo(caches, 8) && n >= 3
    ensures Sound(World(Exhausted(caches, n), map[]), TheOthers(n))
  {
    ExhaustedLedger(caches, n);
    ExhaustedShape(caches, n);
    DefaultsSoundIff(Exhausted(caches, n), TheOthers(n));
  }

  lemma {:induction false} NobodyServes(s: Kmem, c: nat)
    requires Shaped(s) && s.zone.freePages == 0 && AllListsEmpty(s.lists)
    ensures FirstServing(s, c).None?
    decreases |s.caches| - c
  {
    if c < |s.caches| && s.caches[c].name.Some? {
      NobodyServes(s, c + 1);
    }
  }

  /** Running out of memory is Fault and not NULL: a sound state in which every request up to 2048 bytes
      walks off the used part of the table. */
  lemma ExhaustionFaults(caches: seq<Cache>, n: nat, size: nat, flags: nat)
    requires TableUpTo(caches, 8) && n >= 3 && size <= KMALLOC_MAX_SIZE
    ensures Sound(World(Exhausted(caches, n), map[]), TheOthers(n))
    ensures Shaped(Exhausted(caches, n)) && Kmalloc(Exhausted(caches, n), size, flags).1 == Fault
  {
    var s := Exhausted(caches, n);
    ExhaustedIsSound(caches, n);
    ExhaustedShape(caches, n);
    KmallocOutcome(s, TheOthers(n), size, flags);
    NobodyServes(s, FindCache(caches, size, 0));
    UsedEndIs(caches, 0, 8);
    assert caches[7].objSize == KMALLOC_MAX_SIZE by {
      assert Pow2(7) == 128;
      SizeIsMultiple(7);
    }
  }
}
