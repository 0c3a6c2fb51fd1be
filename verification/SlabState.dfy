/** src/slab.c as functions on the allocator's whole state: the specification of every operation. */
module SlabState {
  import opened Bits
  import opened PageAlloc
  import opened SlabGeometry

  const PAGE_OFFSET: nat := 0xFFFF_8000_0000_0000
  const HALVES: nat := PAGE_SIZE / SIZEOF_BUFCTL
  const PG_SLAB: nat := 7
  const KMALLOC_RETRY_MAX: nat := 3

  /** struct kmem_cache; an entry without a name is unused. */
  datatype Cache = Cache(name: Option<string>, objSize: nat, flag: nat, num: nat, gfpOrder: nat, colourOff: nat)

  /** struct slab, without its list links. `bufctl` and `sMem` are addresses. */
  datatype SlabHdr = SlabHdr(cache: nat, sMem: nat, inuse: nat, free: nat, offset: nat, bufctl: nat)

  /** The zone; the cache table; the slab header at the start of each page; physical memory as
      16-bit words; for each cache, the pages of its slabs in list order; and the first of the pages
      that hold the cache table, once kmem_cache_init has them. */
  datatype Kmem = Kmem(zone: ZoneState, caches: seq<Cache>, hdrs: seq<SlabHdr>, mem: seq<nat>, lists: seq<seq<nat>>,
                       table: Option<nat>)

  /** Order of the block that holds the cache table. */
  const CACHE_CACHE_PAGE: nat := 1

  /** What caos_kmalloc does: an address, NULL, or a walk off the used part of the cache table. */
  datatype Outcome = Got(addr: nat) | Null | Fault

  // ---------------------------------------------------------------- addresses

  /** page_to_virt */
  function Va(page: nat): nat {
    PAGE_OFFSET + page * PAGE_SIZE
  }

  /** virt_to_page: the subtraction of __pa wraps. */
  function PageOf(addr: nat): nat {
    (if addr >= PAGE_OFFSET then addr - PAGE_OFFSET else addr + WORD - PAGE_OFFSET) / PAGE_SIZE
  }

  /** Position of an address in memory counted in 16-bit words. */
  function HalfOf(addr: nat): nat {
    (if addr >= PAGE_OFFSET then addr - PAGE_OFFSET else addr + WORD - PAGE_OFFSET) / SIZEOF_BUFCTL
  }

  function Sub64(x: nat, y: nat): nat {
    if x >= y then x - y else if x + WORD >= y then x + WORD - y else 0
  }

  function Peek(mem: seq<nat>, at: nat): nat {
    if at < |mem| then mem[at] else 0
  }

  function Poke(mem: seq<nat>, at: nat, v: nat): (r: seq<nat>)
    ensures |r| == |mem|
  {
    if at < |mem| then mem[at := v % 0x10000] else mem
  }

  // ---------------------------------------------------------------- state shape

  /** What mem_map_init and the sizes of the tables fix once and for all. */
  ghost predicate Shaped(s: Kmem) {
    && s.zone.pages + MAX_BLOCK <= |s.zone.memMap| + 1
    && |s.hdrs| == s.zone.pages
    && |s.mem| == s.zone.pages * HALVES
    && |s.lists| == |s.caches|
    && (forall i | 0 <= i < s.zone.pages :: s.zone.memMap[i].virt == Va(i))
    && (forall c: nat, k: nat | c < |s.lists| && k < |s.lists[c]| :: s.lists[c][k] < s.zone.pages)
  }

  // ---------------------------------------------------------------- pages of a slab

  function MarkPages(m: seq<Page>, first: nat, n: nat, slab: nat): (r: seq<Page>)
    ensures |r| == |m|
  {
    seq(|m|, i requires 0 <= i < |m| =>
      if first <= i < first + n then m[i].(flags := SetBit(m[i].flags, PG_SLAB), slab := slab) else m[i])
  }

  function UnmarkPages(m: seq<Page>, first: nat, n: nat): (r: seq<Page>)
    ensures |r| == |m|
  {
    seq(|m|, i requires 0 <= i < |m| =>
      if first <= i < first + n then m[i].(flags := ClearBit(m[i].flags, PG_SLAB), slab := 0) else m[i])
  }

  /** kmem_getpages */
  function GetPages(z: ZoneState, order: nat, flags: nat): ZoneState
    requires z.pages <= |z.memMap|
  {
    match AllocResult(z, order)
    case None => z
    case Some(p) =>
      var z' := AllocState(z, order, flags);
      AllocInTable(z, order);
      z'.(memMap := MarkPages(z'.memMap, p, Pow2(order), z'.memMap[p].virt))
  }

  lemma AllocInTable(z: ZoneState, order: nat)
    ensures AllocResult(z, order).Some? ==> order <= MAX_PAGE_ORDER && AllocResult(z, order).value < z.pages
  {
    RunFromIsLowest(z.memMap, z.pages, Pow2(order), 0);
  }

  /** kmem_freepages, on the page number of its address. */
  function FreeSlabPages(z: ZoneState, order: nat, page: nat): ZoneState
    requires page < z.pages && z.pages + MAX_BLOCK <= |z.memMap| + 1
  {
    if z.memMap[page].private != order then z
    else FreeState(z.(memMap := UnmarkPages(z.memMap, page, Pow2(order))), page, order)
  }

  // ---------------------------------------------------------------- grow

  function FillBufctl(mem: seq<nat>, at: nat, num: nat): (r: seq<nat>)
    ensures |r| == |mem|
  {
    seq(|mem|, j requires 0 <= j < |mem| =>
      if at <= j < at + num then (if j + 1 == at + num then BUFCTL_END else (j - at + 1) % 0x10000) else mem[j])
  }

  function NewHeader(c: nat, cache: Cache, base: nat): SlabHdr {
    SlabHdr(c, base + cache.colourOff, 0, 0, cache.colourOff, base + SIZEOF_SLAB)
  }

  /** kmem_cache_grow: a new slab becomes the first of its cache. */
  function Grow(s: Kmem, c: nat, flags: nat): Kmem
    requires Shaped(s) && c < |s.caches|
  {
    var cache := s.caches[c];
    match AllocResult(s.zone, cache.gfpOrder)
    case None => s
    case Some(p) =>
      AllocInTable(s.zone, cache.gfpOrder);
      s.(zone := GetPages(s.zone, cache.gfpOrder, flags),
         hdrs := s.hdrs[p := NewHeader(c, cache, Va(p))],
         mem := FillBufctl(s.mem, HalfOf(Va(p) + SIZEOF_SLAB), cache.num),
         lists := s.lists[c := [p] + s.lists[c]])
  }

  lemma GrowShaped(s: Kmem, c: nat, flags: nat)
    requires Shaped(s) && c < |s.caches|
    ensures Shaped(Grow(s, c, flags)) && |Grow(s, c, flags).caches| == |s.caches| && Grow(s, c, flags).caches == s.caches
  {
    AllocInTable(s.zone, s.caches[c].gfpOrder);
  }

  // ---------------------------------------------------------------- kmalloc

  /** The scan of the cache table: index of the first cache large enough, of the first unused
      entry, or of the table's end. */
  function FindCache(caches: seq<Cache>, size: nat, from: nat): (c: nat)
    requires from <= |caches|
    ensures from <= c <= |caches|
    decreases |caches| - from
  {
    if from == |caches| || caches[from].name.None? || size <= caches[from].objSize then from
    else FindCache(caches, size, from + 1)
  }

  predicate Usable(h: SlabHdr, cache: Cache) {
    h.free != BUFCTL_END && h.inuse < cache.num
  }

  /** Position in the cache's list of the first slab with a free object, or the list's length. */
  function FindSlab(s: Kmem, c: nat, from: nat): (k: nat)
    requires Shaped(s) && c < |s.caches| && from <= |s.lists[c]|
    ensures from <= k <= |s.lists[c]|
    decreases |s.lists[c]| - from
  {
    if from == |s.lists[c]| || Usable(s.hdrs[s.lists[c][from]], s.caches[c]) then from
    else FindSlab(s, c, from + 1)
  }

  /** Takes the first free object of the slab at page p. */
  function Take(s: Kmem, c: nat, p: nat): (Kmem, nat)
    requires c < |s.caches| && p < |s.hdrs|
  {
    var h := s.hdrs[p];
    var h' := h.(inuse := h.inuse + 1, free := Peek(s.mem, HalfOf(h.bufctl) + h.free));
    (s.(hdrs := s.hdrs[p := h']), h.sMem + h.free * s.caches[c].objSize)
  }

  /** The code from the label `retry` on. */
  function KmallocFrom(s: Kmem, c: nat, retry: nat, flags: nat): (Kmem, Outcome)
    requires Shaped(s)
    decreases |s.caches| - c, if retry == 0 then 1 else 0
  {
    if c >= |s.caches| || s.caches[c].name.None? then (s, Fault)
    else if retry > KMALLOC_RETRY_MAX then (s, Null)
    else
      var k := FindSlab(s, c, 0);
      if k < |s.lists[c]| then
        var (s', addr) := Take(s, c, s.lists[c][k]);
        (s', Got(addr))
      else
        GrowShaped(s, c, flags);
        var s' := Grow(s, c, flags);
        if retry + 1 > 1 then KmallocFrom(s', c + 1, 0, flags) else KmallocFrom(s', c, retry + 1, flags)
  }

  function Kmalloc(s: Kmem, size: nat, flags: nat): (Kmem, Outcome)
    requires Shaped(s)
  {
    var c := FindCache(s.caches, size, 0);
    if c == |s.caches| || s.caches[c].name.None? then (s, Null) else KmallocFrom(s, c, 0, flags)
  }

  // ---------------------------------------------------------------- kfree

  /** caos_kfree; an address behind the page table is outside the model's memory. */
  function Kfree(s: Kmem, addr: nat): Kmem
    requires Shaped(s) && PageOf(addr) < s.zone.pages
  {
    var slab := s.zone.memMap[PageOf(addr)].slab;
    if slab == 0 || PageOf(slab) >= s.zone.pages then s
    else
      var h := s.hdrs[PageOf(slab)];
      if h.cache >= |s.caches| || s.caches[h.cache].objSize == 0 || h.inuse == 0 then s
      else
        var i := Quot(Sub64(addr, h.sMem), s.caches[h.cache].objSize);
        s.(hdrs := s.hdrs[PageOf(slab) := h.(free := i, inuse := h.inuse - 1)],
           mem := Poke(s.mem, HalfOf(h.bufctl) + i, h.free))
  }

  // ---------------------------------------------------------------- shrink

  function FindIdle(s: Kmem, c: nat, from: nat): (k: nat)
    requires Shaped(s) && c < |s.caches| && from <= |s.lists[c]|
    ensures from <= k <= |s.lists[c]|
    decreases |s.lists[c]| - from
  {
    if from == |s.lists[c]| || s.hdrs[s.lists[c][from]].inuse == 0 then from else FindIdle(s, c, from + 1)
  }

  /** kmem_cache_shrink with slab_destroy: gives up the first slab none of whose objects is in use. */
  function Shrink(s: Kmem, c: nat): Kmem
    requires Shaped(s) && c < |s.caches|
  {
    var k := FindIdle(s, c, 0);
    if k == |s.lists[c]| then s
    else
      var h := s.hdrs[s.lists[c][k]];
      var page := PageOf(Sub64(h.sMem, h.offset));
      s.(zone := if page < s.zone.pages then FreeSlabPages(s.zone, s.caches[c].gfpOrder, page) else s.zone,
         lists := s.lists[c := s.lists[c][..k] + s.lists[c][k + 1..]])
  }

  // ---------------------------------------------------------------- new caches

  datatype Scan = Duplicate | Full | Entry(index: nat)

  function ScanNames(caches: seq<Cache>, name: string, from: nat): (r: Scan)
    requires from <= |caches|
    ensures r.Entry? ==> r.index < |caches| && caches[r.index].name.None?
    decreases |caches| - from
  {
    if from == |caches| then Full
    else if caches[from].name.None? then Entry(from)
    else if caches[from].name.value == name then Duplicate
    else ScanNames(caches, name, from + 1)
  }

  /** kmem_cache_create: None stands for NULL. */
  function CreateResult(s: Kmem, name: Option<string>, size: nat): Option<nat> {
    if name.None? || size < BYTES_PER_LONG || size > KMALLOC_MAX_SIZE then None
    else match ScanNames(s.caches, name.value, 0)
      case Entry(i) => Some(i)
      case _ => None
  }

  function NewCache(name: Option<string>, size: nat, align: nat, flags: nat): Cache
    requires BYTES_PER_LONG <= size <= KMALLOC_MAX_SIZE
  {
    var g := GeometryOf(size, align);
    ObjectCount(size, align);
    Cache(name, g.objSize, flags, g.num, g.gfpOrder, g.colourOff)
  }

  function Create(s: Kmem, name: Option<string>, size: nat, align: nat, flags: nat): Kmem
    requires Shaped(s)
  {
    match CreateResult(s, name, size)
    case None => s
    case Some(i) => s.(caches := s.caches[i := NewCache(name, size, align, flags)], lists := s.lists[i := []])
  }
}
