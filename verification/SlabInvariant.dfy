/** The invariant that ties the page ledger, the page-to-slab pointers, the cache lists and the
    free lists together, and its preservation by every operation of src/slab.c. */
module SlabInvariant {
  import opened Bits
  import opened PageAlloc
  import opened PageLedger
  import opened SlabGeometry
  import opened FreeList
  import opened SlabState

  /** Where the index array of a slab at page p starts, counted in 16-bit words. */
  function IndexStart(p: nat): nat {
    p * HALVES + SIZEOF_SLAB / SIZEOF_BUFCTL
  }

  /** A used cache has a layout that fits its pages. */
  predicate CacheOk(c: Cache) {
    && c.gfpOrder <= MAX_PAGE_ORDER
    && c.objSize >= BYTES_PER_LONG
    && 1 <= c.num < BUFCTL_END
    && SIZEOF_SLAB + SIZEOF_BUFCTL * c.num <= c.colourOff
    && SIZEOF_SLAB + SIZEOF_BUFCTL * c.num <= PAGE_SIZE
    && c.colourOff + c.num * c.objSize <= SlabBytes(c.gfpOrder)
  }

  /** Page p is the first page of a slab on a cache's list. */
  predicate IsSlab(s: Kmem, p: nat) {
    p < |s.hdrs| && s.hdrs[p].cache < |s.caches| && |s.caches| == |s.lists| && p in s.lists[s.hdrs[p].cache]
  }

  function CacheOf(s: Kmem, p: nat): Cache
    requires IsSlab(s, p)
  {
    s.caches[s.hdrs[p].cache]
  }

  predicate IndexInMemory(s: Kmem, p: nat)
    requires IsSlab(s, p)
  {
    IndexStart(p) + CacheOf(s, p).num <= |s.mem|
  }

  /** The free list of the slab at p, read from memory. */
  function ListOf(s: Kmem, p: nat): SlabList
    requires IsSlab(s, p) && IndexInMemory(s, p)
  {
    SlabList(s.mem[IndexStart(p)..IndexStart(p) + CacheOf(s, p).num], s.hdrs[p].free, s.hdrs[p].inuse)
  }

  /** Page p heads a block of that order, all of whose pages point back to the slab at p. */
  ghost predicate PagesOk(z: ZoneState, p: nat, order: nat) {
    && IsHead(z, p)
    && z.memMap[p].private == order
    && p + Pow2(order) <= z.pages
    && forall i | p <= i < p + Pow2(order) :: z.memMap[i].slab == Va(p)
  }

  predicate HeaderOk(h: SlabHdr, cache: Cache, p: nat) {
    h.sMem == Va(p) + cache.colourOff && h.offset == cache.colourOff && h.bufctl == Va(p) + SIZEOF_SLAB
  }

  ghost predicate SlabOk(s: Kmem, p: nat)
    requires IsSlab(s, p)
  {
    && CacheOf(s, p).name.Some?
    && PagesOk(s.zone, p, CacheOf(s, p).gfpOrder)
    && HeaderOk(s.hdrs[p], CacheOf(s, p), p)
    && IndexInMemory(s, p)
    && Good(ListOf(s, p))
  }

  ghost predicate ListsOk(s: Kmem) {
    && |s.lists| == |s.caches|
    && (forall c | 0 <= c < |s.caches| && s.caches[c].name.Some? :: CacheOk(s.caches[c]))
    && (forall c | 0 <= c < |s.caches| && s.caches[c].name.None? :: s.lists[c] == [])
    && (forall c: nat, p: nat {:trigger p in s.lists[c]} | c < |s.lists| && p in s.lists[c] :: p < |s.hdrs| && s.hdrs[p].cache == c)
    && (forall c | 0 <= c < |s.lists| :: NoDuplicates(s.lists[c]))
  }

  ghost predicate SlabsOk(s: Kmem) {
    forall p: nat {:trigger SlabOk(s, p)} | IsSlab(s, p) :: SlabOk(s, p)
  }

  /** A page with a slab pointer belongs to the block of a slab on some list. */
  ghost predicate PointersOk(s: Kmem) {
    && s.zone.pages <= |s.zone.memMap|
    && forall i: nat {:trigger PointerOk(s, i)} | i < s.zone.pages && s.zone.memMap[i].slab != 0 :: PointerOk(s, i)
  }

  predicate PointerOk(s: Kmem, i: nat)
    requires i < |s.zone.memMap|
  {
    var p := PageOf(s.zone.memMap[i].slab);
    IsSlab(s, p) && InBlock(s.zone, p, i)
  }

  /** The cache table's pages are an outstanding block, and no slab. */
  predicate TableOk(s: Kmem) {
    s.table.Some? ==>
      && IsHead(s.zone, s.table.value)
      && s.zone.memMap[s.table.value].private == CACHE_CACHE_PAGE
      && !IsSlab(s, s.table.value)
  }

  ghost predicate Inv(s: Kmem, reserved: set<nat>) {
    Shaped(s) && Ledger(s.zone, reserved) && ListsOk(s) && SlabsOk(s) && PointersOk(s) && TableOk(s)
  }

  // ---------------------------------------------------------------- address arithmetic

  lemma PageOfOffset(p: nat, off: nat)
    ensures PageOf(Va(p) + off) == p + off / PAGE_SIZE
  {
    assert (p * PAGE_SIZE + off) / PAGE_SIZE == p + off / PAGE_SIZE;
  }

  lemma HalfOfOffset(p: nat, off: nat)
    ensures HalfOf(Va(p) + off) == p * HALVES + off / SIZEOF_BUFCTL
  {
    assert (p * PAGE_SIZE + off) / SIZEOF_BUFCTL == p * HALVES + off / SIZEOF_BUFCTL;
  }

  /** A cache's index array ends inside its pages. */
  lemma IndexRoom(c: Cache)
    requires CacheOk(c)
    ensures SIZEOF_SLAB + SIZEOF_BUFCTL * c.num <= c.colourOff <= Pow2(c.gfpOrder) * PAGE_SIZE
  {
    assert c.num * c.objSize >= 0;
  }

  lemma IndexInsideBlock(p: nat, num: nat, n: nat, q: nat)
    requires SIZEOF_SLAB + SIZEOF_BUFCTL * num <= n * PAGE_SIZE && p + n <= q
    ensures IndexStart(p) + num <= q * HALVES <= IndexStart(q)
  {
    var spare := q - p - n;
    assert SIZEOF_SLAB / SIZEOF_BUFCTL + num <= n * HALVES;
    assert q * HALVES == p * HALVES + n * HALVES + spare * HALVES;
  }

  // ---------------------------------------------------------------- the ledger looks at counts only

  predicate SameLedgerFields(z: ZoneState, z': ZoneState) {
    && z.pages == z'.pages && z.freePages == z'.freePages && |z.memMap| == |z'.memMap|
    && forall i | 0 <= i < |z.memMap| :: z.memMap[i].count == z'.memMap[i].count && z.memMap[i].private == z'.memMap[i].private
  }

  lemma SameOwned(z: ZoneState, z': ZoneState, i: nat)
    requires SameLedgerFields(z, z')
    ensures Owned(z, i) <==> Owned(z', i)
  {
    if Owned(z, i) {
      var h: nat :| InBlock(z, h, i);
      assert InBlock(z', h, i);
    }
    if Owned(z', i) {
      var h: nat :| InBlock(z', h, i);
      assert InBlock(z, h, i);
    }
  }

  lemma {:induction false} SameBlockPages(m: seq<Page>, m': seq<Page>, n: nat)
    requires n <= |m| == |m'| && forall i | 0 <= i < n :: m[i].private == m'[i].private
    ensures BlockPages(m, n) == BlockPages(m', n)
  {
    if n > 0 {
      SameBlockPages(m, m', n - 1);
    }
  }

  lemma SameLedger(z: ZoneState, z': ZoneState, reserved: set<nat>)
    requires Ledger(z, reserved) && SameLedgerFields(z, z')
    ensures Ledger(z', reserved)
  {
    assert BlocksDisjoint(z') by {
      forall h: nat | IsHead(z', h)
        ensures IsHead(z, h) && BlockOk(z', h) && BlockSize(z', h) == BlockSize(z, h)
      {
        assert BlockOk(z, h);
      }
    }
    assert Accounted(z', reserved) by {
      forall i: nat
        ensures Owned(z, i) <==> Owned(z', i)
      {
        SameOwned(z, z', i);
      }
    }
    CountFreeSame(z.memMap, z'.memMap, z.pages);
    SameBlockPages(z.memMap, z'.memMap, z.pages);
  }

  // ---------------------------------------------------------------- frames

  /** A slab whose header, index array, pages and cache were not written is still sound. */
  lemma SlabOkFrame(s: Kmem, s': Kmem, p: nat)
    requires IsSlab(s, p) && SlabOk(s, p) && IsSlab(s', p)
    requires s'.hdrs[p] == s.hdrs[p] && CacheOf(s', p) == CacheOf(s, p)
    requires |s'.mem| == |s.mem|
    requires forall j | IndexStart(p) <= j < IndexStart(p) + CacheOf(s, p).num :: s'.mem[j] == s.mem[j]
    requires PagesOk(s'.zone, p, CacheOf(s, p).gfpOrder)
    ensures SlabOk(s', p) && ListOf(s', p) == ListOf(s, p)
  {
    assert ListOf(s', p).bufctl == ListOf(s, p).bufctl;
  }

  lemma PagesApart(z: ZoneState, p: nat, o: nat, q: nat, u: nat)
    requires BlocksDisjoint(z) && PagesOk(z, p, o) && PagesOk(z, q, u) && p != q
    ensures p + Pow2(o) <= q || q + Pow2(u) <= p
  {
    assert BlockSize(z, p) == Pow2(o) && BlockSize(z, q) == Pow2(u);
  }

  /** Index arrays in disjoint blocks do not meet. */
  lemma IndexArraysApart(c: Cache, d: Cache, p: nat, q: nat)
    requires CacheOk(c) && CacheOk(d)
    requires p + Pow2(c.gfpOrder) <= q || q + Pow2(d.gfpOrder) <= p
    ensures IndexStart(p) + c.num <= IndexStart(q) || IndexStart(q) + d.num <= IndexStart(p)
  {
    IndexRoom(c);
    IndexRoom(d);
    if p + Pow2(c.gfpOrder) <= q {
      IndexInsideBlock(p, c.num, Pow2(c.gfpOrder), q);
    } else {
      IndexInsideBlock(q, d.num, Pow2(d.gfpOrder), p);
    }
  }

  // ---------------------------------------------------------------- the zone changes, the slabs do not

  lemma NewZoneKeepsSlabs(s: Kmem, z': ZoneState)
    requires SlabsOk(s)
    requires forall p: nat | IsSlab(s, p) && SlabOk(s, p) :: PagesOk(z', p, CacheOf(s, p).gfpOrder)
    ensures SlabsOk(s.(zone := z'))
  {
    var s' := s.(zone := z');
    forall p: nat | IsSlab(s', p)
      ensures SlabOk(s', p)
    {
      assert IsSlab(s, p) && SlabOk(s, p);
      SlabOkFrame(s, s', p);
    }
  }

  lemma ClaimKeepsPages(z: ZoneState, reserved: set<nat>, h: nat, order: nat, flags: nat, p: nat, o: nat)
    requires BlocksDisjoint(z) && Claimable(z, reserved, h, order) && PagesOk(z, p, o)
    ensures PagesOk(Claim(z, h, order, flags), p, o)
    ensures p != h && (p + Pow2(o) <= h || h + Pow2(order) <= p)
  {
    assert BlockOk(z, p);
    ClaimHeads(z, reserved, h, order, flags, p);
  }

  lemma ClaimKeepsPointers(s: Kmem, reserved: set<nat>, h: nat, order: nat, flags: nat)
    requires BlocksDisjoint(s.zone) && Claimable(s.zone, reserved, h, order) && PointersOk(s)
    ensures PointersOk(s.(zone := Claim(s.zone, h, order, flags)))
  {
    var s' := s.(zone := Claim(s.zone, h, order, flags));
    forall i: nat | i < s'.zone.pages && s'.zone.memMap[i].slab != 0
      ensures PointerOk(s', i)
    {
      assert PointerOk(s, i);
      var p := PageOf(s.zone.memMap[i].slab);
      assert BlockOk(s.zone, p);
      ClaimHeads(s.zone, reserved, h, order, flags, p);
    }
  }

  lemma ClaimKeepsSlabs(s: Kmem, reserved: set<nat>, h: nat, order: nat, flags: nat)
    requires BlocksDisjoint(s.zone) && Claimable(s.zone, reserved, h, order) && SlabsOk(s)
    ensures SlabsOk(s.(zone := Claim(s.zone, h, order, flags)))
  {
    var z' := Claim(s.zone, h, order, flags);
    forall p: nat | IsSlab(s, p) && SlabOk(s, p)
      ensures PagesOk(z', p, CacheOf(s, p).gfpOrder)
    {
      ClaimKeepsPages(s.zone, reserved, h, order, flags, p, CacheOf(s, p).gfpOrder);
    }
    NewZoneKeepsSlabs(s, z');
  }

  lemma BlockOffSlabs(s: Kmem, order: nat)
    requires BlocksDisjoint(s.zone) && AllocResult(s.zone, order).Some?
    ensures forall p: nat, i: nat | IsSlab(s, p) && InBlock(s.zone, p, i) ::
              !(AllocResult(s.zone, order).value <= i < AllocResult(s.zone, order).value + Pow2(order))
  {
    RunFromIsLowest(s.zone.memMap, s.zone.pages, Pow2(order), 0);
    forall p: nat, i: nat | IsSlab(s, p) && InBlock(s.zone, p, i)
      ensures i < |s.zone.memMap| && s.zone.memMap[i].count == 1
    {
      assert BlockOk(s.zone, p);
    }
  }

  lemma ClaimKeepsTable(s: Kmem, reserved: set<nat>, h: nat, order: nat, flags: nat)
    requires BlocksDisjoint(s.zone) && Claimable(s.zone, reserved, h, order) && TableOk(s)
    ensures TableOk(s.(zone := Claim(s.zone, h, order, flags)))
    ensures s.table != Some(h)
  {
    if s.table.Some? {
      assert BlockOk(s.zone, s.table.value);
      ClaimHeads(s.zone, reserved, h, order, flags, s.table.value);
    }
  }

  /** Another user of the page allocator takes a block: it holds no page of a slab, and the invariant
      survives exactly when it stays inside the zone. */
  lemma PageAllocKeepsInv(s: Kmem, reserved: set<nat>, order: nat, flags: nat)
    requires Inv(s, reserved)
    ensures Inv(s.(zone := AllocState(s.zone, order, flags)), reserved) <==> StaysInside(s.zone, order)
    ensures AllocResult(s.zone, order).Some? ==>
              forall p: nat, i: nat | IsSlab(s, p) && InBlock(s.zone, p, i) ::
                !(AllocResult(s.zone, order).value <= i < AllocResult(s.zone, order).value + Pow2(order))
  {
    AllocKeepsLedger(s.zone, reserved, order, flags);
    if AllocResult(s.zone, order).Some? {
      BlockOffSlabs(s, order);
    }
    if AllocResult(s.zone, order).Some? && StaysInside(s.zone, order) {
      AllocGivesFreePages(s.zone, reserved, order);
      var h := AllocResult(s.zone, order).value;
      ClaimKeepsSlabs(s, reserved, h, order, flags);
      ClaimKeepsPointers(s, reserved, h, order, flags);
      ClaimKeepsTable(s, reserved, h, order, flags);
    }
  }

  // ---------------------------------------------------------------- grow

  /** The state after a grow that got the block at p. */
  function Grown(s: Kmem, c: nat, p: nat, flags: nat): Kmem
    requires c < |s.caches| == |s.lists| && p < |s.hdrs| && s.zone.freePages >= Pow2(s.caches[c].gfpOrder)
  {
    var cache := s.caches[c];
    var z1 := Claim(s.zone, p, cache.gfpOrder, flags);
    s.(zone := z1.(memMap := MarkPages(z1.memMap, p, Pow2(cache.gfpOrder), Va(p))),
       hdrs := s.hdrs[p := NewHeader(c, cache, Va(p))],
       mem := FillBufctl(s.mem, IndexStart(p), cache.num),
       lists := s.lists[c := [p] + s.lists[c]])
  }

  lemma GrowIsGrown(s: Kmem, reserved: set<nat>, c: nat, flags: nat)
    requires Shaped(s) && Ledger(s.zone, reserved) && c < |s.caches|
    ensures AllocResult(s.zone, s.caches[c].gfpOrder).None? ==> Grow(s, c, flags) == s
    ensures AllocResult(s.zone, s.caches[c].gfpOrder).Some? ==>
              var p := AllocResult(s.zone, s.caches[c].gfpOrder).value;
              && p < s.zone.pages && s.zone.memMap[p].count == 0 && s.zone.freePages >= Pow2(s.caches[c].gfpOrder)
              && (StaysInside(s.zone, s.caches[c].gfpOrder) ==> Claimable(s.zone, reserved, p, s.caches[c].gfpOrder))
              && Grow(s, c, flags) == Grown(s, c, p, flags)
  {
    var order := s.caches[c].gfpOrder;
    if AllocResult(s.zone, order).Some? {
      var p := AllocResult(s.zone, order).value;
      RunFromIsLowest(s.zone.memMap, s.zone.pages, Pow2(order), 0);
      if StaysInside(s.zone, order) {
        AllocGivesFreePages(s.zone, reserved, order);
      }
      HalfOfOffset(p, SIZEOF_SLAB);
      var z1 := Claim(s.zone, p, order, flags);
      assert AllocState(s.zone, order, flags) == z1;
      assert z1.memMap[p].virt == Va(p);
    }
  }

  /** A free block belongs to no slab. */
  lemma FreeBlockIsNoSlab(s: Kmem, reserved: set<nat>, p: nat, order: nat)
    requires SlabsOk(s) && Claimable(s.zone, reserved, p, order)
    ensures !IsSlab(s, p)
  {
    assert !IsSlab(s, p) || SlabOk(s, p);
  }

  lemma FreePageIsNoSlab(s: Kmem, p: nat)
    requires BlocksDisjoint(s.zone) && SlabsOk(s) && p < s.zone.pages <= |s.zone.memMap| && s.zone.memMap[p].count == 0
    ensures !IsSlab(s, p)
  {
    assert IsHead(s.zone, p) ==> BlockOk(s.zone, p);
    assert !IsSlab(s, p) || SlabOk(s, p);
  }

  lemma NotListed(s: Kmem, p: nat, d: nat)
    requires ListsOk(s) && !IsSlab(s, p) && d < |s.lists|
    ensures p !in s.lists[d]
  {
  }

  lemma PrependDistinct(ch: seq<nat>, p: nat)
    requires NoDuplicates(ch) && p !in ch
    ensures NoDuplicates([p] + ch)
  {
  }

  lemma GrownIsSlab(s: Kmem, c: nat, p: nat, flags: nat, q: nat)
    requires ListsOk(s) && c < |s.caches| && p < |s.hdrs| && !IsSlab(s, p)
    requires s.zone.freePages >= Pow2(s.caches[c].gfpOrder)
    ensures var s' := Grown(s, c, p, flags);
            && (IsSlab(s', q) <==> IsSlab(s, q) || q == p)
            && (IsSlab(s, q) ==> q != p && CacheOf(s', q) == CacheOf(s, q))
            && CacheOf(s', p) == s.caches[c]
  {
    var s' := Grown(s, c, p, flags);
    assert s'.lists[c] == [p] + s.lists[c];
    assert s'.hdrs[p].cache == c && p in s'.lists[c];
    if q < |s.hdrs| && q != p {
      assert s'.hdrs[q] == s.hdrs[q];
    }
  }

  lemma GrownLists(s: Kmem, c: nat, p: nat, flags: nat)
    requires ListsOk(s) && c < |s.caches| && s.caches[c].name.Some? && p < |s.hdrs| && !IsSlab(s, p)
    requires s.zone.freePages >= Pow2(s.caches[c].gfpOrder)
    ensures ListsOk(Grown(s, c, p, flags))
  {
    var s' := Grown(s, c, p, flags);
    assert forall d: nat | d < |s.lists| && d != c :: s'.lists[d] == s.lists[d];
    forall d: nat | d < |s.lists|
      ensures NoDuplicates(s'.lists[d])
    {
      NotListed(s, p, d);
      PrependDistinct(s.lists[d], p);
    }
    forall d: nat, q: nat | d < |s'.lists| && q in s'.lists[d]
      ensures q < |s'.hdrs| && s'.hdrs[q].cache == d
    {
      NotListed(s, p, d);
      assert q in s.lists[d] || (d == c && q == p);
    }
  }

  lemma GrownSlabSet(s: Kmem, c: nat, p: nat, flags: nat)
    requires ListsOk(s) && c < |s.caches| && p < |s.hdrs| && !IsSlab(s, p)
    requires s.zone.freePages >= Pow2(s.caches[c].gfpOrder)
    ensures forall q: nat :: IsSlab(Grown(s, c, p, flags), q) <==> IsSlab(s, q) || q == p
    ensures forall q: nat | IsSlab(s, q) :: q != p && CacheOf(Grown(s, c, p, flags), q) == CacheOf(s, q)
    ensures CacheOf(Grown(s, c, p, flags), p) == s.caches[c]
  {
    forall q: nat
      ensures IsSlab(Grown(s, c, p, flags), q) <==> IsSlab(s, q) || q == p
      ensures IsSlab(s, q) ==> q != p && CacheOf(Grown(s, c, p, flags), q) == CacheOf(s, q)
    {
      GrownIsSlab(s, c, p, flags, q);
    }
    GrownIsSlab(s, c, p, flags, p);
  }

  lemma GrownPages(s: Kmem, reserved: set<nat>, c: nat, p: nat, flags: nat)
    requires BlocksDisjoint(s.zone) && c < |s.caches| == |s.lists| && p < |s.hdrs|
    requires Claimable(s.zone, reserved, p, s.caches[c].gfpOrder)
    ensures PagesOk(Grown(s, c, p, flags).zone, p, s.caches[c].gfpOrder)
    ensures forall q: nat, o: nat | PagesOk(s.zone, q, o) ::
              PagesOk(Grown(s, c, p, flags).zone, q, o) && (q + Pow2(o) <= p || p + Pow2(s.caches[c].gfpOrder) <= q)
  {
    var order := s.caches[c].gfpOrder;
    ClaimHeads(s.zone, reserved, p, order, flags, p);
    forall q: nat, o: nat | PagesOk(s.zone, q, o)
      ensures PagesOk(Grown(s, c, p, flags).zone, q, o) && (q + Pow2(o) <= p || p + Pow2(order) <= q)
    {
      ClaimKeepsPages(s.zone, reserved, p, order, flags, q, o);
    }
  }

  /** The new slab's list is the fresh one, and every other list is read from untouched words. */
  lemma GrownIndex(s: Kmem, c: nat, p: nat, flags: nat)
    requires c < |s.caches| == |s.lists| && p < |s.hdrs| && CacheOk(s.caches[c])
    requires s.zone.freePages >= Pow2(s.caches[c].gfpOrder)
    requires |s.mem| == s.zone.pages * HALVES && p + Pow2(s.caches[c].gfpOrder) <= s.zone.pages
    ensures var s', num := Grown(s, c, p, flags), s.caches[c].num;
            && IndexStart(p) + num <= |s'.mem|
            && s'.mem[IndexStart(p)..IndexStart(p) + num] == FreshList(num).bufctl
            && forall j: nat | j < |s.mem| && !(IndexStart(p) <= j < IndexStart(p) + num) :: s'.mem[j] == s.mem[j]
  {
    IndexRoom(s.caches[c]);
    IndexInsideBlock(p, s.caches[c].num, Pow2(s.caches[c].gfpOrder), s.zone.pages);
  }

  lemma GrownOldSlab(s: Kmem, reserved: set<nat>, c: nat, p: nat, flags: nat, q: nat)
    requires Shaped(s) && BlocksDisjoint(s.zone) && ListsOk(s) && c < |s.caches| && s.caches[c].name.Some? && p < s.zone.pages
    requires Claimable(s.zone, reserved, p, s.caches[c].gfpOrder) && !IsSlab(s, p)
    requires IsSlab(s, q) && SlabOk(s, q)
    ensures var s' := Grown(s, c, p, flags); IsSlab(s', q) && SlabOk(s', q) && ListOf(s', q) == ListOf(s, q)
  {
    GrownIsSlab(s, c, p, flags, q);
    GrownPages(s, reserved, c, p, flags);
    GrownIndex(s, c, p, flags);
    IndexArraysApart(CacheOf(s, q), s.caches[c], q, p);
    SlabOkFrame(s, Grown(s, c, p, flags), q);
  }

  lemma GrownNewSlab(s: Kmem, reserved: set<nat>, c: nat, p: nat, flags: nat)
    requires Shaped(s) && BlocksDisjoint(s.zone) && ListsOk(s) && c < |s.caches| && s.caches[c].name.Some? && p < s.zone.pages
    requires Claimable(s.zone, reserved, p, s.caches[c].gfpOrder) && !IsSlab(s, p)
    ensures var s' := Grown(s, c, p, flags);
            IsSlab(s', p) && SlabOk(s', p) && ListOf(s', p) == FreshList(s.caches[c].num)
  {
    GrownIsSlab(s, c, p, flags, p);
    GrownPages(s, reserved, c, p, flags);
    GrownIndex(s, c, p, flags);
    FreshIsGood(s.caches[c].num);
  }

  lemma GrownSlabs(s: Kmem, reserved: set<nat>, c: nat, p: nat, flags: nat)
    requires Inv(s, reserved) && c < |s.caches| && s.caches[c].name.Some? && p < s.zone.pages
    requires Claimable(s.zone, reserved, p, s.caches[c].gfpOrder) && !IsSlab(s, p)
    ensures SlabsOk(Grown(s, c, p, flags))
    ensures IsSlab(Grown(s, c, p, flags), p) && IndexInMemory(Grown(s, c, p, flags), p)
    ensures ListOf(Grown(s, c, p, flags), p) == FreshList(s.caches[c].num)
    ensures forall q: nat | IsSlab(s, q) ::
              IsSlab(Grown(s, c, p, flags), q) && IndexInMemory(s, q) && IndexInMemory(Grown(s, c, p, flags), q) &&
              ListOf(Grown(s, c, p, flags), q) == ListOf(s, q)
  {
    var s' := Grown(s, c, p, flags);
    GrownNewSlab(s, reserved, c, p, flags);
    forall q: nat
      ensures IsSlab(s, q) ==> IsSlab(s', q) && SlabOk(s', q) && IndexInMemory(s, q) && ListOf(s', q) == ListOf(s, q)
      ensures IsSlab(s', q) ==> IsSlab(s, q) || q == p
    {
      GrownIsSlab(s, c, p, flags, q);
      if IsSlab(s, q) {
        assert SlabOk(s, q);
        GrownOldSlab(s, reserved, c, p, flags, q);
      }
    }
  }

  lemma GrownOldPointer(s: Kmem, reserved: set<nat>, c: nat, p: nat, flags: nat, i: nat)
    requires BlocksDisjoint(s.zone) && c < |s.caches| == |s.lists| && p < |s.hdrs| && !IsSlab(s, p)
    requires Claimable(s.zone, reserved, p, s.caches[c].gfpOrder)
    requires i < s.zone.pages && !(p <= i < p + Pow2(s.caches[c].gfpOrder)) && PointerOk(s, i)
    ensures PointerOk(Grown(s, c, p, flags), i)
  {
    var order, q := s.caches[c].gfpOrder, PageOf(s.zone.memMap[i].slab);
    assert BlockOk(s.zone, q);
    ClaimHeads(s.zone, reserved, p, order, flags, q);
  }

  lemma GrownPointers(s: Kmem, reserved: set<nat>, c: nat, p: nat, flags: nat)
    requires Inv(s, reserved) && c < |s.caches| && s.caches[c].name.Some? && p < s.zone.pages
    requires Claimable(s.zone, reserved, p, s.caches[c].gfpOrder)
    ensures PointersOk(Grown(s, c, p, flags))
  {
    var s', order := Grown(s, c, p, flags), s.caches[c].gfpOrder;
    FreeBlockIsNoSlab(s, reserved, p, order);
    GrownSlabSet(s, c, p, flags);
    PageOfOffset(p, 0);
    ClaimHeads(s.zone, reserved, p, order, flags, p);
    forall i: nat | i < s'.zone.pages && s'.zone.memMap[i].slab != 0
      ensures PointerOk(s', i)
    {
      if !(p <= i < p + Pow2(order)) {
        assert PointerOk(s, i);
        GrownOldPointer(s, reserved, c, p, flags, i);
      }
    }
  }

  lemma GrownTable(s: Kmem, reserved: set<nat>, c: nat, p: nat, flags: nat)
    requires BlocksDisjoint(s.zone) && TableOk(s) && ListsOk(s) && c < |s.caches| && p < |s.hdrs| && !IsSlab(s, p)
    requires Claimable(s.zone, reserved, p, s.caches[c].gfpOrder)
    ensures TableOk(Grown(s, c, p, flags))
  {
    ClaimKeepsTable(s, reserved, p, s.caches[c].gfpOrder, flags);
    if s.table.Some? {
      GrownIsSlab(s, c, p, flags, s.table.value);
    }
  }

  lemma EscapedBreaks(s: Kmem, reserved: set<nat>, c: nat, flags: nat)
    requires Shaped(s) && Ledger(s.zone, reserved) && c < |s.caches| && !StaysInside(s.zone, s.caches[c].gfpOrder)
    ensures !Ledger(Grow(s, c, flags).zone, reserved)
  {
    GrowIsGrown(s, reserved, c, flags);
    var p := AllocResult(s.zone, s.caches[c].gfpOrder).value;
    assert !BlockOk(Grow(s, c, flags).zone, p);
  }

  /** kmem_cache_grow keeps the invariant exactly when the pages it gets lie inside the zone. */
  lemma GrowKeepsInv(s: Kmem, reserved: set<nat>, c: nat, flags: nat)
    requires Inv(s, reserved) && c < |s.caches| && s.caches[c].name.Some?
    ensures Inv(Grow(s, c, flags), reserved) <==> StaysInside(s.zone, s.caches[c].gfpOrder)
  {
    GrowIsGrown(s, reserved, c, flags);
    GrowShaped(s, c, flags);
    var order := s.caches[c].gfpOrder;
    if !StaysInside(s.zone, order) {
      EscapedBreaks(s, reserved, c, flags);
    } else if AllocResult(s.zone, order).Some? {
      var p := AllocResult(s.zone, order).value;
      var s' := Grown(s, c, p, flags);
      ClaimKeepsLedger(s.zone, reserved, p, order, flags);
      SameLedger(Claim(s.zone, p, order, flags), s'.zone, reserved);
      FreeBlockIsNoSlab(s, reserved, p, order);
      GrownLists(s, c, p, flags);
      GrownSlabs(s, reserved, c, p, flags);
      GrownPointers(s, reserved, c, p, flags);
      GrownTable(s, reserved, c, p, flags);
    }
  }

  // ---------------------------------------------------------------- one slab's list changes

  /** Replaces the free list of the slab at p: header and index array, nothing else. */
  function WithList(s: Kmem, p: nat, l: SlabList): Kmem
    requires IsSlab(s, p) && IndexInMemory(s, p) && |l.bufctl| == CacheOf(s, p).num
  {
    s.(hdrs := s.hdrs[p := s.hdrs[p].(free := l.free, inuse := l.inuse)],
       mem := s.mem[..IndexStart(p)] + l.bufctl + s.mem[IndexStart(p) + |l.bufctl|..])
  }

  lemma WithListSlab(s: Kmem, p: nat, l: SlabList, q: nat)
    requires BlocksDisjoint(s.zone) && ListsOk(s) && SlabsOk(s)
    requires IsSlab(s, p) && IndexInMemory(s, p) && |l.bufctl| == CacheOf(s, p).num && Good(l)
    ensures var s' := WithList(s, p, l);
            && (IsSlab(s', q) <==> IsSlab(s, q))
            && (IsSlab(s, q) ==>
                  && CacheOf(s', q) == CacheOf(s, q) && SlabOk(s', q) && IndexInMemory(s, q)
                  && ListOf(s', q) == if q == p then l else ListOf(s, q))
  {
    var s' := WithList(s, p, l);
    if IsSlab(s, q) {
      assert SlabOk(s, q) && SlabOk(s, p);
      if q == p {
        assert ListOf(s', p).bufctl == l.bufctl;
      } else {
        PagesApart(s.zone, p, CacheOf(s, p).gfpOrder, q, CacheOf(s, q).gfpOrder);
        IndexArraysApart(CacheOf(s, p), CacheOf(s, q), p, q);
        SlabOkFrame(s, s', q);
      }
    }
  }

  /** Any sound list may take the place of a slab's list. */
  lemma WithListKeepsInv(s: Kmem, reserved: set<nat>, p: nat, l: SlabList)
    requires Inv(s, reserved)
    requires IsSlab(s, p) && IndexInMemory(s, p) && |l.bufctl| == CacheOf(s, p).num && Good(l)
    ensures Inv(WithList(s, p, l), reserved)
    ensures forall q: nat | IsSlab(s, q) ::
              && IsSlab(WithList(s, p, l), q) && IndexInMemory(s, q) && IndexInMemory(WithList(s, p, l), q)
              && CacheOf(WithList(s, p, l), q) == CacheOf(s, q)
              && ListOf(WithList(s, p, l), q) == if q == p then l else ListOf(s, q)
    ensures forall q: nat | IsSlab(WithList(s, p, l), q) :: IsSlab(s, q)
  {
    var s' := WithList(s, p, l);
    forall q: nat
      ensures IsSlab(s', q) <==> IsSlab(s, q)
      ensures IsSlab(s, q) ==>
                && IndexInMemory(s, q) && CacheOf(s', q) == CacheOf(s, q) && SlabOk(s', q)
                && ListOf(s', q) == if q == p then l else ListOf(s, q)
    {
      WithListSlab(s, p, l, q);
    }
    forall i: nat | i < s'.zone.pages && s'.zone.memMap[i].slab != 0
      ensures PointerOk(s', i)
    {
      assert PointerOk(s, i);
    }
  }

  // ---------------------------------------------------------------- taking and giving back an object

  /** Take writes the first free object's successor into the header. */
  lemma TakeIsWithList(s: Kmem, p: nat)
    requires IsSlab(s, p) && SlabOk(s, p) && s.hdrs[p].free != BUFCTL_END
    ensures ListOf(s, p).free < CacheOf(s, p).num
    ensures Take(s, s.hdrs[p].cache, p) ==
            (WithList(s, p, TakeFirst(ListOf(s, p))), Va(p) + CacheOf(s, p).colourOff + s.hdrs[p].free * CacheOf(s, p).objSize)
  {
    var l := ListOf(s, p);
    TestsAgree(l);
    HalfOfOffset(p, SIZEOF_SLAB);
    var s' := WithList(s, p, TakeFirst(l));
    assert s'.mem == s.mem;
    assert Peek(s.mem, IndexStart(p) + l.free) == l.bufctl[l.free];
  }

  /** Address of object i of the slab at p. */
  function ObjAddr(s: Kmem, p: nat, i: nat): nat
    requires IsSlab(s, p)
  {
    Va(p) + CacheOf(s, p).colourOff + i * CacheOf(s, p).objSize
  }

  lemma {:induction false} QuotInside(i: nat, r: nat, d: nat)
    requires r < d
    ensures Quot(i * d + r, d) == i
  {
    if i > 0 {
      QuotInside(i - 1, r, d);
      assert i * d == (i - 1) * d + d;
    }
  }

  lemma ObjectInside(c: Cache, i: nat)
    requires CacheOk(c) && i < c.num
    ensures c.colourOff + i * c.objSize + c.objSize <= Pow2(c.gfpOrder) * PAGE_SIZE
  {
    MultipleAtLeast(c.objSize, i + 1, c.num);
    assert c.objSize * (i + 1) == i * c.objSize + c.objSize;
    assert c.objSize * c.num == c.num * c.objSize;
  }

  lemma ObjectOffset(s: Kmem, p: nat, i: nat, addr: nat)
    requires IsSlab(s, p) && CacheOk(CacheOf(s, p)) && i < CacheOf(s, p).num
    requires ObjAddr(s, p, i) <= addr < ObjAddr(s, p, i) + CacheOf(s, p).objSize
    ensures Va(p) + CacheOf(s, p).colourOff <= addr < Va(p) + Pow2(CacheOf(s, p).gfpOrder) * PAGE_SIZE
  {
    ObjectInside(CacheOf(s, p), i);
    assert i * CacheOf(s, p).objSize >= 0;
  }

  lemma PageInBlock(p: nat, n: nat, addr: nat)
    requires Va(p) <= addr < Va(p) + n * PAGE_SIZE
    ensures p <= PageOf(addr) < p + n && PageOf(Va(p)) == p
  {
    PageOfOffset(p, addr - Va(p));
    PageOfOffset(p, 0);
  }

  lemma IndexOfAddress(sMem: nat, i: nat, d: nat, addr: nat)
    requires sMem + i * d <= addr < sMem + i * d + d
    ensures Quot(Sub64(addr, sMem), d) == i
  {
    var m := i * d;
    assert m >= 0;
    var r := addr - sMem - m;
    assert Sub64(addr, sMem) == m + r;
    QuotInside(i, r, d);
  }

  /** Every byte of an object leads back to its slab, through the page it lies in, and to its index,
      through the division. */
  lemma ObjectHome(s: Kmem, p: nat, i: nat, addr: nat)
    requires IsSlab(s, p) && SlabOk(s, p) && CacheOk(CacheOf(s, p)) && i < CacheOf(s, p).num
    requires ObjAddr(s, p, i) <= addr < ObjAddr(s, p, i) + CacheOf(s, p).objSize
    ensures PageOf(addr) < s.zone.pages && InBlock(s.zone, p, PageOf(addr))
    ensures s.zone.memMap[PageOf(addr)].slab == Va(p) && PageOf(Va(p)) == p
    ensures Quot(Sub64(addr, s.hdrs[p].sMem), CacheOf(s, p).objSize) == i
  {
    ObjectOffset(s, p, i, addr);
    PageInBlock(p, Pow2(CacheOf(s, p).gfpOrder), addr);
    IndexOfAddress(s.hdrs[p].sMem, i, CacheOf(s, p).objSize, addr);
  }

  lemma PokeInSlice(mem: seq<nat>, at: nat, num: nat, i: nat, v: nat)
    requires at + num <= |mem| && i < num
    ensures Poke(mem, at + i, v) == mem[..at] + mem[at..at + num][i := v % 0x10000] + mem[at + num..]
  {
  }

  /** caos_kfree acts through what the page's descriptor and the division give. */
  lemma KfreeActsOn(s: Kmem, p: nat, i: nat, addr: nat)
    requires Shaped(s) && IsSlab(s, p) && HeaderOk(s.hdrs[p], CacheOf(s, p), p) && IndexInMemory(s, p)
    requires PageOf(addr) < s.zone.pages && s.zone.memMap[PageOf(addr)].slab == Va(p)
    requires 0 < CacheOf(s, p).objSize && s.hdrs[p].inuse > 0
    requires i < CacheOf(s, p).num && i == Quot(Sub64(addr, s.hdrs[p].sMem), CacheOf(s, p).objSize)
    ensures Kfree(s, addr) == WithList(s, p, PutBack(ListOf(s, p), i))
  {
    PageOfOffset(p, 0);
    HalfOfOffset(p, SIZEOF_SLAB);
    PokeInSlice(s.mem, IndexStart(p), CacheOf(s, p).num, i, s.hdrs[p].free);
    assert s.zone.memMap[PageOf(addr)].slab != 0;
  }

  /** caos_kfree on any address inside an object puts exactly that object back. */
  lemma KfreeIsWithList(s: Kmem, p: nat, i: nat, addr: nat)
    requires Shaped(s) && IsSlab(s, p) && SlabOk(s, p) && CacheOk(CacheOf(s, p)) && i < CacheOf(s, p).num
    requires ObjAddr(s, p, i) <= addr < ObjAddr(s, p, i) + CacheOf(s, p).objSize
    requires s.hdrs[p].inuse > 0
    ensures PageOf(addr) < s.zone.pages
    ensures Kfree(s, addr) == WithList(s, p, PutBack(ListOf(s, p), i))
  {
    ObjectHome(s, p, i, addr);
    KfreeActsOn(s, p, i, addr);
  }

  // ---------------------------------------------------------------- shrink

  lemma {:induction false} FirstIdle(s: Kmem, c: nat, from: nat)
    requires Shaped(s) && c < |s.caches| && from <= |s.lists[c]|
    ensures var k := FindIdle(s, c, from);
            && (forall j | from <= j < k :: s.hdrs[s.lists[c][j]].inuse != 0)
            && (k < |s.lists[c]| ==> s.hdrs[s.lists[c][k]].inuse == 0)
    decreases |s.lists[c]| - from
  {
    if from < |s.lists[c]| && s.hdrs[s.lists[c][from]].inuse != 0 {
      FirstIdle(s, c, from + 1);
    }
  }

  function Unmarked(z: ZoneState, p: nat, order: nat): ZoneState {
    z.(memMap := UnmarkPages(z.memMap, p, Pow2(order)))
  }

  /** Takes the k-th slab off its list and gives its pages back. */
  function Dropped(s: Kmem, c: nat, k: nat): Kmem
    requires c < |s.caches| == |s.lists| && k < |s.lists[c]|
  {
    var order := s.caches[c].gfpOrder;
    s.(zone := Released(Unmarked(s.zone, s.lists[c][k], order), s.lists[c][k], order),
       lists := s.lists[c := s.lists[c][..k] + s.lists[c][k + 1..]])
  }

  lemma UnmarkedLedger(z: ZoneState, reserved: set<nat>, p: nat, order: nat)
    requires Ledger(z, reserved)
    ensures Ledger(Unmarked(z, p, order), reserved) && SameLedgerFields(z, Unmarked(z, p, order))
  {
    SameLedger(z, Unmarked(z, p, order), reserved);
  }

  lemma DestroyIsRelease(z: ZoneState, reserved: set<nat>, p: nat, order: nat)
    requires Ledger(z, reserved) && PagesOk(z, p, order)
    ensures FreeSlabPages(z, order, p) == Released(Unmarked(z, p, order), p, order)
  {
    UnmarkedLedger(z, reserved, p, order);
    assert IsHead(Unmarked(z, p, order), p);
    FreeIsReleased(Unmarked(z, p, order), p, order);
  }

  lemma ListedIsSlab(s: Kmem, c: nat, k: nat)
    requires ListsOk(s) && c < |s.caches| && k < |s.lists[c]|
    ensures IsSlab(s, s.lists[c][k]) && s.hdrs[s.lists[c][k]].cache == c
  {
    assert s.lists[c][k] in s.lists[c];
  }

  lemma DestroyedIsDropped(s: Kmem, reserved: set<nat>, c: nat, k: nat)
    requires Shaped(s) && Ledger(s.zone, reserved) && c < |s.caches| && k == FindIdle(s, c, 0) < |s.lists[c]|
    requires PagesOk(s.zone, s.lists[c][k], s.caches[c].gfpOrder)
    requires HeaderOk(s.hdrs[s.lists[c][k]], s.caches[c], s.lists[c][k])
    ensures Shrink(s, c) == Dropped(s, c, k)
  {
    var p := s.lists[c][k];
    PageOfOffset(p, 0);
    assert PageOf(Sub64(s.hdrs[p].sMem, s.hdrs[p].offset)) == p < s.zone.pages;
    DestroyIsRelease(s.zone, reserved, p, s.caches[c].gfpOrder);
  }

  lemma ShrinkIsDropped(s: Kmem, reserved: set<nat>, c: nat)
    requires Shaped(s) && Ledger(s.zone, reserved) && ListsOk(s) && SlabsOk(s) && c < |s.caches|
    ensures var k := FindIdle(s, c, 0);
            if k == |s.lists[c]| then Shrink(s, c) == s
            else IsSlab(s, s.lists[c][k]) && s.hdrs[s.lists[c][k]].cache == c && Shrink(s, c) == Dropped(s, c, k)
  {
    var k := FindIdle(s, c, 0);
    if k < |s.lists[c]| {
      var p := s.lists[c][k];
      ListedIsSlab(s, c, k);
      assert SlabOk(s, p);
      DestroyedIsDropped(s, reserved, c, k);
    }
  }

  lemma RemoveAt(ch: seq<nat>, k: nat)
    requires NoDuplicates(ch) && k < |ch|
    ensures var r := ch[..k] + ch[k + 1..];
            NoDuplicates(r) && forall x: nat :: x in r <==> x in ch && x != ch[k]
  {
    var r := ch[..k] + ch[k + 1..];
    forall x: nat
      ensures x in r <==> x in ch && x != ch[k]
    {
      if x in ch && x != ch[k] {
        var j :| 0 <= j < |ch| && ch[j] == x;
        assert r[if j < k then j else j - 1] == x;
      }
    }
  }

  lemma DroppedLists(s: Kmem, c: nat, k: nat)
    requires ListsOk(s) && c < |s.caches| && k < |s.lists[c]|
    ensures ListsOk(Dropped(s, c, k))
    ensures forall q: nat :: IsSlab(Dropped(s, c, k), q) <==> IsSlab(s, q) && q != s.lists[c][k]
    ensures IsSlab(s, s.lists[c][k]) && s.hdrs[s.lists[c][k]].cache == c
  {
    var s', p := Dropped(s, c, k), s.lists[c][k];
    assert p in s.lists[c];
    RemoveAt(s.lists[c], k);
    forall q: nat
      ensures IsSlab(s', q) <==> IsSlab(s, q) && q != p
    {
      if q < |s.hdrs| && s.hdrs[q].cache != c && s.hdrs[q].cache < |s.caches| {
        assert s'.lists[s.hdrs[q].cache] == s.lists[s.hdrs[q].cache];
      }
    }
  }

  lemma DroppedPages(s: Kmem, reserved: set<nat>, c: nat, k: nat, q: nat, o: nat)
    requires Ledger(s.zone, reserved) && c < |s.caches| == |s.lists| && k < |s.lists[c]| && q != s.lists[c][k]
    requires PagesOk(s.zone, s.lists[c][k], s.caches[c].gfpOrder) && PagesOk(s.zone, q, o)
    ensures PagesOk(Dropped(s, c, k).zone, q, o)
  {
    var p, order := s.lists[c][k], s.caches[c].gfpOrder;
    UnmarkedLedger(s.zone, reserved, p, order);
    assert IsHead(Unmarked(s.zone, p, order), p);
    ReleaseHeads(Unmarked(s.zone, p, order), p, q);
    PagesApart(s.zone, p, order, q, o);
  }

  lemma DroppedSlabs(s: Kmem, reserved: set<nat>, c: nat, k: nat)
    requires Ledger(s.zone, reserved) && ListsOk(s) && SlabsOk(s) && c < |s.caches| && k < |s.lists[c]|
    ensures SlabsOk(Dropped(s, c, k))
    ensures forall q: nat | IsSlab(Dropped(s, c, k), q) ::
              && IsSlab(s, q) && CacheOf(Dropped(s, c, k), q) == CacheOf(s, q)
              && IndexInMemory(s, q) && ListOf(Dropped(s, c, k), q) == ListOf(s, q)
  {
    var s', p := Dropped(s, c, k), s.lists[c][k];
    DroppedLists(s, c, k);
    assert SlabOk(s, p);
    forall q: nat | IsSlab(s', q)
      ensures SlabOk(s', q) && IsSlab(s, q) && CacheOf(s', q) == CacheOf(s, q) && IndexInMemory(s, q) && ListOf(s', q) == ListOf(s, q)
    {
      assert SlabOk(s, q);
      DroppedPages(s, reserved, c, k, q, CacheOf(s, q).gfpOrder);
      SlabOkFrame(s, s', q);
    }
  }

  lemma DroppedPointers(s: Kmem, reserved: set<nat>, c: nat, k: nat)
    requires Ledger(s.zone, reserved) && ListsOk(s) && SlabsOk(s) && PointersOk(s) && c < |s.caches| && k < |s.lists[c]|
    ensures PointersOk(Dropped(s, c, k))
  {
    var s', p, order := Dropped(s, c, k), s.lists[c][k], s.caches[c].gfpOrder;
    DroppedLists(s, c, k);
    assert SlabOk(s, p);
    UnmarkedLedger(s.zone, reserved, p, order);
    var z := Unmarked(s.zone, p, order);
    assert IsHead(z, p);
    forall i: nat | i < s'.zone.pages && s'.zone.memMap[i].slab != 0
      ensures PointerOk(s', i)
    {
      assert !(p <= i < p + Pow2(order));
      assert PointerOk(s, i);
      var q := PageOf(s.zone.memMap[i].slab);
      assert BlockSize(s.zone, p) == Pow2(order) && q != p;
      ReleaseHeads(z, p, q);
    }
  }

  lemma DroppedTable(s: Kmem, reserved: set<nat>, c: nat, k: nat)
    requires Ledger(s.zone, reserved) && ListsOk(s) && TableOk(s) && c < |s.caches| && k < |s.lists[c]|
    requires PagesOk(s.zone, s.lists[c][k], s.caches[c].gfpOrder)
    ensures TableOk(Dropped(s, c, k))
  {
    var p, order := s.lists[c][k], s.caches[c].gfpOrder;
    DroppedLists(s, c, k);
    UnmarkedLedger(s.zone, reserved, p, order);
    if s.table.Some? {
      ReleaseHeads(Unmarked(s.zone, p, order), p, s.table.value);
    }
  }

  lemma DroppedLedger(s: Kmem, reserved: set<nat>, c: nat, k: nat)
    requires Ledger(s.zone, reserved) && c < |s.caches| == |s.lists| && k < |s.lists[c]|
    requires PagesOk(s.zone, s.lists[c][k], s.caches[c].gfpOrder)
    ensures Ledger(Dropped(s, c, k).zone, reserved)
  {
    var p, order := s.lists[c][k], s.caches[c].gfpOrder;
    var z := Unmarked(s.zone, p, order);
    UnmarkedLedger(s.zone, reserved, p, order);
    assert IsHead(z, p);
    FreeIsReleased(z, p, order);
    FreeKeepsLedger(z, reserved, p, order);
  }

  lemma DroppedShaped(s: Kmem, c: nat, k: nat)
    requires Shaped(s) && c < |s.caches| && k < |s.lists[c]|
    ensures Shaped(Dropped(s, c, k))
  {
  }

  lemma DroppedKeepsInv(s: Kmem, reserved: set<nat>, c: nat, k: nat)
    requires Inv(s, reserved) && c < |s.caches| && k < |s.lists[c]|
    ensures Inv(Dropped(s, c, k), reserved)
  {
    ListedIsSlab(s, c, k);
    assert SlabOk(s, s.lists[c][k]);
    DroppedShaped(s, c, k);
    DroppedLedger(s, reserved, c, k);
    DroppedLists(s, c, k);
    DroppedSlabs(s, reserved, c, k);
    DroppedPointers(s, reserved, c, k);
    DroppedTable(s, reserved, c, k);
  }

  lemma ShrinkKeepsInv(s: Kmem, reserved: set<nat>, c: nat)
    requires Inv(s, reserved) && c < |s.caches|
    ensures Inv(Shrink(s, c), reserved)
  {
    ShrinkIsDropped(s, reserved, c);
    if FindIdle(s, c, 0) < |s.lists[c]| {
      DroppedKeepsInv(s, reserved, c, FindIdle(s, c, 0));
    }
  }

  // ---------------------------------------------------------------- other users of the pages

  lemma ReleaseKeepsPages(z: ZoneState, h: nat, p: nat, o: nat)
    requires BlocksDisjoint(z) && IsHead(z, h) && PagesOk(z, p, o) && p != h
    ensures PagesOk(Released(z, h, z.memMap[h].private), p, o)
  {
    ReleaseHeads(z, h, p);
    assert BlockOk(z, h);
  }

  lemma ReleaseKeepsPointers(s: Kmem, h: nat)
    requires BlocksDisjoint(s.zone) && IsHead(s.zone, h) && PointersOk(s) && !IsSlab(s, h)
    ensures PointersOk(s.(zone := Released(s.zone, h, s.zone.memMap[h].private)))
  {
    var s' := s.(zone := Released(s.zone, h, s.zone.memMap[h].private));
    forall i: nat | i < s'.zone.pages && s'.zone.memMap[i].slab != 0
      ensures PointerOk(s', i)
    {
      assert PointerOk(s, i);
      ReleaseHeads(s.zone, h, PageOf(s.zone.memMap[i].slab));
    }
  }

  lemma ReleaseKeepsSlabs(s: Kmem, h: nat)
    requires BlocksDisjoint(s.zone) && IsHead(s.zone, h) && SlabsOk(s) && !IsSlab(s, h)
    ensures SlabsOk(s.(zone := Released(s.zone, h, s.zone.memMap[h].private)))
  {
    var z' := Released(s.zone, h, s.zone.memMap[h].private);
    forall p: nat | IsSlab(s, p) && SlabOk(s, p)
      ensures PagesOk(z', p, CacheOf(s, p).gfpOrder)
    {
      ReleaseKeepsPages(s.zone, h, p, CacheOf(s, p).gfpOrder);
    }
    NewZoneKeepsSlabs(s, z');
  }

  /** The block is the slab allocator's own: a slab, or the cache table. */
  predicate OwnBlock(s: Kmem, page: nat, order: nat) {
    || (IsSlab(s, page) && order == CacheOf(s, page).gfpOrder)
    || (s.table == Some(page) && order == CACHE_CACHE_PAGE)
  }

  lemma OwnReleaseBreaks(s: Kmem, reserved: set<nat>, page: nat, order: nat)
    requires Inv(s, reserved) && page < s.zone.pages && OwnBlock(s, page, order)
    ensures !Inv(s.(zone := FreeState(s.zone, page, order)), reserved)
  {
    var s' := s.(zone := FreeState(s.zone, page, order));
    assert IsSlab(s, page) ==> SlabOk(s, page);
    FreeIsReleased(s.zone, page, order);
    ReleaseHeads(s.zone, page, page);
    assert IsSlab(s', page) ==> !SlabOk(s', page);
  }

  lemma ReleaseKeepsTable(s: Kmem, h: nat)
    requires BlocksDisjoint(s.zone) && IsHead(s.zone, h) && TableOk(s) && s.table != Some(h)
    ensures TableOk(s.(zone := Released(s.zone, h, s.zone.memMap[h].private)))
  {
    if s.table.Some? {
      ReleaseHeads(s.zone, h, s.table.value);
    }
  }

  /** Any call of __free_pages keeps the invariant, unless it releases a slab or the cache table: it names
      the first page, with the block's own order. */
  lemma PageFreeKeepsInv(s: Kmem, reserved: set<nat>, page: nat, order: nat)
    requires Inv(s, reserved) && page < s.zone.pages
    ensures Inv(s.(zone := FreeState(s.zone, page, order)), reserved) <==> !OwnBlock(s, page, order)
  {
    FreeKeepsLedger(s.zone, reserved, page, order);
    FreeActsOnHeadsOnly(s.zone, reserved, page, order);
    if OwnBlock(s, page, order) {
      OwnReleaseBreaks(s, reserved, page, order);
    } else if FreeAccepted(s.zone, page, order) {
      assert IsSlab(s, page) ==> SlabOk(s, page);
      FreeIsReleased(s.zone, page, order);
      ReleaseKeepsSlabs(s, page);
      ReleaseKeepsPointers(s, page);
      ReleaseKeepsTable(s, page);
    }
  }

  // ---------------------------------------------------------------- what slabs keep clear of

  /** The addresses [from, to) are none of the cache table's. */
  predicate OffTable(s: Kmem, from: nat, to: nat) {
    s.table.Some? ==> to <= Va(s.table.value) || Va(s.table.value + Pow2(CACHE_CACHE_PAGE)) <= from
  }

  /** Nor are they in a page reserved at boot: page descriptors, page tables, kernel and BIOS. */
  ghost predicate OffReserved(reserved: set<nat>, from: nat, to: nat) {
    forall r | r in reserved :: to <= Va(r) || Va(r + 1) <= from
  }

  lemma SlabPagesClear(s: Kmem, reserved: set<nat>, p: nat)
    requires Inv(s, reserved) && IsSlab(s, p)
    ensures var end := p + Pow2(CacheOf(s, p).gfpOrder);
            && (s.table.Some? ==> end <= s.table.value || s.table.value + Pow2(CACHE_CACHE_PAGE) <= p)
            && forall r | r in reserved :: r + 1 <= p || end <= r
  {
    assert SlabOk(s, p);
    var n := BlockSize(s.zone, p);
    assert s.table.Some? ==> BlockSize(s.zone, s.table.value) == Pow2(CACHE_CACHE_PAGE);
    forall r | r in reserved
      ensures r + 1 <= p || p + n <= r
    {
      assert !InBlock(s.zone, p, r);
    }
  }

  lemma VaMonotone(p: nat, q: nat)
    requires p <= q
    ensures Va(p) <= Va(q)
  {
  }

  /** A slab's pages, with all that lies in them, are off the cache table and the reserved pages. */
  lemma SlabIsClear(s: Kmem, reserved: set<nat>, p: nat)
    requires Inv(s, reserved) && IsSlab(s, p)
    ensures OffTable(s, Va(p), Va(p + Pow2(CacheOf(s, p).gfpOrder)))
    ensures OffReserved(reserved, Va(p), Va(p + Pow2(CacheOf(s, p).gfpOrder)))
  {
    SlabPagesClear(s, reserved, p);
    var end := p + Pow2(CacheOf(s, p).gfpOrder);
    if s.table.Some? {
      if end <= s.table.value {
        VaMonotone(end, s.table.value);
      } else {
        VaMonotone(s.table.value + Pow2(CACHE_CACHE_PAGE), p);
      }
    }
    forall r | r in reserved
      ensures Va(end) <= Va(r) || Va(r + 1) <= Va(p)
    {
      if end <= r {
        VaMonotone(end, r);
      } else {
        VaMonotone(r + 1, p);
      }
    }
  }

  // ---------------------------------------------------------------- stores by the owner of an object

  /** A store of 16 bits at an even address. */
  function Store(s: Kmem, addr: nat, v: nat): Kmem {
    s.(mem := Poke(s.mem, HalfOf(addr), v))
  }

  /** A word at or behind offset `lo` of one block is outside the index array of another block, and
      outside that of its own when `lo` is behind it. */
  lemma WordOutsideIndex(p: nat, n: nat, lo: nat, off: nat, q: nat, m: nat, num: nat)
    requires lo <= off < n * PAGE_SIZE
    requires SIZEOF_SLAB + SIZEOF_BUFCTL * num <= m * PAGE_SIZE
    requires p + n <= q || q + m <= p || (p == q && SIZEOF_SLAB + SIZEOF_BUFCTL * num <= lo)
    ensures !(IndexStart(q) <= HalfOf(Va(p) + off) < IndexStart(q) + num)
  {
    HalfOfOffset(p, off);
    var word := off / SIZEOF_BUFCTL;
    assert word < n * HALVES;
    if p + n <= q {
      var spare := q - p - n;
      assert q * HALVES == p * HALVES + n * HALVES + spare * HALVES;
    } else if q + m <= p {
      IndexInsideBlock(q, num, m, p);
    } else {
      assert word >= SIZEOF_SLAB / SIZEOF_BUFCTL + num;
    }
  }

  lemma StoreOutsideIndex(s: Kmem, p: nat, addr: nat, q: nat)
    requires BlocksDisjoint(s.zone) && IsSlab(s, p) && SlabOk(s, p) && CacheOk(CacheOf(s, p))
    requires Va(p) + CacheOf(s, p).colourOff <= addr < Va(p) + Pow2(CacheOf(s, p).gfpOrder) * PAGE_SIZE
    requires IsSlab(s, q) && SlabOk(s, q) && CacheOk(CacheOf(s, q))
    ensures !(IndexStart(q) <= HalfOf(addr) < IndexStart(q) + CacheOf(s, q).num)
  {
    var c, d := CacheOf(s, p), CacheOf(s, q);
    IndexRoom(c);
    IndexRoom(d);
    if p != q {
      PagesApart(s.zone, p, c.gfpOrder, q, d.gfpOrder);
    }
    WordOutsideIndex(p, Pow2(c.gfpOrder), c.colourOff, addr - Va(p), q, Pow2(d.gfpOrder), d.num);
  }

  lemma StoreKeepsSlab(s: Kmem, p: nat, addr: nat, v: nat, q: nat)
    requires BlocksDisjoint(s.zone) && IsSlab(s, p) && SlabOk(s, p) && CacheOk(CacheOf(s, p))
    requires Va(p) + CacheOf(s, p).colourOff <= addr < Va(p) + Pow2(CacheOf(s, p).gfpOrder) * PAGE_SIZE
    requires IsSlab(s, q) && SlabOk(s, q) && CacheOk(CacheOf(s, q))
    ensures var s' := Store(s, addr, v); IsSlab(s', q) && SlabOk(s', q) && ListOf(s', q) == ListOf(s, q)
  {
    StoreOutsideIndex(s, p, addr, q);
    SlabOkFrame(s, Store(s, addr, v), q);
  }

  /** Whatever the holder of an object stores inside it, no free list changes, and the store is off the
      cache table and the reserved pages. */
  lemma StoreKeepsInv(s: Kmem, reserved: set<nat>, p: nat, i: nat, addr: nat, v: nat)
    requires Inv(s, reserved) && IsSlab(s, p) && i < CacheOf(s, p).num
    requires ObjAddr(s, p, i) <= addr && addr + 2 <= ObjAddr(s, p, i) + CacheOf(s, p).objSize
    ensures Inv(Store(s, addr, v), reserved) && OffTable(s, addr, addr + 2) && OffReserved(reserved, addr, addr + 2)
    ensures forall q: nat :: IsSlab(Store(s, addr, v), q) <==> IsSlab(s, q)
    ensures forall q: nat | IsSlab(s, q) :: IndexInMemory(s, q) && ListOf(Store(s, addr, v), q) == ListOf(s, q)
  {
    var s' := Store(s, addr, v);
    assert SlabOk(s, p);
    ObjectOffset(s, p, i, addr);
    ObjectInside(CacheOf(s, p), i);
    SlabIsClear(s, reserved, p);
    forall q: nat
      ensures IsSlab(s', q) <==> IsSlab(s, q)
      ensures IsSlab(s, q) ==> SlabOk(s', q) && IndexInMemory(s, q) && ListOf(s', q) == ListOf(s, q)
    {
      if IsSlab(s, q) {
        assert SlabOk(s, q);
        StoreKeepsSlab(s, p, addr, v, q);
      }
    }
    forall j: nat | j < s'.zone.pages && s'.zone.memMap[j].slab != 0
      ensures PointerOk(s', j)
    {
      assert PointerOk(s, j);
    }
  }

  // ---------------------------------------------------------------- new caches

  lemma NewCacheOkIff(name: Option<string>, size: nat, align: nat, flags: nat)
    requires BYTES_PER_LONG <= size <= KMALLOC_MAX_SIZE
    ensures CacheOk(NewCache(name, size, align, flags)) <==> LayoutFits(size, align)
  {
    ObjectCount(size, align);
    RoundedSizeRange(size);
    OrderCases(RoundedSize(size));
    IndexInFirstPage(size);
  }

  /** kmem_cache_create keeps the invariant exactly when it is refused or the layout fits; it never
      disturbs a slab that is there. */
  lemma CreateKeepsInv(s: Kmem, reserved: set<nat>, name: Option<string>, size: nat, align: nat, flags: nat)
    requires Inv(s, reserved)
    ensures Inv(Create(s, name, size, align, flags), reserved) <==> CreateResult(s, name, size).None? || LayoutFits(size, align)
    ensures forall q: nat :: IsSlab(Create(s, name, size, align, flags), q) <==> IsSlab(s, q)
    ensures forall q: nat | IsSlab(s, q) ::
              && CacheOf(Create(s, name, size, align, flags), q) == CacheOf(s, q)
              && IndexInMemory(s, q)
              && ListOf(Create(s, name, size, align, flags), q) == ListOf(s, q)
  {
    var s' := Create(s, name, size, align, flags);
    if CreateResult(s, name, size).Some? {
      var i := CreateResult(s, name, size).value;
      NewCacheOkIff(name, size, align, flags);
      assert s'.caches[i] == NewCache(name, size, align, flags);
      assert s.lists[i] == [];
      assert s'.lists == s.lists;
    }
    forall q: nat
      ensures IsSlab(s', q) <==> IsSlab(s, q)
      ensures IsSlab(s, q) ==> CacheOf(s', q) == CacheOf(s, q) && SlabOk(s', q) && IndexInMemory(s, q) && ListOf(s', q) == ListOf(s, q)
    {
      if IsSlab(s, q) {
        assert SlabOk(s, q);
        SlabOkFrame(s, s', q);
      }
    }
    forall j: nat | j < s'.zone.pages && s'.zone.memMap[j].slab != 0
      ensures PointerOk(s', j)
    {
      assert PointerOk(s, j);
    }
  }
}
