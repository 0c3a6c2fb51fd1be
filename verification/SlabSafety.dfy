/** What callers of caos_kmalloc and caos_kfree can rely on over every run. */
module SlabSafety {
  import opened Bits
  import opened PageAlloc
  import opened PageLedger
  import opened SlabGeometry
  import opened FreeList
  import opened SlabState
  import opened SlabInvariant

  /** Object i of the slab at page p is in a caller's hands. */
  predicate LiveObj(s: Kmem, p: nat, i: nat) {
    IsSlab(s, p) && IndexInMemory(s, p) && Live(ListOf(s, p), i)
  }

  /** The same objects are live, at the same addresses. */
  ghost predicate SameLive(s: Kmem, s': Kmem) {
    && (forall p: nat, i: nat :: LiveObj(s', p, i) <==> LiveObj(s, p, i))
    && (forall p: nat, i: nat | LiveObj(s, p, i) :: CacheOf(s', p) == CacheOf(s, p))
  }

  /** Exactly the object (p, i) became live. */
  ghost predicate Gained(s: Kmem, s': Kmem, p: nat, i: nat) {
    && !LiveObj(s, p, i)
    && (forall q: nat, j: nat :: LiveObj(s', q, j) <==> LiveObj(s, q, j) || (q == p && j == i))
    && (forall q: nat, j: nat | LiveObj(s, q, j) :: CacheOf(s', q) == CacheOf(s, q))
  }

  // ---------------------------------------------------------------- objects do not overlap

  lemma SlotsApart(d: nat, i: nat, j: nat)
    requires i < j
    ensures i * d + d <= j * d
  {
    MultipleAtLeast(d, i + 1, j);
    assert d * (i + 1) == i * d + d && d * j == j * d;
  }

  lemma RangesApart(p: nat, n: nat, q: nat, m: nat, x: nat, dx: nat, y: nat, dy: nat)
    requires p + n <= q || q + m <= p
    requires Va(p) <= x && x + dx <= Va(p) + n * PAGE_SIZE
    requires Va(q) <= y && y + dy <= Va(q) + m * PAGE_SIZE
    ensures x + dx <= y || y + dy <= x
  {
  }

  /** Two different objects, in use or free, share no byte, whatever slabs and caches they belong to. */
  lemma ObjectsApart(s: Kmem, reserved: set<nat>, p: nat, i: nat, q: nat, j: nat)
    requires Inv(s, reserved) && IsSlab(s, p) && IsSlab(s, q) && (p != q || i != j)
    requires i < CacheOf(s, p).num && j < CacheOf(s, q).num
    ensures ObjAddr(s, p, i) + CacheOf(s, p).objSize <= ObjAddr(s, q, j)
         || ObjAddr(s, q, j) + CacheOf(s, q).objSize <= ObjAddr(s, p, i)
  {
    assert SlabOk(s, p) && SlabOk(s, q);
    var c, d := CacheOf(s, p), CacheOf(s, q);
    if p == q {
      SlotsApart(c.objSize, if i < j then i else j, if i < j then j else i);
    } else {
      PagesApart(s.zone, p, c.gfpOrder, q, d.gfpOrder);
      ObjectEnds(s, p, i);
      ObjectEnds(s, q, j);
      RangesApart(p, Pow2(c.gfpOrder), q, Pow2(d.gfpOrder), ObjAddr(s, p, i), c.objSize, ObjAddr(s, q, j), d.objSize);
    }
  }

  lemma ObjectEnds(s: Kmem, p: nat, i: nat)
    requires IsSlab(s, p) && CacheOk(CacheOf(s, p)) && i < CacheOf(s, p).num
    ensures Va(p) <= Va(p) + CacheOf(s, p).colourOff <= ObjAddr(s, p, i)
    ensures ObjAddr(s, p, i) + CacheOf(s, p).objSize <= Va(p) + Pow2(CacheOf(s, p).gfpOrder) * PAGE_SIZE
  {
    ObjectInside(CacheOf(s, p), i);
    assert i * CacheOf(s, p).objSize >= 0;
  }

  /** An object, in use or free, lies in its slab's pages, and off the header and index array of every
      slab; objects, headers and index arrays lie off the cache table and the reserved pages. */
  lemma ObjectClearOfMetadata(s: Kmem, reserved: set<nat>, p: nat, i: nat, q: nat)
    requires Inv(s, reserved) && IsSlab(s, p) && i < CacheOf(s, p).num && IsSlab(s, q)
    ensures Va(p) <= ObjAddr(s, p, i) && ObjAddr(s, p, i) + CacheOf(s, p).objSize <= Va(p) + BlockSize(s.zone, p) * PAGE_SIZE
    ensures ObjAddr(s, p, i) + CacheOf(s, p).objSize <= Va(q)
         || Va(q) + SIZEOF_SLAB + SIZEOF_BUFCTL * CacheOf(s, q).num <= ObjAddr(s, p, i)
    ensures OffTable(s, ObjAddr(s, p, i), ObjAddr(s, p, i) + CacheOf(s, p).objSize)
    ensures OffReserved(reserved, ObjAddr(s, p, i), ObjAddr(s, p, i) + CacheOf(s, p).objSize)
    ensures OffTable(s, Va(q), Va(q) + SIZEOF_SLAB + SIZEOF_BUFCTL * CacheOf(s, q).num)
    ensures OffReserved(reserved, Va(q), Va(q) + SIZEOF_SLAB + SIZEOF_BUFCTL * CacheOf(s, q).num)
  {
    assert SlabOk(s, p) && SlabOk(s, q);
    SlabIsClear(s, reserved, p);
    SlabIsClear(s, reserved, q);
    ObjectEnds(s, p, i);
    IndexRoom(CacheOf(s, q));
    if p != q {
      PagesApart(s.zone, p, CacheOf(s, p).gfpOrder, q, CacheOf(s, q).gfpOrder);
    }
  }

  // ---------------------------------------------------------------- kmalloc, stated without its loops

  /** A cache can serve: it has a slab with a free object, or the zone has pages for a new slab. */
  predicate Serves(s: Kmem, c: nat)
    requires Shaped(s)
  {
    c < |s.caches| && (FindSlab(s, c, 0) < |s.lists[c]| || AllocResult(s.zone, s.caches[c].gfpOrder).Some?)
  }

  /** Index of the first unused entry from c on, or of the table's end. */
  function UsedEnd(caches: seq<Cache>, c: nat): (e: nat)
    ensures c <= e && forall d | c <= d < e :: d < |caches| && caches[d].name.Some?
    ensures e >= |caches| || caches[e].name.None?
    ensures c <= |caches| ==> e <= |caches|
    decreases |caches| - c
  {
    if c >= |caches| || caches[c].name.None? then c else UsedEnd(caches, c + 1)
  }

  /** First cache from c on that can serve, looking no further than the used part of the table. */
  function FirstServing(s: Kmem, c: nat): (r: Option<nat>)
    requires Shaped(s)
    ensures r.Some? ==> c <= r.value < UsedEnd(s.caches, c) && Serves(s, r.value)
    ensures forall d | c <= d < (if r.Some? then r.value else UsedEnd(s.caches, c)) :: !Serves(s, d)
    decreases |s.caches| - c
  {
    if c >= |s.caches| || s.caches[c].name.None? then None
    else if Serves(s, c) then Some(c)
    else FirstServing(s, c + 1)
  }

  lemma {:induction false} FirstUsable(s: Kmem, c: nat, from: nat)
    requires Shaped(s) && c < |s.caches| && from <= |s.lists[c]|
    ensures var k := FindSlab(s, c, from);
            && (forall j | from <= j < k :: !Usable(s.hdrs[s.lists[c][j]], s.caches[c]))
            && (k < |s.lists[c]| ==> Usable(s.hdrs[s.lists[c][k]], s.caches[c]))
    decreases |s.lists[c]| - from
  {
    if from < |s.lists[c]| && !Usable(s.hdrs[s.lists[c][from]], s.caches[c]) {
      FirstUsable(s, c, from + 1);
    }
  }

  /** Serves one object from cache c. */
  function Serve(s: Kmem, c: nat, flags: nat): (Kmem, nat)
    requires Shaped(s) && Serves(s, c)
  {
    var k := FindSlab(s, c, 0);
    if k < |s.lists[c]| then Take(s, c, s.lists[c][k])
    else
      AllocInTable(s.zone, s.caches[c].gfpOrder);
      Take(Grow(s, c, flags), c, AllocResult(s.zone, s.caches[c].gfpOrder).value)
  }

  /** After a grow the new slab is found at once. */
  lemma GrownIsFound(s: Kmem, reserved: set<nat>, c: nat, flags: nat)
    requires Inv(s, reserved) && c < |s.caches| && s.caches[c].name.Some? && AllocResult(s.zone, s.caches[c].gfpOrder).Some?
    ensures var s', p := Grow(s, c, flags), AllocResult(s.zone, s.caches[c].gfpOrder).value;
            Shaped(s') && |s'.lists| == |s.lists| && s'.caches == s.caches && s'.lists[c] != [] && s'.lists[c][0] == p && FindSlab(s', c, 0) == 0
  {
    GrowIsGrown(s, reserved, c, flags);
    GrowShaped(s, c, flags);
  }

  /** The retry loop of caos_kmalloc is this search: caches are tried in table order, each with at
      most one new slab, a failed attempt changes nothing, the retry limit is never reached, and
      when no used cache serves, the loop runs on into the unused part of the table. */
  lemma {:induction false} RetryLoopIsSearch(s: Kmem, reserved: set<nat>, c: nat, flags: nat)
    requires Inv(s, reserved)
    ensures KmallocFrom(s, c, 0, flags) ==
            match FirstServing(s, c)
            case None => (s, Fault)
            case Some(d) => (Serve(s, d, flags).0, Got(Serve(s, d, flags).1))
    decreases |s.caches| - c
  {
    if c < |s.caches| && s.caches[c].name.Some? {
      if FindSlab(s, c, 0) >= |s.lists[c]| {
        GrowIsGrown(s, reserved, c, flags);
        if AllocResult(s.zone, s.caches[c].gfpOrder).Some? {
          GrownIsFound(s, reserved, c, flags);
        } else {
          assert Grow(s, c, flags) == s;
          assert KmallocFrom(s, c, 0, flags) == KmallocFrom(s, c, 1, flags) == KmallocFrom(s, c + 1, 0, flags);
          RetryLoopIsSearch(s, reserved, c + 1, flags);
        }
      }
    }
  }

  lemma {:induction false} FirstLargeEnough(caches: seq<Cache>, size: nat, from: nat)
    requires from <= |caches|
    ensures var c := FindCache(caches, size, from);
            && (forall d | from <= d < c :: caches[d].name.Some? && caches[d].objSize < size)
            && (c < |caches| && caches[c].name.Some? ==> size <= caches[c].objSize)
    decreases |caches| - from
  {
    if from < |caches| && caches[from].name.Some? && size > caches[from].objSize {
      FirstLargeEnough(caches, size, from + 1);
    }
  }

  lemma {:induction false} UsedEndIs(caches: seq<Cache>, from: nat, c: nat)
    requires from <= c <= |caches| && forall d | from <= d < c :: caches[d].name.Some?
    ensures UsedEnd(caches, from) >= c
    decreases c - from
  {
    if from < c {
      UsedEndIs(caches, from + 1, c);
    }
  }

  /** Used caches in table order do not get smaller. */
  ghost predicate Ascending(caches: seq<Cache>) {
    forall i, j | 0 <= i < j < |caches| && caches[i].name.Some? && caches[j].name.Some? :: caches[i].objSize <= caches[j].objSize
  }

  /** Whatever the size asked for, every cache the search can fall back to is large enough. */
  ghost predicate EveryFallbackFits(caches: seq<Cache>) {
    forall size: nat, d: nat | FindCache(caches, size, 0) <= d < UsedEnd(caches, 0) :: size <= caches[d].objSize
  }

  lemma AscendingFits(caches: seq<Cache>, size: nat, d: nat)
    requires Ascending(caches) && FindCache(caches, size, 0) <= d < UsedEnd(caches, 0)
    ensures size <= caches[d].objSize
  {
    FirstLargeEnough(caches, size, 0);
  }

  lemma FittingAscends(caches: seq<Cache>, i: nat, j: nat)
    requires EveryFallbackFits(caches) && i < j < UsedEnd(caches, 0)
    ensures caches[i].objSize <= caches[j].objSize
  {
    FirstLargeEnough(caches, caches[i].objSize, 0);
  }

  /** For a table filled from the front, as creation fills it, every fallback is large enough exactly
      when the sizes ascend. */
  lemma FallbackFitsIffAscending(caches: seq<Cache>)
    requires forall d | UsedEnd(caches, 0) <= d < |caches| :: caches[d].name.None?
    ensures Ascending(caches) <==> EveryFallbackFits(caches)
  {
    if Ascending(caches) {
      forall size: nat, d: nat | FindCache(caches, size, 0) <= d < UsedEnd(caches, 0)
        ensures size <= caches[d].objSize
      {
        AscendingFits(caches, size, d);
      }
    }
    if EveryFallbackFits(caches) {
      forall i, j | 0 <= i < j < |caches| && caches[i].name.Some? && caches[j].name.Some?
        ensures caches[i].objSize <= caches[j].objSize
      {
        FittingAscends(caches, i, j);
      }
    }
  }

  /** When caos_kmalloc returns what: NULL exactly if no used cache is large enough; otherwise an
      object of the first cache from there on that can serve; and, if none can, not NULL but a read
      through the links of an unused table entry. */
  lemma KmallocOutcome(s: Kmem, reserved: set<nat>, size: nat, flags: nat)
    requires Inv(s, reserved)
    ensures var c, o := FindCache(s.caches, size, 0), Kmalloc(s, size, flags).1;
            && (o.Null? <==> c == |s.caches| || s.caches[c].name.None?)
            && (o.Null? <==> forall d | 0 <= d < UsedEnd(s.caches, 0) :: s.caches[d].objSize < size)
            && (o.Fault? <==> !o.Null? && FirstServing(s, c).None?)
            && (o.Got? ==> o.addr == Serve(s, FirstServing(s, c).value, flags).1)
  {
    var c := FindCache(s.caches, size, 0);
    FirstLargeEnough(s.caches, size, 0);
    RetryLoopIsSearch(s, reserved, c, flags);
    UsedEndIs(s.caches, 0, c);
  }

  // ---------------------------------------------------------------- what cache creation answers

  /** The used entries are those below e. */
  predicate UsedBelow(caches: seq<Cache>, e: nat) {
    && e <= |caches|
    && (forall d | 0 <= d < e :: caches[d].name.Some?)
    && (e == |caches| || caches[e].name.None?)
  }

  lemma {:induction false} ScanIs(caches: seq<Cache>, name: string, from: nat, e: nat)
    requires UsedBelow(caches, e) && from <= e
    ensures (exists d | from <= d < e :: caches[d].name == Some(name)) ==> ScanNames(caches, name, from) == Duplicate
    ensures (forall d | from <= d < e :: caches[d].name != Some(name)) ==>
              ScanNames(caches, name, from) == if e == |caches| then Full else Entry(e)
    decreases e - from
  {
    if from < e && caches[from].name != Some(name) {
      ScanIs(caches, name, from + 1, e);
    }
  }

  /** kmem_cache_create is refused exactly without a name, for sizes outside 8 to 2048, for a name that a
      used cache has, and when no entry is left; otherwise it takes the lowest unused entry. */
  lemma CreateAnswer(s: Kmem, name: Option<string>, size: nat, e: nat)
    requires UsedBelow(s.caches, e)
    ensures CreateResult(s, name, size) ==
            if name == None || size < 8 || size > 2048 || e == |s.caches| || (exists d | 0 <= d < e :: s.caches[d].name == name)
            then None else Some(e)
  {
    if name.Some? {
      ScanIs(s.caches, name.value, 0, e);
    }
  }

  /** What it leaves: nothing changed when refused; otherwise one entry with the name, the flags and the
      size rounded up to a multiple of 8, and an empty list. */
  lemma CreateEffect(s: Kmem, name: Option<string>, size: nat, align: nat, flags: nat)
    requires Shaped(s)
    ensures var r, s' := CreateResult(s, name, size), Create(s, name, size, align, flags);
            && (r.None? ==> s' == s)
            && (r.Some? ==>
                  && r.value < |s.caches| == |s'.caches|
                  && s'.caches[r.value].name == name && s'.caches[r.value].flag == flags
                  && size <= s'.caches[r.value].objSize < size + 8 && s'.caches[r.value].objSize % 8 == 0
                  && s'.lists == s.lists[r.value := []]
                  && (forall d | 0 <= d < |s.caches| && d != r.value :: s'.caches[d] == s.caches[d])
                  && s'.zone == s.zone && s'.hdrs == s.hdrs && s'.mem == s.mem && s'.table == s.table)
  {
    if CreateResult(s, name, size).Some? {
      RoundedSizeRange(size);
      assert Pow2(3) == 8;
      RoundUpBounds(size, 3);
      QuotRemAreDivision(RoundedSize(size), 8);
    }
  }

  // ---------------------------------------------------------------- the answer in terms of live objects

  /** Every object of the slab at p is in a caller's hands. */
  ghost predicate FullSlab(s: Kmem, p: nat) {
    IsSlab(s, p) && forall i: nat | i < CacheOf(s, p).num :: LiveObj(s, p, i)
  }

  /** Every object of every slab of cache d is in a caller's hands. */
  ghost predicate FullCache(s: Kmem, d: nat) {
    d < |s.lists| && forall k: nat | k < |s.lists[d]| :: FullSlab(s, s.lists[d][k])
  }

  /** Cache c is the first that is large enough for the size, behind used ones that are not. */
  predicate FirstFit(caches: seq<Cache>, size: nat, c: nat) {
    && c < |caches| && caches[c].name.Some? && size <= caches[c].objSize
    && forall d | 0 <= d < c :: caches[d].name.Some? && caches[d].objSize < size
  }

  /** The zone has no pages for a new slab of cache d. */
  predicate NoPagesFor(s: Kmem, d: nat) {
    d < |s.caches| && AllocResult(s.zone, s.caches[d].gfpOrder).None?
  }

  lemma UsableIffNotFull(s: Kmem, p: nat)
    requires IsSlab(s, p) && SlabOk(s, p)
    ensures Usable(s.hdrs[p], CacheOf(s, p)) <==> !FullSlab(s, p)
    ensures Usable(s.hdrs[p], CacheOf(s, p)) ==> s.hdrs[p].free < CacheOf(s, p).num && !LiveObj(s, p, s.hdrs[p].free)
  {
    var l := ListOf(s, p);
    assert |l.bufctl| == CacheOf(s, p).num;
    TestsAgree(l);
    if l.free == BUFCTL_END {
      assert Chain(l) == [];
      forall i: nat | i < CacheOf(s, p).num
        ensures LiveObj(s, p, i)
      {
      }
    } else {
      assert !LiveObj(s, p, l.free);
    }
  }

  lemma FoundIffNotFull(s: Kmem, reserved: set<nat>, d: nat)
    requires Inv(s, reserved) && d < |s.caches|
    ensures var k := FindSlab(s, d, 0);
            && (k == |s.lists[d]| <==> FullCache(s, d))
            && (forall j: nat | j < k :: FullSlab(s, s.lists[d][j]))
            && (k < |s.lists[d]| ==> !FullSlab(s, s.lists[d][k]))
  {
    FirstUsable(s, d, 0);
    forall j: nat | j < |s.lists[d]|
      ensures IsSlab(s, s.lists[d][j]) && s.hdrs[s.lists[d][j]].cache == d
      ensures Usable(s.hdrs[s.lists[d][j]], s.caches[d]) <==> !FullSlab(s, s.lists[d][j])
    {
      ListedIsSlab(s, d, j);
      assert SlabOk(s, s.lists[d][j]);
      UsableIffNotFull(s, s.lists[d][j]);
    }
  }

  lemma {:induction false} FirstFitIsFound(caches: seq<Cache>, size: nat, c: nat, from: nat)
    requires FirstFit(caches, size, c) && from <= c
    ensures FindCache(caches, size, from) == c
    decreases c - from
  {
    if from < c {
      FirstFitIsFound(caches, size, c, from + 1);
    }
  }

  lemma {:induction false} ServesFirst(s: Kmem, c: nat, d: nat)
    requires Shaped(s) && c <= d < |s.caches| && Serves(s, d)
    requires forall e | c <= e <= d :: s.caches[e].name.Some?
    requires forall e | c <= e < d :: !Serves(s, e)
    ensures FirstServing(s, c) == Some(d)
    decreases d - c
  {
    if c < d {
      ServesFirst(s, c + 1, d);
    }
  }

  lemma KmallocServesFrom(s: Kmem, reserved: set<nat>, size: nat, flags: nat, c: nat, d: nat)
    requires Inv(s, reserved) && FirstFit(s.caches, size, c) && c <= d < |s.caches|
    requires forall e | c <= e <= d :: s.caches[e].name.Some?
    requires forall e | c <= e < d :: FullCache(s, e) && NoPagesFor(s, e)
    requires !FullCache(s, d) || !NoPagesFor(s, d)
    ensures Serves(s, d) && Kmalloc(s, size, flags) == (Serve(s, d, flags).0, Got(Serve(s, d, flags).1))
  {
    forall e | c <= e <= d
      ensures Serves(s, e) <==> !FullCache(s, e) || !NoPagesFor(s, e)
    {
      FoundIffNotFull(s, reserved, e);
    }
    FirstFitIsFound(s.caches, size, c, 0);
    ServesFirst(s, c, d);
    RetryLoopIsSearch(s, reserved, c, flags);
  }

  /** The first slab of a cache that is not full is the one the traversal finds. */
  lemma NotFullIsFound(s: Kmem, reserved: set<nat>, d: nat, k: nat)
    requires Inv(s, reserved) && d < |s.caches| && k < |s.lists[d]|
    requires !FullSlab(s, s.lists[d][k]) && forall j: nat | j < k :: FullSlab(s, s.lists[d][j])
    ensures FindSlab(s, d, 0) == k
    ensures var p := s.lists[d][k];
            IsSlab(s, p) && s.hdrs[p].cache == d && s.hdrs[p].free != BUFCTL_END && s.hdrs[p].free < s.caches[d].num
  {
    FoundIffNotFull(s, reserved, d);
    ListedIsSlab(s, d, k);
    assert SlabOk(s, s.lists[d][k]);
    UsableIffNotFull(s, s.lists[d][k]);
  }

  /** caos_kmalloc answers from cache d: the first fitting one, or one behind it when all those between
      are full and get no pages. If a slab of d has an object that is not in use, the first such slab, and
      no other, gives one of its unused objects; no page is taken and no list changes. */
  lemma KmallocTakesFirstFree(s: Kmem, reserved: set<nat>, size: nat, flags: nat, c: nat, d: nat, k: nat)
    requires Inv(s, reserved) && FirstFit(s.caches, size, c) && c <= d < |s.caches|
    requires forall e | c <= e <= d :: s.caches[e].name.Some?
    requires forall e | c <= e < d :: FullCache(s, e) && NoPagesFor(s, e)
    requires k < |s.lists[d]| && !FullSlab(s, s.lists[d][k]) && forall j: nat | j < k :: FullSlab(s, s.lists[d][j])
    ensures IsSlab(s, s.lists[d][k]) && CacheOf(s, s.lists[d][k]) == s.caches[d]
    ensures var (s', o) := Kmalloc(s, size, flags);
            && o.Got? && s'.zone == s.zone && s'.lists == s.lists && s'.mem == s.mem
            && exists i: nat :: i < s.caches[d].num && Gained(s, s', s.lists[d][k], i) && o.addr == ObjAddr(s, s.lists[d][k], i)
  {
    var p := s.lists[d][k];
    KmallocServesFrom(s, reserved, size, flags, c, d);
    NotFullIsFound(s, reserved, d, k);
    TakeGains(s, reserved, p);
    assert Gained(s, Take(s, d, p).0, p, s.hdrs[p].free);
  }

  /** If all of d's slabs are full, it gets one more, in front of the others, and its first object. */
  lemma KmallocAddsSlab(s: Kmem, reserved: set<nat>, size: nat, flags: nat, c: nat, d: nat)
    requires Inv(s, reserved) && FirstFit(s.caches, size, c) && c <= d < |s.caches|
    requires forall e | c <= e <= d :: s.caches[e].name.Some?
    requires forall e | c <= e < d :: FullCache(s, e) && NoPagesFor(s, e)
    requires FullCache(s, d) && !NoPagesFor(s, d)
    ensures var (s', o) := Kmalloc(s, size, flags);
            var p := AllocResult(s.zone, s.caches[d].gfpOrder).value;
            && o == Got(Va(p) + s.caches[d].colourOff)
            && s'.lists == s.lists[d := [p] + s.lists[d]]
            && p < |s'.hdrs| && s'.hdrs[p].cache == d && s'.hdrs[p].inuse == 1
  {
    KmallocServesFrom(s, reserved, size, flags, c, d);
    FoundIffNotFull(s, reserved, d);
    GrowIsGrown(s, reserved, d, flags);
  }

  lemma {:induction false} NobodyServesFrom(s: Kmem, c: nat, e: nat)
    requires Shaped(s) && c <= e <= |s.caches| && (e == |s.caches| || s.caches[e].name.None?)
    requires forall d | c <= d < e :: s.caches[d].name.Some?
    ensures FirstServing(s, c).None? <==> forall d | c <= d < e :: !Serves(s, d)
    decreases e - c
  {
    if c < e && !Serves(s, c) {
      NobodyServesFrom(s, c + 1, e);
    }
  }

  /** Fault happens exactly when every used cache from the first fitting one on is full and gets no pages.
      The used caches are those below e. */
  lemma KmallocFaultIff(s: Kmem, reserved: set<nat>, size: nat, flags: nat, c: nat, e: nat)
    requires Inv(s, reserved) && FirstFit(s.caches, size, c) && c < e
    requires UsedBelow(s.caches, e)
    ensures Kmalloc(s, size, flags).1.Fault? <==> forall d | c <= d < e :: FullCache(s, d) && NoPagesFor(s, d)
  {
    forall d | c <= d < e
      ensures Serves(s, d) <==> !FullCache(s, d) || !NoPagesFor(s, d)
    {
      FoundIffNotFull(s, reserved, d);
    }
    FirstFitIsFound(s.caches, size, c, 0);
    KmallocOutcome(s, reserved, size, flags);
    NobodyServesFrom(s, c, e);
  }

  /** NULL is the answer exactly when no used cache is large enough. */
  lemma KmallocNullIff(s: Kmem, reserved: set<nat>, size: nat, flags: nat, e: nat)
    requires Inv(s, reserved)
    requires UsedBelow(s.caches, e)
    ensures Kmalloc(s, size, flags).1.Null? <==> forall d | 0 <= d < e :: s.caches[d].objSize < size
  {
    KmallocOutcome(s, reserved, size, flags);
    UsedEndIs(s.caches, 0, e);
    assert UsedEnd(s.caches, 0) == e;
  }

  // ---------------------------------------------------------------- what each operation does to live objects

  lemma TakeGains(s: Kmem, reserved: set<nat>, p: nat)
    requires Inv(s, reserved) && IsSlab(s, p) && s.hdrs[p].free != BUFCTL_END
    ensures var (s', addr) := Take(s, s.hdrs[p].cache, p);
            var i := s.hdrs[p].free;
            && Inv(s', reserved) && s'.caches == s.caches && s'.table == s.table
            && Gained(s, s', p, i) && addr == ObjAddr(s', p, i)
  {
    assert SlabOk(s, p);
    var l, i := ListOf(s, p), s.hdrs[p].free;
    TakeIsWithList(s, p);
    TakeKeepsGood(l);
    TestsAgree(l);
    WithListKeepsInv(s, reserved, p, TakeFirst(l));
    var s' := WithList(s, p, TakeFirst(l));
    forall q: nat, j: nat
      ensures LiveObj(s', q, j) <==> LiveObj(s, q, j) || (q == p && j == i)
    {
    }
  }

  lemma GrowSameLive(s: Kmem, reserved: set<nat>, c: nat, flags: nat)
    requires Inv(s, reserved) && c < |s.caches| && s.caches[c].name.Some? && StaysInside(s.zone, s.caches[c].gfpOrder)
    ensures SameLive(s, Grow(s, c, flags))
  {
    GrowIsGrown(s, reserved, c, flags);
    if AllocResult(s.zone, s.caches[c].gfpOrder).Some? {
      var p := AllocResult(s.zone, s.caches[c].gfpOrder).value;
      FreeBlockIsNoSlab(s, reserved, p, s.caches[c].gfpOrder);
      GrownSlabs(s, reserved, c, p, flags);
      GrownSlabSet(s, c, p, flags);
      FreshIsGood(s.caches[c].num);
    }
  }

  /** A new slab, if one is needed to serve from cache c, gets its pages from inside the zone. */
  predicate ServeStaysInside(s: Kmem, c: nat)
    requires Shaped(s) && c < |s.caches|
  {
    FindSlab(s, c, 0) == |s.lists[c]| ==> StaysInside(s.zone, s.caches[c].gfpOrder)
  }

  /** The same for the cache that answers the request, if any does. */
  predicate KmallocStaysInside(s: Kmem, size: nat)
    requires Shaped(s)
  {
    var d := FirstServing(s, FindCache(s.caches, size, 0));
    d.Some? ==> ServeStaysInside(s, d.value)
  }

  /** What a grow that gets pages leaves in the zone: the block is taken, and each of its pages carries the
      flags asked for with PG_slab (bit 7), and the address of the slab; no other descriptor changes. */
  lemma GrowPages(s: Kmem, reserved: set<nat>, c: nat, flags: nat)
    requires Inv(s, reserved) && c < |s.caches| && AllocResult(s.zone, s.caches[c].gfpOrder).Some?
    ensures var s', p, n := Grow(s, c, flags), AllocResult(s.zone, s.caches[c].gfpOrder).value, Pow2(s.caches[c].gfpOrder);
            && s'.zone.freePages + n == s.zone.freePages && |s'.zone.memMap| == |s.zone.memMap|
            && (forall i | 0 <= i < |s.zone.memMap| && p <= i < p + n ::
                  && s'.zone.memMap[i].slab == Va(p) && s'.zone.memMap[i].count == 1
                  && s'.zone.memMap[i].flags == SetBit(flags, 7) && BitSet(s'.zone.memMap[i].flags, 7))
            && (forall i | 0 <= i < |s.zone.memMap| && !(p <= i < p + n) :: s'.zone.memMap[i] == s.zone.memMap[i])
  {
    GrowIsGrown(s, reserved, c, flags);
    AllocEffect(s.zone, s.caches[c].gfpOrder, flags);
    var p, n := AllocResult(s.zone, s.caches[c].gfpOrder).value, Pow2(s.caches[c].gfpOrder);
    forall i | 0 <= i < |s.zone.memMap| && p <= i < p + n
      ensures BitSet(Grow(s, c, flags).zone.memMap[i].flags, 7)
    {
      SetBitSets(AllocState(s.zone, s.caches[c].gfpOrder, flags).memMap[i].flags, 7);
    }
  }

  /** And elsewhere: the slab is the first of its cache, with nothing in use; its array, behind the 64 bytes
      of the header, links every object to the next and ends in 0xFFFF; nothing else changes. */
  lemma GrowHeader(s: Kmem, reserved: set<nat>, c: nat, flags: nat)
    requires Inv(s, reserved) && c < |s.caches| && AllocResult(s.zone, s.caches[c].gfpOrder).Some?
    ensures var s', p := Grow(s, c, flags), AllocResult(s.zone, s.caches[c].gfpOrder).value;
            && p < |s.hdrs| && s'.caches == s.caches && s'.table == s.table
            && s'.lists == s.lists[c := [p] + s.lists[c]]
            && s'.hdrs == s.hdrs[p := SlabHdr(c, Va(p) + s.caches[c].colourOff, 0, 0, s.caches[c].colourOff, Va(p) + 64)]
            && |s'.mem| == |s.mem|
            && forall j | 0 <= j < |s.mem| :: s'.mem[j] ==
                 (if HalfOf(Va(p) + 64) <= j < HalfOf(Va(p) + 64) + s.caches[c].num
                  then (if j + 1 == HalfOf(Va(p) + 64) + s.caches[c].num then 0xFFFF else (j - HalfOf(Va(p) + 64) + 1) % 0x1_0000)
                  else s.mem[j])
  {
    AllocAnswer(s.zone, s.caches[c].gfpOrder);
  }

  lemma ServeGains(s: Kmem, reserved: set<nat>, c: nat, flags: nat)
    requires Inv(s, reserved) && c < |s.caches| && s.caches[c].name.Some? && Serves(s, c) && ServeStaysInside(s, c)
    ensures var (s', addr) := Serve(s, c, flags);
            && Inv(s', reserved) && s'.caches == s.caches && s'.table == s.table
            && exists p: nat, i: nat :: Gained(s, s', p, i) && addr == ObjAddr(s', p, i) && s'.hdrs[p].cache == c
  {
    var k := FindSlab(s, c, 0);
    FirstUsable(s, c, 0);
    if k < |s.lists[c]| {
      ListedIsSlab(s, c, k);
      TakeGains(s, reserved, s.lists[c][k]);
    } else {
      var s1, p := Grow(s, c, flags), AllocResult(s.zone, s.caches[c].gfpOrder).value;
      GrowKeepsInv(s, reserved, c, flags);
      GrowSameLive(s, reserved, c, flags);
      GrownIsFound(s, reserved, c, flags);
      ListedIsSlab(s1, c, 0);
      FirstUsable(s1, c, 0);
      TakeGains(s1, reserved, p);
      assert Gained(s, Take(s1, c, p).0, p, s1.hdrs[p].free);
    }
  }

  lemma ServeEscapes(s: Kmem, reserved: set<nat>, c: nat, flags: nat)
    requires Inv(s, reserved) && c < |s.caches| && Serves(s, c) && !ServeStaysInside(s, c)
    ensures var s' := Serve(s, c, flags).0; !Inv(s', reserved) && s'.caches == s.caches && s'.table == s.table
  {
    EscapedBreaks(s, reserved, c, flags);
    GrowShaped(s, c, flags);
    AllocInTable(s.zone, s.caches[c].gfpOrder);
  }

  /** A failed caos_kmalloc changes nothing. One that succeeds keeps the invariant exactly when the
      pages of a slab it may have to add lie inside the zone; it then hands out one object that nobody
      held, in the first large enough cache or behind it, and changes no other. */
  lemma KmallocGains(s: Kmem, reserved: set<nat>, size: nat, flags: nat)
    requires Inv(s, reserved)
    ensures Inv(Kmalloc(s, size, flags).0, reserved) <==> KmallocStaysInside(s, size)
    ensures var (s', o) := Kmalloc(s, size, flags);
            && s'.caches == s.caches && s'.table == s.table
            && (o.Got? && KmallocStaysInside(s, size) ==>
                  exists p: nat, i: nat :: Gained(s, s', p, i) && o.addr == ObjAddr(s', p, i) && s'.hdrs[p].cache >= FindCache(s.caches, size, 0))
            && (!o.Got? ==> s' == s)
  {
    var c := FindCache(s.caches, size, 0);
    RetryLoopIsSearch(s, reserved, c, flags);
    if c < |s.caches| && s.caches[c].name.Some? && FirstServing(s, c).Some? {
      if KmallocStaysInside(s, size) {
        ServeGains(s, reserved, FirstServing(s, c).value, flags);
      } else {
        ServeEscapes(s, reserved, FirstServing(s, c).value, flags);
      }
    }
  }

  lemma ShrinkSameLive(s: Kmem, reserved: set<nat>, c: nat)
    requires Inv(s, reserved) && c < |s.caches|
    ensures SameLive(s, Shrink(s, c))
  {
    var k := FindIdle(s, c, 0);
    ShrinkIsDropped(s, reserved, c);
    FirstIdle(s, c, 0);
    if k < |s.lists[c]| {
      var p := s.lists[c][k];
      ListedIsSlab(s, c, k);
      assert SlabOk(s, p);
      DroppedLists(s, c, k);
      DroppedSlabs(s, reserved, c, k);
      IdleHasNoLive(ListOf(s, p));
    }
  }

  /** A list with nothing in use has no live index. */
  lemma IdleHasNoLive(l: SlabList)
    requires Good(l) && l.inuse == 0
    ensures forall i: nat :: !Live(l, i)
  {
    forall i: nat | i < |l.bufctl|
      ensures !Live(l, i)
    {
      if Live(l, i) {
        PutKeepsGood(l, i);
        assert false;
      }
    }
  }

  lemma {:induction false} FirstIdleIs(s: Kmem, c: nat, from: nat, k: nat)
    requires Shaped(s) && c < |s.caches| && from <= k <= |s.lists[c]|
    requires forall j | from <= j < k :: s.hdrs[s.lists[c][j]].inuse > 0
    requires k < |s.lists[c]| ==> s.hdrs[s.lists[c][k]].inuse == 0
    ensures FindIdle(s, c, from) == k
    decreases k - from
  {
    if from < k {
      FirstIdleIs(s, c, from + 1, k);
    }
  }

  /** Page i is one of the pages of the k-th slab of cache c. */
  ghost predicate InSlab(s: Kmem, c: nat, k: nat, i: int)
    requires c < |s.caches| == |s.lists| && k < |s.lists[c]|
  {
    s.lists[c][k] <= i < s.lists[c][k] + Pow2(s.caches[c].gfpOrder)
  }

  /** `after` is `s` without the k-th slab of cache c: its pages are free and point to no slab, the
      zone counts them as free, all other page descriptors, all slab headers and all memory are as before, and the other slabs keep their order. */
  ghost predicate SlabGivenUp(s: Kmem, after: Kmem, c: nat, k: nat)
    requires c < |s.caches| == |s.lists| && k < |s.lists[c]|
  {
    && after.lists == s.lists[c := s.lists[c][..k] + s.lists[c][k + 1..]]
    && after.zone.freePages == s.zone.freePages + Pow2(s.caches[c].gfpOrder)
    && after.hdrs == s.hdrs && after.mem == s.mem && after.caches == s.caches
    && |after.zone.memMap| == |s.zone.memMap|
    && (forall i | 0 <= i < |s.zone.memMap| && !InSlab(s, c, k, i) :: after.zone.memMap[i] == s.zone.memMap[i])
    && (forall i | 0 <= i < |s.zone.memMap| && InSlab(s, c, k, i) ::
          after.zone.memMap[i].count == 0 && after.zone.memMap[i].slab == 0 && !BitSet(after.zone.memMap[i].flags, 7))
  }

  lemma DroppedGivesUp(s: Kmem, c: nat, k: nat)
    requires c < |s.caches| == |s.lists| && k < |s.lists[c]| && IsHead(s.zone, s.lists[c][k])
    requires BlockOk(s.zone, s.lists[c][k]) && s.zone.memMap[s.lists[c][k]].private == s.caches[c].gfpOrder
    ensures SlabGivenUp(s, Dropped(s, c, k), c, k)
  {
    forall i | 0 <= i < |s.zone.memMap| && InSlab(s, c, k, i)
      ensures !BitSet(Dropped(s, c, k).zone.memMap[i].flags, 7)
    {
      ClearBitClears(s.zone.memMap[i].flags, 7);
    }
  }

  /** kmem_cache_shrink, with the first k slabs of the list in use and the next one, if any, idle:
      it gives up that slab and no other. */
  lemma ShrinkDropsFirstIdle(s: Kmem, reserved: set<nat>, c: nat, k: nat)
    requires Inv(s, reserved) && c < |s.caches| && k <= |s.lists[c]|
    requires forall j | 0 <= j < k :: s.hdrs[s.lists[c][j]].inuse > 0
    requires k < |s.lists[c]| ==> s.hdrs[s.lists[c][k]].inuse == 0
    ensures if k == |s.lists[c]| then Shrink(s, c) == s else SlabGivenUp(s, Shrink(s, c), c, k)
  {
    ShrinkIsDropped(s, reserved, c);
    FirstIdleIs(s, c, 0, k);
    if k < |s.lists[c]| {
      ListedIsSlab(s, c, k);
      assert SlabOk(s, s.lists[c][k]);
      DroppedGivesUp(s, c, k);
    }
  }

  // ---------------------------------------------------------------- kfree

  /** The slab that caos_kfree finds for an address: through the descriptor of its page. */
  function HomePage(s: Kmem, addr: nat): nat {
    if PageOf(addr) < s.zone.pages <= |s.zone.memMap| then PageOf(s.zone.memMap[PageOf(addr)].slab) else 0
  }

  function HomeIndex(s: Kmem, addr: nat): nat {
    var p := HomePage(s, addr);
    if IsSlab(s, p) && CacheOf(s, p).objSize > 0 then Quot(Sub64(addr, s.hdrs[p].sMem), CacheOf(s, p).objSize) else 0
  }

  /** The object that contains the address is live. */
  predicate InLiveObject(s: Kmem, addr: nat) {
    var p, i := HomePage(s, addr), HomeIndex(s, addr);
    LiveObj(s, p, i) && ObjAddr(s, p, i) <= addr < ObjAddr(s, p, i) + CacheOf(s, p).objSize
  }

  /** Every address inside a live object leads to that object. */
  lemma LiveObjectLeadsHome(s: Kmem, reserved: set<nat>, p: nat, i: nat, addr: nat)
    requires Inv(s, reserved) && LiveObj(s, p, i)
    requires ObjAddr(s, p, i) <= addr < ObjAddr(s, p, i) + CacheOf(s, p).objSize
    ensures HomePage(s, addr) == p && HomeIndex(s, addr) == i && InLiveObject(s, addr)
  {
    assert SlabOk(s, p);
    ObjectHome(s, p, i, addr);
  }

  /** Freeing any address inside a live object makes exactly that object free. */
  lemma KfreeLoses(s: Kmem, reserved: set<nat>, addr: nat)
    requires Inv(s, reserved) && InLiveObject(s, addr)
    ensures PageOf(addr) < s.zone.pages
    ensures var s', p, i := Kfree(s, addr), HomePage(s, addr), HomeIndex(s, addr);
            && Inv(s', reserved) && s'.caches == s.caches && Gained(s', s, p, i)
            && s'.zone == s.zone && s'.lists == s.lists
  {
    var p, i := HomePage(s, addr), HomeIndex(s, addr);
    assert SlabOk(s, p);
    var l := ListOf(s, p);
    PutKeepsGood(l, i);
    KfreeIsWithList(s, p, i, addr);
    WithListKeepsInv(s, reserved, p, PutBack(l, i));
    var s' := WithList(s, p, PutBack(l, i));
    forall q: nat, j: nat
      ensures LiveObj(s, q, j) <==> LiveObj(s', q, j) || (q == p && j == i)
    {
    }
  }

  /** The two checks of caos_kfree: the page belongs to no slab, or its slab has nothing in use. */
  predicate Rejected(s: Kmem, addr: nat)
    requires Shaped(s) && PageOf(addr) < s.zone.pages
  {
    s.zone.memMap[PageOf(addr)].slab == 0 || (IsSlab(s, HomePage(s, addr)) && s.hdrs[HomePage(s, addr)].inuse == 0)
  }

  /** The slab behind a page that is not rejected. */
  lemma AcceptedHome(s: Kmem, reserved: set<nat>, addr: nat)
    requires Inv(s, reserved) && PageOf(addr) < s.zone.pages && !Rejected(s, addr)
    ensures var p := HomePage(s, addr);
            && IsSlab(s, p) && SlabOk(s, p) && InBlock(s.zone, p, PageOf(addr)) && CacheOk(CacheOf(s, p))
            && s.zone.memMap[PageOf(addr)].slab == Va(p) && s.hdrs[p].inuse > 0
  {
    var p := HomePage(s, addr);
    assert PointerOk(s, PageOf(addr));
    assert SlabOk(s, p);
  }

  /** A chain of free objects cannot begin at an index the slab does not have. */
  lemma ForeignIndexBreaks(s: Kmem, p: nat, addr: nat)
    requires Shaped(s) && IsSlab(s, p) && SlabOk(s, p) && CacheOk(CacheOf(s, p)) && s.hdrs[p].inuse > 0
    requires PageOf(addr) < s.zone.pages && s.zone.memMap[PageOf(addr)].slab == Va(p)
    requires Quot(Sub64(addr, s.hdrs[p].sMem), CacheOf(s, p).objSize) >= CacheOf(s, p).num
    ensures IsSlab(Kfree(s, addr), p) && !SlabOk(Kfree(s, addr), p)
  {
    PageOfOffset(p, 0);
    assert s.zone.memMap[PageOf(addr)].slab != 0;
    var s' := Kfree(s, addr);
    assert IsSlab(s', p) && IndexInMemory(s', p) && CacheOf(s', p) == CacheOf(s, p);
    var l' := ListOf(s', p);
    assert l'.free >= |l'.bufctl| && l'.inuse < |l'.bufctl|;
    assert !Good(l');
  }

  /** Replacing a slab's list keeps the invariant exactly when the new list is sound. */
  lemma WithListSoundIff(s: Kmem, reserved: set<nat>, p: nat, l: SlabList)
    requires Inv(s, reserved) && IsSlab(s, p) && IndexInMemory(s, p) && |l.bufctl| == CacheOf(s, p).num
    ensures Inv(WithList(s, p, l), reserved) <==> Good(l)
  {
    if Good(l) {
      WithListKeepsInv(s, reserved, p, l);
    } else {
      WithListBack(s, p, l);
      assert !SlabOk(WithList(s, p, l), p);
    }
  }

  lemma IndexSoundIff(s: Kmem, reserved: set<nat>, p: nat, i: nat, addr: nat)
    requires Inv(s, reserved) && IsSlab(s, p) && SlabOk(s, p) && CacheOk(CacheOf(s, p)) && s.hdrs[p].inuse > 0
    requires PageOf(addr) < s.zone.pages && s.zone.memMap[PageOf(addr)].slab == Va(p)
    requires i < CacheOf(s, p).num && i == Quot(Sub64(addr, s.hdrs[p].sMem), CacheOf(s, p).objSize)
    ensures Inv(Kfree(s, addr), reserved) <==> LiveObj(s, p, i)
  {
    KfreeActsOn(s, p, i, addr);
    PutBackSoundIffLive(ListOf(s, p), i);
    WithListSoundIff(s, reserved, p, PutBack(ListOf(s, p), i));
  }

  /** caos_kfree does not look whether the object is in use, nor whether the address is inside an
      object at all. The invariant survives exactly when the address is rejected or the index that
      the division gives is that of a live object of the slab. */
  lemma KfreeSoundIff(s: Kmem, reserved: set<nat>, addr: nat)
    requires Inv(s, reserved) && PageOf(addr) < s.zone.pages
    ensures Inv(Kfree(s, addr), reserved) <==> Rejected(s, addr) || LiveObj(s, HomePage(s, addr), HomeIndex(s, addr))
  {
    var p, i := HomePage(s, addr), HomeIndex(s, addr);
    if Rejected(s, addr) {
      return;
    }
    AcceptedHome(s, reserved, addr);
    if i < CacheOf(s, p).num {
      IndexSoundIff(s, reserved, p, i, addr);
    } else {
      ForeignIndexBreaks(s, p, addr);
    }
  }

  /** caos_kfree changes nothing exactly for an address in a page that no slab owns or in a slab with
      nothing in use. */
  lemma KfreeIgnoresIff(s: Kmem, reserved: set<nat>, addr: nat)
    requires Inv(s, reserved) && PageOf(addr) < s.zone.pages
    ensures Kfree(s, addr) == s <==>
            || (forall p: nat | IsSlab(s, p) :: !InBlock(s.zone, p, PageOf(addr)))
            || (exists p: nat :: IsSlab(s, p) && InBlock(s.zone, p, PageOf(addr)) && s.hdrs[p].inuse == 0)
  {
    forall p: nat | IsSlab(s, p) && InBlock(s.zone, p, PageOf(addr))
      ensures HomePage(s, addr) == p && s.zone.memMap[PageOf(addr)].slab != 0
    {
      assert SlabOk(s, p);
      PageOfOffset(p, 0);
    }
    if !Rejected(s, addr) {
      AcceptedHome(s, reserved, addr);
    } else if s.zone.memMap[PageOf(addr)].slab != 0 {
      assert PointerOk(s, PageOf(addr));
    }
  }

  lemma WithListBack(s: Kmem, p: nat, l: SlabList)
    requires IsSlab(s, p) && IndexInMemory(s, p) && |l.bufctl| == CacheOf(s, p).num
    ensures var s1 := WithList(s, p, l);
            && IsSlab(s1, p) && IndexInMemory(s1, p) && ListOf(s1, p) == l && CacheOf(s1, p) == CacheOf(s, p)
            && WithList(s1, p, ListOf(s, p)) == s
  {
    var s1 := WithList(s, p, l);
    assert ListOf(s1, p).bufctl == l.bufctl;
    var s2 := WithList(s1, p, ListOf(s, p));
    assert s2.mem == s.mem;
    assert s2.hdrs == s.hdrs;
  }

  /** kmalloc from a slab with a free object, then kfree of what it gave, restores header and index
      array exactly: the same request gets the same object again. */
  lemma KfreeUndoesKmalloc(s: Kmem, reserved: set<nat>, p: nat)
    requires Inv(s, reserved) && IsSlab(s, p) && s.hdrs[p].free != BUFCTL_END
    ensures var (s1, addr) := Take(s, s.hdrs[p].cache, p);
            Shaped(s1) && PageOf(addr) < s1.zone.pages && Kfree(s1, addr) == s
  {
    assert SlabOk(s, p);
    var l, i := ListOf(s, p), s.hdrs[p].free;
    var (s1, addr) := Take(s, s.hdrs[p].cache, p);
    TakeGains(s, reserved, p);
    TakeIsWithList(s, p);
    WithListBack(s, p, TakeFirst(l));
    assert SlabOk(s1, p);
    KfreeIsWithList(s1, p, i, addr);
    PutUndoesTake(l);
  }
}
