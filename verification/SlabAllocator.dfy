/** src/slab.c as it runs: tables, headers, memory and list links updated in place. Every method is
    proved against its specification in SlabState. */
module SlabAllocator {
  import opened Bits
  import opened PageAlloc
  import opened PageLedger
  import opened SlabGeometry
  import opened SlabState
  import opened SlabInvariant
  import opened SlabSafety
  import opened ListHead

  class Allocator {
    const zone: Zone
    const caches: array<Cache>
    const hdrs: array<SlabHdr>
    const mem: array<nat>

    /** Node p is the list_head in the slab header at page p; node pages + c is cache c's head. */
    const links: LinkTable

    /** First of the pages that hold the cache table, once kmem_cache_init has them. */
    var table: Option<nat>

    /** For each cache, the pages of its slabs in list order. */
    ghost var lists: seq<seq<nat>>

    constructor (zone: Zone, caches: array<Cache>, hdrs: array<SlabHdr>, mem: array<nat>, links: LinkTable)
      ensures this.zone == zone && this.caches == caches && this.hdrs == hdrs && this.mem == mem && this.links == links
      ensures table == None && lists == seq(caches.Length, _ => [])
    {
      this.zone, this.caches, this.hdrs, this.mem, this.links := zone, caches, hdrs, mem, links;
      table, lists := None, seq(caches.Length, _ => []);
    }

    ghost predicate Wired() {
      && zone.Wired() && links.Valid()
      && hdrs.Length == zone.pages && mem.Length == zone.pages * HALVES
      && links.next.Length == zone.pages + caches.Length
      && mem as object != links.next && mem as object != links.prev
    }

    ghost function Parts(): set<object> {
      {zone, zone.memMap, caches, hdrs, mem, links.next, links.prev}
    }

    ghost function View(): Kmem
      reads this, Parts()
    {
      Kmem(zone.View(), caches[..], hdrs[..], mem[..], lists, table)
    }

    /** The circle of cache c: its head, then its slabs. */
    ghost function Circle(c: nat): seq<nat>
      requires c < |lists|
      reads this
    {
      [zone.pages + c] + lists[c]
    }

    ghost predicate Linked()
      reads this, Parts()
    {
      |lists| == caches.Length &&
      forall c: nat | c < caches.Length && caches[c].name.Some? :: Ring(links.View(), Circle(c))
    }

    ghost predicate Valid(reserved: set<nat>)
      reads this, Parts()
    {
      Wired() && Inv(View(), reserved) && Linked()
    }

    ghost predicate ListsInZone()
      reads this
    {
      forall d: nat, q: nat {:trigger q in lists[d]} | d < |lists| && q in lists[d] :: q < zone.pages
    }

    /** Lists hold page numbers of the zone, and no page is on two lists. */
    ghost predicate ListsSeparate()
      reads this
    {
      && |lists| == caches.Length && ListsInZone()
      && (forall d: nat, e: nat, q: nat {:trigger q in lists[d], q in lists[e]} |
            d < |lists| && e < |lists| && q in lists[d] && q in lists[e] :: d == e)
    }

    lemma CirclesApart(c: nat, d: nat)
      requires ListsSeparate() && c < |lists| && d < |lists| && c != d
      ensures NoCommonNode(Circle(c), Circle(d))
    {
    }

    // -------------------------------------------------------------- list traversal

    /** One step of list_for_each_entry: from the k-th slab of cache c to the next, or to the head. */
    lemma NextInCircle(c: nat, k: nat)
      requires Wired() && Linked() && c < caches.Length && caches[c].name.Some? && k <= |lists[c]|
      ensures var node := if k == 0 then zone.pages + c else lists[c][k - 1];
              && node < links.next.Length
              && links.next[node] == (if k < |lists[c]| then lists[c][k] else zone.pages + c)
    {
      var s := Circle(c);
      assert ListHead.Linked(links.View(), s, k);
    }

    // -------------------------------------------------------------- pages of a slab

    /** kmem_getpages; the result is the number of the first page. */
    method KmemGetPages(order: nat, flags: nat) returns (first: Option<nat>)
      requires Wired()
      modifies zone, zone.memMap
      ensures first == AllocResult(old(zone.View()), order)
      ensures zone.View() == GetPages(old(zone.View()), order, flags)
    {
      AllocInTable(zone.View(), order);
      first := PageAlloc.AllocPages(flags, order, zone);
      if first.None? {
        return;
      }
      OrderBound(order);
      MarkSlabPages(first.value, Pow2(order), zone.memMap[first.value].virt);
    }

    /** The loop of kmem_getpages, from the last page of the block down. */
    method MarkSlabPages(p: nat, n: nat, virt: nat)
      requires p + n <= zone.memMap.Length
      modifies zone.memMap
      ensures zone.memMap[..] == MarkPages(old(zone.memMap[..]), p, n, virt)
    {
      ghost var m := zone.memMap[..];
      var i := n;
      while i > 0
        invariant 0 <= i <= n
        invariant forall k | 0 <= k < zone.memMap.Length ::
                    zone.memMap[k] == if p + i <= k < p + n then m[k].(flags := SetBit(m[k].flags, PG_SLAB), slab := virt) else m[k]
      {
        i := i - 1;
        zone.memMap[p + i] := zone.memMap[p + i].(flags := SetBit(zone.memMap[p + i].flags, PG_SLAB), slab := virt);
      }
      assert zone.memMap[..] == MarkPages(m, p, n, virt);
    }

    /** kmem_freepages */
    method KmemFreePages(order: nat, page: nat)
      requires Wired() && page < zone.pages && order <= MAX_PAGE_ORDER
      modifies zone, zone.memMap
      ensures zone.View() == FreeSlabPages(old(zone.View()), order, page)
    {
      if zone.memMap[page].private != order {
        return;
      }
      OrderBound(order);
      var n := Pow2(order);
      ghost var m := zone.memMap[..];
      var i := n;
      while i > 0
        invariant 0 <= i <= n && zone.freePages == old(zone.freePages)
        invariant forall k | 0 <= k < zone.memMap.Length ::
                    zone.memMap[k] == if page <= k < page + (n - i) then m[k].(flags := ClearBit(m[k].flags, PG_SLAB), slab := 0) else m[k]
      {
        var k := page + (n - i);
        zone.memMap[k] := zone.memMap[k].(flags := ClearBit(zone.memMap[k].flags, PG_SLAB), slab := 0);
        i := i - 1;
      }
      assert zone.memMap[..] == UnmarkPages(m, page, n);
      zone.FreePages(page, order);
    }

    // -------------------------------------------------------------- grow

    /** The index array of a new slab. */
    method InitBufctl(at: nat, num: nat)
      requires at + num <= mem.Length && num >= 1
      modifies mem
      ensures mem[..] == FillBufctl(old(mem[..]), at, num)
    {
      var i := 0;
      while i < num
        invariant i <= num
        invariant forall j | 0 <= j < mem.Length ::
                    mem[j] == if at <= j < at + i then (j - at + 1) % 0x10000 else old(mem[j])
      {
        mem[at + i] := (i + 1) % 0x10000;
        i := i + 1;
      }
      mem[at + i - 1] := BUFCTL_END;
    }

    /** Puts the slab at page p first on cache c's list. */
    method LinkSlab(c: nat, p: nat)
      requires Wired() && Linked() && ListsSeparate() && c < caches.Length && caches[c].name.Some? && p < zone.pages
      requires forall d | 0 <= d < |lists| :: p !in lists[d]
      modifies this`lists, links.next, links.prev
      ensures Linked() && lists == old(lists)[c := [p] + old(lists)[c]]
    {
      ghost var l0, s := links.View(), Circle(c);
      links.InitListHead(p);
      ghost var l1 := links.View();
      forall d: nat | d < caches.Length && caches[d].name.Some?
        ensures Ring(l1, old(Circle(d)))
      {
        RingFrame(l0, l1, old(Circle(d)));
      }
      RingEnds(l1, s);
      links.ListAdd(p, zone.pages + c);
      AddAfterHead(l1, s, p);
      forall d: nat | d < caches.Length && caches[d].name.Some? && d != c
        ensures Ring(links.View(), old(Circle(d)))
      {
        CirclesApart(c, d);
        AddKeepsOtherRing(l1, s, p, old(Circle(d)));
      }
      lists := lists[c := [p] + lists[c]];
      assert Circle(c) == [s[0], p] + s[1..];
    }

    lemma ListsApart(reserved: set<nat>)
      requires Wired() && Inv(View(), reserved)
      ensures ListsSeparate()
    {
    }

    /** Header, index array and list links of a new slab. */
    method InitSlab(c: nat, p: nat)
      requires Wired() && Linked() && ListsSeparate()
      requires c < caches.Length && caches[c].name.Some? && p < zone.pages && caches[c].num >= 1
      requires HalfOf(Va(p) + SIZEOF_SLAB) + caches[c].num <= mem.Length
      requires forall d | 0 <= d < |lists| :: p !in lists[d]
      modifies this`lists, hdrs, mem, links.next, links.prev
      ensures Linked() && lists == old(lists)[c := [p] + old(lists)[c]]
      ensures hdrs[..] == old(hdrs[..])[p := NewHeader(c, caches[c], Va(p))]
      ensures mem[..] == FillBufctl(old(mem[..]), HalfOf(Va(p) + SIZEOF_SLAB), caches[c].num)
    {
      hdrs[p] := NewHeader(c, caches[c], Va(p));
      InitBufctl(HalfOf(Va(p) + SIZEOF_SLAB), caches[c].num);
      LinkSlab(c, p);
    }

    /** Page p can become a slab of cache c. */
    static ghost predicate NewSlabFits(s: Kmem, c: nat, p: nat)
      requires c < |s.caches|
    {
      && p < s.zone.pages && s.caches[c].num >= 1
      && HalfOf(Va(p) + SIZEOF_SLAB) + s.caches[c].num <= |s.mem|
      && forall d | 0 <= d < |s.lists| :: p !in s.lists[d]
    }

    static lemma GrowFits(s: Kmem, reserved: set<nat>, c: nat, flags: nat)
      requires Inv(s, reserved) && c < |s.caches| && s.caches[c].name.Some?
      ensures AllocResult(s.zone, s.caches[c].gfpOrder).Some? ==> NewSlabFits(s, c, AllocResult(s.zone, s.caches[c].gfpOrder).value)
    {
      GrowIsGrown(s, reserved, c, flags);
      var cache := s.caches[c];
      if AllocResult(s.zone, cache.gfpOrder).Some? {
        var p := AllocResult(s.zone, cache.gfpOrder).value;
        FreePageIsNoSlab(s, p);
        IndexInsideBlock(p, cache.num, 1, s.zone.pages);
        HalfOfOffset(p, SIZEOF_SLAB);
        forall d: nat | d < |s.lists|
          ensures p !in s.lists[d]
        {
          NotListed(s, p, d);
        }
      }
    }

    /** The body of kmem_cache_grow. */
    method GrowBody(c: nat, flags: nat) returns (r: nat)
      requires Wired() && Linked() && ListsSeparate() && Shaped(View()) && c < caches.Length && caches[c].name.Some?
      requires var p := AllocResult(zone.View(), caches[c].gfpOrder); p.Some? ==> NewSlabFits(View(), c, p.value)
      modifies this`lists, zone, zone.memMap, hdrs, mem, links.next, links.prev
      ensures Linked() && View() == Grow(old(View()), c, flags)
      ensures r == if AllocResult(old(zone.View()), caches[c].gfpOrder).Some? then 1 else 0
    {
      var first := KmemGetPages(caches[c].gfpOrder, flags);
      if first.None? {
        return 0;
      }
      InitSlab(c, first.value);
      r := 1;
    }

    /** kmem_cache_grow: 1 when a slab was added, 0 when the zone had no pages. What it leaves is sound
        exactly when the pages lie inside the zone. */
    method KmemCacheGrow(c: nat, flags: nat, ghost reserved: set<nat>) returns (r: nat)
      requires Valid(reserved) && c < caches.Length && caches[c].name.Some?
      modifies this`lists, Parts()
      ensures Wired() && Linked() && View() == Grow(old(View()), c, flags)
      ensures Valid(reserved) <==> old(StaysInside(zone.View(), caches[c].gfpOrder))
      ensures r == if AllocResult(old(zone.View()), old(caches[c]).gfpOrder).Some? then 1 else 0
    {
      GrowFits(View(), reserved, c, flags);
      GrowKeepsInv(View(), reserved, c, flags);
      ListsApart(reserved);
      r := GrowBody(c, flags);
    }

    // -------------------------------------------------------------- shrink

    /** Takes the slab at page p, the k-th of cache c, off the list. */
    method UnlinkSlab(c: nat, p: nat, ghost k: nat)
      requires Wired() && Linked() && ListsSeparate() && c < caches.Length && caches[c].name.Some? && k < |lists[c]| && lists[c][k] == p
      modifies this`lists, links.next, links.prev
      ensures Linked() && lists == old(lists)[c := old(lists)[c][..k] + old(lists)[c][k + 1..]]
    {
      ghost var l0, s := links.View(), Circle(c);
      assert s[k + 1] == p;
      UnlinkRemoves(l0, s, k + 1);
      links.ListDel(p);
      forall d: nat | d < caches.Length && caches[d].name.Some? && d != c
        ensures Ring(links.View(), old(Circle(d)))
      {
        CirclesApart(c, d);
        UnlinkKeepsOtherRing(l0, s, k + 1, old(Circle(d)));
      }
      lists := lists[c := lists[c][..k] + lists[c][k + 1..]];
      assert Circle(c) == s[..k + 1] + s[k + 2..];
    }

    /** slab_destroy: the address of the slab's pages is recovered from the header. */
    method SlabDestroy(c: nat, p: nat)
      requires Wired() && c < caches.Length && p < hdrs.Length && caches[c].gfpOrder <= MAX_PAGE_ORDER
      requires PageOf(Sub64(hdrs[p].sMem, hdrs[p].offset)) < zone.pages
      modifies zone, zone.memMap
      ensures zone.View() == FreeSlabPages(old(zone.View()), caches[c].gfpOrder, PageOf(Sub64(hdrs[p].sMem, hdrs[p].offset)))
    {
      KmemFreePages(caches[c].gfpOrder, PageOf(Sub64(hdrs[p].sMem, hdrs[p].offset)));
    }

    /** The traversal of kmem_cache_shrink: the first slab of the cache with nothing in use, or the head. */
    method FindIdleSlab(c: nat) returns (node: nat)
      requires Wired() && Shaped(View()) && Linked() && c < caches.Length && caches[c].name.Some?
      ensures var k := FindIdle(View(), c, 0);
              node == if k < |lists[c]| then lists[c][k] else zone.pages + c
    {
      ghost var s := View();
      var head := zone.pages + c;
      NextInCircle(c, 0);
      node := links.next[head];
      ghost var k := 0;
      while node != head
        invariant k <= |lists[c]|
        invariant node == if k < |lists[c]| then lists[c][k] else head
        invariant FindIdle(s, c, 0) == FindIdle(s, c, k)
        decreases |lists[c]| - k
      {
        if hdrs[node].inuse == 0 {
          return;
        }
        NextInCircle(c, k + 1);
        node := links.next[node];
        k := k + 1;
      }
    }

    /** The header at page p leads slab_destroy to that page. */
    static ghost predicate HeaderLeadsToPage(s: Kmem, c: nat, p: nat)
      requires c < |s.caches| && p < |s.hdrs|
    {
      p < s.zone.pages && s.caches[c].gfpOrder <= MAX_PAGE_ORDER && PageOf(Sub64(s.hdrs[p].sMem, s.hdrs[p].offset)) == p
    }

    static lemma ShrinkFits(s: Kmem, reserved: set<nat>, c: nat)
      requires Inv(s, reserved) && c < |s.caches|
      ensures Inv(Shrink(s, c), reserved)
      ensures FindIdle(s, c, 0) < |s.lists[c]| ==> HeaderLeadsToPage(s, c, s.lists[c][FindIdle(s, c, 0)])
    {
      ShrinkKeepsInv(s, reserved, c);
      var k := FindIdle(s, c, 0);
      if k < |s.lists[c]| {
        ListedIsSlab(s, c, k);
        assert SlabOk(s, s.lists[c][k]);
        PageOfOffset(s.lists[c][k], 0);
      }
    }

    /** slab_destroy and list_del, in this order. */
    method DropSlab(c: nat, p: nat, ghost k: nat)
      requires Wired() && Linked() && ListsSeparate() && c < caches.Length && caches[c].name.Some? && k < |lists[c]| && lists[c][k] == p
      requires p < hdrs.Length && HeaderLeadsToPage(View(), c, p)
      modifies this`lists, zone, zone.memMap, links.next, links.prev
      ensures Linked() && lists == old(lists)[c := old(lists)[c][..k] + old(lists)[c][k + 1..]]
      ensures zone.View() == FreeSlabPages(old(zone.View()), caches[c].gfpOrder, p)
    {
      SlabDestroy(c, p);
      UnlinkSlab(c, p, k);
    }

    /** The body of kmem_cache_shrink. */
    method ShrinkBody(c: nat)
      requires Wired() && Linked() && ListsSeparate() && Shaped(View()) && c < caches.Length && caches[c].name.Some?
      requires var k := FindIdle(View(), c, 0); k < |lists[c]| ==> HeaderLeadsToPage(View(), c, lists[c][k])
      modifies this`lists, zone, zone.memMap, links.next, links.prev
      ensures Linked() && View() == Shrink(old(View()), c)
    {
      var node := FindIdleSlab(c);
      if node != zone.pages + c {
        DropSlab(c, node, FindIdle(View(), c, 0));
      }
    }

    /** kmem_cache_shrink */
    method KmemCacheShrink(c: nat, ghost reserved: set<nat>)
      requires Valid(reserved) && c < caches.Length && caches[c].name.Some?
      modifies this`lists, Parts()
      ensures Valid(reserved) && View() == Shrink(old(View()), c)
    {
      ShrinkFits(View(), reserved, c);
      ListsApart(reserved);
      ShrinkBody(c);
    }

    // -------------------------------------------------------------- kmalloc and kfree

    /** The slabs of cache c before this node have their lists at the end mark or all objects in use; the
        node is a slab with neither, or the head behind them all. */
    ghost predicate FreeSlabsAhead(c: nat, node: nat)
      reads this, hdrs, caches
      requires c < caches.Length && c < |lists| && forall j | 0 <= j < |lists[c]| :: lists[c][j] < hdrs.Length
    {
      exists k: nat ::
        && k <= |lists[c]| && node == (if k < |lists[c]| then lists[c][k] else zone.pages + c)
        && (forall j | 0 <= j < k :: hdrs[lists[c][j]].free == 0xFFFF || hdrs[lists[c][j]].inuse >= caches[c].num)
        && (k < |lists[c]| ==> hdrs[lists[c][k]].free != 0xFFFF && hdrs[lists[c][k]].inuse < caches[c].num)
    }

    /** The traversal of caos_kmalloc: the first slab of the cache with a free object, or the head. */
    method FindFreeSlab(c: nat) returns (node: nat)
      requires Wired() && Shaped(View()) && Linked() && c < caches.Length && caches[c].name.Some?
      ensures var k := FindSlab(View(), c, 0);
              node == if k < |lists[c]| then lists[c][k] else zone.pages + c
      ensures FreeSlabsAhead(c, node)
    {
      ghost var s := View();
      FirstUsable(s, c, 0);
      assert forall j | 0 <= j < |lists[c]| :: hdrs[..][lists[c][j]] == hdrs[lists[c][j]];
      var head := zone.pages + c;
      NextInCircle(c, 0);
      node := links.next[head];
      ghost var k := 0;
      while node != head
        invariant k <= |lists[c]|
        invariant node == if k < |lists[c]| then lists[c][k] else head
        invariant FindSlab(s, c, 0) == FindSlab(s, c, k)
        decreases |lists[c]| - k
      {
        if hdrs[node].free != BUFCTL_END && hdrs[node].inuse < caches[c].num {
          return;
        }
        NextInCircle(c, k + 1);
        node := links.next[node];
        k := k + 1;
      }
    }

    /** The part of caos_kmalloc behind the search: hands out the first free object of a slab. */
    method TakeObject(c: nat, p: nat) returns (addr: nat)
      requires c < caches.Length && p < hdrs.Length && HalfOf(hdrs[p].bufctl) + hdrs[p].free < mem.Length
      modifies hdrs
      ensures (View(), addr) == Take(old(View()), c, p)
    {
      var h := hdrs[p];
      addr := h.sMem + h.free * caches[c].objSize;
      hdrs[p] := h.(inuse := h.inuse + 1, free := mem[HalfOf(h.bufctl) + h.free]);
      assert hdrs[..] == Take(old(View()), c, p).0.hdrs;
    }

    /** The index array entry that a traversal of cache c would have read exists. */
    static ghost predicate FoundFits(s: Kmem, c: nat)
      requires Shaped(s) && c < |s.caches|
    {
      var k := FindSlab(s, c, 0);
      k < |s.lists[c]| ==> HalfOf(s.hdrs[s.lists[c][k]].bufctl) + s.hdrs[s.lists[c][k]].free < |s.mem|
    }

    /** A slab the traversal found is sound, and taking from it keeps the invariant. */
    static lemma FoundSlab(s: Kmem, reserved: set<nat>, c: nat)
      requires Inv(s, reserved) && c < |s.caches|
      ensures FoundFits(s, c)
      ensures var k := FindSlab(s, c, 0);
              k < |s.lists[c]| ==> Inv(Take(s, c, s.lists[c][k]).0, reserved)
    {
      if FindSlab(s, c, 0) < |s.lists[c]| {
        var p := s.lists[c][FindSlab(s, c, 0)];
        FirstUsable(s, c, 0);
        ListedIsSlab(s, c, FindSlab(s, c, 0));
        assert SlabOk(s, p);
        TakeIsWithList(s, p);
        TakeGains(s, reserved, p);
        HalfOfOffset(p, SIZEOF_SLAB);
      }
    }

    /** One traversal of a cache's slabs. */
    method TryCache(c: nat) returns (r: Option<nat>)
      requires Wired() && Linked() && Shaped(View()) && c < caches.Length && caches[c].name.Some? && FoundFits(View(), c)
      modifies hdrs
      ensures Linked()
      ensures var s, k := old(View()), FindSlab(old(View()), c, 0);
              if k < |s.lists[c]| then r.Some? && (View(), r.value) == Take(s, c, s.lists[c][k])
              else r.None? && View() == s
    {
      ghost var s := View();
      var node := FindFreeSlab(c);
      if node == zone.pages + c {
        return None;
      }
      var addr := TakeObject(c, node);
      r := Some(addr);
    }

    /** The search for a large enough cache. */
    method FindFit(size: nat) returns (c: nat)
      ensures c == FindCache(caches[..], size, 0)
    {
      c := 0;
      while c < caches.Length && caches[c].name.Some? && size > caches[c].objSize
        invariant c <= caches.Length && FindCache(caches[..], size, 0) == FindCache(caches[..], size, c)
      {
        c := c + 1;
      }
    }

    /** One round of the code behind the label `retry`, as an equation. */
    static lemma RetryRound(s: Kmem, c: nat, retry: nat, flags: nat)
      requires Shaped(s) && c < |s.caches| && s.caches[c].name.Some? && retry <= 1
      ensures Shaped(Grow(s, c, flags))
      ensures var k := FindSlab(s, c, 0);
              KmallocFrom(s, c, retry, flags) ==
              if k < |s.lists[c]| then (Take(s, c, s.lists[c][k]).0, Got(Take(s, c, s.lists[c][k]).1))
              else if retry == 1 then KmallocFrom(Grow(s, c, flags), c + 1, 0, flags)
              else KmallocFrom(Grow(s, c, flags), c, 1, flags)
    {
      GrowShaped(s, c, flags);
    }

    /** caos_kmalloc. A walk onto an unused table entry is reported as Fault. What it leaves is sound
        exactly when the pages of a slab it may have to add lie inside the zone. */
    method CaosKmalloc(size: nat, flags: nat, ghost reserved: set<nat>) returns (o: Outcome)
      requires Valid(reserved)
      modifies this`lists, Parts()
      ensures Wired() && Linked() && (View(), o) == Kmalloc(old(View()), size, flags)
      ensures Valid(reserved) <==> old(KmallocStaysInside(View(), size))
    {
      KmallocGains(View(), reserved, size, flags);
      var c := FindFit(size);
      if c >= caches.Length || caches[c].name.None? {
        return Null;
      }
      o := TryFrom(c, flags, reserved);
    }

    /** Between rounds the state is sound, or a slab was just added to cache c, and the next traversal
        ends there. */
    ghost predicate Ready(c: nat, reserved: set<nat>)
      reads this, Parts()
    {
      && Wired() && Linked() && Shaped(View())
      && (Inv(View(), reserved) || (c < caches.Length && FindSlab(View(), c, 0) < |lists[c]| && FoundFits(View(), c)))
    }

    static lemma NewSlabFound(s: Kmem, reserved: set<nat>, c: nat, flags: nat)
      requires Inv(s, reserved) && c < |s.caches| && s.caches[c].name.Some?
      ensures Shaped(Grow(s, c, flags)) && |Grow(s, c, flags).caches| == |s.caches|
      ensures AllocResult(s.zone, s.caches[c].gfpOrder).None? ==> Grow(s, c, flags) == s
      ensures AllocResult(s.zone, s.caches[c].gfpOrder).Some? ==>
                FindSlab(Grow(s, c, flags), c, 0) < |Grow(s, c, flags).lists[c]| && FoundFits(Grow(s, c, flags), c)
    {
      GrowShaped(s, c, flags);
      GrowIsGrown(s, reserved, c, flags);
      if AllocResult(s.zone, s.caches[c].gfpOrder).Some? {
        GrownIsFound(s, reserved, c, flags);
        GrowFits(s, reserved, c, flags);
      }
    }

    /** One round of that code: an object, or the next table index and retry count. */
    method Round(c: nat, retry: nat, flags: nat, ghost reserved: set<nat>) returns (addr: Option<nat>, c': nat, retry': nat)
      requires Ready(c, reserved) && c < caches.Length && caches[c].name.Some? && retry <= 1
      requires retry == 1 ==> FindSlab(View(), c, 0) < |lists[c]| || AllocResult(zone.View(), caches[c].gfpOrder).None?
      modifies this`lists, Parts()
      ensures Wired() && Linked()
      ensures c' == (if retry == 1 then c + 1 else c) && retry' == 1 - retry
      ensures addr.Some? ==> (View(), Got(addr.value)) == KmallocFrom(old(View()), c, retry, flags)
      ensures addr.None? ==> Ready(c', reserved) && KmallocFrom(View(), c', retry', flags) == KmallocFrom(old(View()), c, retry, flags)
      ensures addr.None? && retry' == 1 ==> FindSlab(View(), c, 0) < |lists[c]| || AllocResult(zone.View(), caches[c].gfpOrder).None?
    {
      RetryRound(View(), c, retry, flags);
      c', retry' := c, retry + 1;
      if retry' > 1 {
        c', retry' := c + 1, 0;
      }
      if Inv(View(), reserved) {
        FoundSlab(View(), reserved, c);
        NewSlabFound(View(), reserved, c, flags);
      }
      addr := TryCache(c);
      if addr.None? {
        var grown := KmemCacheGrow(c, flags, reserved);
      }
    }

    /** The loop behind the label `retry`. */
    method TryFrom(start: nat, flags: nat, ghost reserved: set<nat>) returns (o: Outcome)
      requires Valid(reserved)
      modifies this`lists, Parts()
      ensures Wired() && Linked() && (View(), o) == KmallocFrom(old(View()), start, 0, flags)
    {
      var c, retry := start, 0;
      ghost var want := KmallocFrom(View(), start, 0, flags);
      while c < caches.Length && caches[c].name.Some?
        invariant Ready(c, reserved) && retry <= 1
        invariant retry == 1 && c < caches.Length ==> FindSlab(View(), c, 0) < |lists[c]| || AllocResult(zone.View(), caches[c].gfpOrder).None?
        invariant KmallocFrom(View(), c, retry, flags) == want
        decreases caches.Length - c, if retry == 0 then 1 else 0
      {
        if retry > KMALLOC_RETRY_MAX {
          return Null;
        }
        var addr: Option<nat>;
        addr, c, retry := Round(c, retry, flags, reserved);
        if addr.Some? {
          return Got(addr.value);
        }
      }
      o := Fault;
    }

    /** What the checks of caos_kfree let through. */
    static lemma KfreePath(s: Kmem, reserved: set<nat>, addr: nat)
      requires Inv(s, reserved) && PageOf(addr) < s.zone.pages
      ensures var slab := s.zone.memMap[PageOf(addr)].slab;
              slab != 0 ==>
                && IsSlab(s, PageOf(slab)) && PageOf(slab) < s.zone.pages
                && CacheOf(s, PageOf(slab)).objSize > 0
    {
      if s.zone.memMap[PageOf(addr)].slab != 0 {
        assert PointerOk(s, PageOf(addr));
        assert SlabOk(s, PageOf(s.zone.memMap[PageOf(addr)].slab));
      }
    }

    /** caos_kfree on any address of the zone; what it leaves is sound exactly when the address is
        rejected or leads to a live object. */
    method CaosKfree(addr: nat, ghost reserved: set<nat>)
      requires Valid(reserved) && PageOf(addr) < zone.pages
      modifies hdrs, mem
      ensures View() == Kfree(old(View()), addr)
      ensures Valid(reserved) <==> old(Rejected(View(), addr) || LiveObj(View(), HomePage(View(), addr), HomeIndex(View(), addr)))
    {
      KfreeSoundIff(View(), reserved, addr);
      KfreePath(View(), reserved, addr);
      FreeObject(addr);
      assert links.View() == old(links.View());
    }

    /** The body of caos_kfree. For an address outside every object the division can give an index far
        behind the index array; the source then writes to a wild address. Memory ends where the zone
        does, so here such a write is dropped. */
    method FreeObject(addr: nat)
      requires Wired() && Shaped(View()) && PageOf(addr) < zone.pages
      requires var slab := zone.memMap[PageOf(addr)].slab;
               slab != 0 ==> IsSlab(View(), PageOf(slab)) && PageOf(slab) < zone.pages && CacheOf(View(), PageOf(slab)).objSize > 0
      modifies hdrs, mem
      ensures View() == Kfree(old(View()), addr)
    {
      var slab := zone.memMap[PageOf(addr)].slab;
      if slab == 0 {
        return;
      }
      var p := PageOf(slab);
      var h := hdrs[p];
      if h.inuse == 0 {
        return;
      }
      var i := Quot(Sub64(addr, h.sMem), caches[h.cache].objSize);
      if HalfOf(h.bufctl) + i < mem.Length {
        mem[HalfOf(h.bufctl) + i] := h.free % 0x10000;
      }
      hdrs[p] := h.(free := i, inuse := h.inuse - 1);
    }

    // -------------------------------------------------------------- new caches

    /** The table scan of kmem_cache_create. */
    method ScanCacheNames(name: string) returns (r: Scan)
      ensures r == ScanNames(caches[..], name, 0)
    {
      var i := 0;
      while i < caches.Length && caches[i].name.Some?
        invariant i <= caches.Length && ScanNames(caches[..], name, 0) == ScanNames(caches[..], name, i)
      {
        if caches[i].name.value == name {
          return Duplicate;
        }
        i := i + 1;
      }
      r := if i >= caches.Length then Full else Entry(i);
    }

    /** Fills an unused table entry and starts its empty list. */
    method SetupCache(i: nat, cache: Cache)
      requires Wired() && Linked() && i < caches.Length && caches[i].name.None? && cache.name.Some? && lists[i] == []
      requires ListsInZone()
      modifies caches, links.next, links.prev
      ensures Linked() && caches[..] == old(caches[..])[i := cache]
    {
      ghost var l0 := links.View();
      caches[i] := cache;
      links.InitListHead(zone.pages + i);
      ghost var l1 := links.View();
      InitMakesRing(l0, zone.pages + i);
      assert Circle(i) == [zone.pages + i];
      forall d: nat | d < caches.Length && caches[d].name.Some?
        ensures Ring(l1, Circle(d))
      {
        if d != i {
          RingFrame(l0, l1, Circle(d));
        }
      }
    }

    /** kmem_cache_create on any tables whose unused entries have empty lists; None for NULL. */
    method CreateBody(name: Option<string>, size: nat, align: nat, flags: nat) returns (r: Option<nat>)
      requires Wired() && Linked() && Shaped(View()) && ListsInZone()
      requires forall c | 0 <= c < caches.Length && caches[c].name.None? :: lists[c] == []
      modifies caches, links.next, links.prev
      ensures Linked() && View() == Create(old(View()), name, size, align, flags)
      ensures r == CreateResult(old(View()), name, size)
    {
      ghost var s := View();
      if name.None? || size < BYTES_PER_LONG || size > KMALLOC_MAX_SIZE {
        return None;
      }
      var scan := ScanCacheNames(name.value);
      if !scan.Entry? {
        return None;
      }
      assert lists[scan.index] == [];
      SetupCache(scan.index, NewCache(name, size, align, flags));
      assert lists == s.lists[scan.index := []];
      assert View() == Create(s, name, size, align, flags);
      r := Some(scan.index);
    }

    /** kmem_cache_create. What it leaves is sound exactly when it is refused or the layout fits. */
    method KmemCacheCreate(name: Option<string>, size: nat, align: nat, flags: nat, ghost reserved: set<nat>) returns (r: Option<nat>)
      requires Valid(reserved)
      modifies caches, links.next, links.prev
      ensures Wired() && Linked() && View() == Create(old(View()), name, size, align, flags)
      ensures r == CreateResult(old(View()), name, size)
      ensures Valid(reserved) <==> r.None? || LayoutFits(size, align)
    {
      CreateKeepsInv(View(), reserved, name, size, align, flags);
      ListsApart(reserved);
      r := CreateBody(name, size, align, flags);
    }
  }
}
