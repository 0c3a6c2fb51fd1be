/** Setting up the page descriptors and the zone: mem_map_init of src/page.c and memory_init of
    src/memory.c. */
module MemoryInit {
  import opened Bits
  import opened PageAlloc
  import opened PageLedger
  import opened SlabState
  import opened ListHead

  const FIRST_BIOS_PAGE: nat := 0x9F
  const KERNEL_END_PAGE: nat := 0x200

  /** Pages busy from the start: page 0, BIOS and kernel image, and what the boot allocator gave out. */
  predicate BusyAtBoot(l: nat, bootStart: nat, bootIndex: nat) {
    l == 0 || FIRST_BIOS_PAGE <= l < KERNEL_END_PAGE || bootStart <= l < bootIndex
  }

  /** Page l has a byte in [from, to), in physical addresses. */
  predicate Meets(l: nat, from: nat, to: nat) {
    l * 0x1000 < to && from < (l + 1) * 0x1000
  }

  /** BIOS data, BIOS, video memory and kernel image, and the boot heap. */
  predicate MeetsBootRanges(l: nat, bootStart: nat, bootIndex: nat) {
    Meets(l, 0, 0x1000) || Meets(l, 0x9F000, 0x20_0000) || Meets(l, bootStart * 0x1000, bootIndex * 0x1000)
  }

  lemma BusyIffMeets(l: nat, bootStart: nat, bootIndex: nat)
    ensures BusyAtBoot(l, bootStart, bootIndex) <==> MeetsBootRanges(l, bootStart, bootIndex)
  {
  }

  /** The descriptor mem_map_init leaves behind; it does not write the slab pointer. */
  function InitialPage(l: nat, busy: bool, slab: nat): Page {
    Page(l, if busy then 1 else 0, 0, NO_ORDER, Va(l), slab)
  }

  /** mem_map_init, behind the allocation of the table itself. */
  method MemMapInit(memMap: array<Page>, links: LinkTable, pageCount: nat, bootStart: nat, bootIndex: nat)
    requires KERNEL_END_PAGE <= pageCount <= memMap.Length && bootStart <= bootIndex <= pageCount
    requires links.Valid() && pageCount <= links.next.Length
    modifies memMap, links.next, links.prev
    ensures forall l | 0 <= l < pageCount :: memMap[l] == InitialPage(l, BusyAtBoot(l, bootStart, bootIndex), old(memMap[l]).slab)
    ensures forall l: nat | l < pageCount ::
              && memMap[l].count == (if MeetsBootRanges(l, bootStart, bootIndex) then 1 else 0)
              && memMap[l].index == l && memMap[l].flags == 0 && memMap[l].private == 0xFFFF_FFFF_FFFF_FFFF
              && memMap[l].virt == 0xFFFF_8000_0000_0000 + l * 0x1000 && memMap[l].slab == old(memMap[l].slab)
    ensures forall l | pageCount <= l < memMap.Length :: memMap[l] == old(memMap[l])
    ensures forall l | 0 <= l < pageCount :: links.next[l] == l && links.prev[l] == l
  {
    var virtualAddr := PAGE_OFFSET;
    var l := 0;
    while l < pageCount
      invariant l <= pageCount && virtualAddr == Va(l)
      invariant forall k | 0 <= k < l :: memMap[k] == InitialPage(k, false, old(memMap[k]).slab)
      invariant forall k | l <= k < memMap.Length :: memMap[k] == old(memMap[k])
      invariant forall k | 0 <= k < l :: links.next[k] == k && links.prev[k] == k
    {
      links.InitListHead(l);
      memMap[l] := Page(l, 0, 0, NO_ORDER, virtualAddr, memMap[l].slab);
      virtualAddr := virtualAddr + 0x1000;
      l := l + 1;
    }
    memMap[0] := memMap[0].(count := 1);
    SetBusy(memMap, FIRST_BIOS_PAGE, KERNEL_END_PAGE);
    SetBusy(memMap, bootStart, bootIndex);
    forall i: nat | i < pageCount
      ensures BusyAtBoot(i, bootStart, bootIndex) <==> MeetsBootRanges(i, bootStart, bootIndex)
    {
      BusyIffMeets(i, bootStart, bootIndex);
    }
  }

  method SetBusy(memMap: array<Page>, from: nat, to: nat)
    requires from <= to <= memMap.Length
    modifies memMap
    ensures forall k | 0 <= k < memMap.Length ::
              memMap[k] == if from <= k < to then old(memMap[k]).(count := 1) else old(memMap[k])
  {
    var l := from;
    while l < to
      invariant from <= l <= to
      invariant forall k | 0 <= k < memMap.Length ::
                  memMap[k] == if from <= k < l then old(memMap[k]).(count := 1) else old(memMap[k])
    {
      memMap[l] := memMap[l].(count := 1);
      l := l + 1;
    }
  }

  // ---------------------------------------------------------------- memory_init

  ghost function Upto(n: nat): (s: seq<nat>)
    ensures |s| == n && forall i | 0 <= i < n :: s[i] == i
  {
    seq(n, i => i)
  }

  /** One more page at the tail of the zone's list. Page 0 is the list's head and is inserted before
      itself, which changes nothing. */
  lemma LinkOnePage(l: Links, n: nat, k: nat)
    requires |l.next| == |l.prev| && k < n <= |l.next|
    requires Ring(l, Upto(if k == 0 then 1 else k))
    requires forall i | k <= i < n :: l.next[i] == i && l.prev[i] == i
    ensures IsNode(l, 0) && IsNode(l, l.prev[0])
    ensures var l' := AddBetween(l, k, l.prev[0], 0);
            Ring(l', Upto(k + 1)) && forall i | k < i < n :: l'.next[i] == i && l'.prev[i] == i
  {
    var s := Upto(if k == 0 then 1 else k);
    RingEnds(l, s);
    if k == 0 {
      assert s == [0];
      AddHeadToItself(l, 0);
    } else {
      AddBeforeHead(l, s, k);
      assert s + [k] == Upto(k + 1);
    }
  }

  /** Number of free pages from 1 to n - 1: what a walk that skips the list head sees. */
  function FreeBehindHead(m: seq<Page>, n: nat): nat
    requires n <= |m|
  {
    if n <= 1 then 0 else FreeBehindHead(m, n - 1) + (if m[n - 1].count == 0 then 1 else 0)
  }

  lemma {:induction false} WalkMissesHeadOnly(m: seq<Page>, n: nat)
    requires 1 <= n <= |m|
    ensures CountFree(m, n) == FreeBehindHead(m, n) + (if m[0].count == 0 then 1 else 0)
  {
    if n > 1 {
      WalkMissesHeadOnly(m, n - 1);
    }
  }

  /** memory_init: links every page of the zone into one circle in index order, then counts the free
      ones by walking it. The walk skips the list head, so the count is right exactly when page 0 is
      busy, as mem_map_init leaves it. */
  method BuildZone(memMap: array<Page>, links: LinkTable, pages: nat) returns (zone: Zone)
    requires links.Valid() && 1 <= pages <= links.next.Length && pages + MAX_BLOCK <= memMap.Length + 1
    requires forall l | 0 <= l < pages :: links.next[l] == l && links.prev[l] == l
    modifies links.next, links.prev
    ensures fresh(zone) && zone.memMap == memMap && zone.pages == pages && zone.Wired()
    ensures Ring(links.View(), Upto(pages))
    ensures zone.freePages + (if memMap[0].count == 0 then 1 else 0) == CountFree(memMap[..], pages)
  {
    var l := 0;
    assert Ring(links.View(), Upto(1)) by {
      assert Upto(1) == [0];
    }
    while l < pages
      invariant l <= pages
      invariant Ring(links.View(), Upto(if l == 0 then 1 else l))
      invariant forall i | l <= i < pages :: links.next[i] == i && links.prev[i] == i
      invariant memMap[..] == old(memMap[..])
    {
      LinkOnePage(links.View(), pages, l);
      links.ListAddTail(l, 0);
      l := l + 1;
    }
    ghost var s := Upto(pages);
    assert Linked(links.View(), s, 0);
    var free := 0;
    var node := links.next[0];
    ghost var k := 1;
    while node != 0
      invariant 1 <= k <= pages && node == (if k == pages then 0 else k)
      invariant free == FreeBehindHead(memMap[..], k)
      decreases pages - k
    {
      if memMap[node].count == 0 {
        free := free + 1;
      }
      assert Linked(links.View(), s, k);
      node := links.next[node];
      k := k + 1;
    }
    WalkMissesHeadOnly(memMap[..], pages);
    zone := new Zone(memMap, pages, free);
  }

  // ---------------------------------------------------------------- the ledger at the start

  ghost function ReservedPages(n: nat, bootStart: nat, bootIndex: nat): (s: set<nat>)
    ensures forall l: nat :: l in s <==> l < n && BusyAtBoot(l, bootStart, bootIndex)
  {
    if n == 0 then {}
    else ReservedPages(n - 1, bootStart, bootIndex) + (if BusyAtBoot(n - 1, bootStart, bootIndex) then {n - 1} else {})
  }

  lemma {:induction false} InitialCounts(m: seq<Page>, n: nat, bootStart: nat, bootIndex: nat)
    requires n <= |m|
    requires forall l: nat | l < n :: m[l].private == NO_ORDER && m[l].count == (if BusyAtBoot(l, bootStart, bootIndex) then 1 else 0)
    ensures CountFree(m, n) + |ReservedPages(n, bootStart, bootIndex)| == n && BlockPages(m, n) == 0
  {
    if n > 0 {
      InitialCounts(m, n - 1, bootStart, bootIndex);
      assert n - 1 !in ReservedPages(n - 1, bootStart, bootIndex);
    }
  }

  /** The state after both routines satisfies the ledger, with nothing handed out. */
  lemma InitialLedger(z: ZoneState, bootStart: nat, bootIndex: nat)
    requires z.pages + MAX_BLOCK <= |z.memMap| + 1
    requires forall l: nat | l < z.pages :: z.memMap[l] == InitialPage(l, BusyAtBoot(l, bootStart, bootIndex), z.memMap[l].slab)
    requires z.freePages == CountFree(z.memMap, z.pages)
    ensures Ledger(z, ReservedPages(z.pages, bootStart, bootIndex)) && PrivateIsHeld(Trace(z, map[]))
  {
    InitialCounts(z.memMap, z.pages, bootStart, bootIndex);
    forall h: nat
      ensures !IsHead(z, h)
    {
    }
    forall i: nat
      ensures !Owned(z, i)
    {
    }
  }

  /** The addresses [from, to) have nothing of the physical range [low, high). */
  predicate OffRange(from: nat, to: nat, low: nat, high: nat) {
    to <= 0xFFFF_8000_0000_0000 + low || 0xFFFF_8000_0000_0000 + high <= from
  }

  /** Nor of any range that is taken at boot. */
  predicate OffBootRanges(from: nat, to: nat, bootStart: nat, bootIndex: nat) {
    && OffRange(from, to, 0, 0x1000)
    && OffRange(from, to, 0x9F000, 0x20_0000)
    && (bootStart < bootIndex ==> OffRange(from, to, bootStart * 0x1000, bootIndex * 0x1000))
  }

  /** Page r is none of the pages [p, end). */
  predicate Apart(r: nat, p: nat, end: nat) {
    r + 1 <= p || end <= r
  }

  lemma PagesOffRange(p: nat, end: nat, low: nat, high: nat)
    requires p < end && low < high && forall r: nat | low <= r < high :: Apart(r, p, end)
    ensures end <= low || high <= p
  {
    assert !Apart(p, p, end);
    assert p < low ==> Apart(low, p, end);
  }

  /** Pages that are not reserved at boot are off the ranges. */
  lemma PagesOffBoot(p: nat, end: nat, pages: nat, bootStart: nat, bootIndex: nat)
    requires p < end && KERNEL_END_PAGE <= bootStart <= bootIndex <= pages
    requires forall r | r in ReservedPages(pages, bootStart, bootIndex) :: Apart(r, p, end)
    ensures OffBootRanges(Va(p), Va(end), bootStart, bootIndex)
  {
    var reserved := ReservedPages(pages, bootStart, bootIndex);
    forall r: nat | r < 1 || 0x9F <= r < 0x200 || bootStart <= r < bootIndex
      ensures Apart(r, p, end)
    {
      assert MeetsBootRanges(r, bootStart, bootIndex);
      BusyIffMeets(r, bootStart, bootIndex);
      assert r in reserved;
    }
    PagesOffRange(p, end, 0, 1);
    PagesOffRange(p, end, 0x9F, 0x200);
    if bootStart < bootIndex {
      PagesOffRange(p, end, bootStart, bootIndex);
    }
  }

  /** The block held at page h, if there is one, is off the ranges taken at boot. */
  predicate BlockOffBoot(held: map<nat, nat>, h: nat, bootStart: nat, bootIndex: nat) {
    h in held ==> OffBootRanges(Va(h), Va(h + Pow2(held[h])), bootStart, bootIndex)
  }

  /** And it has none of the reserved pages. */
  ghost predicate BlockApart(held: map<nat, nat>, h: nat, reserved: set<nat>) {
    h in held ==> forall r | r in reserved :: Apart(r, h, h + Pow2(held[h]))
  }

  lemma HeldBlockApart(z: ZoneState, reserved: set<nat>, ops: seq<PageOp>, h: nat)
    requires Ledger(z, reserved) && PrivateIsHeld(Trace(z, map[])) && NeverEscapes(Trace(z, map[]), ops)
    ensures BlockApart(Run(Trace(z, map[]), ops).held, h, reserved)
  {
    RunSafety(z, reserved, ops, h, h, 0);
    var held := Run(Trace(z, map[]), ops).held;
    if h in held {
      forall r | r in reserved
        ensures Apart(r, h, h + Pow2(held[h]))
      {
        assert !(h <= r < h + Pow2(held[h]));
      }
    }
  }

  lemma HeldPagesOffBoot(held: map<nat, nat>, h: nat, pages: nat, bootStart: nat, bootIndex: nat)
    requires KERNEL_END_PAGE <= bootStart <= bootIndex <= pages
    requires BlockApart(held, h, ReservedPages(pages, bootStart, bootIndex))
    ensures BlockOffBoot(held, h, bootStart, bootIndex)
  {
    if h in held {
      PagesOffBoot(h, h + Pow2(held[h]), pages, bootStart, bootIndex);
    }
  }

  /** From the ledger that boot leaves (InitialLedger), no run in which no block leaves the zone ever hands out a page of those
      ranges. */
  lemma PageRunsOffBoot(z: ZoneState, bootStart: nat, bootIndex: nat, ops: seq<PageOp>, h: nat)
    requires KERNEL_END_PAGE <= bootStart <= bootIndex <= z.pages
    requires Ledger(z, ReservedPages(z.pages, bootStart, bootIndex)) && PrivateIsHeld(Trace(z, map[]))
    requires NeverEscapes(Trace(z, map[]), ops)
    ensures BlockOffBoot(Run(Trace(z, map[]), ops).held, h, bootStart, bootIndex)
  {
    HeldBlockApart(z, ReservedPages(z.pages, bootStart, bootIndex), ops, h);
    HeldPagesOffBoot(Run(Trace(z, map[]), ops).held, h, z.pages, bootStart, bootIndex);
  }

  /** Right after boot, with a free-reading word behind the descriptors as cleared memory gives it, callers
      that only take single pages and return two of them reach a state in which a request for two pages is
      answered with a block that leaves the zone. */
  lemma EscapeAfterBoot(z: ZoneState, bootStart: nat, bootIndex: nat)
    requires z.pages + MAX_BLOCK <= |z.memMap| + 1 && KERNEL_END_PAGE <= bootStart <= bootIndex < z.pages
    requires forall l: nat | l < z.pages :: z.memMap[l] == InitialPage(l, BusyAtBoot(l, bootStart, bootIndex), z.memMap[l].slab)
    requires z.freePages == CountFree(z.memMap, z.pages) && z.memMap[z.pages].count == 0
    ensures CanEscape(Trace(z, map[]))
  {
    InitialLedger(z, bootStart, bootIndex);
    EscapeIsReachable(Trace(z, map[]), ReservedPages(z.pages, bootStart, bootIndex), 1, 3);
  }
}
