/** src/page_alloc.c: the page allocator over a zone's table of page descriptors. */
module PageAlloc {
  import opened Bits

  const MAX_PAGE_ORDER: nat := 5
  const MAX_BLOCK: nat := 32

  /** `private` of a page that heads no block: -1 stored in a size_t. */
  const NO_ORDER: nat := WORD - 1

  /** struct page, without the list links (see ListHead) and the zone pointer. `slab` is the
      address of the slab the page belongs to, 0 when there is none. */
  datatype Page = Page(index: nat, count: nat, flags: nat, private: nat, virt: nat, slab: nat)

  /** What a zone's fields and the descriptors behind zone_mem_map hold at one moment. The table
      is followed in memory by other words; `memMap` also holds what lies behind its end. */
  datatype ZoneState = ZoneState(memMap: seq<Page>, pages: nat, freePages: nat)

  // ---------------------------------------------------------------- the naive search

  predicate FreeRun(m: seq<Page>, first: nat, n: nat) {
    first + n <= |m| && forall k | first <= k < first + n :: m[k].count == 0
  }

  /** Tries every start in order and tests the whole run at each: the specification of the scan. */
  function RunFrom(m: seq<Page>, pages: nat, n: nat, from: nat): Option<nat>
    decreases pages - from
  {
    if from >= pages then None
    else if FreeRun(m, from, n) then Some(from)
    else RunFrom(m, pages, n, from + 1)
  }

  function FirstRun(m: seq<Page>, pages: nat, n: nat): Option<nat> {
    RunFrom(m, pages, n, 0)
  }

  lemma {:induction false} RunFromIsLowest(m: seq<Page>, pages: nat, n: nat, from: nat)
    ensures RunFrom(m, pages, n, from).None? ==> forall f | from <= f < pages :: !FreeRun(m, f, n)
    ensures RunFrom(m, pages, n, from).Some? ==>
              var f := RunFrom(m, pages, n, from).value;
              from <= f < pages && FreeRun(m, f, n) && forall g | from <= g < f :: !FreeRun(m, g, n)
    decreases pages - from
  {
    if from < pages && !FreeRun(m, from, n) {
      RunFromIsLowest(m, pages, n, from + 1);
    }
  }

  lemma FirstRunUnique(m: seq<Page>, pages: nat, n: nat, r: Option<nat>)
    requires r.None? ==> forall f | 0 <= f < pages :: !FreeRun(m, f, n)
    requires r.Some? ==> r.value < pages && FreeRun(m, r.value, n) && forall g | 0 <= g < r.value :: !FreeRun(m, g, n)
    ensures FirstRun(m, pages, n) == r
  {
    RunFromIsLowest(m, pages, n, 0);
  }

  // ---------------------------------------------------------------- specification of the operations

  /** A zone is tried only when it has strictly more free pages than the request. */
  predicate CanServe(z: ZoneState, n: nat) {
    z.freePages > n && FirstRun(z.memMap, z.pages, n).Some?
  }

  function ClaimPage(p: Page, flags: nat, head: bool, order: nat): Page {
    p.(count := 1, flags := flags, private := if head then order else p.private)
  }

  function ClaimMap(m: seq<Page>, first: nat, order: nat, flags: nat): (r: seq<Page>)
    ensures |r| == |m|
  {
    seq(|m|, i requires 0 <= i < |m| =>
      if first <= i < first + Pow2(order) then ClaimPage(m[i], flags, i == first, order) else m[i])
  }

  function Claim(z: ZoneState, first: nat, order: nat, flags: nat): ZoneState
    requires z.freePages >= Pow2(order)
  {
    z.(memMap := ClaimMap(z.memMap, first, order, flags), freePages := z.freePages - Pow2(order))
  }

  /** alloc_pages: the new zone and the index of the block's first page, or None (NULL). */
  function AllocResult(z: ZoneState, order: nat): Option<nat> {
    if order <= MAX_PAGE_ORDER && CanServe(z, Pow2(order)) then FirstRun(z.memMap, z.pages, Pow2(order)) else None
  }

  function AllocState(z: ZoneState, order: nat, flags: nat): ZoneState {
    match AllocResult(z, order)
    case None => z
    case Some(first) => Claim(z, first, order, flags)
  }

  function ReleasePage(p: Page, head: bool): Page {
    p.(count := Dec64(p.count), private := if head && Dec64(p.count) == 0 then NO_ORDER else p.private)
  }

  function ReleaseMap(m: seq<Page>, first: nat, n: nat): (r: seq<Page>)
    ensures |r| == |m|
  {
    seq(|m|, i requires 0 <= i < |m| => if first <= i < first + n then ReleasePage(m[i], i == first) else m[i])
  }

  /** Pages among m[first..first+n) whose count drops to zero. */
  function DroppedToFree(m: seq<Page>, first: nat, n: nat): nat
    requires first + n <= |m|
  {
    if n == 0 then 0 else DroppedToFree(m, first, n - 1) + (if m[first + n - 1].count == 1 then 1 else 0)
  }

  /** The two error branches of __free_pages. */
  predicate FreeAccepted(z: ZoneState, page: nat, order: nat)
    requires page < |z.memMap|
  {
    order <= MAX_PAGE_ORDER && z.memMap[page].count > 0 && z.memMap[page].private == order
  }

  function FreeState(z: ZoneState, page: nat, order: nat): ZoneState
    requires page < z.pages && z.pages + MAX_BLOCK <= |z.memMap| + 1
  {
    if FreeAccepted(z, page, order) then
      OrderBound(order);
      z.(memMap := ReleaseMap(z.memMap, page, Pow2(order)), freePages := z.freePages + DroppedToFree(z.memMap, page, Pow2(order)))
    else z
  }

  lemma OrderBound(order: nat)
    requires order <= MAX_PAGE_ORDER
    ensures 1 <= Pow2(order) <= MAX_BLOCK
  {
    Pow2Monotone(order, MAX_PAGE_ORDER);
    assert Pow2(MAX_PAGE_ORDER) == 32;
  }

  // ---------------------------------------------------------------- the allocator itself

  /** struct zone: its page descriptors and its count of free pages, updated in place. */
  class Zone {
    const memMap: array<Page>
    const pages: nat
    var freePages: nat

    constructor (memMap: array<Page>, pages: nat, freePages: nat)
      requires pages + MAX_BLOCK <= memMap.Length + 1
      ensures this.memMap == memMap && this.pages == pages && this.freePages == freePages && Wired()
    {
      this.memMap, this.pages, this.freePages := memMap, pages, freePages;
    }

    /** The words the scan can touch behind the last descriptor exist. */
    ghost predicate Wired() {
      pages + MAX_BLOCK <= memMap.Length + 1
    }

    ghost function View(): ZoneState
      reads this, memMap
    {
      ZoneState(memMap[..], pages, freePages)
    }

    /** The skip-ahead scan of __alloc_pages: on a busy page it resumes behind that page. */
    method FindRun(n: nat) returns (r: Option<nat>)
      requires pages + n <= memMap.Length + 1 && 1 <= n
      ensures r == FirstRun(memMap[..], pages, n)
    {
      var first := 0;
      while first < pages
        invariant forall f | 0 <= f < first && f < pages :: !FreeRun(memMap[..], f, n)
      {
        if memMap[first].count == 0 {
          var last := 0;
          ghost var start := first;
          while last < n
            invariant last <= n && first == start
            invariant forall k | start <= k < start + last :: memMap[k].count == 0
          {
            if memMap[first + last].count > 0 {
              first := first + last;
              break;
            }
            last := last + 1;
          }
          if last == n {
            assert FreeRun(memMap[..], first, n);
            FirstRunUnique(memMap[..], pages, n, Some(first));
            return Some(first);
          }
          assert memMap[..][first].count > 0 && start <= first < start + n;
        }
        first := first + 1;
      }
      FirstRunUnique(memMap[..], pages, n, None);
      r := None;
    }

    /** Marks a block as handed out. */
    method ClaimRun(first: nat, order: nat, gfpMask: nat)
      requires first + Pow2(order) <= memMap.Length && Pow2(order) <= freePages
      modifies this, memMap
      ensures View() == Claim(old(View()), first, order, gfpMask)
    {
      var n := Pow2(order);
      var last := 0;
      while last < n
        invariant last <= n && freePages == old(freePages)
        invariant forall i | 0 <= i < memMap.Length ::
                    memMap[i] == if first <= i < first + last then ClaimPage(old(memMap[i]), gfpMask, false, order) else old(memMap[i])
      {
        memMap[first + last] := memMap[first + last].(count := 1, flags := gfpMask);
        last := last + 1;
      }
      freePages := freePages - n;
      memMap[first] := memMap[first].(private := order);
      assert memMap[..] == ClaimMap(old(memMap[..]), first, order, gfpMask);
    }

    /** __free_pages, on the index of the descriptor. */
    method FreePages(page: nat, order: nat)
      requires Wired() && page < pages
      modifies this, memMap
      ensures View() == FreeState(old(View()), page, order)
    {
      if order > MAX_PAGE_ORDER || memMap[page].count == 0 || memMap[page].private != order {
        return;
      }
      OrderBound(order);
      var n := Pow2(order);
      var i := 0;
      while i < n
        invariant i <= n
        invariant freePages == old(freePages) + DroppedToFree(old(memMap[..]), page, i)
        invariant forall k | 0 <= k < memMap.Length ::
                    memMap[k] == if page <= k < page + i then old(memMap[k]).(count := Dec64(old(memMap[k]).count)) else old(memMap[k])
      {
        memMap[page + i] := memMap[page + i].(count := Dec64(memMap[page + i].count));
        if memMap[page + i].count == 0 {
          freePages := freePages + 1;
        }
        i := i + 1;
      }
      if memMap[page].count == 0 {
        memMap[page] := memMap[page].(private := NO_ORDER);
      }
      assert memMap[..] == ReleaseMap(old(memMap[..]), page, n);
    }
  }

  /** The state of every zone of a zone list. */
  ghost function Views(zonelist: seq<Zone>): (r: seq<ZoneState>)
    reads zonelist, set z | z in zonelist :: z.memMap
    ensures |r| == |zonelist|
  {
    seq(|zonelist|, i requires 0 <= i < |zonelist| reads zonelist, set z | z in zonelist :: z.memMap => zonelist[i].View())
  }

  /** __alloc_pages: goes from zone to zone until one has enough free pages and a run of them. The order
      is the caller's business; only the words that the scan reads have to exist. */
  method AllocFromZones(gfpMask: nat, order: nat, zonelist: seq<Zone>) returns (hit: Option<(nat, nat)>)
    requires forall z | z in zonelist :: z.pages + Pow2(order) <= z.memMap.Length + 1
    requires forall i, j | 0 <= i < j < |zonelist| :: zonelist[i] != zonelist[j] && zonelist[i].memMap != zonelist[j].memMap
    modifies zonelist, set z | z in zonelist :: z.memMap
    ensures hit.None? ==> Views(zonelist) == old(Views(zonelist)) && forall i | 0 <= i < |zonelist| :: !CanServe(old(Views(zonelist))[i], Pow2(order))
    ensures hit.Some? ==>
              var (i, first) := hit.value;
              && i < |zonelist|
              && (forall j | 0 <= j < i :: !CanServe(old(Views(zonelist))[j], Pow2(order)))
              && CanServe(old(Views(zonelist))[i], Pow2(order))
              && FirstRun(old(Views(zonelist))[i].memMap, old(Views(zonelist))[i].pages, Pow2(order)) == Some(first)
              && Views(zonelist) == old(Views(zonelist))[i := Claim(old(Views(zonelist))[i], first, order, gfpMask)]
  {
    var n := Pow2(order);
    var i := 0;
    ghost var before := Views(zonelist);
    while i < |zonelist|
      invariant i <= |zonelist|
      invariant Views(zonelist) == before
      invariant forall j | 0 <= j < i :: !CanServe(before[j], n)
    {
      var zone := zonelist[i];
      if zone.freePages > n {
        var run := zone.FindRun(n);
        assert before[i] == zone.View();
        if run.Some? {
          RunFromIsLowest(zone.memMap[..], zone.pages, n, 0);
          zone.ClaimRun(run.value, order, gfpMask);
          assert Views(zonelist) == before[i := Claim(before[i], run.value, order, gfpMask)];
          return Some((i, run.value));
        }
      }
      i := i + 1;
    }
    hit := None;
  }

  /** alloc_pages: the node has one zone. */
  method AllocPages(gfpMask: nat, order: nat, zone: Zone) returns (first: Option<nat>)
    requires zone.Wired()
    modifies zone, zone.memMap
    ensures first == AllocResult(old(zone.View()), order)
    ensures zone.View() == AllocState(old(zone.View()), order, gfpMask)
  {
    if order > MAX_PAGE_ORDER {
      return None;
    }
    OrderBound(order);
    ghost var before := Views([zone]);
    var hit := AllocFromZones(gfpMask, order, [zone]);
    assert Views([zone])[0] == zone.View();
    if hit.None? {
      return None;
    }
    first := Some(hit.value.1);
  }
}
