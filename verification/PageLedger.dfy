/** What the page allocator keeps over every run: which pages belong to which outstanding block,
    which are free, and that nothing is lost. */
module PageLedger {
  import opened Bits
  import opened PageAlloc

  // ---------------------------------------------------------------- blocks

  /** Page h heads an outstanding block. */
  predicate IsHead(z: ZoneState, h: nat) {
    h < z.pages <= |z.memMap| && z.memMap[h].private != NO_ORDER
  }

  function BlockSize(z: ZoneState, h: nat): nat
    requires h < |z.memMap|
  {
    Pow2(z.memMap[h].private)
  }

  predicate InBlock(z: ZoneState, h: nat, i: nat) {
    IsHead(z, h) && h <= i < h + BlockSize(z, h)
  }

  ghost predicate Owned(z: ZoneState, i: nat) {
    exists h: nat :: InBlock(z, h, i)
  }

  /** The word behind the last descriptor reads as a busy page. */
  predicate Sentinel(z: ZoneState) {
    z.pages + MAX_BLOCK <= |z.memMap| + 1 && z.memMap[z.pages].count > 0
  }

  function CountFree(m: seq<Page>, n: nat): nat
    requires n <= |m|
  {
    if n == 0 then 0 else CountFree(m, n - 1) + (if m[n - 1].count == 0 then 1 else 0)
  }

  /** Pages in outstanding blocks, read off the heads' `private` fields. */
  function BlockPages(m: seq<Page>, n: nat): nat
    requires n <= |m|
  {
    if n == 0 then 0
    else BlockPages(m, n - 1) + (if m[n - 1].private == NO_ORDER then 0 else Pow2(m[n - 1].private))
  }

  /** Outstanding blocks lie inside the zone, are busy, and do not overlap. */
  ghost predicate BlocksDisjoint(z: ZoneState) {
    && (forall h: nat {:trigger BlockOk(z, h)} | IsHead(z, h) :: BlockOk(z, h))
    && (forall h: nat, k: nat | IsHead(z, h) && IsHead(z, k) && h < k :: h + BlockSize(z, h) <= k)
  }

  /** A page is busy exactly when it is reserved or owned, and never both. */
  ghost predicate Accounted(z: ZoneState, reserved: set<nat>)
    requires z.pages <= |z.memMap|
  {
    && (forall r | r in reserved :: r < z.pages && z.memMap[r].count > 0 && !Owned(z, r))
    && (forall i: nat {:trigger Owned(z, i)} | i < z.pages && z.memMap[i].count > 0 :: i in reserved || Owned(z, i))
  }

  /** The counter is right and no page is lost. */
  ghost predicate Counted(z: ZoneState, reserved: set<nat>)
    requires z.pages <= |z.memMap|
  {
    && z.freePages == CountFree(z.memMap, z.pages)
    && z.freePages + |reserved| + BlockPages(z.memMap, z.pages) == z.pages
  }

  /** The ledger. `reserved` are the pages taken before the allocator started. Of the words behind the
      descriptors it says only that they are there. */
  ghost predicate Ledger(z: ZoneState, reserved: set<nat>) {
    z.pages + MAX_BLOCK <= |z.memMap| + 1 && BlocksDisjoint(z) && Accounted(z, reserved) && Counted(z, reserved)
  }

  /** A request of this order is refused or answered with a block inside the zone. The scan itself does
      not see to it; BlockEscapesZone says when it fails. */
  predicate StaysInside(z: ZoneState, order: nat) {
    AllocResult(z, order).Some? ==> AllocResult(z, order).value + Pow2(order) <= z.pages
  }

  ghost predicate BlockOk(z: ZoneState, h: nat)
    requires IsHead(z, h)
  {
    && z.memMap[h].private <= MAX_PAGE_ORDER
    && h + BlockSize(z, h) <= z.pages
    && forall i | h <= i < h + BlockSize(z, h) :: z.memMap[i].count == 1
  }

  // ---------------------------------------------------------------- counting lemmas

  lemma {:induction false} CountFreeSame(m: seq<Page>, m': seq<Page>, n: nat)
    requires n <= |m| == |m'|
    requires forall i | 0 <= i < n :: m[i].count == m'[i].count
    ensures CountFree(m, n) == CountFree(m', n)
  {
    if n > 0 {
      CountFreeSame(m, m', n - 1);
    }
  }

  /** Taking the free pages [a, b) out lowers the count by b - a; read backwards, returning them raises it. */
  lemma {:induction false} CountFreeTaken(m: seq<Page>, m': seq<Page>, a: nat, b: nat, n: nat)
    requires a <= b && n <= |m| == |m'|
    requires forall i | 0 <= i < n && !(a <= i < b) :: m[i].count == m'[i].count
    requires forall i | a <= i < b && i < n :: m[i].count == 0 && m'[i].count != 0
    ensures CountFree(m, n) == CountFree(m', n) + (if n <= a then 0 else if n <= b then n - a else b - a)
  {
    if n > 0 {
      CountFreeTaken(m, m', a, b, n - 1);
    }
  }

  /** Changing one page's `private` moves the sum by that page's share. */
  lemma {:induction false} BlockPagesOneHead(m: seq<Page>, m': seq<Page>, h: nat, n: nat)
    requires h < |m| && n <= |m| == |m'|
    requires forall i | 0 <= i < n && i != h :: m[i].private == m'[i].private
    requires m[h].private == NO_ORDER && m'[h].private != NO_ORDER
    ensures BlockPages(m', n) == BlockPages(m, n) + (if h < n then Pow2(m'[h].private) else 0)
  {
    if n > 0 {
      BlockPagesOneHead(m, m', h, n - 1);
    }
  }

  lemma {:induction false} DroppedAll(m: seq<Page>, first: nat, n: nat)
    requires first + n <= |m|
    requires forall i | first <= i < first + n :: m[i].count == 1
    ensures DroppedToFree(m, first, n) == n
  {
    if n > 0 {
      DroppedAll(m, first, n - 1);
    }
  }

  // ---------------------------------------------------------------- allocation

  /** A request that succeeds found pages nobody held, inside the zone. */
  ghost predicate Claimable(z: ZoneState, reserved: set<nat>, h: nat, order: nat) {
    && order <= MAX_PAGE_ORDER
    && z.freePages > Pow2(order)
    && h + Pow2(order) <= z.pages <= |z.memMap|
    && forall i | h <= i < h + Pow2(order) ::
         z.memMap[i].count == 0 && z.memMap[i].private == NO_ORDER && i !in reserved && !Owned(z, i)
  }

  lemma AllocGivesFreePages(z: ZoneState, reserved: set<nat>, order: nat)
    requires Ledger(z, reserved) && AllocResult(z, order).Some? && StaysInside(z, order)
    ensures Claimable(z, reserved, AllocResult(z, order).value, order)
  {
    var n := Pow2(order);
    RunFromIsLowest(z.memMap, z.pages, n, 0);
    var h := AllocResult(z, order).value;
    assert FreeRun(z.memMap, h, n);
    forall i | h <= i < h + n
      ensures z.memMap[i].private == NO_ORDER && i !in reserved && !Owned(z, i)
    {
      FreePageUnowned(z, reserved, i);
    }
  }

  lemma FreePageUnowned(z: ZoneState, reserved: set<nat>, i: nat)
    requires Ledger(z, reserved) && i < z.pages && z.memMap[i].count == 0
    ensures z.memMap[i].private == NO_ORDER && i !in reserved && !Owned(z, i)
  {
    assert IsHead(z, i) ==> BlockOk(z, i);
    forall k: nat | IsHead(z, k)
      ensures !InBlock(z, k, i)
    {
      assert BlockOk(z, k);
    }
  }

  /** Heads after an allocation: the new block's head and the old ones, unchanged. */
  lemma ClaimHeads(z: ZoneState, reserved: set<nat>, h: nat, order: nat, flags: nat, k: nat)
    requires z.pages <= |z.memMap| && Claimable(z, reserved, h, order)
    requires IsHead(z, k) ==> BlockOk(z, k)
    ensures var z' := Claim(z, h, order, flags);
            && IsHead(z', h)
            && BlockSize(z', h) == Pow2(order)
            && (k != h ==> (IsHead(z', k) <==> IsHead(z, k)))
            && (IsHead(z, k) ==> k != h && BlockSize(z', k) == BlockSize(z, k) && (k + BlockSize(z, k) <= h || h + Pow2(order) <= k))
            && (IsHead(z', k) ==> BlockOk(z', k))
  {
    var z' := Claim(z, h, order, flags);
    assert z'.memMap[h].private == order;
    if IsHead(z, k) {
      assert !(h <= k < h + Pow2(order));
      assert !InBlock(z, k, h);
    }
  }

  lemma ClaimOwned(z: ZoneState, reserved: set<nat>, h: nat, order: nat, flags: nat, i: nat)
    requires z.pages <= |z.memMap| && Claimable(z, reserved, h, order)
    requires forall k: nat | IsHead(z, k) :: BlockOk(z, k)
    ensures Owned(Claim(z, h, order, flags), i) <==> Owned(z, i) || h <= i < h + Pow2(order)
  {
    var z' := Claim(z, h, order, flags);
    ClaimHeads(z, reserved, h, order, flags, h);
    if Owned(z', i) {
      var k: nat :| InBlock(z', k, i);
      ClaimHeads(z, reserved, h, order, flags, k);
      assert k != h ==> InBlock(z, k, i);
    }
    if Owned(z, i) {
      var k: nat :| InBlock(z, k, i);
      ClaimHeads(z, reserved, h, order, flags, k);
      assert InBlock(z', k, i);
    }
    if h <= i < h + Pow2(order) {
      assert InBlock(z', h, i);
    }
  }

  lemma ClaimKeepsBlocks(z: ZoneState, reserved: set<nat>, h: nat, order: nat, flags: nat)
    requires BlocksDisjoint(z) && Claimable(z, reserved, h, order)
    ensures BlocksDisjoint(Claim(z, h, order, flags))
  {
    var z', n := Claim(z, h, order, flags), Pow2(order);
    forall k: nat | IsHead(z', k)
      ensures BlockOk(z', k)
      ensures k != h ==> IsHead(z, k) && BlockSize(z', k) == BlockSize(z, k) && (k + BlockSize(z, k) <= h || h + n <= k)
      ensures k == h ==> BlockSize(z', k) == n
    {
      ClaimHeads(z, reserved, h, order, flags, k);
    }
  }

  lemma ClaimKeepsAccounts(z: ZoneState, reserved: set<nat>, h: nat, order: nat, flags: nat)
    requires BlocksDisjoint(z) && Claimable(z, reserved, h, order) && Accounted(z, reserved)
    ensures Accounted(Claim(z, h, order, flags), reserved)
  {
    forall i: nat
      ensures Owned(Claim(z, h, order, flags), i) <==> Owned(z, i) || h <= i < h + Pow2(order)
    {
      ClaimOwned(z, reserved, h, order, flags, i);
    }
  }

  lemma ClaimKeepsCounts(z: ZoneState, reserved: set<nat>, h: nat, order: nat, flags: nat)
    requires Claimable(z, reserved, h, order) && Counted(z, reserved)
    ensures Counted(Claim(z, h, order, flags), reserved)
  {
    var z' := Claim(z, h, order, flags);
    CountFreeTaken(z.memMap, z'.memMap, h, h + Pow2(order), z.pages);
    BlockPagesOneHead(z.memMap, z'.memMap, h, z.pages);
  }

  lemma ClaimKeepsLedger(z: ZoneState, reserved: set<nat>, h: nat, order: nat, flags: nat)
    requires Ledger(z, reserved) && Claimable(z, reserved, h, order)
    ensures Ledger(Claim(z, h, order, flags), reserved)
  {
    ClaimKeepsBlocks(z, reserved, h, order, flags);
    ClaimKeepsAccounts(z, reserved, h, order, flags);
    ClaimKeepsCounts(z, reserved, h, order, flags);
  }

  /** An allocation keeps the ledger exactly when its block stays inside the zone. */
  lemma AllocKeepsLedger(z: ZoneState, reserved: set<nat>, order: nat, flags: nat)
    requires Ledger(z, reserved)
    ensures Ledger(AllocState(z, order, flags), reserved) <==> StaysInside(z, order)
  {
    if AllocResult(z, order).Some? {
      var h := AllocResult(z, order).value;
      if StaysInside(z, order) {
        AllocGivesFreePages(z, reserved, order);
        ClaimKeepsLedger(z, reserved, h, order, flags);
      } else {
        RunFromIsLowest(z.memMap, z.pages, Pow2(order), 0);
        assert !BlockOk(Claim(z, h, order, flags), h);
      }
    }
  }

  /** alloc_pages answers exactly for orders up to 5, when more pages are free than asked for and some run
      of that many descriptors from inside the zone reads as free; the answer is the lowest such run. */
  lemma AllocAnswer(z: ZoneState, order: nat)
    ensures AllocResult(z, order).Some? <==>
            && order <= 5 && z.freePages > Pow2(order)
            && exists f: nat :: f < z.pages && FreeRun(z.memMap, f, Pow2(order))
    ensures AllocResult(z, order).Some? ==>
              var h := AllocResult(z, order).value;
              && h < z.pages && h + Pow2(order) <= |z.memMap|
              && (forall k | h <= k < h + Pow2(order) :: z.memMap[k].count == 0)
              && (forall f: nat | f < h :: !FreeRun(z.memMap, f, Pow2(order)))
  {
    RunFromIsLowest(z.memMap, z.pages, Pow2(order), 0);
  }

  /** What it writes: in the block, count 1 and the flags asked for, and the order in the first page; the
      free count; nothing else. */
  lemma AllocEffect(z: ZoneState, order: nat, flags: nat)
    requires AllocResult(z, order).Some?
    ensures var h, z' := AllocResult(z, order).value, AllocState(z, order, flags);
            && z'.pages == z.pages && z'.freePages + Pow2(order) == z.freePages && |z'.memMap| == |z.memMap|
            && (forall i | 0 <= i < |z.memMap| && !(h <= i < h + Pow2(order)) :: z'.memMap[i] == z.memMap[i])
            && (forall i | 0 <= i < |z.memMap| && h <= i < h + Pow2(order) ::
                  && z'.memMap[i].count == 1 && z'.memMap[i].flags == flags
                  && z'.memMap[i].private == (if i == h then order else z.memMap[i].private)
                  && z'.memMap[i].index == z.memMap[i].index && z'.memMap[i].virt == z.memMap[i].virt
                  && z'.memMap[i].slab == z.memMap[i].slab)
  {
  }

  // ---------------------------------------------------------------- release

  /** __free_pages acts exactly on the head of an outstanding block with that block's order. A page
      reserved at boot, an inner page of a block, a free page and a wrong order change nothing. */
  lemma FreeActsOnHeadsOnly(z: ZoneState, reserved: set<nat>, page: nat, order: nat)
    requires Ledger(z, reserved) && page < z.pages
    ensures FreeAccepted(z, page, order) <==> IsHead(z, page) && z.memMap[page].private == order
    ensures FreeState(z, page, order) != z <==> IsHead(z, page) && z.memMap[page].private == order
    ensures page in reserved ==> FreeState(z, page, order) == z
    ensures forall h: nat | InBlock(z, h, page) && h != page :: FreeState(z, page, order) == z
  {
    if IsHead(z, page) {
      assert BlockOk(z, page);
      assert InBlock(z, page, page);
      if z.memMap[page].private == order {
        var z' := FreeState(z, page, order);
        assert z'.memMap[page].count == 0;
      }
    }
    forall h: nat | InBlock(z, h, page) && h != page
      ensures !IsHead(z, page)
    {
    }
  }

  /** The state after an accepted release, as one expression. */
  function Released(z: ZoneState, page: nat, order: nat): ZoneState {
    z.(memMap := ReleaseMap(z.memMap, page, Pow2(order)), freePages := z.freePages + Pow2(order))
  }

  lemma FreeIsReleased(z: ZoneState, page: nat, order: nat)
    requires z.pages + MAX_BLOCK <= |z.memMap| + 1 && BlocksDisjoint(z) && IsHead(z, page) && z.memMap[page].private == order
    ensures order <= MAX_PAGE_ORDER && FreeState(z, page, order) == Released(z, page, order)
  {
    assert BlockOk(z, page);
    DroppedAll(z.memMap, page, Pow2(order));
  }

  /** What an accepted release writes: in the block, count 0; -1 in the first page's `private`; the free
      count; nothing else. */
  lemma FreeEffect(z: ZoneState, reserved: set<nat>, page: nat, order: nat)
    requires Ledger(z, reserved) && IsHead(z, page) && z.memMap[page].private == order
    ensures var z' := FreeState(z, page, order);
            && z'.pages == z.pages && z'.freePages == z.freePages + Pow2(order) && |z'.memMap| == |z.memMap|
            && (forall i | 0 <= i < |z.memMap| && !(page <= i < page + Pow2(order)) :: z'.memMap[i] == z.memMap[i])
            && (forall i | 0 <= i < |z.memMap| && page <= i < page + Pow2(order) ::
                  && z'.memMap[i].count == 0 && z'.memMap[i].flags == z.memMap[i].flags
                  && z'.memMap[i].private == (if i == page then 0xFFFF_FFFF_FFFF_FFFF else z.memMap[i].private)
                  && z'.memMap[i].index == z.memMap[i].index && z'.memMap[i].virt == z.memMap[i].virt
                  && z'.memMap[i].slab == z.memMap[i].slab)
  {
    FreeIsReleased(z, page, order);
    assert BlockOk(z, page);
  }

  lemma ReleaseHeads(z: ZoneState, page: nat, k: nat)
    requires BlocksDisjoint(z) && IsHead(z, page)
    ensures var z' := Released(z, page, z.memMap[page].private);
            && !IsHead(z', page)
            && (k != page ==> (IsHead(z', k) <==> IsHead(z, k)))
            && (k != page && IsHead(z, k) ==>
                  && BlockSize(z', k) == BlockSize(z, k)
                  && (k + BlockSize(z, k) <= page || page + BlockSize(z, page) <= k)
                  && BlockOk(z', k))
  {
    assert BlockOk(z, page);
    assert IsHead(z, k) ==> BlockOk(z, k);
  }

  lemma ReleaseOwned(z: ZoneState, page: nat, i: nat)
    requires BlocksDisjoint(z) && IsHead(z, page)
    ensures Owned(Released(z, page, z.memMap[page].private), i) <==> Owned(z, i) && !InBlock(z, page, i)
  {
    var z' := Released(z, page, z.memMap[page].private);
    if Owned(z', i) {
      var k: nat :| InBlock(z', k, i);
      ReleaseHeads(z, page, k);
      assert InBlock(z, k, i);
    }
    if Owned(z, i) && !InBlock(z, page, i) {
      var k: nat :| InBlock(z, k, i);
      ReleaseHeads(z, page, k);
      assert InBlock(z', k, i);
    }
  }

  lemma ReleaseKeepsBlocks(z: ZoneState, page: nat)
    requires BlocksDisjoint(z) && IsHead(z, page)
    ensures BlocksDisjoint(Released(z, page, z.memMap[page].private))
  {
    var z' := Released(z, page, z.memMap[page].private);
    forall k: nat | IsHead(z', k)
      ensures IsHead(z, k) && BlockSize(z', k) == BlockSize(z, k) && BlockOk(z', k)
    {
      ReleaseHeads(z, page, k);
    }
  }

  lemma ReleaseKeepsAccounts(z: ZoneState, reserved: set<nat>, page: nat)
    requires BlocksDisjoint(z) && IsHead(z, page) && Accounted(z, reserved)
    ensures Accounted(Released(z, page, z.memMap[page].private), reserved)
  {
    var z' := Released(z, page, z.memMap[page].private);
    assert BlockOk(z, page);
    forall i: nat
      ensures Owned(z', i) <==> Owned(z, i) && !InBlock(z, page, i)
      ensures i < z.pages && InBlock(z, page, i) ==> z'.memMap[i].count == 0 && Owned(z, i)
      ensures i < z.pages && !InBlock(z, page, i) ==> z'.memMap[i].count == z.memMap[i].count
    {
      ReleaseOwned(z, page, i);
    }
  }

  lemma ReleaseKeepsCounts(z: ZoneState, reserved: set<nat>, page: nat)
    requires BlocksDisjoint(z) && IsHead(z, page) && Counted(z, reserved)
    ensures Counted(Released(z, page, z.memMap[page].private), reserved)
  {
    var z' := Released(z, page, z.memMap[page].private);
    assert BlockOk(z, page);
    CountFreeTaken(z'.memMap, z.memMap, page, page + BlockSize(z, page), z.pages);
    BlockPagesOneHead(z'.memMap, z.memMap, page, z.pages);
  }

  lemma FreeKeepsLedger(z: ZoneState, reserved: set<nat>, page: nat, order: nat)
    requires Ledger(z, reserved) && page < z.pages
    ensures Ledger(FreeState(z, page, order), reserved)
  {
    FreeActsOnHeadsOnly(z, reserved, page, order);
    if FreeAccepted(z, page, order) {
      assert BlockOk(z, page);
      FreeIsReleased(z, page, order);
      ReleaseKeepsBlocks(z, page);
      ReleaseKeepsAccounts(z, reserved, page);
      ReleaseKeepsCounts(z, reserved, page);
    }
  }

  // ---------------------------------------------------------------- runs

  /** A caller may ask for any order and may free any descriptor with any order. */
  datatype PageOp = Alloc(order: nat, flags: nat) | Free(page: nat, freeOrder: nat)

  /** The zone next to what its callers know: the blocks they were given and have not returned. */
  datatype Trace = Trace(zone: ZoneState, held: map<nat, nat>)

  function Step(t: Trace, op: PageOp): (t': Trace)
    requires t.zone.pages + MAX_BLOCK <= |t.zone.memMap| + 1
    ensures t'.zone.pages == t.zone.pages && |t'.zone.memMap| == |t.zone.memMap|
  {
    match op
    case Alloc(order, flags) =>
      var hit := AllocResult(t.zone, order);
      Trace(AllocState(t.zone, order, flags), if hit.Some? then t.held[hit.value := order] else t.held)
    case Free(page, order) =>
      Trace(if page < t.zone.pages then FreeState(t.zone, page, order) else t.zone,
            if page in t.held && t.held[page] == order then t.held - {page} else t.held)
  }

  function Run(t: Trace, ops: seq<PageOp>): (t': Trace)
    requires t.zone.pages + MAX_BLOCK <= |t.zone.memMap| + 1
    ensures t'.zone.pages == t.zone.pages && |t'.zone.memMap| == |t.zone.memMap|
    decreases |ops|
  {
    if ops == [] then t else Run(Step(t, ops[0]), ops[1..])
  }

  /** `private` is -1 except on the first page of a block in a caller's hands, where it is the order. */
  ghost predicate PrivateIsHeld(t: Trace) {
    t.zone.pages <= |t.zone.memMap| &&
    forall i: nat :: (i in t.held <==> IsHead(t.zone, i)) && (i in t.held ==> t.held[i] == t.zone.memMap[i].private)
  }

  lemma AllocKeepsHeld(t: Trace, reserved: set<nat>, order: nat, flags: nat)
    requires Ledger(t.zone, reserved) && PrivateIsHeld(t) && StaysInside(t.zone, order)
    ensures PrivateIsHeld(Step(t, Alloc(order, flags)))
  {
    if AllocResult(t.zone, order).Some? {
      AllocGivesFreePages(t.zone, reserved, order);
      var h := AllocResult(t.zone, order).value;
      forall i: nat
        ensures IsHead(Claim(t.zone, h, order, flags), i) <==> i == h || IsHead(t.zone, i)
      {
        assert IsHead(t.zone, i) ==> BlockOk(t.zone, i);
        ClaimHeads(t.zone, reserved, h, order, flags, i);
      }
    }
  }

  lemma FreeKeepsHeld(t: Trace, reserved: set<nat>, page: nat, order: nat)
    requires Ledger(t.zone, reserved) && PrivateIsHeld(t)
    ensures PrivateIsHeld(Step(t, Free(page, order)))
  {
    if page < t.zone.pages {
      FreeActsOnHeadsOnly(t.zone, reserved, page, order);
      if FreeAccepted(t.zone, page, order) {
        FreeIsReleased(t.zone, page, order);
        forall i: nat
          ensures IsHead(Released(t.zone, page, order), i) <==> i != page && IsHead(t.zone, i)
        {
          ReleaseHeads(t.zone, page, i);
        }
      }
    }
  }

  /** The guard of one operation: an allocation's block stays inside the zone; a release needs none. */
  predicate OpStaysInside(t: Trace, op: PageOp) {
    op.Alloc? ==> StaysInside(t.zone, op.order)
  }

  /** No allocation of the run picks a block that leaves the zone. */
  predicate NeverEscapes(t: Trace, ops: seq<PageOp>)
    requires t.zone.pages + MAX_BLOCK <= |t.zone.memMap| + 1
    decreases |ops|
  {
    ops == [] || (OpStaysInside(t, ops[0]) && NeverEscapes(Step(t, ops[0]), ops[1..]))
  }

  /** The ledger holds, and callers hold exactly what `private` says, at every moment of the run. */
  ghost predicate AlwaysSound(t: Trace, reserved: set<nat>, ops: seq<PageOp>)
    decreases |ops|
  {
    && Ledger(t.zone, reserved) && PrivateIsHeld(t)
    && (ops == [] || AlwaysSound(Step(t, ops[0]), reserved, ops[1..]))
  }

  lemma StepKeepsLedger(t: Trace, reserved: set<nat>, op: PageOp)
    requires Ledger(t.zone, reserved) && PrivateIsHeld(t)
    ensures Ledger(Step(t, op).zone, reserved) && PrivateIsHeld(Step(t, op)) <==> OpStaysInside(t, op)
  {
    match op {
      case Alloc(order, flags) =>
        AllocKeepsLedger(t.zone, reserved, order, flags);
        if StaysInside(t.zone, order) {
          AllocKeepsHeld(t, reserved, order, flags);
        }
      case Free(page, order) =>
        if page < t.zone.pages {
          FreeKeepsLedger(t.zone, reserved, page, order);
        }
        FreeKeepsHeld(t, reserved, page, order);
    }
  }

  /** Over every run: ledger and holdings are right at every moment exactly when no allocation picks a
      block that leaves the zone. */
  lemma {:induction false} RunKeepsLedger(t: Trace, reserved: set<nat>, ops: seq<PageOp>)
    requires Ledger(t.zone, reserved) && PrivateIsHeld(t)
    ensures AlwaysSound(t, reserved, ops) <==> NeverEscapes(t, ops)
    decreases |ops|
  {
    if ops != [] {
      StepKeepsLedger(t, reserved, ops[0]);
      if OpStaysInside(t, ops[0]) {
        RunKeepsLedger(Step(t, ops[0]), reserved, ops[1..]);
      }
    }
  }

  lemma {:induction false} SoundAtEnd(t: Trace, reserved: set<nat>, ops: seq<PageOp>)
    requires t.zone.pages + MAX_BLOCK <= |t.zone.memMap| + 1 && AlwaysSound(t, reserved, ops)
    ensures Ledger(Run(t, ops).zone, reserved) && PrivateIsHeld(Run(t, ops))
    decreases |ops|
  {
    if ops != [] {
      SoundAtEnd(Step(t, ops[0]), reserved, ops[1..]);
    }
  }

  /** What callers get from any run that starts with nothing handed out and in which no block leaves the
      zone: blocks they hold are
      inside the zone and share no page with each other or with the reserved pages, a release is
      accepted exactly for a held block with its own order, and no page is lost. */
  lemma RunSafety(z: ZoneState, reserved: set<nat>, ops: seq<PageOp>, h: nat, k: nat, order: nat)
    requires Ledger(z, reserved) && PrivateIsHeld(Trace(z, map[])) && NeverEscapes(Trace(z, map[]), ops)
    ensures var Trace(z', held) := Run(Trace(z, map[]), ops);
            && (h in held ==> h + Pow2(held[h]) <= z.pages && forall r | r in reserved :: !(h <= r < h + Pow2(held[h])))
            && (h in held && k in held && h < k ==> h + Pow2(held[h]) <= k)
            && (h < z.pages ==> (FreeAccepted(z', h, order) <==> h in held && held[h] == order))
            && CountFree(z'.memMap, z.pages) + |reserved| + BlockPages(z'.memMap, z.pages) == z.pages
  {
    RunKeepsLedger(Trace(z, map[]), reserved, ops);
    SoundAtEnd(Trace(z, map[]), reserved, ops);
    var Trace(z', held) := Run(Trace(z, map[]), ops);
    if h in held {
      assert BlockOk(z', h);
      forall r | r in reserved
        ensures !(h <= r < h + Pow2(held[h]))
      {
        assert !InBlock(z', h, r);
      }
    }
    if h < z.pages {
      FreeActsOnHeadsOnly(z', reserved, h, order);
    }
  }

  // ---------------------------------------------------------------- free undoes alloc

  predicate SameButFlags(z: ZoneState, z': ZoneState) {
    && z.pages == z'.pages && z.freePages == z'.freePages && |z.memMap| == |z'.memMap|
    && forall i | 0 <= i < |z.memMap| :: z.memMap[i].(flags := 0) == z'.memMap[i].(flags := 0)
  }

  lemma {:induction false} SearchIgnoresFlags(z: ZoneState, z': ZoneState, n: nat, from: nat)
    requires SameButFlags(z, z')
    ensures RunFrom(z.memMap, z.pages, n, from) == RunFrom(z'.memMap, z.pages, n, from)
    decreases z.pages - from
  {
    if from < z.pages {
      assert forall k | 0 <= k < |z.memMap| :: z.memMap[k].count == z.memMap[k].(flags := 0).count == z'.memMap[k].count;
      SearchIgnoresFlags(z, z', n, from + 1);
    }
  }

  /** Freeing what was just allocated restores everything but the flags of those pages, so the
      same request is then answered with the same block; so it is even for a block that leaves the zone. */
  lemma FreeUndoesAlloc(z: ZoneState, reserved: set<nat>, order: nat, flags: nat)
    requires Ledger(z, reserved) && AllocResult(z, order).Some?
    ensures AllocResult(z, order).value < z.pages
    ensures var h := AllocResult(z, order).value;
            var z' := FreeState(AllocState(z, order, flags), h, order);
            SameButFlags(z, z') && AllocResult(z', order) == Some(h)
  {
    var h := AllocResult(z, order).value;
    RunFromIsLowest(z.memMap, z.pages, Pow2(order), 0);
    FreePageUnowned(z, reserved, h);
    var z1 := AllocState(z, order, flags);
    DroppedAll(z1.memMap, h, Pow2(order));
    assert z1.memMap[h].private == order && z1.memMap[h].count == 1;
    var z' := FreeState(z1, h, order);
    forall i | 0 <= i < |z.memMap|
      ensures z.memMap[i].(flags := 0) == z'.memMap[i].(flags := 0)
    {
      assert h <= i < h + Pow2(order) ==> z.memMap[i].count == 0;
    }
    SearchIgnoresFlags(z, z', Pow2(order), 0);
  }

  // ---------------------------------------------------------------- the missing bound

  /** Number of free pages in a row that end at `end`. */
  function FreeBefore(m: seq<Page>, end: nat): (n: nat)
    requires end <= |m|
    ensures n <= end
  {
    if end > 0 && m[end - 1].count == 0 then 1 + FreeBefore(m, end - 1) else 0
  }

  /** Number of words in a row from `start` on that read as free descriptors. */
  function FreeAfter(m: seq<Page>, start: nat): (n: nat)
    requires start <= |m|
    ensures start + n <= |m|
    decreases |m| - start
  {
    if start < |m| && m[start].count == 0 then 1 + FreeAfter(m, start + 1) else 0
  }

  lemma {:induction false} FreeBeforeMeaning(m: seq<Page>, end: nat)
    requires end <= |m|
    ensures forall k | end - FreeBefore(m, end) <= k < end :: m[k].count == 0
    ensures FreeBefore(m, end) < end ==> m[end - FreeBefore(m, end) - 1].count != 0
  {
    if end > 0 && m[end - 1].count == 0 {
      FreeBeforeMeaning(m, end - 1);
    }
  }

  lemma {:induction false} FreeAfterMeaning(m: seq<Page>, start: nat)
    requires start <= |m|
    ensures forall k | start <= k < start + FreeAfter(m, start) :: m[k].count == 0
    ensures start + FreeAfter(m, start) < |m| ==> m[start + FreeAfter(m, start)].count != 0
    decreases |m| - start
  {
    if start < |m| && m[start].count == 0 {
      FreeAfterMeaning(m, start + 1);
    }
  }

  /** The scan never compares a run's end with the zone's. The block it picks sticks out of the
      zone exactly when no run of n fits inside, the zone's last page is free, and the free pages
      before the end together with the words behind it that read as free make n. */
  lemma BlockEscapesZone(z: ZoneState, n: nat)
    requires z.pages + MAX_BLOCK <= |z.memMap| + 1 && 1 <= n <= MAX_BLOCK
    ensures (FirstRun(z.memMap, z.pages, n).Some? && FirstRun(z.memMap, z.pages, n).value + n > z.pages)
       <==> && (forall f: nat | f + n <= z.pages :: !FreeRun(z.memMap, f, n))
            && FreeBefore(z.memMap, z.pages) >= 1
            && FreeBefore(z.memMap, z.pages) + FreeAfter(z.memMap, z.pages) >= n
  {
    var m := z.memMap;
    RunFromIsLowest(m, z.pages, n, 0);
    FreeBeforeMeaning(m, z.pages);
    FreeAfterMeaning(m, z.pages);
    var b, a := FreeBefore(m, z.pages), FreeAfter(m, z.pages);
    var r := FirstRun(m, z.pages, n);
    if r.Some? && r.value + n > z.pages {
      var f := r.value;
      assert m[z.pages - 1].count == 0;
    }
    if (forall f: nat | f + n <= z.pages :: !FreeRun(m, f, n)) && b >= 1 && b + a >= n {
      var f := if b >= n then z.pages - n else z.pages - b;
      assert FreeRun(m, f, n);
    }
  }

  /** So a request leaves the zone exactly when it is served at all and that happens. */
  lemma StaysInsideIff(z: ZoneState, order: nat)
    requires z.pages + MAX_BLOCK <= |z.memMap| + 1
    ensures !StaysInside(z, order) <==>
              && order <= MAX_PAGE_ORDER && z.freePages > Pow2(order)
              && (forall f: nat | f + Pow2(order) <= z.pages :: !FreeRun(z.memMap, f, Pow2(order)))
              && FreeBefore(z.memMap, z.pages) >= 1
              && FreeBefore(z.memMap, z.pages) + FreeAfter(z.memMap, z.pages) >= Pow2(order)
  {
    if order <= MAX_PAGE_ORDER {
      OrderBound(order);
      BlockEscapesZone(z, Pow2(order));
    }
  }

  /** With a busy word behind the table the block always lies inside the zone. */
  lemma SentinelKeepsBlockInside(z: ZoneState, n: nat)
    requires Sentinel(z) && 1 <= n <= MAX_BLOCK
    ensures FirstRun(z.memMap, z.pages, n).Some? ==> FirstRun(z.memMap, z.pages, n).value + n <= z.pages
  {
    RunFromIsLowest(z.memMap, z.pages, n, 0);
  }

  lemma SentinelStaysInside(z: ZoneState, order: nat)
    requires Sentinel(z)
    ensures StaysInside(z, order)
  {
    RunFromIsLowest(z.memMap, z.pages, Pow2(order), 0);
  }

  lemma AllocKeepsSentinel(z: ZoneState, order: nat, flags: nat)
    requires Sentinel(z)
    ensures Sentinel(AllocState(z, order, flags))
  {
    SentinelStaysInside(z, order);
  }

  lemma FreeKeepsSentinel(z: ZoneState, reserved: set<nat>, page: nat, order: nat)
    requires Sentinel(z) && Ledger(z, reserved) && page < z.pages
    ensures Sentinel(FreeState(z, page, order))
  {
    FreeActsOnHeadsOnly(z, reserved, page, order);
    assert IsHead(z, page) ==> BlockOk(z, page);
  }

  /** So then no run ever leaves the zone. */
  lemma {:induction false} SentinelNeverEscapes(t: Trace, reserved: set<nat>, ops: seq<PageOp>)
    requires Ledger(t.zone, reserved) && PrivateIsHeld(t) && Sentinel(t.zone)
    ensures NeverEscapes(t, ops)
    decreases |ops|
  {
    if ops != [] {
      match ops[0] {
        case Alloc(order, flags) =>
          SentinelStaysInside(t.zone, order);
          AllocKeepsSentinel(t.zone, order, flags);
        case Free(page, order) =>
          if page < t.zone.pages {
            FreeKeepsSentinel(t.zone, reserved, page, order);
          }
      }
      StepKeepsLedger(t, reserved, ops[0]);
      SentinelNeverEscapes(Step(t, ops[0]), reserved, ops[1..]);
    }
  }

  // ---------------------------------------------------------------- a run that leaves the zone

  lemma {:induction false} SomeOtherFree(m: seq<Page>, n: nat)
    requires 1 <= n <= |m| && CountFree(m, n) >= 2
    ensures exists i: nat :: i < n - 1 && m[i].count == 0
  {
    if CountFree(m, n - 1) >= 2 {
      SomeOtherFree(m, n - 1);
    } else if n - 1 > 0 {
      OneFree(m, n - 1);
    }
  }

  lemma {:induction false} OneFree(m: seq<Page>, n: nat)
    requires n <= |m| && CountFree(m, n) >= 1
    ensures exists i: nat :: i < n && m[i].count == 0
  {
    if m[n - 1].count != 0 {
      OneFree(m, n - 1);
    }
  }

  lemma {:induction false} NoneFree(m: seq<Page>, n: nat)
    requires n <= |m| && CountFree(m, n) == 0
    ensures forall i | 0 <= i < n :: m[i].count != 0
  {
    if n > 0 {
      NoneFree(m, n - 1);
    }
  }

  /** A request for one page, with two free, gets a free page other than the zone's last. */
  lemma TakesEarlierPage(z: ZoneState, reserved: set<nat>)
    requires Ledger(z, reserved) && z.freePages >= 2
    ensures AllocResult(z, 0).Some? && AllocResult(z, 0).value + 1 < z.pages
    ensures z.memMap[AllocResult(z, 0).value].count == 0 && StaysInside(z, 0)
  {
    var m := z.memMap;
    assert Pow2(0) == 1;
    SomeOtherFree(m, z.pages);
    var i: nat :| i < z.pages - 1 && m[i].count == 0;
    assert FreeRun(m, i, 1);
    RunFromIsLowest(m, z.pages, 1, 0);
    assert FreeRun(m, AllocResult(z, 0).value, 1);
  }

  /** `after` is reached from t by taking single pages until one is left, and that is the zone's last. */
  ghost predicate Drained(t: Trace, ops: seq<PageOp>)
    requires t.zone.pages + MAX_BLOCK <= |t.zone.memMap| + 1
  {
    var after := Run(t, ops);
    && NeverEscapes(t, ops) && after.zone.freePages == 1
    && (forall i: nat | t.zone.pages <= i + 1 && i < |t.zone.memMap| :: after.zone.memMap[i].count == t.zone.memMap[i].count)
    && (forall i: nat | i < t.zone.pages - 1 && t.zone.memMap[i].count == 0 :: i in after.held && after.held[i] == 0)
  }

  lemma DrainStep(t: Trace, t1: Trace, ops: seq<PageOp>)
    requires t.zone.pages + MAX_BLOCK <= |t.zone.memMap| + 1 && StaysInside(t.zone, 0)
    requires AllocResult(t.zone, 0).Some? && AllocResult(t.zone, 0).value + 1 < t.zone.pages
    requires t1 == Step(t, Alloc(0, 0)) && Drained(t1, ops) && AllocResult(t.zone, 0).value in Run(t1, ops).held
    requires Run(t1, ops).held[AllocResult(t.zone, 0).value] == 0
    ensures Drained(t, [Alloc(0, 0)] + ops)
  {
    var all := [Alloc(0, 0)] + ops;
    assert Pow2(0) == 1;
    assert all[0] == Alloc(0, 0) && all[1..] == ops;
    assert Run(t, all) == Run(t1, ops);
  }

  lemma {:induction false} HeldStays(t: Trace, n: nat, h: nat)
    requires t.zone.pages + MAX_BLOCK <= |t.zone.memMap| + 1 && h in t.held && t.held[h] == 0
    ensures h in Run(t, Singles(n)).held && Run(t, Singles(n)).held[h] == 0
    decreases n
  {
    if n > 0 {
      HeldStays(Step(t, Alloc(0, 0)), n - 1, h);
      assert Singles(n)[1..] == Singles(n - 1);
    }
  }

  /** n requests for one page. */
  function Singles(n: nat): (ops: seq<PageOp>)
    ensures |ops| == n
  {
    if n == 0 then [] else [Alloc(0, 0)] + Singles(n - 1)
  }

  lemma OneTaken(t: Trace, reserved: set<nat>)
    requires Ledger(t.zone, reserved) && PrivateIsHeld(t) && t.zone.pages >= 1 && t.zone.freePages >= 2
    requires t.zone.memMap[t.zone.pages - 1].count == 0
    ensures AllocResult(t.zone, 0).Some? && AllocResult(t.zone, 0).value + 1 < t.zone.pages && StaysInside(t.zone, 0)
    ensures var t1 := Step(t, Alloc(0, 0));
            && Ledger(t1.zone, reserved) && PrivateIsHeld(t1) && t1.zone.freePages + 1 == t.zone.freePages
            && t1.zone.memMap[t.zone.pages - 1].count == 0
            && AllocResult(t.zone, 0).value in t1.held && t1.held[AllocResult(t.zone, 0).value] == 0
  {
    TakesEarlierPage(t.zone, reserved);
    StepKeepsLedger(t, reserved, Alloc(0, 0));
    assert Pow2(0) == 1;
  }

  /** Requests for one page can take everything but the zone's last page, if that is free. */
  lemma {:induction false} DrainTheZone(t: Trace, reserved: set<nat>)
    requires Ledger(t.zone, reserved) && PrivateIsHeld(t) && t.zone.pages >= 1 && t.zone.memMap[t.zone.pages - 1].count == 0
    ensures t.zone.freePages >= 1 && Drained(t, Singles(t.zone.freePages - 1))
    decreases t.zone.freePages
  {
    var n := t.zone.freePages - 1;
    if n == 0 {
      NoneFree(t.zone.memMap, t.zone.pages - 1);
    } else {
      var t1 := Step(t, Alloc(0, 0));
      OneTaken(t, reserved);
      DrainTheZone(t1, reserved);
      HeldStays(t1, n - 1, AllocResult(t.zone, 0).value);
      DrainStep(t, t1, Singles(n - 1));
    }
  }

  /** Returning a single page frees that page and changes no other count. */
  lemma ReturnOne(t: Trace, reserved: set<nat>, a: nat)
    requires Ledger(t.zone, reserved) && PrivateIsHeld(t) && a in t.held && t.held[a] == 0
    ensures var t' := Step(t, Free(a, 0));
            && Ledger(t'.zone, reserved) && PrivateIsHeld(t') && t'.held == t.held - {a}
            && t'.zone.freePages == t.zone.freePages + 1 && a < t.zone.pages
            && forall i | 0 <= i < |t.zone.memMap| :: t'.zone.memMap[i].count == if i == a then 0 else t.zone.memMap[i].count
  {
    assert Pow2(0) == 1;
    assert BlockOk(t.zone, a);
    StepKeepsLedger(t, reserved, Free(a, 0));
    FreeActsOnHeadsOnly(t.zone, reserved, a, 0);
    FreeIsReleased(t.zone, a, 0);
  }

  /** Three free pages, no two of them neighbours and one the zone's last, with a free-reading word behind
      it: a request for two leaves the zone. */
  lemma ThreeApartEscape(z: ZoneState, a: nat, b: nat)
    requires z.pages + MAX_BLOCK <= |z.memMap| + 1 && z.freePages == 3 && a + 1 < b && b + 2 < z.pages
    requires forall i | 0 <= i < z.pages :: z.memMap[i].count == 0 <==> i == a || i == b || i == z.pages - 1
    requires z.memMap[z.pages].count == 0
    ensures !StaysInside(z, 1)
  {
    var m, last := z.memMap, z.pages - 1;
    assert Pow2(1) == 2;
    assert FreeRun(m, last, 2);
    forall f: nat | f < last
      ensures !FreeRun(m, f, 2)
    {
      assert m[f].count != 0 || m[f + 1].count != 0;
    }
    FirstRunUnique(m, z.pages, 2, Some(last));
  }

  lemma TwoReturned(t: Trace, reserved: set<nat>, a: nat, b: nat)
    requires Ledger(t.zone, reserved) && PrivateIsHeld(t) && t.zone.freePages == 1 && a + 1 < b && b + 2 < t.zone.pages
    requires t.zone.memMap[t.zone.pages - 1].count == 0 && t.zone.memMap[t.zone.pages].count == 0
    requires a in t.held && t.held[a] == 0 && b in t.held && t.held[b] == 0
    ensures var ops := [Free(a, 0), Free(b, 0)];
            NeverEscapes(t, ops) && !StaysInside(Run(t, ops).zone, 1)
  {
    BusyButLast(t.zone);
    ReturnOne(t, reserved, a);
    ReturnOne(Step(t, Free(a, 0)), reserved, b);
    ThreeApartEscape(Step(Step(t, Free(a, 0)), Free(b, 0)).zone, a, b);
    TwoSteps(t, Free(a, 0), Free(b, 0));
  }

  lemma DrainedWithTwo(t: Trace, reserved: set<nat>, a: nat, b: nat)
    requires Ledger(t.zone, reserved) && PrivateIsHeld(t) && a < b && b + 1 < t.zone.pages
    requires t.zone.memMap[t.zone.pages - 1].count == 0 && t.zone.memMap[t.zone.pages].count == 0
    requires t.zone.memMap[a].count == 0 && t.zone.memMap[b].count == 0
    ensures t.zone.freePages >= 1 && NeverEscapes(t, Singles(t.zone.freePages - 1))
    ensures var t1 := Run(t, Singles(t.zone.freePages - 1));
            && Ledger(t1.zone, reserved) && PrivateIsHeld(t1) && t1.zone.freePages == 1
            && t1.zone.memMap[t.zone.pages - 1].count == 0 && t1.zone.memMap[t.zone.pages].count == 0
            && a in t1.held && t1.held[a] == 0 && b in t1.held && t1.held[b] == 0
  {
    DrainTheZone(t, reserved);
    var ops := Singles(t.zone.freePages - 1);
    RunKeepsLedger(t, reserved, ops);
    SoundAtEnd(t, reserved, ops);
  }

  /** Some run in which no block has left the zone ends where a request for two pages makes one leave it. */
  ghost predicate CanEscape(t: Trace)
    requires t.zone.pages + MAX_BLOCK <= |t.zone.memMap| + 1
  {
    exists ops :: NeverEscapes(t, ops) && !StaysInside(Run(t, ops).zone, 1)
  }

  lemma ThenTwo(t: Trace, ops: seq<PageOp>, more: seq<PageOp>)
    requires t.zone.pages + MAX_BLOCK <= |t.zone.memMap| + 1 && NeverEscapes(t, ops)
    requires NeverEscapes(Run(t, ops), more) && !StaysInside(Run(Run(t, ops), more).zone, 1)
    ensures CanEscape(t)
  {
    RunAppend(t, ops, more);
    assert NeverEscapes(t, ops + more) && !StaysInside(Run(t, ops + more).zone, 1);
  }

  /** From any zone whose last page is free and whose next word reads as free, callers get there: they take
      all single pages, and return two that are not neighbours of each other or of the last page. */
  lemma EscapeIsReachable(t: Trace, reserved: set<nat>, a: nat, b: nat)
    requires Ledger(t.zone, reserved) && PrivateIsHeld(t) && a + 1 < b && b + 2 < t.zone.pages
    requires t.zone.memMap[t.zone.pages - 1].count == 0 && t.zone.memMap[t.zone.pages].count == 0
    requires t.zone.memMap[a].count == 0 && t.zone.memMap[b].count == 0
    ensures CanEscape(t)
  {
    DrainedWithTwo(t, reserved, a, b);
    var ops := Singles(t.zone.freePages - 1);
    TwoReturned(Run(t, ops), reserved, a, b);
    ThenTwo(t, ops, [Free(a, 0), Free(b, 0)]);
  }

  lemma BusyButLast(z: ZoneState)
    requires 1 <= z.pages <= |z.memMap| && CountFree(z.memMap, z.pages) == 1 && z.memMap[z.pages - 1].count == 0
    ensures forall i | 0 <= i < z.pages - 1 :: z.memMap[i].count != 0
  {
    NoneFree(z.memMap, z.pages - 1);
  }

  lemma TwoSteps(t: Trace, x: PageOp, y: PageOp)
    requires t.zone.pages + MAX_BLOCK <= |t.zone.memMap| + 1 && x.Free? && y.Free?
    ensures Run(t, [x, y]) == Step(Step(t, x), y) && NeverEscapes(t, [x, y])
  {
    assert [x, y][1..] == [y] && [y][1..] == [];
    assert Run(t, [x, y]) == Run(Step(t, x), [y]) == Run(Step(Step(t, x), y), []);
    assert NeverEscapes(Step(Step(t, x), y), []);
    assert NeverEscapes(Step(t, x), [y]);
  }

  lemma {:induction false} RunAppend(t: Trace, a: seq<PageOp>, b: seq<PageOp>)
    requires t.zone.pages + MAX_BLOCK <= |t.zone.memMap| + 1
    ensures Run(t, a + b) == Run(Run(t, a), b)
    ensures NeverEscapes(t, a + b) <==> NeverEscapes(t, a) && NeverEscapes(Run(t, a), b)
    decreases |a|
  {
    if a == [] {
      assert a + b == b;
    } else {
      assert (a + b)[1..] == a[1..] + b && (a + b)[0] == a[0];
      RunAppend(Step(t, a[0]), a[1..], b);
    }
  }
}
