/** Runs of the slab allocator: any sequence of kmalloc, kfree, grow, shrink, cache creation, stores
    into held objects and page traffic of other users. */
module SlabRuns {
  import opened Bits
  import opened PageAlloc
  import opened PageLedger
  import opened SlabGeometry
  import opened SlabState
  import opened SlabInvariant
  import opened SlabSafety

  datatype Op =
    | KmallocOp(size: nat, flags: nat)
    | KfreeOp(addr: nat)
    | GrowOp(cache: nat, growFlags: nat)
    | ShrinkOp(cache: nat)
    | CreateOp(name: Option<string>, objSize: nat, align: nat, cacheFlags: nat)
    | StoreOp(addr: nat, value: nat)
    | TakePagesOp(order: nat, pageFlags: nat)
    | ReturnPagesOp(page: nat, order: nat)

  /** The allocator next to what its callers know: the addresses they hold, with the sizes they
      asked for. */
  datatype World = World(k: Kmem, held: map<nat, nat>)

  /** Start of the object that an address lies in. */
  function Base(k: Kmem, addr: nat): nat {
    if IsSlab(k, HomePage(k, addr)) then ObjAddr(k, HomePage(k, addr), HomeIndex(k, addr)) else 0
  }

  /** What callers must keep to: free what is held (or an address that caos_kfree itself rejects),
      store words only inside objects that are held, not return the pages of a slab or of the cache
      table behind the slab allocator's back, and create caches whose layout fits and whose size continues the ascending
      table. */
  ghost predicate Polite(w: World, op: Op)
    requires Shaped(w.k)
  {
    match op
    case KmallocOp(_, _) => true
    case KfreeOp(addr) =>
      PageOf(addr) < w.k.zone.pages && (InLiveObject(w.k, addr) || Kfree(w.k, addr) == w.k)
    case GrowOp(c, _) => c < |w.k.caches| && w.k.caches[c].name.Some?
    case ShrinkOp(c) => c < |w.k.caches|
    case CreateOp(name, size, align, flags) =>
      && (CreateResult(w.k, name, size).Some? ==> LayoutFits(size, align))
      && Ascending(Create(w.k, name, size, align, flags).caches)
    case StoreOp(addr, _) =>
      addr % 2 == 0 && InLiveObject(w.k, addr) && addr + 2 <= Base(w.k, addr) + CacheOf(w.k, HomePage(w.k, addr)).objSize
    case TakePagesOp(_, _) => true
    case ReturnPagesOp(page, order) =>
      page < w.k.zone.pages && !OwnBlock(w.k, page, order)
  }

  /** Any pages that the operation takes lie inside the zone, which the page allocator does not see to. */
  ghost predicate OpStaysInside(k: Kmem, op: Op)
    requires Shaped(k)
  {
    match op
    case KmallocOp(size, _) => KmallocStaysInside(k, size)
    case GrowOp(c, _) => c < |k.caches| ==> StaysInside(k.zone, k.caches[c].gfpOrder)
    case TakePagesOp(order, _) => StaysInside(k.zone, order)
    case _ => true
  }

  ghost predicate Admissible(w: World, op: Op)
    requires Shaped(w.k)
  {
    Polite(w, op) && OpStaysInside(w.k, op)
  }

  function Step(w: World, op: Op): World
    requires Shaped(w.k)
  {
    match op
    case KmallocOp(size, flags) =>
      var (k', o) := Kmalloc(w.k, size, flags);
      World(k', if o.Got? then w.held[o.addr := size] else w.held)
    case KfreeOp(addr) =>
      if PageOf(addr) >= w.k.zone.pages then w
      else World(Kfree(w.k, addr), if InLiveObject(w.k, addr) then w.held - {Base(w.k, addr)} else w.held)
    case GrowOp(c, flags) => if c < |w.k.caches| then w.(k := Grow(w.k, c, flags)) else w
    case ShrinkOp(c) => if c < |w.k.caches| then w.(k := Shrink(w.k, c)) else w
    case CreateOp(name, size, align, flags) => w.(k := Create(w.k, name, size, align, flags))
    case StoreOp(addr, value) => w.(k := Store(w.k, addr, value))
    case TakePagesOp(order, flags) => w.(k := w.k.(zone := AllocState(w.k.zone, order, flags)))
    case ReturnPagesOp(page, order) =>
      if page < w.k.zone.pages then w.(k := w.k.(zone := FreeState(w.k.zone, page, order))) else w
  }

  /** Callers hold exactly the starts of the live objects, and each is as large as they asked. */
  ghost predicate HeldIsLive(w: World) {
    HeldAreLive(w) && LiveAreHeld(w)
  }

  ghost predicate HeldAreLive(w: World) {
    forall a: nat | a in w.held :: HeldOk(w, a)
  }

  ghost predicate LiveAreHeld(w: World) {
    forall p: nat, i: nat | LiveObj(w.k, p, i) :: ObjAddr(w.k, p, i) in w.held
  }

  ghost predicate HeldOk(w: World, a: nat)
    requires a in w.held
  {
    && InLiveObject(w.k, a) && Base(w.k, a) == a
    && w.held[a] <= CacheOf(w.k, HomePage(w.k, a)).objSize
  }

  ghost predicate Sound(w: World, reserved: set<nat>) {
    Inv(w.k, reserved) && HeldIsLive(w) && Ascending(w.k.caches)
  }

  // ---------------------------------------------------------------- one step

  /** Nothing about live objects changed. */
  lemma SameLiveSameHeld(w: World, k': Kmem, reserved: set<nat>)
    requires Sound(w, reserved) && Inv(k', reserved) && SameLive(w.k, k')
    ensures HeldIsLive(w.(k := k'))
  {
    var w' := w.(k := k');
    forall a: nat | a in w.held
      ensures HeldOk(w', a)
    {
      assert HeldOk(w, a);
      StillHome(w.k, k', reserved, a);
    }
    forall p: nat, i: nat | LiveObj(k', p, i)
      ensures ObjAddr(k', p, i) in w.held
    {
      assert LiveObj(w.k, p, i);
    }
  }

  /** The start of an object that stays live in the same cache still leads home. */
  lemma StillHome(k: Kmem, k': Kmem, reserved: set<nat>, a: nat)
    requires InLiveObject(k, a) && Base(k, a) == a && Inv(k', reserved)
    requires LiveObj(k', HomePage(k, a), HomeIndex(k, a)) && CacheOf(k', HomePage(k, a)) == CacheOf(k, HomePage(k, a))
    ensures InLiveObject(k', a) && Base(k', a) == a && HomePage(k', a) == HomePage(k, a) && HomeIndex(k', a) == HomeIndex(k, a)
  {
    LiveObjectLeadsHome(k', reserved, HomePage(k, a), HomeIndex(k, a), a);
  }

  /** A live object's start leads to it. */
  lemma StartIsHome(k: Kmem, reserved: set<nat>, p: nat, i: nat)
    requires Inv(k, reserved) && LiveObj(k, p, i)
    ensures var a := ObjAddr(k, p, i);
            HomePage(k, a) == p && HomeIndex(k, a) == i && InLiveObject(k, a) && Base(k, a) == a
  {
    assert SlabOk(k, p);
    LiveObjectLeadsHome(k, reserved, p, i, ObjAddr(k, p, i));
  }

  lemma GainedHeld(w: World, k': Kmem, reserved: set<nat>, p: nat, i: nat, size: nat)
    requires Sound(w, reserved) && Inv(k', reserved) && Gained(w.k, k', p, i) && IsSlab(k', p)
    requires size <= CacheOf(k', p).objSize
    ensures HeldIsLive(World(k', w.held[ObjAddr(k', p, i) := size]))
  {
    var a := ObjAddr(k', p, i);
    var w' := World(k', w.held[a := size]);
    assert LiveObj(k', p, i);
    StartIsHome(k', reserved, p, i);
    forall b: nat | b in w'.held
      ensures HeldOk(w', b)
    {
      if b != a {
        OtherStaysHeld(w, k', reserved, b);
      }
    }
    forall q: nat, j: nat | LiveObj(k', q, j)
      ensures ObjAddr(k', q, j) in w'.held
    {
      assert LiveObj(w.k, q, j) || (q == p && j == i);
    }
  }

  lemma OtherStaysHeld(w: World, k': Kmem, reserved: set<nat>, b: nat)
    requires b in w.held && HeldOk(w, b) && Inv(k', reserved)
    requires LiveObj(k', HomePage(w.k, b), HomeIndex(w.k, b)) && CacheOf(k', HomePage(w.k, b)) == CacheOf(w.k, HomePage(w.k, b))
    ensures HeldOk(World(k', map[b := w.held[b]]), b)
  {
    StillHome(w.k, k', reserved, b);
  }

  lemma OtherNotFreed(w: World, k': Kmem, addr: nat, b: nat)
    requires InLiveObject(w.k, addr) && b in w.held && HeldOk(w, b) && b != Base(w.k, addr)
    requires Gained(k', w.k, HomePage(w.k, addr), HomeIndex(w.k, addr)) && k'.caches == w.k.caches
    ensures LiveObj(k', HomePage(w.k, b), HomeIndex(w.k, b)) && CacheOf(k', HomePage(w.k, b)) == CacheOf(w.k, HomePage(w.k, b))
  {
    assert LiveObj(w.k, HomePage(w.k, b), HomeIndex(w.k, b));
  }

  lemma LostStillHeld(w: World, k': Kmem, reserved: set<nat>, addr: nat, q: nat, j: nat)
    requires Inv(w.k, reserved) && LiveAreHeld(w) && InLiveObject(w.k, addr) && LiveObj(k', q, j)
    requires Gained(k', w.k, HomePage(w.k, addr), HomeIndex(w.k, addr)) && k'.caches == w.k.caches
    ensures ObjAddr(k', q, j) in w.held && ObjAddr(k', q, j) != Base(w.k, addr)
  {
    assert LiveObj(w.k, q, j);
    DifferentStarts(w.k, reserved, q, j, HomePage(w.k, addr), HomeIndex(w.k, addr));
  }

  lemma LostHeldAreLive(w: World, k': Kmem, reserved: set<nat>, addr: nat)
    requires HeldAreLive(w) && Inv(k', reserved) && InLiveObject(w.k, addr) && k'.caches == w.k.caches
    requires Gained(k', w.k, HomePage(w.k, addr), HomeIndex(w.k, addr))
    ensures HeldAreLive(World(k', w.held - {Base(w.k, addr)}))
  {
    var w' := World(k', w.held - {Base(w.k, addr)});
    forall b: nat | b in w'.held
      ensures HeldOk(w', b)
    {
      OtherNotFreed(w, k', addr, b);
      OtherStaysHeld(w, k', reserved, b);
    }
  }

  lemma LostLiveAreHeld(w: World, k': Kmem, reserved: set<nat>, addr: nat)
    requires Inv(w.k, reserved) && LiveAreHeld(w) && InLiveObject(w.k, addr) && k'.caches == w.k.caches
    requires Gained(k', w.k, HomePage(w.k, addr), HomeIndex(w.k, addr))
    ensures LiveAreHeld(World(k', w.held - {Base(w.k, addr)}))
  {
    var w' := World(k', w.held - {Base(w.k, addr)});
    forall q: nat, j: nat | LiveObj(w'.k, q, j)
      ensures ObjAddr(w'.k, q, j) in w'.held
    {
      LostStillHeld(w, k', reserved, addr, q, j);
    }
  }

  lemma DifferentStarts(k: Kmem, reserved: set<nat>, q: nat, j: nat, p: nat, i: nat)
    requires Inv(k, reserved) && LiveObj(k, q, j) && LiveObj(k, p, i) && (q != p || j != i)
    ensures ObjAddr(k, q, j) != ObjAddr(k, p, i)
  {
    assert SlabOk(k, q) && SlabOk(k, p);
    ObjectsApart(k, reserved, q, j, p, i);
  }

  lemma GotIsLargeEnough(k: Kmem, reserved: set<nat>, size: nat, flags: nat)
    requires Inv(k, reserved) && Kmalloc(k, size, flags).1.Got?
    ensures var c := FindCache(k.caches, size, 0);
            c < |k.caches| && k.caches[c].name.Some? && size <= k.caches[c].objSize
  {
    FirstLargeEnough(k.caches, size, 0);
    KmallocOutcome(k, reserved, size, flags);
  }

  lemma HomeIsLargeEnough(k: Kmem, p: nat, c: nat, size: nat)
    requires SlabsOk(k) && IsSlab(k, p) && Ascending(k.caches)
    requires c < |k.caches| && k.caches[c].name.Some? && size <= k.caches[c].objSize
    requires k.hdrs[p].cache >= c
    ensures size <= CacheOf(k, p).objSize
  {
    assert SlabOk(k, p);
  }

  lemma GainedIsSound(w: World, k': Kmem, reserved: set<nat>, p: nat, i: nat, c: nat, size: nat)
    requires Sound(w, reserved) && Inv(k', reserved) && k'.caches == w.k.caches && Gained(w.k, k', p, i)
    requires c < |w.k.caches| && w.k.caches[c].name.Some? && size <= w.k.caches[c].objSize
    requires k'.hdrs[p].cache >= c
    ensures Sound(World(k', w.held[ObjAddr(k', p, i) := size]), reserved)
  {
    assert LiveObj(k', p, i);
    HomeIsLargeEnough(k', p, c, size);
    GainedHeld(w, k', reserved, p, i, size);
  }

  lemma KmallocStep(w: World, reserved: set<nat>, size: nat, flags: nat)
    requires Sound(w, reserved) && KmallocStaysInside(w.k, size)
    ensures Sound(Step(w, KmallocOp(size, flags)), reserved)
  {
    var (k', o) := Kmalloc(w.k, size, flags);
    KmallocGains(w.k, reserved, size, flags);
    if o.Got? {
      var c := FindCache(w.k.caches, size, 0);
      GotIsLargeEnough(w.k, reserved, size, flags);
      var p: nat, i: nat :| Gained(w.k, k', p, i) && o.addr == ObjAddr(k', p, i) && k'.hdrs[p].cache >= c;
      GainedIsSound(w, k', reserved, p, i, c, size);
    }
  }

  lemma KfreeStep(w: World, reserved: set<nat>, addr: nat)
    requires Sound(w, reserved) && Admissible(w, KfreeOp(addr))
    ensures Sound(Step(w, KfreeOp(addr)), reserved)
  {
    if InLiveObject(w.k, addr) {
      KfreeLoses(w.k, reserved, addr);
      LostHeldAreLive(w, Kfree(w.k, addr), reserved, addr);
      LostLiveAreHeld(w, Kfree(w.k, addr), reserved, addr);
    }
  }

  lemma GrowStep(w: World, reserved: set<nat>, c: nat, flags: nat)
    requires Sound(w, reserved) && Admissible(w, GrowOp(c, flags))
    ensures Sound(Step(w, GrowOp(c, flags)), reserved)
  {
    GrowKeepsInv(w.k, reserved, c, flags);
    GrowSameLive(w.k, reserved, c, flags);
    GrowShaped(w.k, c, flags);
    SameLiveSameHeld(w, Grow(w.k, c, flags), reserved);
  }

  lemma ShrinkStep(w: World, reserved: set<nat>, c: nat)
    requires Sound(w, reserved) && c < |w.k.caches|
    ensures Sound(Step(w, ShrinkOp(c)), reserved)
  {
    ShrinkKeepsInv(w.k, reserved, c);
    ShrinkSameLive(w.k, reserved, c);
    SameLiveSameHeld(w, Shrink(w.k, c), reserved);
  }

  lemma CreateStep(w: World, reserved: set<nat>, name: Option<string>, size: nat, align: nat, flags: nat)
    requires Sound(w, reserved) && Admissible(w, CreateOp(name, size, align, flags))
    ensures Sound(Step(w, CreateOp(name, size, align, flags)), reserved)
  {
    CreateKeepsInv(w.k, reserved, name, size, align, flags);
    SameLiveSameHeld(w, Create(w.k, name, size, align, flags), reserved);
  }

  lemma StoreSameLive(k: Kmem, reserved: set<nat>, addr: nat, value: nat)
    requires Inv(k, reserved) && InLiveObject(k, addr) && addr + 2 <= Base(k, addr) + CacheOf(k, HomePage(k, addr)).objSize
    ensures Inv(Store(k, addr, value), reserved) && SameLive(k, Store(k, addr, value))
  {
    var p, i := HomePage(k, addr), HomeIndex(k, addr);
    assert SlabOk(k, p);
    StoreKeepsInv(k, reserved, p, i, addr, value);
  }

  lemma StoreStep(w: World, reserved: set<nat>, addr: nat, value: nat)
    requires Sound(w, reserved) && Admissible(w, StoreOp(addr, value))
    ensures Sound(Step(w, StoreOp(addr, value)), reserved)
  {
    StoreSameLive(w.k, reserved, addr, value);
    SameLiveSameHeld(w, Store(w.k, addr, value), reserved);
  }

  lemma NewZoneSameLive(s: Kmem, z': ZoneState)
    ensures SameLive(s, s.(zone := z'))
  {
  }

  lemma PageStep(w: World, reserved: set<nat>, op: Op)
    requires Sound(w, reserved) && Admissible(w, op) && (op.TakePagesOp? || op.ReturnPagesOp?)
    ensures Sound(Step(w, op), reserved)
  {
    if op.TakePagesOp? {
      PageAllocKeepsInv(w.k, reserved, op.order, op.pageFlags);
    } else {
      PageFreeKeepsInv(w.k, reserved, op.page, op.order);
    }
    NewZoneSameLive(w.k, Step(w, op).k.zone);
    SameLiveSameHeld(w, Step(w, op).k, reserved);
  }

  lemma StepKeepsSound(w: World, reserved: set<nat>, op: Op)
    requires Sound(w, reserved) && Admissible(w, op)
    ensures Sound(Step(w, op), reserved)
  {
    match op
    case KmallocOp(size, flags) => KmallocStep(w, reserved, size, flags);
    case KfreeOp(addr) => KfreeStep(w, reserved, addr);
    case GrowOp(c, flags) => GrowStep(w, reserved, c, flags);
    case ShrinkOp(c) => ShrinkStep(w, reserved, c);
    case CreateOp(name, size, align, flags) => CreateStep(w, reserved, name, size, align, flags);
    case StoreOp(addr, value) => StoreStep(w, reserved, addr, value);
    case TakePagesOp(_, _) => PageStep(w, reserved, op);
    case ReturnPagesOp(_, _) => PageStep(w, reserved, op);
  }

  lemma StepKeepsTable(w: World, reserved: set<nat>, op: Op)
    requires Sound(w, reserved)
    ensures Step(w, op).k.table == w.k.table
  {
    if op.KmallocOp? {
      KmallocGains(w.k, reserved, op.size, op.flags);
    }
  }

  // ---------------------------------------------------------------- runs

  /** w' is reached from w by the operations ops, each admissible where it happens. */
  ghost predicate Reaches(w: World, ops: seq<Op>, w': World)
    decreases |ops|
  {
    if ops == [] then w == w'
    else Shaped(w.k) && Admissible(w, ops[0]) && Reaches(Step(w, ops[0]), ops[1..], w')
  }

  lemma {:induction false} RunKeepsSound(w: World, ops: seq<Op>, w': World, reserved: set<nat>)
    requires Sound(w, reserved) && Reaches(w, ops, w')
    ensures Sound(w', reserved) && w'.k.table == w.k.table
    decreases |ops|
  {
    if ops != [] {
      StepKeepsSound(w, reserved, ops[0]);
      StepKeepsTable(w, reserved, ops[0]);
      RunKeepsSound(Step(w, ops[0]), ops[1..], w', reserved);
    }
  }

  /** The object behind a held address. */
  lemma HeldHome(w: World, reserved: set<nat>, a: nat)
    requires Sound(w, reserved) && a in w.held
    ensures var p, i := HomePage(w.k, a), HomeIndex(w.k, a);
            && IsSlab(w.k, p) && SlabOk(w.k, p) && i < CacheOf(w.k, p).num
            && ObjAddr(w.k, p, i) == a && w.held[a] <= CacheOf(w.k, p).objSize
  {
    assert HeldOk(w, a);
    assert SlabOk(w.k, HomePage(w.k, a));
  }

  lemma HeldApart(w: World, reserved: set<nat>, a: nat, b: nat)
    requires Sound(w, reserved) && a in w.held && b in w.held && a < b
    ensures a + w.held[a] <= b
  {
    HeldHome(w, reserved, a);
    HeldHome(w, reserved, b);
    ObjectsApart(w.k, reserved, HomePage(w.k, a), HomeIndex(w.k, a), HomePage(w.k, b), HomeIndex(w.k, b));
  }

  lemma HeldInsideSlab(w: World, reserved: set<nat>, a: nat, q: nat)
    requires Sound(w, reserved) && a in w.held
    ensures var p := HomePage(w.k, a);
            IsSlab(w.k, p) && IsHead(w.k.zone, p) && Va(p) <= a && a + w.held[a] <= Va(p) + BlockSize(w.k.zone, p) * PAGE_SIZE
    ensures OffTable(w.k, a, a + w.held[a]) && OffReserved(reserved, a, a + w.held[a])
    ensures IsSlab(w.k, q) ==>
              && (a + w.held[a] <= Va(q) || Va(q) + SIZEOF_SLAB + SIZEOF_BUFCTL * CacheOf(w.k, q).num <= a)
              && OffTable(w.k, Va(q), Va(q) + SIZEOF_SLAB + SIZEOF_BUFCTL * CacheOf(w.k, q).num)
  {
    HeldHome(w, reserved, a);
    var p, i := HomePage(w.k, a), HomeIndex(w.k, a);
    ObjectClearOfMetadata(w.k, reserved, p, i, p);
    if IsSlab(w.k, q) {
      ObjectClearOfMetadata(w.k, reserved, p, i, q);
    }
  }

  lemma FreeingReleases(w: World, reserved: set<nat>, a: nat)
    requires Sound(w, reserved) && a in w.held
    ensures Step(w, KfreeOp(a)).held == w.held - {a}
  {
    assert HeldOk(w, a);
    KfreeLoses(w.k, reserved, a);
  }

  /** The guarantee to callers, in every state of every run: the memory asked for at two addresses
      they hold does not overlap; it lies off every slab's header and index array, off the cache table
      and the pages reserved at boot, and inside a block of pages that belongs to the slab of the object;
      headers and index arrays lie off the cache table too; and freeing a held address takes exactly that
      address out of what is held. */
  lemma HeldMemoryIsDisjoint(w: World, ops: seq<Op>, w': World, reserved: set<nat>, a: nat, b: nat, q: nat)
    requires Sound(w, reserved) && Reaches(w, ops, w')
    requires a in w'.held && b in w'.held
    ensures a < b ==> a + w'.held[a] <= b
    ensures IsSlab(w'.k, q) ==>
              && (a + w'.held[a] <= Va(q) || Va(q) + SIZEOF_SLAB + SIZEOF_BUFCTL * CacheOf(w'.k, q).num <= a)
              && OffTable(w'.k, Va(q), Va(q) + SIZEOF_SLAB + SIZEOF_BUFCTL * CacheOf(w'.k, q).num)
    ensures w'.k.table == w.k.table && OffTable(w'.k, a, a + w'.held[a]) && OffReserved(reserved, a, a + w'.held[a])
    ensures var p := HomePage(w'.k, a);
            IsSlab(w'.k, p) && IsHead(w'.k.zone, p) && Va(p) <= a && a + w'.held[a] <= Va(p) + BlockSize(w'.k.zone, p) * PAGE_SIZE
    ensures Shaped(w'.k) && Step(w', KfreeOp(a)).held == w'.held - {a}
  {
    RunKeepsSound(w, ops, w', reserved);
    HeldInsideSlab(w', reserved, a, q);
    FreeingReleases(w', reserved, a);
    if a < b {
      HeldApart(w', reserved, a, b);
    }
  }

  // ---------------------------------------------------------------- names

  /** The table is filled from the front, and no two caches have the same name. */
  ghost predicate NamesOk(caches: seq<Cache>) {
    && (forall i, j | 0 <= i < j < |caches| && caches[j].name.Some? :: caches[i].name.Some?)
    && (forall i, j | 0 <= i < j < |caches| && caches[j].name.Some? :: caches[i].name != caches[j].name)
  }

  lemma {:induction false} UsedPart(caches: seq<Cache>, n: nat) returns (e: nat)
    requires NamesOk(caches) && n <= |caches| && forall d | 0 <= d < n :: caches[d].name.Some?
    ensures UsedBelow(caches, e)
    decreases |caches| - n
  {
    if n < |caches| && caches[n].name.Some? {
      e := UsedPart(caches, n + 1);
    } else {
      e := n;
    }
  }

  lemma CreateKeepsNames(s: Kmem, name: Option<string>, size: nat, align: nat, flags: nat)
    requires Shaped(s) && NamesOk(s.caches)
    ensures NamesOk(Create(s, name, size, align, flags).caches)
  {
    var e := UsedPart(s.caches, 0);
    CreateAnswer(s, name, size, e);
    CreateEffect(s, name, size, align, flags);
  }

  /** Over every run the names of the used caches stay pairwise different. */
  lemma {:induction false} NamesStayDifferent(w: World, ops: seq<Op>, w': World, reserved: set<nat>)
    requires Sound(w, reserved) && NamesOk(w.k.caches) && Reaches(w, ops, w')
    ensures NamesOk(w'.k.caches)
    decreases |ops|
  {
    if ops != [] {
      match ops[0] {
        case KmallocOp(size, flags) => KmallocGains(w.k, reserved, size, flags);
        case CreateOp(name, size, align, flags) => CreateKeepsNames(w.k, name, size, align, flags);
        case _ =>
      }
      StepKeepsSound(w, reserved, ops[0]);
      NamesStayDifferent(Step(w, ops[0]), ops[1..], w', reserved);
    }
  }

  // ---------------------------------------------------------------- with a busy word behind the table

  lemma GrowKeepsSentinel(s: Kmem, reserved: set<nat>, c: nat, flags: nat)
    requires Shaped(s) && Ledger(s.zone, reserved) && Sentinel(s.zone) && c < |s.caches|
    ensures Sentinel(Grow(s, c, flags).zone)
  {
    GrowIsGrown(s, reserved, c, flags);
    SentinelStaysInside(s.zone, s.caches[c].gfpOrder);
  }

  lemma KmallocKeepsSentinel(s: Kmem, reserved: set<nat>, size: nat, flags: nat)
    requires Inv(s, reserved) && Sentinel(s.zone)
    ensures Sentinel(Kmalloc(s, size, flags).0.zone) && KmallocStaysInside(s, size)
  {
    var c := FindCache(s.caches, size, 0);
    RetryLoopIsSearch(s, reserved, c, flags);
    var d := FirstServing(s, c);
    if d.Some? {
      SentinelStaysInside(s.zone, s.caches[d.value].gfpOrder);
      GrowKeepsSentinel(s, reserved, d.value, flags);
      AllocInTable(s.zone, s.caches[d.value].gfpOrder);
    }
  }

  lemma ShrinkKeepsSentinel(s: Kmem, reserved: set<nat>, c: nat)
    requires Inv(s, reserved) && Sentinel(s.zone) && c < |s.caches|
    ensures Sentinel(Shrink(s, c).zone)
  {
    var k := FindIdle(s, c, 0);
    ShrinkIsDropped(s, reserved, c);
    if k < |s.lists[c]| {
      ListedIsSlab(s, c, k);
      assert SlabOk(s, s.lists[c][k]);
    }
  }

  lemma StepKeepsSentinel(w: World, reserved: set<nat>, op: Op)
    requires Sound(w, reserved) && Polite(w, op) && Sentinel(w.k.zone)
    ensures OpStaysInside(w.k, op) && Sentinel(Step(w, op).k.zone)
  {
    match op
    case KmallocOp(size, flags) => KmallocKeepsSentinel(w.k, reserved, size, flags);
    case KfreeOp(addr) =>
    case GrowOp(c, flags) =>
      SentinelStaysInside(w.k.zone, w.k.caches[c].gfpOrder);
      GrowKeepsSentinel(w.k, reserved, c, flags);
    case ShrinkOp(c) => ShrinkKeepsSentinel(w.k, reserved, c);
    case CreateOp(_, _, _, _) =>
    case StoreOp(_, _) =>
    case TakePagesOp(order, flags) =>
      SentinelStaysInside(w.k.zone, order);
      AllocKeepsSentinel(w.k.zone, order, flags);
    case ReturnPagesOp(page, order) => FreeKeepsSentinel(w.k.zone, reserved, page, order);
  }

  /** w' is reached by operations whose callers keep to their part. */
  ghost predicate PolitelyReaches(w: World, ops: seq<Op>, w': World)
    decreases |ops|
  {
    if ops == [] then w == w'
    else Shaped(w.k) && Polite(w, ops[0]) && PolitelyReaches(Step(w, ops[0]), ops[1..], w')
  }

  /** If the word behind the descriptor table reads as busy at the start, callers' good manners are all
      that a run needs. */
  lemma {:induction false} PoliteRunsSuffice(w: World, ops: seq<Op>, w': World, reserved: set<nat>)
    requires Sound(w, reserved) && Sentinel(w.k.zone) && PolitelyReaches(w, ops, w')
    ensures Reaches(w, ops, w')
    decreases |ops|
  {
    if ops != [] {
      StepKeepsSentinel(w, reserved, ops[0]);
      StepKeepsSound(w, reserved, ops[0]);
      PoliteRunsSuffice(Step(w, ops[0]), ops[1..], w', reserved);
    }
  }
}
