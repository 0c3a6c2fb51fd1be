/** The layout that kmem_cache_create (src/slab.c) chooses for the pages of a slab: header, index
    array, objects. */
module SlabGeometry {
  import opened Bits

  const PAGE_SIZE: nat := 4096
  const SIZEOF_SLAB: nat := 64
  const SIZEOF_BUFCTL: nat := 2
  const SLAB_DEFAULT_NUM: nat := 10
  const BYTES_PER_LONG: nat := 8
  const KMALLOC_MAX_SIZE: nat := 2048

  /** End mark of a free list, (u16)0xFFFF. */
  const BUFCTL_END: nat := 0xFFFF

  datatype Geometry = Geometry(objSize: nat, gfpOrder: nat, num: int, colourOff: nat)

  /** `if (x & mask) { x += mask; x &= ~mask; }` on a 64-bit word. */
  function RoundUpMask(x: nat, mask: nat): nat {
    if BitAnd(x, mask) != 0 then AndNot(Add64(x, mask), mask) else x
  }

  function RoundedSize(size: nat): nat {
    RoundUpMask(size, BYTES_PER_LONG - 1)
  }

  /** Whole pages in a header, ten objects and their index entries: rounded down. */
  function PageNeed(objSize: nat): nat {
    (SIZEOF_SLAB + objSize * SLAB_DEFAULT_NUM + SIZEOF_BUFCTL * SLAB_DEFAULT_NUM) / PAGE_SIZE
  }

  function PageOrder(objSize: nat): nat {
    if PageNeed(objSize) == 0 then 1 else Fls64(PageNeed(objSize))
  }

  function SlabBytes(order: nat): nat {
    Pow2(order) * PAGE_SIZE
  }

  function GeometryOf(size: nat, align: nat): Geometry
    requires BYTES_PER_LONG <= size <= KMALLOC_MAX_SIZE
  {
    RoundedSizeRange(size);
    var objSize := RoundedSize(size);
    var mask := Dec64(RoundUpMask(align, BYTES_PER_LONG - 1));
    var order := PageOrder(objSize);
    var approx := Quot(SlabBytes(order) - SIZEOF_SLAB, objSize);
    var bufctlSize := approx * SIZEOF_BUFCTL;
    Geometry(objSize, order, approx - (Quot(bufctlSize, objSize) + 1), RoundUpMask(SIZEOF_SLAB + bufctlSize, mask))
  }

  // ---------------------------------------------------------------- rounding

  lemma RoundUpBounds(x: nat, k: nat)
    requires x + Pow2(k) <= WORD
    ensures var r := RoundUpMask(x, Pow2(k) - 1);
            x <= r < x + Pow2(k) && Rem(r, Pow2(k)) == 0
  {
    var d := Pow2(k);
    var y := x + d - 1;
    MaskIsRemainder(x, k);
    if BitAnd(x, d - 1) != 0 {
      MaskIsRemainder(y, k);
      RoundDownIsMultiple(y, d);
      assert RoundUpMask(x, d - 1) == y - Rem(y, d);
    }
  }

  /** For a power of two the mask expression is the least multiple not below x. */
  lemma RoundUpIsLeastMultiple(x: nat, k: nat)
    requires x + Pow2(k) <= WORD
    ensures var r, d := RoundUpMask(x, Pow2(k) - 1), Pow2(k);
            x <= r < x + d && Rem(r, d) == 0 && forall y: nat | y >= x && Rem(y, d) == 0 :: r <= y
  {
    RoundUpBounds(x, k);
    var r, d := RoundUpMask(x, Pow2(k) - 1), Pow2(k);
    forall y: nat | y >= x && Rem(y, d) == 0
      ensures r <= y
    {
      if y < r {
        MultiplesApart(y, r, d);
      }
    }
  }

  lemma RoundedSizeRange(size: nat)
    requires BYTES_PER_LONG <= size <= KMALLOC_MAX_SIZE
    ensures BYTES_PER_LONG <= size <= RoundedSize(size) <= KMALLOC_MAX_SIZE
    ensures Rem(RoundedSize(size), BYTES_PER_LONG) == 0
  {
    assert Pow2(3) == 8;
    RoundUpIsLeastMultiple(size, 3);
    QuotRemAreDivision(KMALLOC_MAX_SIZE, 8);
  }

  // ---------------------------------------------------------------- the layout fits

  lemma OrderCases(objSize: nat)
    requires BYTES_PER_LONG <= objSize <= KMALLOC_MAX_SIZE
    ensures 1 <= PageOrder(objSize) <= 3
    ensures SlabBytes(PageOrder(objSize)) <= 32768
    ensures SlabBytes(PageOrder(objSize)) >= 8192
    ensures SlabBytes(PageOrder(objSize)) > SIZEOF_SLAB + objSize * SLAB_DEFAULT_NUM + SIZEOF_BUFCTL * SLAB_DEFAULT_NUM
  {
    var need := PageNeed(objSize);
    assert need <= 5;
    assert Fls64(1) == 1 && Fls64(2) == 2 && Fls64(3) == 2 && Fls64(4) == 3 && Fls64(5) == 3;
    assert Pow2(1) == 2 && Pow2(2) == 4 && Pow2(3) == 8;
  }

  lemma FactorAtLeast(d: nat, k: nat, n: nat)
    requires d * k < n * d + d
    ensures k <= n
  {
    if k > n {
      MultipleAtLeast(d, n + 1, k);
    }
  }

  /** Counting with the quotients of kmem_cache_create as plain numbers: `approx` objects fit
      without the index array, and q + 1 of them make room for it. */
  lemma CountBounds(d: nat, bytes: nat, approx: nat, q: nat)
    requires BYTES_PER_LONG <= d <= KMALLOC_MAX_SIZE
    requires SIZEOF_SLAB + d * SLAB_DEFAULT_NUM <= bytes <= 32768 && 8192 <= bytes
    requires approx * d <= bytes - SIZEOF_SLAB < approx * d + d
    requires q * d <= 2 * approx < q * d + d
    ensures approx <= 4096 && SLAB_DEFAULT_NUM - 1 <= approx - q - 1
    ensures (approx - q - 1) * d + SIZEOF_SLAB + 2 * approx <= bytes
  {
    FactorAtLeast(d, SLAB_DEFAULT_NUM, approx);
    MultipleAtLeast(approx, 8, d);
    MultipleAtLeast(q, 8, d);
    assert (approx - q - 1) * d == approx * d - q * d - d;
    if d >= 416 {
      MultipleAtLeast(approx, 416, d);
      MultipleAtLeast(q, 416, d);
    } else {
      FactorAtLeast(d, 19, approx);
    }
  }

  /** Objects that would fit without the index array. */
  function Approx(objSize: nat): nat
    requires BYTES_PER_LONG <= objSize <= KMALLOC_MAX_SIZE
  {
    OrderCases(objSize);
    Quot(SlabBytes(PageOrder(objSize)) - SIZEOF_SLAB, objSize)
  }

  /** How many objects a slab gets. */
  lemma ObjectCount(size: nat, align: nat)
    requires BYTES_PER_LONG <= size <= KMALLOC_MAX_SIZE
    ensures RoundedSize(size) <= KMALLOC_MAX_SIZE && RoundedSize(size) >= BYTES_PER_LONG
    ensures var g := GeometryOf(size, align);
            && g.objSize == RoundedSize(size)
            && Approx(g.objSize) <= 4096
            && SLAB_DEFAULT_NUM - 1 <= g.num < Approx(g.objSize)
            && g.num * g.objSize + SIZEOF_SLAB + 2 * Approx(g.objSize) <= SlabBytes(g.gfpOrder)
            && g.colourOff == RoundUpMask(SIZEOF_SLAB + 2 * Approx(g.objSize), Dec64(RoundUpMask(align, BYTES_PER_LONG - 1)))
  {
    RoundedSizeRange(size);
    var d := RoundedSize(size);
    OrderCases(d);
    QuotRem(SlabBytes(PageOrder(d)) - SIZEOF_SLAB, d);
    QuotRem(2 * Approx(d), d);
    CountBounds(d, SlabBytes(PageOrder(d)), Approx(d), Quot(2 * Approx(d), d));
  }

  /** The order is the least from 1 on whose pages hold more than the header, ten objects and ten entries. */
  lemma OrderIsLeast(objSize: nat)
    requires 8 <= objSize <= 2048
    ensures var order := PageOrder(objSize);
            && order >= 1 && Pow2(order) * 4096 > 64 + 10 * objSize + 10 * 2
            && (order > 1 ==> Pow2(order - 1) * 4096 <= 64 + 10 * objSize + 10 * 2)
  {
    OrderCases(objSize);
    var need := PageNeed(objSize);
    assert Fls64(1) == 1 && Fls64(2) == 2 && Fls64(3) == 2 && Fls64(4) == 3 && Fls64(5) == 3;
    assert Pow2(1) == 2 && Pow2(2) == 4 && Pow2(3) == 8;
  }

  lemma NearlyMost(d: nat, room: nat, approx: nat, q: nat)
    requires room < approx * d + d && q * d <= 2 * approx
    requires approx >= q + 1
    ensures room < (approx - q - 1 + 2) * d + 2 * approx
  {
    assert (approx - q - 1 + 2) * d == approx * d - q * d + d;
  }

  /** With `most` objects that would fit without an index array, the slab gets as many as fit beside an
      array for all of those, or one less. */
  lemma CountIsNearlyMost(size: nat, align: nat, most: nat)
    requires BYTES_PER_LONG <= size <= KMALLOC_MAX_SIZE
    requires var g := GeometryOf(size, align);
             64 + most * g.objSize <= Pow2(g.gfpOrder) * 4096 < 64 + most * g.objSize + g.objSize
    ensures var g := GeometryOf(size, align);
            64 + 2 * most + g.num * g.objSize <= Pow2(g.gfpOrder) * 4096 < 64 + 2 * most + (g.num + 2) * g.objSize
  {
    RoundedSizeRange(size);
    var d := RoundedSize(size);
    OrderCases(d);
    ObjectCount(size, align);
    var bytes := SlabBytes(PageOrder(d));
    QuotRem(bytes - SIZEOF_SLAB, d);
    assert d * most == most * d && d * Approx(d) == Approx(d) * d;
    QuotientUnique(d, most, bytes - 64 - most * d, Approx(d), Rem(bytes - SIZEOF_SLAB, d));
    QuotRem(2 * most, d);
    NearlyMost(d, bytes - 64, most, Quot(2 * most, d));
  }

  /** What the slab needs of its layout: header and index array end before the first object, and the
      last object ends inside the slab's pages. */
  predicate LayoutFits(size: nat, align: nat)
    requires BYTES_PER_LONG <= size <= KMALLOC_MAX_SIZE
  {
    var g := GeometryOf(size, align);
    SIZEOF_SLAB + SIZEOF_BUFCTL * g.num <= g.colourOff && g.colourOff + g.num * g.objSize <= SlabBytes(g.gfpOrder)
  }

  /** Header and the index array's full space, which the first object's offset is rounded up from. */
  function IndexEnd(size: nat): nat
    requires BYTES_PER_LONG <= size <= KMALLOC_MAX_SIZE
  {
    RoundedSizeRange(size);
    SIZEOF_SLAB + SIZEOF_BUFCTL * Approx(RoundedSize(size))
  }

  /** Header and index array never leave the first page. */
  lemma IndexInFirstPage(size: nat)
    requires BYTES_PER_LONG <= size <= KMALLOC_MAX_SIZE
    ensures IndexEnd(size) <= PAGE_SIZE
  {
    RoundedSizeRange(size);
    var d := RoundedSize(size);
    var n := Approx(d);
    OrderCases(d);
    QuotRem(SlabBytes(PageOrder(d)) - SIZEOF_SLAB, d);
    assert Pow2(1) == 2;
    if d >= 400 {
      MultipleAtLeast(n, 400, d);
    } else {
      assert PageNeed(d) <= 1 && Fls64(1) == 1;
      MultipleAtLeast(n, 8, d);
    }
  }

  /** Bytes of a slab that its objects leave over; the alignment has no part in it. */
  function Room(size: nat): nat
    requires BYTES_PER_LONG <= size <= KMALLOC_MAX_SIZE
  {
    var g := GeometryOf(size, BYTES_PER_LONG);
    ObjectCount(size, BYTES_PER_LONG);
    SlabBytes(g.gfpOrder) - g.num * g.objSize
  }

  lemma RoomOf(size: nat, align: nat)
    requires BYTES_PER_LONG <= size <= KMALLOC_MAX_SIZE
    ensures var g := GeometryOf(size, align); g.num * g.objSize + Room(size) == SlabBytes(g.gfpOrder)
  {
  }

  /** The last multiple of the alignment in the room left over lies behind header and index array. */
  predicate AlignFits(size: nat, align: nat)
    requires BYTES_PER_LONG <= size <= KMALLOC_MAX_SIZE && align >= 1
  {
    IndexEnd(size) + Rem(Room(size), align) <= Room(size)
  }

  lemma LeastMultipleFits(x: nat, room: nat, k: nat)
    requires x + Pow2(k) <= WORD
    ensures RoundUpMask(x, Pow2(k) - 1) <= room <==> x + Rem(room, Pow2(k)) <= room
  {
    var r, d := RoundUpMask(x, Pow2(k) - 1), Pow2(k);
    RoundUpIsLeastMultiple(x, k);
    RoundDownIsMultiple(room, d);
    if room - Rem(room, d) < r <= room {
      MultiplesApart(room - Rem(room, d), r, d);
      assert false;
    }
  }

  lemma RoomForRounding(size: nat, k: nat)
    requires BYTES_PER_LONG <= size <= KMALLOC_MAX_SIZE && k < 64
    ensures IndexEnd(size) + Pow2(k) <= WORD
  {
    IndexInFirstPage(size);
    Pow2OfWord();
    Pow2Monotone(k, 63);
    assert Pow2(64) == 2 * Pow2(63);
  }

  /** Where the first object lies. */
  lemma FirstObject(size: nat, k: nat)
    requires BYTES_PER_LONG <= size <= KMALLOC_MAX_SIZE && 3 <= k < 64
    ensures var off := GeometryOf(size, Pow2(k)).colourOff;
            IndexEnd(size) <= off && Rem(off, Pow2(k)) == 0 && (off <= Room(size) <==> AlignFits(size, Pow2(k)))
  {
    ObjectCount(size, Pow2(k));
    AlignUnchanged(k);
    RoomForRounding(size, k);
    RoundUpIsLeastMultiple(IndexEnd(size), k);
    LeastMultipleFits(IndexEnd(size), Room(size), k);
  }

  /** For every size and every power of two from 8 on: header and index array end before the first
      object, which is aligned; every index fits the 16-bit array without meeting its end mark; and the
      objects end inside the slab's pages exactly when the alignment leaves them the room. */
  lemma GeometryFits(size: nat, k: nat)
    requires BYTES_PER_LONG <= size <= KMALLOC_MAX_SIZE && 3 <= k < 64
    ensures var g := GeometryOf(size, Pow2(k));
            && size <= g.objSize <= KMALLOC_MAX_SIZE
            && SLAB_DEFAULT_NUM - 1 <= g.num < BUFCTL_END
            && 1 <= g.gfpOrder <= 3
            && SIZEOF_SLAB + SIZEOF_BUFCTL * g.num <= g.colourOff
            && Rem(g.colourOff, Pow2(k)) == 0
            && (g.colourOff + g.num * g.objSize <= SlabBytes(g.gfpOrder) <==> AlignFits(size, Pow2(k)))
    ensures LayoutFits(size, Pow2(k)) <==> AlignFits(size, Pow2(k))
  {
    RoundedSizeRange(size);
    OrderCases(RoundedSize(size));
    ObjectCount(size, Pow2(k));
    RoomOf(size, Pow2(k));
    FirstObject(size, k);
  }

  /** An alignment that divides the rounded size always leaves the room. */
  lemma DivisorFits(size: nat, k: nat)
    requires BYTES_PER_LONG <= size <= KMALLOC_MAX_SIZE && Rem(RoundedSize(size), Pow2(k)) == 0
    ensures AlignFits(size, Pow2(k))
  {
    RoundedSizeRange(size);
    ObjectCount(size, BYTES_PER_LONG);
    var g := GeometryOf(size, BYTES_PER_LONG);
    FreeSpaceIsMultiple(k, g.objSize, g.num, g.gfpOrder);
  }

  /** Alignments from 1 to 8 all mean 8. */
  lemma SmallAlignIsEight(size: nat, align: nat)
    requires BYTES_PER_LONG <= size <= KMALLOC_MAX_SIZE && 1 <= align <= BYTES_PER_LONG
    ensures GeometryOf(size, align) == GeometryOf(size, BYTES_PER_LONG)
  {
    assert Pow2(3) == 8;
    RoundUpIsLeastMultiple(align, 3);
    RoundUpIsLeastMultiple(8, 3);
    assert RoundUpMask(align, 7) <= 8 && RoundUpMask(8, 7) == 8;
    if RoundUpMask(align, 7) < 8 {
      MultiplesApart(RoundUpMask(align, 7), 8, 8);
    }
  }

  /** For any mask, rounding up does not go below its argument exactly when no bit is masked or the sum
      does not wrap. */
  lemma RoundUpStaysAbove(x: nat, mask: nat)
    requires x < WORD && mask < WORD
    ensures x <= RoundUpMask(x, mask) <==> BitAnd(x, mask) == 0 || x + mask < WORD
  {
    BitAndAtMostMask(Add64(x, mask), mask);
  }

  lemma {:induction false} BitAndAtMostMask(x: nat, y: nat)
    ensures BitAnd(x, y) <= y
  {
    if x > 0 && y > 0 {
      BitAndAtMostMask(x / 2, y / 2);
    }
  }

  /** Whatever the alignment, short of word wrap: the first object lies behind header and index array
      unless the alignment is 0. */
  lemma OnlyZeroHitsHeader(size: nat, align: nat)
    requires BYTES_PER_LONG <= size <= KMALLOC_MAX_SIZE && align <= WORD - 0x4000
    ensures var g := GeometryOf(size, align);
            SIZEOF_SLAB + SIZEOF_BUFCTL * g.num <= g.colourOff <==> align != 0
  {
    ObjectCount(size, align);
    if align == 0 {
      AlignZeroHitsHeader(size);
    } else {
      assert Pow2(3) == 8;
      RoundUpBounds(align, 3);
      RoundUpStaysAbove(IndexEnd(size), Dec64(RoundUpMask(align, BYTES_PER_LONG - 1)));
    }
  }

  lemma AlignUnchanged(k: nat)
    requires 3 <= k
    ensures RoundUpMask(Pow2(k), BYTES_PER_LONG - 1) == Pow2(k)
  {
    assert Pow2(3) == 8;
    Pow2Add(k - 3, 3);
    ProductIsMultiple(Pow2(k - 3), 8, 8);
    MaskIsRemainder(Pow2(k), 3);
  }

  /** What objects leave free is a multiple of the alignment, as both the pages and an object are. */
  lemma FreeSpaceIsMultiple(k: nat, d: nat, num: nat, order: nat)
    requires Pow2(k) <= KMALLOC_MAX_SIZE && Rem(d, Pow2(k)) == 0
    requires num * d <= SlabBytes(order)
    ensures Rem(SlabBytes(order) - num * d, Pow2(k)) == 0
  {
    assert Pow2(12) == PAGE_SIZE;
    if k > 11 {
      Pow2Monotone(12, k);
    }
    Pow2Add(12 - k, k);
    ProductIsMultiple(Pow2(12 - k), Pow2(k), Pow2(k));
    ProductIsMultiple(Pow2(order), PAGE_SIZE, Pow2(k));
    ProductIsMultiple(num, d, Pow2(k));
    if num * d < SlabBytes(order) {
      MultiplesApart(num * d, SlabBytes(order), Pow2(k));
    }
  }

  /** An alignment that need not divide the size: 24-byte objects on 16-byte boundaries fit. */
  lemma NonDivisorFits()
    ensures Rem(RoundedSize(24), 16) != 0 && LayoutFits(24, 16)
  {
    assert Pow2(3) == 8 && Pow2(4) == 16 && Pow2(1) == 2;
    MaskIsRemainder(24, 3);
    assert RoundedSize(24) == 24;
    QuotRemAreDivision(8128, 24);
    QuotRemAreDivision(676, 24);
    QuotRemAreDivision(776, 16);
    assert IndexEnd(24) == 740 && Room(24) == 776;
    GeometryFits(24, 4);
  }

  /** One that does not fit: eight-byte objects on 512-byte boundaries end behind the slab's pages. */
  lemma MisfitExample()
    ensures var g := GeometryOf(8, 512);
            Rem(RoundedSize(8), 512) != 0 && g.colourOff + g.num * g.objSize > SlabBytes(g.gfpOrder)
  {
    assert Pow2(3) == 8 && Pow2(9) == 512 && Pow2(1) == 2;
    MaskIsRemainder(8, 3);
    assert RoundedSize(8) == 8;
    QuotRemAreDivision(8128, 8);
    QuotRemAreDivision(2032, 8);
    AlignUnchanged(9);
    MaskIsRemainder(2096, 9);
    MaskIsRemainder(2607, 9);
    QuotRemAreDivision(2096, 512);
    QuotRemAreDivision(2607, 512);
  }

  /** Alignment 0 is accepted, and then the first object lies on the slab's header, for every size. */
  lemma AlignZeroHitsHeader(size: nat)
    requires BYTES_PER_LONG <= size <= KMALLOC_MAX_SIZE
    ensures GeometryOf(size, 0).colourOff == 0
  {
    ObjectCount(size, 0);
    assert RoundUpMask(0, BYTES_PER_LONG - 1) == 0;
    var x := SIZEOF_SLAB + 2 * Approx(RoundedSize(size));
    AllOnes(x);
    AllOnes(x - 1);
  }

  lemma Pow2OfWord()
    ensures Pow2(64) == WORD
  {
    assert Pow2(8) == 0x100;
    Pow2Add(8, 8);
    Pow2Add(16, 16);
    Pow2Add(32, 32);
  }

  lemma AllOnes(x: nat)
    requires x < WORD
    ensures BitAnd(x, WORD - 1) == x
  {
    Pow2OfWord();
    MaskIsRemainder(x, 64);
  }
}
