/** paging_init of src/page.c: the boot allocator and the four levels of page tables, checked against
    the address translation of the processor (Intel SDM volume 3A, section 4.5). */
module Paging {
  import opened Bits

  const PAGE_SIZE: nat := 0x1000
  const ENTRIES: nat := 512
  const PAGE_OFFSET: nat := 0xFFFF_8000_0000_0000

  /** _PAGE_RW + _PAGE_PRESENT, and _PAGE_PRESENT + _PAGE_PCD. */
  const ATTR_NORMAL: nat := 0x003
  const ATTR_DEVICE: nat := 0x011

  const MB: nat := 0x10_0000
  const DEVICE_BASE: nat := 0xFEC0_0000

  // ---------------------------------------------------------------- the processor's walk

  /** Entry i of the table in page frame `frame`; memory is counted in 64-bit words. */
  function Entry(m: seq<nat>, frame: nat, i: nat): nat {
    if frame * ENTRIES + i < |m| then m[frame * ENTRIES + i] else 0
  }

  predicate Present(e: nat) {
    e % 2 == 1
  }

  /** Bit 7 of a level 3 or level 2 entry: the entry maps a large page itself. */
  predicate Large(e: nat) {
    e / 128 % 2 == 1
  }

  /** Bits 51..12 of an entry. */
  function FrameOf(e: nat): nat {
    e / PAGE_SIZE % 0x100_0000_0000
  }

  predicate Canonical(va: nat) {
    va < 0x8000_0000_0000 || PAGE_OFFSET <= va < WORD
  }

  /** pgd_index, pud_index, pmd_index and pte_index of pgtable.h. */
  function PgdIndex(va: nat): (i: nat) ensures i < ENTRIES { va / 0x80_0000_0000 % ENTRIES }
  function PudIndex(va: nat): (i: nat) ensures i < ENTRIES { va / 0x4000_0000 % ENTRIES }
  function PmdIndex(va: nat): (i: nat) ensures i < ENTRIES { va / 0x20_0000 % ENTRIES }
  function PteIndex(va: nat): (i: nat) ensures i < ENTRIES { va / PAGE_SIZE % ENTRIES }

  /** The last step: the table with one entry per page. */
  function WalkPte(m: seq<nat>, frame: nat, i1: nat, off: nat): Option<nat> {
    var e := Entry(m, frame, i1);
    if !Present(e) then None else Some(FrameOf(e) * PAGE_SIZE + off)
  }

  function WalkPmd(m: seq<nat>, frame: nat, i2: nat, i1: nat, off: nat): Option<nat> {
    var e := Entry(m, frame, i2);
    if !Present(e) then None
    else if Large(e) then Some(FrameOf(e) / 0x200 * 0x20_0000 + i1 * PAGE_SIZE + off)
    else WalkPte(m, FrameOf(e), i1, off)
  }

  function WalkPud(m: seq<nat>, frame: nat, i3: nat, i2: nat, i1: nat, off: nat): Option<nat> {
    var e := Entry(m, frame, i3);
    if !Present(e) then None
    else if Large(e) then Some(FrameOf(e) / 0x4_0000 * 0x4000_0000 + (i2 * ENTRIES + i1) * PAGE_SIZE + off)
    else WalkPmd(m, FrameOf(e), i2, i1, off)
  }

  /** The walk on the four table indices and the offset in the page: the physical address, or None for
      a page fault. */
  function Walk(m: seq<nat>, pgd: nat, i4: nat, i3: nat, i2: nat, i1: nat, off: nat): Option<nat> {
    var e := Entry(m, pgd, i4);
    if !Present(e) then None else WalkPud(m, FrameOf(e), i3, i2, i1, off)
  }

  /** What a linear address translates to; a non-canonical one faults. */
  function Translate(m: seq<nat>, pgd: nat, va: nat): Option<nat> {
    if !Canonical(va) then None
    else Walk(m, pgd, PgdIndex(va), PudIndex(va), PmdIndex(va), PteIndex(va), va % PAGE_SIZE)
  }

  // ---------------------------------------------------------------- what paging_init writes

  /** n consecutive words from `at`: base, base + step, base + 2 * step, ... */
  function Ramp(m: seq<nat>, at: nat, n: nat, base: nat, step: nat): (r: seq<nat>)
    ensures |r| == |m|
  {
    seq(|m|, j requires 0 <= j < |m| => if at <= j < at + n then base + (j - at) * step else m[j])
  }

  function PmdCount(mb: nat): nat {
    if mb / 1024 == 0 then 1 else mb / 1024
  }

  function PteCount(mb: nat): nat {
    mb / 2
  }

  /** The table frames, in the order the boot allocator hands them out from frame b on. */
  function PmdFrame(b: nat): nat { b + 2 }
  function PteFrame(b: nat, mb: nat): nat { b + 2 + PmdCount(mb) }
  function PmdReserv(b: nat, mb: nat): nat { PteFrame(b, mb) + PteCount(mb) }
  function PteReserv(b: nat, mb: nat): nat { PmdReserv(b, mb) + 1 }

  /** The tables for physical memory. */
  function NormalTables(m: seq<nat>, b: nat, mb: nat): seq<nat> {
    var m0 := Ramp(m, b * ENTRIES, 0x100, 0, 0);
    var m1 := Ramp(m0, b * ENTRIES + 0x100, 1, (b + 1) * PAGE_SIZE + ATTR_NORMAL, 0);
    var m2 := Ramp(m1, b * ENTRIES + 0x101, 0xFF, 0, 0);
    var m3 := Ramp(m2, (b + 1) * ENTRIES, PmdCount(mb), PmdFrame(b) * PAGE_SIZE + ATTR_NORMAL, 8 * PAGE_SIZE);
    var m4 := Ramp(m3, PmdFrame(b) * ENTRIES, PteCount(mb), PteFrame(b, mb) * PAGE_SIZE + ATTR_NORMAL, PAGE_SIZE);
    Ramp(m4, PteFrame(b, mb) * ENTRIES, mb * 256, ATTR_NORMAL, PAGE_SIZE)
  }

  /** The tables for the device window. */
  function DeviceTables(m: seq<nat>, b: nat, mb: nat): seq<nat> {
    var m1 := Ramp(m, (b + 1) * ENTRIES + 3, 1, PmdReserv(b, mb) * PAGE_SIZE + ATTR_DEVICE, 0);
    var m2 := Ramp(m1, PmdReserv(b, mb) * ENTRIES, 10, PteReserv(b, mb) * PAGE_SIZE + ATTR_DEVICE, PAGE_SIZE);
    Ramp(m2, PteReserv(b, mb) * ENTRIES, ENTRIES * 10, DEVICE_BASE + ATTR_DEVICE, PAGE_SIZE)
  }

  function BuiltTables(m: seq<nat>, b: nat, mb: nat): seq<nat> {
    DeviceTables(NormalTables(m, b, mb), b, mb)
  }

  // ---------------------------------------------------------------- the code

  /** Boot-time bump allocator over page frames. */
  class BootMemory {
    var pageIndex: nat
    const pageMax: nat

    constructor (start: nat, max: nat)
      ensures pageIndex == start && pageMax == max
    {
      pageIndex, pageMax := start, max;
    }

    /** alloc_bootmem: the first of `count` fresh frames, or None where the source halts. */
    method Alloc(count: nat) returns (frame: Option<nat>)
      modifies this
      ensures old(pageIndex) + count < pageMax ==> frame == Some(old(pageIndex)) && pageIndex == old(pageIndex) + count
      ensures old(pageIndex) + count >= pageMax ==> frame == None && pageIndex == old(pageIndex)
    {
      if pageIndex + count >= pageMax {
        return None;
      }
      pageIndex := pageIndex + count;
      frame := Some(pageIndex - count);
    }
  }

  /** A loop of set_pgd, set_pud, set_pmd or set_pte over consecutive entries. */
  method SetEntries(mem: array<nat>, at: nat, n: nat, base: nat, step: nat)
    requires at + n <= mem.Length
    modifies mem
    ensures mem[..] == Ramp(old(mem[..]), at, n, base, step)
  {
    var l := 0;
    while l < n
      invariant l <= n
      invariant forall j | 0 <= j < mem.Length ::
                  mem[j] == if at <= j < at + l then base + (j - at) * step else old(mem[j])
    {
      mem[at + l] := base + l * step;
      l := l + 1;
    }
  }

  /** The entries for physical memory, once their frames are allocated. */
  method SetNormalTables(mem: array<nat>, b: nat, mb: nat)
    requires PmdReserv(b, mb) * ENTRIES + 256 <= mem.Length && 2 <= mb
    modifies mem
    ensures mem[..] == NormalTables(old(mem[..]), b, mb)
  {
    var pgd, pud, pmd, pte := b, b + 1, PmdFrame(b), PteFrame(b, mb);
    SetEntries(mem, pgd * ENTRIES, 0x100, 0, 0);
    SetEntries(mem, pgd * ENTRIES + 0x100, 1, pud * PAGE_SIZE + ATTR_NORMAL, 0);
    SetEntries(mem, pgd * ENTRIES + 0x101, 0xFF, 0, 0);
    SetEntries(mem, pud * ENTRIES, PmdCount(mb), pmd * PAGE_SIZE + ATTR_NORMAL, 8 * PAGE_SIZE);
    SetEntries(mem, pmd * ENTRIES, PteCount(mb), pte * PAGE_SIZE + ATTR_NORMAL, PAGE_SIZE);
    SetEntries(mem, pte * ENTRIES, mb * 256, ATTR_NORMAL, PAGE_SIZE);
  }

  /** The entries for the device window. */
  method SetDeviceTables(mem: array<nat>, b: nat, mb: nat)
    requires (PteReserv(b, mb) + 10) * ENTRIES <= mem.Length
    modifies mem
    ensures mem[..] == DeviceTables(old(mem[..]), b, mb)
  {
    var pud, pmd, pte := b + 1, PmdReserv(b, mb), PteReserv(b, mb);
    SetEntries(mem, pud * ENTRIES + 3, 1, pmd * PAGE_SIZE + ATTR_DEVICE, 0);
    SetEntries(mem, pmd * ENTRIES, 10, pte * PAGE_SIZE + ATTR_DEVICE, PAGE_SIZE);
    SetEntries(mem, pte * ENTRIES, ENTRIES * 10, DEVICE_BASE + ATTR_DEVICE, PAGE_SIZE);
  }

  /** paging_init up to the load of CR3. `ok` is false where the source halts: no memory to map, or
      the boot heap is too small. */
  method PagingInit(mem: array<nat>, boot: BootMemory, mb: nat) returns (ok: bool)
    requires boot.pageMax * ENTRIES <= mem.Length
    modifies mem, boot
    ensures ok <==> mb >= 2 && PteReserv(old(boot.pageIndex), mb) + 10 < boot.pageMax
    ensures ok ==> mem[..] == BuiltTables(old(mem[..]), old(boot.pageIndex), mb) && boot.pageIndex == PteReserv(old(boot.pageIndex), mb) + 10
  {
    var pmdCount := PmdCount(mb);
    var pteCount := PteCount(mb);
    if pteCount == 0 {
      return false;
    }
    var b := boot.pageIndex;
    var pgd := boot.Alloc(1);
    if pgd.None? { return false; }
    var pud := boot.Alloc(1);
    if pud.None? { return false; }
    var pmd := boot.Alloc(pmdCount);
    if pmd.None? { return false; }
    var pte := boot.Alloc(pteCount);
    if pte.None? { return false; }
    SetNormalTables(mem, b, mb);
    var pmdReserv := boot.Alloc(1);
    if pmdReserv.None? { return false; }
    var pteReserv := boot.Alloc(10);
    if pteReserv.None? { return false; }
    SetDeviceTables(mem, b, mb);
    ok := true;
  }

  // ---------------------------------------------------------------- the tables in memory

  /** Entry i of the table in frame f, as a position in memory. */
  function At(f: nat, i: nat): nat {
    f * ENTRIES + i
  }

  ghost predicate Zeroed(m: seq<nat>, b: nat, mb: nat) {
    |m| >= (PteReserv(b, mb) + 10) * ENTRIES && forall j | b * ENTRIES <= j < (PteReserv(b, mb) + 10) * ENTRIES :: m[j] == 0
  }

  /** Level 4 and level 3 after paging_init, for memory below 2 GB. */
  lemma UpperTables(m: seq<nat>, b: nat, mb: nat, i: nat)
    requires Zeroed(m, b, mb) && 2 <= mb < 2048 && i < ENTRIES
    ensures var r := BuiltTables(m, b, mb);
            && Entry(r, b, i) == (if i == 0x100 then (b + 1) * PAGE_SIZE + 0x003 else 0)
            && Entry(r, b + 1, i) == (if i == 0 then PmdFrame(b) * PAGE_SIZE + 0x003
                                      else if i == 3 then PmdReserv(b, mb) * PAGE_SIZE + 0x011 else 0)
  {
  }

  /** Level 2 and level 1 of physical memory, for even sizes up to 1 GB. */
  lemma NormalLowerTables(m: seq<nat>, b: nat, mb: nat, i: nat, j: nat)
    requires Zeroed(m, b, mb) && 2 <= mb <= 1024 && mb % 2 == 0 && i < ENTRIES && j < ENTRIES
    ensures var r := BuiltTables(m, b, mb);
            && Entry(r, PmdFrame(b), i) == (if i < mb / 2 then (PteFrame(b, mb) + i) * PAGE_SIZE + 0x003 else 0)
            && (i < mb / 2 ==> Entry(r, PteFrame(b, mb) + i, j) == (i * ENTRIES + j) * PAGE_SIZE + 0x003)
  {
  }

  /** Level 2 and level 1 of the device window. */
  lemma DeviceLowerTables(m: seq<nat>, b: nat, mb: nat, i: nat, j: nat)
    requires Zeroed(m, b, mb) && 2 <= mb <= 1024 && mb % 2 == 0 && i < ENTRIES && j < ENTRIES
    ensures var r := BuiltTables(m, b, mb);
            && Entry(r, PmdReserv(b, mb), i) == (if i < 10 then (PteReserv(b, mb) + i) * PAGE_SIZE + 0x011 else 0)
            && (i < 10 ==> Entry(r, PteReserv(b, mb) + i, j) == DEVICE_BASE + (i * ENTRIES + j) * PAGE_SIZE + 0x011)
  {
  }

  /** With an odd number of megabytes the last one has no level 2 entry. */
  lemma OddTable(m: seq<nat>, b: nat, mb: nat)
    requires Zeroed(m, b, mb) && 2 <= mb <= 1024 && mb % 2 == 1
    ensures Entry(BuiltTables(m, b, mb), PmdFrame(b), mb / 2) == 0
  {
  }

  /** And the surplus 256 level 1 entries fall into the frame that becomes the window's level 2 table, of
      which only the first ten entries are written again. */
  lemma SurplusEntries(m: seq<nat>, b: nat, mb: nat, i: nat)
    requires Zeroed(m, b, mb) && 2 <= mb <= 1024 && mb % 2 == 1 && 10 <= i < 256
    ensures Entry(BuiltTables(m, b, mb), PmdReserv(b, mb), i) == ((mb - 1) * 256 + i) * PAGE_SIZE + 0x003
  {
    assert (PmdReserv(b, mb) - PteFrame(b, mb)) * ENTRIES + i == (mb - 1) * 256 + i;
  }

  // ---------------------------------------------------------------- translation

  /** Where paging_init is meant to map each address. */
  function Intended(mb: nat, va: nat): Option<nat> {
    if 0xFFFF_8000_0000_0000 <= va < 0xFFFF_8000_0000_0000 + mb * 0x10_0000 then Some(va - 0xFFFF_8000_0000_0000)
    else if 0xFFFF_8000_C000_0000 <= va < 0xFFFF_8000_C140_0000 then Some(0xFEC0_0000 + (va - 0xFFFF_8000_C000_0000))
    else None
  }

  /** An entry built from a frame number and an attribute of the two kinds. */
  lemma EntryFields(frame: nat, attr: nat)
    requires frame < 0x100_0000_0000 && (attr == ATTR_NORMAL || attr == ATTR_DEVICE)
    ensures var e := frame * PAGE_SIZE + attr; Present(e) && !Large(e) && FrameOf(e) == frame
  {
    var e := frame * PAGE_SIZE + attr;
    assert e / 128 == 32 * frame;
  }

  /** Entry i of the table in frame f points to frame g. */
  predicate PointsTo(m: seq<nat>, f: nat, i: nat, g: nat) {
    var e := Entry(m, f, i);
    Present(e) && !Large(e) && FrameOf(e) == g
  }

  predicate Absent(m: seq<nat>, f: nat, i: nat) {
    !Present(Entry(m, f, i))
  }

  /** Level 4 and 3 at the given indices: frame b leads through frame b + 1 to the two level 2 tables. */
  predicate UpperReady(r: seq<nat>, b: nat, mb: nat, i4: nat, i3: nat) {
    && (if i4 == 0x100 then PointsTo(r, b, i4, b + 1) else Absent(r, b, i4))
    && (if i3 == 0 then PointsTo(r, b + 1, i3, PmdFrame(b))
        else if i3 == 3 then PointsTo(r, b + 1, i3, PmdReserv(b, mb))
        else Absent(r, b + 1, i3))
  }

  /** Level 2 and 1 at the given indices: the first n entries of frame f lead to the level 1 tables from
      frame g on, which map consecutive pages from page number `first`. */
  predicate LowerReady(r: seq<nat>, f: nat, n: nat, g: nat, first: nat, i2: nat, i1: nat) {
    if i2 < n then PointsTo(r, f, i2, g + i2) && PointsTo(r, g + i2, i1, first + i2 * ENTRIES + i1)
    else Absent(r, f, i2)
  }

  lemma BuiltUpper(m: seq<nat>, b: nat, mb: nat, i4: nat, i3: nat)
    requires Zeroed(m, b, mb) && 2 <= mb < 2048 && b < 0x1_0000_0000 && i4 < ENTRIES && i3 < ENTRIES
    ensures UpperReady(BuiltTables(m, b, mb), b, mb, i4, i3)
  {
    UpperFields(b, mb);
    UpperTables(m, b, mb, i4);
    UpperTables(m, b, mb, i3);
  }

  lemma UpperFields(b: nat, mb: nat)
    requires 2 <= mb < 2048 && b < 0x1_0000_0000
    ensures var e := (b + 1) * PAGE_SIZE + ATTR_NORMAL; Present(e) && !Large(e) && FrameOf(e) == b + 1
    ensures var e := PmdFrame(b) * PAGE_SIZE + ATTR_NORMAL; Present(e) && !Large(e) && FrameOf(e) == PmdFrame(b)
    ensures var e := PmdReserv(b, mb) * PAGE_SIZE + ATTR_DEVICE; Present(e) && !Large(e) && FrameOf(e) == PmdReserv(b, mb)
  {
    EntryFields(b + 1, ATTR_NORMAL);
    EntryFields(PmdFrame(b), ATTR_NORMAL);
    EntryFields(PmdReserv(b, mb), ATTR_DEVICE);
  }

  lemma BuiltLower(m: seq<nat>, b: nat, mb: nat, i: nat, j: nat)
    requires Zeroed(m, b, mb) && 2 <= mb <= 1024 && mb % 2 == 0 && b < 0x1_0000_0000 && i < ENTRIES && j < ENTRIES
    ensures LowerReady(BuiltTables(m, b, mb), PmdFrame(b), mb / 2, PteFrame(b, mb), 0, i, j)
    ensures LowerReady(BuiltTables(m, b, mb), PmdReserv(b, mb), 10, PteReserv(b, mb), 0xFEC00, i, j)
  {
    BuiltNormal(m, b, mb, i, j);
    BuiltDevice(m, b, mb, i, j);
  }

  lemma BuiltNormal(m: seq<nat>, b: nat, mb: nat, i: nat, j: nat)
    requires Zeroed(m, b, mb) && 2 <= mb <= 1024 && mb % 2 == 0 && b < 0x1_0000_0000 && i < ENTRIES && j < ENTRIES
    ensures LowerReady(BuiltTables(m, b, mb), PmdFrame(b), mb / 2, PteFrame(b, mb), 0, i, j)
  {
    LowerFields(b, mb, i, j);
    NormalLowerTables(m, b, mb, i, j);
  }

  lemma BuiltDevice(m: seq<nat>, b: nat, mb: nat, i: nat, j: nat)
    requires Zeroed(m, b, mb) && 2 <= mb <= 1024 && mb % 2 == 0 && b < 0x1_0000_0000 && i < ENTRIES && j < ENTRIES
    ensures LowerReady(BuiltTables(m, b, mb), PmdReserv(b, mb), 10, PteReserv(b, mb), 0xFEC00, i, j)
  {
    LowerFields(b, mb, i, j);
    DeviceLowerTables(m, b, mb, i, j);
  }

  lemma LowerFields(b: nat, mb: nat, i: nat, j: nat)
    requires 2 <= mb <= 1024 && b < 0x1_0000_0000 && i < ENTRIES && j < ENTRIES
    ensures var e := (PteFrame(b, mb) + i) * PAGE_SIZE + ATTR_NORMAL; Present(e) && !Large(e) && FrameOf(e) == PteFrame(b, mb) + i
    ensures var e := (i * ENTRIES + j) * PAGE_SIZE + ATTR_NORMAL; Present(e) && !Large(e) && FrameOf(e) == i * ENTRIES + j
    ensures var e := (PteReserv(b, mb) + i) * PAGE_SIZE + ATTR_DEVICE; Present(e) && !Large(e) && FrameOf(e) == PteReserv(b, mb) + i
    ensures var e := DEVICE_BASE + (i * ENTRIES + j) * PAGE_SIZE + ATTR_DEVICE; Present(e) && !Large(e) && FrameOf(e) == 0xFEC00 + i * ENTRIES + j
  {
    EntryFields(PteFrame(b, mb) + i, ATTR_NORMAL);
    EntryFields(i * ENTRIES + j, ATTR_NORMAL);
    EntryFields(PteReserv(b, mb) + i, ATTR_DEVICE);
    EntryFields(0xFEC00 + i * ENTRIES + j, ATTR_DEVICE);
  }

  lemma WalkLower(r: seq<nat>, f: nat, n: nat, g: nat, first: nat, i2: nat, i1: nat, off: nat)
    requires LowerReady(r, f, n, g, first, i2, i1)
    ensures WalkPmd(r, f, i2, i1, off) == if i2 < n then Some((first + i2 * ENTRIES + i1) * PAGE_SIZE + off) else None
  {
  }

  lemma WalkUpper(r: seq<nat>, b: nat, mb: nat, i4: nat, i3: nat, i2: nat, i1: nat, off: nat)
    requires UpperReady(r, b, mb, i4, i3)
    ensures Walk(r, b, i4, i3, i2, i1, off) ==
            if i4 == 0x100 && i3 == 0 then WalkPmd(r, PmdFrame(b), i2, i1, off)
            else if i4 == 0x100 && i3 == 3 then WalkPmd(r, PmdReserv(b, mb), i2, i1, off)
            else None
  {
  }

  /** What the walk finds, in digits. */
  function WalkResult(mb: nat, i4: nat, i3: nat, i2: nat, i1: nat, off: nat): Option<nat> {
    if i4 == 0x100 && i3 == 0 && i2 < mb / 2 then Some((i2 * ENTRIES + i1) * PAGE_SIZE + off)
    else if i4 == 0x100 && i3 == 3 && i2 < 10 then Some(DEVICE_BASE + (i2 * ENTRIES + i1) * PAGE_SIZE + off)
    else None
  }

  lemma WalkReady(r: seq<nat>, b: nat, mb: nat, i4: nat, i3: nat, i2: nat, i1: nat, off: nat)
    requires UpperReady(r, b, mb, i4, i3)
    requires LowerReady(r, PmdFrame(b), mb / 2, PteFrame(b, mb), 0, i2, i1)
    requires LowerReady(r, PmdReserv(b, mb), 10, PteReserv(b, mb), 0xFEC00, i2, i1)
    ensures Walk(r, b, i4, i3, i2, i1, off) == WalkResult(mb, i4, i3, i2, i1, off)
  {
    WalkUpper(r, b, mb, i4, i3, i2, i1, off);
    WalkLower(r, PmdFrame(b), mb / 2, PteFrame(b, mb), 0, i2, i1, off);
    WalkLower(r, PmdReserv(b, mb), 10, PteReserv(b, mb), 0xFEC00, i2, i1, off);
  }

  lemma WalkBuilt(m: seq<nat>, b: nat, mb: nat, i4: nat, i3: nat, i2: nat, i1: nat, off: nat)
    requires Zeroed(m, b, mb) && 2 <= mb <= 1024 && mb % 2 == 0 && b < 0x1_0000_0000
    requires i4 < ENTRIES && i3 < ENTRIES && i2 < ENTRIES && i1 < ENTRIES
    ensures Walk(BuiltTables(m, b, mb), b, i4, i3, i2, i1, off) == WalkResult(mb, i4, i3, i2, i1, off)
  {
    BuiltUpper(m, b, mb, i4, i3);
    BuiltLower(m, b, mb, i2, i1);
    WalkReady(BuiltTables(m, b, mb), b, mb, i4, i3, i2, i1, off);
  }

  /** Position of an address in a hierarchy of 512-entry tables, digit by digit. */
  lemma Digits(x: nat)
    ensures x / 0x20_0000 == x / PAGE_SIZE / ENTRIES
    ensures x / 0x4000_0000 == x / 0x20_0000 / ENTRIES
    ensures x / 0x80_0000_0000 == x / 0x4000_0000 / ENTRIES
  {
  }

  /** PAGE_OFFSET is a multiple of every table's span, so only the top index sees it. */
  lemma DigitsOfOffset(off: nat)
    ensures var va := PAGE_OFFSET + off;
            && PteIndex(va) == off / PAGE_SIZE % ENTRIES
            && PmdIndex(va) == off / 0x20_0000 % ENTRIES
            && PudIndex(va) == off / 0x4000_0000 % ENTRIES
            && va % PAGE_SIZE == off % PAGE_SIZE
  {
    assert (PAGE_OFFSET + off) / PAGE_SIZE == 0xF_FFF8_0000_0000 + off / PAGE_SIZE;
    assert (PAGE_OFFSET + off) / 0x20_0000 == 0x7FF_FC00_0000 + off / 0x20_0000;
    assert (PAGE_OFFSET + off) / 0x4000_0000 == 0x3_FFFE_0000 + off / 0x4000_0000;
  }

  lemma TopDigit(off: nat)
    requires off < 0x8000_0000_0000
    ensures PgdIndex(PAGE_OFFSET + off) == 0x100 + off / 0x80_0000_0000
  {
    assert (PAGE_OFFSET + off) / 0x80_0000_0000 == 0x1FF_FF00 + off / 0x80_0000_0000;
  }

  /** The indices and the offset put the address together again. */
  lemma IndicesOf(off: nat)
    requires off < 0x8000_0000_0000
    ensures var va := PAGE_OFFSET + off;
            && PgdIndex(va) >= 0x100
            && (PgdIndex(va) == 0x100 ==>
                 off == ((PudIndex(va) * ENTRIES + PmdIndex(va)) * ENTRIES + PteIndex(va)) * PAGE_SIZE + va % PAGE_SIZE)
            && (PgdIndex(va) > 0x100 ==> off >= 0x80_0000_0000)
  {
    Digits(off);
    DigitsOfOffset(off);
    TopDigit(off);
  }

  lemma LowHalfIndex(va: nat)
    requires va < 0x8000_0000_0000
    ensures PgdIndex(va) < 0x100
  {
  }

  /** The intended mapping, in digits. */
  lemma IntendedDigits(mb: nat, i3: nat, i2: nat, i1: nat, o: nat)
    requires 2 <= mb <= 1024 && mb % 2 == 0 && i3 < ENTRIES && i2 < ENTRIES && i1 < ENTRIES && o < PAGE_SIZE
    ensures Intended(mb, PAGE_OFFSET + ((i3 * ENTRIES + i2) * ENTRIES + i1) * PAGE_SIZE + o) == WalkResult(mb, 0x100, i3, i2, i1, o)
  {
  }

  lemma IntendedIsWalk(mb: nat, va: nat)
    requires 2 <= mb <= 1024 && mb % 2 == 0 && Canonical(va)
    ensures Intended(mb, va) == WalkResult(mb, PgdIndex(va), PudIndex(va), PmdIndex(va), PteIndex(va), va % PAGE_SIZE)
  {
    if va < PAGE_OFFSET {
      LowHalfIndex(va);
    } else {
      IndicesOf(va - PAGE_OFFSET);
      if PgdIndex(va) == 0x100 {
        IntendedDigits(mb, PudIndex(va), PmdIndex(va), PteIndex(va), va % PAGE_SIZE);
      }
    }
  }

  /** Every linear address translates as intended, for even sizes up to 1 GB: physical memory at
      PAGE_OFFSET, the device window, and a fault everywhere else. */
  lemma TranslationIsIntended(m: seq<nat>, b: nat, mb: nat, va: nat)
    requires Zeroed(m, b, mb) && 2 <= mb <= 1024 && mb % 2 == 0 && b < 0x1_0000_0000 && va < WORD
    ensures Translate(BuiltTables(m, b, mb), b, va) == Intended(mb, va)
  {
    if Canonical(va) {
      WalkBuilt(m, b, mb, PgdIndex(va), PudIndex(va), PmdIndex(va), PteIndex(va), va % PAGE_SIZE);
      IntendedIsWalk(mb, va);
    }
  }

  /** Physical address p is mapped at PAGE_OFFSET + p. */
  predicate MapsByte(r: seq<nat>, b: nat, p: nat) {
    Translate(r, b, PAGE_OFFSET + p) == Some(p)
  }

  ghost predicate MapsAllMemory(r: seq<nat>, b: nat, mb: nat) {
    forall p: nat | p < mb * MB :: MapsByte(r, b, p)
  }

  /** Below 2 GB, paging_init maps all memory exactly for even sizes of at most 1 GB: an odd last
      megabyte gets no table, and the second gigabyte no level 3 entry. */
  lemma MapsAllMemoryIff(m: seq<nat>, b: nat, mb: nat)
    requires Zeroed(m, b, mb) && 2 <= mb < 2048 && b < 0x1_0000_0000
    ensures MapsAllMemory(BuiltTables(m, b, mb), b, mb) <==> mb % 2 == 0 && mb <= 1024
  {
    var r := BuiltTables(m, b, mb);
    if mb % 2 == 0 && mb <= 1024 {
      forall p: nat | p < mb * MB
        ensures MapsByte(r, b, p)
      {
        TranslationIsIntended(m, b, mb, PAGE_OFFSET + p);
      }
    } else if mb <= 1024 {
      LastMegabyteFaults(m, b, mb);
      assert !MapsByte(r, b, (mb - 1) * MB);
    } else {
      SecondGigabyteFaults(m, b, mb);
      assert !MapsByte(r, b, 0x4000_0000);
    }
  }

  ghost predicate TranslatesAsIntended(r: seq<nat>, b: nat, mb: nat) {
    forall va: nat | va < WORD :: Translate(r, b, va) == Intended(mb, va)
  }

  /** Below 2 GB, every 64-bit address translates as intended exactly for even sizes of at most 1 GB. */
  lemma TranslationIff(m: seq<nat>, b: nat, mb: nat)
    requires Zeroed(m, b, mb) && 2 <= mb < 2048 && b < 0x1_0000_0000
    ensures TranslatesAsIntended(BuiltTables(m, b, mb), b, mb) <==> mb % 2 == 0 && mb <= 1024
  {
    var r := BuiltTables(m, b, mb);
    if mb % 2 == 0 && mb <= 1024 {
      forall va: nat | va < WORD
        ensures Translate(r, b, va) == Intended(mb, va)
      {
        TranslationIsIntended(m, b, mb, va);
      }
    } else {
      MapsAllMemoryIff(m, b, mb);
      var p: nat :| p < mb * MB && !MapsByte(r, b, p);
      assert Translate(r, b, PAGE_OFFSET + p) != Intended(mb, PAGE_OFFSET + p);
    }
  }

  /** For odd sizes the window goes on behind its 20 MB: from there to 512 MB the walk takes the pages of
      the last megabyte of memory for level 1 tables, whatever is in them. */
  lemma SurplusWalk(m: seq<nat>, b: nat, mb: nat, i2: nat, i1: nat, off: nat)
    requires Zeroed(m, b, mb) && 2 <= mb <= 1024 && mb % 2 == 1 && b < 0x1_0000_0000 && 10 <= i2 < 256
    ensures var r := BuiltTables(m, b, mb);
            Walk(r, b, 0x100, 3, i2, i1, off) == WalkPte(r, (mb - 1) * 256 + i2, i1, off)
  {
    var r := BuiltTables(m, b, mb);
    BuiltUpper(m, b, mb, 0x100, 3);
    WalkUpper(r, b, mb, 0x100, 3, i2, i1, off);
    SurplusPoints(m, b, mb, i2);
    FollowLower(r, PmdReserv(b, mb), i2, (mb - 1) * 256 + i2, i1, off);
  }

  lemma SurplusPoints(m: seq<nat>, b: nat, mb: nat, i: nat)
    requires Zeroed(m, b, mb) && 2 <= mb <= 1024 && mb % 2 == 1 && 10 <= i < 256
    ensures PointsTo(BuiltTables(m, b, mb), PmdReserv(b, mb), i, (mb - 1) * 256 + i)
  {
    SurplusEntries(m, b, mb, i);
    EntryFields((mb - 1) * 256 + i, ATTR_NORMAL);
  }

  lemma FollowLower(r: seq<nat>, f: nat, i2: nat, g: nat, i1: nat, off: nat)
    requires PointsTo(r, f, i2, g)
    ensures WalkPmd(r, f, i2, i1, off) == WalkPte(r, g, i1, off)
  {
  }

  lemma WalkOddEnd(m: seq<nat>, b: nat, mb: nat, i1: nat, off: nat)
    requires Zeroed(m, b, mb) && 2 <= mb <= 1024 && mb % 2 == 1 && b < 0x1_0000_0000
    ensures Walk(BuiltTables(m, b, mb), b, 0x100, 0, mb / 2, i1, off) == None
  {
    BuiltUpper(m, b, mb, 0x100, 0);
    WalkUpper(BuiltTables(m, b, mb), b, mb, 0x100, 0, mb / 2, i1, off);
    OddTable(m, b, mb);
  }

  lemma LastMegabyteFaults(m: seq<nat>, b: nat, mb: nat)
    requires Zeroed(m, b, mb) && 2 <= mb <= 1024 && mb % 2 == 1 && b < 0x1_0000_0000
    ensures Translate(BuiltTables(m, b, mb), b, PAGE_OFFSET + (mb - 1) * MB) == None
  {
    var off := (mb - 1) * MB;
    LastMegabyteDigits(mb);
    WalkOddEnd(m, b, mb, PteIndex(PAGE_OFFSET + off), (PAGE_OFFSET + off) % PAGE_SIZE);
  }

  lemma LastMegabyteDigits(mb: nat)
    requires 2 <= mb <= 1024 && mb % 2 == 1
    ensures var va := PAGE_OFFSET + (mb - 1) * MB;
            PgdIndex(va) == 0x100 && PudIndex(va) == 0 && PmdIndex(va) == mb / 2
  {
    var off := (mb - 1) * MB;
    assert off == mb / 2 * 0x20_0000;
    DigitsOfOffset(off);
    TopDigit(off);
  }

  lemma SecondGigabyteFaults(m: seq<nat>, b: nat, mb: nat)
    requires Zeroed(m, b, mb) && 1024 < mb < 2048 && b < 0x1_0000_0000
    ensures Translate(BuiltTables(m, b, mb), b, PAGE_OFFSET + 0x4000_0000) == None
  {
    var va := PAGE_OFFSET + 0x4000_0000;
    BuiltUpper(m, b, mb, 0x100, 1);
    SecondGigabyteDigits();
    WalkUpper(BuiltTables(m, b, mb), b, mb, 0x100, 1, PmdIndex(va), PteIndex(va), va % PAGE_SIZE);
  }

  lemma SecondGigabyteDigits()
    ensures PgdIndex(PAGE_OFFSET + 0x4000_0000) == 0x100 && PudIndex(PAGE_OFFSET + 0x4000_0000) == 1
  {
    DigitsOfOffset(0x4000_0000);
    TopDigit(0x4000_0000);
  }

  // ---------------------------------------------------------------- access rights

  /** What sections 4.6 and 4.9 of the manual derive from the entries of a walk: writes are allowed when
      bit 1 is set at all four levels, user mode when bit 2 is; bits 3 and 4 of the last entry ask for
      write-through and for no caching. */
  datatype Rights = Rights(writable: bool, user: bool, writeThrough: bool, uncached: bool)

  predicate Bit(e: nat, weight: nat)
    requires weight > 0
  {
    e / weight % 2 == 1
  }

  function RightsOf(e4: nat, e3: nat, e2: nat, e1: nat): Rights {
    Rights(Bit(e4, 2) && Bit(e3, 2) && Bit(e2, 2) && Bit(e1, 2),
           Bit(e4, 4) && Bit(e3, 4) && Bit(e2, 4) && Bit(e1, 4),
           Bit(e1, 8), Bit(e1, 16))
  }

  /** Rights of an address that translates through four levels; None for any other. */
  function RightsAt(m: seq<nat>, pgd: nat, va: nat): Option<Rights> {
    if !Canonical(va) then None
    else
      var e4 := Entry(m, pgd, PgdIndex(va));
      var e3 := Entry(m, FrameOf(e4), PudIndex(va));
      var e2 := Entry(m, FrameOf(e3), PmdIndex(va));
      var e1 := Entry(m, FrameOf(e2), PteIndex(va));
      if Present(e4) && Present(e3) && !Large(e3) && Present(e2) && !Large(e2) && Present(e1) then Some(RightsOf(e4, e3, e2, e1))
      else None
  }

  lemma EvenOff(x: nat, c: nat)
    ensures (2 * x + c) % 2 == c % 2
  {
  }

  lemma Halved(frame: nat, attr: nat)
    requires attr < PAGE_SIZE
    ensures Bit(frame * PAGE_SIZE + attr, 2) <==> Bit(attr, 2)
  {
    assert (frame * PAGE_SIZE + attr) / 2 == 2 * (frame * 1024) + attr / 2;
    EvenOff(frame * 1024, attr / 2);
  }

  lemma Quartered(frame: nat, attr: nat)
    requires attr < PAGE_SIZE
    ensures Bit(frame * PAGE_SIZE + attr, 4) <==> Bit(attr, 4)
  {
    assert (frame * PAGE_SIZE + attr) / 4 == 2 * (frame * 512) + attr / 4;
    EvenOff(frame * 512, attr / 4);
  }

  lemma OverEight(frame: nat, attr: nat)
    requires attr < PAGE_SIZE
    ensures Bit(frame * PAGE_SIZE + attr, 8) <==> Bit(attr, 8)
  {
    assert (frame * PAGE_SIZE + attr) / 8 == 2 * (frame * 256) + attr / 8;
    EvenOff(frame * 256, attr / 8);
  }

  lemma OverSixteen(frame: nat, attr: nat)
    requires attr < PAGE_SIZE
    ensures Bit(frame * PAGE_SIZE + attr, 16) <==> Bit(attr, 16)
  {
    assert (frame * PAGE_SIZE + attr) / 16 == 2 * (frame * 128) + attr / 16;
    EvenOff(frame * 128, attr / 16);
  }

  lemma EntryBits(e: nat, frame: nat, attr: nat)
    requires (attr == 0x003 || attr == 0x011) && e == frame * PAGE_SIZE + attr
    ensures (Bit(e, 2) <==> attr == 0x003) && !Bit(e, 4) && !Bit(e, 8) && (Bit(e, 16) <==> attr == 0x011)
  {
    Halved(frame, attr);
    Quartered(frame, attr);
    OverEight(frame, attr);
    OverSixteen(frame, attr);
  }

  lemma EntryIs(e: nat, frame: nat, attr: nat)
    requires frame < 0x100_0000_0000 && (attr == 0x003 || attr == 0x011) && e == frame * PAGE_SIZE + attr
    ensures Present(e) && !Large(e) && FrameOf(e) == frame
  {
    assert e / 128 == 32 * frame;
  }

  /** A walk through frames f3, f2 and f1 whose lower entries have the attribute. */
  lemma RightsOfWalk(r: seq<nat>, pgd: nat, va: nat, f3: nat, f2: nat, f1: nat, page: nat, attr: nat)
    requires Canonical(va) && (attr == 0x003 || attr == 0x011)
    requires f3 < 0x100_0000_0000 && f2 < 0x100_0000_0000 && f1 < 0x100_0000_0000 && page < 0x100_0000_0000
    requires Entry(r, pgd, PgdIndex(va)) == f3 * PAGE_SIZE + 0x003
    requires Entry(r, f3, PudIndex(va)) == f2 * PAGE_SIZE + attr
    requires Entry(r, f2, PmdIndex(va)) == f1 * PAGE_SIZE + attr
    requires Entry(r, f1, PteIndex(va)) == page * PAGE_SIZE + attr
    ensures RightsAt(r, pgd, va) == Some(Rights(attr == 0x003, false, false, attr == 0x011))
  {
    var e4, e3 := Entry(r, pgd, PgdIndex(va)), Entry(r, f3, PudIndex(va));
    var e2, e1 := Entry(r, f2, PmdIndex(va)), Entry(r, f1, PteIndex(va));
    EntryIs(e4, f3, 0x003);
    EntryIs(e3, f2, attr);
    EntryIs(e2, f1, attr);
    EntryIs(e1, page, attr);
    EntryBits(e4, f3, 0x003);
    EntryBits(e3, f2, attr);
    EntryBits(e2, f1, attr);
    EntryBits(e1, page, attr);
  }

  /** An address of physical memory. */
  lemma NormalRights(m: seq<nat>, b: nat, mb: nat, va: nat)
    requires Zeroed(m, b, mb) && 2 <= mb <= 1024 && mb % 2 == 0 && b < 0x1_0000_0000
    requires Canonical(va) && PgdIndex(va) == 0x100 && PudIndex(va) == 0 && PmdIndex(va) < mb / 2
    ensures RightsAt(BuiltTables(m, b, mb), b, va) == Some(Rights(true, false, false, false))
  {
    var i, j := PmdIndex(va), PteIndex(va);
    UpperTables(m, b, mb, 0x100);
    UpperTables(m, b, mb, 0);
    NormalLowerTables(m, b, mb, i, j);
    RightsOfWalk(BuiltTables(m, b, mb), b, va, b + 1, PmdFrame(b), PteFrame(b, mb) + i, i * ENTRIES + j, 0x003);
  }

  lemma DevicePage(i: nat, j: nat)
    ensures DEVICE_BASE + (i * ENTRIES + j) * PAGE_SIZE + 0x011 == (0xFEC00 + i * ENTRIES + j) * PAGE_SIZE + 0x011
  {
  }

  /** An address of the device window. */
  lemma DeviceRights(m: seq<nat>, b: nat, mb: nat, va: nat)
    requires Zeroed(m, b, mb) && 2 <= mb <= 1024 && mb % 2 == 0 && b < 0x1_0000_0000
    requires Canonical(va) && PgdIndex(va) == 0x100 && PudIndex(va) == 3 && PmdIndex(va) < 10
    ensures RightsAt(BuiltTables(m, b, mb), b, va) == Some(Rights(false, false, false, true))
  {
    var i, j := PmdIndex(va), PteIndex(va);
    UpperTables(m, b, mb, 0x100);
    UpperTables(m, b, mb, 3);
    DeviceLowerTables(m, b, mb, i, j);
    DevicePage(i, j);
    RightsOfWalk(BuiltTables(m, b, mb), b, va, b + 1, PmdReserv(b, mb), PteReserv(b, mb) + i, 0xFEC00 + i * ENTRIES + j, 0x011);
  }

  lemma IndicesIn(off: nat, first: nat, bytes: nat, i3: nat)
    requires first == i3 * 0x4000_0000 && i3 < ENTRIES && bytes <= 0x4000_0000 && first <= off < first + bytes
    ensures var va := PAGE_OFFSET + off;
            Canonical(va) && PgdIndex(va) == 0x100 && PudIndex(va) == i3 && PmdIndex(va) == (off - first) / 0x20_0000
  {
    DigitsOfOffset(off);
    TopDigit(off);
    assert off / 0x4000_0000 == i3;
    assert first / 0x20_0000 == i3 * ENTRIES && off / 0x20_0000 == i3 * ENTRIES + (off - first) / 0x20_0000;
  }

  /** Physical memory is mapped writable and cached, the 20 MB of the device window read-only and uncached;
      neither is open to user mode. */
  lemma RightsAreIntended(m: seq<nat>, b: nat, mb: nat, p: nat)
    requires Zeroed(m, b, mb) && 2 <= mb <= 1024 && mb % 2 == 0 && b < 0x1_0000_0000
    ensures p < mb * 0x10_0000 ==>
              RightsAt(BuiltTables(m, b, mb), b, 0xFFFF_8000_0000_0000 + p) == Some(Rights(true, false, false, false))
    ensures p < 20 * 0x10_0000 ==>
              RightsAt(BuiltTables(m, b, mb), b, 0xFFFF_8000_C000_0000 + p) == Some(Rights(false, false, false, true))
  {
    if p < mb * 0x10_0000 {
      IndicesIn(p, 0, mb * 0x10_0000, 0);
      NormalRights(m, b, mb, PAGE_OFFSET + p);
    }
    if p < 20 * 0x10_0000 {
      IndicesIn(0xC000_0000 + p, 0xC000_0000, 20 * 0x10_0000, 3);
      DeviceRights(m, b, mb, PAGE_OFFSET + 0xC000_0000 + p);
    }
  }
}
