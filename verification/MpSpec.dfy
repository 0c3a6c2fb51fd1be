/** src/mp_spec.c: reading the MP configuration table (Intel MultiProcessor Specification v1.4,
    section 4). */
module MpSpec {
  import opened Bits

  const NR_CPUS: nat := 2
  const MAX_IO_APICS: nat := 2
  const MAX_MP_BUSSES: nat := 256
  const MAX_IRQ_SOURCES: nat := MAX_MP_BUSSES * 4
  const HEADER_SIZE: nat := 44

  /** One entry behind the header; multi-byte fields are little endian. */
  datatype Entry =
    | Processor(apicId: nat, apicVer: nat, cpuFlag: nat, rest: seq<nat>)
    | Bus(busId: nat, busType: seq<nat>)
    | IoApic(ioApicId: nat, ioApicVer: nat, ioFlags: nat, ioAddr: nat)
    | IntSrc(irqType: nat, irqFlag: nat, srcBus: nat, srcBusIrq: nat, dstApic: nat, dstIrq: nat)
    | LintSrc(lirqType: nat, lirqFlag: nat, lsrcBus: nat, lsrcBusIrq: nat, ldstApic: nat, ldstLint: nat)

  // ---------------------------------------------------------------- bytes

  function Byte(m: seq<nat>, i: nat): nat {
    if i < |m| then m[i] % 256 else 0
  }

  function Bytes(m: seq<nat>, i: nat, n: nat): (s: seq<nat>)
    ensures |s| == n && forall k | 0 <= k < n :: s[k] == Byte(m, i + k)
  {
    if n == 0 then [] else Bytes(m, i, n - 1) + [Byte(m, i + n - 1)]
  }

  function Word16(m: seq<nat>, i: nat): nat {
    Byte(m, i) + 0x100 * Byte(m, i + 1)
  }

  function Word32(m: seq<nat>, i: nat): nat {
    Word16(m, i) + 0x1_0000 * Word16(m, i + 2)
  }

  /** The entry at an offset, read as the casts of smp_read_mpc read it; None for an unknown type. */
  function DecodeAt(m: seq<nat>, i: nat): Option<Entry> {
    match Byte(m, i)
    case 0 => Some(Processor(Byte(m, i + 1), Byte(m, i + 2), Byte(m, i + 3), Bytes(m, i + 4, 16)))
    case 1 => Some(Bus(Byte(m, i + 1), Bytes(m, i + 2, 6)))
    case 2 => Some(IoApic(Byte(m, i + 1), Byte(m, i + 2), Byte(m, i + 3), Word32(m, i + 4)))
    case 3 => Some(IntSrc(Byte(m, i + 1), Word16(m, i + 2), Byte(m, i + 4), Byte(m, i + 5), Byte(m, i + 6), Byte(m, i + 7)))
    case 4 => Some(LintSrc(Byte(m, i + 1), Word16(m, i + 2), Byte(m, i + 4), Byte(m, i + 5), Byte(m, i + 6), Byte(m, i + 7)))
    case _ => None
  }

  function SizeOf(e: Entry): nat {
    if e.Processor? then 20 else 8
  }

  predicate AllBytes(s: seq<nat>) {
    forall k | 0 <= k < |s| :: s[k] < 256
  }

  /** Field widths of an entry. */
  predicate Fits(e: Entry) {
    match e
    case Processor(id, ver, flag, rest) => id < 256 && ver < 256 && flag < 256 && |rest| == 16 && AllBytes(rest)
    case Bus(id, kind) => id < 256 && |kind| == 6 && AllBytes(kind)
    case IoApic(id, ver, flags, addr) => id < 256 && ver < 256 && flags < 256 && addr < 0x1_0000_0000
    case IntSrc(t, f, b, q, a, n) => t < 256 && f < 0x1_0000 && b < 256 && q < 256 && a < 256 && n < 256
    case LintSrc(t, f, b, q, a, n) => t < 256 && f < 0x1_0000 && b < 256 && q < 256 && a < 256 && n < 256
  }

  /** The bytes the specification lays out for an entry. */
  function Encode(e: Entry): (s: seq<nat>)
    requires Fits(e)
    ensures |s| == SizeOf(e)
  {
    match e
    case Processor(id, ver, flag, rest) => [0, id, ver, flag] + rest
    case Bus(id, kind) => [1, id] + kind
    case IoApic(id, ver, flags, addr) =>
      [2, id, ver, flags, addr % 256, addr / 256 % 256, addr / 0x1_0000 % 256, addr / 0x100_0000]
    case IntSrc(t, f, b, q, a, n) => [3, t, f % 256, f / 256, b, q, a, n]
    case LintSrc(t, f, b, q, a, n) => [4, t, f % 256, f / 256, b, q, a, n]
  }

  ghost predicate AllFit(es: seq<Entry>) {
    forall k | 0 <= k < |es| :: Fits(es[k])
  }

  function EncodeAll(es: seq<Entry>): seq<nat>
    requires AllFit(es)
  {
    if es == [] then [] else Encode(es[0]) + EncodeAll(es[1..])
  }

  lemma EncodedBytes(e: Entry)
    requires Fits(e)
    ensures AllBytes(Encode(e))
  {
    if e.IoApic? {
      Word32Parts(e.ioAddr);
    }
  }

  /** Memory holds these bytes at an offset. */
  ghost predicate Reads(m: seq<nat>, i: nat, s: seq<nat>) {
    forall k: nat {:trigger s[k]} | k < |s| :: Byte(m, i + k) == s[k]
  }

  lemma BytesOfEncoding(m: seq<nat>, i: nat, e: Entry)
    requires Fits(e) && i + SizeOf(e) <= |m| && m[i..i + SizeOf(e)] == Encode(e)
    ensures Reads(m, i, Encode(e))
  {
    EncodedBytes(e);
    forall k: nat | k < SizeOf(e)
      ensures Byte(m, i + k) == Encode(e)[k]
    {
      assert m[i + k] == m[i..i + SizeOf(e)][k];
    }
  }

  lemma ArrayBytes(m: seq<nat>, i: nat, from: nat, s: seq<nat>)
    requires from <= |s| && Reads(m, i, s)
    ensures Bytes(m, i + from, |s| - from) == s[from..]
  {
    forall k: nat | k < |s| - from
      ensures Bytes(m, i + from, |s| - from)[k] == s[from..][k]
    {
      assert Byte(m, i + (from + k)) == s[from + k];
    }
  }

  lemma DecodeProcessor(m: seq<nat>, i: nat, e: Entry)
    requires Fits(e) && e.Processor? && Reads(m, i, Encode(e))
    ensures DecodeAt(m, i) == Some(e)
  {
    var s := Encode(e);
    ArrayBytes(m, i, 4, s);
    assert s[4..] == e.rest;
    assert s[0] == 0 && s[1] == e.apicId && s[2] == e.apicVer && s[3] == e.cpuFlag;
  }

  lemma DecodeBus(m: seq<nat>, i: nat, e: Entry)
    requires Fits(e) && e.Bus? && Reads(m, i, Encode(e))
    ensures DecodeAt(m, i) == Some(e)
  {
    var s := Encode(e);
    ArrayBytes(m, i, 2, s);
    assert s[2..] == e.busType;
    assert s[0] == 1 && s[1] == e.busId;
  }

  lemma DecodeIoApic(m: seq<nat>, i: nat, e: Entry)
    requires Fits(e) && e.IoApic? && Reads(m, i, Encode(e))
    ensures DecodeAt(m, i) == Some(e)
  {
    Word32Parts(e.ioAddr);
    var s := Encode(e);
    assert s[0] == 2 && s[1] == e.ioApicId && s[2] == e.ioApicVer && s[3] == e.ioFlags;
    assert s[4] < 256 && s[5] < 256 && s[6] < 256 && s[7] < 256;
    assert Word32(m, i + 4) == e.ioAddr;
  }

  lemma DecodeInterrupt(m: seq<nat>, i: nat, e: Entry)
    requires Fits(e) && (e.IntSrc? || e.LintSrc?) && Reads(m, i, Encode(e))
    ensures DecodeAt(m, i) == Some(e)
  {
    var s := Encode(e);
    assert s[0] == (if e.IntSrc? then 3 else 4) && s[1] < 256 && s[4] < 256 && s[5] < 256 && s[6] < 256 && s[7] < 256;
    assert s[2] + 0x100 * s[3] == if e.IntSrc? then e.irqFlag else e.lirqFlag;
  }

  /** Decoding an entry in the middle of memory gives it back. */
  lemma DecodeEncoded(m: seq<nat>, i: nat, e: Entry)
    requires Fits(e) && i + SizeOf(e) <= |m| && m[i..i + SizeOf(e)] == Encode(e)
    ensures DecodeAt(m, i) == Some(e)
  {
    BytesOfEncoding(m, i, e);
    if e.Processor? {
      DecodeProcessor(m, i, e);
    } else if e.Bus? {
      DecodeBus(m, i, e);
    } else if e.IoApic? {
      DecodeIoApic(m, i, e);
    } else {
      DecodeInterrupt(m, i, e);
    }
  }

  lemma Word32Parts(a: nat)
    requires a < 0x1_0000_0000
    ensures a == a % 256 + 0x100 * (a / 256 % 256) + 0x1_0000 * (a / 0x1_0000 % 256 + 0x100 * (a / 0x100_0000))
    ensures a / 0x100_0000 < 256
  {
    assert a / 0x1_0000 == a / 256 / 256 && a / 0x100_0000 == a / 0x1_0000 / 256;
  }

  // ---------------------------------------------------------------- what each entry does

  /** The global variables of mp_spec.c. */
  datatype Mp = Mp(
    lapicAddr: nat, disabledCpus: nat, bootCpuId: nat, numProcessors: nat, cpuPresentMap: nat, apicIds: seq<nat>,
    busNotPci: seq<bool>, busToPci: seq<int>, currentPciId: nat,
    nrIoApics: nat, ioApics: seq<Entry>, irqEntries: nat, irqs: seq<Entry>)

  predicate Enabled(flag: nat) {
    flag % 2 == 1
  }

  predicate IsBsp(flag: nat) {
    flag / 2 % 2 == 1
  }

  /** Table sizes, and what keeps the CPU index inside its table: the map is some j low ones, with j not
      above the number of processors. */
  ghost predicate Sized(s: Mp) {
    && |s.apicIds| == NR_CPUS && |s.busNotPci| == MAX_MP_BUSSES && |s.busToPci| == MAX_MP_BUSSES
    && |s.ioApics| == MAX_IO_APICS && |s.irqs| == MAX_IRQ_SOURCES
    && s.numProcessors <= NR_CPUS && s.nrIoApics <= MAX_IO_APICS
    && exists j: nat :: LowOnes(s, j)
  }

  predicate LowOnes(s: Mp, j: nat) {
    j <= s.numProcessors && s.cpuPresentMap == Pow2(j) - 1
  }

  function ProcessorInfo(s: Mp, apicId: nat, flag: nat): Mp {
    if !Enabled(flag) then s.(disabledCpus := s.disabledCpus + 1)
    else
      var s1 := if IsBsp(flag) then s.(bootCpuId := apicId) else s;
      if s.numProcessors >= NR_CPUS then s1
      else
        var cpu := if IsBsp(flag) then 0 else Ffz(s.cpuPresentMap);
        s1.(numProcessors := s.numProcessors + 1,
            apicIds := if cpu < |s.apicIds| then s.apicIds[cpu := apicId] else s.apicIds,
            cpuPresentMap := SetBit(s.cpuPresentMap, cpu))
  }

  predicate Named(kind: seq<nat>, name: seq<nat>) {
    |kind| == 6 && kind[..3] == name
  }

  const ISA: seq<nat> := ['I' as nat, 'S' as nat, 'A' as nat]
  const PCI: seq<nat> := ['P' as nat, 'C' as nat, 'I' as nat]

  function BusInfo(s: Mp, id: nat, kind: seq<nat>): Mp {
    if id >= |s.busNotPci| || id >= |s.busToPci| then s
    else if Named(kind, ISA) then s.(busNotPci := s.busNotPci[id := true])
    else if Named(kind, PCI) then
      s.(busNotPci := s.busNotPci[id := false], busToPci := s.busToPci[id := s.currentPciId], currentPciId := s.currentPciId + 1)
    else s
  }

  predicate UsableIoApic(e: Entry) {
    e.IoApic? && e.ioFlags % 2 == 1 && e.ioAddr != 0
  }

  function IoApicInfo(s: Mp, e: Entry): Mp {
    if !UsableIoApic(e) || s.nrIoApics >= |s.ioApics| then s
    else s.(ioApics := s.ioApics[s.nrIoApics := e], nrIoApics := s.nrIoApics + 1)
  }

  /** The table is full, and the machine halted, once this is reached. */
  predicate Halted(s: Mp) {
    s.irqEntries >= MAX_IRQ_SOURCES
  }

  function IntSrcInfo(s: Mp, e: Entry): Mp {
    if s.irqEntries >= |s.irqs| then s else s.(irqs := s.irqs[s.irqEntries := e], irqEntries := s.irqEntries + 1)
  }

  function Apply(s: Mp, e: Entry): Mp {
    match e
    case Processor(id, _, flag, _) => ProcessorInfo(s, id, flag)
    case Bus(id, kind) => BusInfo(s, id, kind)
    case IoApic(_, _, _, _) => IoApicInfo(s, e)
    case IntSrc(_, _, _, _, _, _) => IntSrcInfo(s, e)
    case LintSrc(_, _, _, _, _, _) => s
  }

  /** All entries in order, up to a halt. */
  function ApplyAll(s: Mp, es: seq<Entry>): Mp
    decreases |es|
  {
    if es == [] || Halted(s) then s else ApplyAll(Apply(s, es[0]), es[1..])
  }

  lemma ApplyKeepsSized(s: Mp, e: Entry)
    requires Sized(s)
    ensures Sized(Apply(s, e))
  {
    var j: nat :| LowOnes(s, j);
    var s' := Apply(s, e);
    if e.Processor? && Enabled(e.cpuFlag) && s.numProcessors < NR_CPUS {
      FfzOfLowOnes(j);
      if IsBsp(e.cpuFlag) {
        LowBit(j);
        assert LowOnes(s', if j == 0 then 1 else j);
      } else {
        assert LowOnes(s', j + 1);
      }
    } else {
      assert LowOnes(s', j);
    }
  }

  lemma LowBit(j: nat)
    ensures SetBit(Pow2(j) - 1, 0) == Pow2(if j == 0 then 1 else j) - 1
  {
    if j > 0 {
      var m := Pow2(j - 1);
      assert Pow2(j) - 1 == 2 * m - 1;
      assert BitSet(2 * m - 1, 0);
    }
  }

  // ---------------------------------------------------------------- the walk

  /** How smp_read_mpc's loop ends: at a count, halted, or turning on an unknown type for ever. */
  datatype Walked = Done(count: nat, state: Mp) | Stopped(state: Mp) | Stuck(count: nat, state: Mp)

  function WalkFrom(m: seq<nat>, length: nat, count: nat, s: Mp): Walked
    decreases length - count
  {
    if Halted(s) then Stopped(s)
    else if count >= length then Done(count, s)
    else match DecodeAt(m, count)
      case None => Stuck(count, s)
      case Some(e) => WalkFrom(m, length, count + SizeOf(e), Apply(s, e))
  }

  /** Memory from the table's start holds these entries from `count` up to `length`. */
  ghost predicate HoldsEntries(m: seq<nat>, count: nat, length: nat, es: seq<Entry>) {
    AllFit(es) && count + |EncodeAll(es)| == length && length <= |m| && m[count..length] == EncodeAll(es)
  }

  lemma FirstEntry(m: seq<nat>, count: nat, length: nat, es: seq<Entry>)
    requires HoldsEntries(m, count, length, es) && es != []
    ensures count < length && DecodeAt(m, count) == Some(es[0]) && HoldsEntries(m, count + SizeOf(es[0]), length, es[1..])
  {
    var e, n := es[0], SizeOf(es[0]);
    var all := EncodeAll(es);
    assert all == Encode(e) + EncodeAll(es[1..]);
    assert m[count..count + n] == all[..n] == Encode(e);
    assert m[count + n..length] == all[n..] == EncodeAll(es[1..]);
    DecodeEncoded(m, count, e);
  }

  /** On a well-formed table the walk visits every entry once, in order: it is the fold over the
      entries, and it ends exactly at the table's length unless the interrupt table overflows. */
  lemma {:induction false} WalkIsFold(m: seq<nat>, length: nat, count: nat, s: Mp, es: seq<Entry>)
    requires HoldsEntries(m, count, length, es)
    ensures WalkFrom(m, length, count, s) ==
            if Halted(ApplyAll(s, es)) then Stopped(ApplyAll(s, es)) else Done(length, ApplyAll(s, es))
    decreases |es|
  {
    if es != [] && !Halted(s) {
      FirstEntry(m, count, length, es);
      WalkIsFold(m, length, count + SizeOf(es[0]), Apply(s, es[0]), es[1..]);
    }
  }

  /** An entry of unknown type behind well-formed ones: the walk never ends. */
  lemma {:induction false} UnknownTypeIsStuck(m: seq<nat>, length: nat, bad: nat, count: nat, s: Mp, es: seq<Entry>)
    requires HoldsEntries(m, count, bad, es) && bad < length && Byte(m, bad) > 4
    ensures !Halted(ApplyAll(s, es)) ==> WalkFrom(m, length, count, s) == Stuck(bad, ApplyAll(s, es))
    decreases |es|
  {
    if es != [] && !Halted(s) {
      FirstEntry(m, count, bad, es);
      UnknownTypeIsStuck(m, length, bad, count + SizeOf(es[0]), Apply(s, es[0]), es[1..]);
    }
  }

  // ---------------------------------------------------------------- tables of any bytes

  /** The entries met from `count` on, up to an unknown type or to the first one that ends at or behind
      the table's length. */
  function EntriesAt(m: seq<nat>, length: nat, count: nat): seq<Entry>
    decreases length - count
  {
    if count >= length then []
    else match DecodeAt(m, count)
      case None => []
      case Some(e) => [e] + EntriesAt(m, length, count + SizeOf(e))
  }

  /** Where they end. */
  function EndOf(m: seq<nat>, length: nat, count: nat): (end: nat)
    ensures end >= count
    ensures end < length ==> Byte(m, end) > 4
    decreases length - count
  {
    if count >= length then count
    else match DecodeAt(m, count)
      case None => count
      case Some(e) => EndOf(m, length, count + SizeOf(e))
  }

  /** What the walk does on any table whatever: it is the fold over the entries met, and it halts when
      they fill the interrupt table, turns for ever at an unknown type, and otherwise ends where the last
      entry ends, which may lie behind the table's length. */
  lemma {:induction false} WalkIsParse(m: seq<nat>, length: nat, count: nat, s: Mp)
    ensures var es, end := EntriesAt(m, length, count), EndOf(m, length, count);
            WalkFrom(m, length, count, s) ==
            if Halted(ApplyAll(s, es)) then Stopped(ApplyAll(s, es))
            else if end < length then Stuck(end, ApplyAll(s, es))
            else Done(end, ApplyAll(s, es))
    decreases length - count
  {
    if !Halted(s) && count < length && DecodeAt(m, count).Some? {
      var e := DecodeAt(m, count).value;
      var es, rest := EntriesAt(m, length, count), EntriesAt(m, length, count + SizeOf(e));
      WalkIsParse(m, length, count + SizeOf(e), Apply(s, e));
      assert es[0] == e && es[1..] == rest;
      assert ApplyAll(s, es) == ApplyAll(Apply(s, e), rest);
    }
  }

  /** In memory of bytes, byte k of what lies at i. */
  lemma SliceIsBytes(m: seq<nat>, i: nat, n: nat)
    requires AllBytes(m) && i + n <= |m|
    ensures Bytes(m, i, n) == m[i..i + n] && AllBytes(Bytes(m, i, n))
  {
  }

  lemma HeadAndTail(m: seq<nat>, i: nat, n: nat, k: nat)
    requires AllBytes(m) && k <= n && i + n <= |m|
    ensures m[i..i + n] == Bytes(m, i, k) + Bytes(m, i + k, n - k)
    ensures AllBytes(Bytes(m, i, k)) && AllBytes(Bytes(m, i + k, n - k))
  {
    SliceIsBytes(m, i, k);
    SliceIsBytes(m, i + k, n - k);
    assert m[i..i + n] == m[i..i + k] + m[i + k..i + n];
  }

  lemma EncodeProcessor(m: seq<nat>, i: nat, e: Entry)
    requires AllBytes(m) && DecodeAt(m, i) == Some(e) && i + 20 <= |m| && e.Processor?
    ensures Fits(e) && m[i..i + 20] == Encode(e)
  {
    HeadAndTail(m, i, 20, 4);
    assert Bytes(m, i, 4) == [0, e.apicId, e.apicVer, e.cpuFlag];
  }

  lemma EncodeBus(m: seq<nat>, i: nat, e: Entry)
    requires AllBytes(m) && DecodeAt(m, i) == Some(e) && i + 8 <= |m| && e.Bus?
    ensures Fits(e) && m[i..i + 8] == Encode(e)
  {
    HeadAndTail(m, i, 8, 2);
    assert Bytes(m, i, 2) == [1, e.busId];
  }

  lemma EncodeInterrupt(m: seq<nat>, i: nat, e: Entry)
    requires AllBytes(m) && DecodeAt(m, i) == Some(e) && i + 8 <= |m| && (e.IntSrc? || e.LintSrc?)
    ensures Fits(e) && m[i..i + 8] == Encode(e)
  {
    SliceIsBytes(m, i, 8);
    LowByte(Byte(m, i + 2), Byte(m, i + 3));
    var b, c := Bytes(m, i, 8), Encode(e);
    assert b[0] == Byte(m, i) == c[0] && b[1] == Byte(m, i + 1) == c[1];
    assert b[2] == Byte(m, i + 2) == c[2] && b[3] == Byte(m, i + 3) == c[3];
    assert b[4] == Byte(m, i + 4) == c[4] && b[5] == Byte(m, i + 5) == c[5];
    assert b[6] == Byte(m, i + 6) == c[6] && b[7] == Byte(m, i + 7) == c[7];
    assert b == c;
  }

  /** In memory of bytes a decoded entry encodes to the bytes it was read from. */
  lemma EncodeDecoded(m: seq<nat>, i: nat, e: Entry)
    requires AllBytes(m) && DecodeAt(m, i) == Some(e) && i + SizeOf(e) <= |m|
    ensures Fits(e) && m[i..i + SizeOf(e)] == Encode(e)
  {
    if e.Processor? {
      EncodeProcessor(m, i, e);
    } else if e.Bus? {
      EncodeBus(m, i, e);
    } else if e.IoApic? {
      SliceIsBytes(m, i, 8);
      Word32Bytes(m, i + 4);
      assert Bytes(m, i, 8) == Encode(e);
    } else {
      EncodeInterrupt(m, i, e);
    }
  }

  lemma LowByte(low: nat, high: nat)
    requires low < 256
    ensures (low + 0x100 * high) % 256 == low && (low + 0x100 * high) / 256 == high
  {
  }

  lemma Word32Bytes(m: seq<nat>, i: nat)
    ensures var w := Word32(m, i);
            && w < 0x1_0000_0000 && w % 256 == Byte(m, i) && w / 256 % 256 == Byte(m, i + 1)
            && w / 0x1_0000 % 256 == Byte(m, i + 2) && w / 0x100_0000 == Byte(m, i + 3)
  {
    var w, b, c, d := Word32(m, i), Byte(m, i + 1), Byte(m, i + 2), Byte(m, i + 3);
    assert w == Byte(m, i) + 0x100 * (b + 0x100 * (c + 0x100 * d));
    LowByte(Byte(m, i), b + 0x100 * (c + 0x100 * d));
    LowByte(b, c + 0x100 * d);
    LowByte(c, d);
    assert w / 0x1_0000 == w / 256 / 256 && w / 0x100_0000 == w / 256 / 256 / 256;
  }

  lemma {:induction false} ParsedBytes(m: seq<nat>, length: nat, count: nat)
    requires AllBytes(m) && count <= length <= |m| && EndOf(m, length, count) == length
    ensures HoldsEntries(m, count, length, EntriesAt(m, length, count))
    decreases length - count
  {
    if count < length {
      var e := DecodeAt(m, count).value;
      var next := count + SizeOf(e);
      var es := EntriesAt(m, length, count);
      assert EndOf(m, length, next) == length;
      EncodeDecoded(m, count, e);
      ParsedBytes(m, length, next);
      assert es[0] == e && es[1..] == EntriesAt(m, length, next);
      assert EncodeAll(es) == Encode(e) + EncodeAll(es[1..]);
      assert m[count..length] == m[count..next] + m[next..length];
    }
  }

  lemma ParseStep(m: seq<nat>, length: nat, count: nat, e: Entry)
    requires count < length && DecodeAt(m, count) == Some(e)
    ensures EntriesAt(m, length, count) == [e] + EntriesAt(m, length, count + SizeOf(e))
    ensures EndOf(m, length, count) == EndOf(m, length, count + SizeOf(e))
  {
  }

  lemma {:induction false} HeldAreParsed(m: seq<nat>, length: nat, count: nat, es: seq<Entry>)
    requires HoldsEntries(m, count, length, es)
    ensures EntriesAt(m, length, count) == es && EndOf(m, length, count) == length
    decreases |es|
  {
    if es != [] {
      FirstEntry(m, count, length, es);
      ParseStep(m, length, count, es[0]);
      HeldAreParsed(m, length, count + SizeOf(es[0]), es[1..]);
      assert es == [es[0]] + es[1..];
    } else {
      assert count == length;
    }
  }

  /** The walk ends exactly at the table's length if and only if the table's bytes are a sequence of
      entries that does not fill the interrupt table. */
  lemma DoneAtLengthIff(m: seq<nat>, length: nat, count: nat, s: Mp)
    requires AllBytes(m) && count <= length <= |m|
    ensures var w := WalkFrom(m, length, count, s);
            w.Done? && w.count == length <==> exists es :: HoldsEntries(m, count, length, es) && !Halted(ApplyAll(s, es))
  {
    WalkIsParse(m, length, count, s);
    var w := WalkFrom(m, length, count, s);
    if w.Done? && w.count == length {
      ParsedBytes(m, length, count);
    }
    if es :| HoldsEntries(m, count, length, es) && !Halted(ApplyAll(s, es)) {
      HeldAreParsed(m, length, count, es);
    }
  }

  // ---------------------------------------------------------------- processors

  /** The entries the CPU tables take: enabled processors, at most NR_CPUS. */
  function EnabledCpus(es: seq<Entry>): seq<Entry> {
    if es == [] then []
    else if es[0].Processor? && es[0].cpuFlag % 2 == 1 then [es[0]] + EnabledCpus(es[1..])
    else EnabledCpus(es[1..])
  }

  function Accepted(es: seq<Entry>): seq<Entry> {
    var all := EnabledCpus(es);
    if |all| > 2 then all[..2] else all
  }

  /** The CPU tables after an entry depend on the CPU tables before it only. */
  datatype CpuTables = CpuTables(num: nat, present: nat, ids: seq<nat>)

  function CpusOf(s: Mp): CpuTables {
    CpuTables(s.numProcessors, s.cpuPresentMap, s.apicIds)
  }

  function Register(t: CpuTables, e: Entry): CpuTables
    requires e.Processor?
  {
    if t.num >= NR_CPUS then t
    else
      var cpu := if IsBsp(e.cpuFlag) then 0 else Ffz(t.present);
      CpuTables(t.num + 1, SetBit(t.present, cpu), if cpu < |t.ids| then t.ids[cpu := e.apicId] else t.ids)
  }

  predicate AllProcessors(cpus: seq<Entry>) {
    forall k | 0 <= k < |cpus| :: cpus[k].Processor?
  }

  function RegisterAll(t: CpuTables, cpus: seq<Entry>): CpuTables
    requires AllProcessors(cpus)
  {
    if cpus == [] then t else Register(RegisterAll(t, cpus[..|cpus| - 1]), cpus[|cpus| - 1])
  }

  lemma {:induction false} EnabledAreProcessors(es: seq<Entry>)
    ensures AllProcessors(EnabledCpus(es))
  {
    if es != [] {
      EnabledAreProcessors(es[1..]);
    }
  }

  lemma {:induction false} RegisterFirst(t: CpuTables, cpus: seq<Entry>)
    requires cpus != [] && AllProcessors(cpus)
    ensures RegisterAll(t, cpus) == RegisterAll(Register(t, cpus[0]), cpus[1..])
  {
    if |cpus| > 1 {
      RegisterFirst(t, cpus[..|cpus| - 1]);
      assert cpus[..|cpus| - 1][1..] == cpus[1..][..|cpus| - 2];
    } else {
      assert RegisterAll(t, cpus[..0]) == t;
    }
  }

  lemma OneEntryCpus(s: Mp, e: Entry)
    ensures CpusOf(Apply(s, e)) == if e.Processor? && Enabled(e.cpuFlag) then Register(CpusOf(s), e) else CpusOf(s)
  {
  }

  lemma EnabledFirst(es: seq<Entry>)
    requires es != [] && es[0].Processor? && Enabled(es[0].cpuFlag)
    ensures EnabledCpus(es) != [] && EnabledCpus(es)[0] == es[0] && EnabledCpus(es)[1..] == EnabledCpus(es[1..])
  {
  }

  /** The walk fills the CPU tables from the enabled processors alone. */
  lemma {:induction false} CpusFromEnabled(s: Mp, es: seq<Entry>)
    requires !Halted(ApplyAll(s, es))
    ensures AllProcessors(EnabledCpus(es)) && CpusOf(ApplyAll(s, es)) == RegisterAll(CpusOf(s), EnabledCpus(es))
    decreases |es|
  {
    EnabledAreProcessors(es);
    if es != [] && !Halted(s) {
      OneEntryCpus(s, es[0]);
      CpusFromEnabled(Apply(s, es[0]), es[1..]);
      if es[0].Processor? && Enabled(es[0].cpuFlag) {
        EnabledFirst(es);
        RegisterFirst(CpusOf(s), EnabledCpus(es));
      }
    }
  }

  /** Processors that do not carry the bootstrap flag. */
  function Plain(cpus: seq<Entry>): (n: nat)
    requires AllProcessors(cpus)
    ensures n <= |cpus|
  {
    if cpus == [] then 0 else Plain(cpus[..|cpus| - 1]) + (if IsBsp(cpus[|cpus| - 1].cpuFlag) then 0 else 1)
  }

  ghost predicate NoBsp(cpus: seq<Entry>)
    requires AllProcessors(cpus)
  {
    forall k | 0 <= k < |cpus| :: cpus[k].cpuFlag / 2 % 2 == 0
  }

  lemma {:induction false} PlainIffNoBsp(cpus: seq<Entry>)
    requires AllProcessors(cpus)
    ensures Plain(cpus) == |cpus| <==> NoBsp(cpus)
  {
    if cpus != [] {
      PlainIffNoBsp(cpus[..|cpus| - 1]);
    }
  }

  /** From tables with j low ones, each plain processor adds one bit, each flagged one none. */
  lemma {:induction false} RegisterBits(t: CpuTables, cpus: seq<Entry>, j: nat)
    requires AllProcessors(cpus) && t.num + |cpus| <= NR_CPUS && j >= 1 && t.present == Pow2(j) - 1
    ensures RegisterAll(t, cpus).num == t.num + |cpus|
    ensures RegisterAll(t, cpus).present == Pow2(j + Plain(cpus)) - 1
  {
    if cpus != [] {
      var h := cpus[..|cpus| - 1];
      RegisterBits(t, h, j);
      FfzOfLowOnes(j + Plain(h));
      LowBit(j + Plain(h));
    }
  }

  /** As long as no flagged processor follows, processor i gets index i. */
  lemma {:induction false} RegisterInOrder(t: CpuTables, cpus: seq<Entry>)
    requires AllProcessors(cpus) && NoBsp(cpus) && 1 <= t.num && t.num + |cpus| <= NR_CPUS == |t.ids| && t.present == Pow2(t.num) - 1
    ensures |RegisterAll(t, cpus).ids| == NR_CPUS
    ensures forall k | 0 <= k < t.num :: RegisterAll(t, cpus).ids[k] == t.ids[k]
    ensures forall k | 0 <= k < |cpus| :: RegisterAll(t, cpus).ids[t.num + k] == cpus[k].apicId
  {
    if cpus != [] {
      var h := cpus[..|cpus| - 1];
      RegisterInOrder(t, h);
      RegisterBits(t, h, t.num);
      PlainIffNoBsp(h);
      FfzOfLowOnes(t.num + |h|);
    }
  }

  lemma {:induction false} FullTablesStay(t: CpuTables, cpus: seq<Entry>)
    requires AllProcessors(cpus) && t.num >= NR_CPUS
    ensures RegisterAll(t, cpus) == t
  {
    if cpus != [] {
      FullTablesStay(t, cpus[..|cpus| - 1]);
    }
  }

  lemma {:induction false} RegisterAppend(t: CpuTables, a: seq<Entry>, b: seq<Entry>)
    requires AllProcessors(a + b) && AllProcessors(a) && AllProcessors(b)
    ensures RegisterAll(t, a + b) == RegisterAll(RegisterAll(t, a), b)
  {
    if b == [] {
      assert a + b == a;
    } else {
      assert (a + b)[..|a + b| - 1] == a + b[..|b| - 1];
      RegisterAppend(t, a, b[..|b| - 1]);
    }
  }

  lemma Pow2Injective(a: nat, b: nat)
    requires a < b
    ensures Pow2(a) < Pow2(b)
  {
    Pow2Monotone(a + 1, b);
  }

  /** The CPU tables for a list of accepted processors, from empty ones: the first gets index 0 in any
      case; the map has as many bits as there are processors exactly when none of the others carries
      the bootstrap flag, and then the table lists them in order. */
  lemma AcceptedTables(ids: seq<nat>, cpus: seq<Entry>)
    requires AllProcessors(cpus) && |cpus| <= NR_CPUS == |ids|
    ensures var t := RegisterAll(CpuTables(0, 0, ids), cpus);
            && t.num == |cpus|
            && (t.present == Pow2(t.num) - 1 <==> (cpus == [] || NoBsp(cpus[1..])))
            && (cpus == [] || NoBsp(cpus[1..]) ==> |t.ids| == NR_CPUS && forall k | 0 <= k < |cpus| :: t.ids[k] == cpus[k].apicId)
  {
    if cpus != [] {
      var t0 := CpuTables(0, 0, ids);
      var t1 := Register(t0, cpus[0]);
      LowBit(0);
      assert Pow2(0) == 1 && Pow2(1) == 2;
      RegisterFirst(t0, cpus);
      RegisterBits(t1, cpus[1..], 1);
      PlainIffNoBsp(cpus[1..]);
      if Plain(cpus[1..]) < |cpus| - 1 {
        Pow2Injective(1 + Plain(cpus[1..]), |cpus|);
      }
      if NoBsp(cpus[1..]) {
        RegisterInOrder(t1, cpus[1..]);
      }
    }
  }

  /** smp_read_mpc on cleared variables and a table that does not overflow: the number of processors is
      that of the enabled ones, cut at NR_CPUS; cpu_present_map is 2^num - 1, and the APIC table lists
      them in order, exactly when no accepted processor but the first carries the bootstrap flag. */
  lemma CpuTablesAfterWalk(s: Mp, es: seq<Entry>)
    requires s.numProcessors == 0 && s.cpuPresentMap == 0 && |s.apicIds| == NR_CPUS && !Halted(ApplyAll(s, es))
    ensures var s', cpus := ApplyAll(s, es), Accepted(es);
            && AllProcessors(cpus)
            && s'.numProcessors == |cpus|
            && (s'.cpuPresentMap == Pow2(s'.numProcessors) - 1 <==> (cpus == [] || NoBsp(cpus[1..])))
            && (cpus == [] || NoBsp(cpus[1..]) ==>
                  |s'.apicIds| == NR_CPUS && forall k | 0 <= k < |cpus| :: s'.apicIds[k] == cpus[k].apicId)
  {
    var all, cpus := EnabledCpus(es), Accepted(es);
    CpusFromEnabled(s, es);
    AcceptedTables(s.apicIds, cpus);
    if |all| > NR_CPUS {
      var rest := all[NR_CPUS..];
      assert all == cpus + rest;
      RegisterAppend(CpusOf(s), cpus, rest);
      FullTablesStay(RegisterAll(CpusOf(s), cpus), rest);
    }
  }

  // ---------------------------------------------------------------- interrupt sources and I/O APICs

  function IntSources(es: seq<Entry>): seq<Entry> {
    if es == [] then [] else (if es[0].IntSrc? then [es[0]] else []) + IntSources(es[1..])
  }

  /** The walk halts exactly when the table has as many interrupt sources as mp_irqs has places left;
      otherwise they are all recorded, in order. */
  lemma {:induction false} InterruptTable(s: Mp, es: seq<Entry>)
    requires |s.irqs| == 1024 && s.irqEntries < 1024
    ensures var s', more := ApplyAll(s, es), IntSources(es);
            && (Halted(s') <==> s.irqEntries + |more| >= 1024)
            && |s'.irqs| == 1024
            && (!Halted(s') ==> s'.irqEntries == s.irqEntries + |more| && s'.irqs[..s'.irqEntries] == s.irqs[..s.irqEntries] + more)
    decreases |es|
  {
    if es == [] {
      assert s.irqs[..s.irqEntries] + [] == s.irqs[..s.irqEntries];
    } else {
      var s1, rest := Apply(s, es[0]), IntSources(es[1..]);
      OneEntryIrq(s, es[0]);
      if !Halted(s1) {
        InterruptTable(s1, es[1..]);
        if es[0].IntSrc? {
          assert s.irqs[..s.irqEntries] + [es[0]] + rest == s.irqs[..s.irqEntries] + ([es[0]] + rest);
        }
      }
    }
  }

  lemma OneEntryIrq(s: Mp, e: Entry)
    requires |s.irqs| == 1024 && s.irqEntries < 1024
    ensures var s' := Apply(s, e);
            && |s'.irqs| == 1024
            && s'.irqEntries == (if e.IntSrc? then s.irqEntries + 1 else s.irqEntries)
            && s'.irqs[..s'.irqEntries] == if e.IntSrc? then s.irqs[..s.irqEntries] + [e] else s.irqs[..s.irqEntries]
  {
  }

  function UsableIoApics(es: seq<Entry>): seq<Entry> {
    if es == [] then [] else (if es[0].IoApic? && es[0].ioFlags % 2 == 1 && es[0].ioAddr != 0 then [es[0]] else []) + UsableIoApics(es[1..])
  }

  lemma OneEntryIoApic(s: Mp, e: Entry)
    requires |s.ioApics| == 2 && s.nrIoApics <= 2
    ensures var s' := Apply(s, e);
            && |s'.ioApics| == 2 && s'.nrIoApics <= 2
            && s'.ioApics[..s'.nrIoApics] ==
               if UsableIoApics([e]) != [] && s.nrIoApics < 2 then s.ioApics[..s.nrIoApics] + [e] else s.ioApics[..s.nrIoApics]
  {
  }

  function FirstTwo(es: seq<Entry>): seq<Entry> {
    if |es| <= 2 then es else es[..2]
  }

  lemma FirstTwoGoOn(got: seq<Entry>, e: Entry, rest: seq<Entry>)
    requires |got| <= 2
    ensures FirstTwo((if |got| < 2 then got + [e] else got) + rest) == FirstTwo(got + ([e] + rest))
  {
    if |got| < 2 {
      assert got + [e] + rest == got + ([e] + rest);
    }
  }

  lemma {:induction false} IoApicsGoOn(s: Mp, es: seq<Entry>)
    requires |s.ioApics| == 2 && s.nrIoApics <= 2 && !Halted(ApplyAll(s, es))
    ensures var s' := ApplyAll(s, es);
            && |s'.ioApics| == 2 && s'.nrIoApics <= 2
            && s'.ioApics[..s'.nrIoApics] == FirstTwo(s.ioApics[..s.nrIoApics] + UsableIoApics(es))
    decreases |es|
  {
    if es == [] {
      assert s.ioApics[..s.nrIoApics] + [] == s.ioApics[..s.nrIoApics];
    } else if !Halted(s) {
      var s1, rest := Apply(s, es[0]), UsableIoApics(es[1..]);
      OneEntryIoApic(s, es[0]);
      IoApicsGoOn(s1, es[1..]);
      FirstTwoGoOn(s.ioApics[..s.nrIoApics], es[0], rest);
      UsableUnfold(es);
    }
  }

  lemma UsableUnfold(es: seq<Entry>)
    requires es != []
    ensures UsableIoApics(es) == UsableIoApics([es[0]]) + UsableIoApics(es[1..])
    ensures UsableIoApics([es[0]]) == [] || UsableIoApics([es[0]]) == [es[0]]
    ensures UsableIoApics([es[0]]) == [] ==> UsableIoApics(es) == UsableIoApics(es[1..])
  {
    assert [es[0]][1..] == [];
  }

  /** The I/O APIC table holds the first two usable ones: those with bit 0 set and an address. */
  lemma IoApicTable(s: Mp, es: seq<Entry>)
    requires |s.ioApics| == 2 && s.nrIoApics <= 2 && !Halted(ApplyAll(s, es))
    ensures var s', all := ApplyAll(s, es), s.ioApics[..s.nrIoApics] + UsableIoApics(es);
            && |s'.ioApics| == 2 && s'.nrIoApics == (if |all| < 2 then |all| else 2)
            && s'.ioApics[..s'.nrIoApics] == all[..s'.nrIoApics]
  {
    IoApicsGoOn(s, es);
  }

  // ---------------------------------------------------------------- busses

  /** A bus entry whose type begins with "ISA". */
  predicate IsaBus(e: Entry) {
    e.Bus? && |e.busType| == 6 && e.busType[0] == 0x49 && e.busType[1] == 0x53 && e.busType[2] == 0x41
  }

  /** With "PCI". */
  predicate PciBus(e: Entry) {
    e.Bus? && |e.busType| == 6 && e.busType[0] == 0x50 && e.busType[1] == 0x43 && e.busType[2] == 0x49
  }

  function PciCount(es: seq<Entry>): nat {
    if es == [] then 0 else (if PciBus(es[0]) then 1 else 0) + PciCount(es[1..])
  }

  /** A bus id is one byte. */
  ghost predicate ByteIds(es: seq<Entry>) {
    forall j | 0 <= j < |es| && es[j].Bus? :: es[j].busId < 256
  }

  predicate BusSized(s: Mp) {
    |s.busNotPci| == 256 && |s.busToPci| == 256
  }

  lemma OneEntryBus(s: Mp, e: Entry, id: nat)
    requires BusSized(s) && id < 256 && (e.Bus? ==> e.busId < 256)
    ensures var s' := Apply(s, e);
            && BusSized(s')
            && s'.currentPciId == s.currentPciId + (if PciBus(e) then 1 else 0)
            && s'.busNotPci[id] == (if IsaBus(e) && e.busId == id then true else if PciBus(e) && e.busId == id then false else s.busNotPci[id])
            && s'.busToPci[id] == (if PciBus(e) && e.busId == id then s.currentPciId else s.busToPci[id])
  {
    if e.Bus? && |e.busType| == 6 {
      NameIs(e.busType, 0x49, 0x53, 0x41);
      NameIs(e.busType, 0x50, 0x43, 0x49);
    }
  }

  lemma NameIs(kind: seq<nat>, a: nat, b: nat, c: nat)
    requires |kind| == 6
    ensures kind[..3] == [a, b, c] <==> kind[0] == a && kind[1] == b && kind[2] == c
  {
    assert kind[..3] == [kind[0], kind[1], kind[2]];
  }

  /** Without an ISA or PCI entry for the id the two tables keep its values. */
  lemma {:induction false} BusKept(s: Mp, es: seq<Entry>, id: nat)
    requires BusSized(s) && id < 256 && !Halted(ApplyAll(s, es)) && ByteIds(es)
    ensures var s' := ApplyAll(s, es);
            && BusSized(s')
            && ((forall j | 0 <= j < |es| && es[j].Bus? && es[j].busId == id :: !IsaBus(es[j]) && !PciBus(es[j])) ==>
                  s'.busNotPci[id] == s.busNotPci[id])
            && ((forall j | 0 <= j < |es| && es[j].Bus? && es[j].busId == id :: !PciBus(es[j])) ==> s'.busToPci[id] == s.busToPci[id])
    decreases |es|
  {
    if es != [] && !Halted(s) {
      OneEntryBus(s, es[0], id);
      BusKept(Apply(s, es[0]), es[1..], id);
    }
  }

  /** mp_current_pci_id counts the PCI entries. */
  lemma {:induction false} PciIdCounts(s: Mp, es: seq<Entry>)
    requires BusSized(s) && !Halted(ApplyAll(s, es)) && ByteIds(es)
    ensures ApplyAll(s, es).currentPciId == s.currentPciId + PciCount(es)
    decreases |es|
  {
    if es != [] && !Halted(s) {
      OneEntryBus(s, es[0], 0);
      PciIdCounts(Apply(s, es[0]), es[1..]);
    }
  }

  /** Entry k is the last ISA or PCI entry for its id. */
  ghost predicate LastBus(es: seq<Entry>, k: nat) {
    && k < |es| && (IsaBus(es[k]) || PciBus(es[k]))
    && forall j | k < j < |es| && es[j].Bus? && es[j].busId == es[k].busId :: !IsaBus(es[j]) && !PciBus(es[j])
  }

  lemma {:induction false} LastBusDecides(s: Mp, es: seq<Entry>, k: nat)
    requires BusSized(s) && !Halted(ApplyAll(s, es)) && LastBus(es, k) && ByteIds(es)
    ensures es[k].busId < 256 && BusSized(ApplyAll(s, es)) && ApplyAll(s, es).busNotPci[es[k].busId] == IsaBus(es[k])
    decreases |es|
  {
    assert !Halted(s);
    OneEntryBus(s, es[0], es[k].busId);
    if k == 0 {
      BusKept(Apply(s, es[0]), es[1..], es[0].busId);
    } else {
      LastBusDecides(Apply(s, es[0]), es[1..], k - 1);
    }
  }

  /** Entry k is the last PCI entry for its id. */
  ghost predicate LastPci(es: seq<Entry>, k: nat) {
    k < |es| && PciBus(es[k]) && forall j | k < j < |es| && es[j].Bus? && es[j].busId == es[k].busId :: !PciBus(es[j])
  }

  lemma {:induction false} LastPciDecides(s: Mp, es: seq<Entry>, k: nat)
    requires BusSized(s) && !Halted(ApplyAll(s, es)) && LastPci(es, k) && ByteIds(es)
    ensures es[k].busId < 256 && BusSized(ApplyAll(s, es)) && ApplyAll(s, es).busToPci[es[k].busId] == s.currentPciId + PciCount(es[..k])
    decreases |es|
  {
    assert !Halted(s);
    OneEntryBus(s, es[0], es[k].busId);
    if k == 0 {
      BusKept(Apply(s, es[0]), es[1..], es[0].busId);
    } else {
      LastPciDecides(Apply(s, es[0]), es[1..], k - 1);
      assert es[..k][1..] == es[1..][..k - 1];
    }
  }

  /** The bus tables after the walk over any entries that do not fill the interrupt table. For each id, the
      last ISA or PCI entry decides mp_bus_not_pci, and the last PCI entry gets as its number the start
      value and the PCI entries before it; ids without such an entry keep their values. */
  lemma BusTable(s: Mp, es: seq<Entry>, id: nat)
    requires BusSized(s) && id < 256 && !Halted(ApplyAll(s, es)) && ByteIds(es)
    ensures var s' := ApplyAll(s, es);
            && BusSized(s')
            && s'.currentPciId == s.currentPciId + PciCount(es)
            && (forall k: nat | LastBus(es, k) && es[k].busId == id :: s'.busNotPci[id] == IsaBus(es[k]))
            && (forall k: nat | LastPci(es, k) && es[k].busId == id :: s'.busToPci[id] == s.currentPciId + PciCount(es[..k]))
            && ((forall j | 0 <= j < |es| && es[j].Bus? && es[j].busId == id :: !IsaBus(es[j]) && !PciBus(es[j])) ==>
                  s'.busNotPci[id] == s.busNotPci[id])
            && ((forall j | 0 <= j < |es| && es[j].Bus? && es[j].busId == id :: !PciBus(es[j])) ==> s'.busToPci[id] == s.busToPci[id])
  {
    PciIdCounts(s, es);
    BusKept(s, es, id);
    forall k: nat | LastBus(es, k) && es[k].busId == id
      ensures ApplyAll(s, es).busNotPci[id] == IsaBus(es[k])
    {
      LastBusDecides(s, es, k);
    }
    forall k: nat | LastPci(es, k) && es[k].busId == id
      ensures ApplyAll(s, es).busToPci[id] == s.currentPciId + PciCount(es[..k])
    {
      LastPciDecides(s, es, k);
    }
  }

  // ---------------------------------------------------------------- boot processor and disabled processors

  function DisabledCount(es: seq<Entry>): nat {
    if es == [] then 0 else (if es[0].Processor? && es[0].cpuFlag % 2 == 0 then 1 else 0) + DisabledCount(es[1..])
  }

  /** The flag byte of an enabled bootstrap processor: bits 0 and 1. */
  predicate BootProcessor(e: Entry) {
    e.Processor? && e.cpuFlag % 4 == 3
  }

  lemma OneEntryBoot(s: Mp, e: Entry)
    ensures Apply(s, e).bootCpuId == if BootProcessor(e) then e.apicId else s.bootCpuId
    ensures Apply(s, e).disabledCpus == s.disabledCpus + if e.Processor? && e.cpuFlag % 2 == 0 then 1 else 0
  {
    if e.Processor? {
      assert e.cpuFlag % 4 == 3 <==> e.cpuFlag % 2 == 1 && e.cpuFlag / 2 % 2 == 1;
    }
  }

  /** disabled_cpus counts the disabled processors; boot_cpu_id is the APIC id of the last enabled processor
      with the bootstrap flag, even of one that no longer gets an index, or unchanged. */
  lemma {:induction false} BootAndDisabled(s: Mp, es: seq<Entry>)
    requires !Halted(ApplyAll(s, es))
    ensures ApplyAll(s, es).disabledCpus == s.disabledCpus + DisabledCount(es)
    ensures (forall j | 0 <= j < |es| :: !BootProcessor(es[j])) ==> ApplyAll(s, es).bootCpuId == s.bootCpuId
    ensures forall k | 0 <= k < |es| && BootProcessor(es[k]) && (forall j | k < j < |es| :: !BootProcessor(es[j])) ::
              ApplyAll(s, es).bootCpuId == es[k].apicId
    decreases |es|
  {
    if es != [] && !Halted(s) {
      OneEntryBoot(s, es[0]);
      BootAndDisabled(Apply(s, es[0]), es[1..]);
      var rest := es[1..];
      forall k | 0 <= k < |es| && BootProcessor(es[k]) && forall j | k < j < |es| :: !BootProcessor(es[j])
        ensures ApplyAll(s, es).bootCpuId == es[k].apicId
      {
        forall j | 0 <= j < |rest| && k < j + 1
          ensures !BootProcessor(rest[j])
        {
          assert rest[j] == es[j + 1];
        }
        if k > 0 {
          assert rest[k - 1] == es[k];
        }
      }
    }
  }

  // ---------------------------------------------------------------- the code

  /** How smp_read_mpc ends: the table refused, or the walk's end. */
  datatype Reading = Refused | Accepting(walked: Walked)

  const SIGNATURE: seq<nat> := ['P' as nat, 'C' as nat, 'M' as nat, 'P' as nat]

  /** The three checks of the header. */
  predicate GoodHeader(m: seq<nat>) {
    Bytes(m, 0, 4) == SIGNATURE && (Byte(m, 6) == 1 || Byte(m, 6) == 4) && Word32(m, 36) != 0
  }

  function ReadMpc(m: seq<nat>, s: Mp): Reading {
    if !GoodHeader(m) then Refused
    else Accepting(WalkFrom(m, Word16(m, 4), HEADER_SIZE, s.(lapicAddr := Word32(m, 36))))
  }

  /** What the header must say, byte by byte, and where the walk starts: "PCMP", specification 1 or 4, and a
      local APIC address; the length is in bytes 4 and 5, the entries begin at byte 44. */
  lemma HeaderBytes(m: seq<nat>, s: Mp)
    ensures ReadMpc(m, s).Refused? <==>
            !(&& Byte(m, 0) == 0x50 && Byte(m, 1) == 0x43 && Byte(m, 2) == 0x4D && Byte(m, 3) == 0x50
              && (Byte(m, 6) == 1 || Byte(m, 6) == 4)
              && (Byte(m, 36) != 0 || Byte(m, 37) != 0 || Byte(m, 38) != 0 || Byte(m, 39) != 0))
    ensures ReadMpc(m, s).Accepting? ==>
            var apic := Byte(m, 36) + 0x100 * Byte(m, 37) + 0x1_0000 * Byte(m, 38) + 0x100_0000 * Byte(m, 39);
            ReadMpc(m, s) == Accepting(WalkFrom(m, Byte(m, 4) + 0x100 * Byte(m, 5), 44, s.(lapicAddr := apic)))
  {
    var b := Bytes(m, 0, 4);
    assert b == [Byte(m, 0), Byte(m, 1), Byte(m, 2), Byte(m, 3)];
  }

  /** A table of whole entries behind a good header is read as the fold over them. */
  lemma ReadsTable(m: seq<nat>, s: Mp, es: seq<Entry>)
    requires ReadMpc(m, s).Accepting? && HoldsEntries(m, 44, Byte(m, 4) + 0x100 * Byte(m, 5), es)
    ensures var s' := ApplyAll(s.(lapicAddr := Word32(m, 36)), es);
            ReadMpc(m, s) == Accepting(if Halted(s') then Stopped(s') else Done(Byte(m, 4) + 0x100 * Byte(m, 5), s'))
  {
    WalkIsFold(m, Byte(m, 4) + 0x100 * Byte(m, 5), 44, s.(lapicAddr := Word32(m, 36)), es);
  }

  /** Where the fields of an entry lie (section 4.3): a processor's APIC id and flags in bytes 1 and 3, a bus
      id in byte 1 and its name from byte 2, an I/O APIC's flags in byte 3 and its address from byte 4. */
  lemma EntryBytes(m: seq<nat>, i: nat)
    ensures Byte(m, i) == 0 ==>
              DecodeAt(m, i).Some? && var e := DecodeAt(m, i).value; e.Processor? && e.apicId == Byte(m, i + 1) && e.cpuFlag == Byte(m, i + 3)
    ensures Byte(m, i) == 1 ==>
              && DecodeAt(m, i).Some?
              && var e := DecodeAt(m, i).value;
                 e.Bus? && e.busId == Byte(m, i + 1) && |e.busType| == 6 && forall k: nat | k < 6 :: e.busType[k] == Byte(m, i + 2 + k)
    ensures Byte(m, i) == 2 ==>
              && DecodeAt(m, i).Some?
              && var e := DecodeAt(m, i).value;
                 e.IoApic? && e.ioApicId == Byte(m, i + 1) && e.ioFlags == Byte(m, i + 3)
                 && e.ioAddr == Byte(m, i + 4) + 0x100 * Byte(m, i + 5) + 0x1_0000 * Byte(m, i + 6) + 0x100_0000 * Byte(m, i + 7)
    ensures DecodeAt(m, i).None? <==> Byte(m, i) > 4
  {
  }

  /** The global variables, updated in place. */
  class MpTables {
    var lapicAddr: nat
    var disabledCpus: nat
    var bootCpuId: nat
    var numProcessors: nat
    var cpuPresentMap: nat
    const apicIds: array<nat>
    const busNotPci: array<bool>
    const busToPci: array<int>
    var currentPciId: nat
    var nrIoApics: nat
    const ioApics: array<Entry>
    var irqEntries: nat
    const irqs: array<Entry>

    /** mp_spec_init's clearing of the counters, on tables of the fixed sizes. */
    constructor (apicIds: array<nat>, busNotPci: array<bool>, busToPci: array<int>, ioApics: array<Entry>, irqs: array<Entry>)
      requires apicIds.Length == NR_CPUS && busNotPci.Length == MAX_MP_BUSSES && busToPci.Length == MAX_MP_BUSSES
      requires ioApics.Length == MAX_IO_APICS && irqs.Length == MAX_IRQ_SOURCES && ioApics != irqs
      ensures this.apicIds == apicIds && this.busNotPci == busNotPci && this.busToPci == busToPci && this.ioApics == ioApics && this.irqs == irqs
      ensures Valid() && numProcessors == 0 && cpuPresentMap == 0 && irqEntries == 0 && nrIoApics == 0
    {
      lapicAddr, disabledCpus, bootCpuId, numProcessors, cpuPresentMap, currentPciId, nrIoApics, irqEntries := 0, 0, 0, 0, 0, 0, 0, 0;
      this.apicIds, this.busNotPci, this.busToPci, this.ioApics, this.irqs := apicIds, busNotPci, busToPci, ioApics, irqs;
      new;
      assert Pow2(0) == 1;
      assert LowOnes(View(), 0);
    }

    ghost function Parts(): set<object> {
      {apicIds as object, busNotPci as object, busToPci as object, ioApics, irqs}
    }

    function View(): Mp
      reads this, Parts()
    {
      Mp(lapicAddr, disabledCpus, bootCpuId, numProcessors, cpuPresentMap, apicIds[..],
         busNotPci[..], busToPci[..], currentPciId, nrIoApics, ioApics[..], irqEntries, irqs[..])
    }

    ghost predicate Valid()
      reads this, Parts()
    {
      ioApics != irqs && Sized(View())
    }

    /** The CPU index of a new processor is inside its table. */
    static lemma CpuIndexInTable(s: Mp)
      requires Sized(s) && s.numProcessors < NR_CPUS
      ensures Ffz(s.cpuPresentMap) < NR_CPUS
    {
      var j: nat :| LowOnes(s, j);
      FfzOfLowOnes(j);
    }

    /** MP_processor_info */
    method MpProcessorInfo(apicId: nat, flag: nat)
      requires Valid()
      modifies this, apicIds
      ensures View() == ProcessorInfo(old(View()), apicId, flag)
    {
      if flag % 2 == 0 {
        disabledCpus := disabledCpus + 1;
        return;
      }
      ghost var s := View();
      if IsBsp(flag) {
        bootCpuId := apicId;
      }
      if numProcessors >= NR_CPUS {
        return;
      }
      CpuIndexInTable(s);
      numProcessors := numProcessors + 1;
      var cpu := Ffz(cpuPresentMap);
      if IsBsp(flag) {
        cpu := 0;
      }
      apicIds[cpu] := apicId;
      cpuPresentMap := SetBit(cpuPresentMap, cpu);
    }

    /** MP_bus_info */
    method MpBusInfo(id: nat, kind: seq<nat>)
      requires Valid() && id < MAX_MP_BUSSES && |kind| == 6
      modifies this, busNotPci, busToPci
      ensures View() == BusInfo(old(View()), id, kind)
    {
      if kind[..3] == ISA {
        busNotPci[id] := true;
      } else if kind[..3] == PCI {
        busNotPci[id] := false;
        busToPci[id] := currentPciId;
        currentPciId := currentPciId + 1;
      }
    }

    /** MP_ioapic_info */
    method MpIoApicInfo(e: Entry)
      requires Valid() && e.IoApic?
      modifies this, ioApics
      ensures View() == IoApicInfo(old(View()), e)
    {
      if e.ioFlags % 2 == 0 {
        return;
      }
      if nrIoApics >= MAX_IO_APICS || e.ioAddr == 0 {
        return;
      }
      ioApics[nrIoApics] := e;
      nrIoApics := nrIoApics + 1;
    }

    /** MP_intsrc_info; true where the source halts. */
    method MpIntSrcInfo(e: Entry) returns (halted: bool)
      requires Valid() && e.IntSrc? && irqEntries < MAX_IRQ_SOURCES
      modifies this, irqs
      ensures View() == IntSrcInfo(old(View()), e) && (halted <==> Halted(View()))
    {
      irqs[irqEntries] := e;
      irqEntries := irqEntries + 1;
      halted := irqEntries >= MAX_IRQ_SOURCES;
    }

    /** One turn of the switch in smp_read_mpc. */
    method HandleEntry(e: Entry) returns (halted: bool)
      requires Valid() && !Halted(View()) && (e.Bus? ==> e.busId < MAX_MP_BUSSES && |e.busType| == 6)
      modifies this, Parts()
      ensures Valid() && View() == Apply(old(View()), e) && (halted <==> Halted(View()))
    {
      ApplyKeepsSized(View(), e);
      halted := false;
      match e {
        case Processor(id, _, flag, _) => MpProcessorInfo(id, flag);
        case Bus(id, kind) => MpBusInfo(id, kind);
        case IoApic(_, _, _, _) => MpIoApicInfo(e);
        case IntSrc(_, _, _, _, _, _) => halted := MpIntSrcInfo(e);
        case LintSrc(_, _, _, _, _, _) =>
      }
    }

    /** smp_read_mpc on memory m from the table's start. On an entry of unknown type the source turns
        for ever; here the method returns Stuck. */
    method SmpReadMpc(m: seq<nat>) returns (r: Reading)
      requires Valid() && irqEntries == 0
      modifies this, Parts()
      ensures Valid() && r == ReadMpc(m, old(View()))
      ensures r.Accepting? ==> r.walked.state == View()
    {
      if Bytes(m, 0, 4) != SIGNATURE || (Byte(m, 6) != 1 && Byte(m, 6) != 4) || Word32(m, 36) == 0 {
        return Refused;
      }
      lapicAddr := Word32(m, 36);
      SizedLapic(old(View()), lapicAddr);
      ghost var s := View();
      var length, count := Word16(m, 4), HEADER_SIZE;
      while count < length
        invariant Valid() && !Halted(View())
        invariant WalkFrom(m, length, HEADER_SIZE, s) == WalkFrom(m, length, count, View())
        decreases length - count
      {
        var e := DecodeAt(m, count);
        if e.None? {
          return Accepting(Stuck(count, View()));
        }
        var halted := HandleEntry(e.value);
        if halted {
          return Accepting(Stopped(View()));
        }
        count := count + SizeOf(e.value);
      }
      r := Accepting(Done(count, View()));
    }

    static lemma SizedLapic(s: Mp, addr: nat)
      requires Sized(s)
      ensures Sized(s.(lapicAddr := addr))
    {
      var j: nat :| LowOnes(s, j);
      assert LowOnes(s.(lapicAddr := addr), j);
    }
  }

  // ---------------------------------------------------------------- finding the floating pointer

  /** "_MP_", one paragraph long, specification 1.1 or 1.4. */
  predicate IsFloatingPointer(m: seq<nat>, at: nat) {
    Bytes(m, at, 4) == ['_' as nat, 'M' as nat, 'P' as nat, '_' as nat] && Byte(m, at + 8) == 1 && (Byte(m, at + 9) == 1 || Byte(m, at + 9) == 4)
  }

  /** The floating pointer, byte by byte: "_MP_", length 1 in byte 8, revision 1 or 4 in byte 9. */
  lemma FloatingPointerBytes(m: seq<nat>, at: nat)
    ensures IsFloatingPointer(m, at) <==>
            && Byte(m, at) == 0x5F && Byte(m, at + 1) == 0x4D && Byte(m, at + 2) == 0x50 && Byte(m, at + 3) == 0x5F
            && Byte(m, at + 8) == 1 && (Byte(m, at + 9) == 1 || Byte(m, at + 9) == 4)
  {
    assert Bytes(m, at, 4) == [Byte(m, at), Byte(m, at + 1), Byte(m, at + 2), Byte(m, at + 3)];
  }

  /** How smp_scan_config ends. The unsigned countdown meets 0 only for whole paragraphs; from any other
      length it goes on for ever unless it finds a pointer. */
  datatype ScanEnd = FoundAt(at: nat) | NotThere | Endless

  lemma NoPointerBehindMemory(m: seq<nat>, at: nat)
    requires at >= |m|
    ensures !IsFloatingPointer(m, at)
  {
    assert Bytes(m, at, 4)[0] == 0;
  }

  /** smp_scan_config: the lowest paragraph from the base on that holds a floating pointer structure. */
  method SmpScanConfig(m: seq<nat>, base: nat, length: nat) returns (r: ScanEnd)
    ensures r.NotThere? <==> length % 16 == 0 && forall k: nat | 16 * k < length :: !IsFloatingPointer(m, base + 16 * k)
    ensures r.Endless? <==> length % 16 != 0 && forall k: nat :: !IsFloatingPointer(m, base + 16 * k)
    ensures r.FoundAt? ==> exists k: nat :: r.at == base + 16 * k && IsFloatingPointer(m, r.at) && (length % 16 == 0 ==> 16 * k < length)
                                          && forall j: nat | j < k :: !IsFloatingPointer(m, base + 16 * j)
  {
    var at: nat, left: int := base, length;
    ghost var k: nat := 0;
    while left != 0
      invariant at == base + 16 * k && left + 16 * k == length
      invariant length % 16 == 0 ==> left >= 0 && left % 16 == 0
      invariant forall j: nat | j < k :: !IsFloatingPointer(m, base + 16 * j)
      decreases if length % 16 == 0 then left else |m| - at
    {
      if IsFloatingPointer(m, at) {
        return FoundAt(at);
      }
      if length % 16 != 0 && at >= |m| {
        forall j: nat
          ensures !IsFloatingPointer(m, base + 16 * j)
        {
          if j >= k {
            NoPointerBehindMemory(m, base + 16 * j);
          }
        }
        return Endless;
      }
      at, left, k := at + 16, left - 16, k + 1;
    }
    r := NotThere;
  }
}
