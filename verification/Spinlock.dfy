/** src/spinlock.c on any number of CPUs, one memory access per step, in any interleaving. */
module Spinlock {

  /** Where a CPU is in spin_lock or spin_unlock.
      Outside: before spin_lock; Trying: before the exchange; Failed: behind a failed exchange;
      Spinning: in the inner loop; Critical: lock taken; Released: behind set_bit. */
  datatype Place = Outside | Trying | Failed | Spinning | Critical | Released

  /** Between the read and the write of `preempt_count += 1` or `-= 1`, a CPU carries the new value
      and the place it goes to. */
  datatype Cpu = At(place: Place) | Storing(value: int, goal: Place)

  /** The low byte of the lock, the shared counter, and the CPUs. */
  datatype System = System(slock: nat, preemptCount: int, cpus: seq<Cpu>)

  const UNLOCKED: nat := 1
  const LOCKED: nat := 0

  /** The scheduler's choice: which CPU moves, and what spin_is_locked answers if it asks. */
  datatype Turn = Turn(cpu: nat, answer: bool)

  /** spin_lock_init, every CPU outside. */
  function Initial(n: nat): System {
    System(UNLOCKED, 0, seq(n, _ => At(Outside)))
  }

  /** One access by one CPU. */
  function Step(s: System, t: Turn): (s': System)
    ensures |s'.cpus| == |s.cpus|
  {
    if t.cpu >= |s.cpus| then s
    else
      var c := t.cpu;
      match s.cpus[c]
      case Storing(value, goal) => s.(preemptCount := value, cpus := s.cpus[c := At(goal)])
      case At(Outside) => s.(cpus := s.cpus[c := Storing(s.preemptCount + 1, Trying)])
      case At(Trying) => s.(slock := LOCKED, cpus := s.cpus[c := At(if s.slock == LOCKED then Failed else Critical)])
      case At(Failed) => s.(cpus := s.cpus[c := Storing(s.preemptCount - 1, Spinning)])
      case At(Spinning) => if t.answer then s else s.(cpus := s.cpus[c := Storing(s.preemptCount + 1, Trying)])
      case At(Critical) => s.(slock := UNLOCKED, cpus := s.cpus[c := At(Released)])
      case At(Released) => s.(cpus := s.cpus[c := Storing(s.preemptCount - 1, Outside)])
  }

  function Run(s: System, turns: seq<Turn>): (s': System)
    ensures |s'.cpus| == |s.cpus|
    decreases |turns|
  {
    if turns == [] then s else Run(Step(s, turns[0]), turns[1..])
  }

  // ---------------------------------------------------------------- mutual exclusion

  predicate Holds(s: System, c: nat) {
    c < |s.cpus| && s.cpus[c] == At(Critical)
  }

  /** CPU c is between the read and the write of an update of the counter. */
  predicate MidUpdate(s: System, c: nat) {
    c < |s.cpus| && s.cpus[c].Storing?
  }

  ghost predicate Exclusive(s: System) {
    && (forall c: nat | MidUpdate(s, c) :: s.cpus[c].goal in {Trying, Spinning, Outside})
    && (s.slock == LOCKED || s.slock == UNLOCKED)
    && (forall c: nat, d: nat | Holds(s, c) && Holds(s, d) :: c == d)
    && (s.slock == LOCKED <==> exists c: nat :: Holds(s, c))
  }

  lemma StepKeepsExclusive(s: System, t: Turn)
    requires Exclusive(s)
    ensures Exclusive(Step(s, t))
  {
    var s' := Step(s, t);
    assert forall c: nat | c != t.cpu :: (Holds(s', c) <==> Holds(s, c)) && (MidUpdate(s', c) <==> MidUpdate(s, c));
    assert MidUpdate(s, t.cpu) ==> s.cpus[t.cpu].goal != Critical;
    assert Holds(s', t.cpu) <==> (t.cpu < |s.cpus| && s.cpus[t.cpu] == At(Trying) && s.slock != LOCKED) || (Holds(s, t.cpu) && Holds(s', t.cpu));
    if c: nat :| Holds(s, c) {
      assert c != t.cpu ==> Holds(s', c);
    }
  }

  lemma {:induction false} RunKeepsExclusive(s: System, turns: seq<Turn>)
    requires Exclusive(s)
    ensures Exclusive(Run(s, turns))
    decreases |turns|
  {
    if turns != [] {
      StepKeepsExclusive(s, turns[0]);
      RunKeepsExclusive(Step(s, turns[0]), turns[1..]);
    }
  }

  /** For any number of CPUs and any interleaving, whatever spin_is_locked answers: at most one CPU is
      between its successful exchange and its set_bit, and the lock byte is 0 exactly when one is. */
  lemma MutualExclusion(n: nat, turns: seq<Turn>, c: nat, d: nat)
    ensures var s := Run(Initial(n), turns);
            && (Holds(s, c) && Holds(s, d) ==> c == d)
            && (s.slock == 0 <==> exists e: nat :: Holds(s, e))
  {
    RunKeepsExclusive(Initial(n), turns);
  }

  // ---------------------------------------------------------------- preempt_count

  /** The CPU has stored its preempt_disable and not yet its preempt_enable. */
  predicate InWindow(c: Cpu) {
    match c
    case At(p) => p != Outside && p != Spinning
    case Storing(_, goal) => goal != Trying
  }

  function Windows(cpus: seq<Cpu>): nat {
    if cpus == [] then 0 else Windows(cpus[..|cpus| - 1]) + (if InWindow(cpus[|cpus| - 1]) then 1 else 0)
  }

  lemma {:induction false} WindowsUpdate(cpus: seq<Cpu>, c: nat, x: Cpu)
    requires c < |cpus|
    ensures Windows(cpus[c := x]) == Windows(cpus) - (if InWindow(cpus[c]) then 1 else 0) + (if InWindow(x) then 1 else 0)
  {
    var last := |cpus| - 1;
    if c < last {
      WindowsUpdate(cpus[..last], c, x);
      assert cpus[c := x][..last] == cpus[..last][c := x];
    } else {
      assert cpus[c := x][..last] == cpus[..last];
    }
  }

  predicate Exact(s: System) {
    s.preemptCount == Windows(s.cpus)
  }

  /** preempt_count is the number of open windows at every moment of the run. */
  predicate AlwaysExact(s: System, turns: seq<Turn>)
    decreases |turns|
  {
    Exact(s) && (turns == [] || AlwaysExact(Step(s, turns[0]), turns[1..]))
  }

  /** If this turn stores an update, the counter still has the value that was read for it. */
  predicate FreshStore(s: System, t: Turn) {
    MidUpdate(s, t.cpu) ==>
      s.cpus[t.cpu].value == s.preemptCount + (if s.cpus[t.cpu].goal == Trying then 1 else -1)
  }

  predicate NoStaleStore(s: System, turns: seq<Turn>)
    decreases |turns|
  {
    turns == [] || (FreshStore(s, turns[0]) && NoStaleStore(Step(s, turns[0]), turns[1..]))
  }

  /** An update leads into the window or out of it. */
  ghost predicate GoalsOk(s: System) {
    forall c: nat | MidUpdate(s, c) :: s.cpus[c].goal in {Trying, Spinning, Outside}
  }

  lemma StepExactIffFresh(s: System, t: Turn)
    requires GoalsOk(s) && Exact(s)
    ensures GoalsOk(Step(s, t)) && (Exact(Step(s, t)) <==> FreshStore(s, t))
  {
    var s' := Step(s, t);
    if t.cpu < |s.cpus| {
      WindowsUpdate(s.cpus, t.cpu, s'.cpus[t.cpu]);
      assert s'.cpus == s.cpus[t.cpu := s'.cpus[t.cpu]];
      assert forall c: nat | c != t.cpu && MidUpdate(s', c) :: MidUpdate(s, c) && s'.cpus[c] == s.cpus[c];
    }
  }

  lemma {:induction false} RunExactIffFresh(s: System, turns: seq<Turn>)
    requires GoalsOk(s) && Exact(s)
    ensures AlwaysExact(s, turns) <==> NoStaleStore(s, turns)
    decreases |turns|
  {
    if turns != [] {
      StepExactIffFresh(s, turns[0]);
      if FreshStore(s, turns[0]) {
        RunExactIffFresh(Step(s, turns[0]), turns[1..]);
      }
    }
  }

  lemma {:induction false} NoWindows(n: nat)
    ensures Windows(seq(n, _ => At(Outside))) == 0
  {
    if n > 0 {
      NoWindows(n - 1);
      assert seq(n, _ => At(Outside))[..n - 1] == seq(n - 1, _ => At(Outside));
    }
  }

  /** For any number of CPUs and any interleaving: preempt_count is at every moment the number of CPUs
      between their disable and their enable exactly when, at every store of an update, the counter
      still has the value that the CPU read. Steps that do not touch the counter do no harm. */
  lemma ExactIffNoStaleStore(n: nat, turns: seq<Turn>)
    ensures AlwaysExact(Initial(n), turns) <==> NoStaleStore(Initial(n), turns)
  {
    NoWindows(n);
    RunExactIffFresh(Initial(n), turns);
  }

  lemma {:induction false} OneWindow(cpus: seq<Cpu>, c: nat)
    requires c < |cpus| && InWindow(cpus[c])
    ensures Windows(cpus) >= 1
  {
    if c < |cpus| - 1 {
      OneWindow(cpus[..|cpus| - 1], c);
    }
  }

  lemma {:induction false} EndIsExact(s: System, turns: seq<Turn>)
    requires AlwaysExact(s, turns)
    ensures Exact(Run(s, turns))
    decreases |turns|
  {
    if turns != [] {
      EndIsExact(Step(s, turns[0]), turns[1..]);
    }
  }

  /** While it is exact, the counter is positive whenever the lock is held. */
  lemma PositiveWhileHeld(n: nat, turns: seq<Turn>)
    requires NoStaleStore(Initial(n), turns)
    ensures var s := Run(Initial(n), turns);
            Exact(s) && (s.slock == 0 ==> s.preemptCount >= 1)
  {
    ExactIffNoStaleStore(n, turns);
    EndIsExact(Initial(n), turns);
    RunKeepsExclusive(Initial(n), turns);
    var s := Run(Initial(n), turns);
    if s.slock == LOCKED {
      var c: nat :| Holds(s, c);
      OneWindow(s.cpus, c);
    }
  }

  /** Every update of the counter is completed before any other CPU moves. */
  ghost predicate UpdatesWhole(s: System, turns: seq<Turn>)
    decreases |turns|
  {
    turns == [] || ((forall c: nat | MidUpdate(s, c) :: turns[0].cpu == c) && UpdatesWhole(Step(s, turns[0]), turns[1..]))
  }

  /** At most one update is under way, and the counter still has the value read for it. */
  ghost predicate OneFresh(s: System) {
    && (forall c: nat, d: nat | MidUpdate(s, c) && MidUpdate(s, d) :: c == d)
    && (forall c: nat | MidUpdate(s, c) :: s.cpus[c].value == s.preemptCount + (if s.cpus[c].goal == Trying then 1 else -1))
  }

  lemma {:induction false} WholeIsFresh(s: System, turns: seq<Turn>)
    requires OneFresh(s) && UpdatesWhole(s, turns)
    ensures NoStaleStore(s, turns)
    decreases |turns|
  {
    if turns != [] {
      var s' := Step(s, turns[0]);
      assert forall c: nat | c != turns[0].cpu :: MidUpdate(s', c) <==> MidUpdate(s, c);
      WholeIsFresh(s', turns[1..]);
    }
  }

  /** With whole updates preempt_count is, at every moment, the number of CPUs between their disable
      and their enable; so it is positive while the lock is held. */
  lemma CounterIsExact(n: nat, turns: seq<Turn>)
    requires UpdatesWhole(Initial(n), turns)
    ensures AlwaysExact(Initial(n), turns)
    ensures var s := Run(Initial(n), turns);
            s.preemptCount == Windows(s.cpus) && (s.slock == 0 ==> s.preemptCount >= 1)
  {
    WholeIsFresh(Initial(n), turns);
    ExactIffNoStaleStore(n, turns);
    PositiveWhileHeld(n, turns);
  }

  /** Whole updates are not needed: CPU 0 makes its exchange between CPU 1's read and write. */
  lemma HarmlessStep()
    ensures var turns := [Turn(0, false), Turn(0, false), Turn(1, false), Turn(0, false), Turn(1, false)];
            !UpdatesWhole(Initial(2), turns) && AlwaysExact(Initial(2), turns)
  {
    var turns := [Turn(0, false), Turn(0, false), Turn(1, false), Turn(0, false), Turn(1, false)];
    var s0 := Initial(2);
    var s1 := Step(s0, turns[0]);
    var s2 := Step(s1, turns[1]);
    var s3 := Step(s2, turns[2]);
    var s4 := Step(s3, turns[3]);
    assert s3.cpus == [At(Trying), Storing(2, Trying)] && s3.preemptCount == 1;
    assert s4.cpus == [At(Critical), Storing(2, Trying)] && s4.preemptCount == 1;
    assert MidUpdate(s3, 1);
    assert turns[1..][1..][1..][1..] == [turns[4]] && turns[1..][1..][1..] == [turns[3], turns[4]]
        && turns[1..][1..] == [turns[2], turns[3], turns[4]] && turns[1..] == [turns[1], turns[2], turns[3], turns[4]];
    ExactIffNoStaleStore(2, turns);
  }

  /** `preempt_count += 1` is not atomic: when two CPUs read before either writes, one update is lost. */
  lemma LostUpdate()
    ensures var s := Run(Initial(2), [Turn(0, false), Turn(1, false), Turn(0, false), Turn(1, false)]);
            Windows(s.cpus) == 2 && s.preemptCount == 1
  {
    var s0 := Initial(2);
    assert s0.cpus == [At(Outside), At(Outside)];
    var s1 := Step(s0, Turn(0, false));
    assert s1.cpus == [Storing(1, Trying), At(Outside)];
    var s2 := Step(s1, Turn(1, false));
    assert s2.cpus == [Storing(1, Trying), Storing(1, Trying)];
    var s3 := Step(s2, Turn(0, false));
    assert s3.cpus == [At(Trying), Storing(1, Trying)];
    var s4 := Step(s3, Turn(1, false));
    assert s4.cpus == [At(Trying), At(Trying)];
    RunFour(s0, Turn(0, false), Turn(1, false), Turn(0, false), Turn(1, false));
    assert Windows([At(Trying), At(Trying)]) == 2 by {
      assert [At(Trying), At(Trying)][..1] == [At(Trying)];
      assert [At(Trying)][..0] == [];
    }
  }

  lemma RunFour(s: System, a: Turn, b: Turn, c: Turn, d: Turn)
    ensures Run(s, [a, b, c, d]) == Step(Step(Step(Step(s, a), b), c), d)
  {
    assert [a, b, c, d][1..] == [b, c, d] && [b, c, d][1..] == [c, d] && [c, d][1..] == [d] && [d][1..] == [];
    assert Run(Step(Step(s, a), b), [c, d]) == Run(Step(Step(Step(s, a), b), c), [d]);
  }

  // ---------------------------------------------------------------- the inner loop

  /** What spin_is_locked really answers: test_bit(0) is nonzero when bit 0 is set, which means unlocked. */
  function SpinIsLocked(s: System): bool {
    s.slock != LOCKED
  }

  /** A waiting CPU leaves the inner loop exactly while another one holds the lock. */
  lemma SpinLeavesIffHeld(s: System, c: nat)
    requires Exclusive(s) && c < |s.cpus| && s.cpus[c] == At(Spinning)
    ensures Step(s, Turn(c, SpinIsLocked(s))).cpus[c] != At(Spinning) <==> exists d: nat :: Holds(s, d)
  {
  }

  /** Alone in front of a free lock it waits forever. */
  lemma {:induction false} FreeLockIsNotTaken(s: System, c: nat, turns: seq<Turn>)
    requires c < |s.cpus| && s.cpus[c] == At(Spinning) && s.slock == 1
    requires forall i | 0 <= i < |turns| :: turns[i] == Turn(c, true)
    ensures Run(s, turns) == s
    decreases |turns|
  {
    if turns != [] {
      FreeLockIsNotTaken(s, c, turns[1..]);
    }
  }

  lemma {:induction false} RunConcat(s: System, a: seq<Turn>, b: seq<Turn>)
    ensures Run(s, a + b) == Run(Run(s, a), b)
    decreases |a|
  {
    if a == [] {
      assert a + b == b;
    } else {
      assert (a + b)[1..] == a[1..] + b;
      RunConcat(Step(s, a[0]), a[1..], b);
    }
  }

  lemma Then(s: System, turns: seq<Turn>, t: Turn)
    ensures Run(s, turns + [t]) == Step(Run(s, turns), t)
  {
    RunConcat(s, turns, [t]);
    assert Run(Run(s, turns), [t]) == Step(Run(s, turns), t);
  }

  /** Such a stranded CPU is reached with two CPUs: one fails its exchange while the other holds the
      lock, and the other lets go before the first looks again. */
  lemma StrandedWaiter(turns: seq<Turn>)
    requires turns == seq(11, i => Turn(if i < 3 || i >= 8 then 0 else 1, true))
    ensures Run(Initial(2), turns) == System(1, 0, [At(Outside), At(Spinning)])
  {
    var zero, one := Turn(0, true), Turn(1, true);
    var t4, t8 := [zero, zero, zero, one], [one, one, one, one];
    assert turns == t4 + (t8 + [zero] + [zero] + [zero]);
    var s0 := Initial(2);
    assert s0.cpus == [At(Outside), At(Outside)];
    RunFour(s0, zero, zero, zero, one);
    var s4 := Run(s0, t4);
    assert s4 == System(LOCKED, 1, [At(Critical), Storing(2, Trying)]) by {
      assert Step(s0, zero).cpus == [Storing(1, Trying), At(Outside)];
      assert Step(Step(s0, zero), zero).cpus == [At(Trying), At(Outside)];
      assert Step(Step(Step(s0, zero), zero), zero).cpus == [At(Critical), At(Outside)];
    }
    RunFour(s4, one, one, one, one);
    var s8 := Run(s4, t8);
    assert s8 == System(LOCKED, 1, [At(Critical), At(Spinning)]) by {
      assert Step(s4, one) == System(LOCKED, 2, [At(Critical), At(Trying)]);
      assert Step(Step(s4, one), one) == System(LOCKED, 2, [At(Critical), At(Failed)]);
      assert Step(Step(Step(s4, one), one), one) == System(LOCKED, 2, [At(Critical), Storing(1, Spinning)]);
    }
    Then(s4, t8, zero);
    assert Step(s8, zero) == System(UNLOCKED, 1, [At(Released), At(Spinning)]);
    Then(s4, t8 + [zero], zero);
    assert Step(Step(s8, zero), zero) == System(UNLOCKED, 1, [Storing(0, Outside), At(Spinning)]);
    Then(s4, t8 + [zero] + [zero], zero);
    RunConcat(s0, t4, t8 + [zero] + [zero] + [zero]);
  }
}
