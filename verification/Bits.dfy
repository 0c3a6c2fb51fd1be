/** Word arithmetic shared by the kernel's modules: powers of two, masking, and the
    bit searches of bitops.h, specified by arithmetic instead of inline assembly. */
module Bits {

  /** Number of values of a 64-bit word (`size_t`, `u64`). */
  const WORD: nat := 0x1_0000_0000_0000_0000

  datatype Option<+T> = None | Some(value: T)

  function Pow2(n: nat): (r: nat)
    ensures r >= 1
  {
    if n == 0 then 1 else 2 * Pow2(n - 1)
  }

  /** The C expression `x & y` on unsigned words. */
  function BitAnd(x: nat, y: nat): (r: nat)
    ensures r <= x
  {
    if x == 0 || y == 0 then 0 else 2 * BitAnd(x / 2, y / 2) + (if x % 2 == 1 && y % 2 == 1 then 1 else 0)
  }

  /** The C expression `x & ~y`. */
  function AndNot(x: nat, y: nat): nat {
    x - BitAnd(x, y)
  }

  /** `x - 1` on a 64-bit word: zero wraps around. */
  function Dec64(x: nat): nat {
    if x == 0 then WORD - 1 else x - 1
  }

  /** `x + y` on 64-bit words. */
  function Add64(x: nat, y: nat): nat {
    if x + y >= WORD then x + y - WORD else x + y
  }

  lemma Pow2Monotone(a: nat, b: nat)
    requires a <= b
    ensures Pow2(a) <= Pow2(b)
  {
    if a < b {
      Pow2Monotone(a, b - 1);
    }
  }

  lemma Pow2Add(a: nat, b: nat)
    ensures Pow2(a + b) == Pow2(a) * Pow2(b)
  {
    if a > 0 {
      Pow2Add(a - 1, b);
      assert Pow2(a + b) == 2 * (Pow2(a - 1) * Pow2(b)) == Pow2(a) * Pow2(b);
    }
  }

  // ---------------------------------------------------------------- division by a variable

  /** x / d and x % d by repeated subtraction, which keeps proofs about them linear. */
  function Quot(x: nat, d: nat): nat
    requires d >= 1
  {
    if x < d then 0 else 1 + Quot(x - d, d)
  }

  function Rem(x: nat, d: nat): (r: nat)
    requires d >= 1
    ensures r < d && r <= x
  {
    if x < d then x else Rem(x - d, d)
  }

  lemma {:induction false} QuotRem(x: nat, d: nat)
    requires d >= 1
    ensures Quot(x, d) * d + Rem(x, d) == x
  {
    if x >= d {
      QuotRem(x - d, d);
      assert (1 + Quot(x - d, d)) * d == d + Quot(x - d, d) * d;
    }
  }

  lemma MultipleAtLeast(d: nat, a: nat, b: nat)
    requires a <= b
    ensures d * a <= d * b
  {
    if a < b {
      MultipleAtLeast(d, a, b - 1);
      assert d * b == d * (b - 1) + d;
    }
  }

  lemma QuotientUnique(d: nat, q: nat, r: nat, q': nat, r': nat)
    requires r < d && r' < d && d * q + r == d * q' + r'
    ensures q == q' && r == r'
  {
    if q < q' {
      MultipleAtLeast(d, q + 1, q');
    } else if q' < q {
      MultipleAtLeast(d, q' + 1, q);
    }
  }

  /** They are the quotient and the remainder of C's unsigned division. */
  lemma QuotRemAreDivision(x: nat, d: nat)
    requires d >= 1
    ensures Quot(x, d) == x / d && Rem(x, d) == x % d
  {
    QuotRem(x, d);
    assert d * Quot(x, d) == Quot(x, d) * d;
    QuotientUnique(d, Quot(x, d), Rem(x, d), x / d, x % d);
  }

  lemma {:induction false} RemOfSum(x: nat, y: nat, d: nat)
    requires d >= 1 && Rem(x, d) == 0
    ensures Rem(x + y, d) == Rem(y, d)
  {
    if x >= d {
      RemOfSum(x - d, y, d);
    }
  }

  lemma {:induction false} RoundDownIsMultiple(x: nat, d: nat)
    requires d >= 1
    ensures Rem(x - Rem(x, d), d) == 0
  {
    if x >= d {
      RoundDownIsMultiple(x - d, d);
    }
  }

  lemma {:induction false} MultiplesApart(x: nat, y: nat, d: nat)
    requires d >= 1 && x < y && Rem(x, d) == 0 && Rem(y, d) == 0
    ensures x + d <= y && Rem(y - x, d) == 0
  {
    if x >= d {
      MultiplesApart(x - d, y - d, d);
    }
  }

  lemma {:induction false} ProductIsMultiple(n: nat, x: nat, d: nat)
    requires d >= 1 && Rem(x, d) == 0
    ensures Rem(n * x, d) == 0
  {
    if n > 0 {
      ProductIsMultiple(n - 1, x, d);
      assert n * x == x + (n - 1) * x;
      RemOfSum(x, (n - 1) * x, d);
    }
  }

  lemma {:induction false} RemByHalves(x: nat, m: nat)
    requires m >= 1
    ensures Rem(x, 2 * m) == 2 * Rem(x / 2, m) + x % 2
  {
    if x >= 2 * m {
      RemByHalves(x - 2 * m, m);
    }
  }

  // ---------------------------------------------------------------- masks

  /** Masking with 2^k - 1 is the remainder by 2^k. */
  lemma {:induction false} MaskIsRemainder(x: nat, k: nat)
    ensures BitAnd(x, Pow2(k) - 1) == Rem(x, Pow2(k))
    decreases k
  {
    if x > 0 && k > 0 {
      MaskIsRemainder(x / 2, k - 1);
      RemByHalves(x, Pow2(k - 1));
      MaskByHalves(x, Pow2(k - 1));
    } else if x > 0 {
      RemByOne(x);
    }
  }

  lemma {:induction false} RemByOne(x: nat)
    ensures Rem(x, 1) == 0
  {
    if x > 0 {
      RemByOne(x - 1);
    }
  }

  lemma MaskByHalves(x: nat, m: nat)
    requires m >= 1
    ensures BitAnd(x, 2 * m - 1) == 2 * BitAnd(x / 2, m - 1) + x % 2
  {
    assert (2 * m - 1) / 2 == m - 1 && (2 * m - 1) % 2 == 1;
  }

  // ---------------------------------------------------------------- bit searches

  /** fls64 of bitops.h: position of the last set bit counted from 1, and 0 for 0. */
  function Fls64(x: nat): nat {
    if x == 0 then 0 else 1 + Fls64(x / 2)
  }

  lemma {:induction false} Fls64Brackets(x: nat)
    ensures x < Pow2(Fls64(x))
    ensures x > 0 ==> Fls64(x) > 0 && Pow2(Fls64(x) - 1) <= x
  {
    if x > 0 {
      Fls64Brackets(x / 2);
    }
  }

  /** Bit n of x. */
  predicate BitSet(x: nat, n: nat) {
    if n == 0 then x % 2 == 1 else BitSet(x / 2, n - 1)
  }

  /** set_bit and clear_bit of bitops.h as arithmetic. */
  function SetBit(x: nat, n: nat): nat {
    if BitSet(x, n) then x else x + Pow2(n)
  }

  function ClearBit(x: nat, n: nat): (r: nat)
    ensures r <= x
  {
    if BitSet(x, n) then
      BitSetAtLeast(x, n);
      x - Pow2(n)
    else x
  }

  /** They set and clear bit n. */
  lemma {:induction false} SetBitSets(x: nat, n: nat)
    ensures BitSet(SetBit(x, n), n)
  {
    if !BitSet(x, n) {
      AddedBitIsSet(x, n);
    }
  }

  lemma {:induction false} AddedBitIsSet(x: nat, n: nat)
    requires !BitSet(x, n)
    ensures BitSet(x + Pow2(n), n)
  {
    if n > 0 {
      var m := Pow2(n - 1);
      assert (x + 2 * m) / 2 == x / 2 + m;
      AddedBitIsSet(x / 2, n - 1);
    }
  }

  lemma {:induction false} ClearBitClears(x: nat, n: nat)
    ensures !BitSet(ClearBit(x, n), n)
  {
    if BitSet(x, n) {
      RemovedBitIsClear(x, n);
    }
  }

  lemma {:induction false} RemovedBitIsClear(x: nat, n: nat)
    requires BitSet(x, n)
    ensures x >= Pow2(n) && !BitSet(x - Pow2(n), n)
  {
    BitSetAtLeast(x, n);
    if n > 0 {
      var m := Pow2(n - 1);
      assert (x - 2 * m) / 2 == x / 2 - m;
      RemovedBitIsClear(x / 2, n - 1);
    }
  }

  lemma BitSetAtLeast(x: nat, n: nat)
    requires BitSet(x, n)
    ensures x >= Pow2(n)
  {
    if n > 0 {
      BitSetAtLeast(x / 2, n - 1);
    }
  }

  /** ffz of bitops.h: position of the first zero bit. */
  function Ffz(x: nat): nat {
    if x % 2 == 0 then 0 else 1 + Ffz(x / 2)
  }

  /** A word of n low ones has its first zero at n, and setting it gives n + 1 low ones. */
  lemma {:induction false} FfzOfLowOnes(n: nat)
    ensures Ffz(Pow2(n) - 1) == n
    ensures SetBit(Pow2(n) - 1, n) == Pow2(n + 1) - 1
  {
    if n > 0 {
      var m := Pow2(n - 1);
      assert (2 * m - 1) / 2 == m - 1 && (2 * m - 1) % 2 == 1;
      FfzOfLowOnes(n - 1);
    }
  }
}
