/** Bit operations on unsigned words, written over the naturals so that the results can be used
    as sizes and indices, and the two helpers of Utils/Math.h that size the action queues. */
module Bits {
  const WORD: nat := 0x1_0000_0000 // number of values of a 32-bit unsigned integer

  function Pow2(k: nat): (p: nat)
    ensures p >= 1
  {
    if k == 0 then 1 else 2 * Pow2(k - 1)
  }

  function BitAnd(x: nat, y: nat): nat {
    if x == 0 || y == 0 then 0 else (x % 2) * (y % 2) + 2 * BitAnd(x / 2, y / 2)
  }

  function BitOr(x: nat, y: nat): nat
    decreases x + y
  {
    if x == 0 && y == 0 then 0
    else (if x % 2 == 1 || y % 2 == 1 then 1 else 0) + 2 * BitOr(x / 2, y / 2)
  }

  function ShiftRight(x: nat, k: nat): nat {
    if k == 0 then x else ShiftRight(x / 2, k - 1)
  }

  /** The word whose k lowest bits are set. */
  function Ones(k: nat): nat {
    Pow2(k) - 1
  }

  /** The test of Utils/Math.h: a power of two shares no bit with its predecessor. */
  predicate IsPowerOfTwo(n: nat) {
    n != 0 && BitAnd(n, n - 1) == 0
  }

  lemma {:induction false} AndSelf(x: nat)
    ensures BitAnd(x, x) == x
  {
    if x != 0 {
      AndSelf(x / 2);
    }
  }

  lemma {:induction false} PowersAreIsolated(k: nat)
    ensures BitAnd(Pow2(k), Pow2(k) - 1) == 0
  {
    if k > 0 {
      var m := Pow2(k - 1);
      assert (2 * m - 1) % 2 == 1 && (2 * m - 1) / 2 == m - 1;
      PowersAreIsolated(k - 1);
    }
  }

  lemma {:induction false} IsolatedArePowers(n: nat) returns (k: nat)
    requires IsPowerOfTwo(n)
    ensures n == Pow2(k)
  {
    if n == 1 {
      k := 0;
    } else if n % 2 == 1 {
      AndSelf(n / 2);
      assert false;
    } else {
      assert (n - 1) / 2 == n / 2 - 1;
      k := IsolatedArePowers(n / 2);
      k := k + 1;
    }
  }

  lemma PowerIsPowerOfTwo(k: nat)
    ensures IsPowerOfTwo(Pow2(k))
  {
    PowersAreIsolated(k);
  }

  /** The bit test recognises exactly the powers of two. */
  lemma IsPowerOfTwoExact(n: nat)
    ensures IsPowerOfTwo(n) <==> exists k: nat :: n == Pow2(k)
  {
    if IsPowerOfTwo(n) {
      var k := IsolatedArePowers(n);
    }
    if k: nat :| n == Pow2(k) {
      PowersAreIsolated(k);
    }
  }

  lemma {:induction false} Pow2Monotone(a: nat, b: nat)
    requires a <= b
    ensures Pow2(a) <= Pow2(b)
  {
    if a < b {
      Pow2Monotone(a, b - 1);
    }
  }

  lemma {:induction false} HalfMod(c: nat, m: nat)
    requires m >= 1
    ensures c % (2 * m) == c % 2 + 2 * ((c / 2) % m)
  {
    var a, b := (c / 2) / m, (c / 2) % m;
    assert c == (2 * m) * a + (2 * b + c % 2);
    ModUnique(c, 2 * m, a, 2 * b + c % 2);
  }

  lemma ModUnique(c: nat, n: nat, q: int, r: nat)
    requires n >= 1 && c == n * q + r && r < n
    ensures c % n == r
  {
    var d := c / n - q;
    Distributes(n, c / n, q);
    Multiple(n, d);
  }

  lemma Distributes(n: int, a: int, b: int)
    ensures n * (a - b) == n * a - n * b
  {
  }

  /** No multiple of n but 0 is smaller than n. */
  lemma Multiple(n: int, d: int)
    requires n >= 1
    ensures d >= 1 ==> n * d >= n
    ensures d <= -1 ==> n * d <= 0 - n
  {
  }

  /** Masking with a power of two less one is the remainder: the queue index in RegisterAction. */
  lemma {:induction false} AndMaskIsMod(c: nat, k: nat)
    ensures BitAnd(c, Ones(k)) == c % Pow2(k)
  {
    if k == 0 {
      AndZero(c);
    } else {
      hide BitAnd;
      MaskStep(c, Pow2(k - 1));
      AndMaskIsMod(c / 2, k - 1);
      HalfMod(c, Pow2(k - 1));
    }
  }

  lemma MaskStep(c: nat, m: nat)
    requires m >= 1
    ensures BitAnd(c, 2 * m - 1) == c % 2 + 2 * BitAnd(c / 2, m - 1)
  {
    assert (2 * m - 1) % 2 == 1 && (2 * m - 1) / 2 == m - 1;
    AndZero(c / 2);
  }

  // ----- NextHighestPowerOfTwo -----

  lemma {:induction false} ShiftShift(x: nat, a: nat, b: nat)
    ensures ShiftRight(ShiftRight(x, a), b) == ShiftRight(x, a + b)
  {
    if a > 0 {
      ShiftShift(x / 2, a - 1, b);
    }
  }

  lemma {:induction false} ShiftOr(x: nat, y: nat, k: nat)
    ensures ShiftRight(BitOr(x, y), k) == BitOr(ShiftRight(x, k), ShiftRight(y, k))
  {
    if k > 0 {
      assert BitOr(x, y) / 2 == BitOr(x / 2, y / 2);
      ShiftOr(x / 2, y / 2, k - 1);
    }
  }

  lemma {:induction false} OrZero(x: nat)
    ensures BitOr(x, 0) == x
  {
    if x != 0 {
      OrZero(x / 2);
    }
  }

  /** Of a word of k + 1 bits the shift by k leaves the top bit. */
  lemma TopBit(x: nat, k: nat)
    requires x < Pow2(k + 1)
    ensures ShiftRight(x, k) == if x >= Pow2(k) then 1 else 0
  {
    hide ShiftRight;
    ShiftIsZero(x, k);
    ShiftIsZero(x, k + 1);
    ShiftShift(x, k, 1);
    ShiftOnce(ShiftRight(x, k));
  }

  lemma ShiftOnce(x: nat)
    ensures ShiftRight(x, 1) == x / 2
  {
    assert ShiftRight(x / 2, 0) == x / 2;
  }

  /** The mask of a single bit tests it, or sets it. */
  lemma {:induction false} MaskOneBit(x: nat, k: nat)
    ensures BitAnd(x, Pow2(k)) == if ShiftRight(x, k) % 2 == 1 then Pow2(k) else 0
    ensures BitOr(x, Pow2(k)) == if ShiftRight(x, k) % 2 == 1 then x else x + Pow2(k)
  {
    if k == 0 {
      AndZero(x / 2);
      OrZero(x / 2);
    } else {
      MaskOneBit(x / 2, k - 1);
    }
  }

  lemma AndZero(x: nat)
    ensures BitAnd(x, 0) == 0
  {
  }

  lemma {:induction false} ShiftIsZero(x: nat, k: nat)
    ensures ShiftRight(x, k) == 0 <==> x < Pow2(k)
  {
    if k > 0 {
      ShiftIsZero(x / 2, k - 1);
    }
  }

  lemma {:induction false} ShiftOnes(t: nat, k: nat)
    requires k <= t
    ensures ShiftRight(Ones(t), k) == Ones(t - k)
  {
    if k > 0 {
      var m := Pow2(t - 1);
      assert (2 * m - 1) / 2 == m - 1;
      ShiftOnes(t - 1, k - 1);
    }
  }

  lemma {:induction false} OrFillsLowBits(y: nat, t: nat, u: nat)
    requires ShiftRight(y, u) == Ones(t)
    ensures BitOr(y, Ones(u)) == Ones(t + u)
  {
    if u == 0 {
      OrZero(y);
    } else {
      var m := Pow2(u - 1);
      assert (2 * m - 1) % 2 == 1 && (2 * m - 1) / 2 == m - 1;
      OrFillsLowBits(y / 2, t, u - 1);
    }
  }

  /** y has b bits and the t highest of them are set. */
  ghost predicate OnesOnTop(y: nat, b: nat, t: nat) {
    t <= b && ShiftRight(y, b) == 0 && ShiftRight(y, b - t) == Ones(t)
  }

  function Min(a: nat, b: nat): nat {
    if a <= b then a else b
  }

  lemma SmearKeepsWidth(y: nat, b: nat, s: nat)
    requires ShiftRight(y, b) == 0
    ensures ShiftRight(BitOr(y, ShiftRight(y, s)), b) == 0
  {
    hide ShiftRight;
    ShiftOr(y, ShiftRight(y, s), b);
    ShiftShift(y, s, b);
    ShiftShift(y, b, s);
    ShiftIsZero(0, s);
  }

  lemma ShiftedOut(y: nat, b: nat, s: nat)
    requires b <= s && ShiftRight(y, b) == 0
    ensures ShiftRight(y, s) == 0
  {
    hide ShiftRight;
    ShiftShift(y, b, s - b);
    ShiftIsZero(0, s - b);
  }

  /** The u bits below the s set ones are filled by the shifted copy. */
  lemma SmearFills(y: nat, b: nat, s: nat, u: nat)
    requires s + u <= b && u <= s && ShiftRight(y, b - s) == Ones(s)
    ensures ShiftRight(BitOr(y, ShiftRight(y, s)), b - s - u) == Ones(s + u)
  {
    hide ShiftRight, BitOr, Ones;
    var d := b - s - u;
    ShiftOr(y, ShiftRight(y, s), d);
    ShiftShift(y, s, d);
    ShiftShift(y, d, u);
    ShiftShift(y, d + u, s - u);
    ShiftOnes(s, s - u);
    OrFillsLowBits(ShiftRight(y, d), s, u);
  }
  lemma SmearStep(y: nat, b: nat, s: nat)
    requires OnesOnTop(y, b, Min(s, b))
    ensures OnesOnTop(BitOr(y, ShiftRight(y, s)), b, Min(2 * s, b))
  {
    hide ShiftRight, BitOr, Ones;
    if s >= b {
      ShiftedOut(y, b, s);
      OrZero(y);
    } else {
      SmearKeepsWidth(y, b, s);
      SmearFills(y, b, s, Min(2 * s, b) - s);
    }
  }

  /** p is the least power of two that is not smaller than the value. */
  ghost predicate LeastPowerFrom(value: nat, p: nat) {
    IsPowerOfTwo(p) && value <= p && forall k: nat :: value <= Pow2(k) ==> p <= Pow2(k)
  }

  function BitLength(x: nat): nat {
    if x == 0 then 0 else 1 + BitLength(x / 2)
  }

  lemma {:induction false} BitLengthBounds(x: nat)
    ensures OnesOnTop(x, BitLength(x), Min(1, BitLength(x)))
    ensures x < Pow2(BitLength(x))
    ensures if x == 0 then BitLength(x) == 0 else BitLength(x) >= 1 && Pow2(BitLength(x) - 1) <= x
  {
    if x > 1 {
      BitLengthBounds(x / 2);
    }
  }

  /** For a value from 1 to 2^31 the result is the least power of two that is not smaller;
      for every other 32-bit value the arithmetic wraps and the result is 0. */
  method NextHighestPowerOfTwo(value: nat) returns (r: nat)
    requires value < WORD
    ensures r == 0 <==> value == 0 || value > 0x8000_0000
    ensures r != 0 ==> LeastPowerFrom(value, r)
  {
    hide ShiftRight, BitOr, BitLength, Pow2, IsPowerOfTwo;
    var val := (value + WORD - 1) % WORD;
    ghost var start := val;
    ghost var b := BitLength(val);
    BitLengthBounds(val);
    SmearStep(val, b, 1);
    val := BitOr(val, ShiftRight(val, 1));
    SmearStep(val, b, 2);
    val := BitOr(val, ShiftRight(val, 2));
    SmearStep(val, b, 4);
    val := BitOr(val, ShiftRight(val, 4));
    SmearStep(val, b, 8);
    val := BitOr(val, ShiftRight(val, 8));
    SmearStep(val, b, 16);
    val := BitOr(val, ShiftRight(val, 16));
    r := (val + 1) % WORD;
    SmearedWord(start, val);
    RoundedUp(value, start, r);
  }

  /** A 32-bit word has at most 32 bits, so the five steps set them all. */
  lemma SmearedWord(start: nat, val: nat)
    requires start < WORD && OnesOnTop(val, BitLength(start), Min(32, BitLength(start)))
    ensures val == Ones(BitLength(start)) && BitLength(start) <= 32
  {
    var b := BitLength(start);
    BitLengthBounds(start);
    if b > 32 {
      Pow2Monotone(32, b - 1);
      Pow2Of32();
    }
  }

  lemma Pow2Of32()
    ensures Pow2(31) == 0x8000_0000 && Pow2(32) == WORD
  {
    assert Pow2(8) == 256;
    assert Pow2(16) == 0x1_0000;
    assert Pow2(24) == 0x100_0000;
  }

  lemma RoundedUp(value: nat, start: nat, r: nat)
    requires value < WORD && start == (value + WORD - 1) % WORD
    requires BitLength(start) <= 32 && r == Pow2(BitLength(start)) % WORD
    ensures r == 0 <==> value == 0 || value > 0x8000_0000
    ensures r != 0 ==> LeastPowerFrom(value, r)
  {
    hide BitLength, BitAnd, Pow2, IsPowerOfTwo;
    var b := BitLength(start);
    assert (b == 32 <==> r == 0) && (b < 32 ==> r == Pow2(b)) by {
      WrappedPower(b);
    }
    assert start == if value == 0 then WORD - 1 else value - 1 by {
      WrappedPredecessor(value);
    }
    assert b == 32 <==> start >= 0x8000_0000 by {
      BitLengthBounds(start);
      WrappedPower(b);
    }
    if b < 32 {
      PowerIsPowerOfTwo(b);
      BitLengthBounds(start);
      LeastPower(value, b);
    }
  }

  lemma WrappedPower(b: nat)
    requires b <= 32
    ensures Pow2(b) % WORD == if b == 32 then 0 else Pow2(b)
    ensures Pow2(31) == 0x8000_0000
    ensures b < 32 ==> Pow2(b) <= 0x8000_0000
  {
    hide Pow2;
    Pow2Of32();
    if b < 32 {
      Pow2Monotone(b, 31);
    }
  }

  lemma WrappedPredecessor(value: nat)
    requires value < WORD
    ensures (value + WORD - 1) % WORD == if value == 0 then WORD - 1 else value - 1
  {
  }

  lemma LeastPower(value: nat, b: nat)
    requires b == 0 || Pow2(b - 1) < value
    requires value <= Pow2(b) && IsPowerOfTwo(Pow2(b))
    ensures LeastPowerFrom(value, Pow2(b))
  {
    forall k: nat | value <= Pow2(k) ensures Pow2(b) <= Pow2(k) {
      if k < b {
        Pow2Monotone(k, b - 1);
      } else {
        Pow2Monotone(b, k);
      }
    }
  }
}
