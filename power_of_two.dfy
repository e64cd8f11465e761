/**
 * `computeIsPowerOfTwo(n)`, the reference answer of the power-of-two
 * problem: `n > 0 && (n & (n - 1)) === 0`. JavaScript's `&` works on the
 * low 32 bits of its operands, so the check as written answers for
 * `n mod 2^32`; `IsPowerOfTwo` is the unbounded check the problem statement
 * asks for.
 *
 * Also the construction of one randomized test case of that problem, which
 * draws the added offset twice.
 */
module PowerOfTwo {
  /** Bitwise AND of two non-negative integers, from the lowest bit up. */
  function BitAnd(a: nat, b: nat): nat
  {
    if a == 0 || b == 0 then 0
    else 2 * BitAnd(a / 2, b / 2) + (if a % 2 == 1 && b % 2 == 1 then 1 else 0)
  }

  /** `n` is one of 1, 2, 4, 8, ... */
  predicate IsPow2(n: nat)
  {
    n == 1 || (n > 1 && n % 2 == 0 && IsPow2(n / 2))
  }

  function Pow2(k: nat): nat
  {
    if k == 0 then 1 else 2 * Pow2(k - 1)
  }

  const TwoTo32: nat := 0x1_0000_0000

  /** The low 32 bits of an integer (`ToUint32`; `ToInt32` has the same bits). */
  function Low32(x: int): nat
  {
    x % TwoTo32
  }

  /** `computeIsPowerOfTwo(n)` as written, with `&` on 32-bit operands. */
  function IsPowerOfTwoAsWritten(n: int): bool
  {
    n > 0 && BitAnd(Low32(n), Low32(n - 1)) == 0
  }

  /** The check on unbounded integers. */
  function IsPowerOfTwo(n: int): bool
  {
    n > 0 && BitAnd(n, n - 1) == 0
  }

  lemma {:induction false} BitAndSelf(m: nat)
    ensures BitAnd(m, m) == m
  {
    if m > 0 {
      BitAndSelf(m / 2);
    }
  }

  /** `n & (n - 1)` clears the lowest set bit, so it is zero exactly for powers of two. */
  lemma {:induction false} PowerOfTwoCorrect(n: int)
    ensures IsPowerOfTwo(n) <==> n > 0 && IsPow2(n)
  {
    if n > 1 {
      var m := n / 2;
      if n % 2 == 0 {
        assert (n - 1) / 2 == m - 1 && (n - 1) % 2 == 1;
        PowerOfTwoCorrect(m);
        assert BitAnd(n, n - 1) == 2 * BitAnd(m, m - 1);
      } else {
        assert (n - 1) / 2 == m && (n - 1) % 2 == 0;
        BitAndSelf(m);
        assert BitAnd(n, n - 1) == 2 * m;
      }
    }
  }

  /** Every `Pow2(k)` is a power of two; `ExponentOf` is the converse. */
  lemma {:induction false} PowersAreExponentials(k: nat)
    ensures IsPow2(Pow2(k))
  {
    if k > 0 {
      PowersAreExponentials(k - 1);
      assert Pow2(k) / 2 == Pow2(k - 1);
    }
  }

  /** Every power of two is some `Pow2(k)`. */
  lemma {:induction false} ExponentOf(n: nat)
    requires IsPow2(n)
    ensures exists k: nat :: Pow2(k) == n
  {
    if n > 1 {
      ExponentOf(n / 2);
      var k: nat :| Pow2(k) == n / 2;
      assert Pow2(k + 1) == n;
    } else {
      assert Pow2(0) == n;
    }
  }

  lemma Pow2Of32()
    ensures Pow2(32) == TwoTo32
  {
    assert Pow2(4) == 16;
    assert Pow2(8) == 256 by { assert Pow2(8) == 16 * Pow2(4); }
    assert Pow2(16) == 65536 by { PowSplit(8, 8); }
    PowSplit(16, 16);
  }

  lemma {:induction false} PowSplit(a: nat, b: nat)
    ensures Pow2(a + b) == Pow2(a) * Pow2(b)
  {
    if a > 0 {
      PowSplit(a - 1, b);
      assert Pow2(a + b) == 2 * Pow2(a - 1 + b);
    }
  }

  /** Up to 2^32 the 32-bit check gives the right answer. */
  lemma AsWrittenAgrees(n: int)
    requires n <= TwoTo32
    ensures IsPowerOfTwoAsWritten(n) == IsPowerOfTwo(n)
  {
    if 0 < n < TwoTo32 {
      assert Low32(n) == n && Low32(n - 1) == n - 1;
    } else if n == TwoTo32 {
      assert Low32(n) == 0;
      Pow2Of32();
      PowersAreExponentials(32);
      PowerOfTwoCorrect(n);
    }
  }

  /** 2^32 + 1 is odd and above 1, yet its low 32 bits are 1 and those of 2^32 are 0: the check as written says yes. */
  lemma AsWrittenWrongAbove32Bits()
    ensures IsPowerOfTwoAsWritten(TwoTo32 + 1)
    ensures !IsPowerOfTwo(TwoTo32 + 1) && !IsPow2(TwoTo32 + 1)
  {
    assert Low32(TwoTo32 + 1) == 1 && Low32(TwoTo32) == 0;
    PowerOfTwoCorrect(TwoTo32 + 1);
  }

  // ---------------------------------------------------------------------
  // One randomized test case of the problem: `pow = 1 << e` for a drawn
  // `e` in [0, 30] plus an offset drawn from [1, 100].

  datatype TestCase = TestCase(input: int, expected: bool)

  /** As written: the input adds one drawn offset, the expected answer is computed with a second, separate draw. */
  function OffsetCaseAsWritten(pow: nat, first: nat, second: nat): TestCase
  {
    TestCase(pow + first, IsPowerOfTwoAsWritten(pow + second))
  }

  /** With `pow = 1` and draws 1 then 2 the input is 2, a power of two, but the expected answer is the one for 3. */
  lemma OffsetCaseMismatch()
    ensures OffsetCaseAsWritten(1, 1, 2).input == 2 && IsPow2(2)
    ensures !OffsetCaseAsWritten(1, 1, 2).expected
  {
    assert IsPow2(1);
    assert BitAnd(3, 2) == 2 * BitAnd(1, 1) + 0;
    assert BitAnd(1, 1) == 1 by {
      assert BitAnd(1, 1) == 2 * BitAnd(0, 0) + 1;
    }
  }

  /** One draw, used for both the input and its expected answer. */
  function OffsetCase(pow: nat, offset: nat): TestCase
  {
    var n := pow + offset;
    TestCase(n, IsPowerOfTwoAsWritten(n))
  }

  /** Every case the generator can draw then expects exactly the true answer. */
  lemma OffsetCaseCorrect(e: nat, offset: nat)
    requires e <= 30 && 1 <= offset <= 100
    ensures OffsetCase(Pow2(e), offset).expected <==> IsPow2(OffsetCase(Pow2(e), offset).input)
  {
    PowMonotone(e, 30);
    PowSplit(30, 2);
    Pow2Of32();
    var n := Pow2(e) + offset;
    AsWrittenAgrees(n);
    PowerOfTwoCorrect(n);
  }

  lemma {:induction false} PowMonotone(a: nat, b: nat)
    requires a <= b
    ensures Pow2(a) <= Pow2(b)
  {
    if a < b {
      PowMonotone(a, b - 1);
    }
  }
}
