/**
  The C++ `unsigned long long` the solver keeps its boards in, modelled as a
  natural number below 2^64. The bitwise operators `&`, `|` and `^` are defined
  digit by digit on the binary expansion, and `Bit(n, i)` reads bit `i`.
  Everything the rest of the model says about boards is phrased through `Bit`.
 */
module Bits64 {

  /** 2^64: one more than the largest `unsigned long long`. */
  const WordSize: nat := 0x1_0000_0000_0000_0000

  /** An `unsigned long long` value. */
  type Word = n: nat | n < WordSize

  function Pow2(k: nat): (r: nat)
    ensures r >= 1
  {
    if k == 0 then 1 else 2 * Pow2(k - 1)
  }

  /** Bit `i` of `n`, counting from the least significant bit. */
  predicate Bit(n: nat, i: nat)
  {
    if i == 0 then n % 2 == 1 else Bit(n / 2, i - 1)
  }

  function And(a: nat, b: nat): (r: nat)
    ensures r <= a && r <= b
    decreases a + b
  {
    if a == 0 && b == 0 then 0
    else 2 * And(a / 2, b / 2) + (if a % 2 == 1 && b % 2 == 1 then 1 else 0)
  }

  function Or(a: nat, b: nat): nat
    decreases a + b
  {
    if a == 0 && b == 0 then 0
    else 2 * Or(a / 2, b / 2) + (if a % 2 == 1 || b % 2 == 1 then 1 else 0)
  }

  function Xor(a: nat, b: nat): nat
    decreases a + b
  {
    if a == 0 && b == 0 then 0
    else 2 * Xor(a / 2, b / 2) + (if a % 2 != b % 2 then 1 else 0)
  }

  /** `a | b` on two words: a bit is set exactly when it is set in either. */
  function OrWord(a: Word, b: Word): (r: Word)
    ensures forall i: nat :: Bit(r, i) <==> Bit(a, i) || Bit(b, i)
  {
    forall i: nat ensures Bit(Or(a, b), i) <==> Bit(a, i) || Bit(b, i) {
      BitOr(a, b, i);
    }
    Pow2Word();
    OrXorBelow(a, b, 64);
    Or(a, b)
  }

  /** `a ^ b` on two words: a bit is set exactly when it is set in one of them only. */
  function XorWord(a: Word, b: Word): (r: Word)
    ensures forall i: nat :: Bit(r, i) <==> Bit(a, i) != Bit(b, i)
  {
    forall i: nat ensures Bit(Xor(a, b), i) <==> Bit(a, i) != Bit(b, i) {
      BitXor(a, b, i);
    }
    Pow2Word();
    OrXorBelow(a, b, 64);
    Xor(a, b)
  }

  /** `n - 1` in unsigned 64-bit arithmetic: 0 wraps around to 2^64 - 1. */
  function Decrement(n: Word): (r: Word)
    ensures n == 0 ==> r == WordSize - 1
    ensures n > 0 ==> r + 1 == n
  {
    (n - 1) % WordSize
  }

  /** The number of set bits; the same loop the search uses to count pegs. */
  function PopCount(n: nat): nat
  {
    if n == 0 then 0 else n % 2 + PopCount(n / 2)
  }

  /** One unfolding of `PopCount`, for proofs that must not unfold it further on their own. */
  lemma PopCountStep(n: nat)
    ensures PopCount(n) == n % 2 + PopCount(n / 2)
  {
  }

  lemma {:induction false} BitOfZero(i: nat)
    ensures !Bit(0, i)
  {
    if i > 0 {
      BitOfZero(i - 1);
    }
  }

  lemma Halve(x: nat, low: nat)
    requires low < 2
    ensures (2 * x + low) % 2 == low && (2 * x + low) / 2 == x
  {
  }

  lemma AndStep(a: nat, b: nat)
    ensures And(a, b) % 2 == (if a % 2 == 1 && b % 2 == 1 then 1 else 0)
    ensures And(a, b) / 2 == And(a / 2, b / 2)
  {
    var low := if a % 2 == 1 && b % 2 == 1 then 1 else 0;
    var half := And(a / 2, b / 2);
    assert And(a, b) == 2 * half + low;
    Halve(half, low);
  }

  lemma OrStep(a: nat, b: nat)
    ensures Or(a, b) % 2 == (if a % 2 == 1 || b % 2 == 1 then 1 else 0)
    ensures Or(a, b) / 2 == Or(a / 2, b / 2)
  {
    var low := if a % 2 == 1 || b % 2 == 1 then 1 else 0;
    var half := Or(a / 2, b / 2);
    assert Or(a, b) == 2 * half + low;
    Halve(half, low);
  }

  lemma XorStep(a: nat, b: nat)
    ensures Xor(a, b) % 2 == (if a % 2 != b % 2 then 1 else 0)
    ensures Xor(a, b) / 2 == Xor(a / 2, b / 2)
  {
    var low := if a % 2 != b % 2 then 1 else 0;
    var half := Xor(a / 2, b / 2);
    assert Xor(a, b) == 2 * half + low;
    Halve(half, low);
  }

  lemma {:induction false} BitAnd(a: nat, b: nat, i: nat)
    ensures Bit(And(a, b), i) <==> Bit(a, i) && Bit(b, i)
  {
    AndStep(a, b);
    if i > 0 {
      BitAnd(a / 2, b / 2, i - 1);
    }
  }

  lemma {:induction false} BitOr(a: nat, b: nat, i: nat)
    ensures Bit(Or(a, b), i) <==> Bit(a, i) || Bit(b, i)
  {
    OrStep(a, b);
    if i > 0 {
      BitOr(a / 2, b / 2, i - 1);
    }
  }

  lemma {:induction false} BitXor(a: nat, b: nat, i: nat)
    ensures Bit(Xor(a, b), i) <==> Bit(a, i) != Bit(b, i)
  {
    XorStep(a, b);
    if i > 0 {
      BitXor(a / 2, b / 2, i - 1);
    }
  }

  lemma {:induction false} BitPow2(k: nat, i: nat)
    ensures Bit(Pow2(k), i) <==> i == k
  {
    if i == 0 {
    } else if k == 0 {
      BitOfZero(i - 1);
    } else {
      BitPow2(k - 1, i - 1);
    }
  }

  /** Two numbers with the same bits are equal. */
  lemma {:induction false} BitsDetermine(a: nat, b: nat)
    requires forall i: nat :: Bit(a, i) == Bit(b, i)
    ensures a == b
    decreases a + b
  {
    if a != 0 || b != 0 {
      assert Bit(a, 0) == Bit(b, 0);
      forall i: nat
        ensures Bit(a / 2, i) == Bit(b / 2, i)
      {
        assert Bit(a, i + 1) == Bit(b, i + 1);
      }
      BitsDetermine(a / 2, b / 2);
    }
  }

  /** No bit at or above position `k` is set in a number below 2^k. */
  lemma {:induction false} BitAbove(n: nat, k: nat, i: nat)
    requires n < Pow2(k) && i >= k
    ensures !Bit(n, i)
  {
    if k == 0 {
      BitOfZero(i);
    } else {
      BitAbove(n / 2, k - 1, i - 1);
    }
  }

  lemma {:induction false} Pow2Monotone(j: nat, k: nat)
    requires j <= k
    ensures Pow2(j) <= Pow2(k)
    decreases k
  {
    if j < k {
      Pow2Monotone(j, k - 1);
    }
  }

  lemma {:induction false} Pow2Add(j: nat, k: nat)
    ensures Pow2(j + k) == Pow2(j) * Pow2(k)
  {
    if k > 0 {
      Pow2Add(j, k - 1);
    }
  }

  lemma Pow2Square(k: nat, p: nat)
    requires Pow2(k) == p
    ensures Pow2(k + k) == p * p
  {
    Pow2Add(k, k);
  }

  lemma Pow2Word()
    ensures Pow2(64) == WordSize
  {
    assert Pow2(4) == 16;
    Pow2Square(4, 16);
    Pow2Square(8, 0x100);
    Pow2Square(16, 0x1_0000);
    Pow2Square(32, 0x1_0000_0000);
  }

  /** `|` and `^` keep a value within `k` bits. */
  lemma {:induction false} OrXorBelow(a: nat, b: nat, k: nat)
    requires a < Pow2(k) && b < Pow2(k)
    ensures Or(a, b) < Pow2(k) && Xor(a, b) < Pow2(k)
  {
    if k > 0 {
      OrXorBelow(a / 2, b / 2, k - 1);
    }
  }

  /** Flipping one bit moves the population count by exactly one. */
  lemma {:induction false} PopCountFlip(n: nat, k: nat)
    ensures PopCount(Xor(n, Pow2(k))) == if Bit(n, k) then PopCount(n) - 1 else PopCount(n) + 1
  {
    var x := Xor(n, Pow2(k));
    PopCountStep(n);
    PopCountStep(x);
    if k == 0 {
      assert Xor(n / 2, 0) == n / 2 by { XorZero(n / 2); }
    } else {
      assert x / 2 == Xor(n / 2, Pow2(k - 1));
      PopCountFlip(n / 2, k - 1);
    }
  }

  lemma {:induction false} XorZero(n: nat)
    ensures Xor(n, 0) == n
  {
    if n > 0 {
      XorZero(n / 2);
    }
  }

  lemma {:induction false} PopCountZero(n: nat)
    ensures PopCount(n) == 0 <==> n == 0
  {
    if n > 0 {
      PopCountZero(n / 2);
    }
  }

  lemma {:induction false} AndSelf(n: nat)
    ensures And(n, n) == n
  {
    if n > 0 {
      AndSelf(n / 2);
    }
  }

  /**
    The test `!(n & (n - 1))` with unsigned wrap-around holds exactly when at
    most one bit of `n` is set.
   */
  lemma {:induction false} ClearLowestBit(n: Word)
    ensures And(n, Decrement(n)) == 0 <==> PopCount(n) <= 1
  {
    if n > 0 {
      OneBitTest(n);
      PopCountZero(n);
    }
  }

  lemma {:induction false} OneBitTest(n: nat)
    requires n > 0
    ensures And(n, n - 1) == 0 <==> PopCount(n) == 1
  {
    PopCountStep(n);
    if n % 2 == 1 {
      assert And(n, n - 1) == 2 * And(n / 2, n / 2);
      AndSelf(n / 2);
      PopCountZero(n / 2);
    } else {
      assert And(n, n - 1) == 2 * And(n / 2, n / 2 - 1);
      OneBitTest(n / 2);
    }
  }
}
