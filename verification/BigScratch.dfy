/** The scratch space of Karatsuba multiplication to the digit: numbers for which the sums of halves reach as far as
    any can, and the lengths for which twice the length is too little. */
module BigScratch {
  import opened Numerals
  import opened BigDigits

  /** A number of n digits in the range of the multiplication. */
  ghost predicate OfLength(x: int, n: nat) {
    n > 0 && P(n - 1) <= x < P(n)
  }

  // ---- No sums reach further ----------------------------------------------------------------

  lemma SplitValue(x: nat, n: nat, half: nat)
    requires n > RECURSIVE_LIMIT_N && half == n / 2 && OfLength(x, n) && P(half) > 0
    ensures x == x % P(half) + P(half) * (x / P(half)) && HalfSized(n, half, x / P(half), x % P(half))
  {
    hide P;
    var x1, x0, p := x / P(half), x % P(half), P(half);
    PAdd(half, n - half);
    PAdd(half, n - half - 1);
    assert x == x0 + p * x1;
    QuotientBelow(x0, p, x1, P(n - half));
    if x1 < P(n - half - 1) {
      MulMonotone(x1 + 1, P(n - half - 1), p);
      MulDistribute(x1, 1, p);
    }
  }

  lemma SumLengths(n: nat, half: nat, x1: int, x0: int)
    requires n > RECURSIVE_LIMIT_N && half == n / 2 && HalfSized(n, half, x1, x0)
    ensures OfLength(x1 + x0, SumSize(n, x1 + x0)) && SumSize(n, x1 + x0) < n
  {
    hide P;
    SumBelow(n, half, x1, x0);
  }

  /** The sums stay inside what the multiplication asks for. */
  lemma {:induction false} SumsInside(x: nat, y: nat, n: nat)
    requires n < INT_LIMIT && OfLength(x, n) && OfLength(y, n)
    ensures SumsEnd(x, y, n) <= Demand(x, n, y, n)
    decreases n
  {
    hide P, Demand, OfLength, HalfSized, SumSize, TightScratch, Scratch;
    if n > RECURSIVE_LIMIT_N {
      var half := n / 2;
      PositiveP(half);
      var x1, x0, y1, y0 := x / P(half), x % P(half), y / P(half), y % P(half);
      SplitValue(x, n, half);
      SplitValue(y, n, half);
      var nx, ny := SumSize(n, x1 + x0), SumSize(n, y1 + y0);
      hide SumsEnd;
      SumsEndIs(x, x1, x0, y, y1, y0, n, half);
      SumsDemand(n, half, x, x1, x0, y, y1, y0, nx, ny);
      SumLengths(n, half, x1, x0);
      SumLengths(n, half, y1, y0);
      if nx == ny {
        SumsInside(x1 + x0, y1 + y0, nx);
      }
    }
  }

  lemma PositiveP(n: nat)
    ensures P(n) > 0
  {
  }

  // ---- Numbers whose sums reach that far ------------------------------------------------------

  /** A number with leading digit 1 whose sum of halves is such a number again, of the greatest length. */
  ghost function Reaching(n: nat): int
    requires n > 0
    decreases n
  {
    P(n - 1) + if n <= RECURSIVE_LIMIT_N then 0 else Reaching(n / 2 + 1) - P(n - n / 2 - 1)
  }

  lemma {:induction false} ReachingBounds(n: nat)
    requires n >= 3
    ensures P(n - 1) <= Reaching(n) && Reaching(n) + 1 < P(n - 1) + P(n - 2)
    decreases n
  {
    hide P;
    PStep(n - 3);
    if n > RECURSIVE_LIMIT_N {
      var q := n / 2 + 1;
      ReachingBounds(q);
      RestBounds(n, q, Reaching(q));
    }
  }

  /** What is left of the sum for the lower half. */
  lemma RestBounds(n: nat, q: nat, v: int)
    requires n > RECURSIVE_LIMIT_N && q == n / 2 + 1 && P(q - 1) <= v && v + 1 < P(q - 1) + P(q - 2)
    ensures 0 <= v - P(n - n / 2 - 1) && v - P(n - n / 2 - 1) + 1 < P(n / 2) <= P(n - 2)
  {
    hide P;
    var k := n - n / 2;
    PMonotone(n / 2, n - 2);
    if n % 2 == 0 {
      PMonotone(k - 1, k);
    } else {
      PMonotone(q - 2, n / 2);
    }
  }

  lemma ReachingSum(n: nat, q: nat)
    requires n > RECURSIVE_LIMIT_N && q == n / 2 + 1
    ensures Reaching(n) >= 0 && Reaching(q) >= 0
    ensures HalvesSum(Reaching(n), n) == Reaching(q) && SumSize(n, Reaching(q)) == q
  {
    hide P, HalvesSum;
    var half, k, v := n / 2, n - n / 2, Reaching(q);
    ReachingBounds(q);
    RestBounds(n, q, v);
    PositiveP(q - 1);
    PositiveP(k - 1);
    PAdd(half, k - 1);
    SumOf(Reaching(n), n, half, P(k - 1), v - P(k - 1));
    if n % 2 == 1 {
      PMonotone(q - 2, q - 1);
      FourTimes(q - 1, q);
    }
  }

  lemma {:induction false} ReachingEnd(n: nat)
    requires n >= 3
    ensures Reaching(n) >= 0 && SumsEnd(Reaching(n), Reaching(n), n) == TightScratch(n)
    decreases n
  {
    hide P, HalvesSum, Reaching, SumSize;
    ReachingBounds(n);
    PositiveP(n - 1);
    if n > RECURSIVE_LIMIT_N {
      ReachingSum(n, n / 2 + 1);
      ReachingEnd(n / 2 + 1);
    }
  }

  /** The number of n digits whose first sum is the one that reaches furthest from one digit more than the half. */
  ghost function Furthest(n: nat): int
    requires n > RECURSIVE_LIMIT_N
  {
    var k := n - n / 2;
    Reaching(k + 1) - P(k) + 1 + P(n / 2) * (P(k) - 1)
  }

  lemma FurthestSum(n: nat, k: nat)
    requires n > RECURSIVE_LIMIT_N && k == n - n / 2
    ensures OfLength(Furthest(n), n) && Reaching(k + 1) >= 0
    ensures HalvesSum(Furthest(n), n) == Reaching(k + 1) && SumSize(n, Reaching(k + 1)) == k + 1
  {
    hide P, HalvesSum;
    var half := n / 2;
    var x1, x0 := P(k) - 1, Reaching(k + 1) - P(k) + 1;
    ReachingBounds(k + 1);
    PMonotone(k - 1, half);
    PStep(k - 1);
    PositiveP(half);
    SumOf(Furthest(n), n, half, x1, x0);
    FurthestLength(n, half, k, x1, x0);
  }

  lemma FurthestLength(n: nat, half: nat, k: nat, x1: int, x0: int)
    requires n > 1 && 0 < k <= n && half == n - k && x1 == P(k) - 1 && 0 <= x0 < P(half)
    ensures OfLength(x0 + P(half) * x1, n)
  {
    hide P;
    var p := P(half);
    PAdd(half, k);
    PAdd(half, k - 1);
    PStep(k - 1);
    MulMonotone(P(k - 1), x1, p);
    MulDistribute(P(k), 1, p);
  }

  lemma FurthestEnd(n: nat)
    requires n > RECURSIVE_LIMIT_N
    ensures OfLength(Furthest(n), n) && Furthest(n) >= 0
    ensures SumsEnd(Furthest(n), Furthest(n), n) == Scratch(n)
  {
    hide P, HalvesSum, Reaching, SumSize, Furthest, TightScratch;
    var k := n - n / 2;
    PositiveP(n - 1);
    FurthestSum(n, k);
    ReachingEnd(k + 1);
    ScratchStep(n);
  }

  // ---- Twice the length -----------------------------------------------------------------------

  /** Twice the length is enough for all numbers of a length if and only if it is for these. */
  lemma ScratchExact(n: nat)
    requires RECURSIVE_LIMIT_N < n < INT_LIMIT
    ensures (forall x: nat, y: nat :: OfLength(x, n) && OfLength(y, n) ==> SumsEnd(x, y, n) <= 2 * n) <==>
      Scratch(n) <= 2 * n
  {
    hide P, SumsEnd, Scratch, Demand, Furthest, OfLength;
    FurthestEnd(n);
    forall x: nat, y: nat | OfLength(x, n) && OfLength(y, n)
      ensures SumsEnd(x, y, n) <= Scratch(n)
    {
      SumsInside(x, y, n);
      DemandBound(x, n, y, n, n);
    }
  }

  /** The digits of v. */
  ghost function DigitsOf(v: nat, n: nat): (s: seq<digit>)
    ensures |s| == n
  {
    if n == 0 then [] else [v % BASE] + DigitsOf(v / BASE, n - 1)
  }

  lemma {:induction false} DigitsValue(v: nat, n: nat)
    requires v < P(n)
    ensures Val(DigitsOf(v, n), BASE) == v
  {
    if n > 0 {
      DigitsValue(v / BASE, n - 1);
    }
  }

  lemma FullLength(s: seq<digit>, a: nat, n: nat)
    requires 0 < n && a + n <= |s| && OfLength(V(s, a, n), n)
    ensures Normal(s, a, n)
  {
    hide V, P;
    if s[a + n - 1] == 0 {
      VSnoc(s, a, n - 1);
      VBound(s, a, n - 1);
    }
  }

  /** Two numbers in memory, a target of both their lengths and scratch space of twice the length, which is not
      enough for the sums. */
  ghost predicate TooLittle(s: seq<digit>, n: nat) {
    Operands(s, 2 * n, 2 * n, 0, n, n, n, 4 * n, 2 * n) && SumsEnd(V(s, 0, n), V(s, n, n), n) == Scratch(n) > 2 * n
  }

  lemma ScratchTooLittle(n: nat)
    requires RECURSIVE_LIMIT_N < n < INT_LIMIT && Scratch(n) > 2 * n
    ensures exists s :: TooLittle(s, n)
  {
    hide P, SumsEnd, Scratch, Furthest, OfLength;
    FurthestEnd(n);
    var v: nat := Furthest(n);
    var d := DigitsOf(v, n);
    LengthBelow(v, n);
    DigitsValue(v, n);
    var s := d + d + seq(4 * n, i => 0);
    assert s[0..n] == d && s[n..n + n] == d;
    FullLength(s, 0, n);
    FullLength(s, n, n);
    assert TooLittle(s, n);
  }

  lemma LengthBelow(v: int, n: nat)
    requires OfLength(v, n)
    ensures v < P(n)
  {
  }

  lemma {:induction false} TightTight(j: nat)
    ensures TightScratch(63 * Pow(2, j) + 2) == 126 * Pow(2, j) + 4 * j - 60
  {
    var n := 63 * Pow(2, j) + 2;
    if j == 0 {
      assert TightScratch(n / 2 + 1) == 0;
    } else {
      assert n / 2 + 1 == 63 * Pow(2, j - 1) + 2;
      TightTight(j - 1);
    }
  }

  /** The first length for which it is too little. */
  lemma FirstTooLittle(n: nat)
    requires n == ENOUGH + 1
    ensures Scratch(n) == 2 * n + 2 && exists s :: TooLittle(s, n)
  {
    hide TightScratch, TooLittle;
    PowSixteen();
    TightTight(16);
    ScratchTooLittle(n);
  }
}
