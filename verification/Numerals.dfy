/** Powers and little-endian positional values, shared by the bit streams and the big integers. */
module Numerals {

  function Min(x: nat, y: nat): nat { if x < y then x else y }

  function Max(x: nat, y: nat): nat { if x < y then y else x }

  /** The ranges of na places from a on and of nb places from b on do not overlap. */
  ghost predicate Apart(a: nat, na: nat, b: nat, nb: nat) {
    a + na <= b || b + nb <= a
  }

  function Pow(base: nat, n: nat): (p: nat)
    ensures base > 0 ==> p > 0
  {
    if n == 0 then 1 else MulNat(base, Pow(base, n - 1))
  }

  function MulNat(x: nat, y: nat): (p: nat)
    ensures p == x * y
    ensures x > 0 && y > 0 ==> p > 0
  {
    MulSign(x, y);
    x * y
  }

  lemma MulSign(x: nat, y: nat)
    ensures x * y >= 0
    ensures x > 0 && y > 0 ==> x * y > 0
  {
  }

  lemma {:induction false} PowAdd(base: nat, m: nat, n: nat)
    ensures Pow(base, m + n) == Pow(base, m) * Pow(base, n)
  {
    if m == 0 {
    } else {
      PowAdd(base, m - 1, n);
      MulAssoc(base, Pow(base, m - 1), Pow(base, n));
    }
  }

  lemma {:induction false} PowMonotone(base: nat, m: nat, n: nat)
    requires base > 0 && m <= n
    ensures Pow(base, m) <= Pow(base, n)
  {
    if m < n {
      PowMonotone(base, m, n - 1);
      MulMonotone(1, base, Pow(base, n - 1));
    }
  }

  /** Pow(base, c)^n == Pow(base, c * n) */
  lemma {:induction false} PowPow(base: nat, c: nat, n: nat)
    ensures Pow(Pow(base, c), n) == Pow(base, c * n)
  {
    if n == 0 {
    } else {
      PowPow(base, c, n - 1);
      assert c * n == c + c * (n - 1);
      PowAdd(base, c, c * (n - 1));
    }
  }

  lemma PowOfTwo31()
    ensures Pow(2, 31) == 0x8000_0000
  {
    assert Pow(2, 8) == 256 && Pow(2, 7) == 128;
    PowAdd(2, 8, 8);
    PowAdd(2, 16, 8);
    PowAdd(2, 24, 7);
  }

  lemma MulAssoc(x: int, y: int, z: int)
    ensures x * (y * z) == (x * y) * z
  {
  }

  lemma MulMonotone(x: int, y: int, z: int)
    requires x <= y && 0 <= z
    ensures x * z <= y * z && z * x <= z * y
  {
  }

  lemma MulStrict(x: int, y: int, z: int)
    requires x < y && 0 < z
    ensures x * z < y * z && z * x < z * y
  {
  }

  lemma MulDistribute(x: int, y: int, z: int)
    ensures (x + y) * z == x * z + y * z
    ensures z * (x + y) == z * x + z * y
    ensures (x - y) * z == x * z - y * z
    ensures z * (x - y) == z * x - z * y
  {
  }

  /** If x * z < y * z then x < y. */
  lemma MulCancelLess(x: int, y: int, z: int)
    requires z > 0 && x * z < y * z
    ensures x < y
  {
    if x >= y {
      MulMonotone(y, x, z);
    }
  }

  /** Quotient and remainder are unique. */
  lemma DivModUnique(v: int, i: int, p: int)
    requires p > 0 && 0 <= v < p
    ensures (v + p * i) % p == v && (v + p * i) / p == i
  {
    var x := v + p * i;
    var q, r := x / p, x % p;
    assert x == p * q + r;
    MulDistribute(q, i, p);
    assert p * (q - i) == v - r;
    if q > i {
      MulMonotone(1, q - i, p);
    } else if q < i {
      MulMonotone(q - i, -1, p);
    }
  }

  lemma QuotientBelow(l: nat, p: nat, t: nat, q: nat)
    requires p > 0 && l + p * t < p * q
    ensures t < q
  {
    MulCancelLess(t, q, p);
  }

  lemma DivModLaw(x: int, p: int)
    requires p > 0
    ensures x == p * (x / p) + x % p && 0 <= x % p < p
    ensures 0 <= x ==> 0 <= x / p
  {
  }

  /** A sequence of digits, least significant first, each below the base. */
  ghost predicate AreDigits(s: seq<int>, base: nat) {
    forall i :: 0 <= i < |s| ==> 0 <= s[i] < base
  }

  /** The number the digits stand for. */
  function Val(s: seq<int>, base: nat): int {
    if s == [] then 0 else s[0] + base * Val(s[1..], base)
  }

  lemma {:induction false} ValConcat(s: seq<int>, t: seq<int>, base: nat)
    ensures Val(s + t, base) == Val(s, base) + Pow(base, |s|) * Val(t, base)
  {
    if s == [] {
      assert s + t == t;
    } else {
      assert (s + t)[1..] == s[1..] + t;
      ValConcat(s[1..], t, base);
      MulDistribute(Val(s[1..], base), Pow(base, |s| - 1) * Val(t, base), base);
      MulAssoc(base, Pow(base, |s| - 1), Val(t, base));
    }
  }

  lemma ValSplit(s: seq<int>, k: nat, base: nat)
    requires k <= |s|
    ensures Val(s, base) == Val(s[..k], base) + Pow(base, k) * Val(s[k..], base)
  {
    assert s == s[..k] + s[k..];
    ValConcat(s[..k], s[k..], base);
  }

  lemma {:induction false} ValBound(s: seq<int>, base: nat)
    requires base > 0 && AreDigits(s, base)
    ensures 0 <= Val(s, base) < Pow(base, |s|)
  {
    if s == [] {
    } else {
      ValBound(s[1..], base);
      var v, p := Val(s[1..], base), Pow(base, |s| - 1);
      MulMonotone(0, v, base);
      MulMonotone(v, p - 1, base);
      MulDistribute(p, 1, base);
    }
  }

  lemma {:induction false} ValZeros(s: seq<int>, base: nat)
    requires forall i :: 0 <= i < |s| ==> s[i] == 0
    ensures Val(s, base) == 0
  {
    if s != [] {
      ValZeros(s[1..], base);
    }
  }

  lemma ValOne(x: int, base: nat)
    ensures Val([x], base) == x
  {
    assert [x][1..] == [];
    assert Val([x], base) == x + base * Val([], base);
  }

  lemma ValSnoc(s: seq<int>, x: int, base: nat)
    ensures Val(s + [x], base) == Val(s, base) + Pow(base, |s|) * x
  {
    ValConcat(s, [x], base);
    ValOne(x, base);
  }
}
