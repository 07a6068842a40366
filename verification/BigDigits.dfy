/** Multi-digit arithmetic on buffers of 16-bit digits. All buffers are ranges of one memory, given
    by offset and length, least significant digit first. */
module BigDigits {
  import opened Numerals

  const BASE: nat := 0x1_0000
  const DOUBLE: nat := 0x1_0000_0000
  const RECURSIVE_LIMIT_N: nat := 64

  type digit = x: int | 0 <= x < 0x1_0000

  /** BASE to the power n. */
  ghost function P(n: nat): nat {
    Pow(BASE, n)
  }

  /** The value of the n digits from offset at on. */
  ghost function V(s: seq<digit>, at: nat, n: nat): nat
    requires at + n <= |s|
  {
    ValBound(s[at..at + n], BASE);
    Val(s[at..at + n], BASE)
  }

  lemma PStep(n: nat)
    ensures P(n + 1) == BASE * P(n) && P(n) > 0
  {
  }

  lemma PAdd(m: nat, n: nat)
    ensures P(m + n) == P(m) * P(n)
  {
    PowAdd(BASE, m, n);
  }

  lemma PMonotone(m: nat, n: nat)
    requires m <= n
    ensures P(m) <= P(n)
  {
    PowMonotone(BASE, m, n);
  }

  lemma VBound(s: seq<digit>, at: nat, n: nat)
    requires at + n <= |s|
    ensures V(s, at, n) < P(n)
  {
    ValBound(s[at..at + n], BASE);
  }

  lemma VEmpty(s: seq<digit>, at: nat)
    requires at <= |s|
    ensures V(s, at, 0) == 0 && P(0) == 1
  {
  }

  lemma VOne(s: seq<digit>, at: nat)
    requires at < |s|
    ensures V(s, at, 1) == s[at]
  {
    assert s[at..at + 1] == [s[at]];
    ValOne(s[at], BASE);
  }

  /** A range splits into its low k digits and the rest. */
  lemma VSplit(s: seq<digit>, at: nat, k: nat, n: nat)
    requires k <= n && at + n <= |s|
    ensures V(s, at, n) == V(s, at, k) + P(k) * V(s, at + k, n - k)
  {
    ValSplit(s[at..at + n], k, BASE);
    assert s[at..at + n][..k] == s[at..at + k] && s[at..at + n][k..] == s[at + k..at + n];
  }

  lemma VSnoc(s: seq<digit>, at: nat, n: nat)
    requires at + n < |s|
    ensures V(s, at, n + 1) == V(s, at, n) + P(n) * s[at + n]
  {
    VSplit(s, at, n, n + 1);
    VOne(s, at + n);
  }

  /** t is s changed at most from lo up to hi. */
  ghost predicate Only(s: seq<digit>, t: seq<digit>, lo: nat, hi: nat) {
    |s| == |t| && forall i :: 0 <= i < |s| && !(lo <= i < hi) ==> s[i] == t[i]
  }

  /** Values outside the changed range stay. */
  lemma VKeeps(s: seq<digit>, t: seq<digit>, lo: nat, hi: nat, at: nat, n: nat)
    requires Only(s, t, lo, hi) && at + n <= |s| && (at + n <= lo || hi <= at || n == 0)
    ensures V(t, at, n) == V(s, at, n)
  {
    assert s[at..at + n] == t[at..at + n];
  }

  /** Splitting x into a digit and a carry, at the column of weight p. */
  lemma Column(p: nat, x: nat)
    ensures p * x == p * (x % BASE) + (BASE * p) * (x / BASE)
  {
    var d, c := x % BASE, x / BASE;
    assert x == BASE * c + d;
    MulDistribute(BASE * c, d, p);
    MulAssoc(p, BASE, c);
    assert p * BASE == BASE * p;
  }

  // ---- Length and comparison --------------------------------------------------------------

  /** No leading zero digit, except in the number zero. */
  ghost predicate Normal(s: seq<digit>, a: nat, na: nat) {
    0 < na && a + na <= |s| && (na == 1 || s[a + na - 1] != 0)
  }

  method Length(m: array<digit>, a: nat, na: nat) returns (n: nat)
    requires 0 < na && a + na <= m.Length
    ensures n <= na && Normal(m[..], a, n) && V(m[..], a, n) == V(m[..], a, na)
    ensures forall i :: a + n <= i < a + na ==> m[i] == 0
    ensures Normal(m[..], a, na) ==> n == na
  {
    n := na - 1;
    while n > 0 && m[a + n] == 0
      invariant n < na && V(m[..], a, n + 1) == V(m[..], a, na)
      invariant forall i :: a + n < i < a + na ==> m[i] == 0
    {
      VSnoc(m[..], a, n);
      assert P(n) * 0 == 0;
      n := n - 1;
    }
    n := n + 1;
  }

  /** A number with a leading digit is at least that digit's weight. */
  lemma NormalBound(s: seq<digit>, a: nat, na: nat)
    requires Normal(s, a, na) && na > 1
    ensures V(s, a, na) >= P(na - 1)
  {
    VSnoc(s, a, na - 1);
    MulMonotone(1, s[a + na - 1], P(na - 1));
  }

  /** Compare two numbers of n digits. */
  method CompareSame(m: array<digit>, a: nat, b: nat, n: nat) returns (c: int)
    requires 0 < n && a + n <= m.Length && b + n <= m.Length
    ensures c < 0 <==> V(m[..], a, n) < V(m[..], b, n)
    ensures c > 0 <==> V(m[..], a, n) > V(m[..], b, n)
  {
    var i := n - 1;
    while i > 0 && m[a + i] == m[b + i]
      invariant 0 <= i < n
      invariant V(m[..], a, n) - V(m[..], a, i + 1) == V(m[..], b, n) - V(m[..], b, i + 1)
    {
      VSnoc(m[..], a, i);
      VSnoc(m[..], b, i);
      i := i - 1;
    }
    TopDigit(m[..], a, b, i);
    if m[a + i] < m[b + i] {
      c := -1;
    } else if m[a + i] > m[b + i] {
      c := 1;
    } else {
      VEmpty(m[..], a);
      VEmpty(m[..], b);
      c := 0;
    }
  }

  /** The highest digit in which two numbers differ decides. */
  lemma TopDigit(s: seq<digit>, a: nat, b: nat, i: nat)
    requires a + i < |s| && b + i < |s|
    ensures s[a + i] < s[b + i] ==> V(s, a, i + 1) < V(s, b, i + 1)
    ensures s[a + i] > s[b + i] ==> V(s, a, i + 1) > V(s, b, i + 1)
    ensures s[a + i] == s[b + i] && i == 0 ==> V(s, a, i + 1) == V(s, b, i + 1)
  {
    var x, y := s[a + i], s[b + i];
    VSnoc(s, a, i);
    VSnoc(s, b, i);
    VBound(s, a, i);
    VBound(s, b, i);
    if x < y {
      HigherWins(P(i), x, y);
    } else if x > y {
      HigherWins(P(i), y, x);
    } else if i == 0 {
      VEmpty(s, a);
      VEmpty(s, b);
    }
  }

  lemma HigherWins(p: nat, x: int, y: int)
    requires x < y
    ensures p * x + p <= p * y
  {
    MulMonotone(x + 1, y, p);
    MulDistribute(x, 1, p);
  }

  // ---- One digit --------------------------------------------------------------------------

  /** Carry into a range for as long as there is a carry; the result is what is carried out. */
  method PropagateCarry(m: array<digit>, a: nat, na: nat, carry0: nat) returns (carry: nat)
    requires a + na <= m.Length
    modifies m
    ensures Only(old(m[..]), m[..], a, a + na)
    ensures V(m[..], a, na) + P(na) * carry == V(old(m[..]), a, na) + carry0
    ensures carry0 < BASE && na > 0 ==> carry <= 1
  {
    hide V, P;
    ghost var s := m[..];
    carry := carry0;
    VEmpty(s, a);
    var i := 0;
    while carry != 0 && i < na
      invariant 0 <= i <= na && Only(s, m[..], a, a + i) && 0 <= carry
      invariant carry0 < BASE ==> carry < BASE && (i > 0 ==> carry <= 1)
      invariant V(m[..], a, i) + P(i) * carry == V(s, a, i) + carry0
    {
      ghost var before := m[..];
      var x := carry + m[a + i];
      m[a + i] := x % BASE;
      carry := x / BASE;
      AddColumn(s, before, m[..], a, i, x);
      MulDistribute(before[a + i], x - before[a + i], P(i));
      i := i + 1;
    }
    RestUnchanged(s, m[..], a, i, na, carry, carry0);
  }

  /** Add a digit to a range; the result is the carry out. */
  method AddSingleInplace(m: array<digit>, a: nat, na: nat, carry0: nat) returns (carry: nat)
    requires 0 < na && a + na <= m.Length && carry0 < BASE
    modifies m
    ensures Only(old(m[..]), m[..], a, a + na) && carry <= 1
    ensures V(m[..], a, na) + P(na) * carry == V(old(m[..]), a, na) + carry0
  {
    carry := PropagateCarry(m, a, na, carry0);
  }

  /** Once there is no carry the higher digits stay. */
  lemma RestUnchanged(s: seq<digit>, t: seq<digit>, a: nat, i: nat, na: nat, carry: int, x: int)
    requires Only(s, t, a, a + i) && i <= na && a + na <= |s| && (carry == 0 || i == na)
    requires V(t, a, i) + P(i) * carry == V(s, a, i) + x
    ensures V(t, a, na) + P(na) * carry == V(s, a, na) + x
  {
    if i < na {
      VSplit(s, a, i, na);
      VSplit(t, a, i, na);
      VKeeps(s, t, a, a + i, a + i, na - i);
    }
  }

  /** Writing column i and carrying the rest to column i + 1. */
  lemma PutColumn(before: seq<digit>, t: seq<digit>, r: nat, i: nat, x: nat)
    requires r + i < |before| && t == before[r + i := x % BASE]
    ensures V(t, r, i + 1) + P(i + 1) * (x / BASE) == V(before, r, i) + P(i) * x
  {
    VSnoc(t, r, i);
    VKeeps(before, t, r + i, r + i + 1, r, i);
    Column(P(i), x);
    PStep(i);
  }

  /** One column of an in-place addition. */
  lemma AddColumn(s: seq<digit>, before: seq<digit>, t: seq<digit>, a: nat, i: nat, x: nat)
    requires a + i < |s| == |before| && before[a + i] == s[a + i] && t == before[a + i := x % BASE]
    ensures V(t, a, i + 1) + P(i + 1) * (x / BASE) == V(before, a, i) + P(i) * x
    ensures V(s, a, i + 1) == V(s, a, i) + P(i) * s[a + i]
  {
    PutColumn(before, t, a, i, x);
    VSnoc(s, a, i);
  }

  /** Subtract borrow from a range; the result is the borrow out. */
  method SubSingleInplace(m: array<digit>, a: nat, na: nat, borrow0: int) returns (borrow: int)
    requires 0 < na && a + na <= m.Length && 0 <= borrow0 < BASE
    modifies m
    ensures Only(old(m[..]), m[..], a, a + na)
    ensures V(m[..], a, na) - P(na) * borrow == V(old(m[..]), a, na) - borrow0
    ensures 0 <= borrow <= 1
  {
    hide V, P;
    ghost var s := m[..];
    borrow := borrow0;
    VEmpty(s, a);
    var i := 0;
    while borrow != 0 && i < na
      invariant 0 <= i <= na && Only(s, m[..], a, a + i) && 0 <= borrow < BASE && (i > 0 ==> borrow <= 1)
      invariant V(m[..], a, i) + P(i) * -borrow == V(s, a, i) - borrow0
    {
      ghost var before, x := m[..], borrow;
      if m[a + i] < borrow {
        m[a + i] := m[a + i] + (BASE - borrow);
        borrow := 1;
      } else {
        m[a + i] := m[a + i] - borrow;
        borrow := 0;
      }
      SubColumn(s, before, m[..], a, i, x, borrow);
      i := i + 1;
    }
    RestUnchanged(s, m[..], a, i, na, -borrow, -borrow0);
    assert P(na) * -borrow == -(P(na) * borrow);
  }

  /** One column of an in-place subtraction of x. */
  lemma SubColumn(s: seq<digit>, before: seq<digit>, t: seq<digit>, a: nat, i: nat, x: int, borrow: int)
    requires a + i < |s| == |before| && before[a + i] == s[a + i] && Only(before, t, a + i, a + i + 1)
    requires t[a + i] == s[a + i] - x + BASE * borrow
    ensures V(t, a, i + 1) + P(i + 1) * -borrow == V(before, a, i) + P(i) * s[a + i] + P(i) * -x
    ensures V(s, a, i + 1) == V(s, a, i) + P(i) * s[a + i]
  {
    VSnoc(t, a, i);
    VSnoc(s, a, i);
    VKeeps(before, t, a + i, a + i + 1, a, i);
    PStep(i);
    SubDigit(P(i), s[a + i], x, borrow);
  }

  lemma SubDigit(p: nat, d: int, x: int, borrow: int)
    ensures p * (d - x + BASE * borrow) + (BASE * p) * -borrow == p * d + p * -x
  {
    MulDistribute(d - x, BASE * borrow, p);
    MulDistribute(d, x, p);
    MulAssoc(p, BASE, borrow);
    assert p * BASE == BASE * p;
    assert (BASE * p) * -borrow == -((BASE * p) * borrow);
    assert p * -x == -(p * x);
  }

  /** A digit times a digit and two more digits fit a double word. */
  lemma DigitProduct(x: int, y: int)
    requires 0 <= x < BASE && 0 <= y < BASE
    ensures 0 <= x * y <= DOUBLE - 2 * BASE + 1
  {
    MulMonotone(x, BASE - 1, y);
    MulMonotone(y, BASE - 1, BASE - 1);
    MulSign(x, y);
  }

  /** The column of weight p of a product with the digit b. */
  lemma ProductColumn(s: seq<digit>, a: nat, i: nat, b: int)
    requires a + i < |s|
    ensures V(s, a, i + 1) * b == V(s, a, i) * b + P(i) * (s[a + i] * b)
  {
    VSnoc(s, a, i);
    MulDistribute(V(s, a, i), P(i) * s[a + i], b);
    MulAssoc(P(i), s[a + i], b);
  }

  /** r = a * b; the result is the digit carried out. */
  method MulSingle(m: array<digit>, r: nat, a: nat, na: nat, b: int) returns (carry: nat)
    requires r + na <= m.Length && a + na <= m.Length && Apart(r, na, a, na) && 0 <= b < BASE
    modifies m
    ensures Only(old(m[..]), m[..], r, r + na) && carry < BASE
    ensures V(m[..], r, na) + P(na) * carry == V(old(m[..]), a, na) * b
  {
    hide V, P;
    ghost var s := m[..];
    carry := 0;
    VEmpty(s, a);
    VEmpty(s, r);
    for i := 0 to na
      invariant Only(s, m[..], r, r + i) && 0 <= carry < BASE
      invariant V(m[..], r, i) + P(i) * carry == V(s, a, i) * b
    {
      ghost var before := m[..];
      DigitProduct(m[a + i], b);
      var x := carry + m[a + i] * b;
      assert x < DOUBLE;
      m[r + i] := x % BASE;
      PutColumn(before, m[..], r, i, x);
      ProductColumn(s, a, i, b);
      MulDistribute(carry, m[a + i] * b, P(i));
      carry := x / BASE;
    }
  }

  /** r = r * b; the result is the digit carried out. */
  method MulSingleInplace(m: array<digit>, r: nat, nr: nat, b: int) returns (carry: nat)
    requires r + nr <= m.Length && 0 <= b < BASE
    modifies m
    ensures Only(old(m[..]), m[..], r, r + nr) && carry < BASE
    ensures V(m[..], r, nr) + P(nr) * carry == V(old(m[..]), r, nr) * b
  {
    hide V, P;
    ghost var s := m[..];
    carry := 0;
    VEmpty(s, r);
    for i := 0 to nr
      invariant Only(s, m[..], r, r + i) && 0 <= carry < BASE
      invariant V(m[..], r, i) + P(i) * carry == V(s, r, i) * b
    {
      ghost var before := m[..];
      DigitProduct(m[r + i], b);
      var x := carry + m[r + i] * b;
      assert x < DOUBLE;
      m[r + i] := x % BASE;
      PutColumn(before, m[..], r, i, x);
      ProductColumn(s, r, i, b);
      MulDistribute(carry, s[r + i] * b, P(i));
      carry := x / BASE;
    }
  }

  /** r = r + a * b; the result is what is carried out of r. */
  method MulSingleAccumulate(m: array<digit>, r: nat, nr: nat, a: nat, na: nat, b: int) returns (carry: nat)
    requires r + nr <= m.Length && a + na <= m.Length && Apart(r, nr, a, na) && 0 <= b < BASE && na <= nr
    modifies m
    ensures Only(old(m[..]), m[..], r, r + nr)
    ensures V(m[..], r, nr) + P(nr) * carry == V(old(m[..]), r, nr) + V(old(m[..]), a, na) * b
  {
    hide V, P;
    ghost var s := m[..];
    carry := 0;
    VEmpty(s, a);
    VEmpty(s, r);
    for i := 0 to na
      invariant Only(s, m[..], r, r + i) && 0 <= carry < BASE
      invariant V(m[..], r, i) + P(i) * carry == V(s, r, i) + V(s, a, i) * b
    {
      ghost var before := m[..];
      DigitProduct(m[a + i], b);
      var x := carry + m[a + i] * b + m[r + i];
      assert x < DOUBLE;
      m[r + i] := x % BASE;
      AddColumn(s, before, m[..], r, i, x);
      ProductColumn(s, a, i, b);
      ThreeTerms(P(i), carry, s[a + i] * b, s[r + i]);
      carry := x / BASE;
    }
    if nr > na {
      ghost var t, c := m[..], carry;
      carry := AddSingleInplace(m, r + na, nr - na, carry);
      UpperCarry(s, t, m[..], r, na, nr, c, carry, V(s, a, na) * b);
    }
  }

  lemma ThreeTerms(p: nat, x: int, y: int, z: int)
    ensures p * (x + y + z) == p * x + p * y + p * z
  {
    MulDistribute(x + y, z, p);
    MulDistribute(x, y, p);
  }

  /** Carrying what is left of a sum over the low k digits into the digits above them. */
  lemma UpperCarry(s: seq<digit>, t: seq<digit>, u: seq<digit>, r: nat, k: nat, n: nat, c: int, carry: int, x: int)
    requires r + n <= |s| && k <= n && Only(s, t, r, r + k) && Only(t, u, r + k, r + n)
    requires V(t, r, k) + P(k) * c == V(s, r, k) + x
    requires V(u, r + k, n - k) + P(n - k) * carry == V(t, r + k, n - k) + c
    ensures V(u, r, n) + P(n) * carry == V(s, r, n) + x
  {
    VSplit(s, r, k, n);
    VSplit(u, r, k, n);
    VKeeps(t, u, r + k, r + n, r, k);
    VKeeps(s, t, r, r + k, r + k, n - k);
    PAdd(k, n - k);
    var p, q := P(k), P(n - k);
    MulAssoc(p, q, carry);
    MulDistribute(V(u, r + k, n - k), q * carry, p);
    MulDistribute(V(s, r + k, n - k), c, p);
  }

  // ---- Many digits ------------------------------------------------------------------------

  /** One more column of a sum. */
  lemma SumColumn(s: seq<digit>, before: seq<digit>, t: seq<digit>, r: nat, a: nat, b: nat, i: nat, c: nat, x: nat)
    requires r + i < |before| == |s| && a + i < |s| && b + i < |s|
    requires t == before[r + i := x % BASE] && x == c + s[a + i] + s[b + i]
    requires V(before, r, i) + P(i) * c == V(s, a, i) + V(s, b, i)
    ensures V(t, r, i + 1) + P(i + 1) * (x / BASE) == V(s, a, i + 1) + V(s, b, i + 1)
  {
    hide V, P;
    PutColumn(before, t, r, i, x);
    VSnoc(s, a, i);
    VSnoc(s, b, i);
    ThreeTerms(P(i), c, s[a + i], s[b + i]);
  }

  /** r = a + b for na >= nb; the result is the carry out. */
  method AddLonger(m: array<digit>, r: nat, a: nat, na: nat, b: nat, nb: nat) returns (carry: nat)
    requires r + na <= m.Length && a + na <= m.Length && b + nb <= m.Length && nb <= na
    requires Apart(r, na, a, na) && Apart(r, na, b, nb)
    modifies m
    ensures Only(old(m[..]), m[..], r, r + na) && carry <= 1
    ensures V(m[..], r, na) + P(na) * carry == V(old(m[..]), a, na) + V(old(m[..]), b, nb)
  {
    hide V, P;
    ghost var s := m[..];
    carry := 0;
    VEmpty(s, a);
    VEmpty(s, b);
    VEmpty(s, r);
    for i := 0 to nb
      invariant Only(s, m[..], r, r + i) && 0 <= carry <= 1
      invariant V(m[..], r, i) + P(i) * carry == V(s, a, i) + V(s, b, i)
    {
      ghost var before := m[..];
      var x := carry + m[a + i] + m[b + i];
      m[r + i] := x % BASE;
      SumColumn(s, before, m[..], r, a, b, i, carry, x);
      carry := x / BASE;
    }
    for i := nb to na
      invariant Only(s, m[..], r, r + i) && 0 <= carry <= 1
      invariant V(m[..], r, i) + P(i) * carry == V(s, a, i) + V(s, b, nb)
    {
      ghost var before := m[..];
      var x := carry + m[a + i];
      m[r + i] := x % BASE;
      PutColumn(before, m[..], r, i, x);
      VSnoc(s, a, i);
      MulDistribute(carry, s[a + i], P(i));
      carry := x / BASE;
    }
  }

  method Add(m: array<digit>, r: nat, a: nat, na: nat, b: nat, nb: nat) returns (carry: nat)
    requires Normal(m[..], a, na) && Normal(m[..], b, nb)
    requires var nr := if na < nb then nb else na;
      r + nr <= m.Length && Apart(r, nr, a, na) && Apart(r, nr, b, nb)
    modifies m
    ensures var nr := if na < nb then nb else na;
      && Only(old(m[..]), m[..], r, r + nr) && carry <= 1
      && V(m[..], r, nr) + P(nr) * carry == V(old(m[..]), a, na) + V(old(m[..]), b, nb)
  {
    if na < nb {
      carry := AddLonger(m, r, b, nb, a, na);
    } else {
      carry := AddLonger(m, r, a, na, b, nb);
    }
  }

  /** r = r + a, where a may be r; the result is what is carried out of r. */
  method AddInplace(m: array<digit>, r: nat, nr: nat, a: nat, na: nat) returns (carry: nat)
    requires r + nr <= m.Length && Normal(m[..], a, na) && (Apart(r, nr, a, na) || r == a) && na <= nr
    modifies m
    ensures Only(old(m[..]), m[..], r, r + nr) && carry <= 1
    ensures V(m[..], r, nr) + P(nr) * carry == V(old(m[..]), r, nr) + V(old(m[..]), a, na)
  {
    hide V, P;
    ghost var s := m[..];
    carry := 0;
    VEmpty(s, a);
    VEmpty(s, r);
    for i := 0 to na
      invariant Only(s, m[..], r, r + i) && 0 <= carry <= 1
      invariant V(m[..], r, i) + P(i) * carry == V(s, r, i) + V(s, a, i)
    {
      ghost var before := m[..];
      var x := carry + m[r + i] + m[a + i];
      m[r + i] := x % BASE;
      AddColumn(s, before, m[..], r, i, x);
      VSnoc(s, a, i);
      ThreeTerms(P(i), carry, s[r + i], s[a + i]);
      carry := x / BASE;
    }
    ghost var sum := V(s, a, na);
    var i := na;
    while carry != 0 && i < nr
      invariant na <= i <= nr && Only(s, m[..], r, r + i) && 0 <= carry <= 1
      invariant V(m[..], r, i) + P(i) * carry == V(s, r, i) + sum
    {
      ghost var before := m[..];
      var x := carry + m[r + i];
      m[r + i] := x % BASE;
      AddColumn(s, before, m[..], r, i, x);
      MulDistribute(carry, s[r + i], P(i));
      carry := x / BASE;
      i := i + 1;
    }
    RestUnchanged(s, m[..], r, i, nr, carry, sum);
  }

  /** r = r - a; the result is the borrow out of r. */
  method SubInplace(m: array<digit>, r: nat, nr: nat, a: nat, na: nat) returns (borrow: int)
    requires r + nr <= m.Length && Normal(m[..], a, na) && Apart(r, nr, a, na) && na <= nr
    modifies m
    ensures Only(old(m[..]), m[..], r, r + nr) && 0 <= borrow <= 1
    ensures V(m[..], r, nr) + P(nr) * -borrow == V(old(m[..]), r, nr) - V(old(m[..]), a, na)
  {
    hide V, P;
    ghost var s := m[..];
    borrow := 0;
    VEmpty(s, a);
    VEmpty(s, r);
    for i := 0 to na
      invariant Only(s, m[..], r, r + i) && 0 <= borrow <= 1
      invariant V(m[..], r, i) + P(i) * -borrow == V(s, r, i) - V(s, a, i)
    {
      ghost var before, x := m[..], borrow + m[a + i];
      ghost var owed := borrow;
      borrow := borrow + m[a + i];
      if m[r + i] < borrow {
        m[r + i] := m[r + i] + (BASE - borrow);
        borrow := 1;
      } else {
        m[r + i] := m[r + i] - borrow;
        borrow := 0;
      }
      SubColumn(s, before, m[..], r, i, x, borrow);
      VSnoc(s, a, i);
      assert P(i) * -x == P(i) * -owed - P(i) * s[a + i] by { MulDistribute(-owed, s[a + i], P(i)); }
    }
    ghost var sum: int := V(s, a, na);
    var i := na;
    while borrow != 0 && i < nr
      invariant na <= i <= nr && Only(s, m[..], r, r + i) && 0 <= borrow <= 1
      invariant V(m[..], r, i) + P(i) * -borrow == V(s, r, i) - sum
    {
      ghost var before, x := m[..], borrow;
      if m[r + i] < borrow {
        assert m[r + i] == 0 && borrow == 1;
        m[r + i] := BASE - 1;
      } else {
        m[r + i] := m[r + i] - borrow;
        borrow := 0;
      }
      SubColumn(s, before, m[..], r, i, x, borrow);
      i := i + 1;
    }
    RestUnchanged(s, m[..], r, i, nr, -borrow, -sum);
  }

  // ---- Accumulation modulo the size of the target -----------------------------------------

  /** From s to t the nr digits at r grew by x, except for a multiple of P(nr) carried out. */
  ghost predicate Adds(s: seq<digit>, t: seq<digit>, r: nat, nr: nat, x: int)
    requires r + nr <= |s| == |t|
  {
    exists k: int :: AddsBy(s, t, r, nr, x, k)
  }

  ghost predicate AddsBy(s: seq<digit>, t: seq<digit>, r: nat, nr: nat, x: int, k: int)
    requires r + nr <= |s| == |t|
  {
    V(t, r, nr) + P(nr) * k == V(s, r, nr) + x
  }

  lemma Carried(s: seq<digit>, t: seq<digit>, r: nat, nr: nat, x: int) returns (k: int)
    requires r + nr <= |s| == |t| && Adds(s, t, r, nr, x)
    ensures AddsBy(s, t, r, nr, x, k)
  {
    k :| AddsBy(s, t, r, nr, x, k);
  }

  /** What leaves the target tells whether the sum fits. */
  lemma CarryMeans(s: seq<digit>, t: seq<digit>, r: nat, nr: nat, x: int, k: int)
    requires r + nr <= |s| == |t| && AddsBy(s, t, r, nr, x, k)
    ensures k > 0 <==> V(s, r, nr) + x >= P(nr)
    ensures k < 0 <==> V(s, r, nr) + x < 0
    ensures V(t, r, nr) == (V(s, r, nr) + x) % P(nr)
  {
    hide V, P;
    VBound(t, r, nr);
    PStep(nr);
    if k > 0 {
      MulMonotone(1, k, P(nr));
    } else if k < 0 {
      MulMonotone(k, -1, P(nr));
    } else {
      assert P(nr) * k == 0;
    }
    DivModUnique(V(t, r, nr), k, P(nr));
  }

  lemma AddsCarrying(s: seq<digit>, t: seq<digit>, r: nat, nr: nat, x: int, k: int)
    requires r + nr <= |s| == |t| && V(t, r, nr) + P(nr) * k == V(s, r, nr) + x
    ensures Adds(s, t, r, nr, x)
  {
    assert AddsBy(s, t, r, nr, x, k);
  }

  lemma AddsNothing(s: seq<digit>, t: seq<digit>, r: nat, nr: nat)
    requires r + nr <= |s| == |t| && V(s, r, nr) == V(t, r, nr)
    ensures Adds(s, t, r, nr, 0)
  {
    assert P(nr) * 0 == 0;
    assert AddsBy(s, t, r, nr, 0, 0);
  }

  lemma AddsBoth(s: seq<digit>, t: seq<digit>, u: seq<digit>, r: nat, nr: nat, x: int, y: int)
    requires r + nr <= |s| == |t| == |u| && Adds(s, t, r, nr, x) && Adds(t, u, r, nr, y)
    ensures Adds(s, u, r, nr, x + y)
  {
    hide V, P;
    var k := Carried(s, t, r, nr, x);
    var l := Carried(t, u, r, nr, y);
    MulDistribute(k, l, P(nr));
    assert AddsBy(s, u, r, nr, x + y, k + l);
  }

  /** What is added to the digits from offset k on is added P(k)-fold to the whole range. */
  lemma AddsShifted(s: seq<digit>, t: seq<digit>, r: nat, nr: nat, k: nat, x: int)
    requires k <= nr && r + nr <= |s| && Only(s, t, r + k, r + nr)
    requires Adds(s, t, r + k, nr - k, x)
    ensures Adds(s, t, r, nr, P(k) * x)
  {
    hide V, P;
    var l := Carried(s, t, r + k, nr - k, x);
    ShiftedBy(s, t, r, nr, k, x, l);
  }

  /** And the same leaves the whole range. */
  lemma ShiftedBy(s: seq<digit>, t: seq<digit>, r: nat, nr: nat, k: nat, x: int, l: int)
    requires k <= nr && r + nr <= |s| && Only(s, t, r + k, r + nr)
    requires AddsBy(s, t, r + k, nr - k, x, l)
    ensures AddsBy(s, t, r, nr, P(k) * x, l)
  {
    hide V, P;
    VSplit(s, r, k, nr);
    VSplit(t, r, k, nr);
    VKeeps(s, t, r + k, r + nr, r, k);
    PAdd(k, nr - k);
    var p, q := P(k), P(nr - k);
    MulAssoc(p, q, l);
    MulDistribute(V(t, r + k, nr - k), q * l, p);
    MulDistribute(V(s, r + k, nr - k), x, p);
  }

  /** When the sum fits, nothing is carried out. */
  lemma AddsFits(s: seq<digit>, t: seq<digit>, r: nat, nr: nat, x: int)
    requires r + nr <= |s| == |t| && Adds(s, t, r, nr, x)
    ensures V(t, r, nr) == (V(s, r, nr) + x) % P(nr)
    ensures 0 <= V(s, r, nr) + x < P(nr) ==> V(t, r, nr) == V(s, r, nr) + x
  {
    hide V;
    var k := Carried(s, t, r, nr, x);
    VBound(t, r, nr);
    DivModUnique(V(t, r, nr), k, P(nr));
    if 0 <= V(s, r, nr) + x < P(nr) {
      assert P(nr) * 0 == 0;
      DivModUnique(V(s, r, nr) + x, 0, P(nr));
    }
  }

  // ---- Multiplication ---------------------------------------------------------------------

  /** Schoolbook: r = r + a * b. */
  method MulSmallAccumulate(m: array<digit>, r: nat, nr: nat, a: nat, na: nat, b: nat, nb: nat)
    requires Normal(m[..], a, na) && Normal(m[..], b, nb) && nb <= na && na + nb <= nr && r + nr <= m.Length
    requires Apart(r, nr, a, na) && Apart(r, nr, b, nb)
    modifies m
    ensures Only(old(m[..]), m[..], r, r + nr)
    ensures Adds(old(m[..]), m[..], r, nr, V(old(m[..]), a, na) * V(old(m[..]), b, nb))
  {
    hide V, P, Adds;
    ghost var s := m[..];
    ghost var x := V(s, a, na);
    VEmpty(s, b);
    AddsNothing(s, s, r, nr);
    for i := 0 to nb
      invariant Only(s, m[..], r, r + nr) && Adds(s, m[..], r, nr, x * V(s, b, i))
    {
      ghost var before := m[..];
      VKeeps(s, before, r, r + nr, a, na);
      ghost var d := m[b + i];
      var carry := MulSingleAccumulate(m, r + i, nr - i, a, na, m[b + i]);
      AddsCarrying(before, m[..], r + i, nr - i, x * d, carry);
      SmallStep(s, before, m[..], r, nr, b, i, x, d);
    }
  }

  lemma SmallStep(s: seq<digit>, t: seq<digit>, u: seq<digit>, r: nat, nr: nat, b: nat, i: nat, x: int, d: int)
    requires i <= nr && r + nr <= |s| && b + i < |s| && d == s[b + i]
    requires Only(s, t, r, r + nr) && Only(t, u, r + i, r + nr)
    requires Adds(s, t, r, nr, x * V(s, b, i)) && Adds(t, u, r + i, nr - i, x * d)
    ensures Adds(s, u, r, nr, x * V(s, b, i + 1))
  {
    hide V, P, Adds;
    AddsShifted(t, u, r, nr, i, x * d);
    AddsBoth(s, t, u, r, nr, x * V(s, b, i), P(i) * (x * d));
    VSnoc(s, b, i);
    MulDistribute(V(s, b, i), P(i) * d, x);
    assert x * (P(i) * d) == P(i) * (x * d) by {
      MulAssoc(x, P(i), d);
      MulAssoc(P(i), x, d);
      assert x * P(i) == P(i) * x;
    }
  }

  // ---- Scratch space ------------------------------------------------------------------------

  /** The scratch digits for two numbers of n digits whose leading digits are small enough that the sums of halves of
      an odd length do not carry. */
  function TightScratch(n: nat): nat {
    if n <= RECURSIVE_LIMIT_N then 0 else 2 * (n / 2 + 1) + TightScratch(n / 2 + 1)
  }

  /** The scratch digits for any two numbers of n digits: after the first sums, leading digits are small. */
  function Scratch(n: nat): nat {
    if n <= RECURSIVE_LIMIT_N then 0 else TightScratch(n + 1)
  }

  lemma ScratchStep(n: nat)
    requires n > RECURSIVE_LIMIT_N
    ensures TightScratch(n) == 2 * (n / 2 + 1) + TightScratch(n / 2 + 1)
    ensures Scratch(n) == 2 * (n - n / 2 + 1) + TightScratch(n - n / 2 + 1)
  {
    assert (n + 1) / 2 == n - n / 2;
  }

  lemma {:induction false} TightMonotone(m: nat, n: nat)
    requires m <= n
    ensures TightScratch(m) <= TightScratch(n)
  {
    if m > RECURSIVE_LIMIT_N {
      TightMonotone(m / 2 + 1, n / 2 + 1);
    }
  }

  lemma ScratchMonotone(m: nat, n: nat)
    requires m <= n
    ensures Scratch(m) <= Scratch(n) && TightScratch(n) <= Scratch(n) <= TightScratch(n + 1)
  {
    hide TightScratch;
    TightMonotone(m + 1, n + 1);
    TightMonotone(n, n + 1);
    TightNothing(n);
  }

  lemma TightNothing(n: nat)
    ensures n <= RECURSIVE_LIMIT_N ==> TightScratch(n) == 0
  {
  }

  /** Twice the length and a few digits suffice. */
  lemma {:induction false} TightBound(n: nat, j: nat)
    requires RECURSIVE_LIMIT_N < n < 63 * Pow(2, j) + 2
    ensures j > 0 && TightScratch(n) + 66 <= 2 * n + 4 * j
  {
    var q := n / 2 + 1;
    assert j > 0;
    if q > RECURSIVE_LIMIT_N {
      TightBound(q, j - 1);
    }
  }

  /** Twice the length suffices up to this many digits. */
  const ENOUGH: nat := 4128768

  lemma PowSixteen()
    ensures Pow(2, 16) == 65536
  {
    assert Pow(2, 4) == 16;
    PowAdd(2, 4, 4);
    PowAdd(2, 8, 8);
  }

  lemma ScratchEnough(n: nat)
    requires n <= ENOUGH
    ensures Scratch(n) <= 2 * n
  {
    if n > RECURSIVE_LIMIT_N {
      PowSixteen();
      TightBound(n + 1, 16);
    }
  }

  /** How often numbers of n digits are halved. */
  function Depth(n: nat): nat {
    if n <= RECURSIVE_LIMIT_N then 0 else 1 + Depth(n / 2 + 1)
  }

  lemma {:induction false} DepthBound(n: nat, j: nat)
    requires n <= Pow(2, j) + 2
    ensures Depth(n) <= j
  {
    if n > RECURSIVE_LIMIT_N {
      DepthBound(n / 2 + 1, j - 1);
    }
  }

  /** The lengths of the source's buffers are below this. */
  const INT_LIMIT: nat := 0x8000_0000

  /** A leading digit below this grows by one at each halving and stays a digit. */
  function Cap(n: nat): int {
    BASE - Depth(n)
  }

  lemma CapStep(n: nat)
    requires n < INT_LIMIT
    ensures 2 <= Cap(n) <= BASE && (n > RECURSIVE_LIMIT_N ==> Cap(n / 2 + 1) == Cap(n) + 1)
  {
    PowOfTwo31();
    DepthBound(n, 31);
  }

  ghost predicate Tight(x: int, n: nat) {
    n > 0 && x < Cap(n) * P(n - 1)
  }

  /** The scratch digits for these two numbers. */
  ghost function Demand(x: int, nx: nat, y: int, ny: nat): nat {
    if nx == ny && Tight(x, nx) && Tight(y, ny) then TightScratch(nx) else Scratch(Min(nx, ny))
  }

  lemma DemandBound(x: int, nx: nat, y: int, ny: nat, n: nat)
    requires Min(nx, ny) <= n
    ensures Demand(x, nx, y, ny) <= Scratch(n) && Demand(x, nx, y, ny) <= TightScratch(n + 1)
    ensures nx == ny && Tight(x, nx) && Tight(y, ny) ==> Demand(x, nx, y, ny) == TightScratch(nx)
  {
    hide Scratch, TightScratch, Tight;
    ScratchMonotone(Min(nx, ny), n);
    ScratchMonotone(Min(nx, ny), Min(nx, ny));
  }

  /** Values of an upper half with a leading digit and of a lower half. */
  ghost predicate HalfSized(n: nat, half: nat, x1: int, x0: int) {
    half < n && P(n - half - 1) <= x1 < P(n - half) && 0 <= x0 < P(half)
  }

  /** The length of the sum of the halves: that of the upper half, or one more digit. */
  ghost function SumSize(n: nat, x: int): (k: nat)
    ensures n - n / 2 <= k <= n - n / 2 + 1
  {
    if x < P(n - n / 2) then n - n / 2 else n - n / 2 + 1
  }

  /** A sum of halves has a small leading digit. */
  lemma SumTight(n: nat, half: nat, x1: int, x0: int)
    requires RECURSIVE_LIMIT_N < n < INT_LIMIT && half == n / 2 && HalfSized(n, half, x1, x0)
    ensures Tight(x1 + x0, n - half + 1)
  {
    hide P;
    CapStep(n - half + 1);
    PMonotone(half, n - half);
    MulMonotone(2, Cap(n - half + 1), P(n - half));
  }

  /** If the leading digit of a number of odd length is small, so are those of its upper half and of the sum. */
  lemma StaysTight(n: nat, half: nat, x: int, x1: int, x0: int)
    requires RECURSIVE_LIMIT_N < n < INT_LIMIT && half == n / 2 && n % 2 == 1 && HalfSized(n, half, x1, x0)
    requires x == x0 + P(half) * x1 && Tight(x, n)
    ensures SumSize(n, x1 + x0) == n - half && Tight(x1 + x0, n - half) && Tight(x1, n - half)
  {
    hide P;
    var k, c := n - half, Cap(n);
    CapStep(n);
    CapStep(k);
    assert n / 2 + 1 == k && k - 1 == half;
    PAdd(half, half);
    assert n - 1 == half + half;
    PStep(half);
    MulAssoc(c, P(half), P(half));
    assert x1 < c * P(half) by {
      assert P(half) * x1 == x1 * P(half);
      MulCancelLess(x1, c * P(half), P(half));
    }
    MulDistribute(c, 1, P(half));
    MulMonotone(c + 1, BASE, P(half));
  }

  /** Each of the three products gets what it needs. */
  lemma SumsDemand(n: nat, half: nat, x: int, x1: int, x0: int, y: int, y1: int, y0: int, nx: nat, ny: nat)
    requires RECURSIVE_LIMIT_N < n < INT_LIMIT && half == n / 2 && HalfSized(n, half, x1, x0) && HalfSized(n, half, y1, y0)
    requires x == x0 + P(half) * x1 && y == y0 + P(half) * y1
    requires nx == SumSize(n, x1 + x0) && ny == SumSize(n, y1 + y0)
    ensures nx + ny + Demand(x1 + x0, nx, y1 + y0, ny) <= Demand(x, n, y, n)
  {
    hide P, TightScratch, Scratch, Tight, Demand, HalfSized;
    var k := n - half;
    ScratchStep(n);
    DemandBound(x, n, y, n, n);
    DemandBound(x1 + x0, nx, y1 + y0, ny, Min(nx, ny));
    if n % 2 == 1 && Tight(x, n) && Tight(y, n) {
      StaysTight(n, half, x, x1, x0);
      StaysTight(n, half, y, y1, y0);
    } else {
      SumTight(n, half, x1, x0);
      SumTight(n, half, y1, y0);
      DemandAtLeast(n, half, x, y);
    }
  }

  lemma DemandExact(x: int, nx: nat, y: int, ny: nat)
    requires nx != ny
    ensures Demand(x, nx, y, ny) == Scratch(Min(nx, ny))
  {
    hide Scratch, TightScratch, Tight;
  }

  lemma DemandAtLeast(n: nat, half: nat, x: int, y: int)
    requires n > RECURSIVE_LIMIT_N && half == n / 2 && !(n % 2 == 1 && Tight(x, n) && Tight(y, n))
    ensures Demand(x, n, y, n) == 2 * (n - half + 1) + TightScratch(n - half + 1)
  {
    hide TightScratch, Scratch, Tight;
    ScratchStep(n);
  }

  lemma HalvesDemand(n: nat, half: nat, x: int, x1: int, x0: int, y: int, y1: int, y0: int, nx: nat, ny: nat)
    requires RECURSIVE_LIMIT_N < n < INT_LIMIT && half == n / 2 && HalfSized(n, half, x1, x0) && HalfSized(n, half, y1, y0)
    requires x == x0 + P(half) * x1 && y == y0 + P(half) * y1 && nx <= half && ny <= half
    ensures 2 * (n - half) + Demand(x1, n - half, y1, n - half) <= Demand(x, n, y, n)
    ensures nx + ny + Demand(x0, nx, y0, ny) <= Demand(x, n, y, n)
  {
    hide P, TightScratch, Scratch, Tight, Demand, HalfSized;
    var k := n - half;
    ScratchStep(n);
    DemandBound(x, n, y, n, n);
    DemandBound(x1, k, y1, k, k);
    DemandBound(x0, nx, y0, ny, half);
    if n % 2 == 1 && Tight(x, n) && Tight(y, n) {
      StaysTight(n, half, x, x1, x0);
      StaysTight(n, half, y, y1, y0);
    } else {
      DemandAtLeast(n, half, x, y);
      TightMonotone(half + 1, k + 1);
    }
  }

  /** The sum of the halves. */
  ghost function HalvesSum(x: nat, n: nat): nat {
    PStep(n / 2);
    x / P(n / 2) + x % P(n / 2)
  }

  /** How far into the scratch space the sums of halves reach: the two sums of this call, and behind them those of the
      product of the sums if they are equally long. */
  ghost function SumsEnd(x: nat, y: nat, n: nat): nat
    decreases n
  {
    if n <= RECURSIVE_LIMIT_N then 0
    else
      var u, v := HalvesSum(x, n), HalvesSum(y, n);
      var nx, ny := SumSize(n, u), SumSize(n, v);
      nx + ny + if nx == ny then SumsEnd(u, v, nx) else 0
  }

  lemma SumOf(x: nat, n: nat, half: nat, x1: nat, x0: nat)
    requires half == n / 2 && x == x0 + P(half) * x1 && x0 < P(half)
    ensures HalvesSum(x, n) == x1 + x0
  {
    hide P;
    DivModUnique(x0, x1, P(half));
  }

  // ---- Recursive multiplication -----------------------------------------------------------

  /** u is s changed at most in the target range and in the scratch range. */
  ghost predicate Within(s: seq<digit>, u: seq<digit>, r: nat, nr: nat, t: nat, nt: nat) {
    |s| == |u| && forall i :: 0 <= i < |s| && !(r <= i < r + nr) && !(t <= i < t + nt) ==> s[i] == u[i]
  }

  lemma WithinKeeps(s: seq<digit>, u: seq<digit>, r: nat, nr: nat, t: nat, nt: nat, at: nat, n: nat)
    requires Within(s, u, r, nr, t, nt) && at + n <= |s| && Apart(r, nr, at, n) && Apart(t, nt, at, n)
    ensures V(u, at, n) == V(s, at, n)
    ensures n > 0 ==> (Normal(s, at, n) <==> Normal(u, at, n))
  {
    assert s[at..at + n] == u[at..at + n];
  }

  /** The two numbers, the target and the scratch space of a multiplication. */
  ghost predicate Operands(s: seq<digit>, r: nat, nr: nat, a: nat, na: nat, b: nat, nb: nat, t: nat, nt: nat) {
    && Normal(s, a, na) && Normal(s, b, nb) && na + nb <= nr && na < INT_LIMIT && nb < INT_LIMIT
    && r + nr <= |s| && t + nt <= |s| && Apart(r, nr, t, nt)
    && Apart(r, nr, a, na) && Apart(r, nr, b, nb) && Apart(t, nt, a, na) && Apart(t, nt, b, nb)
  }

  method SetZero(m: array<digit>, a: nat, na: nat)
    requires a + na <= m.Length
    modifies m
    ensures Only(old(m[..]), m[..], a, a + na) && V(m[..], a, na) == 0
  {
    for i := 0 to na
      invariant Only(old(m[..]), m[..], a, a + i)
      invariant forall j :: a <= j < a + i ==> m[j] == 0
    {
      m[a + i] := 0;
    }
    ValZeros(m[a..a + na], BASE);
  }

  /** Put x + y, without leading zeros, at d, where there is room for it; the result is its length. */
  method SumAt(m: array<digit>, d: nat, x: nat, nx: nat, y: nat, ny: nat, ghost size: nat) returns (n: nat)
    requires Normal(m[..], x, nx) && Normal(m[..], y, ny) && Max(nx, ny) <= size <= Max(nx, ny) + 1
    requires P(size - 1) <= V(m[..], x, nx) + V(m[..], y, ny) < P(size)
    requires d + size <= m.Length && Apart(d, size, x, nx) && Apart(d, size, y, ny)
    modifies m
    ensures n == size && Only(old(m[..]), m[..], d, d + size)
    ensures Normal(m[..], d, n) && V(m[..], d, n) == V(old(m[..]), x, nx) + V(old(m[..]), y, ny)
  {
    hide V, P;
    n := Max(nx, ny);
    var carry := Add(m, d, x, nx, y, ny);
    if carry != 0 {
      assert P(n) * carry == P(n);
      ghost var before := m[..];
      m[d + n] := 1;
      VSnoc(m[..], d, n);
      VKeeps(before, m[..], d + n, d + n + 1, d, n);
      n := n + 1;
    } else {
      assert P(n) * 0 == 0;
      n := Length(m, d, n);
      FullSize(m[..], d, n, size);
    }
  }

  lemma FullSize(s: seq<digit>, d: nat, n: nat, size: nat)
    requires d + n <= |s| && size > 0 && P(size - 1) <= V(s, d, n)
    ensures n >= size
  {
    hide V, P;
    VBound(s, d, n);
    if n < size {
      PMonotone(n, size - 1);
    }
  }

  /** r = r + a * b modulo the size of r. The result is how far into the scratch space the sums of halves have
      reached, which no call with less scratch space could do. */
  method MulAccumulate(m: array<digit>, r: nat, nr: nat, a: nat, na: nat, b: nat, nb: nat, t: nat, nt: nat)
    returns (ghost used: nat)
    requires Operands(m[..], r, nr, a, na, b, nb, t, nt) && Demand(V(m[..], a, na), na, V(m[..], b, nb), nb) <= nt
    modifies m
    ensures Within(old(m[..]), m[..], r, nr, t, nt)
    ensures Adds(old(m[..]), m[..], r, nr, V(old(m[..]), a, na) * V(old(m[..]), b, nb))
    ensures na == nb ==> SumsEnd(V(old(m[..]), a, na), V(old(m[..]), b, nb), na) <= used
    ensures used <= nt
    decreases Max(na, nb), 4
  {
    hide SumsEnd, Demand;
    if na < nb {
      DemandBound(V(m[..], b, nb), nb, V(m[..], a, na), na, na);
      DemandExact(V(m[..], a, na), na, V(m[..], b, nb), nb);
      used := MulOrdered(m, r, nr, b, nb, a, na, t, nt);
      assert V(old(m[..]), a, na) * V(old(m[..]), b, nb) == V(old(m[..]), b, nb) * V(old(m[..]), a, na);
    } else {
      used := MulOrdered(m, r, nr, a, na, b, nb, t, nt);
    }
  }

  method MulOrdered(m: array<digit>, r: nat, nr: nat, a: nat, na: nat, b: nat, nb: nat, t: nat, nt: nat)
    returns (ghost used: nat)
    requires Operands(m[..], r, nr, a, na, b, nb, t, nt) && Demand(V(m[..], a, na), na, V(m[..], b, nb), nb) <= nt
    requires nb <= na
    modifies m
    ensures Within(old(m[..]), m[..], r, nr, t, nt)
    ensures Adds(old(m[..]), m[..], r, nr, V(old(m[..]), a, na) * V(old(m[..]), b, nb))
    ensures na == nb ==> SumsEnd(V(old(m[..]), a, na), V(old(m[..]), b, nb), na) <= used
    ensures used <= nt
    decreases na, 3
  {
    hide V, P, Adds, Demand;
    used := 0;
    if na <= RECURSIVE_LIMIT_N || nb <= 2 {
      MulSmallAccumulate(m, r, nr, a, na, b, nb);
      return;
    }
    if na == nb {
      used := MulSameSizeAccumulate(m, r, nr, a, b, nb, t, nt);
      return;
    }
    hide SumsEnd;
    ghost var s := m[..];
    DemandExact(V(s, a, na), na, V(s, b, nb), nb);
    var i: nat := 0;
    VEmpty(s, a);
    AddsNothing(s, s, r, nr);
    while i + nb <= na
      invariant i <= na && Within(s, m[..], r, nr, t, nt) && used <= nt
      invariant Adds(s, m[..], r, nr, V(s, a, i) * V(s, b, nb))
      decreases na - i
    {
      ghost var more := MulBlock(m, r, nr, a, na, i, nb, b, nb, t, nt, s);
      used := Max(used, more);
      i := i + nb;
    }
    if i < na {
      ghost var more := MulBlock(m, r, nr, a, na, i, na - i, b, nb, t, nt, s);
      used := Max(used, more);
    }
  }

  /** Multiply the block of n digits of a from digit i on. */
  method MulBlock(m: array<digit>, r: nat, nr: nat, a: nat, na: nat, i: nat, n: nat, b: nat, nb: nat, t: nat,
    nt: nat, ghost s: seq<digit>) returns (ghost used: nat)
    requires Operands(s, r, nr, a, na, b, nb, t, nt) && Within(s, m[..], r, nr, t, nt)
    requires 0 < n <= nb < na && i + n <= na && Scratch(nb) <= nt
    requires Adds(s, m[..], r, nr, V(s, a, i) * V(s, b, nb))
    modifies m
    ensures Within(s, m[..], r, nr, t, nt)
    ensures Adds(s, m[..], r, nr, V(s, a, i + n) * V(s, b, nb)) && used <= nt
    decreases nb, 5
  {
    hide V, P, Adds, Demand, Scratch, SumsEnd;
    ghost var before := m[..];
    WithinKeeps(s, before, r, nr, t, nt, b, nb);
    WithinKeeps(s, before, r, nr, t, nt, a + i, n);
    var len := Length(m, a + i, n);
    BlockOperands(s, before, r, nr, a, na, i, len, b, nb, t, nt);
    DemandBound(V(before, b, nb), nb, V(before, a + i, len), len, nb);
    used := MulAccumulate(m, r + i, nr - i, b, nb, a + i, len, t, nt);
    BlockStep(s, before, m[..], r, nr, a, i, n, V(s, b, nb), t, nt);
  }

  lemma BlockOperands(s: seq<digit>, u: seq<digit>, r: nat, nr: nat, a: nat, na: nat, i: nat, len: nat, b: nat, nb: nat,
    t: nat, nt: nat)
    requires Operands(s, r, nr, a, na, b, nb, t, nt) && |u| == |s| && Normal(u, b, nb) && Normal(u, a + i, len)
    requires len <= nb < na && i + len <= na
    ensures Operands(u, r + i, nr - i, b, nb, a + i, len, t, nt)
  {
  }

  lemma BlockStep(s: seq<digit>, before: seq<digit>, u: seq<digit>, r: nat, nr: nat, a: nat, i: nat, n: nat,
    y: int, t: nat, nt: nat)
    requires i <= nr && r + nr <= |s| == |before| == |u| && a + i + n <= |s| && t + nt <= |s|
    requires Adds(s, before, r, nr, V(s, a, i) * y) && Adds(before, u, r + i, nr - i, y * V(s, a + i, n))
    requires Within(before, u, r + i, nr - i, t, nt) && Apart(r, nr, t, nt)
    ensures Adds(s, u, r, nr, V(s, a, i + n) * y)
  {
    hide V, P, Adds;
    var x, z := V(s, a, i), V(s, a + i, n);
    AddsLifted(before, u, r, nr, i, y * z, t, nt);
    AddsBoth(s, before, u, r, nr, x * y, P(i) * (y * z));
    VSplit(s, a, i, i + n);
    MulDistribute(x, P(i) * z, y);
    assert (P(i) * z) * y == P(i) * (y * z) by {
      MulAssoc(P(i), z, y);
      assert z * y == y * z;
    }
  }

  /** What is added from offset k on, the scratch space aside, is added P(k)-fold to the target. */
  lemma AddsLifted(s: seq<digit>, u: seq<digit>, r: nat, nr: nat, k: nat, x: int, t: nat, nt: nat)
    requires k <= nr && r + nr <= |s| == |u| && Adds(s, u, r + k, nr - k, x)
    requires Within(s, u, r + k, nr - k, t, nt) && t + nt <= |s| && Apart(r, nr, t, nt)
    ensures Adds(s, u, r, nr, P(k) * x)
  {
    hide V, P;
    var l := Carried(s, u, r + k, nr - k, x);
    VSplit(s, r, k, nr);
    VSplit(u, r, k, nr);
    WithinKeeps(s, u, r + k, nr - k, t, nt, r, k);
    PAdd(k, nr - k);
    var p, q := P(k), P(nr - k);
    MulAssoc(p, q, l);
    MulDistribute(V(u, r + k, nr - k), q * l, p);
    MulDistribute(V(s, r + k, nr - k), x, p);
    AddsCarrying(s, u, r, nr, P(k) * x, l);
  }

  /** Halving both numbers: three products of half the size instead of four. */
  method MulSameSizeAccumulate(m: array<digit>, r: nat, nr: nat, a: nat, b: nat, n: nat, t: nat, nt: nat)
    returns (ghost used: nat)
    requires Operands(m[..], r, nr, a, n, b, n, t, nt) && Demand(V(m[..], a, n), n, V(m[..], b, n), n) <= nt
    modifies m
    ensures Within(old(m[..]), m[..], r, nr, t, nt)
    ensures Adds(old(m[..]), m[..], r, nr, V(old(m[..]), a, n) * V(old(m[..]), b, n))
    ensures SumsEnd(V(old(m[..]), a, n), V(old(m[..]), b, n), n) <= used <= nt
    decreases n, 2
  {
    hide V, P, Adds, Demand;
    if n <= RECURSIVE_LIMIT_N {
      MulSmallAccumulate(m, r, nr, a, n, b, n);
      used := 0;
      return;
    }
    hide SumsEnd;
    ghost var s := m[..];
    var half := n / 2;
    var na1 := Length(m, a + half, n - half);
    var na0 := Length(m, a, half);
    var nb1 := Length(m, b + half, n - half);
    var nb0 := Length(m, b, half);
    var kept;
    kept, used := MulHalves(m, r, nr, half, a, na1, na0, b, nb1, nb0, n, t, nt);
    HalvesValue(s, a, half, n, na1, na0);
    HalvesValue(s, b, half, n, nb1, nb0);
  }

  lemma HalvesValue(s: seq<digit>, a: nat, half: nat, n: nat, na1: nat, na0: nat)
    requires half <= n && a + n <= |s| && na1 <= n - half && na0 <= half
    requires V(s, a + half, na1) == V(s, a + half, n - half) && V(s, a, na0) == V(s, a, half)
    ensures V(s, a, n) == V(s, a, na0) + P(half) * V(s, a + half, na1)
  {
    VSplit(s, a, half, n);
  }

  /** The halves of the two numbers, without their leading zeros. */
  ghost predicate Halves(s: seq<digit>, half: nat, a: nat, na1: nat, na0: nat, b: nat, nb1: nat, nb0: nat, n: nat) {
    && n > RECURSIVE_LIMIT_N && half == n / 2
    && na1 == n - half && na0 <= half && nb1 == n - half && nb0 <= half
    && Normal(s, a + half, na1) && Normal(s, a, na0) && Normal(s, b + half, nb1) && Normal(s, b, nb0)
    && half + na1 <= n && a + n <= |s| && V(s, a, na0) == V(s, a, half) && b + n <= |s| && V(s, b, nb0) == V(s, b, half)
  }

  lemma HalvesInside(s: seq<digit>, r: nat, nr: nat, half: nat, a: nat, na1: nat, na0: nat, b: nat, nb1: nat,
    nb0: nat, n: nat, t: nat, nt: nat)
    requires Operands(s, r, nr, a, n, b, n, t, nt) && Halves(s, half, a, na1, na0, b, nb1, nb0, n)
    ensures a + n <= |s| && b + n <= |s| && 2 * n <= nr && r + nr <= |s| && 0 < half < n && half == n / 2
    ensures na1 == n - half && nb1 == n - half && na0 <= half && nb0 <= half && RECURSIVE_LIMIT_N < n < INT_LIMIT
    ensures Max(na1, nb1) < n && Max(na0, nb0) < n
    ensures t + nt <= |s| && Apart(t, nt, a, n) && Apart(t, nt, b, n) && Apart(r, nr, t, nt)
  {
    hide V;
  }

  /** The product of two numbers given by their halves. */
  ghost function Joined(p: int, x1: int, x0: int, y1: int, y0: int): int {
    (x0 + p * x1) * (y0 + p * y1)
  }

  /** The product of the sums of the halves, where the middle of the product is. */
  ghost function Middle(p: int, x1: int, x0: int, y1: int, y0: int): int {
    p * ((x1 + x0) * (y1 + y0))
  }

  /** A product added with weight p and taken with weight q. */
  ghost function Moved(p: int, q: int, x: int, y: int): int {
    p * (x * y) - q * (x * y)
  }

  /** The halves as numbers, and the whole. */
  lemma HalvesValues(s: seq<digit>, half: nat, a: nat, na1: nat, na0: nat, b: nat, nb1: nat, nb0: nat, n: nat)
    requires Halves(s, half, a, na1, na0, b, nb1, nb0, n)
    ensures HalfSized(n, half, V(s, a + half, na1), V(s, a, na0)) && HalfSized(n, half, V(s, b + half, nb1), V(s, b, nb0))
    ensures V(s, a, n) == V(s, a, na0) + P(half) * V(s, a + half, na1)
    ensures V(s, b, n) == V(s, b, nb0) + P(half) * V(s, b + half, nb1)
  {
    hide V, P;
    HalfSizes(s, half, a, na1, na0, b, nb1, nb0, n);
    HalvesValue(s, a, half, n, na1, na0);
    HalvesValue(s, b, half, n, nb1, nb0);
  }

  /** There is scratch space for the two products of halves. */
  ghost predicate HalvesFit(s: seq<digit>, half: nat, a: nat, na1: nat, na0: nat, b: nat, nb1: nat, nb0: nat, nt: nat)
    requires a + half + na1 <= |s| && b + half + nb1 <= |s| && a + na0 <= |s| && b + nb0 <= |s|
  {
    && na1 + nb1 + Demand(V(s, a + half, na1), na1, V(s, b + half, nb1), nb1) <= nt
    && na0 + nb0 + Demand(V(s, a, na0), na0, V(s, b, nb0), nb0) <= nt
  }

  lemma HalvesFitIn(s: seq<digit>, half: nat, a: nat, na1: nat, na0: nat, b: nat, nb1: nat, nb0: nat, n: nat, nt: nat)
    requires Halves(s, half, a, na1, na0, b, nb1, nb0, n) && n < INT_LIMIT
    requires a + n <= |s| && b + n <= |s| && half + na1 <= n && half + nb1 <= n && na0 <= n && nb0 <= n
    requires Demand(V(s, a, n), n, V(s, b, n), n) <= nt
    ensures HalvesFit(s, half, a, na1, na0, b, nb1, nb0, nt)
  {
    hide V, P, Demand, HalfSized;
    HalvesValues(s, half, a, na1, na0, b, nb1, nb0, n);
    HalvesDemand(n, half, V(s, a, n), V(s, a + half, na1), V(s, a, na0), V(s, b, n), V(s, b + half, nb1), V(s, b, nb0),
      na0, nb0);
  }

  /** The pairs of halves can be multiplied after any work in the target and the scratch space. */
  lemma HalvesStay(s: seq<digit>, u: seq<digit>, r: nat, nr: nat, half: nat, a: nat, na1: nat, na0: nat, b: nat,
    nb1: nat, nb0: nat, n: nat, t: nat, nt: nat)
    requires Operands(s, r, nr, a, n, b, n, t, nt) && Halves(s, half, a, na1, na0, b, nb1, nb0, n)
    requires Within(s, u, r, nr, t, nt) && |s| == |u| && a + n <= |s| && b + n <= |s| && half + na1 <= n && half + nb1 <= n
    requires na0 <= n && nb0 <= n && HalvesFit(s, half, a, na1, na0, b, nb1, nb0, nt)
    ensures Factors(u, r, nr, 2 * half, half, a + half, na1, b + half, nb1, t, nt)
    ensures Factors(u, r, nr, 0, half, a, na0, b, nb0, t, nt)
    ensures V(u, a + half, na1) == V(s, a + half, na1) && V(u, b + half, nb1) == V(s, b + half, nb1)
    ensures V(u, a, na0) == V(s, a, na0) && V(u, b, nb0) == V(s, b, nb0)
  {
    hide V, P, Within, Demand, Factors;
    StillFactors(s, u, r, nr, half, 2 * half, a, a + half, na1, b, b + half, nb1, n, t, nt);
    StillFactors(s, u, r, nr, half, 0, a, a, na0, b, b, nb0, n, t, nt);
  }

  /** The three products of halves. The result tells whether the source's assertions hold, that nothing is
      carried or borrowed out of the target; over zeros they do exactly when the first two sums fit. */
  method MulHalves(m: array<digit>, r: nat, nr: nat, half: nat, a: nat, na1: nat, na0: nat, b: nat, nb1: nat,
    nb0: nat, n: nat, t: nat, nt: nat) returns (kept: bool, ghost used: nat)
    requires Operands(m[..], r, nr, a, n, b, n, t, nt) && Demand(V(m[..], a, n), n, V(m[..], b, n), n) <= nt
    requires Halves(m[..], half, a, na1, na0, b, nb1, nb0, n)
    modifies m
    ensures Within(old(m[..]), m[..], r, nr, t, nt)
    ensures Adds(old(m[..]), m[..], r, nr, Joined(P(half), V(old(m[..]), a + half, na1), V(old(m[..]), a, na0),
      V(old(m[..]), b + half, nb1), V(old(m[..]), b, nb0)))
    ensures V(old(m[..]), r, nr) == 0 ==> (kept <==> TopProductFits(P(half), V(old(m[..]), a + half, na1),
      V(old(m[..]), a, na0), V(old(m[..]), b + half, nb1), V(old(m[..]), b, nb0), P(nr)))
    ensures SumsEnd(V(old(m[..]), a, n), V(old(m[..]), b, n), n) <= used <= nt
    decreases n, 1
  {
    hide V, P, Adds, Within, TopProductFits, LeavesTarget, HalfSized, Factors, Demand, Joined, Middle, Moved, SumsEnd;
    HalvesInside(m[..], r, nr, half, a, na1, na0, b, nb1, nb0, n, t, nt);
    hide Operands, Halves, HalvesFit;
    ghost var s := m[..];
    ghost var x1, x0, y1, y0 := V(s, a + half, na1), V(s, a, na0), V(s, b + half, nb1), V(s, b, nb0);
    HalvesFitIn(s, half, a, na1, na0, b, nb1, nb0, n, nt);
    used := MulSums(m, r, nr, half, a, na1, na0, b, nb1, nb0, n, t, nt);
    ghost var u := m[..];
    HalvesStay(s, u, r, nr, half, a, na1, na0, b, nb1, nb0, n, t, nt);
    var carry1, borrow1 := AddProduct(m, r, nr, 2 * half, half, a + half, na1, b + half, nb1, t, nt);
    ghost var v := m[..];
    WithinBoth(s, u, v, r, nr, t, nt);
    HalvesStay(s, v, r, nr, half, a, na1, na0, b, nb1, nb0, n, t, nt);
    var carry0, borrow0 := AddProduct(m, r, nr, 0, half, a, na0, b, nb0, t, nt);
    WithinBoth(s, v, m[..], r, nr, t, nt);
    kept := carry1 == 0 && borrow1 == 0 && carry0 == 0 && borrow0 == 0;
    if V(s, r, nr) == 0 {
      HalfSizes(s, half, a, na1, na0, b, nb1, nb0, n);
      KeptExactly(s, u, v, r, nr, half, n, x1, x0, y1, y0, carry1, borrow1, carry0, borrow0);
    }
    HalvesJoin(s, u, v, m[..], r, nr, half, x1, x0, y1, y0);
  }

  lemma WithinBoth(s: seq<digit>, u: seq<digit>, v: seq<digit>, r: nat, nr: nat, t: nat, nt: nat)
    requires Within(s, u, r, nr, t, nt) && Within(u, v, r, nr, t, nt)
    ensures Within(s, v, r, nr, t, nt)
  {
  }

  /** Two numbers whose product can be formed in the scratch space and moved to r at two offsets. */
  ghost predicate Factors(s: seq<digit>, r: nat, nr: nat, addAt: nat, subAt: nat, x: nat, nx: nat, y: nat,
    ny: nat, t: nat, nt: nat) {
    && Normal(s, x, nx) && Normal(s, y, ny) && addAt + nx + ny <= nr && subAt + nx + ny <= nr
    && r + nr <= |s| && t + nt <= |s| && Apart(r, nr, t, nt)
    && Apart(r, nr, x, nx) && Apart(r, nr, y, ny) && Apart(t, nt, x, nx) && Apart(t, nt, y, ny)
    && nx + ny + Demand(V(s, x, nx), nx, V(s, y, ny), ny) <= nt && nx < INT_LIMIT && ny < INT_LIMIT
  }

  /** The halves are untouched by work in the target and the scratch space, and a pair of them can be
      multiplied there. */
  lemma StillFactors(s: seq<digit>, u: seq<digit>, r: nat, nr: nat, half: nat, addAt: nat, a: nat, x: nat,
    nx: nat, b: nat, y: nat, ny: nat, n: nat, t: nat, nt: nat)
    requires Operands(s, r, nr, a, n, b, n, t, nt) && n > RECURSIVE_LIMIT_N && half == n / 2
    requires Within(s, u, r, nr, t, nt) && Normal(s, x, nx) && Normal(s, y, ny)
    requires nx + ny + Demand(V(s, x, nx), nx, V(s, y, ny), ny) <= nt
    requires a <= x && x + nx <= a + n && b <= y && y + ny <= b + n && nx <= n - half && ny <= n - half
    requires addAt + nx + ny <= nr && half + nx + ny <= nr
    ensures Factors(u, r, nr, addAt, half, x, nx, y, ny, t, nt)
    ensures V(u, x, nx) == V(s, x, nx) && V(u, y, ny) == V(s, y, ny)
  {
    hide V, P, Demand;
    WithinKeeps(s, u, r, nr, t, nt, x, nx);
    WithinKeeps(s, u, r, nr, t, nt, y, ny);
  }

  /** Add (a1 + a0) * (b1 + b0) at the middle. */
  method MulSums(m: array<digit>, r: nat, nr: nat, half: nat, a: nat, na1: nat, na0: nat, b: nat, nb1: nat,
    nb0: nat, n: nat, t: nat, nt: nat) returns (ghost used: nat)
    requires Operands(m[..], r, nr, a, n, b, n, t, nt) && Demand(V(m[..], a, n), n, V(m[..], b, n), n) <= nt
    requires Halves(m[..], half, a, na1, na0, b, nb1, nb0, n)
    modifies m
    ensures Within(old(m[..]), m[..], r, nr, t, nt)
    ensures Adds(old(m[..]), m[..], r, nr, Middle(P(half), V(old(m[..]), a + half, na1), V(old(m[..]), a, na0),
      V(old(m[..]), b + half, nb1), V(old(m[..]), b, nb0)))
    ensures SumsEnd(V(old(m[..]), a, n), V(old(m[..]), b, n), n) <= used <= nt
    decreases n, 0
  {
    hide V, P, Adds, Within, Demand, SumsEnd, HalfSized, SumSize, Middle;
    HalvesInside(m[..], r, nr, half, a, na1, na0, b, nb1, nb0, n, t, nt);
    hide Operands, Halves, Normal;
    ghost var s := m[..];
    ghost var x, y := V(s, a + half, na1) + V(s, a, na0), V(s, b + half, nb1) + V(s, b, nb0);
    ghost var nx, ny := SumSize(n, x), SumSize(n, y);
    SumsReady(s, half, a, na1, na0, b, nb1, nb0, n, nt, x, y, nx, ny);
    var na10, nb10 := SumsPlaced(m, r, nr, half, a, na1, na0, b, nb1, nb0, n, t, nt, nx, ny);
    ghost var s2 := m[..];
    used := MulPlaced(m, r, nr, half, t, na10, nb10, nt);
    used := na10 + nb10 + used;
    SumsAdded(s, s2, m[..], r, nr, half, t, nt, nx, ny, V(s, a + half, na1), V(s, a, na0), V(s, b + half, nb1), V(s, b, nb0));
  }

  /** Add the product of the two numbers at the beginning of the scratch space at the middle. */
  method MulPlaced(m: array<digit>, r: nat, nr: nat, half: nat, t: nat, nx: nat, ny: nat, nt: nat)
    returns (ghost used: nat)
    requires half <= nr && r + nr <= m.Length && t + nt <= m.Length && nx + ny <= nt && Apart(r, nr, t, nt)
    requires Operands(m[..], r + half, nr - half, t, nx, t + nx, ny, t + nx + ny, nt - nx - ny)
    requires nx + ny + Demand(V(m[..], t, nx), nx, V(m[..], t + nx, ny), ny) <= nt
    modifies m
    ensures Within(old(m[..]), m[..], r, nr, t, nt)
    ensures Adds(old(m[..]), m[..], r, nr, P(half) * (V(old(m[..]), t, nx) * V(old(m[..]), t + nx, ny)))
    ensures nx == ny ==> SumsEnd(V(old(m[..]), t, nx), V(old(m[..]), t + nx, ny), nx) <= used
    ensures nx + ny + used <= nt
    decreases Max(nx, ny), 5
  {
    hide V, P, Adds, Demand, SumsEnd, Operands;
    ghost var s := m[..];
    used := MulAccumulate(m, r + half, nr - half, t, nx, t + nx, ny, t + nx + ny, nt - nx - ny);
    AddsLifted(s, m[..], r, nr, half, V(s, t, nx) * V(s, t + nx, ny), t, nt);
  }

  /** The sums, ready to be multiplied with what is left of the scratch space. */
  method SumsPlaced(m: array<digit>, r: nat, nr: nat, half: nat, a: nat, na1: nat, na0: nat, b: nat, nb1: nat,
    nb0: nat, n: nat, t: nat, nt: nat, ghost nx: nat, ghost ny: nat) returns (na10: nat, nb10: nat)
    requires Operands(m[..], r, nr, a, n, b, n, t, nt) && Halves(m[..], half, a, na1, na0, b, nb1, nb0, n)
    requires a + n <= m.Length && b + n <= m.Length && half + na1 <= n && half + nb1 <= n && na0 <= n && nb0 <= n
    requires nx + ny <= nt && nx == SumSize(n, V(m[..], a + half, na1) + V(m[..], a, na0))
    requires ny == SumSize(n, V(m[..], b + half, nb1) + V(m[..], b, nb0))
    modifies m
    ensures Within(old(m[..]), m[..], t, nt, t, nt) && na10 == nx && nb10 == ny && t + nx + ny <= m.Length && half <= nr
    ensures Operands(m[..], r + half, nr - half, t, nx, t + nx, ny, t + nx + ny, nt - nx - ny)
    ensures V(m[..], t, nx) == V(old(m[..]), a + half, na1) + V(old(m[..]), a, na0)
    ensures V(m[..], t + nx, ny) == V(old(m[..]), b + half, nb1) + V(old(m[..]), b, nb0)
  {
    hide V, P, Within, HalfSized, SumSize;
    ghost var s := m[..];
    HalvesInside(s, r, nr, half, a, na1, na0, b, nb1, nb0, n, t, nt);
    hide Operands, Halves, Normal;
    na10, nb10 := SumsAt(m, half, a, na1, na0, b, nb1, nb0, n, t, nt, nx, ny);
    SumOperands(s, m[..], r, nr, half, a, b, n, t, nt, na10, nb10);
  }

  /** The scratch space has room for the sums and for what their product needs. */
  lemma SumsReady(s: seq<digit>, half: nat, a: nat, na1: nat, na0: nat, b: nat, nb1: nat, nb0: nat, n: nat, nt: nat,
    x: nat, y: nat, nx: nat, ny: nat)
    requires Halves(s, half, a, na1, na0, b, nb1, nb0, n) && RECURSIVE_LIMIT_N < n < INT_LIMIT && half == n / 2
    requires a + n <= |s| && b + n <= |s| && half + na1 <= n && half + nb1 <= n && na0 <= n && nb0 <= n
    requires Demand(V(s, a, n), n, V(s, b, n), n) <= nt
    requires x == V(s, a + half, na1) + V(s, a, na0) && y == V(s, b + half, nb1) + V(s, b, nb0)
    requires nx == SumSize(n, x) && ny == SumSize(n, y)
    ensures nx + ny + Demand(x, nx, y, ny) <= nt
    ensures SumsEnd(V(s, a, n), V(s, b, n), n) == nx + ny + if nx == ny then SumsEnd(x, y, nx) else 0
  {
    hide V, P, Demand, SumsEnd, HalfSized, SumSize;
    var x1, x0, y1, y0 := V(s, a + half, na1), V(s, a, na0), V(s, b + half, nb1), V(s, b, nb0);
    HalvesValues(s, half, a, na1, na0, b, nb1, nb0, n);
    SumsDemand(n, half, V(s, a, n), x1, x0, V(s, b, n), y1, y0, nx, ny);
    SumsEndIs(V(s, a, n), x1, x0, V(s, b, n), y1, y0, n, half);
  }

  /** The sums are operands for what is left of the scratch space. */
  lemma SumOperands(s: seq<digit>, s2: seq<digit>, r: nat, nr: nat, half: nat, a: nat, b: nat, n: nat, t: nat, nt: nat,
    na10: nat, nb10: nat)
    requires Operands(s, r, nr, a, n, b, n, t, nt) && half == n / 2 && n > RECURSIVE_LIMIT_N && |s2| == |s|
    requires Normal(s2, t, na10) && Normal(s2, t + na10, nb10) && na10 + nb10 <= nt
    requires na10 <= n - half + 1 && nb10 <= n - half + 1
    ensures Operands(s2, r + half, nr - half, t, na10, t + na10, nb10, t + na10 + nb10, nt - na10 - nb10)
  {
  }

  lemma SumsEndIs(x: nat, x1: nat, x0: nat, y: nat, y1: nat, y0: nat, n: nat, half: nat)
    requires n > RECURSIVE_LIMIT_N && half == n / 2 && HalfSized(n, half, x1, x0) && HalfSized(n, half, y1, y0)
    requires x == x0 + P(half) * x1 && y == y0 + P(half) * y1
    ensures var nx, ny := SumSize(n, x1 + x0), SumSize(n, y1 + y0);
      SumsEnd(x, y, n) == nx + ny + if nx == ny then SumsEnd(x1 + x0, y1 + y0, nx) else 0
  {
    hide P, HalvesSum, SumSize;
    SumOf(x, n, half, x1, x0);
    SumOf(y, n, half, y1, y0);
  }

  lemma SumsAdded(s: seq<digit>, s2: seq<digit>, u: seq<digit>, r: nat, nr: nat, half: nat, t: nat, nt: nat,
    nx: nat, ny: nat, x1: int, x0: int, y1: int, y0: int)
    requires r + nr <= |s| == |u| && t + nt <= |s| == |s2| && nx + ny <= nt && Apart(r, nr, t, nt)
    requires Within(s, s2, t, nt, t, nt) && Within(s2, u, r, nr, t, nt)
    requires V(s2, t, nx) == x1 + x0 && V(s2, t + nx, ny) == y1 + y0
    requires Adds(s2, u, r, nr, P(half) * (V(s2, t, nx) * V(s2, t + nx, ny)))
    ensures Within(s, u, r, nr, t, nt) && Adds(s, u, r, nr, Middle(P(half), x1, x0, y1, y0))
  {
    hide V, P, Adds;
    WithinKeeps(s, s2, t, nt, t, nt, r, nr);
    AddsFrom(s, s2, u, r, nr, P(half) * ((x1 + x0) * (y1 + y0)));
  }

  /** Form a1 + a0 and b1 + b0, one after the other, in the scratch space. */
  method SumsAt(m: array<digit>, half: nat, a: nat, na1: nat, na0: nat, b: nat, nb1: nat, nb0: nat, n: nat,
    t: nat, nt: nat, ghost nx: nat, ghost ny: nat) returns (na10: nat, nb10: nat)
    requires Halves(m[..], half, a, na1, na0, b, nb1, nb0, n) && a + n <= m.Length && b + n <= m.Length
    requires t + nt <= m.Length && nx + ny <= nt && Apart(t, nt, a, n) && Apart(t, nt, b, n)
    requires nx == SumSize(n, V(m[..], a + half, na1) + V(m[..], a, na0))
    requires ny == SumSize(n, V(m[..], b + half, nb1) + V(m[..], b, nb0))
    modifies m
    ensures Within(old(m[..]), m[..], t, nt, t, nt)
    ensures na10 == nx <= n - half + 1 && nb10 == ny <= n - half + 1
    ensures Normal(m[..], t, na10) && Normal(m[..], t + na10, nb10)
    ensures V(m[..], t, na10) == V(old(m[..]), a + half, na1) + V(old(m[..]), a, na0)
    ensures V(m[..], t + na10, nb10) == V(old(m[..]), b + half, nb1) + V(old(m[..]), b, nb0)
  {
    hide V, P, HalfSized, SumSize;
    ghost var s := m[..];
    HalfSizes(s, half, a, na1, na0, b, nb1, nb0, n);
    SumBelow(n, half, V(s, a + half, na1), V(s, a, na0));
    SumBelow(n, half, V(s, b + half, nb1), V(s, b, nb0));
    na10 := SumAt(m, t, a + half, na1, a, na0, nx);
    ghost var s1 := m[..];
    WithinKeeps(s, s1, t, nt, t, nt, b + half, nb1);
    WithinKeeps(s, s1, t, nt, t, nt, b, nb0);
    nb10 := SumAt(m, t + na10, b + half, nb1, b, nb0, ny);
    FirstKept(s1, m[..], t, na10, nt);
  }

  lemma SumBelow(n: nat, half: nat, x1: int, x0: int)
    requires n > RECURSIVE_LIMIT_N && half == n / 2 && HalfSized(n, half, x1, x0)
    ensures n - half <= SumSize(n, x1 + x0) <= n - half + 1
    ensures P(SumSize(n, x1 + x0) - 1) <= x1 + x0 < P(SumSize(n, x1 + x0))
  {
    hide P;
    PMonotone(half, n - half);
    FourTimes(n - half, n - half + 1);
  }

  /** The first sum stays while the second is formed behind it. */
  lemma FirstKept(s: seq<digit>, u: seq<digit>, t: nat, n: nat, nt: nat)
    requires Normal(s, t, n) && n <= nt && Within(s, u, t + n, nt - n, t + n, nt - n)
    ensures Normal(u, t, n) && V(u, t, n) == V(s, t, n)
  {
    hide V, P;
    WithinKeeps(s, u, t + n, nt - n, t + n, nt - n, t, n);
  }

  lemma AddsFrom(s: seq<digit>, s': seq<digit>, u: seq<digit>, r: nat, nr: nat, x: int)
    requires r + nr <= |s| == |s'| == |u| && V(s, r, nr) == V(s', r, nr) && Adds(s', u, r, nr, x)
    ensures Adds(s, u, r, nr, x)
  {
    hide V, P;
    var k := Carried(s', u, r, nr, x);
    AddsCarrying(s, u, r, nr, x, k);
  }

  /** Form x * y in the scratch space, add it to r at addAt and take it from r at subAt; the results are what
      is carried out of r by the one and borrowed by the other. */
  method AddProduct(m: array<digit>, r: nat, nr: nat, addAt: nat, subAt: nat, x: nat, nx: nat, y: nat, ny: nat,
    t: nat, nt: nat) returns (carry: nat, borrow: nat)
    requires Factors(m[..], r, nr, addAt, subAt, x, nx, y, ny, t, nt)
    modifies m
    ensures Within(old(m[..]), m[..], r, nr, t, nt)
    ensures var u, v := V(old(m[..]), x, nx), V(old(m[..]), y, ny);
      && Adds(old(m[..]), m[..], r, nr, Moved(P(addAt), P(subAt), u, v))
      && LeavesTarget(V(old(m[..]), r, nr), u, v, P(addAt), P(subAt), P(nr), carry, borrow)
    decreases Max(nx, ny), 6
  {
    hide V, P, Adds;
    ghost var s := m[..];
    var n := ProductAt(m, x, nx, y, ny, t, nt);
    ghost var s1 := m[..];
    carry, borrow := MoveProduct(m, r, nr, addAt, subAt, t, n);
    WithinKeeps(s, s1, t, nt, t, nt, r, nr);
    ghost var z := V(s1, t, n);
    AddsFrom(s, s1, m[..], r, nr, P(addAt) * z - P(subAt) * z);
  }

  /** Exactly when something leaves a target of the given size that holds v and gets x * y added with weight p
      and then taken with weight q. */
  ghost predicate LeavesTarget(v: nat, x: int, y: int, p: nat, q: nat, size: nat, carry: nat, borrow: nat) {
    Leaves(v, x * y, p, q, size, carry, borrow)
  }

  ghost predicate Leaves(v: nat, z: int, p: nat, q: nat, size: nat, carry: nat, borrow: nat) {
    && size > 0
    && (carry > 0 <==> v + p * z >= size)
    && (borrow > 0 <==> (v + p * z) % size < q * z)
  }

  /** Add the n digits at t to r at addAt and take them from r at subAt. */
  method MoveProduct(m: array<digit>, r: nat, nr: nat, addAt: nat, subAt: nat, t: nat, n: nat)
    returns (carry: nat, borrow: nat)
    requires Normal(m[..], t, n) && addAt + n <= nr && subAt + n <= nr && r + nr <= m.Length && Apart(r, nr, t, n)
    modifies m
    ensures Within(old(m[..]), m[..], r, nr, r, nr)
    ensures var z := V(old(m[..]), t, n);
      && Adds(old(m[..]), m[..], r, nr, P(addAt) * z - P(subAt) * z)
      && Leaves(V(old(m[..]), r, nr), z, P(addAt), P(subAt), P(nr), carry, borrow)
  {
    hide V, P, Adds, AddsBy, Leaves;
    ghost var s := m[..];
    ghost var z: int := V(s, t, n);
    carry := AddInplace(m, r + addAt, nr - addAt, t, n);
    ghost var u := m[..];
    AddMeans(s, u, r, nr, addAt, z, carry);
    WithinKeeps(s, u, r, nr, r, nr, t, n);
    var taken := SubInplace(m, r + subAt, nr - subAt, t, n);
    borrow := taken;
    SubMeans(u, m[..], r, nr, subAt, z, borrow);
    AddsBoth(s, u, m[..], r, nr, P(addAt) * z, -(P(subAt) * z));
    LeavesWhen(V(s, r, nr), V(u, r, nr), z, P(addAt), P(subAt), P(nr), carry, borrow);
  }

  lemma AddMeans(s: seq<digit>, u: seq<digit>, r: nat, nr: nat, k: nat, z: int, carry: nat)
    requires k <= nr && r + nr <= |s| && Only(s, u, r + k, r + nr)
    requires V(u, r + k, nr - k) + P(nr - k) * carry == V(s, r + k, nr - k) + z
    ensures P(nr) > 0 && (carry > 0 <==> V(s, r, nr) + P(k) * z >= P(nr))
    ensures V(u, r, nr) == (V(s, r, nr) + P(k) * z) % P(nr) && Adds(s, u, r, nr, P(k) * z)
  {
    hide V, P, Adds;
    PStep(nr);
    ShiftedBy(s, u, r, nr, k, z, carry);
    CarryMeans(s, u, r, nr, P(k) * z, carry);
    AddsCarrying(s, u, r, nr, P(k) * z, carry);
  }

  lemma SubMeans(u: seq<digit>, w: seq<digit>, r: nat, nr: nat, k: nat, z: int, borrow: int)
    requires k <= nr && r + nr <= |u| && Only(u, w, r + k, r + nr)
    requires V(w, r + k, nr - k) + P(nr - k) * -borrow == V(u, r + k, nr - k) - z
    ensures borrow > 0 <==> V(u, r, nr) < P(k) * z
    ensures Adds(u, w, r, nr, -(P(k) * z))
  {
    hide V, P, Adds;
    ShiftedBy(u, w, r, nr, k, -z, -borrow);
    assert P(k) * -z == -(P(k) * z);
    CarryMeans(u, w, r, nr, -(P(k) * z), -borrow);
    AddsCarrying(u, w, r, nr, -(P(k) * z), -borrow);
  }

  lemma LeavesWhen(v: nat, w: nat, z: int, p: nat, q: nat, size: nat, carry: nat, borrow: nat)
    requires size > 0 && (carry > 0 <==> v + p * z >= size) && w == (v + p * z) % size && (borrow > 0 <==> w < q * z)
    ensures Leaves(v, z, p, q, size, carry, borrow)
  {
  }

  /** Form x * y at the start of the scratch space; the result is its length. */
  method ProductAt(m: array<digit>, x: nat, nx: nat, y: nat, ny: nat, t: nat, nt: nat) returns (n: nat)
    requires Normal(m[..], x, nx) && Normal(m[..], y, ny) && t + nt <= m.Length
    requires Apart(t, nt, x, nx) && Apart(t, nt, y, ny)
    requires nx + ny + Demand(V(m[..], x, nx), nx, V(m[..], y, ny), ny) <= nt && nx < INT_LIMIT && ny < INT_LIMIT
    modifies m
    ensures Within(old(m[..]), m[..], t, nt, t, nt)
    ensures n <= nx + ny && Normal(m[..], t, n)
    ensures V(m[..], t, n) == V(old(m[..]), x, nx) * V(old(m[..]), y, ny)
    decreases Max(nx, ny), 5
  {
    hide V, P, Adds, Demand, SumsEnd;
    ghost var s := m[..];
    SetZero(m, t, nx + ny);
    ghost var s1 := m[..];
    WithinKeeps(s, s1, t, nt, t, nt, x, nx);
    WithinKeeps(s, s1, t, nt, t, nt, y, ny);
    ghost var _ := MulAccumulate(m, t, nx + ny, x, nx, y, ny, t + nx + ny, nt - nx - ny);
    ProductFits(s1, x, nx, y, ny);
    AddsFits(s1, m[..], t, nx + ny, V(s1, x, nx) * V(s1, y, ny));
    n := Length(m, t, nx + ny);
  }

  lemma ProductFits(s: seq<digit>, x: nat, nx: nat, y: nat, ny: nat)
    requires x + nx <= |s| && y + ny <= |s|
    ensures 0 <= V(s, x, nx) * V(s, y, ny) < P(nx + ny)
  {
    hide V, P;
    var u, v := V(s, x, nx), V(s, y, ny);
    VBound(s, x, nx);
    VBound(s, y, ny);
    PAdd(nx, ny);
    MulSign(u, v);
    if v > 0 {
      MulStrict(u, P(nx), v);
      MulMonotone(v, P(ny), P(nx));
    } else {
      MulSign(P(nx), P(ny));
    }
  }

  // ---- Squaring ---------------------------------------------------------------------------

  /** Row i of the schoolbook square, at the digits from r on: the square of the first digit v of a
      and twice its products with the others. */
  method SquareRow(m: array<digit>, r: nat, nr: nat, a: nat, na: nat)
    requires 0 < na <= nr && r + nr <= m.Length && a + na <= m.Length && Apart(r, nr, a, na)
    modifies m
    ensures Only(old(m[..]), m[..], r, r + nr)
    ensures var v := old(m[a]); Adds(old(m[..]), m[..], r, nr, v * (2 * V(old(m[..]), a, na) - v))
  {
    hide V, P, Adds;
    ghost var s := m[..];
    var v := m[a];
    DigitProduct(v, v);
    var carry: nat := m[r] + v * v;
    VEmpty(s, r);
    FirstColumn(s, a, v);
    ghost var x := carry;
    m[r] := carry % BASE;
    AddColumn(s, s, m[..], r, 0, x);
    carry := carry / BASE;
    for k := 1 to na
      invariant Only(s, m[..], r, r + k) && 0 <= carry < 3 * BASE
      invariant V(m[..], r, k) + P(k) * carry == V(s, r, k) + v * (2 * V(s, a, k) - v)
    {
      carry := RowDigit(m, r, a, na, k, v, carry, s);
    }
    ghost var t, c := m[..], carry;
    carry := PropagateCarry(m, r + na, nr - na, carry);
    UpperCarry(s, t, m[..], r, na, nr, c, carry, v * (2 * V(s, a, na) - v));
    AddsCarrying(s, m[..], r, nr, v * (2 * V(s, a, na) - v), carry);
  }

  /** Column k of the row. */
  method RowDigit(m: array<digit>, r: nat, a: nat, na: nat, k: nat, v: int, carry0: nat, ghost s: seq<digit>)
    returns (carry: nat)
    requires 0 < k < na && |s| == m.Length && r + na <= |s| && a + na <= |s| && Apart(r, na, a, na) && 0 <= v < BASE
    requires Only(s, m[..], r, r + k) && carry0 < 3 * BASE
    requires V(m[..], r, k) + P(k) * carry0 == V(s, r, k) + v * (2 * V(s, a, k) - v)
    modifies m
    ensures Only(s, m[..], r, r + k + 1) && carry < 3 * BASE
    ensures V(m[..], r, k + 1) + P(k + 1) * carry == V(s, r, k + 1) + v * (2 * V(s, a, k + 1) - v)
  {
    hide V, P;
    ghost var before := m[..];
    var d := m[a + k];
    DigitProduct(v, d);
    var y := carry0 + m[r + k] + 2 * (v * d);
    m[r + k] := y % BASE;
    carry := y / BASE;
    RowDone(s, before, m[..], r, a, k, v, carry0, y);
  }

  lemma RowDone(s: seq<digit>, before: seq<digit>, t: seq<digit>, r: nat, a: nat, k: nat, v: int, c: nat, y: nat)
    requires r + k < |s| == |before| && a + k < |s| && before[r + k] == s[r + k] && t == before[r + k := y % BASE]
    requires y == c + s[r + k] + 2 * (v * s[a + k])
    requires V(before, r, k) + P(k) * c == V(s, r, k) + v * (2 * V(s, a, k) - v)
    ensures V(t, r, k + 1) + P(k + 1) * (y / BASE) == V(s, r, k + 1) + v * (2 * V(s, a, k + 1) - v)
  {
    hide V, P;
    AddColumn(s, before, t, r, k, y);
    RowColumn(s, a, k, v, c, s[r + k]);
    var w := 2 * (v * s[a + k]);
    assert 2 * v * s[a + k] == w by { MulAssoc(2, v, s[a + k]); }
    assert P(k) * y == P(k) * c + P(k) * s[r + k] + P(k) * w;
  }

  lemma FirstColumn(s: seq<digit>, a: nat, v: int)
    requires a < |s| && v == s[a]
    ensures v * (2 * V(s, a, 1) - v) == v * v && forall x :: P(0) * x == x
  {
    hide P;
    VOne(s, a);
    VEmpty(s, a);
  }

  lemma RowColumn(s: seq<digit>, a: nat, k: nat, v: int, c: int, d: int)
    requires a + k < |s|
    ensures v * (2 * V(s, a, k + 1) - v) == v * (2 * V(s, a, k) - v) + P(k) * (2 * v * s[a + k])
    ensures P(k) * (c + d + 2 * v * s[a + k]) == P(k) * c + P(k) * d + P(k) * (2 * v * s[a + k])
  {
    hide V, P;
    VSnoc(s, a, k);
    var p, x, y := P(k), V(s, a, k), s[a + k];
    ThreeTerms(p, c, d, 2 * v * y);
    RowArithmetic(v, x, p, y);
  }

  lemma RowArithmetic(v: int, x: int, p: int, y: int)
    ensures v * (2 * (x + p * y) - v) == v * (2 * x - v) + p * (2 * v * y)
  {
    MulDistribute(2 * x - v, 2 * (p * y), v);
    assert v * (2 * (p * y)) == p * (2 * v * y) by {
      assert v * (2 * (p * y)) == 2 * (v * (p * y));
      MulAssoc(v, p, y);
      MulAssoc(p, v, y);
      assert v * p == p * v;
      assert p * (2 * v * y) == 2 * (p * (v * y)) by { MulAssoc(2, v, y); }
    }
  }

  /** Schoolbook: r = r + a * a. */
  method SquareSmallAccumulate(m: array<digit>, r: nat, nr: nat, a: nat, na: nat)
    requires Normal(m[..], a, na) && 2 * na <= nr && r + nr <= m.Length && Apart(r, nr, a, na)
    modifies m
    ensures Only(old(m[..]), m[..], r, r + nr)
    ensures Adds(old(m[..]), m[..], r, nr, V(old(m[..]), a, na) * V(old(m[..]), a, na))
  {
    hide V, P, Adds;
    ghost var s := m[..];
    ghost var x := V(s, a, na);
    AddsNothing(s, s, r, nr);
    assert P(2 * 0) * (x * x) == x * x by { VEmpty(s, a); }
    for i := 0 to na
      invariant Only(s, m[..], r, r + nr)
      invariant Adds(s, m[..], r, nr, x * x - P(2 * i) * (V(s, a + i, na - i) * V(s, a + i, na - i)))
    {
      ghost var before := m[..];
      VKeeps(s, before, r, r + nr, a + i, na - i);
      SquareRow(m, r + 2 * i, nr - 2 * i, a + i, na - i);
      SquareStep(s, before, m[..], r, nr, a, na, i, x);
    }
    VEmpty(s, a + na);
    assert P(2 * na) * (0 * 0) == 0;
  }

  lemma SquareStep(s: seq<digit>, t: seq<digit>, u: seq<digit>, r: nat, nr: nat, a: nat, na: nat, i: nat, x: int)
    requires i < na && 2 * na <= nr && r + nr <= |s| && a + na <= |s| && |s| == |t| == |u|
    requires Only(t, u, r + 2 * i, r + nr)
    requires Adds(s, t, r, nr, x * x - P(2 * i) * (V(s, a + i, na - i) * V(s, a + i, na - i)))
    requires Adds(t, u, r + 2 * i, nr - 2 * i, s[a + i] * (2 * V(s, a + i, na - i) - s[a + i]))
    ensures Adds(s, u, r, nr, x * x - P(2 * (i + 1)) * (V(s, a + (i + 1), na - (i + 1)) * V(s, a + (i + 1), na - (i + 1))))
  {
    hide V, P, Adds;
    var v, w, z := s[a + i], V(s, a + i, na - i), V(s, a + i + 1, na - i - 1);
    VSplit(s, a + i, 1, na - i);
    VOne(s, a + i);
    assert P(1) == BASE by { VEmpty(s, a); PStep(0); }
    AddsShifted(t, u, r, nr, 2 * i, v * (2 * w - v));
    AddsBoth(s, t, u, r, nr, x * x - P(2 * i) * (w * w), P(2 * i) * (v * (2 * w - v)));
    PStep(2 * i);
    PStep(2 * i + 1);
    SquareArithmetic(P(2 * i), v, w, z);
  }

  lemma SquareArithmetic(p: int, v: int, w: int, z: int)
    requires w == v + BASE * z
    ensures p * (w * w) - p * (v * (2 * w - v)) == (BASE * (BASE * p)) * (z * z)
  {
    assert w * w - v * (2 * w - v) == BASE * z * (BASE * z);
    assert BASE * z * (BASE * z) == BASE * BASE * (z * z);
    MulDistribute(w * w, v * (2 * w - v), p);
    MulAssoc(p, BASE * BASE, z * z);
  }

  /** The scratch digits squaring needs. */
  function SquareScratch(n: nat): nat {
    if n <= RECURSIVE_LIMIT_N then 0 else n + 1 + Scratch(n / 2)
  }

  lemma SquareScratchEnough(n: nat)
    requires n <= ENOUGH
    ensures SquareScratch(n) <= 2 * n
  {
    hide TightScratch;
    var h := n / 2;
    if h > RECURSIVE_LIMIT_N {
      PowSixteen();
      TightBound(h + 1, 15);
      assert Scratch(h) == TightScratch(h + 1);
    }
  }

  lemma SquareScratchMonotone(m: nat, n: nat)
    requires m <= n
    ensures SquareScratch(m) <= SquareScratch(n)
  {
    ScratchMonotone(m / 2, n / 2);
  }

  /** r = r + a * a modulo the size of r. */
  method SquareAccumulate(m: array<digit>, r: nat, nr: nat, a: nat, na: nat, t: nat, nt: nat)
    requires Operands(m[..], r, nr, a, na, a, na, t, nt) && SquareScratch(na) <= nt
    modifies m
    ensures Within(old(m[..]), m[..], r, nr, t, nt)
    ensures Adds(old(m[..]), m[..], r, nr, V(old(m[..]), a, na) * V(old(m[..]), a, na))
    decreases na, 1
  {
    hide V, P, Adds;
    if na <= RECURSIVE_LIMIT_N {
      SquareSmallAccumulate(m, r, nr, a, na);
      return;
    }
    ghost var s := m[..];
    var half := na / 2;
    var na1 := Length(m, a + half, na - half);
    var na0 := Length(m, a, half);
    var _ := SquareParts(m, r, nr, half, a, na, na1, na0, t, nt);
    HalvesValue(s, a, half, na, na1, na0);
  }

  /** A number to be squared by halves. */
  ghost predicate Squaring(s: seq<digit>, r: nat, nr: nat, half: nat, a: nat, na: nat, na1: nat, na0: nat,
    t: nat, nt: nat) {
    && Operands(s, r, nr, a, na, a, na, t, nt) && SquareScratch(na) <= nt
    && na > RECURSIVE_LIMIT_N && half == na / 2 && na1 <= na - half && na0 <= half
    && Normal(s, a + half, na1) && Normal(s, a, na0)
  }

  /** The halves and the scratch space meet the demands of the three steps. */
  lemma SquaringParts(s: seq<digit>, r: nat, nr: nat, half: nat, a: nat, na: nat, na1: nat, na0: nat, t: nat, nt: nat)
    requires Squaring(s, r, nr, half, a, na, na1, na0, t, nt)
    ensures Operands(s, r + 2 * half, nr - 2 * half, a + half, na1, a + half, na1, t, nt) && SquareScratch(na1) <= nt
    ensures Operands(s, r, nr, a, na0, a, na0, t, nt) && SquareScratch(na0) <= nt
    ensures half + na1 + na0 + 1 <= nr && na1 + na0 + 1 + Scratch(Min(na1, na0)) <= nt
    ensures Apart(t, nt, a + half, na1) && Apart(t, nt, a, na0) && a + half + na1 <= |s| && a + na0 <= |s|
    ensures Normal(s, a + half, na1) && Normal(s, a, na0) && Apart(r, nr, t, nt) && r + nr <= |s| && t + nt <= |s|
    ensures 0 < na && na1 < na && na0 < na && 2 * half <= nr && na < INT_LIMIT
  {
    SquareScratchMonotone(na1, na);
    SquareScratchMonotone(na0, na);
    ScratchMonotone(Min(na1, na0), half);
  }

  lemma SquaringKeeps(s: seq<digit>, u: seq<digit>, r: nat, nr: nat, half: nat, a: nat, na: nat, na1: nat,
    na0: nat, t: nat, nt: nat)
    requires Squaring(s, r, nr, half, a, na, na1, na0, t, nt) && Within(s, u, r, nr, t, nt)
    ensures Squaring(u, r, nr, half, a, na, na1, na0, t, nt)
    ensures V(u, a + half, na1) == V(s, a + half, na1) && V(u, a, na0) == V(s, a, na0)
  {
    hide V, P;
    WithinKeeps(s, u, r, nr, t, nt, a + half, na1);
    WithinKeeps(s, u, r, nr, t, nt, a, na0);
    WithinKeeps(s, u, r, nr, t, nt, a, na);
  }

  /** The squares of the halves and twice their product; the result is what the last sum carries out of the
      target, nothing if the square fits. */
  method SquareParts(m: array<digit>, r: nat, nr: nat, half: nat, a: nat, na: nat, na1: nat, na0: nat, t: nat, nt: nat)
    returns (carry: nat)
    requires Squaring(m[..], r, nr, half, a, na, na1, na0, t, nt)
    modifies m
    ensures Within(old(m[..]), m[..], r, nr, t, nt)
    ensures CarriesSquare(V(old(m[..]), r, nr), half, V(old(m[..]), a + half, na1), V(old(m[..]), a, na0), P(nr), carry)
    ensures Adds(old(m[..]), m[..], r, nr, (V(old(m[..]), a, na0) + P(half) * V(old(m[..]), a + half, na1))
      * (V(old(m[..]), a, na0) + P(half) * V(old(m[..]), a + half, na1)))
    decreases na, 0
  {
    hide V, P, Adds, Within, Normal, CarriesSquare, Squaring, Operands;
    ghost var s := m[..];
    SquaringParts(s, r, nr, half, a, na, na1, na0, t, nt);
    ghost var x1, x0 := V(s, a + half, na1), V(s, a, na0);
    SquareAccumulate(m, r + 2 * half, nr - 2 * half, a + half, na1, t, nt);
    ghost var u := m[..];
    WithinUpper(s, u, r, nr, 2 * half, t, nt);
    SquaringKeeps(s, u, r, nr, half, a, na, na1, na0, t, nt);
    SquaringParts(u, r, nr, half, a, na, na1, na0, t, nt);
    SquareAccumulate(m, r, nr, a, na0, t, nt);
    ghost var v := m[..];
    WithinBoth(s, u, v, r, nr, t, nt);
    SquaringKeeps(s, v, r, nr, half, a, na, na1, na0, t, nt);
    SquaringParts(v, r, nr, half, a, na, na1, na0, t, nt);
    carry := AddDoubled(m, r, nr, half, a + half, na1, a, na0, t, nt);
    WithinBoth(s, v, m[..], r, nr, t, nt);
    AddsLifted(s, u, r, nr, 2 * half, x1 * x1, t, nt);
    SquareCarry(s, u, v, r, nr, half, x1, x0, carry);
    SquareHalves(s, u, v, m[..], r, nr, half, x1, x0);
  }

  lemma WithinUpper(s: seq<digit>, u: seq<digit>, r: nat, nr: nat, k: nat, t: nat, nt: nat)
    requires k <= nr && Within(s, u, r + k, nr - k, t, nt)
    ensures Within(s, u, r, nr, t, nt) && |s| == |u|
  {
  }

  /** Form x * y in the scratch space, double it and add it at the middle. */
  method AddDoubled(m: array<digit>, r: nat, nr: nat, half: nat, x: nat, nx: nat, y: nat, ny: nat, t: nat, nt: nat)
    returns (carry: nat)
    requires Normal(m[..], x, nx) && Normal(m[..], y, ny) && half + nx + ny + 1 <= nr
    requires r + nr <= m.Length && t + nt <= m.Length && Apart(r, nr, t, nt)
    requires Apart(t, nt, x, nx) && Apart(t, nt, y, ny)
    requires nx + ny + 1 + Scratch(Min(nx, ny)) <= nt && nx < INT_LIMIT && ny < INT_LIMIT
    modifies m
    ensures Within(old(m[..]), m[..], r, nr, t, nt)
    ensures Adds(old(m[..]), m[..], r, nr, P(half) * (2 * (V(old(m[..]), x, nx) * V(old(m[..]), y, ny))))
    ensures carry > 0 <==> V(old(m[..]), r, nr) + P(half) * (2 * (V(old(m[..]), x, nx) * V(old(m[..]), y, ny))) >= P(nr)
  {
    hide V, P, Adds;
    ghost var s := m[..];
    DemandBound(V(s, x, nx), nx, V(s, y, ny), ny, Min(nx, ny));
    hide Demand, Scratch;
    var n := ProductAt(m, x, nx, y, ny, t, nt);
    ghost var z := V(m[..], t, n);
    var k := DoubleAt(m, t, n);
    ghost var s2 := m[..];
    carry := AddInplace(m, r + half, nr - half, t, k);
    ShiftedBy(s2, m[..], r, nr, half, 2 * z, carry);
    CarryMeans(s2, m[..], r, nr, P(half) * (2 * z), carry);
    AddsCarrying(s2, m[..], r, nr, P(half) * (2 * z), carry);
    WithinKeeps(s, s2, t, nt, t, nt, r, nr);
    AddsFrom(s, s2, m[..], r, nr, P(half) * (2 * z));
  }

  /** Double the n digits at t, into one more digit; the result is the new length. */
  method DoubleAt(m: array<digit>, t: nat, n: nat) returns (k: nat)
    requires 0 < n && t + n + 1 <= m.Length
    modifies m
    ensures Only(old(m[..]), m[..], t, t + n + 1) && k <= n + 1 && Normal(m[..], t, k)
    ensures V(m[..], t, k) == 2 * V(old(m[..]), t, n)
  {
    hide V, P;
    var carry := MulSingleInplace(m, t, n, 2);
    ghost var before := m[..];
    m[t + n] := carry;
    VSnoc(m[..], t, n);
    VKeeps(before, m[..], t + n, t + n + 1, t, n);
    k := Length(m, t, n + 1);
  }

  lemma SquareHalves(s: seq<digit>, u: seq<digit>, v: seq<digit>, w: seq<digit>, r: nat, nr: nat, half: nat,
    x1: int, x0: int)
    requires r + nr <= |s| == |u| == |v| == |w|
    requires Adds(s, u, r, nr, P(2 * half) * (x1 * x1)) && Adds(u, v, r, nr, x0 * x0)
    requires Adds(v, w, r, nr, P(half) * (2 * (x1 * x0)))
    ensures Adds(s, w, r, nr, (x0 + P(half) * x1) * (x0 + P(half) * x1))
  {
    hide V, P, Adds;
    var p := P(half);
    PAdd(half, half);
    AddsBoth(s, u, v, r, nr, P(2 * half) * (x1 * x1), x0 * x0);
    AddsBoth(s, v, w, r, nr, P(2 * half) * (x1 * x1) + x0 * x0, p * (2 * (x1 * x0)));
    SquareOfSum(p, x1, x0);
  }

  lemma SquareCarry(s: seq<digit>, u: seq<digit>, v: seq<digit>, r: nat, nr: nat, half: nat, x1: int, x0: int,
    carry: nat)
    requires r + nr <= |s| == |u| == |v| && x1 >= 0 && x0 >= 0
    requires Adds(s, u, r, nr, P(2 * half) * (x1 * x1)) && Adds(u, v, r, nr, x0 * x0)
    requires carry > 0 <==> V(v, r, nr) + P(half) * (2 * (x1 * x0)) >= P(nr)
    ensures CarriesSquare(V(s, r, nr), half, x1, x0, P(nr), carry)
  {
    hide V, P, Adds, CarriesSquare;
    AddsBoth(s, u, v, r, nr, P(2 * half) * (x1 * x1), x0 * x0);
    AddsFits(s, v, r, nr, P(2 * half) * (x1 * x1) + x0 * x0);
    PStep(nr);
    CarriesMiddle(V(s, r, nr), V(v, r, nr), half, x1, x0, P(nr), carry);
  }

  lemma CarriesMiddle(v: nat, w: nat, half: nat, x1: int, x0: int, size: nat, carry: nat)
    requires x1 >= 0 && x0 >= 0 && size > 0 && w == (v + (P(2 * half) * (x1 * x1) + x0 * x0)) % size
    requires carry > 0 <==> w + P(half) * (2 * (x1 * x0)) >= size
    ensures CarriesSquare(v, half, x1, x0, size, carry)
  {
    hide P;
    SquareFits(half, x1, x0, v, size);
  }

  /** What is carried out of a target that holds v and the two squares when the middle is added: nothing if
      the whole square fits. */
  ghost predicate CarriesSquare(v: nat, half: nat, x1: int, x0: int, size: nat, carry: nat) {
    && size > 0
    && (carry > 0 <==> (v + (P(2 * half) * (x1 * x1) + x0 * x0)) % size + P(half) * (2 * (x1 * x0)) >= size)
    && (v + (x0 + P(half) * x1) * (x0 + P(half) * x1) < size ==> carry == 0)
  }

  /** If the whole square fits, so do its parts. */
  lemma SquareFits(half: nat, x1: int, x0: int, v: nat, size: nat)
    requires x1 >= 0 && x0 >= 0
    ensures v + (x0 + P(half) * x1) * (x0 + P(half) * x1) < size ==>
      (v + (P(2 * half) * (x1 * x1) + x0 * x0)) % size + P(half) * (2 * (x1 * x0)) < size
  {
    hide P;
    var p := P(half);
    PAdd(half, half);
    SquareOfSum(p, x1, x0);
    PStep(half);
    MulSign(x1, x0);
    MulSign(p, 2 * (x1 * x0));
    MulSign(x1, x1);
    MulSign(x0, x0);
    MulSign(p, p);
    MulSign(p * p, x1 * x1);
    if v + (x0 + p * x1) * (x0 + p * x1) < size {
      Small(v + (P(2 * half) * (x1 * x1) + x0 * x0), size);
    }
  }

  lemma SquareOfSum(p: int, x1: int, x0: int)
    ensures (p * p) * (x1 * x1) + x0 * x0 + p * (2 * (x1 * x0)) == (x0 + p * x1) * (x0 + p * x1)
  {
  }

  /** The scratch digits the recursion may use. */
  function Needed(square: bool, n: nat): nat {
    if square then SquareScratch(n) else Scratch(n)
  }

  /** The product of two numbers, or the square when they are the same buffer, written over zeros. */
  method Mul(m: array<digit>, r: nat, a: nat, na: nat, b: nat, nb: nat, t: nat, nt: nat)
    requires Operands(m[..], r, na + nb, a, na, b, nb, t, nt) && V(m[..], r, na + nb) == 0
    requires a == b ==> na == nb
    requires 2 * Min(na, nb) <= nt && (Min(na, nb) <= ENOUGH || Needed(a == b, Min(na, nb)) <= nt)
    modifies m
    ensures Within(old(m[..]), m[..], r, na + nb, t, nt)
    ensures V(m[..], r, na + nb) == V(old(m[..]), a, na) * V(old(m[..]), b, nb)
  {
    hide V, P, Adds, Demand, Scratch, SumsEnd;
    ghost var s := m[..];
    if a == b {
      if na <= ENOUGH {
        SquareScratchEnough(na);
      }
      SquareAccumulate(m, r, na + nb, a, na, t, nt);
    } else {
      if Min(na, nb) <= ENOUGH {
        ScratchEnough(Min(na, nb));
      }
      DemandBound(V(s, a, na), na, V(s, b, nb), nb, Min(na, nb));
      ghost var _ := MulAccumulate(m, r, na + nb, a, na, b, nb, t, nt);
    }
    ProductFits(s, a, na, b, nb);
    AddsFits(s, m[..], r, na + nb, V(s, a, na) * V(s, b, nb));
  }

  // ---- Joining the halves -----------------------------------------------------------------

  /** (x1 + x0)(y1 + y0) - x1 y1 - x0 y0 is the middle of the product. */
  lemma HalvesJoin(s: seq<digit>, u: seq<digit>, v: seq<digit>, w: seq<digit>, r: nat, nr: nat, half: nat,
    x1: int, x0: int, y1: int, y0: int)
    requires r + nr <= |s| == |u| == |v| == |w|
    requires Adds(s, u, r, nr, Middle(P(half), x1, x0, y1, y0))
    requires Adds(u, v, r, nr, Moved(P(2 * half), P(half), x1, y1)) && Adds(v, w, r, nr, Moved(P(0), P(half), x0, y0))
    ensures Adds(s, w, r, nr, Joined(P(half), x1, x0, y1, y0))
  {
    hide V, P, Adds;
    var p := P(half);
    VEmpty(s, r);
    PAdd(half, half);
    AddsBoth(s, u, v, r, nr, p * ((x1 + x0) * (y1 + y0)), P(2 * half) * (x1 * y1) - p * (x1 * y1));
    AddsBoth(s, v, w, r, nr,
      p * ((x1 + x0) * (y1 + y0)) + (P(2 * half) * (x1 * y1) - p * (x1 * y1)), P(0) * (x0 * y0) - p * (x0 * y0));
    Karatsuba(p, x1, x0, y1, y0);
  }

  lemma Karatsuba(p: int, x1: int, x0: int, y1: int, y0: int)
    ensures p * ((x1 + x0) * (y1 + y0)) + ((p * p) * (x1 * y1) - p * (x1 * y1)) + (1 * (x0 * y0) - p * (x0 * y0))
      == (x0 + p * x1) * (y0 + p * y1)
  {
  }

  // ---- What the recursive calls leave of the scratch space ------------------------------------

  lemma SumLength(n: nat, half: nat, x1: int, x0: int, u: seq<digit>, t: nat, size: nat)
    requires n > RECURSIVE_LIMIT_N && half == n / 2 && HalfSized(n, half, x1, x0)
    requires Normal(u, t, size) && V(u, t, size) == x1 + x0
    ensures size == SumSize(n, x1 + x0)
  {
    hide V, P;
    VBound(u, t, size);
    PMonotone(half, n - half);
    FourTimes(n - half, n - half + 1);
    if size < n - half {
      PMonotone(size, n - half - 1);
    } else if size > n - half {
      NormalBound(u, t, size);
      PMonotone(n - half, size - 1);
      if size > n - half + 1 {
        PMonotone(n - half + 1, size - 1);
      }
    }
  }

  /** A multiplication that is given twice its length of scratch space leaves the one of the sums, behind the
      two of them, twice its shorter length exactly when the length is even and neither sum carries; and the
      one of the upper halves when the length is even. */
  lemma NestedScratch(n: nat, half: nat, x1: int, x0: int, y1: int, y0: int, u: seq<digit>, t: nat, na10: nat,
    nb10: nat)
    requires n > RECURSIVE_LIMIT_N && half == n / 2 && HalfSized(n, half, x1, x0) && HalfSized(n, half, y1, y0)
    requires Normal(u, t, na10) && V(u, t, na10) == x1 + x0
    requires Normal(u, t + na10, nb10) && V(u, t + na10, nb10) == y1 + y0
    ensures 2 * n - na10 - nb10 >= 2 * Min(na10, nb10) <==> n % 2 == 0 && x1 + x0 < P(half) && y1 + y0 < P(half)
    ensures 2 * n - 2 * (n - half) >= 2 * (n - half) <==> n % 2 == 0
  {
    hide V, P;
    SumLength(n, half, x1, x0, u, t, na10);
    SumLength(n, half, y1, y0, u, t + na10, nb10);
  }

  // ---- What is carried out of the target ----------------------------------------------------

  /** The product of the sums and, two halves up, the product of the upper halves fit together; only later is
      the one taken from the other. */
  ghost predicate TopProductFits(p: nat, x1: int, x0: int, y1: int, y0: int, size: nat) {
    p * ((x1 + x0) * (y1 + y0)) + (p * p) * (x1 * y1) < size
  }

  lemma HalfSizes(s: seq<digit>, half: nat, a: nat, na1: nat, na0: nat, b: nat, nb1: nat, nb0: nat, n: nat)
    requires Halves(s, half, a, na1, na0, b, nb1, nb0, n)
    ensures HalfSized(n, half, V(s, a + half, na1), V(s, a, na0)) && HalfSized(n, half, V(s, b + half, nb1), V(s, b, nb0))
  {
    hide V, P;
    HalfSize(s, half, a, na1, na0, n);
    HalfSize(s, half, b, nb1, nb0, n);
  }

  lemma HalfSize(s: seq<digit>, half: nat, a: nat, na1: nat, na0: nat, n: nat)
    requires n > RECURSIVE_LIMIT_N && half == n / 2 && na1 == n - half && na0 <= half
    requires Normal(s, a + half, na1) && Normal(s, a, na0)
    ensures HalfSized(n, half, V(s, a + half, na1), V(s, a, na0))
  {
    hide V;
    NormalBound(s, a + half, na1);
    VBound(s, a + half, na1);
    VBound(s, a, na0);
    PMonotone(na0, half);
  }

  /** The product of the sums alone fits. */
  lemma SumsFit(n: nat, half: nat, x1: int, x0: int, y1: int, y0: int)
    requires n > RECURSIVE_LIMIT_N && half == n / 2 && HalfSized(n, half, x1, x0) && HalfSized(n, half, y1, y0)
    ensures P(half) * ((x1 + x0) * (y1 + y0)) < P(2 * n)
  {
    hide P;
    var p, q := P(half), P(n - half);
    PMonotone(half, n - half);
    PAdd(n - half, n - half);
    PAdd(half, 2 * (n - half));
    PStep(half);
    FourTimes(2 * n - half, 2 * n);
    SumsBelow(p, q, x1 + x0, y1 + y0);
  }

  lemma SumsBelow(p: nat, q: nat, x: int, y: int)
    requires p > 0 && 0 <= x < 2 * q && 0 <= y < 2 * q
    ensures p * (x * y) < 4 * (p * (q * q))
  {
    ProductBelow(x, y, 2 * q);
    var z := q * q;
    assert (2 * q) * (2 * q) == 4 * z;
    MulStrict(x * y, 4 * z, p);
    MulAssoc(p, 4, z);
    MulAssoc(4, p, z);
  }

  lemma FourTimes(m: nat, n: nat)
    requires m < n
    ensures 4 * P(m) <= P(n)
  {
    PStep(m);
    PMonotone(m + 1, n);
  }

  lemma ProductBelow(x: int, y: int, b: int)
    requires 0 <= x < b && 0 <= y < b
    ensures 0 <= x * y < b * b
  {
    MulSign(x, y);
    MulMonotone(x, b, y);
    MulStrict(y, b, b);
  }

  /** The middle holds both other products, and the lower one is no more than the upper one a half up. */
  lemma ProductsOrdered(n: nat, half: nat, x1: int, x0: int, y1: int, y0: int)
    requires n > RECURSIVE_LIMIT_N && half == n / 2 && HalfSized(n, half, x1, x0) && HalfSized(n, half, y1, y0)
    ensures x0 * y0 <= P(half) * (x1 * y1)
    ensures P(half) * ((x1 + x0) * (y1 + y0)) >= P(half) * (x1 * y1) + P(half) * (x0 * y0)
  {
    hide P;
    var p, q := P(half), P(n - half - 1);
    PStep(half);
    PStep(n - half - 1);
    ProductBelow(x0, y0, p);
    PAdd(n - half - 1, n - half - 1);
    PMonotone(half, 2 * (n - half - 1));
    MulMonotone(q, x1, q);
    MulMonotone(q, y1, x1);
    assert p <= q * q <= x1 * y1;
    MulMonotone(p, x1 * y1, p);
    MulSign(x1, y0);
    MulSign(x0, y1);
    CrossTerms(x1, x0, y1, y0);
    MulMonotone(x1 * y1 + x0 * y0, (x1 + x0) * (y1 + y0), p);
    MulDistribute(x1 * y1, x0 * y0, p);
  }

  lemma CrossTerms(x1: int, x0: int, y1: int, y0: int)
    ensures (x1 + x0) * (y1 + y0) == x1 * y1 + x0 * y0 + (x1 * y0 + x0 * y1)
  {
  }

  lemma KeptExactly(s: seq<digit>, u: seq<digit>, v: seq<digit>, r: nat, nr: nat, half: nat, n: nat,
    x1: int, x0: int, y1: int, y0: int, carry1: nat, borrow1: nat, carry0: nat, borrow0: nat)
    requires r + nr <= |s| == |u| == |v| && V(s, r, nr) == 0 && 2 * n <= nr
    requires n > RECURSIVE_LIMIT_N && half == n / 2 && HalfSized(n, half, x1, x0) && HalfSized(n, half, y1, y0)
    requires Adds(s, u, r, nr, Middle(P(half), x1, x0, y1, y0))
    requires Adds(u, v, r, nr, Moved(P(2 * half), P(half), x1, y1))
    requires LeavesTarget(V(u, r, nr), x1, y1, P(2 * half), P(half), P(nr), carry1, borrow1)
    requires LeavesTarget(V(v, r, nr), x0, y0, P(0), P(half), P(nr), carry0, borrow0)
    ensures carry1 == 0 && borrow1 == 0 && carry0 == 0 && borrow0 == 0 <==>
      TopProductFits(P(half), x1, x0, y1, y0, P(nr))
  {
    hide V, P, Adds, HalfSized;
    var p, first := P(half), P(half) * ((x1 + x0) * (y1 + y0));
    VEmpty(s, r);
    PAdd(half, half);
    SumsFit(n, half, x1, x0, y1, y0);
    PMonotone(2 * n, nr);
    ProductsOrdered(n, half, x1, x0, y1, y0);
    ProductSigns(n, half, x1, x0, y1, y0);
    AddsFits(s, u, r, nr, first);
    if TopProductFits(p, x1, x0, y1, y0, P(nr)) {
      AddsFits(u, v, r, nr, (p * p) * (x1 * y1) - p * (x1 * y1));
    }
    NothingLeaves(p, first, x1 * y1, x0 * y0, P(nr), V(v, r, nr), carry1, borrow1, carry0, borrow0);
  }

  lemma ProductSigns(n: nat, half: nat, x1: int, x0: int, y1: int, y0: int)
    requires HalfSized(n, half, x1, x0) && HalfSized(n, half, y1, y0)
    ensures x1 * y1 >= 0 && x0 * y0 >= 0 && P(half) * (x1 * y1) >= 0 && P(half) * (x0 * y0) >= 0
    ensures (P(half) * P(half)) * (x1 * y1) >= P(half) * (x1 * y1)
  {
    hide P;
    PStep(half);
    MulSign(x1, y1);
    MulSign(x0, y0);
    MulSign(P(half), x1 * y1);
    MulSign(P(half), x0 * y0);
    MulMonotone(1, P(half), P(half) * (x1 * y1));
    MulAssoc(P(half), P(half), x1 * y1);
  }

  /** With z1 and z0 the products of the halves and p * z1 + p * z0 already contained, only the first sum can
      be too large. */
  lemma NothingLeaves(p: nat, first: nat, z1: int, z0: int, size: nat, v: nat, carry1: nat, borrow1: nat,
    carry0: nat, borrow0: nat)
    requires z1 >= 0 && z0 >= 0 && p * z1 >= z0 && p * z0 >= 0 && first >= p * z1 + p * z0 && first < size
    requires Leaves(first, z1, p * p, p, size, carry1, borrow1)
    requires first + (p * p) * z1 < size ==> v == first + ((p * p) * z1 - p * z1)
    requires Leaves(v, z0, 1, p, size, carry0, borrow0) && (p * p) * z1 >= p * z1
    ensures carry1 == 0 && borrow1 == 0 && carry0 == 0 && borrow0 == 0 <==> first + (p * p) * z1 < size
  {
    if first + (p * p) * z1 < size {
      Small(first + (p * p) * z1, size);
      Small(v + 1 * z0, size);
    }
  }

  /** With one more digit than the product needs, the sums always fit. */
  lemma SpareDigit(n: nat, half: nat, x1: int, x0: int, y1: int, y0: int, nr: nat)
    requires n > RECURSIVE_LIMIT_N && half == n / 2 && HalfSized(n, half, x1, x0) && HalfSized(n, half, y1, y0)
    requires 2 * n < nr
    ensures TopProductFits(P(half), x1, x0, y1, y0, P(nr))
  {
    hide P;
    var p, q := P(half), P(n - half);
    SumsFit(n, half, x1, x0, y1, y0);
    PStep(half);
    PStep(n - half - 1);
    ProductBelow(x1, y1, q);
    PAdd(half, half);
    PAdd(n - half, n - half);
    PAdd(2 * half, 2 * (n - half));
    MulSign(p, p);
    MulStrict(x1 * y1, q * q, p * p);
    FourTimes(2 * n, nr);
  }

  /** Without it they do not: two numbers of the same even length whose digits are all BASE - 1. */
  lemma AllOnesOverflow(s: seq<digit>, a: nat, b: nat, n: nat, half: nat)
    requires n > RECURSIVE_LIMIT_N && n == 2 * half && a + n <= |s| && b + n <= |s|
    requires forall i :: a <= i < a + n ==> s[i] == BASE - 1
    requires forall i :: b <= i < b + n ==> s[i] == BASE - 1
    ensures Halves(s, half, a, half, half, b, half, half, n)
    ensures !TopProductFits(P(half), V(s, a + half, half), V(s, a, half), V(s, b + half, half), V(s, b, half), P(2 * n))
  {
    hide V, P;
    AllOnes(s, a, half);
    AllOnes(s, b, half);
    AllOnes(s, a + half, half);
    AllOnes(s, b + half, half);
    var p := P(half);
    PAdd(half, half);
    PAdd(n, n);
    PStep(half - 1);
    Overflows(p);
  }

  lemma {:induction false} AllOnes(s: seq<digit>, a: nat, n: nat)
    requires a + n <= |s| && forall i :: a <= i < a + n ==> s[i] == BASE - 1
    ensures V(s, a, n) == P(n) - 1
  {
    hide V, P;
    if n == 0 {
      VEmpty(s, a);
    } else {
      AllOnes(s, a, n - 1);
      VSnoc(s, a, n - 1);
      PStep(n - 1);
    }
  }

  lemma Overflows(p: int)
    requires p >= 3
    ensures var q := p - 1; p * ((q + q) * (q + q)) + (p * p) * (q * q) >= (p * p) * (p * p)
  {
    var q := p - 1;
    var z, w := q * q, p * p;
    assert (q + q) * (q + q) == 4 * z;
    MulDistribute(p, 4, z);
    MulAssoc(p, p, z);
    assert p * (4 * z) + w * z == p * (p * z + 4 * z) by { MulDistribute(4 * z, p * z, p); }
    SquareBelow(p);
    MulMonotone(p * w, (p + 4) * z, p);
    MulAssoc(p, p, w);
  }

  lemma SquareBelow(p: int)
    requires p >= 3
    ensures p * (p * p) <= (p + 4) * ((p - 1) * (p - 1))
  {
    var w := p * p;
    assert (p - 1) * (p - 1) == w - 2 * p + 1;
    assert (p + 4) * (w - 2 * p + 1) == p * w + (2 * w - 7 * p + 4);
    MulMonotone(3, p, p);
  }

  lemma Small(x: int, size: nat)
    requires 0 <= x < size
    ensures x % size == x
  {
    assert size * 0 == 0;
    DivModUnique(x, 0, size);
  }

  // ---- Long division ----------------------------------------------------------------------

  /** The divisor and what is divided, split at weight p into their leading digits and the rest: a3 are
      the three leading digits of x, b2 the two leading digits of y. */
  ghost predicate Leading(x: nat, a3: nat, y: nat, b2: nat, p: nat) {
    p > 0 && p * a3 <= x < p * (a3 + 1) && p * b2 <= y < p * (b2 + 1) && BASE <= b2 && x < BASE * y
  }

  /** The leading digits overestimate the quotient digit, and by the divisor's leading digits at most. */
  lemma EstimateBounds(x: nat, a3: nat, y: nat, b2: nat, p: nat, e: nat)
    requires Leading(x, a3, y, b2, p) && e < BASE && e * b2 <= a3
    ensures y > 0 && e * y <= x + y
  {
    MulMonotone(1, b2, p);
    MulMonotone(e * b2, a3, p);
    assert e * (p * (b2 + 1)) == p * (e * b2) + p * e by {
      MulAssoc(e, p, b2 + 1);
      MulAssoc(p, e, b2 + 1);
      MulDistribute(b2, 1, e);
      MulDistribute(e * b2, e, p);
      assert e * p == p * e;
    }
    MulMonotone(y, p * (b2 + 1), e);
    MulMonotone(e, b2, p);
  }

  /** The quotient of the leading digits, kept to one digit. */
  function Capped(a3: nat, b2: nat): nat
    requires b2 > 0
  {
    var e := a3 / b2;
    if e < BASE then e else BASE - 1
  }

  /** The quotient of the leading digits is at most BASE and, capped at BASE - 1, is the true quotient
      digit or one more. */
  lemma Estimate(x: nat, a3: nat, y: nat, b2: nat, p: nat)
    requires Leading(x, a3, y, b2, p)
    ensures a3 / b2 <= BASE && x < BASE * y
    ensures TrueOrNext(Capped(a3, b2), x, y)
  {
    var h := a3 / b2;
    var e := if h < BASE then h else BASE - 1;
    Quotient(a3, b2);
    MulMonotone(e, h, b2);
    EstimateBounds(x, a3, y, b2, p, e);
    EstimateHigh(x, y, e);
    LeadingCap(x, a3, y, b2, p);
    DivBelow(a3, b2, BASE + 1);
    EstimateLow(x, a3, y, b2, p);
  }

  /** q is the quotient of x by y or one more. */
  ghost predicate TrueOrNext(q: int, x: nat, y: nat) {
    y > 0 && (q == x / y || q == x / y + 1)
  }

  lemma EstimateHigh(x: nat, y: nat, e: nat)
    requires y > 0 && e * y <= x + y
    ensures e <= x / y + 1
  {
    Quotient(x, y);
    if e > x / y + 1 {
      MulMonotone(x / y + 2, e, y);
      MulDistribute(x / y + 1, 1, y);
      assert false;
    }
  }

  lemma EstimateLow(x: nat, a3: nat, y: nat, b2: nat, p: nat)
    requires Leading(x, a3, y, b2, p) && y > 0
    ensures b2 > 0 && x / y <= a3 / b2 && x / y < BASE
  {
    assert b2 > 0 && x < BASE * y;
    var q := x / y;
    Quotient(x, y);
    DivBelow(x, y, BASE);
    LeadingAbove(x, a3, y, b2, p, q);
    hide Leading;
    QuotientAtLeast(a3, b2, q);
  }

  lemma Quotient(x: nat, y: nat)
    requires y > 0
    ensures x / y * y <= x < (x / y + 1) * y && (x / y + 1) * y == x / y * y + y
  {
    MulDistribute(x / y, 1, y);
    assert x == y * (x / y) + x % y;
  }

  lemma DivBelow(x: nat, y: nat, n: nat)
    requires y > 0 && x < n * y
    ensures x / y < n
  {
    DivModLaw(x, y);
    QuotientBelow(x % y, y, x / y, n);
  }

  lemma QuotientAtLeast(x: nat, y: nat, n: nat)
    requires y > 0 && n * y <= x
    ensures n <= x / y
  {
    if x / y < n {
      Quotient(x, y);
      MulMonotone(x / y + 1, n, y);
      assert false;
    }
  }

  lemma LeadingCap(x: nat, a3: nat, y: nat, b2: nat, p: nat)
    requires Leading(x, a3, y, b2, p)
    ensures a3 < (BASE + 1) * b2
  {
    MulDistribute(BASE, 1, b2);
    MulAssoc(p, BASE, b2 + 1);
    MulAssoc(BASE, p, b2 + 1);
    assert p * BASE == BASE * p;
    if a3 >= BASE * (b2 + 1) {
      MulMonotone(BASE * (b2 + 1), a3, p);
      assert false;
    }
  }

  lemma LeadingAbove(x: nat, a3: nat, y: nat, b2: nat, p: nat, q: nat)
    requires Leading(x, a3, y, b2, p) && q * y <= x
    ensures q * b2 <= a3
  {
    MulAssoc(p, q, b2);
    MulAssoc(q, p, b2);
    assert p * q == q * p;
    MulMonotone(p * b2, y, q);
    if q * b2 > a3 {
      MulMonotone(a3 + 1, q * b2, p);
      assert false;
    }
  }

  /** The three leading digits of a and the two of b, as the estimate reads them. */
  lemma LeadingDigits(s: seq<digit>, a: nat, b: nat, nb: nat)
    requires Normal(s, b, nb) && nb >= 2 && a + nb + 1 <= |s| && V(s, a + 1, nb) < V(s, b, nb)
    ensures var a3 := (s[a + nb] * BASE + s[a + nb - 1]) * BASE + s[a + nb - 2];
      Leading(V(s, a, nb + 1), a3, V(s, b, nb), s[b + nb - 1] * BASE + s[b + nb - 2], P(nb - 2))
  {
    hide V, P;
    var k := nb - 2;
    PStep(k);
    VBound(s, a, k);
    VBound(s, b, k);
    Digits(s, a + k, 3);
    Digits(s, b + k, 2);
    VSplit(s, a, k, nb + 1);
    VSplit(s, b, k, nb);
    VSplit(s, a, 1, nb + 1);
    VOne(s, a);
    assert P(1) == BASE by { VEmpty(s, a); PStep(0); }
    MulDistribute(V(s, a + k, 3), 1, P(k));
    MulDistribute(V(s, b + k, 2), 1, P(k));
  }

  lemma Digits(s: seq<digit>, a: nat, n: nat)
    requires 2 <= n <= 3 && a + n <= |s|
    ensures n == 2 ==> V(s, a, n) == s[a + 1] * BASE + s[a]
    ensures n == 3 ==> V(s, a, n) == (s[a + 2] * BASE + s[a + 1]) * BASE + s[a]
  {
    hide V, P;
    VEmpty(s, a);
    PStep(0);
    PStep(1);
    VOne(s, a);
    VSnoc(s, a, 1);
    if n == 3 {
      VSnoc(s, a, 2);
    }
  }

  /** The product of b and the digit q, in one digit more. */
  method DigitTimes(m: array<digit>, t: nat, b: nat, nb: nat, q: int)
    requires b + nb <= m.Length && t + nb + 1 <= m.Length && Apart(t, nb + 1, b, nb) && 0 <= q < BASE
    modifies m
    ensures Only(old(m[..]), m[..], t, t + nb + 1)
    ensures V(m[..], t, nb + 1) == V(old(m[..]), b, nb) * q
  {
    hide V, P;
    var carry := MulSingle(m, t, b, nb, q);
    ghost var before := m[..];
    m[t + nb] := carry;
    VSnoc(m[..], t, nb);
    VKeeps(before, m[..], t + nb, t + nb + 1, t, nb);
  }

  /** a holds one digit more than the divisor b, and the quotient is one digit. */
  ghost predicate OneDigit(s: seq<digit>, a: nat, b: nat, nb: nat, t: nat) {
    && nb >= 2 && Normal(s, b, nb) && a + nb + 1 <= |s| && t + nb + 1 <= |s|
    && Apart(a, nb + 1, b, nb) && Apart(a, nb + 1, t, nb + 1) && Apart(b, nb, t, nb + 1)
    && V(s, a + 1, nb) < V(s, b, nb)
  }

  lemma EstimateAt(s: seq<digit>, a: nat, b: nat, nb: nat, t: nat, a3: nat, b2: nat)
    requires OneDigit(s, a, b, nb, t)
    requires a3 == (s[a + nb] * BASE + s[a + nb - 1]) * BASE + s[a + nb - 2]
    requires b2 == s[b + nb - 1] * BASE + s[b + nb - 2]
    ensures b2 > 0 && Capped(a3, b2) < BASE && TrueOrNext(Capped(a3, b2), V(s, a, nb + 1), V(s, b, nb))
  {
    hide V, P, TrueOrNext;
    LeadingDigits(s, a, b, nb);
    Estimate(V(s, a, nb + 1), a3, V(s, b, nb), b2, P(nb - 2));
  }

  /** The estimated quotient digit. */
  method EstimateDigit(m: array<digit>, a: nat, b: nat, nb: nat, t: nat) returns (q: nat)
    requires OneDigit(m[..], a, b, nb, t)
    ensures q < BASE && TrueOrNext(q, V(m[..], a, nb + 1), V(m[..], b, nb))
  {
    hide V, P, TrueOrNext, Capped;
    var a3: nat := (m[a + nb] * BASE + m[a + nb - 1]) * BASE + m[a + nb - 2];
    var b2: nat := m[b + nb - 1] * BASE + m[b + nb - 2];
    EstimateAt(m[..], a, b, nb, t, a3, b2);
    q := Capped(a3, b2);
  }

  /** Subtract from a the largest multiple of b and return the factor. */
  method DivWithSingleQuotient(m: array<digit>, a: nat, b: nat, nb: nat, t: nat) returns (q: nat)
    requires OneDigit(m[..], a, b, nb, t)
    modifies m
    ensures Within(old(m[..]), m[..], a, nb + 1, t, nb + 1) && q < BASE
    ensures V(old(m[..]), a, nb + 1) == V(old(m[..]), b, nb) * q + V(m[..], a, nb + 1)
    ensures V(m[..], a, nb + 1) < V(old(m[..]), b, nb)
  {
    hide V, P, TrueOrNext;
    ghost var s := m[..];
    ghost var x, y := V(s, a, nb + 1), V(s, b, nb);
    q := EstimateDigit(m, a, b, nb, t);
    Corrected(x, y, q);
    DigitTimes(m, t, b, nb, q);
    ghost var s1 := m[..];
    WithinKeeps(s, s1, t, nb + 1, t, nb + 1, a, nb + 1);
    var c := CompareSame(m, a, t, nb + 1);
    if c < 0 {
      WithinKeeps(s, s1, t, nb + 1, t, nb + 1, b, nb);
      q := q - 1;
      DigitTimes(m, t, b, nb, q);
      WithinKeeps(s1, m[..], t, nb + 1, t, nb + 1, a, nb + 1);
    }
    TakeOff(m, a, nb + 1, t);
  }

  /** If the estimate times the divisor exceeds what is divided, the estimate is one too large;
      otherwise it is exact. */
  lemma Corrected(x: nat, y: nat, q: nat)
    requires TrueOrNext(q, x, y)
    ensures var d := if x < y * q then q - 1 else q; 0 <= d && y * d <= x < y * d + y
  {
    Quotient(x, y);
    var r := x / y;
    assert y * r == r * y && y * (r + 1) == (r + 1) * y;
  }

  /** a = a - t for n digits each, t the smaller. */
  method TakeOff(m: array<digit>, a: nat, n: nat, t: nat)
    requires 0 < n && a + n <= m.Length && t + n <= m.Length && Apart(a, n, t, n)
    requires V(m[..], t, n) <= V(m[..], a, n)
    modifies m
    ensures Only(old(m[..]), m[..], a, a + n)
    ensures V(m[..], a, n) == V(old(m[..]), a, n) - V(old(m[..]), t, n)
  {
    hide V, P;
    var nt := Length(m, t, n);
    var borrow := SubInplace(m, a, n, t, nt);
    VBound(m[..], a, n);
    MulMonotone(0, borrow, P(n));
    assert P(n) * -borrow == -(P(n) * borrow);
    if borrow == 1 {
      assert false;
    }
  }

  /** What long division works on: a has a leading zero and at least as many further digits as b; q has
      room for the quotient, or none when it is not wanted. */
  ghost predicate Dividing(s: seq<digit>, a: nat, na: nat, b: nat, nb: nat, q: nat, nq: nat, t: nat) {
    && nb >= 2 && Normal(s, b, nb) && nb < na && a + na <= |s| && t + nb + 1 <= |s| && q + nq <= |s|
    && (nq == 0 || nq == na - nb)
    && Apart(a, na, b, nb) && Apart(a, na, t, nb + 1) && Apart(b, nb, t, nb + 1)
    && Apart(a, na, q, nq) && Apart(b, nb, q, nq) && Apart(t, nb + 1, q, nq)
  }

  /** a is what is left of the number s held after all quotient digits but the lowest j, of value x. */
  ghost predicate Divided(s: seq<digit>, u: seq<digit>, a: nat, na: nat, b: nat, nb: nat, j: nat, x: nat)
    requires |s| == |u| && a + na <= |s| && b + nb <= |s| && j <= na
  {
    V(s, a, na) == V(u, a, na) + P(j) * x * V(s, b, nb) && V(u, a + j, na - j) < V(s, b, nb)
  }

  /** Digits above the divisor's are zero in what is left. */
  lemma LeftIsShort(s: seq<digit>, b: nat, nb: nat, a: nat, n: nat)
    requires b + nb <= |s| && a + n <= |s| && nb <= n && V(s, a, n) < V(s, b, nb)
    ensures V(s, a, nb) < V(s, b, nb) && V(s, a + nb, n - nb) == 0
  {
    hide V, P;
    VSplit(s, a, nb, n);
    VBound(s, b, nb);
    VBound(s, a + nb, n - nb);
    if V(s, a + nb, n - nb) > 0 {
      MulMonotone(1, V(s, a + nb, n - nb), P(nb));
      assert false;
    }
    assert P(nb) * 0 == 0;
  }

  /** Before the first step: the leading zero keeps the topmost nb digits below the divisor. */
  lemma DivideStart(s: seq<digit>, a: nat, na: nat, b: nat, nb: nat)
    requires nb >= 2 && Normal(s, b, nb) && nb < na && a + na <= |s| && s[a + na - 1] == 0
    ensures Divided(s, s, a, na, b, nb, na - nb, 0)
  {
    hide V, P;
    var top := a + na - nb;
    VSnoc(s, top, nb - 1);
    assert P(nb - 1) * 0 == 0;
    VBound(s, top, nb - 1);
    NormalBound(s, b, nb);
    MulAssoc(P(na - nb), 0, V(s, b, nb));
  }

  /** The quotient digit d of the window of nb + 1 digits at a + i joins the quotient x of the digits above. */
  lemma DivideStep(s: seq<digit>, u: seq<digit>, w: seq<digit>, a: nat, na: nat, b: nat, nb: nat, i: nat,
    x: nat, d: nat, t: nat)
    requires |s| == |u| && b + nb <= |s| && a + na <= |s| && i + nb + 1 <= na && Apart(a, na, t, nb + 1)
    requires Divided(s, u, a, na, b, nb, i + 1, x) && Within(u, w, a + i, nb + 1, t, nb + 1)
    requires V(u, a + i, nb + 1) == V(s, b, nb) * d + V(w, a + i, nb + 1) && V(w, a + i, nb + 1) < V(s, b, nb)
    requires V(u, a + i + 1 + nb, na - i - 1 - nb) == 0
    ensures Divided(s, w, a, na, b, nb, i, BASE * x + d)
  {
    hide V, P;
    var n, k := nb + 1, na - i - nb - 1;
    VSplit(u, a, i, na);
    VSplit(w, a, i, na);
    VSplit(u, a + i, n, na - i);
    VSplit(w, a + i, n, na - i);
    WithinKeeps(u, w, a + i, n, t, n, a, i);
    WithinKeeps(u, w, a + i, n, t, n, a + i + n, k);
    assert P(n) * 0 == 0;
    PStep(i);
    StepArithmetic(P(i), V(s, b, nb), d, x, V(w, a + i, n));
  }

  lemma StepArithmetic(p: int, y: int, d: int, x: int, left: int)
    ensures p * (y * d + left) + BASE * p * x * y == p * left + p * (BASE * x + d) * y
  {
    MulDistribute(y * d, left, p);
    MulDistribute(BASE * x, d, p);
    MulDistribute(p * (BASE * x), p * d, y);
    MulAssoc(p, d, y);
    MulAssoc(p, BASE, x);
    assert d * y == y * d && p * BASE == BASE * p;
  }

  /** Storing the quotient digit does not touch what is left. */
  lemma StoreDigit(s: seq<digit>, w: seq<digit>, v: seq<digit>, a: nat, na: nat, b: nat, nb: nat, q: nat,
    i: nat, x: nat)
    requires |s| == |w| && b + nb <= |s| && a + na <= |s| && i + nb < na && q + na - nb <= |s|
    requires Apart(a, na, q, na - nb) && Only(w, v, q + i, q + i + 1)
    requires Divided(s, w, a, na, b, nb, i, x)
    ensures Divided(s, v, a, na, b, nb, i, x)
    ensures V(v, q + i, na - nb - i) == v[q + i] + BASE * V(w, q + i + 1, na - nb - i - 1)
  {
    hide V, P;
    VKeeps(w, v, q + i, q + i + 1, a, na);
    VKeeps(w, v, q + i, q + i + 1, a + i, na - i);
    VKeeps(w, v, q + i, q + i + 1, q + i + 1, na - nb - i - 1);
    VSplit(v, q + i, 1, na - nb - i);
    VOne(v, q + i);
    assert P(1) == BASE by { VEmpty(s, a); PStep(0); }
  }

  /** u is s changed at most in the dividend, the quotient and the scratch space. */
  ghost predicate DividingOnly(s: seq<digit>, u: seq<digit>, a: nat, na: nat, nb: nat, q: nat, nq: nat, t: nat) {
    && |s| == |u|
    && forall i :: 0 <= i < |s| && !(a <= i < a + na) && !(q <= i < q + nq) && !(t <= i < t + nb + 1) ==> s[i] == u[i]
  }

  /** The divisor stays, and the next window can be divided by one digit. */
  lemma NextWindow(s: seq<digit>, u: seq<digit>, a: nat, na: nat, b: nat, nb: nat, q: nat, nq: nat, t: nat,
    i: nat, x: nat)
    requires Dividing(s, a, na, b, nb, q, nq, t) && DividingOnly(s, u, a, na, nb, q, nq, t)
    requires i + nb < na && Divided(s, u, a, na, b, nb, i + 1, x)
    ensures V(u, b, nb) == V(s, b, nb) && OneDigit(u, a + i, b, nb, t)
    ensures V(u, a + i + 1 + nb, na - i - 1 - nb) == 0
  {
    hide V, P;
    assert s[b..b + nb] == u[b..b + nb] && s[b + nb - 1] == u[b + nb - 1];
    SameValue(s, u, b, nb);
    LeftIsShort(u, b, nb, a + i + 1, na - i - 1);
  }

  lemma SameValue(s: seq<digit>, u: seq<digit>, at: nat, n: nat)
    requires |s| == |u| && at + n <= |s| && s[at..at + n] == u[at..at + n]
    ensures V(s, at, n) == V(u, at, n)
  {
  }

  /** One quotient digit of long division, from the digits above i to the digits from i on. */
  method DivideDigit(m: array<digit>, a: nat, na: nat, b: nat, nb: nat, q: nat, nq: nat, t: nat, i: nat,
    ghost x: nat, ghost s: seq<digit>)
    returns (ghost y: nat)
    requires Dividing(s, a, na, b, nb, q, nq, t) && DividingOnly(s, m[..], a, na, nb, q, nq, t)
    requires i + nb < na && Divided(s, m[..], a, na, b, nb, i + 1, x)
    requires nq > 0 ==> V(m[..], q + i + 1, na - nb - i - 1) == x
    modifies m
    ensures DividingOnly(s, m[..], a, na, nb, q, nq, t) && Divided(s, m[..], a, na, b, nb, i, y)
    ensures nq > 0 ==> V(m[..], q + i, na - nb - i) == y
  {
    hide V, P, Divided, OneDigit;
    ghost var u := m[..];
    NextWindow(s, u, a, na, b, nb, q, nq, t, i, x);
    var d := DivWithSingleQuotient(m, a + i, b, nb, t);
    ghost var w := m[..];
    y := BASE * x + d;
    DivideStep(s, u, w, a, na, b, nb, i, x, d, t);
    if nq > 0 {
      WithinKeeps(u, w, a + i, nb + 1, t, nb + 1, q + i + 1, na - nb - i - 1);
      m[q + i] := d;
      StoreDigit(s, w, m[..], a, na, b, nb, q, i, y);
    }
  }

  /** Divide a in place by b: a keeps the remainder, and q, if it is wanted, gets the quotient. */
  method Div(m: array<digit>, a: nat, na: nat, b: nat, nb: nat, q: nat, nq: nat, t: nat)
    requires Dividing(m[..], a, na, b, nb, q, nq, t) && m[a + na - 1] == 0
    modifies m
    ensures DividingOnly(old(m[..]), m[..], a, na, nb, q, nq, t) && V(old(m[..]), b, nb) > 0
    ensures V(m[..], a, na) == V(old(m[..]), a, na) % V(old(m[..]), b, nb)
    ensures nq > 0 ==> V(m[..], q, na - nb) == V(old(m[..]), a, na) / V(old(m[..]), b, nb)
  {
    hide V, P, Divided;
    ghost var s := m[..];
    DivideStart(s, a, na, b, nb);
    var i := na - nb;
    if nq > 0 {
      VEmpty(s, q + i);
    }
    ghost var x: nat := 0;
    while i > 0
      invariant 0 <= i <= na - nb && DividingOnly(s, m[..], a, na, nb, q, nq, t)
      invariant Divided(s, m[..], a, na, b, nb, i, x)
      invariant nq > 0 ==> V(m[..], q + i, na - nb - i) == x
    {
      i := i - 1;
      x := DivideDigit(m, a, na, b, nb, q, nq, t, i, x, s);
    }
    DivideEnd(s, m[..], a, na, b, nb, x);
  }

  lemma DivideEnd(s: seq<digit>, u: seq<digit>, a: nat, na: nat, b: nat, nb: nat, x: nat)
    requires |s| == |u| && a + na <= |s| && b + nb <= |s| && Divided(s, u, a, na, b, nb, 0, x)
    ensures V(s, b, nb) > 0
    ensures V(u, a, na) == V(s, a, na) % V(s, b, nb) && x == V(s, a, na) / V(s, b, nb)
  {
    hide V, P;
    VEmpty(s, a);
    var r, y := V(u, a, na), V(s, b, nb);
    assert 1 * x * y == y * x;
    DivModUnique(r, x, y);
  }
}
