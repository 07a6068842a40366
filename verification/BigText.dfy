/** Big numbers as text: the digits of a base, highest first, read and written in blocks that fit one
    16-bit digit. */
module BigText {
  import opened Numerals
  import opened BigDigits

  // ---- Characters -------------------------------------------------------------------------

  /** What a character counts, letters of either case from ten on; -1 for all others. */
  function Worth(c: char): (d: int)
    ensures -1 <= d < 36
  {
    if '0' <= c <= '9' then c as int - '0' as int
    else if 'A' <= c <= 'Z' then c as int - 'A' as int + 10
    else if 'a' <= c <= 'z' then c as int - 'a' as int + 10
    else -1
  }

  function ToDigit(c: char, base: nat): int {
    var r := Worth(c);
    if 0 <= r < base then r else -1
  }

  function ToChar(i: int): (c: char)
    requires 0 <= i < 36
    ensures Worth(c) == i && !('A' <= c <= 'Z')
  {
    if i < 10 then (i + '0' as int) as char else (i - 10 + 'a' as int) as char
  }

  lemma CharOfWorth(c: char)
    requires Worth(c) >= 0 && !('A' <= c <= 'Z')
    ensures ToChar(Worth(c)) == c
  {
  }

  /** The digits of base 36 in order. */
  const DIGITS: string := "0123456789abcdefghijklmnopqrstuvwxyz"

  /** Each digit is written as its character in that list. */
  lemma CharOf(i: nat)
    requires i < |DIGITS|
    ensures |DIGITS| == 36 && ToChar(i) == DIGITS[i]
  {
    assert DIGITS[..10] == "0123456789" && DIGITS[10..] == "abcdefghijklmnopqrstuvwxyz";
  }

  /** A character counts its place in that list, a capital letter what the small letter 32 places further on counts,
      and no other character counts anything. */
  lemma WorthIs(c: char, d: nat)
    requires d < |DIGITS|
    ensures Worth(c) == d <==> c == DIGITS[d] || ('A' <= c <= 'Z' && (c as int + 32) as char == DIGITS[d])
  {
    CharOf(d);
  }

  ghost function Digits(s: string): (d: seq<int>)
    ensures |d| == |s|
  {
    seq(|s|, i requires 0 <= i < |s| => Worth(s[i]))
  }

  lemma DigitsSnoc(s: string, c: char)
    ensures Digits(s + [c]) == Digits(s) + [Worth(c)]
  {
  }

  /** No capital letters. */
  predicate Lower(s: string) {
    forall i :: 0 <= i < |s| ==> !('A' <= s[i] <= 'Z')
  }

  /** Text in lower case is determined by its digits. */
  lemma LowerUnique(s: string, t: string, base: nat)
    requires Lower(s) && Lower(t) && Digits(s) == Digits(t) && Text(Digits(s), base)
    ensures s == t
  {
    forall i | 0 <= i < |s|
      ensures s[i] == t[i]
    {
      assert Digits(s)[i] == Worth(s[i]) && Digits(t)[i] == Worth(t[i]);
      CharOfWorth(s[i]);
      CharOfWorth(t[i]);
    }
  }

  // ---- Numbers ----------------------------------------------------------------------------

  /** Digits of the base. */
  ghost predicate Text(s: seq<int>, base: nat) {
    forall i :: 0 <= i < |s| ==> 0 <= s[i] < base
  }

  /** The number a text stands for. */
  ghost function Num(s: seq<int>, base: nat): int {
    if s == [] then 0 else Num(s[..|s| - 1], base) * base + s[|s| - 1]
  }

  /** At least one digit, and no zero in front of others. */
  ghost predicate Canonical(s: seq<int>, base: nat) {
    Text(s, base) && s != [] && (|s| > 1 ==> s[0] != 0)
  }

  lemma NumSnoc(s: seq<int>, x: int, base: nat)
    ensures Num(s + [x], base) == Num(s, base) * base + x
  {
    assert (s + [x])[..|s|] == s;
  }

  lemma NumPrefix(s: seq<int>, i: nat, base: nat)
    requires i < |s|
    ensures Num(s[..i + 1], base) == Num(s[..i], base) * base + s[i]
  {
    assert s[..i + 1] == s[..i] + [s[i]];
    NumSnoc(s[..i], s[i], base);
  }

  /** The beginning of a text is no larger a number. */
  lemma {:induction false} NumGrows(s: seq<int>, i: nat, j: nat, base: nat)
    requires Text(s, base) && i <= j <= |s| && base > 0
    ensures 0 <= Num(s[..i], base) <= Num(s[..j], base)
    decreases j
  {
    hide Num;
    NumNothing(s, base);
    if j == 0 {
    } else if i < j {
      NumGrows(s, i, j - 1, base);
      NumPrefix(s, j - 1, base);
      MulMonotone(1, base, Num(s[..j - 1], base));
    } else {
      NumGrows(s, i - 1, i - 1, base);
      NumPrefix(s, i - 1, base);
      MulMonotone(0, Num(s[..i - 1], base), base);
    }
  }

  /** A number has one text without leading zeros. */
  lemma {:induction false} UniqueText(s: seq<int>, t: seq<int>, base: nat)
    requires base >= 2 && Canonical(s, base) && Canonical(t, base) && Num(s, base) == Num(t, base)
    ensures s == t
    decreases |s|
  {
    hide Num;
    var m, n := |s| - 1, |t| - 1;
    LastDigit(s, base);
    LastDigit(t, base);
    SameDigit(Num(s[..m], base), Num(t[..n], base), s[m], t[n], base);
    if m > 0 && n > 0 {
      UniqueText(s[..m], t[..n], base);
    } else if m > 0 {
      Positive(s[..m], base);
      NumNothing(t, base);
    } else if n > 0 {
      Positive(t[..n], base);
      NumNothing(s, base);
    }
    assert s == s[..m] + [s[m]] && t == t[..n] + [t[n]];
  }

  lemma LastDigit(s: seq<int>, base: nat)
    requires s != []
    ensures Num(s, base) == Num(s[..|s| - 1], base) * base + s[|s| - 1]
  {
  }

  /** The last digit and the number in front of it are determined. */
  lemma SameDigit(x: int, y: int, d: int, e: int, base: nat)
    requires x * base + d == y * base + e && 0 <= d < base && 0 <= e < base
    ensures x == y && d == e
  {
    if x < y {
      MulMonotone(x + 1, y, base);
      MulDistribute(x, 1, base);
    } else if y < x {
      MulMonotone(y + 1, x, base);
      MulDistribute(y, 1, base);
    }
  }

  lemma {:induction false} Positive(s: seq<int>, base: nat)
    requires Text(s, base) && s != [] && s[0] != 0 && base > 0
    ensures Num(s, base) > 0
  {
    hide Num;
    LastDigit(s, base);
    if |s| > 1 {
      Positive(s[..|s| - 1], base);
      MulMonotone(1, Num(s[..|s| - 1], base), base);
    } else {
      NumNothing(s, base);
    }
  }

  // ---- Blocks -----------------------------------------------------------------------------

  /** As many digits of the base as fit one digit of the number, and what they can count to. */
  method Blocks(base: nat) returns (blockSize: nat, blockBound: nat)
    requires 2 <= base <= 36
    ensures blockSize > 0 && blockBound == Pow(base, blockSize) < BASE && blockBound >= 2
    ensures Pow(base, blockSize + 1) >= BASE
  {
    blockSize, blockBound := 1, base;
    assert Pow(base, 1) == base * Pow(base, 0);
    while blockBound * base < BASE
      invariant blockSize > 0 && blockBound == Pow(base, blockSize) < BASE && blockBound >= 2
      decreases BASE - blockBound
    {
      MulStrict(1, base, blockBound);
      blockSize, blockBound := blockSize + 1, blockBound * base;
    }
    assert Pow(base, blockSize + 1) == base * blockBound;
  }

  // ---- Reading ----------------------------------------------------------------------------

  /** a = a * b + v for a result that fits. */
  method TimesPlus(m: array<digit>, a: nat, na: nat, b: int, v: int)
    requires 0 < na && a + na <= m.Length && 0 <= b < BASE && 0 <= v < BASE
    requires V(m[..], a, na) * b + v < P(na)
    modifies m
    ensures Only(old(m[..]), m[..], a, a + na) && V(m[..], a, na) == V(old(m[..]), a, na) * b + v
  {
    hide V, P;
    ghost var x := V(m[..], a, na);
    var carry := MulSingleInplace(m, a, na, b);
    NoCarry(P(na), V(m[..], a, na), carry, x * b);
    carry := AddSingleInplace(m, a, na, v);
    NoCarry(P(na), V(m[..], a, na), carry, x * b + v);
  }

  lemma NoCarry(p: nat, low: nat, carry: nat, x: int)
    requires low + p * carry == x && x < p
    ensures carry == 0 && low == x
  {
    if carry > 0 {
      MulMonotone(1, carry, p);
    }
  }

  /** The number a text stands for, when it fits; the result is its length. */
  method FromString(m: array<digit>, a: nat, na: nat, str: string, base: nat) returns (n: nat)
    requires 2 <= base <= 36 && Text(Digits(str), base) && 0 < na && a + na <= m.Length && Num(Digits(str), base) < P(na)
    modifies m
    ensures Only(old(m[..]), m[..], a, a + na) && n <= na && Normal(m[..], a, n)
    ensures V(m[..], a, n) == Num(Digits(str), base)
  {
    hide V, P, Num, Digits, Worth;
    ghost var d := Digits(str);
    var blockSize, blockBound := Blocks(base);
    SetZero(m, a, na);
    NumNothing(d, base);
    var i: nat := 0;
    while i + blockSize <= |str|
      invariant i <= |str| && Only(old(m[..]), m[..], a, a + na) && V(m[..], a, na) == Num(d[..i], base)
      decreases |str| - i
    {
      var v := BlockValue(str, i, blockSize, base);
      NumGrows(d, i + blockSize, |str|, base);
      WholeText(d);
      TimesPlus(m, a, na, blockBound, v);
      i := i + blockSize;
    }
    while i < |str|
      invariant i <= |str| && Only(old(m[..]), m[..], a, a + na) && V(m[..], a, na) == Num(d[..i], base)
    {
      NumPrefix(d, i, base);
      NumGrows(d, i + 1, |str|, base);
      WholeText(d);
      DigitRead(str, i, base);
      TimesPlus(m, a, na, base, ToDigit(str[i], base));
      i := i + 1;
    }
    WholeText(d);
    n := Length(m, a, na);
  }

  /** The number of one digit, and of one more. */
  lemma DigitNumber(s: string, d: nat, base: nat)
    requires d < base <= |DIGITS|
    ensures Num(Digits([DIGITS[d]]), base) == d
    ensures Num(Digits(s + [DIGITS[d]]), base) == Num(Digits(s), base) * base + d
  {
    hide Worth, Num, Digits;
    WorthIs(DIGITS[d], d);
    DigitsSnoc(s, DIGITS[d]);
    DigitsSnoc([], DIGITS[d]);
    assert [] + [DIGITS[d]] == [DIGITS[d]];
    NumSnoc(Digits(s), d, base);
    NumSnoc(Digits([]), d, base);
    NumNothing(Digits([]), base);
    assert Digits([])[..0] == Digits([]);
    assert Num(Digits([]), base) * base == 0;
  }

  lemma DigitRead(str: string, i: nat, base: nat)
    requires i < |str| && Text(Digits(str), base)
    ensures ToDigit(str[i], base) == Digits(str)[i]
  {
    assert 0 <= Digits(str)[i] < base;
  }

  lemma NumNothing(s: seq<int>, base: nat)
    ensures Num(s[..0], base) == 0
  {
  }

  lemma WholeText(s: seq<int>)
    ensures s[..|s|] == s
  {
  }

  /** The value of the next block of digits. */
  method BlockValue(str: string, i: nat, n: nat, base: nat) returns (v: int)
    requires Text(Digits(str), base) && i + n <= |str| && base > 0 && Pow(base, n) < BASE
    ensures 0 <= v < BASE && Num(Digits(str)[..i + n], base) == Num(Digits(str)[..i], base) * Pow(base, n) + v
  {
    hide Num, Digits, Worth;
    v := 0;
    for j := 0 to n
      invariant 0 <= v < Pow(base, j) && Num(Digits(str)[..i + j], base) == Num(Digits(str)[..i], base) * Pow(base, j) + v
    {
      NumPrefix(Digits(str), i + j, base);
      DigitRead(str, i + j, base);
      BlockStep(Num(Digits(str)[..i], base), Pow(base, j), v, base, ToDigit(str[i + j], base));
      v := v * base + ToDigit(str[i + j], base);
    }
  }

  lemma BlockStep(x: int, p: nat, v: int, base: nat, d: int)
    requires 0 <= v < p && 0 <= d < base
    ensures (x * p + v) * base + d == x * (base * p) + (v * base + d) && 0 <= v * base + d < base * p
  {
    MulDistribute(x * p, v, base);
    MulAssoc(x, p, base);
    assert p * base == base * p;
    MulMonotone(v, p - 1, base);
    MulMonotone(0, v, base);
    MulDistribute(p, 1, base);
  }

  // ---- Writing ----------------------------------------------------------------------------

  /** Divide by one digit in place; the result is the remainder. */
  method DivSingleInplace(m: array<digit>, a: nat, na: nat, b: nat) returns (remain: nat)
    requires a + na <= m.Length && 0 < b < BASE
    modifies m
    ensures Only(old(m[..]), m[..], a, a + na) && remain < b
    ensures V(old(m[..]), a, na) == V(m[..], a, na) * b + remain
  {
    hide V, P;
    ghost var s := m[..];
    remain := 0;
    VEmpty(s, a + na);
    for i := na downto 0
      invariant Only(s, m[..], a + i, a + na) && remain < b
      invariant V(s, a + i, na - i) == V(m[..], a + i, na - i) * b + remain
    {
      ghost var before := m[..];
      var x := remain * BASE + m[a + i];
      DivDigit(remain, m[a + i], b);
      m[a + i] := x / b;
      DivColumn(s, before, m[..], a + i, na - i, b, remain, x);
      remain := x % b;
    }
  }

  lemma DivDigit(remain: nat, d: int, b: nat)
    requires remain < b && 0 <= d < BASE
    ensures var x := remain * BASE + d; 0 <= x / b < BASE && 0 <= x % b < b && x == b * (x / b) + x % b
  {
    var x := remain * BASE + d;
    DivModLaw(x, b);
    if x / b >= BASE {
      MulMonotone(BASE, x / b, b);
    }
  }

  lemma DivColumn(s: seq<digit>, before: seq<digit>, t: seq<digit>, at: nat, n: nat, b: nat, remain: nat, x: nat)
    requires n > 0 && at + n <= |s| == |before| && b > 0 && x / b < BASE && s[at] == before[at]
    requires t == before[at := x / b] && x == remain * BASE + s[at] && x == b * (x / b) + x % b
    requires V(s, at + 1, n - 1) == V(before, at + 1, n - 1) * b + remain
    ensures V(s, at, n) == V(t, at, n) * b + x % b
  {
    hide V, P;
    VSplit(s, at, 1, n);
    VSplit(t, at, 1, n);
    VOne(s, at);
    VOne(t, at);
    VKeeps(before, t, at, at + 1, at + 1, n - 1);
    assert P(1) == BASE by { VEmpty(s, at); PStep(0); }
    var y, q := V(before, at + 1, n - 1), x / b;
    MulDistribute(q, BASE * y, b);
    MulAssoc(BASE, y, b);
  }

  /** The text of a number. The buffer is used up. */
  method ToString(m: array<digit>, a: nat, na: nat, base: nat) returns (str: string)
    requires 2 <= base <= 36 && Normal(m[..], a, na)
    modifies m
    ensures Only(old(m[..]), m[..], a, a + na) && Lower(str)
    ensures Canonical(Digits(str), base) && Num(Digits(str), base) == V(old(m[..]), a, na)
  {
    hide V, P, Num, Val, Digits, Worth, Lower;
    ghost var x := V(m[..], a, na);
    var blockSize, blockBound := Blocks(base);
    var p: string := [];
    var n: nat := na;
    NothingWritten(x, base);
    assert Digits([]) == [] && Lower([]) by { NoText(); }
    while n > 1 || m[a] >= blockBound
      invariant n <= na && Normal(m[..], a, n) && Only(old(m[..]), m[..], a, a + na)
      invariant Lower(p) && Writing(x, V(m[..], a, n), Digits(p), base) && (p != [] ==> V(m[..], a, n) > 0)
      decreases V(m[..], a, n)
    {
      n, p := WriteBlock(m, a, na, n, p, x, blockSize, blockBound, base);
    }
    VOne(m[..], a);
    p := WriteLast(m[a], p, x, base);
    str := Reverse(p);
    ReverseDigits(p);
    ReverseText(Digits(p), base);
  }

  lemma NoText()
    ensures Digits([]) == [] && Lower([])
  {
  }

  /** The digits written so far, lowest first, and what is left of the number. */
  ghost predicate Writing(x: int, left: int, p: seq<int>, base: nat) {
    Text(p, base) && x == left * Pow(base, |p|) + Val(p, base)
  }

  lemma NothingWritten(x: int, base: nat)
    ensures Writing(x, x, [], base)
  {
  }

  /** One digit of what is left. */
  lemma WriteDigit(x: int, left: int, p: seq<int>, base: nat)
    requires Writing(x, left, p, base) && left >= 0 && base > 0
    ensures Writing(x, left / base, p + [left % base], base)
  {
    hide Val;
    DivModLaw(left, base);
    ValSnoc(p, left % base, base);
    var q, r, k := left / base, left % base, Pow(base, |p|);
    MulDistribute(base * q, r, k);
    MulAssoc(q, base, k);
    assert base * q == q * base && r * k == k * r;
  }

  lemma WriteChar(p: string, d: int)
    requires Lower(p) && 0 <= d < 36
    ensures Digits(p + [ToChar(d)]) == Digits(p) + [d] && Lower(p + [ToChar(d)])
  {
    DigitsSnoc(p, ToChar(d));
  }

  /** Divide by a block and write the remainder's digits. */
  method WriteBlock(m: array<digit>, a: nat, na: nat, n0: nat, p0: string, ghost x: int, blockSize: nat,
    blockBound: nat, base: nat)
    returns (n: nat, p: string)
    requires 2 <= base <= 36 && blockBound == Pow(base, blockSize) && 2 <= blockBound < BASE && blockSize > 0
    requires n0 <= na && Normal(m[..], a, n0) && a + na <= m.Length && (n0 > 1 || m[a] >= blockBound)
    requires Lower(p0) && Writing(x, V(m[..], a, n0), Digits(p0), base)
    modifies m
    ensures n <= n0 && Normal(m[..], a, n) && Only(old(m[..]), m[..], a, a + na)
    ensures Lower(p) && Writing(x, V(m[..], a, n), Digits(p), base) && 0 < V(m[..], a, n) < V(old(m[..]), a, n0) && p != []
  {
    hide V, P, Val, Writing, Digits, Worth, Lower;
    ghost var s := m[..];
    var v := DivSingleInplace(m, a, n0, blockBound);
    n := n0;
    StillNormal(s, m[..], a, n0, blockBound, v);
    if m[a + n - 1] == 0 {
      DropZero(m[..], a, n);
      n := n - 1;
    }
    p := WriteDigits(v, p0, x, V(m[..], a, n), blockSize, base);
  }

  lemma DropZero(s: seq<digit>, a: nat, n: nat)
    requires n > 0 && a + n <= |s| && s[a + n - 1] == 0
    ensures V(s, a, n - 1) == V(s, a, n)
  {
    VSnoc(s, a, n - 1);
  }

  /** After the division at most the top digit is zero, and what is left is smaller but not zero. */
  lemma StillNormal(s: seq<digit>, t: seq<digit>, a: nat, n: nat, b: nat, v: nat)
    requires Normal(s, a, n) && |s| == |t| && 2 <= b < BASE && v < b && (n > 1 || s[a] >= b)
    requires V(s, a, n) == V(t, a, n) * b + v
    ensures 0 < V(t, a, n) < V(s, a, n)
    ensures Normal(t, a, if t[a + n - 1] == 0 then n - 1 else n)
  {
    hide V, P;
    var x, y := V(s, a, n), V(t, a, n);
    if n > 1 {
      NormalBound(s, a, n);
      PStep(n - 2);
      MulMonotone(1, P(n - 2), BASE);
    } else {
      VOne(s, a);
    }
    if y <= 0 {
      MulMonotone(y, 0, b);
    }
    MulMonotone(2, b, y);
    if t[a + n - 1] == 0 {
      TopTwo(s, t, a, n, b, v);
    }
  }

  lemma TopTwo(s: seq<digit>, t: seq<digit>, a: nat, n: nat, b: nat, v: nat)
    requires Normal(s, a, n) && |s| == |t| && 2 <= b < BASE && v < b && 0 < V(t, a, n)
    requires V(s, a, n) == V(t, a, n) * b + v && t[a + n - 1] == 0
    ensures n > 1 && (n > 2 ==> t[a + n - 2] != 0)
  {
    hide V, P;
    VSnoc(t, a, n - 1);
    assert P(n - 1) * 0 == 0;
    if n == 1 {
      VEmpty(t, a);
    } else if n > 2 && t[a + n - 2] == 0 {
      VSnoc(t, a, n - 2);
      assert P(n - 2) * 0 == 0;
      VBound(t, a, n - 2);
      NormalBound(s, a, n);
      PStep(n - 2);
      var y, q := V(t, a, n), P(n - 2);
      MulMonotone(y + 1, q, b);
      MulDistribute(y, 1, b);
      MulMonotone(b, BASE, q);
    }
  }

  /** Exactly n digits of a remainder below base^n. */
  method WriteDigits(v0: nat, p0: string, ghost x: int, ghost left: int, n: nat, base: nat) returns (p: string)
    requires v0 < Pow(base, n) && 2 <= base <= 36 && left >= 0
    requires Lower(p0) && Writing(x, left * Pow(base, n) + v0, Digits(p0), base)
    ensures Lower(p) && Writing(x, left, Digits(p), base) && |p| == |p0| + n
  {
    hide Writing, Digits, Worth, Lower;
    var v: nat := v0;
    p := p0;
    for i := 0 to n
      invariant v < Pow(base, n - i) && |p| == |p0| + i && Lower(p)
      invariant Writing(x, left * Pow(base, n - i) + v, Digits(p), base)
    {
      DigitOff(left, Pow(base, n - i - 1), v, base);
      WriteDigit(x, left * Pow(base, n - i) + v, Digits(p), base);
      DivModLaw(v, base);
      WriteChar(p, v % base);
      p := p + [ToChar(v % base)];
      v := v / base;
    }
  }

  lemma DigitOff(left: int, q: nat, v: nat, base: nat)
    requires left >= 0 && base >= 2 && v < base * q
    ensures var y := left * (base * q) + v; y >= 0 && y % base == v % base && y / base == left * q + v / base
    ensures v / base < q
  {
    DivModLaw(v, base);
    MulSign(left, q);
    MulAssoc(left, base, q);
    MulAssoc(base, left, q);
    assert left * base == base * left;
    MulDistribute(left * q, v / base, base);
    DivModUnique(v % base, left * q + v / base, base);
    if v / base >= q {
      MulMonotone(q, v / base, base);
    }
  }

  /** The digits of the last block, without zeros in front. */
  method WriteLast(v0: nat, p0: string, ghost x: int, base: nat) returns (p: string)
    requires 2 <= base <= 36 && Lower(p0) && Writing(x, v0, Digits(p0), base) && (p0 != [] ==> v0 > 0)
    ensures Lower(p) && Text(Digits(p), base) && p != [] && Val(Digits(p), base) == x
    ensures |p| > 1 ==> Digits(p)[|p| - 1] != 0
  {
    hide Val, Writing, Digits, Worth, Lower;
    var v: nat := v0;
    p := p0;
    while v >= base
      invariant Lower(p) && Writing(x, v, Digits(p), base) && (p != [] ==> v > 0)
      decreases v
    {
      WriteDigit(x, v, Digits(p), base);
      Shrinks(v, base);
      DivModLaw(v, base);
      WriteChar(p, v % base);
      p := p + [ToChar(v % base)];
      v := v / base;
    }
    WroteAll(x, v, Digits(p), base);
    WriteChar(p, v);
    p := p + [ToChar(v)];
  }

  lemma WroteAll(x: int, v: nat, p: seq<int>, base: nat)
    requires Writing(x, v, p, base) && v < base
    ensures Text(p + [v], base) && Val(p + [v], base) == x
  {
    hide Val;
    ValSnoc(p, v, base);
    assert v * Pow(base, |p|) == Pow(base, |p|) * v;
  }

  lemma Shrinks(v: nat, base: nat)
    requires 2 <= base <= v
    ensures 0 < v / base < v
  {
    DivModLaw(v, base);
    if v / base <= 0 {
      MulMonotone(v / base, 0, base);
    }
    MulMonotone(2, base, v / base);
  }

  function Reverse<T>(p: seq<T>): (r: seq<T>)
    ensures |r| == |p|
  {
    if p == [] then [] else Reverse(p[1..]) + [p[0]]
  }

  lemma {:induction false} ReverseDigits(p: string)
    ensures Digits(Reverse(p)) == Reverse(Digits(p)) && (Lower(p) ==> Lower(Reverse(p)))
  {
    if p != [] {
      ReverseDigits(p[1..]);
      DigitsSnoc(Reverse(p[1..]), p[0]);
      assert Digits(p)[1..] == Digits(p[1..]);
    }
  }

  lemma {:induction false} ReverseText(p: seq<int>, base: nat)
    requires Text(p, base)
    ensures Text(Reverse(p), base) && Num(Reverse(p), base) == Val(p, base)
    ensures p != [] ==> Reverse(p)[0] == p[|p| - 1]
  {
    if p != [] {
      ReverseText(p[1..], base);
      NumSnoc(Reverse(p[1..]), p[0], base);
      assert base * Val(p[1..], base) == Val(p[1..], base) * base;
    }
  }

  // ---- Round trips ------------------------------------------------------------------------

  /** Writing a number and reading the text gives the number. */
  method NumberRoundTrip(m: array<digit>, a: nat, na: nat, base: nat) returns (n: nat)
    requires 2 <= base <= 36 && Normal(m[..], a, na)
    modifies m
    ensures Only(old(m[..]), m[..], a, a + na) && n <= na && Normal(m[..], a, n)
    ensures V(m[..], a, n) == V(old(m[..]), a, na)
  {
    VBound(m[..], a, na);
    var str := ToString(m, a, na, base);
    n := FromString(m, a, na, str, base);
  }

  /** Reading a text without leading zeros and writing the number gives the text, in lower case. */
  method TextRoundTrip(m: array<digit>, a: nat, na: nat, str: string, base: nat) returns (out: string)
    requires 2 <= base <= 36 && Canonical(Digits(str), base) && 0 < na && a + na <= m.Length
    requires Num(Digits(str), base) < P(na)
    modifies m
    ensures Lower(out) && Digits(out) == Digits(str) && (Lower(str) ==> out == str)
  {
    hide Digits, Lower, Num, V, P;
    var n := FromString(m, a, na, str, base);
    out := ToString(m, a, n, base);
    UniqueText(Digits(out), Digits(str), base);
    if Lower(str) {
      LowerUnique(out, str, base);
    }
  }
}
