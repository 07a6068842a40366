/** The word-level bit streams: a buffer of bytes read and written in words of 8, 16, 32 or 64 bits
    at any bit offset, seen by callers as a list of bits, least significant bit first. */
module BitStream {
  import opened Numerals

  type byte = x: int | 0 <= x < 256

  /** The low n bits of v, least significant first. */
  function ToBits(v: nat, n: nat): (s: seq<bool>)
    ensures |s| == n
  {
    if n == 0 then [] else [v % 2 == 1] + ToBits(v / 2, n - 1)
  }

  function FromBits(s: seq<bool>): nat {
    if s == [] then 0 else (if s[0] then 1 else 0) + 2 * FromBits(s[1..])
  }

  lemma {:induction false} FromToBits(v: nat, n: nat)
    requires v < Pow(2, n)
    ensures FromBits(ToBits(v, n)) == v
  {
    if n > 0 {
      FromToBits(v / 2, n - 1);
      assert ToBits(v, n)[1..] == ToBits(v / 2, n - 1);
    }
  }

  lemma {:induction false} ToFromBits(s: seq<bool>)
    ensures ToBits(FromBits(s), |s|) == s
  {
    if s != [] {
      ToFromBits(s[1..]);
      assert s == [s[0]] + s[1..];
    }
  }

  /** The bits of v + 2^m * i, for v below 2^m, are the bits of v followed by those of i. */
  lemma HalfOf(x: nat, v: nat, y: nat)
    requires x == v + 2 * y
    ensures x % 2 == v % 2 && x / 2 == v / 2 + y
  {
  }

  lemma ToBitsHalf(v: nat, n: nat)
    requires n > 0
    ensures ToBits(v, n) == [v % 2 == 1] + ToBits(v / 2, n - 1)
  {
  }

  lemma {:induction false} ToBitsAppend(v: nat, m: nat, i: nat, n: nat)
    requires v < Pow(2, m)
    ensures v + Pow(2, m) * i >= 0
    ensures ToBits(v + Pow(2, m) * i, m + n) == ToBits(v, m) + ToBits(i, n)
  {
    MulSign(Pow(2, m), i);
    if m == 0 {
      assert ToBits(v, m) + ToBits(i, n) == ToBits(i, n);
    } else {
      var p := Pow(2, m - 1);
      MulAssoc(2, p, i);
      var x := v + Pow(2, m) * i;
      MulSign(p, i);
      HalfOf(x, v, p * i);
      ToBitsAppend(v / 2, m - 1, i, n);
      ToBitsHalf(x, m + n);
      ToBitsHalf(v, m);
      hide ToBits;
      assert [v % 2 == 1] + (ToBits(v / 2, m - 1) + ToBits(i, n)) == [v % 2 == 1] + ToBits(v / 2, m - 1) + ToBits(i, n);
    }
  }

  /** v shifted left by n bits. */
  function Shl(v: nat, n: nat): (r: nat)
    ensures r == Pow(2, n) * v
  {
    MulNat(Pow(2, n), v)
  }

  /** v shifted right by n bits. */
  function Shr(v: nat, n: nat): (r: nat) {
    DivModLaw(v, Pow(2, n));
    v / Pow(2, n)
  }

  /** The low n bits of v. */
  function Low(v: nat, n: nat): (r: nat)
    ensures r < Pow(2, n)
    ensures v == r + Pow(2, n) * Shr(v, n)
  {
    DivModLaw(v, Pow(2, n));
    v % Pow(2, n)
  }

  lemma ToBitsSplit(v: nat, m: nat, n: nat)
    ensures ToBits(v, m + n) == ToBits(Low(v, m), m) + ToBits(Shr(v, m), n)
  {
    ToBitsAppend(Low(v, m), m, Shr(v, m), n);
  }

  /** Bitwise or on naturals. */
  function Or(x: nat, y: nat): nat
    decreases x + y
  {
    if x == 0 && y == 0 then 0
    else (if x % 2 == 1 || y % 2 == 1 then 1 else 0) + 2 * Or(x / 2, y / 2)
  }

  /** Or-ing in bits above all set bits is adding them. */
  lemma {:induction false} OrDisjoint(x: nat, y: nat, r: nat)
    requires x < Pow(2, r)
    ensures Pow(2, r) * y >= 0 && Or(x, Pow(2, r) * y) == x + Pow(2, r) * y
  {
    MulSign(Pow(2, r), y);
    if r == 0 {
      OrZero(y);
    } else {
      var p := Pow(2, r - 1);
      MulAssoc(2, p, y);
      var z := Pow(2, r) * y;
      assert z == 2 * (p * y) && z % 2 == 0 && z / 2 == p * y;
      OrDisjoint(x / 2, y, r - 1);
    }
  }

  lemma {:induction false} OrZero(y: nat)
    ensures Or(0, y) == y && Or(y, 0) == y
  {
    if y != 0 {
      OrZero(y / 2);
    }
  }

  predicate IsWidth(w: nat) {
    w == 8 || w == 16 || w == 32 || w == 64
  }

  lemma Pow256(n: nat)
    ensures Pow(256, n) == Pow(2, 8 * n)
  {
    assert Pow(2, 8) == 256 by {
      assert Pow(2, 4) == 16;
      PowAdd(2, 4, 4);
    }
    PowPow(2, 8, n);
  }

  /** The little-endian unsigned integer held by bytes s. */
  function LittleEndian(s: seq<byte>): nat {
    ValBound(s, 256);
    Val(s, 256)
  }

  lemma LittleEndianBound(s: seq<byte>)
    ensures LittleEndian(s) < Pow(256, |s|) == Pow(2, 8 * |s|)
  {
    ValBound(s, 256);
    Pow256(|s|);
  }

  lemma LittleEndianConcat(s: seq<byte>, t: seq<byte>)
    ensures LittleEndian(s + t) == LittleEndian(s) + Pow(256, |s|) * LittleEndian(t)
  {
    ValConcat(s, t, 256);
  }

  lemma LittleEndianSplit(s: seq<byte>, k: nat)
    requires k <= |s|
    ensures LittleEndian(s) == LittleEndian(s[..k]) + Pow(256, k) * LittleEndian(s[k..])
  {
    ValSplit(s, k, 256);
  }

  /** The n bytes of v, least significant first. */
  function ToBytes(v: nat, n: nat): (s: seq<byte>)
    ensures |s| == n
  {
    if n == 0 then [] else [v % 256] + ToBytes(v / 256, n - 1)
  }

  /** The bytes of a number of at most 16 bits. */
  lemma BytesExample(x: nat, n: nat, low: byte, high: byte)
    requires x == low + 256 * high && n >= 2
    ensures ToBytes(x, n) == [low, high] + Zeros(n - 2)
  {
    assert x / 256 == high && high as int / 256 == 0;
    ZeroBytes(n - 2);
  }

  function Zeros(n: nat): seq<byte> {
    seq(n, i => 0)
  }

  lemma {:induction false} ZeroBytes(n: nat)
    ensures ToBytes(0, n) == Zeros(n)
  {
    if n > 0 {
      ZeroBytes(n - 1);
    }
  }

  lemma {:induction false} LittleEndianToBytes(v: nat, n: nat)
    requires v < Pow(256, n)
    ensures LittleEndian(ToBytes(v, n)) == v
  {
    if n > 0 {
      LittleEndianToBytes(v / 256, n - 1);
      assert ToBytes(v, n)[1..] == ToBytes(v / 256, n - 1);
    }
  }

  /** All bits of a byte string. */
  ghost function BitsOf(s: seq<byte>): (b: seq<bool>)
    ensures |b| == 8 * |s|
  {
    ToBits(LittleEndian(s), 8 * |s|)
  }

  lemma BitsOfConcat(s: seq<byte>, t: seq<byte>)
    ensures BitsOf(s + t) == BitsOf(s) + BitsOf(t)
  {
    LittleEndianConcat(s, t);
    LittleEndianBound(s);
    ToBitsAppend(LittleEndian(s), 8 * |s|, LittleEndian(t), 8 * |t|);
  }

  /** Storing an unsigned integer of n bytes into memory. */
  method StoreWord(buf: array<byte>, at: nat, n: nat, v: nat)
    requires at + n <= buf.Length && v < Pow(256, n)
    modifies buf
    ensures buf[..] == old(buf[..at]) + ToBytes(v, n) + old(buf[at + n..])
  {
    var x := v;
    for j := 0 to n
      invariant x >= 0
      invariant ToBytes(v, n) == buf[at..at + j] + ToBytes(x, n - j)
      invariant buf[..at] == old(buf[..at]) && buf[at + n..] == old(buf[at + n..])
    {
      ghost var before := buf[at..at + j];
      buf[at + j] := x % 256;
      assert buf[at..at + j + 1] == before + [x % 256];
      assert before + ToBytes(x, n - j) == (before + [x % 256]) + ToBytes(x / 256, n - j - 1);
      x := x / 256;
    }
    assert buf[..] == buf[..at] + buf[at..at + n] + buf[at + n..];
  }

  /** Loading an unsigned integer of n bytes from memory. */
  method LoadWord(buf: array<byte>, at: nat, n: nat) returns (v: nat)
    requires at + n <= buf.Length
    ensures v == LittleEndian(buf[at..at + n])
  {
    v := 0;
    for j := n downto 0
      invariant v == LittleEndian(buf[at + j..at + n])
    {
      v := buf[at + j] + 256 * v;
      assert buf[at + j..at + n][1..] == buf[at + j + 1..at + n];
    }
  }

  /** The words an access of w bits at bit pos touches lie inside the buffer. */
  predicate WordsFit(pos: nat, w: nat, length: nat)
    requires IsWidth(w)
  {
    pos / w * (w / 8) + (if pos % w == 0 then w / 8 else 2 * (w / 8)) <= length
  }

  /** A slack of one word is always enough. */
  lemma WordsFitSlack(pos: nat, w: nat, length: nat)
    requires IsWidth(w) && pos + w + w <= 8 * length
    ensures WordsFit(pos, w, length)
  {
  }

  /** Byte accesses inside the buffer are always in range. */
  lemma WordsFitByte(pos: nat, length: nat)
    requires pos + 8 <= 8 * length
    ensures WordsFit(pos, 8, length)
  {
  }

  /** How a buffer's number splits around the word of n bytes at byte offset at. */
  lemma WordSplit(s: seq<byte>, at: nat, n: nat)
    requires at + n <= |s|
    ensures LittleEndian(s) == LittleEndian(s[..at]) + Pow(2, 8 * at) * LittleEndian(s[at..])
    ensures LittleEndian(s[at..]) == LittleEndian(s[at..at + n]) + Pow(2, 8 * n) * LittleEndian(s[at + n..])
    ensures LittleEndian(s[..at]) < Pow(2, 8 * at) && LittleEndian(s[at..at + n]) < Pow(2, 8 * n)
  {
    LittleEndianSplit(s, at);
    assert s[at..][..n] == s[at..at + n] && s[at..][n..] == s[at + n..];
    LittleEndianSplit(s[at..], n);
    LittleEndianBound(s[..at]);
    LittleEndianBound(s[at..at + n]);
  }

  /** A sum l + p * t below p * q has t below q. */
  lemma QuotientZero(l: nat, p: nat, t: nat)
    requires l + p * t < p
    ensures t == 0
  {
    if t >= 1 {
      MulMonotone(1, t, p);
    }
  }

  /** When no bit from 8 * at + r on is set, the word at byte at holds only its low r bits and
      everything after it is zero. */
  lemma WordsClear(s: seq<byte>, at: nat, n: nat, r: nat)
    requires at + n <= |s| && r <= 8 * n
    requires LittleEndian(s) < Pow(2, 8 * at + r)
    ensures LittleEndian(s[at..at + n]) == LittleEndian(s[at..]) < Pow(2, r)
    ensures LittleEndian(s[at + n..]) == 0
  {
    WordSplit(s, at, n);
    PowAdd(2, 8 * at, r);
    QuotientBelow(LittleEndian(s[..at]), Pow(2, 8 * at), LittleEndian(s[at..]), Pow(2, r));
    PowMonotone(2, r, 8 * n);
    QuotientZero(LittleEndian(s[at..at + n]), Pow(2, 8 * n), LittleEndian(s[at + n..]));
  }

  /** i shifted left by r bits falls into the low w bits and the bits carried into the next word. */
  lemma ShiftParts(i: nat, r: nat, w: nat)
    requires r <= w
    ensures Low(Shl(i, r), w) == Shl(Low(i, w - r), r)
    ensures Shl(i, r) == Low(Shl(i, r), w) + Shl(Shr(i, w - r), w)
  {
    var lo, hi := Low(i, w - r), Shr(i, w - r);
    var p, q := Pow(2, r), Pow(2, w - r);
    PowAdd(2, r, w - r);
    ShiftArithmetic(p, q, lo, hi);
    DivModUnique(p * lo, hi, p * q);
  }

  lemma ShiftArithmetic(p: nat, q: nat, lo: nat, hi: nat)
    requires p > 0 && lo < q
    ensures p * (lo + q * hi) == p * lo + (p * q) * hi
    ensures 0 <= p * lo < p * q
  {
    MulDistribute(lo, q * hi, p);
    MulAssoc(p, q, hi);
    MulStrict(lo, q, p);
    MulSign(p, lo);
  }

  lemma ShrSmall(i: nat, w: nat)
    requires i < Pow(2, w)
    ensures Shr(i, w) == 0
  {
    QuotientZero(Low(i, w), Pow(2, w), Shr(i, w));
  }

  /** Adding i above bit pos appends the w bits of i. */
  lemma AppendValue(v: nat, pos: nat, i: nat, w: nat)
    requires v < Pow(2, pos) && i < Pow(2, w)
    ensures v + Pow(2, pos) * i >= 0
    ensures v + Pow(2, pos) * i < Pow(2, pos + w)
    ensures ToBits(v + Pow(2, pos) * i, pos + w) == ToBits(v, pos) + ToBits(i, w)
  {
    ToBitsAppend(v, pos, i, w);
    PowAdd(2, pos, w);
    MulMonotone(i, Pow(2, w) - 1, Pow(2, pos));
    MulDistribute(Pow(2, w), 1, Pow(2, pos));
  }

  /** A tail that grows by 2^r * i makes the whole number grow by 2^(8 * at + r) * i. */
  lemma TailGrows(s: seq<byte>, t: seq<byte>, at: nat, r: nat, i: nat)
    requires at <= |s| == |t| && s[..at] == t[..at]
    requires LittleEndian(t[at..]) == LittleEndian(s[at..]) + Pow(2, r) * i
    ensures LittleEndian(t) == LittleEndian(s) + Pow(2, 8 * at + r) * i
  {
    WordSplit(s, at, 0);
    WordSplit(t, at, 0);
    var p, q := Pow(2, 8 * at), Pow(2, r);
    PowAdd(2, 8 * at, r);
    MulDistribute(LittleEndian(s[at..]), q * i, p);
    MulAssoc(p, q, i);
  }

  /** The byte offset of the word of w bits holding bit pos, its size in bytes, and the offset of
      the bit in it. */
  method WordPosition(pos: nat, w: nat, ghost length: nat) returns (at: nat, n: nat, r: nat)
    requires IsWidth(w) && WordsFit(pos, w, length)
    ensures 8 * at + r == pos && w == 8 * n && n > 0 && r < w
    ensures at + (if r == 0 then n else n + n) <= length
  {
    at, n, r := pos / w * (w / 8), w / 8, pos % w;
  }

  /** What or-ing i into the word at byte at, and its carry into the next one, adds to the buffer. */
  lemma WordsWritten(s: seq<byte>, at: nat, n: nat, r: nat, i: nat, t: seq<byte>)
    requires 0 < n && r < 8 * n && at + n <= |s| == |t|
    requires i < Pow(2, 8 * n) && LittleEndian(s) < Pow(2, 8 * at + r)
    requires s[..at] == t[..at]
    requires LittleEndian(t[at..at + n]) == Or(LittleEndian(s[at..at + n]), Low(Shl(i, r), 8 * n))
    requires LittleEndian(t[at + n..]) == Shr(i, 8 * n - r)
    ensures LittleEndian(t) == LittleEndian(s) + Pow(2, 8 * at + r) * i
  {
    WordsClear(s, at, n, r);
    ShiftParts(i, r, 8 * n);
    OrDisjoint(LittleEndian(s[at..at + n]), Low(i, 8 * n - r), r);
    WordSplit(t, at, n);
    TailGrows(s, t, at, r, i);
  }

  lemma OrBound(x: nat, i: nat, r: nat, w: nat)
    requires r <= w && x < Pow(2, r)
    ensures Or(x, Low(Shl(i, r), w)) < Pow(2, w)
  {
    ShiftParts(i, r, w);
    var lo, p, q := Low(i, w - r), Pow(2, r), Pow(2, w - r);
    OrDisjoint(x, lo, r);
    PowAdd(2, r, w - r);
    MulMonotone(lo, q - 1, p);
    MulDistribute(q, 1, p);
  }

  lemma ShrBound(i: nat, k: nat, w: nat)
    requires k <= w && i < Pow(2, w)
    ensures Shr(i, k) < Pow(2, w)
  {
    PowAdd(2, k, w - k);
    QuotientBelow(Low(i, k), Pow(2, k), Shr(i, k), Pow(2, w - k));
    PowMonotone(2, w - k, w);
  }

  /** Digits followed by zeros have the value of the digits. */
  lemma ZeroTail(s: seq<byte>, n: nat)
    requires n <= |s| && LittleEndian(s[n..]) == 0
    ensures LittleEndian(s) == LittleEndian(s[..n])
  {
    LittleEndianSplit(s, n);
  }

  /** If everything from byte at on is zero, so is everything from a later byte on. */
  lemma ZeroSuffix(s: seq<byte>, at: nat, n: nat)
    requires at + n <= |s| && LittleEndian(s[at..]) == 0
    ensures LittleEndian(s[at..at + n]) == 0 && LittleEndian(s[at + n..]) == 0
  {
    WordSplit(s, at, n);
    MulSign(Pow(2, 8 * n), LittleEndian(s[at + n..]));
  }

  /** The carry into the next word fits it, and that word was zero. */
  lemma CarryWord(s: seq<byte>, at: nat, n: nat, i: nat, k: nat)
    requires at + n <= |s| && LittleEndian(s[at..]) == 0
    requires k <= 8 * n && i < Pow(2, 8 * n)
    ensures Or(LittleEndian(s[at..at + n]), Shr(i, k)) == Shr(i, k) < Pow(256, n)
    ensures LittleEndian(s[at..][n..]) == 0
  {
    ZeroSuffix(s, at, n);
    assert s[at..][n..] == s[at + n..];
    ShrBound(i, k, 8 * n);
    OrZero(Shr(i, k));
    Pow256(n);
  }

  /** Or x into the word of n bytes at byte offset at. */
  method OrWord(buf: array<byte>, at: nat, n: nat, x: nat)
    requires at + n <= buf.Length && Or(LittleEndian(buf[at..at + n]), x) < Pow(256, n)
    modifies buf
    ensures LittleEndian(buf[at..at + n]) == Or(LittleEndian(old(buf[at..at + n])), x)
    ensures buf[..at] == old(buf[..at]) && buf[at + n..] == old(buf[at + n..])
  {
    var word := LoadWord(buf, at, n);
    StoreWord(buf, at, n, Or(word, x));
    LittleEndianToBytes(Or(word, x), n);
    assert buf[at..at + n] == ToBytes(Or(word, x), n);
  }

  /** Or the integer i, shifted left by r bits, into the word at byte offset at and, for the bits
      shifted out of it, the word that follows. */
  method OrShifted(buf: array<byte>, at: nat, n: nat, r: nat, i: nat)
    requires 0 < n && r < 8 * n && i < Pow(2, 8 * n)
    requires at + (if r == 0 then n else n + n) <= buf.Length
    requires LittleEndian(buf[..]) < Pow(2, 8 * at + r)
    modifies buf
    ensures LittleEndian(buf[..]) == LittleEndian(old(buf[..])) + Pow(2, 8 * at + r) * i
  {
    Pow256(n);
    ghost var before := buf[..];
    WordsClear(before, at, n, r);
    OrBound(LittleEndian(before[at..at + n]), i, r, 8 * n);
    OrWord(buf, at, n, Low(Shl(i, r), 8 * n));
    ghost var middle := buf[..];
    assert middle[..at] == before[..at] && middle[at + n..] == before[at + n..];
    if r != 0 {
      var over := Shr(i, 8 * n - r);
      CarryWord(before, at + n, n, i, 8 * n - r);
      assert middle[at + n..at + n + n] == middle[at + n..][..n] == before[at + n..at + n + n];
      OrWord(buf, at + n, n, over);
      assert buf[..at + n] == middle[..at + n];
      assert buf[at..at + n] == buf[..at + n][at..] == middle[at..at + n];
      assert buf[..at] == buf[..at + n][..at] == before[..at];
      assert buf[at + n..][..n] == buf[at + n..at + n + n];
      assert buf[at + n..][n..] == middle[at + n + n..] == middle[at + n..][n..] == before[at + n..][n..];
      ZeroTail(buf[at + n..], n);
    } else {
      ShrSmall(i, 8 * n);
    }
    WordsWritten(before, at, n, r, i, buf[..]);
  }

  lemma PrefixBits(v: nat, n: nat)
    ensures ToBits(Low(v, n), n) == ToBits(v, n)
  {
    ToBitsAppend(Low(v, n), n, Shr(v, n), 0);
  }

  lemma SnocBit(v: nat, n: nat)
    ensures ToBits(v, n + 1) == ToBits(v, n) + [Shr(v, n) % 2 == 1]
  {
    ToBitsSplit(v, n, 1);
    PrefixBits(v, n);
  }

  /** The bits of a word inside a byte string. */
  lemma WordBits(s: seq<byte>, at: nat, n: nat)
    requires at + n <= |s|
    ensures ToBits(LittleEndian(s), 8 * (at + n)) == ToBits(LittleEndian(s), 8 * at) + ToBits(LittleEndian(s[at..at + n]), 8 * n)
  {
    WordSplit(s, at, n);
    ToBitsAppend(LittleEndian(s[..at]), 8 * at, LittleEndian(s[at..]), 8 * n);
    ToBitsAppend(LittleEndian(s[..at]), 8 * at, LittleEndian(s[at..]), 0);
    ToBitsAppend(LittleEndian(s[at..at + n]), 8 * n, LittleEndian(s[at + n..]), 0);
  }

  /** The bits of the first bytes and of the low bits of the next byte. */
  lemma ByteBits(s: seq<byte>, at: nat, k: nat)
    requires at < |s| && k <= 8
    ensures ToBits(LittleEndian(s), 8 * at + k) == ToBits(LittleEndian(s), 8 * at) + ToBits(s[at], k)
  {
    WordBits(s, at, 1);
    ValOne(s[at], 256);
    assert s[at..at + 1] == [s[at]];
    BitsPrefix(LittleEndian(s), 8 * at + k, 8 - k);
    BitsPrefix(s[at], k, 8 - k);
  }

  lemma BitsPrefix(v: nat, m: nat, n: nat)
    ensures ToBits(v, m + n)[..m] == ToBits(v, m)
  {
    ToBitsSplit(v, m, n);
    PrefixBits(v, m);
  }

  /** Any part of a byte string's bits is the part of a longer bit list. */
  lemma SliceOfBits(s: seq<byte>, from: nat, to: nat)
    requires from <= to <= 8 * |s|
    ensures ToBits(LittleEndian(s), to) == BitsOf(s)[..to]
    ensures ToBits(LittleEndian(s), to) == ToBits(LittleEndian(s), from) + BitsOf(s)[from..to]
  {
    BitsPrefix(LittleEndian(s), to, 8 * |s| - to);
    BitsPrefix(LittleEndian(s), from, 8 * |s| - from);
  }

  lemma WordAppended(start: seq<bool>, src: seq<byte>, j: nat, n: nat)
    requires j + n <= |src|
    ensures start + ToBits(LittleEndian(src), 8 * j) + ToBits(LittleEndian(src[j..j + n]), 8 * n)
      == start + ToBits(LittleEndian(src), 8 * (j + n))
  {
    WordBits(src, j, n);
  }

  /** One bit shifted by less than a byte stays inside the byte. */
  lemma OneBit(x: nat, i: nat, r: nat)
    requires r < 8 && i < 2 && x < Pow(2, r)
    ensures Or(x, Shl(i, r)) < 256 && Shl(i, r) == Low(Shl(i, r), 8) && Shr(i, 8 - r) == 0
  {
    assert i < Pow(2, 8 - r) by { PowMonotone(2, 1, 8 - r); }
    ShrSmall(i, 8 - r);
    assert Shl(i, r) == Low(Shl(i, r), 8) by {
      ShiftParts(i, r, 8);
      assert Shl(0, 8) == 0;
    }
    OrBound(x, i, r, 8);
    assert Pow(2, 8) == 256 by { Pow256(1); }
  }

  lemma LowByte(x: byte, k: nat)
    requires k <= 8
    ensures Low(x, k) < 256
  {
    PowMonotone(2, k, 8);
    Pow256(1);
  }

  /** Copy count bits of src over the bytes from at on. */
  method CopyBits(buf: array<byte>, at: nat, src: seq<byte>, count: nat)
    requires count <= 8 * |src| && 8 * at + count <= 8 * buf.Length
    modifies buf
    ensures Copied(old(buf[..]), buf[..], at, src, count)
  {
    var m, k := count / 8, count % 8;
    for i := 0 to m
      invariant forall j :: 0 <= j < i ==> buf[at + j] == src[j]
      invariant forall j :: 0 <= j < buf.Length && !(at <= j < at + i) ==> buf[j] == old(buf[j])
    {
      buf[at + i] := src[i];
    }
    assert buf[at..at + m] == src[..m];
    if k != 0 {
      LowByte(src[m], k);
      buf[at + m] := Low(src[m], k);
      assert buf[at..at + m] == src[..m];
    }
  }

  /** The number held by a byte string already in hand. */
  method LoadBytes(s: seq<byte>) returns (v: nat)
    ensures v == LittleEndian(s)
  {
    v := 0;
    for j := |s| downto 0
      invariant v == LittleEndian(s[j..])
    {
      v := s[j] + 256 * v;
      assert s[j..][1..] == s[j + 1..];
    }
  }

  /** Or the bit i into bit r of the byte at. */
  method OrBit(buf: array<byte>, at: nat, r: nat, i: nat)
    requires at < buf.Length && r < 8 && i < 2
    requires LittleEndian(buf[..]) < Pow(2, 8 * at + r)
    modifies buf
    ensures LittleEndian(buf[..]) == LittleEndian(old(buf[..])) + Pow(2, 8 * at + r) * i
  {
    ghost var before := buf[..];
    WordsClear(before, at, 1, r);
    OneBit(LittleEndian(before[at..at + 1]), i, r);
    Pow256(1);
    OrWord(buf, at, 1, Shl(i, r));
    WordsWritten(before, at, 1, r, i, buf[..]);
  }

  /** The low count bits of a byte string as bytes. */
  lemma LowOfBytes(src: seq<byte>, count: nat)
    requires count <= 8 * |src|
    ensures count % 8 == 0 ==> Low(LittleEndian(src), count) == LittleEndian(src[..count / 8])
    ensures count % 8 != 0 ==>
      Low(LittleEndian(src), count) == LittleEndian(src[..count / 8]) + Pow(256, count / 8) * Low(src[count / 8], count % 8)
  {
    var m, k := count / 8, count % 8;
    WordSplit(src, m, 0);
    Pow256(m);
    if k == 0 {
      DivModUnique(LittleEndian(src[..m]), LittleEndian(src[m..]), Pow(2, count));
    } else {
      var x, rest := src[m], LittleEndian(src[m..][1..]);
      LittleEndianSplit(src[m..], 1);
      ValOne(x, 256);
      assert src[m..][..1] == [x];
      assert Pow(256, 1) == 256;
      LowPieces(LittleEndian(src[..m]), 8 * m, x, rest, k);
    }
  }

  /** Truncation commutes with splitting off low bits. */
  lemma LowPieces(l: nat, a: nat, x: nat, rest: nat, k: nat)
    requires l < Pow(2, a) && k <= 8
    ensures l + Pow(2, a) * (x + 256 * rest) >= 0
    ensures Low(l + Pow(2, a) * (x + 256 * rest), a + k) == l + Pow(2, a) * Low(x, k)
  {
    hide Low, Shr, Pow;
    PowParts(k);
    PowAdd(2, a, k);
    LowAndShr(x, k);
    LowParts(l, Pow(2, a), x, Low(x, k), Pow(2, k), Shr(x, k), Pow(2, 8 - k), rest);
    LowIs(l + Pow(2, a) * (x + 256 * rest), a + k, l + Pow(2, a) * Low(x, k), Shr(x, k) + Pow(2, 8 - k) * rest);
  }

  lemma LowParts(l: nat, p: nat, x: nat, lo: nat, q: nat, hi: nat, z: nat, rest: nat)
    requires l < p && lo < q && q * z == 256 && x == lo + q * hi
    ensures l + p * (x + 256 * rest) == (l + p * lo) + (p * q) * (hi + z * rest)
    ensures 0 <= l + p * lo < p * q && z * rest >= 0
  {
    LowArithmetic(l, p, lo, q, hi, z, rest);
  }

  lemma LowAndShr(x: nat, k: nat)
    ensures Low(x, k) < Pow(2, k) && x == Low(x, k) + Pow(2, k) * Shr(x, k)
  {
    DivModLaw(x, Pow(2, k));
  }

  lemma PowParts(k: nat)
    requires k <= 8
    ensures Pow(2, k) * Pow(2, 8 - k) == 256
  {
    Pow256(1);
    PowAdd(2, k, 8 - k);
  }

  lemma LowIs(v: int, n: nat, r: nat, i: nat)
    requires r < Pow(2, n) && v == r + Pow(2, n) * i
    ensures v >= 0 && Low(v, n) == r
  {
    MulSign(Pow(2, n), i);
    DivModUnique(r, i, Pow(2, n));
  }

  lemma LowArithmetic(l: nat, p: nat, lo: nat, q: nat, hi: nat, z: nat, rest: nat)
    requires l < p && lo < q && q * z == 256
    ensures l + p * (lo + q * hi + 256 * rest) == (l + p * lo) + (p * q) * (hi + z * rest)
    ensures 0 <= l + p * lo < p * q && z * rest >= 0
  {
    MulSign(z, rest);
    MulAssoc(q, z, rest);
    MulDistribute(hi, z * rest, q);
    MulDistribute(lo, q * (hi + z * rest), p);
    MulAssoc(p, q, hi + z * rest);
    MulMonotone(lo + 1, q, p);
    MulDistribute(lo, 1, p);
    MulSign(p, lo);
  }

  /** t is s with count bits of src copied over the bytes from at on. */
  ghost predicate Copied(s: seq<byte>, t: seq<byte>, at: nat, src: seq<byte>, count: nat)
    requires count <= 8 * |src| && 8 * at + count <= 8 * |s|
  {
    var m := count / 8;
    && |s| == |t| && s[..at] == t[..at] && t[at..at + m] == src[..m]
    && (if count % 8 == 0 then t[at + m..] == s[at + m..]
        else t[at + m] == Low(src[m], count % 8) && t[at + m + 1..] == s[at + m + 1..])
  }

  /** Copying over zeros appends the copied bits. */
  lemma AlignedAppends(s: seq<byte>, t: seq<byte>, at: nat, src: seq<byte>, count: nat)
    requires count <= 8 * |src| && 8 * at + count <= 8 * |s| && Copied(s, t, at, src, count)
    requires LittleEndian(s) < Pow(2, 8 * at)
    ensures LittleEndian(t) < Pow(2, 8 * at + count)
    ensures ToBits(LittleEndian(t), 8 * at + count) == ToBits(LittleEndian(s), 8 * at) + ToBits(LittleEndian(src), count)
  {
    var i := Low(LittleEndian(src), count);
    assert LittleEndian(t) == LittleEndian(s) + Pow(2, 8 * at) * i by {
      WordsClear(s, at, 0, 0);
      AlignedTail(s, t, at, src, count);
      assert Pow(2, 0) == 1;
      TailGrows(s, t, at, 0, i);
    }
    AppendValue(LittleEndian(s), 8 * at, i, count);
    PrefixBits(LittleEndian(src), count);
  }

  lemma AlignedTail(s: seq<byte>, t: seq<byte>, at: nat, src: seq<byte>, count: nat)
    requires count <= 8 * |src| && 8 * at + count <= 8 * |s| && Copied(s, t, at, src, count)
    requires LittleEndian(s[at..]) == 0
    ensures LittleEndian(t[at..]) == Low(LittleEndian(src), count)
  {
    var m := count / 8;
    LowOfBytes(src, count);
    LittleEndianSplit(t[at..], m);
    assert t[at..][..m] == src[..m] && t[at..][m..] == t[at + m..];
    if count % 8 == 0 {
      ZeroSuffix(s, at, m);
    } else {
      ZeroSuffix(s, at, m + 1);
      LittleEndianSplit(t[at + m..], 1);
      assert t[at + m..][..1] == [t[at + m]] && t[at + m..][1..] == s[at + m + 1..];
      ValOne(t[at + m], 256);
    }
  }

  /** The whole bytes covering the first n bits of a buffer start with those bits. */
  lemma WholeBytes(s: seq<byte>, n: nat, size: nat)
    requires size == (n + 7) / 8 && n <= 8 * |s|
    ensures size <= |s| && ToBits(LittleEndian(s), n) <= BitsOf(s[..size])
  {
    hide ToBits;
    SliceOfBits(s[..size], 0, n);
    WordSplit(s, size, 0);
    ToBitsAppend(LittleEndian(s[..size]), 8 * size, LittleEndian(s[size..]), 0);
    BitsPrefix(LittleEndian(s), n, 8 * size - n);
  }

  class OutputBitStream {
    const buf: array<byte>
    const bitCount: nat
    var pos: nat

    /** No bit at or after the position is set. */
    ghost predicate Valid()
      reads this, buf
    {
      && pos <= bitCount <= 8 * buf.Length
      && LittleEndian(buf[..]) < Pow(2, pos)
    }

    /** What has been written so far. */
    ghost function Bits(): (s: seq<bool>)
      reads this, buf
      ensures |s| == pos
    {
      ToBits(LittleEndian(buf[..]), pos)
    }

    constructor (buf: array<byte>, bitCount: nat)
      requires bitCount == 8 * buf.Length
      modifies buf
      ensures Valid() && Bits() == [] && pos == 0
      ensures this.buf == buf && this.bitCount == bitCount
    {
      this.buf, this.bitCount, this.pos := buf, bitCount, 0;
      new;
      for i := 0 to bitCount / 8
        invariant forall j :: 0 <= j < i ==> buf[j] == 0
        invariant pos == 0
      {
        buf[i] := 0;
      }
      ValZeros(buf[..], 256);
    }

    /** Or the w bits of i into the word at the position, and what is shifted out into the next word. */
    method WriteInt(i: nat, w: nat)
      requires Valid() && IsWidth(w) && i < Pow(2, w)
      requires pos + w <= bitCount && WordsFit(pos, w, buf.Length)
      modifies this, buf
      ensures Valid() && pos == old(pos) + w
      ensures Bits() == old(Bits()) + ToBits(i, w)
    {
      hide ToBits, LittleEndian, Pow;
      ghost var before := buf[..];
      var at, n, r := WordPosition(pos, w, buf.Length);
      OrShifted(buf, at, n, r, i);
      AppendValue(LittleEndian(before), pos, i, w);
      pos := pos + w;
    }

    method WriteBool(b: bool)
      requires Valid() && pos < bitCount
      modifies this, buf
      ensures Valid() && pos == old(pos) + 1
      ensures Bits() == old(Bits()) + [b]
    {
      var i, at, r := if b then 1 else 0, pos / 8, pos % 8;
      ghost var before := buf[..];
      OrBit(buf, at, r, i);
      AppendValue(LittleEndian(before), pos, i, 1);
      assert ToBits(i, 1) == [b];
      pos := pos + 1;
    }

    method WriteByte(b: byte)
      requires Valid() && pos + 8 <= bitCount
      modifies this, buf
      ensures Valid() && pos == old(pos) + 8
      ensures Bits() == old(Bits()) + ToBits(b, 8)
    {
      WordsFitByte(pos, buf.Length);
      Pow256(1);
      WriteInt(b, 8);
    }

    /** Append the first count bits of src: word by word when the position is inside a byte, by
        copying bytes when it is not. */
    method WriteBits(src: seq<byte>, count: nat)
      requires Valid() && count <= 8 * |src| && pos + count <= bitCount
      requires pos % 8 != 0 && count >= 16 ==> pos + count + 64 <= 8 * buf.Length
      modifies this, buf
      ensures Valid() && pos == old(pos) + count
      ensures Bits() == old(Bits()) + ToBits(LittleEndian(src), count)
    {
      if pos % 8 != 0 {
        WriteUnaligned(src, count);
      } else {
        WriteAligned(src, count);
      }
    }

    method WriteUnaligned(src: seq<byte>, count: nat)
      requires Valid() && count <= 8 * |src| && pos + count <= bitCount
      requires count >= 16 ==> pos + count + 64 <= 8 * buf.Length
      modifies this, buf
      ensures Valid() && pos == old(pos) + count
      ensures Bits() == old(Bits()) + ToBits(LittleEndian(src), count)
    {
      ghost var start := Bits();
      var j, left := 0, count;
      while left >= 64
        invariant left + 8 * j == count && Valid() && pos == old(pos) + 8 * j
        invariant Bits() == start + ToBits(LittleEndian(src), 8 * j)
      {
        WriteWord(src, j, 8, left, start);
        j, left := j + 8, left - 64;
      }
      WriteRest(src, j, left, start);
    }

    /** Fewer than 64 bits of the unaligned path. */
    method WriteRest(src: seq<byte>, at: nat, count: nat, ghost start: seq<bool>)
      requires Valid() && count < 64 && 8 * at + count <= 8 * |src| && pos + count <= bitCount
      requires count >= 16 ==> pos + count + 64 <= 8 * buf.Length
      requires Bits() == start + ToBits(LittleEndian(src), 8 * at)
      modifies this, buf
      ensures Valid() && pos == old(pos) + count
      ensures Bits() == start + ToBits(LittleEndian(src), 8 * at + count)
    {
      var j, left := WriteIfLeft(src, at, 4, count, start);
      j, left := WriteIfLeft(src, j, 2, left, start);
      j, left := WriteIfLeft(src, j, 1, left, start);
      if left > 0 {
        WriteTail(src, j, left, start);
      }
    }

    method WriteIfLeft(src: seq<byte>, at: nat, n: nat, count: nat, ghost start: seq<bool>) returns (j: nat, left: nat)
      requires Valid() && (n == 1 || n == 2 || n == 4) && count < 16 * n
      requires 8 * at + count <= 8 * |src| && pos + count <= bitCount
      requires count >= 16 ==> pos + count + 64 <= 8 * buf.Length
      requires Bits() == start + ToBits(LittleEndian(src), 8 * at)
      modifies this, buf
      ensures Valid() && left < 8 * n && left <= count && 8 * j + left == 8 * at + count && pos + left == old(pos) + count
      ensures Bits() == start + ToBits(LittleEndian(src), 8 * j)
    {
      j, left := at, count;
      if count >= 8 * n {
        WriteWord(src, at, n, count, start);
        j, left := at + n, count - 8 * n;
      }
    }

    /** One word of the unaligned path. */
    method WriteWord(src: seq<byte>, j: nat, n: nat, ghost left: nat, ghost start: seq<bool>)
      requires Valid() && (n == 1 || n == 2 || n == 4 || n == 8)
      requires 8 * n <= left && 8 * j + left <= 8 * |src| && pos + left <= bitCount
      requires n >= 2 ==> pos + left + 64 <= 8 * buf.Length
      requires Bits() == start + ToBits(LittleEndian(src), 8 * j)
      modifies this, buf
      ensures Valid() && pos == old(pos) + 8 * n
      ensures Bits() == start + ToBits(LittleEndian(src), 8 * (j + n))
    {
      var i := LoadBytes(src[j..j + n]);
      LittleEndianBound(src[j..j + n]);
      if n == 1 {
        WordsFitByte(pos, buf.Length);
      } else {
        WordsFitSlack(pos, 8 * n, buf.Length);
      }
      WordAppended(start, src, j, n);
      WriteInt(i, 8 * n);
    }

    /** The last bits of the unaligned path, fewer than a byte. */
    method WriteTail(src: seq<byte>, j: nat, count: nat, ghost start: seq<bool>)
      requires Valid() && j < |src| && count < 8 && pos + count <= bitCount
      requires Bits() == start + ToBits(LittleEndian(src), 8 * j)
      modifies this, buf
      ensures Valid() && pos == old(pos) + count
      ensures Bits() == start + ToBits(LittleEndian(src), 8 * j + count)
    {
      for i := 0 to count
        invariant Valid() && pos == old(pos) + i
        invariant Bits() == start + ToBits(LittleEndian(src), 8 * j + i)
      {
        ByteBits(src, j, i);
        ByteBits(src, j, i + 1);
        SnocBit(src[j], i);
        WriteBool(Shr(src[j], i) % 2 == 1);
      }
    }

    method WriteAligned(src: seq<byte>, count: nat)
      requires Valid() && count <= 8 * |src| && pos + count <= bitCount && pos % 8 == 0
      modifies this, buf
      ensures Valid() && pos == old(pos) + count
      ensures Bits() == old(Bits()) + ToBits(LittleEndian(src), count)
    {
      ghost var before := buf[..];
      CopyBits(buf, pos / 8, src, count);
      AlignedAppends(before, buf[..], pos / 8, src, count);
      pos := pos + count;
    }
  }
  /** The high bits of one word joined with the low bits of the next. */
  lemma JoinWords(x: nat, y: nat, r: nat, w: nat)
    requires r <= w && x < Pow(2, w) && y < Pow(2, w)
    ensures Or(Shr(x, r), Low(Shl(y, w - r), w)) < Pow(2, w)
    ensures ToBits(Or(Shr(x, r), Low(Shl(y, w - r), w)), w) == ToBits(x, w)[r..] + ToBits(y, r)
  {
    var hi, lo := Shr(x, r), Low(y, r);
    PowAdd(2, r, w - r);
    QuotientBelow(Low(x, r), Pow(2, r), hi, Pow(2, w - r));
    ShiftParts(y, w - r, w);
    OrDisjoint(hi, lo, w - r);
    AppendValue(hi, w - r, lo, r);
    ToBitsSplit(x, r, w - r);
    PrefixBits(y, r);
  }

  /** The bits of the word of n bytes at byte offset at. */
  lemma WordSlice(s: seq<byte>, at: nat, n: nat)
    requires at + n <= |s|
    ensures BitsOf(s)[8 * at..8 * (at + n)] == ToBits(LittleEndian(s[at..at + n]), 8 * n)
  {
    WordBits(s, at, n);
    SliceOfBits(s, 8 * at, 8 * (at + n));
  }

  /** Fetch the integer of n bytes that starts r bits into the word at byte offset at. */
  method FetchWord(buf: seq<byte>, at: nat, n: nat, r: nat) returns (v: nat)
    requires 0 < n && r < 8 * n && at + (if r == 0 then n else n + n) <= |buf|
    ensures v < Pow(2, 8 * n) && ToBits(v, 8 * n) == BitsOf(buf)[8 * at + r..8 * at + r + 8 * n]
  {
    var x := LoadBytes(buf[at..at + n]);
    LittleEndianBound(buf[at..at + n]);
    WordSlice(buf, at, n);
    if r == 0 {
      v := Shr(x, 0);
      assert v == x by { assert Pow(2, 0) == 1; }
    } else {
      var y := LoadBytes(buf[at + n..at + n + n]);
      LittleEndianBound(buf[at + n..at + n + n]);
      v := Or(Shr(x, r), Low(Shl(y, 8 * n - r), 8 * n));
      JoinedBits(buf, at, n, r, x, y);
    }
  }

  lemma JoinedBits(buf: seq<byte>, at: nat, n: nat, r: nat, x: nat, y: nat)
    requires r < 8 * n && at + n + n <= |buf| && x < Pow(2, 8 * n) && y < Pow(2, 8 * n)
    requires x == LittleEndian(buf[at..at + n]) && y == LittleEndian(buf[at + n..at + n + n])
    ensures var v := Or(Shr(x, r), Low(Shl(y, 8 * n - r), 8 * n));
      v < Pow(2, 8 * n) && ToBits(v, 8 * n) == BitsOf(buf)[8 * at + r..8 * at + r + 8 * n]
  {
    JoinWords(x, y, r, 8 * n);
    TwoWords(buf, at, n, r, x, y);
  }

  lemma TwoWords(buf: seq<byte>, at: nat, n: nat, r: nat, x: nat, y: nat)
    requires r < 8 * n && at + n + n <= |buf|
    requires x == LittleEndian(buf[at..at + n]) && y == LittleEndian(buf[at + n..at + n + n])
    ensures BitsOf(buf)[8 * at + r..8 * at + r + 8 * n] == ToBits(x, 8 * n)[r..] + ToBits(y, r)
  {
    var bits, w := BitsOf(buf), 8 * n;
    WordSlice(buf, at, n);
    WordSlice(buf, at + n, n);
    BitsPrefix(y, r, w - r);
    JoinSlices(bits, 8 * at, r, w);
  }

  lemma JoinSlices<T>(s: seq<T>, a: nat, r: nat, w: nat)
    requires r <= w && a + w + w <= |s|
    ensures s[a + r..a + r + w] == s[a..a + w][r..] + s[a + w..a + w + w][..r]
  {
    var u, v, x := s[a + r..a + r + w], s[a..a + w][r..], s[a + w..a + w + w][..r];
    assert |u| == |v + x| == w;
    forall i | 0 <= i < w
      ensures u[i] == (v + x)[i]
    {
      assert u[i] == s[a + r + i];
      if i < w - r {
        assert (v + x)[i] == v[i] == s[a..a + w][r + i];
      } else {
        assert (v + x)[i] == x[i - (w - r)] == s[a + w..a + w + w][i - (w - r)];
      }
    }
    assert u == v + x;
  }

  lemma SliceSlice<T>(s: seq<T>, a: nat, b: nat, w: nat)
    requires a + w <= b <= |s|
    ensures s[a..b][..w] == s[a..a + w]
  {
  }

  class InputBitStream {
    const buf: seq<byte>
    const bitCount: nat
    var pos: nat

    ghost predicate Valid()
      reads this
    {
      pos <= bitCount <= 8 * |buf|
    }

    /** The bits not read yet. */
    ghost function Rest(): (s: seq<bool>)
      requires Valid()
      reads this
      ensures |s| == bitCount - pos
    {
      BitsOf(buf)[pos..bitCount]
    }

    constructor (buf: seq<byte>, bitCount: nat)
      requires bitCount <= 8 * |buf|
      ensures Valid() && Rest() == BitsOf(buf)[..bitCount] && pos == 0
      ensures this.buf == buf && this.bitCount == bitCount
    {
      this.buf, this.bitCount, this.pos := buf, bitCount, 0;
    }

    method FetchBool() returns (b: bool)
      requires Valid() && pos < bitCount
      ensures b == Rest()[0]
    {
      b := Shr(buf[pos / 8], pos % 8) % 2 == 1;
      ByteBits(buf, pos / 8, pos % 8);
      ByteBits(buf, pos / 8, pos % 8 + 1);
      SnocBit(buf[pos / 8], pos % 8);
      SliceOfBits(buf, pos, pos + 1);
    }

    method FetchInt(w: nat) returns (v: nat)
      requires Valid() && IsWidth(w) && pos + w <= bitCount && WordsFit(pos, w, |buf|)
      ensures v < Pow(2, w) && ToBits(v, w) == Rest()[..w]
    {
      var at, n, r := WordPosition(pos, w, |buf|);
      v := FetchWord(buf, at, n, r);
      SliceSlice(BitsOf(buf), pos, bitCount, w);
    }

    method Advance(count: nat)
      requires Valid() && pos + count <= bitCount
      modifies this
      ensures Valid() && pos == old(pos) + count && Rest() == old(Rest())[count..]
    {
      pos := pos + count;
    }

    method ReadBool() returns (b: bool)
      requires Valid() && pos < bitCount
      modifies this
      ensures Valid() && pos == old(pos) + 1
      ensures old(Rest()) == [b] + Rest()
    {
      b := FetchBool();
      pos := pos + 1;
    }

    method ReadInt(w: nat) returns (v: nat)
      requires Valid() && IsWidth(w) && pos + w <= bitCount && WordsFit(pos, w, |buf|)
      modifies this
      ensures Valid() && pos == old(pos) + w && v < Pow(2, w)
      ensures old(Rest()) == ToBits(v, w) + Rest()
    {
      v := FetchInt(w);
      pos := pos + w;
    }

    /** Read count bits into dest: word by word when the position is inside a byte, by copying
        bytes when it is not. */
    method ReadBits(dest: array<byte>, count: nat)
      requires Valid() && count <= 8 * dest.Length && pos + count <= bitCount
      requires pos % 8 != 0 && count >= 16 ==> pos + count + 64 <= 8 * |buf|
      modifies this, dest
      ensures Valid() && pos == old(pos) + count
      ensures old(Rest()) == ToBits(LittleEndian(dest[..]), count) + Rest()
    {
      if pos % 8 != 0 {
        ReadUnaligned(dest, count);
      } else {
        ghost var before := dest[..];
        CopyBits(dest, 0, buf[pos / 8..], count);
        CopiedBits(before, dest[..], buf, pos / 8, count);
        pos := pos + count;
      }
    }

    method ReadUnaligned(dest: array<byte>, count: nat)
      requires Valid() && count <= 8 * dest.Length && pos + count <= bitCount
      requires count >= 16 ==> pos + count + 64 <= 8 * |buf|
      modifies this, dest
      ensures Valid() && pos == old(pos) + count
      ensures old(Rest()) == ToBits(LittleEndian(dest[..]), count) + Rest()
    {
      ghost var start := Rest();
      var j, left := 0, count;
      while left >= 64
        invariant left + 8 * j == count && Valid() && pos == old(pos) + 8 * j
        invariant start == ToBits(LittleEndian(dest[..]), 8 * j) + Rest()
      {
        ReadWord(dest, j, 8, left, start);
        j, left := j + 8, left - 64;
      }
      ReadRest(dest, j, left, start);
    }

    /** Fewer than 64 bits of the unaligned path. */
    method ReadRest(dest: array<byte>, at: nat, count: nat, ghost start: seq<bool>)
      requires Valid() && count < 64 && 8 * at + count <= 8 * dest.Length && pos + count <= bitCount
      requires count >= 16 ==> pos + count + 64 <= 8 * |buf|
      requires start == ToBits(LittleEndian(dest[..]), 8 * at) + Rest()
      modifies this, dest
      ensures Valid() && pos == old(pos) + count
      ensures start == ToBits(LittleEndian(dest[..]), 8 * at + count) + Rest()
    {
      var j, left := ReadIfLeft(dest, at, 4, count, start);
      j, left := ReadIfLeft(dest, j, 2, left, start);
      j, left := ReadIfLeft(dest, j, 1, left, start);
      if left > 0 {
        ReadTail(dest, j, left, start);
      }
    }

    method ReadIfLeft(dest: array<byte>, at: nat, n: nat, count: nat, ghost start: seq<bool>)
      returns (j: nat, left: nat)
      requires Valid() && (n == 1 || n == 2 || n == 4) && count < 16 * n
      requires 8 * at + count <= 8 * dest.Length && pos + count <= bitCount
      requires count >= 16 ==> pos + count + 64 <= 8 * |buf|
      requires start == ToBits(LittleEndian(dest[..]), 8 * at) + Rest()
      modifies this, dest
      ensures Valid() && left < 8 * n && left <= count && 8 * j + left == 8 * at + count && pos + left == old(pos) + count
      ensures start == ToBits(LittleEndian(dest[..]), 8 * j) + Rest()
    {
      j, left := at, count;
      if count >= 8 * n {
        ReadWord(dest, at, n, count, start);
        j, left := at + n, count - 8 * n;
      }
    }

    /** One word of the unaligned path. */
    method ReadWord(dest: array<byte>, j: nat, n: nat, ghost left: nat, ghost start: seq<bool>)
      requires Valid() && (n == 1 || n == 2 || n == 4 || n == 8)
      requires 8 * n <= left && 8 * j + left <= 8 * dest.Length && pos + left <= bitCount
      requires n >= 2 ==> pos + left + 64 <= 8 * |buf|
      requires start == ToBits(LittleEndian(dest[..]), 8 * j) + Rest()
      modifies this, dest
      ensures Valid() && pos == old(pos) + 8 * n
      ensures start == ToBits(LittleEndian(dest[..]), 8 * (j + n)) + Rest()
    {
      hide ToBits, BitsOf, LittleEndian, Pow;
      if n == 1 {
        WordsFitByte(pos, |buf|);
      } else {
        WordsFitSlack(pos, 8 * n, |buf|);
      }
      var v := ReadInt(8 * n);
      ghost var before := dest[..];
      assert start == ToBits(LittleEndian(before), 8 * j) + ToBits(v, 8 * n) + Rest();
      Pow256(n);
      StoreWord(dest, j, n, v);
      StoredBits(before, dest[..], j, n, v);
    }

    /** The last bits of the unaligned path, fewer than a byte. */
    method ReadTail(dest: array<byte>, j: nat, count: nat, ghost start: seq<bool>)
      requires Valid() && j < dest.Length && 0 < count < 8 && pos + count <= bitCount
      requires start == ToBits(LittleEndian(dest[..]), 8 * j) + Rest()
      modifies this, dest
      ensures Valid() && pos == old(pos) + count
      ensures start == ToBits(LittleEndian(dest[..]), 8 * j + count) + Rest()
    {
      hide ToBits, BitsOf, Or, Shl;
      ghost var before := dest[..];
      var x: nat := 0;
      for i := 0 to count
        invariant Valid() && pos == old(pos) + i && x < Pow(2, i) && dest[..] == before
        invariant start == ToBits(LittleEndian(before), 8 * j) + ToBits(x, i) + Rest()
      {
        var b := ReadBool();
        var bit: nat := if b then 1 else 0;
        AppendBit(x, i, bit, b);
        x := Or(x, Shl(bit, i));
      }
      PowMonotone(2, count, 8);
      Pow256(1);
      dest[j] := x;
      StoredByte(before, dest[..], j, count);
    }
  }

  lemma AppendBit(x: nat, i: nat, bit: nat, b: bool)
    requires x < Pow(2, i) && bit == if b then 1 else 0
    ensures Or(x, Shl(bit, i)) < Pow(2, i + 1)
    ensures ToBits(Or(x, Shl(bit, i)), i + 1) == ToBits(x, i) + [b]
  {
    OrDisjoint(x, bit, i);
    AppendValue(x, i, bit, 1);
    assert ToBits(bit, 1) == [b];
  }

  /** Storing a word after j bytes adds its bits after theirs. */
  lemma StoredBits(s: seq<byte>, t: seq<byte>, j: nat, n: nat, v: nat)
    requires j + n <= |s| && v < Pow(256, n) && t == s[..j] + ToBytes(v, n) + s[j + n..]
    ensures ToBits(LittleEndian(t), 8 * (j + n)) == ToBits(LittleEndian(s), 8 * j) + ToBits(v, 8 * n)
  {
    assert t[j..j + n] == ToBytes(v, n) && t[..j] == s[..j];
    LittleEndianToBytes(v, n);
    WordBits(t, j, n);
    WordBits(t, 0, j);
    WordBits(s, 0, j);
  }

  lemma StoredByte(s: seq<byte>, t: seq<byte>, j: nat, count: nat)
    requires j < |s| == |t| && s[..j] == t[..j] && count <= 8
    ensures ToBits(LittleEndian(t), 8 * j + count) == ToBits(LittleEndian(s), 8 * j) + ToBits(t[j], count)
  {
    ByteBits(t, j, count);
    WordBits(t, 0, j);
    WordBits(s, 0, j);
  }

  /** Bytes copied from offset at hold the bits found there. */
  lemma CopiedBits(s: seq<byte>, t: seq<byte>, buf: seq<byte>, at: nat, count: nat)
    requires at <= |buf| && count <= 8 * (|buf| - at) && count <= 8 * |s|
    requires Copied(s, t, 0, buf[at..], count)
    ensures ToBits(LittleEndian(t), count) == BitsOf(buf)[8 * at..8 * at + count]
  {
    var src := buf[at..];
    LowOfBytes(src, count);
    LowOfBytes(t, count);
    if count % 8 != 0 {
      LowLow(src[count / 8], count % 8);
    }
    PrefixBits(LittleEndian(src), count);
    PrefixBits(LittleEndian(t), count);
    WordSplit(buf, at, 0);
    ToBitsAppend(LittleEndian(buf[..at]), 8 * at, LittleEndian(src), count);
    ToBitsAppend(LittleEndian(buf[..at]), 8 * at, LittleEndian(src), 0);
    SliceOfBits(buf, 8 * at, 8 * at + count);
  }

  lemma LowLow(x: nat, k: nat)
    ensures Low(Low(x, k), k) == Low(x, k)
  {
    ShrSmall(Low(x, k), k);
  }
}
