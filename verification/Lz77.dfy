/** LZ77 compression: literals and references into a sliding window that is carried over from chunk to
    chunk. */
module Lz77 {
  import opened Numerals
  import opened BitStream
  import opened BitFields
  import opened SelfCopy

  const MIN_DUPLICATE_SIZE: nat := 4
  const MAX_CHAIN_LENGTH: nat := 32
  const TEXT_LIMIT: nat := 0x8000_0000

  datatype Token = Literal(b: byte) | Reference(dist: nat, size: nat)

  // ---- The format of tokens ---------------------------------------------------------------

  /** Which of the four reference formats holds the distance and the size. */
  function Kind(dist: nat, size: nat): (k: nat)
    ensures k < 4
  {
    if dist < 0x100 && size < 0x100 then 0
    else if dist < 0x1_0000 && size < 0x100 then 1
    else if dist < 0x100_0000 && size < 0x1_0000 then 2
    else 3
  }

  function DistWidth(k: nat): nat { if k == 0 then 8 else if k == 1 then 16 else if k == 2 then 24 else 32 }

  function SizeWidth(k: nat): nat { if k <= 1 then 8 else if k == 2 then 16 else 32 }

  /** The bits a reference takes. */
  function Cost(k: nat): nat { 3 + DistWidth(k) + SizeWidth(k) }

  /** A clear flag tells a reference from a literal; the next two name the format. */
  ghost function Flags(k: nat): seq<bool> { [false, k == 1 || k == 3, k >= 2] }

  ghost function TokenBits(t: Token): seq<bool> {
    match t
    case Literal(b) => [true] + ToBits(b, 8)
    case Reference(dist, size) =>
      var k := Kind(dist, size);
      Flags(k) + ToBits(dist, DistWidth(k)) + ToBits(size, SizeWidth(k))
  }

  ghost function TokensBits(ts: seq<Token>): seq<bool> {
    if ts == [] then [] else TokenBits(ts[0]) + TokensBits(ts[1..])
  }

  lemma {:induction false} TokensConcat(s: seq<Token>, t: seq<Token>)
    ensures TokensBits(s + t) == TokensBits(s) + TokensBits(t)
  {
    hide TokenBits;
    if s == [] {
      assert s + t == t;
    } else {
      assert (s + t)[1..] == s[1..] + t;
      TokensConcat(s[1..], t);
    }
  }

  lemma OneToken(t: Token)
    ensures TokensBits([t]) == TokenBits(t)
  {
    assert [t][1..] == [];
  }

  // ---- What tokens say about a text -------------------------------------------------------

  function Span(t: Token): nat { if t.Literal? then 1 else t.size }

  /** The token gives the text at that offset; a reference may overlap the bytes it stands for. */
  ghost predicate FitsAt(text: seq<byte>, t: Token, at: nat) {
    match t
    case Literal(b) => at < |text| && text[at] == b
    case Reference(dist, size) =>
      && 1 <= dist <= at && MIN_DUPLICATE_SIZE <= size && at + size <= |text|
      && text[at - dist..at - dist + size] == text[at..at + size]
  }

  /** The tokens give the text from one offset to another. */
  ghost predicate Covers(text: seq<byte>, ts: seq<Token>, at: nat, to: nat) {
    if ts == [] then at == to else FitsAt(text, ts[0], at) && Covers(text, ts[1..], at + Span(ts[0]), to)
  }

  lemma {:induction false} CoversConcat(text: seq<byte>, s: seq<Token>, t: seq<Token>, at: nat, mid: nat, to: nat)
    requires Covers(text, s, at, mid) && Covers(text, t, mid, to)
    ensures Covers(text, s + t, at, to)
  {
    if s == [] {
      assert s + t == t;
    } else {
      assert (s + t)[1..] == s[1..] + t;
      CoversConcat(text, s[1..], t, at + Span(s[0]), mid, to);
    }
  }

  lemma CoversOne(text: seq<byte>, t: Token, at: nat)
    requires FitsAt(text, t, at)
    ensures Covers(text, [t], at, at + Span(t))
  {
    assert [t][1..] == [];
  }

  lemma {:induction false} CoversBound(text: seq<byte>, ts: seq<Token>, at: nat, to: nat)
    requires Covers(text, ts, at, to)
    ensures at <= to
    ensures ts == [] <==> at == to
    ensures ts != [] ==> FitsAt(text, ts[0], at) && Span(ts[0]) > 0 && at + Span(ts[0]) <= to
    ensures ts != [] ==> Covers(text, ts[1..], at + Span(ts[0]), to)
  {
    if ts != [] {
      CoversBound(text, ts[1..], at + Span(ts[0]), to);
    }
  }

  /** Every reference reaches back at most that far. */
  ghost predicate Reaches(ts: seq<Token>, window: nat) {
    forall i :: 0 <= i < |ts| && ts[i].Reference? ==> ts[i].dist <= window
  }

  // ---- Writing tokens ---------------------------------------------------------------------

  method WriteLiteral(bs: OutputBitStream, b: byte)
    requires bs.Valid() && bs.pos + 9 <= bs.bitCount
    modifies bs, bs.buf
    ensures bs.Valid() && bs.Bits() == old(bs.Bits()) + TokenBits(Literal(b))
  {
    hide ToBits;
    ghost var start := bs.Bits();
    bs.WriteBool(true);
    bs.WriteByte(b);
    assert bs.Bits() == start + ([true] + ToBits(b, 8));
  }

  method WriteFlags(bs: OutputBitStream, k: nat)
    requires bs.Valid() && bs.pos + 3 <= bs.bitCount && k < 4
    modifies bs, bs.buf
    ensures bs.Valid() && bs.Bits() == old(bs.Bits()) + Flags(k) && bs.pos == old(bs.pos) + 3
  {
    ghost var start := bs.Bits();
    bs.WriteBool(false);
    bs.WriteBool(k == 1 || k == 3);
    bs.WriteBool(k >= 2);
    assert bs.Bits() == start + Flags(k);
  }

  /** A number of 8, 16, 24 or 32 bits. */
  method WriteField(bs: OutputBitStream, v: nat, w: nat)
    requires bs.Valid() && bs.pos + 64 <= bs.bitCount == 8 * bs.buf.Length
    requires Field(v, w)
    modifies bs, bs.buf
    ensures bs.Valid() && bs.Bits() == old(bs.Bits()) + ToBits(v, w) && bs.pos == old(bs.pos) + w
  {
    hide ToBits;
    if w == 8 {
      bs.WriteByte(v);
    } else if w == 24 {
      WriteSplit(bs, v);
    } else {
      WriteWide(bs, v, w);
    }
  }

  ghost predicate Field(v: nat, w: nat) {
    (w == 8 && v < 0x100) || (w == 16 && v < 0x1_0000) || (w == 24 && v < 0x100_0000) || (w == 32 && v < CODE_LIMIT)
  }

  /** Every distance and size fits the fields of its format. */
  lemma KindHolds(dist: nat, size: nat)
    requires dist < CODE_LIMIT && size < CODE_LIMIT
    ensures Field(dist, DistWidth(Kind(dist, size))) && Field(size, SizeWidth(Kind(dist, size)))
  {
  }

  /** A reference in its format. */
  method WriteFormat(bs: OutputBitStream, dist: nat, size: nat)
    requires bs.Valid() && bs.pos + Cost(Kind(dist, size)) + 64 <= bs.bitCount == 8 * bs.buf.Length
    requires dist < CODE_LIMIT && size < CODE_LIMIT
    modifies bs, bs.buf
    ensures bs.Valid() && bs.Bits() == old(bs.Bits()) + TokenBits(Reference(dist, size))
  {
    hide ToBits, Kind;
    var k := Kind(dist, size);
    ghost var start := bs.Bits();
    KindHolds(dist, size);
    WriteFlags(bs, k);
    WriteField(bs, dist, DistWidth(k));
    WriteField(bs, size, SizeWidth(k));
    assert bs.Bits() == start + (Flags(k) + ToBits(dist, DistWidth(k)) + ToBits(size, SizeWidth(k)));
  }

  ghost function LiteralsOf(text: seq<byte>, at: nat, size: nat): seq<Token>
    requires at + size <= |text|
  {
    seq(size, i requires 0 <= i < size => Literal(text[at + i]))
  }

  lemma LiteralsSnoc(text: seq<byte>, at: nat, size: nat)
    requires at + size < |text|
    ensures LiteralsOf(text, at, size + 1) == LiteralsOf(text, at, size) + [Literal(text[at + size])]
  {
  }

  /** A match byte by byte or as a reference, whichever takes fewer bits. */
  ghost function Written(text: seq<byte>, at: nat, dist: nat, size: nat): seq<Token>
    requires at + size <= |text|
  {
    if 9 * size < Cost(Kind(dist, size)) then LiteralsOf(text, at, size) else [Reference(dist, size)]
  }

  lemma {:induction false} LiteralsCost(text: seq<byte>, at: nat, size: nat)
    requires at + size <= |text|
    ensures |TokensBits(LiteralsOf(text, at, size))| == 9 * size
  {
    hide TokenBits;
    if size > 0 {
      var t := Literal(text[at + size - 1]);
      LiteralsCost(text, at, size - 1);
      LiteralsSnoc(text, at, size - 1);
      TokensConcat(LiteralsOf(text, at, size - 1), [t]);
      OneToken(t);
      TokenCost(t);
    }
  }

  lemma WrittenCost(text: seq<byte>, at: nat, dist: nat, size: nat)
    requires at + size <= |text|
    ensures |TokensBits(Written(text, at, dist, size))| == Min(9 * size, Cost(Kind(dist, size)))
  {
    hide TokenBits, Kind;
    LiteralsCost(text, at, size);
    OneToken(Reference(dist, size));
    TokenCost(Reference(dist, size));
  }

  /** A match: as literals when that takes fewer bits, else as a reference. */
  method WriteRef(bs: OutputBitStream, dist: nat, size: nat, text: seq<byte>, windowEnd: nat)
    returns (ghost ts: seq<Token>)
    requires bs.Valid() && bs.pos + 9 * size + 64 <= bs.bitCount == 8 * bs.buf.Length
    requires |text| < TEXT_LIMIT && FitsAt(text, Reference(dist, size), windowEnd)
    modifies bs, bs.buf
    ensures bs.Valid() && bs.Bits() == old(bs.Bits()) + TokensBits(ts)
    ensures Covers(text, ts, windowEnd, windowEnd + size) && Reaches(ts, dist)
    ensures ts == Written(text, windowEnd, dist, size) && |TokensBits(ts)| == Min(9 * size, Cost(Kind(dist, size)))
  {
    hide TokenBits, Kind;
    ghost var start := bs.Bits();
    var k := Kind(dist, size);
    TokenCost(Reference(dist, size));
    WrittenCost(text, windowEnd, dist, size);
    if size * 9 < Cost(k) {
      ts := WriteLiterals(bs, dist, size, text, windowEnd);
    } else {
      WriteFormat(bs, dist, size);
      ts := [Reference(dist, size)];
      OneToken(ts[0]);
      CoversOne(text, ts[0], windowEnd);
    }
  }

  lemma TokenCost(t: Token)
    ensures |TokenBits(t)| == if t.Literal? then 9 else Cost(Kind(t.dist, t.size))
  {
  }

  /** The match byte by byte. */
  method WriteLiterals(bs: OutputBitStream, dist: nat, size: nat, text: seq<byte>, windowEnd: nat)
    returns (ghost ts: seq<Token>)
    requires bs.Valid() && bs.pos + 9 * size <= bs.bitCount && FitsAt(text, Reference(dist, size), windowEnd)
    modifies bs, bs.buf
    ensures bs.Valid() && bs.Bits() == old(bs.Bits()) + TokensBits(ts)
    ensures Covers(text, ts, windowEnd, windowEnd + size) && Reaches(ts, 0) && |TokensBits(ts)| == 9 * size
    ensures ts == LiteralsOf(text, windowEnd, size)
  {
    hide TokenBits, TokensBits, Covers, Reaches, OutputBitStream.Bits, LiteralsOf;
    ghost var start := bs.Bits();
    ts := [];
    NoLiterals(text, windowEnd);
    NoTokens(text, windowEnd);
    for i := 0 to size
      invariant bs.Valid() && bs.Bits() == start + TokensBits(ts) && bs.pos == old(bs.pos) + 9 * i
      invariant Covers(text, ts, windowEnd, windowEnd + i) && Reaches(ts, 0) && |TokensBits(ts)| == 9 * i
      invariant ts == LiteralsOf(text, windowEnd, i)
    {
      var b := text[windowEnd - dist + i];
      assert text[windowEnd - dist..windowEnd - dist + size][i] == text[windowEnd..windowEnd + size][i];
      WriteLiteral(bs, b);
      ts := PutLiteral(text, ts, b, windowEnd, windowEnd + i);
      LiteralsSnoc(text, windowEnd, i);
    }
  }

  lemma NoLiterals(text: seq<byte>, at: nat)
    requires at <= |text|
    ensures LiteralsOf(text, at, 0) == []
  {
  }

  lemma NoTokens(text: seq<byte>, at: nat)
    ensures Covers(text, [], at, at) && Reaches([], 0) && TokensBits([]) == []
  {
  }

  lemma PutLiteral(text: seq<byte>, ts: seq<Token>, b: byte, at: nat, to: nat) returns (us: seq<Token>)
    requires Covers(text, ts, at, to) && Reaches(ts, 0) && to < |text| && text[to] == b
    ensures us == ts + [Literal(b)] && Covers(text, us, at, to + 1) && Reaches(us, 0)
    ensures TokensBits(us) == TokensBits(ts) + TokenBits(Literal(b)) && |TokensBits(us)| == |TokensBits(ts)| + 9
  {
    us := ts + [Literal(b)];
    TokensConcat(ts, [Literal(b)]);
    OneToken(Literal(b));
    TokenCost(Literal(b));
    CoversOne(text, Literal(b), to);
    CoversConcat(text, ts, [Literal(b)], at, to, to + 1);
  }

  // ---- Reading tokens ---------------------------------------------------------------------

  method ReadField(bs: InputBitStream, w: nat, ghost v: nat, ghost rest: seq<bool>) returns (r: nat)
    requires bs.Valid() && Field(v, w) && bs.Rest() == ToBits(v, w) + rest && bs.bitCount + 64 <= 8 * |bs.buf|
    modifies bs
    ensures bs.Valid() && r == v && bs.Rest() == rest
  {
    if w == 24 {
      r := ReadSplit(bs, v, rest);
    } else {
      r := ReadPlain(bs, w, v, rest);
    }
  }

  /** The distance and the size after the first flag of a reference. */
  method ReadReference(bs: InputBitStream, ghost t: Token, ghost rest: seq<bool>) returns (dist: nat, size: nat)
    requires bs.Valid() && t.Reference? && t.dist < CODE_LIMIT && t.size < CODE_LIMIT
    requires [false] + bs.Rest() == TokenBits(t) + rest && bs.bitCount + 64 <= 8 * |bs.buf|
    modifies bs
    ensures bs.Valid() && dist == t.dist && size == t.size && bs.Rest() == rest
  {
    hide ToBits, Kind, BitsOf;
    ghost var k := Kind(t.dist, t.size);
    KindHolds(t.dist, t.size);
    ghost var tail := ToBits(t.dist, DistWidth(k)) + (ToBits(t.size, SizeWidth(k)) + rest);
    FlagsFirst(bs.Rest(), k, ToBits(t.dist, DistWidth(k)), ToBits(t.size, SizeWidth(k)), rest);
    var odd := bs.ReadBool();
    SameHead(odd, bs.Rest(), k == 1 || k == 3, [k >= 2] + tail);
    var high := bs.ReadBool();
    SameHead(high, bs.Rest(), k >= 2, tail);
    dist := ReadField(bs, if odd then (if high then 32 else 16) else if high then 24 else 8, t.dist, ToBits(t.size, SizeWidth(k)) + rest);
    size := ReadField(bs, if odd then (if high then 32 else 8) else if high then 16 else 8, t.size, rest);
  }

  lemma FlagsFirst(s: seq<bool>, k: nat, d: seq<bool>, z: seq<bool>, rest: seq<bool>)
    requires [false] + s == Flags(k) + d + z + rest
    ensures s == [k == 1 || k == 3] + ([k >= 2] + (d + (z + rest)))
  {
    assert s == ([false] + s)[1..];
  }

  lemma SameHead(x: bool, s: seq<bool>, y: bool, t: seq<bool>)
    requires [x] + s == [y] + t
    ensures x == y && s == t
  {
    assert ([x] + s)[0] == ([y] + t)[0] && ([x] + s)[1..] == ([y] + t)[1..];
  }

  /** Decode one token behind what is already there. */
  method ReadLiteralOrRef(bs: InputBitStream, dest: array<byte>, windowEnd: nat, ghost text: seq<byte>,
    ghost t: Token, ghost rest: seq<bool>) returns (size: nat)
    requires bs.Valid() && bs.Rest() == TokenBits(t) + rest && bs.bitCount + 64 <= 8 * |bs.buf|
    requires dest.Length == |text| < TEXT_LIMIT && FitsAt(text, t, windowEnd) && dest[..windowEnd] == text[..windowEnd]
    modifies bs, dest
    ensures bs.Valid() && bs.Rest() == rest && size == Span(t) && windowEnd + size <= |text|
    ensures dest[..windowEnd + size] == text[..windowEnd + size]
  {
    hide ToBits, BitsOf, Kind, Flags;
    ghost var before := bs.Rest();
    FirstFlag(t, rest);
    var literal := bs.ReadBool();
    assert bs.Rest() == before[1..];
    if literal {
      size := ReadLiteral(bs, dest, windowEnd, text, t.b, rest);
    } else {
      size := CopyReference(bs, dest, windowEnd, text, t, rest);
    }
  }

  lemma FirstFlag(t: Token, rest: seq<bool>)
    ensures TokenBits(t) != [] && (TokenBits(t) + rest)[0] == t.Literal?
    ensures t.Literal? ==> (TokenBits(t) + rest)[1..] == ToBits(t.b, 8) + rest
    ensures t.Reference? ==> [false] + (TokenBits(t) + rest)[1..] == TokenBits(t) + rest
  {
    hide ToBits, Kind;
    var s := TokenBits(t) + rest;
    assert s == [s[0]] + s[1..];
  }

  method ReadLiteral(bs: InputBitStream, dest: array<byte>, windowEnd: nat, ghost text: seq<byte>,
    ghost v: byte, ghost rest: seq<bool>) returns (size: nat)
    requires bs.Valid() && bs.Rest() == ToBits(v, 8) + rest && bs.bitCount + 64 <= 8 * |bs.buf|
    requires dest.Length == |text| && windowEnd < |text| && text[windowEnd] == v && dest[..windowEnd] == text[..windowEnd]
    modifies bs, dest
    ensures bs.Valid() && bs.Rest() == rest && size == 1 && dest[..windowEnd + 1] == text[..windowEnd + 1]
  {
    hide ToBits, BitsOf;
    var b := ReadPlain(bs, 8, v, rest);
    dest[windowEnd] := b;
    size := 1;
    assert dest[..windowEnd + 1] == text[..windowEnd] + [b] == text[..windowEnd + 1];
  }

  /** Repeat the bytes a reference names, which may overlap their copy. */
  method CopyReference(bs: InputBitStream, dest: array<byte>, windowEnd: nat, ghost text: seq<byte>,
    ghost t: Token, ghost rest: seq<bool>) returns (size: nat)
    requires bs.Valid() && t.Reference? && [false] + bs.Rest() == TokenBits(t) + rest && bs.bitCount + 64 <= 8 * |bs.buf|
    requires dest.Length == |text| < TEXT_LIMIT && FitsAt(text, t, windowEnd) && dest[..windowEnd] == text[..windowEnd]
    modifies bs, dest
    ensures bs.Valid() && bs.Rest() == rest && size == t.size && dest[..windowEnd + size] == text[..windowEnd + size]
  {
    hide TokenBits, BitsOf, InputBitStream.Rest;
    var dist;
    dist, size := ReadReference(bs, t, rest);
    assert size >= MIN_DUPLICATE_SIZE;
    if dist >= size {
      CopyBlock(dest, windowEnd - dist, windowEnd, size, text);
    } else {
      CopyForward(dest, windowEnd - dist, windowEnd, size, text);
    }
  }

  // ---- Finding matches --------------------------------------------------------------------

  datatype Match = NoMatch | MatchAt(data: nat)

  /** The first position of the window a byte belongs to. */
  function WindowStart(windowEnd: nat, windowSize: nat): nat {
    if windowEnd <= windowSize then 0 else windowEnd - windowSize
  }

  /** The text at p goes on like the text at q for n bytes. */
  ghost predicate SameText(text: seq<byte>, p: nat, q: nat, n: nat) {
    p + n <= |text| && q + n <= |text| && text[p..p + n] == text[q..q + n]
  }

  lemma SameShorter(text: seq<byte>, p: nat, q: nat, m: nat, n: nat)
    requires m <= n && SameText(text, p, q, n)
    ensures SameText(text, p, q, m)
  {
    assert text[p..p + m] == text[p..p + n][..m];
    assert text[q..q + m] == text[q..q + n][..m];
  }

  lemma SameLonger(text: seq<byte>, p: nat, q: nat, n: nat)
    requires SameText(text, p, q, n) && p + n < |text| && q + n < |text|
    ensures SameText(text, p, q, n + 1) <==> text[p + n] == text[q + n]
  {
    assert text[p..p + n + 1] == text[p..p + n] + [text[p + n]];
    assert text[q..q + n + 1] == text[q..q + n] + [text[q + n]];
    assert text[p..p + n + 1][n] == text[p + n] && text[q..q + n + 1][n] == text[q + n];
  }

  /** The positions that are filed for a search at upto: those of the window with four bytes behind them, except the one
      four bytes before the chunk. */
  ghost predicate Due(text: seq<byte>, initWinSize: nat, window: nat, upto: nat, p: nat) {
    && window <= p && p + MIN_DUPLICATE_SIZE <= upto && p + MIN_DUPLICATE_SIZE != initWinSize
    && p + MIN_DUPLICATE_SIZE <= |text|
  }

  /** The candidate gives a longer match. */
  ghost predicate Beats(text: seq<byte>, p: nat, begin: nat, end: nat, size: nat) {
    begin + size < end && SameText(text, p, begin, size + 1)
  }

  /** A match is a place in the window where the text goes on in the same way, as far as it goes. */
  ghost predicate IsMatch(text: seq<byte>, data: nat, begin: nat, end: nat, window: nat, size: nat) {
    && window <= data < begin && MIN_DUPLICATE_SIZE <= size && begin + size <= end
    && SameText(text, data, begin, size) && !Beats(text, data, begin, end, size)
  }

  /** How matches are looked for. */
  datatype Search = Search(hash: seq<byte> -> nat, bucketCount: nat, windowSize: nat)

  /** A filed position of the window with the hash of the text at `at`. */
  ghost predicate Listed(s: Search, text: seq<byte>, initWinSize: nat, at: nat, p: nat) {
    && s.bucketCount > 0 && at + MIN_DUPLICATE_SIZE <= |text|
    && Due(text, initWinSize, WindowStart(at, s.windowSize), at, p)
    && s.hash(text[p..p + MIN_DUPLICATE_SIZE]) % s.bucketCount == s.hash(text[at..at + MIN_DUPLICATE_SIZE]) % s.bucketCount
  }

  /** The latest filed position of the window where the next four bytes occur. */
  ghost predicate Latest(text: seq<byte>, initWinSize: nat, window: nat, at: nat, f: nat) {
    && Due(text, initWinSize, window, at, f) && SameText(text, f, at, MIN_DUPLICATE_SIZE)
    && forall p: nat :: f < p && Due(text, initWinSize, window, at, p) ==> !SameText(text, p, at, MIN_DUPLICATE_SIZE)
  }

  ghost function Between(s: Search, text: seq<byte>, initWinSize: nat, at: nat, p: nat, f: nat): set<nat> {
    set q: nat | p < q <= f && Listed(s, text, initWinSize, at, q)
  }

  /** One of the first 32 positions with that hash, going back from f. */
  ghost predicate Searched(s: Search, text: seq<byte>, initWinSize: nat, at: nat, f: nat, p: nat) {
    && Listed(s, text, initWinSize, at, p) && p <= f
    && |Between(s, text, initWinSize, at, p, f)| < MAX_CHAIN_LENGTH
  }

  /** No searched position agrees for longer, and the later ones not even for as long, unless that is to the end. */
  ghost predicate Wins(s: Search, text: seq<byte>, initWinSize: nat, at: nat, f: nat, data: nat, size: nat) {
    forall p: nat :: Searched(s, text, initWinSize, at, f, p) ==>
      && !Beats(text, p, at, |text|, size)
      && (p > data && at + size < |text| ==> !SameText(text, p, at, size))
  }

  /** What the search has to find, from the latest position with the next four bytes on. */
  ghost predicate BestFrom(s: Search, text: seq<byte>, initWinSize: nat, at: nat, f: nat, data: nat, size: nat) {
    && Latest(text, initWinSize, WindowStart(at, s.windowSize), at, f)
    && IsMatch(text, data, at, |text|, WindowStart(at, s.windowSize), size)
    && Searched(s, text, initWinSize, at, f, data) && Wins(s, text, initWinSize, at, f, data, size)
  }

  ghost predicate BestMatch(s: Search, text: seq<byte>, initWinSize: nat, at: nat, data: nat, size: nat) {
    exists f :: BestFrom(s, text, initWinSize, at, f, data, size)
  }

  /** Nowhere in the window do the next four bytes occur, or there are fewer. */
  ghost predicate NoneAgrees(text: seq<byte>, initWinSize: nat, window: nat, at: nat) {
    forall p: nat :: Due(text, initWinSize, window, at, p) ==> !SameText(text, p, at, MIN_DUPLICATE_SIZE)
  }

  /** One turn of the compression: a literal where none of the filed positions of the window agrees in four bytes, else
      the best match, written in the shorter way. */
  ghost predicate Turn(s: Search, text: seq<byte>, initWinSize: nat, at: nat, to: nat, step: seq<Token>) {
    && at < to <= |text|
    && if NoneAgrees(text, initWinSize, WindowStart(at, s.windowSize), at) then to == at + 1 && step == [Literal(text[at])]
       else exists data :: TakesMatch(s, text, initWinSize, at, to, data, step)
  }

  ghost predicate TakesMatch(s: Search, text: seq<byte>, initWinSize: nat, at: nat, to: nat, data: nat, step: seq<Token>)
    requires at < to <= |text|
  {
    data < at && BestMatch(s, text, initWinSize, at, data, to - at) && step == Written(text, at, at - data, to - at)
  }

  /** The tokens from one place to another are those of such turns. */
  ghost predicate Turns(s: Search, text: seq<byte>, initWinSize: nat, ts: seq<Token>, from: nat, to: nat)
    decreases to
  {
    || (from == to && ts == [])
    || (exists mid: nat, n: nat :: from <= mid < to && n <= |ts|
          && Turn(s, text, initWinSize, mid, to, ts[n..]) && Turns(s, text, initWinSize, ts[..n], from, mid))
  }

  lemma NextTurn(s: Search, text: seq<byte>, initWinSize: nat, ts: seq<Token>, from: nat, mid: nat, to: nat,
    step: seq<Token>)
    requires Turns(s, text, initWinSize, ts, from, mid) && Turn(s, text, initWinSize, mid, to, step) && from <= mid
    ensures Turns(s, text, initWinSize, ts + step, from, to)
  {
    hide Turn;
    var us, n := ts + step, |ts|;
    assert us[n..] == step && us[..n] == ts;
    assert mid < to by { TurnOn(s, text, initWinSize, mid, to, step); }
  }

  lemma TurnOn(s: Search, text: seq<byte>, initWinSize: nat, at: nat, to: nat, step: seq<Token>)
    requires Turn(s, text, initWinSize, at, to, step)
    ensures at < to <= |text|
  {
    hide NoneAgrees;
  }

  class ChunkCompressor {
    const buckets: array<seq<nat>>
    const hash: seq<byte> -> nat
    const windowSize: nat

    constructor (bucketCount: nat, hash: seq<byte> -> nat, windowSize: nat)
      requires bucketCount > 0
      ensures fresh(buckets) && buckets.Length == bucketCount && this.windowSize == windowSize && this.hash == hash
    {
      buckets := new seq<nat>[bucketCount](_ => []);
      this.hash, this.windowSize := hash, windowSize;
    }

    /** The bucket of the four bytes at p. */
    function Bucket(text: seq<byte>, p: nat): (b: nat)
      requires buckets.Length > 0 && p + MIN_DUPLICATE_SIZE <= |text|
      ensures b < buckets.Length
    {
      hash(text[p..p + MIN_DUPLICATE_SIZE]) % buckets.Length
    }

    ghost function Settings(): Search {
      Search(hash, buckets.Length, windowSize)
    }

    ghost predicate Belongs(text: seq<byte>, initWinSize: nat, upto: nat, b: nat, p: nat) {
      && buckets.Length > 0 && p + MIN_DUPLICATE_SIZE <= upto && p + MIN_DUPLICATE_SIZE <= |text|
      && p + MIN_DUPLICATE_SIZE != initWinSize && Bucket(text, p) == b
    }

    /** The chains hold positions before upto with their hash only, the latest first. */
    ghost predicate Chains(text: seq<byte>, initWinSize: nat, upto: nat)
      reads buckets
    {
      && (forall b, i :: 0 <= b < buckets.Length && 0 <= i < |buckets[b]| ==>
           Belongs(text, initWinSize, upto, b, buckets[b][i]))
      && (forall b, i, j :: 0 <= b < buckets.Length && 0 <= i < j < |buckets[b]| ==> buckets[b][i] > buckets[b][j])
    }

    /** Every position of the window is filed, except the one four bytes before the chunk. */
    ghost predicate Files(text: seq<byte>, initWinSize: nat, window: nat, upto: nat)
      reads buckets
    {
      && buckets.Length > 0
      && forall p {:trigger Bucket(text, p)} :: Due(text, initWinSize, window, upto, p) ==> p in buckets[Bucket(text, p)]
    }

    ghost predicate Holds(text: seq<byte>, initWinSize: nat, window: nat, upto: nat)
      reads buckets
    {
      Chains(text, initWinSize, upto) && Files(text, initWinSize, window, upto)
    }

    method AddRef(text: seq<byte>, data: int, window: nat, ghost initWinSize: nat)
      requires data + MIN_DUPLICATE_SIZE > 0 && data + MIN_DUPLICATE_SIZE <= |text|
      requires Holds(text, initWinSize, window, data + MIN_DUPLICATE_SIZE - 1) && data + MIN_DUPLICATE_SIZE != initWinSize
      modifies buckets
      ensures Holds(text, initWinSize, window, data + MIN_DUPLICATE_SIZE)
    {
      if data < window {
        return;
      }
      var b := Bucket(text, data);
      buckets[b] := [data] + buckets[b];
    }

    /** Empty buckets, then the positions of the window carried over. */
    method SetupWithInitWindow(text: seq<byte>, winSize: nat)
      requires buckets.Length > 0 && winSize <= |text|
      modifies buckets
      ensures Holds(text, winSize, 0, winSize)
    {
      for i := 0 to buckets.Length
        invariant forall b :: 0 <= b < i ==> buckets[b] == []
      {
        buckets[i] := [];
      }
      var i: nat := 0;
      while i + MIN_DUPLICATE_SIZE < winSize
        invariant i == 0 || i + MIN_DUPLICATE_SIZE <= winSize
        invariant Holds(text, winSize, 0, i + MIN_DUPLICATE_SIZE - 1) && (i == 0 ==> Chains(text, winSize, 0))
      {
        AddRef(text, i, 0, winSize);
        i := i + 1;
      }
    }

    /** The candidate agrees with the text at begin for the longest length so far and, inside the chunk,
        one byte more. */
    predicate Candidate(text: seq<byte>, p: nat, begin: nat, end: nat, longest: nat)
      requires MIN_DUPLICATE_SIZE <= longest && p < begin && begin + longest <= end <= |text|
    {
      && text[p..p + MIN_DUPLICATE_SIZE] == text[begin..begin + MIN_DUPLICATE_SIZE]
      && text[p + longest - MIN_DUPLICATE_SIZE..p + longest] == text[begin + longest - MIN_DUPLICATE_SIZE..begin + longest]
      && text[p..p + longest] == text[begin..begin + longest]
      && (begin + longest < end ==> text[p + longest] == text[begin + longest])
    }

    /** How far the match goes on. */
    method Extend(text: seq<byte>, p: nat, begin: nat, end: nat, n: nat) returns (longest: nat)
      requires p < begin && begin + n <= end <= |text| && SameText(text, p, begin, n)
      ensures n <= longest && begin + longest <= end && SameText(text, p, begin, longest)
      ensures !Beats(text, p, begin, end, longest)
    {
      longest := n;
      while begin + longest < end && text[p + longest] == text[begin + longest]
        invariant n <= longest && begin + longest <= end && SameText(text, p, begin, longest)
      {
        SameLonger(text, p, begin, longest);
        longest := longest + 1;
      }
      if begin + longest < end {
        SameLonger(text, p, begin, longest);
      }
    }

    lemma CandidateOrNot(text: seq<byte>, p: nat, begin: nat, end: nat, longest: nat)
      requires MIN_DUPLICATE_SIZE <= longest && p < begin && begin + longest <= end <= |text|
      ensures Beats(text, p, begin, end, longest) ==> Candidate(text, p, begin, end, longest)
      ensures Candidate(text, p, begin, end, longest) ==> SameText(text, p, begin, longest)
    {
      if Beats(text, p, begin, end, longest) {
        SameShorter(text, p, begin, longest, longest + 1);
        SameLonger(text, p, begin, longest);
        SameShorter(text, p, begin, MIN_DUPLICATE_SIZE, longest);
        var k := longest - MIN_DUPLICATE_SIZE;
        assert text[p + k..p + longest] == text[p..p + longest][k..];
        assert text[begin + k..begin + longest] == text[begin..begin + longest][k..];
      }
    }

    /** No candidate of the chain from first on, as far as it is searched, gives a longer match. */
    ghost predicate Unbeaten(chain: seq<nat>, first: nat, to: nat, text: seq<byte>, begin: nat, end: nat,
      window: nat, size: nat) {
      forall k :: first <= k < to && k < |chain| && chain[k] >= window ==> !Beats(text, chain[k], begin, end, size)
    }

    /** The positions of the chain in front of the one taken do not agree for as long, unless that is to the end. */
    ghost predicate Shorter(chain: seq<nat>, first: nat, at: nat, text: seq<byte>, begin: nat, end: nat, size: nat) {
      begin + size < end ==> forall k :: first <= k < at && k < |chain| ==> !SameText(text, chain[k], begin, size)
    }

    /** An earlier place in the window where the next bytes occur, looked for among the positions with the
        same hash: none is found if and only if the window has none, and of the positions that are searched the
        one returned gives the longest match, the latest of those. */
    method FindLongestMatch(text: seq<byte>, begin: nat, end: nat, window: nat, ghost initWinSize: nat)
      returns (m: Match, size: nat)
      requires begin < end == |text| && Holds(text, initWinSize, window, begin)
      requires window == WindowStart(begin, windowSize)
      ensures m.NoMatch? <==> NoneAgrees(text, initWinSize, window, begin)
      ensures m.NoMatch? ==> size == 1
      ensures m.MatchAt? ==> BestMatch(Settings(), text, initWinSize, begin, m.data, size)
    {
      hide Beats, Chains, Belongs, SameText, BestFrom;
      size := 1;
      if end - begin < MIN_DUPLICATE_SIZE {
        TooShort(text, initWinSize, window, begin);
        return NoMatch, 1;
      }
      var chain := buckets[Bucket(text, begin)];
      ChainBounds(text, initWinSize, begin, Bucket(text, begin));
      var i := FindFirst(text, begin, window, chain);
      if i == |chain| || chain[i] < window {
        forall p | Due(text, initWinSize, window, begin, p)
          ensures !SameText(text, p, begin, MIN_DUPLICATE_SIZE)
        {
          NotInWindow(text, begin, window, initWinSize, i, p);
        }
        return NoMatch, 1;
      }
      FirstIsLatest(text, begin, window, initWinSize, i);
      var data, longest, at := SearchChain(text, begin, end, window, chain, i);
      m, size := MatchAt(data), longest;
      FoundBest(text, begin, window, initWinSize, i, at, longest);
      assert BestFrom(Settings(), text, initWinSize, begin, chain[i], data, size);
    }

    lemma TooShort(text: seq<byte>, initWinSize: nat, window: nat, begin: nat)
      requires begin + MIN_DUPLICATE_SIZE > |text|
      ensures NoneAgrees(text, initWinSize, window, begin)
    {
    }

    lemma ChainBounds(text: seq<byte>, initWinSize: nat, upto: nat, b: nat)
      requires Chains(text, initWinSize, upto) && b < buckets.Length
      ensures var chain := buckets[b];
        && (forall k :: 0 <= k < |chain| ==> chain[k] + MIN_DUPLICATE_SIZE <= upto)
        && (forall j, k :: 0 <= j < k < |chain| ==> chain[j] > chain[k])
    {
    }

    /** A position of the chain that lies in the window is filed, and so are all in front of it. */
    lemma ChainListed(text: seq<byte>, begin: nat, window: nat, initWinSize: nat, k: nat)
      requires Holds(text, initWinSize, window, begin) && begin + MIN_DUPLICATE_SIZE <= |text|
      requires window == WindowStart(begin, windowSize)
      requires k < |buckets[Bucket(text, begin)]| && buckets[Bucket(text, begin)][k] >= window
      ensures Listed(Settings(), text, initWinSize, begin, buckets[Bucket(text, begin)][k])
    {
      assert Belongs(text, initWinSize, begin, Bucket(text, begin), buckets[Bucket(text, begin)][k]);
    }

    lemma ListedChain(text: seq<byte>, begin: nat, window: nat, initWinSize: nat, p: nat) returns (k: nat)
      requires Holds(text, initWinSize, window, begin) && begin + MIN_DUPLICATE_SIZE <= |text|
      requires window == WindowStart(begin, windowSize) && Listed(Settings(), text, initWinSize, begin, p)
      ensures k < |buckets[Bucket(text, begin)]| && buckets[Bucket(text, begin)][k] == p
    {
      hide Chains;
      assert Bucket(text, p) == Bucket(text, begin);
      var chain := buckets[Bucket(text, p)];
      assert p in chain;
      k :| k < |chain| && chain[k] == p;
    }

    lemma InPart(text: seq<byte>, begin: nat, window: nat, initWinSize: nat, i: nat, k: nat, q: nat)
      requires Holds(text, initWinSize, window, begin) && begin + MIN_DUPLICATE_SIZE <= |text|
      requires window == WindowStart(begin, windowSize) && i <= k < |buckets[Bucket(text, begin)]|
      requires Listed(Settings(), text, initWinSize, begin, q)
      requires buckets[Bucket(text, begin)][k] < q <= buckets[Bucket(text, begin)][i]
      ensures q in buckets[Bucket(text, begin)][i..k]
    {
      hide Listed;
      var chain := buckets[Bucket(text, begin)];
      var j := ListedChain(text, begin, window, initWinSize, q);
      ChainsOf(text, initWinSize, window, begin);
      hide Holds;
      ChainBounds(text, initWinSize, begin, Bucket(text, begin));
      hide Chains;
      assert chain[i..k][j - i] == q;
    }

    lemma PartListed(text: seq<byte>, begin: nat, window: nat, initWinSize: nat, i: nat, k: nat, q: nat)
      requires Holds(text, initWinSize, window, begin) && begin + MIN_DUPLICATE_SIZE <= |text|
      requires window == WindowStart(begin, windowSize) && i <= k < |buckets[Bucket(text, begin)]|
      requires buckets[Bucket(text, begin)][k] >= window && q in buckets[Bucket(text, begin)][i..k]
      ensures Listed(Settings(), text, initWinSize, begin, q)
      ensures buckets[Bucket(text, begin)][k] < q <= buckets[Bucket(text, begin)][i]
    {
      hide Listed;
      var chain := buckets[Bucket(text, begin)];
      var part := chain[i..k];
      var j :| 0 <= j < |part| && part[j] == q;
      assert chain[i + j] == q;
      ChainsOf(text, initWinSize, window, begin);
      ChainBounds(text, initWinSize, begin, Bucket(text, begin));
      ChainListed(text, begin, window, initWinSize, i + j);
    }

    /** What lies between two positions of the chain. */
    lemma ChainBetween(text: seq<byte>, begin: nat, window: nat, initWinSize: nat, i: nat, k: nat)
      requires Holds(text, initWinSize, window, begin) && begin + MIN_DUPLICATE_SIZE <= |text|
      requires window == WindowStart(begin, windowSize) && i <= k < |buckets[Bucket(text, begin)]|
      requires buckets[Bucket(text, begin)][k] >= window
      ensures var chain := buckets[Bucket(text, begin)];
        |Between(Settings(), text, initWinSize, begin, chain[k], chain[i])| == k - i
    {
      hide Listed;
      var chain := buckets[Bucket(text, begin)];
      var between := Between(Settings(), text, initWinSize, begin, chain[k], chain[i]);
      var part := chain[i..k];
      ChainsOf(text, initWinSize, window, begin);
      hide Holds;
      ChainBounds(text, initWinSize, begin, Bucket(text, begin));
      hide Chains;
      forall q
        ensures q in between <==> q in part
      {
        if q in between {
          InPart(text, begin, window, initWinSize, i, k, q);
        }
        if q in part {
          PartListed(text, begin, window, initWinSize, i, k, q);
        }
      }
      DistinctSize(part, between);
    }

    lemma ChainsOf(text: seq<byte>, initWinSize: nat, window: nat, upto: nat)
      requires Holds(text, initWinSize, window, upto)
      ensures Chains(text, initWinSize, upto)
    {
    }

    /** The first position of the chain that agrees is the latest one that does. */
    lemma FirstIsLatest(text: seq<byte>, begin: nat, window: nat, initWinSize: nat, i: nat)
      requires Holds(text, initWinSize, window, begin) && begin + MIN_DUPLICATE_SIZE <= |text|
      requires window == WindowStart(begin, windowSize)
      requires var chain := buckets[Bucket(text, begin)];
        && i < |chain| && chain[i] >= window && SameText(text, chain[i], begin, MIN_DUPLICATE_SIZE)
        && forall k :: 0 <= k < i ==> !SameText(text, chain[k], begin, MIN_DUPLICATE_SIZE)
      ensures Latest(text, initWinSize, window, begin, buckets[Bucket(text, begin)][i])
    {
      var chain := buckets[Bucket(text, begin)];
      ChainListed(text, begin, window, initWinSize, i);
      forall p | chain[i] < p && Due(text, initWinSize, window, begin, p)
        ensures !SameText(text, p, begin, MIN_DUPLICATE_SIZE)
      {
        if SameText(text, p, begin, MIN_DUPLICATE_SIZE) {
          assert Bucket(text, p) == Bucket(text, begin);
          var k := ListedChain(text, begin, window, initWinSize, p);
        }
      }
    }

    /** The search along the chain finds the best match. */
    lemma FoundBest(text: seq<byte>, begin: nat, window: nat, initWinSize: nat, i: nat, at: nat, size: nat)
      requires Holds(text, initWinSize, window, begin) && begin + MIN_DUPLICATE_SIZE <= |text|
      requires window == WindowStart(begin, windowSize)
      requires var chain := buckets[Bucket(text, begin)];
        && i <= at < |chain| && at < i + MAX_CHAIN_LENGTH && Latest(text, initWinSize, window, begin, chain[i])
        && IsMatch(text, chain[at], begin, |text|, window, size)
        && Unbeaten(chain, i, i + MAX_CHAIN_LENGTH, text, begin, |text|, window, size)
        && Shorter(chain, i, at, text, begin, |text|, size)
      ensures var chain := buckets[Bucket(text, begin)];
        BestFrom(Settings(), text, initWinSize, begin, chain[i], chain[at], size)
    {
      hide Beats, SameText, Holds, Listed, Between, Due;
      var chain := buckets[Bucket(text, begin)];
      ChainsOf(text, initWinSize, window, begin);
      ChainBounds(text, initWinSize, begin, Bucket(text, begin));
      ChainListed(text, begin, window, initWinSize, at);
      ChainBetween(text, begin, window, initWinSize, i, at);
      forall p: nat | Searched(Settings(), text, initWinSize, begin, chain[i], p)
        ensures !Beats(text, p, begin, |text|, size)
        ensures p > chain[at] && begin + size < |text| ==> !SameText(text, p, begin, size)
      {
        var k := ListedChain(text, begin, window, initWinSize, p);
        ListedInWindow(text, begin, initWinSize, p);
        ChainBetween(text, begin, window, initWinSize, i, k);
      }
    }

    lemma ListedInWindow(text: seq<byte>, begin: nat, initWinSize: nat, p: nat)
      requires Listed(Settings(), text, initWinSize, begin, p)
      ensures p >= WindowStart(begin, windowSize)
    {
    }

    /** The first position in the chain with the same four bytes, or the first one before the window. */
    method FindFirst(text: seq<byte>, begin: nat, window: nat, chain: seq<nat>) returns (i: nat)
      requires begin + MIN_DUPLICATE_SIZE <= |text|
      requires forall k :: 0 <= k < |chain| ==> chain[k] + MIN_DUPLICATE_SIZE <= begin
      ensures i <= |chain| && forall k :: 0 <= k < i ==> !SameText(text, chain[k], begin, MIN_DUPLICATE_SIZE)
      ensures i < |chain| && chain[i] >= window ==> SameText(text, chain[i], begin, MIN_DUPLICATE_SIZE)
    {
      i := 0;
      while i < |chain| && chain[i] >= window
        && text[chain[i]..chain[i] + MIN_DUPLICATE_SIZE] != text[begin..begin + MIN_DUPLICATE_SIZE]
        invariant i <= |chain| && forall k :: 0 <= k < i ==> !SameText(text, chain[k], begin, MIN_DUPLICATE_SIZE)
      {
        i := i + 1;
      }
    }

    lemma NotInWindow(text: seq<byte>, begin: nat, window: nat, initWinSize: nat, i: nat, p: nat)
      requires Holds(text, initWinSize, window, begin) && begin + MIN_DUPLICATE_SIZE <= |text|
      requires var chain := buckets[Bucket(text, begin)];
        && i <= |chain| && (i < |chain| ==> chain[i] < window)
        && forall k :: 0 <= k < i ==> !SameText(text, chain[k], begin, MIN_DUPLICATE_SIZE)
      requires Due(text, initWinSize, window, begin, p)
      ensures !SameText(text, p, begin, MIN_DUPLICATE_SIZE)
    {
      assert p in buckets[Bucket(text, p)];
    }

    /** Search part of the chain for the longest match. */
    method SearchChain(text: seq<byte>, begin: nat, end: nat, window: nat, chain: seq<nat>, first: nat)
      returns (data: nat, longest: nat, ghost at: nat)
      requires begin + MIN_DUPLICATE_SIZE <= end <= |text| && first < |chain| && chain[first] >= window
      requires forall k :: 0 <= k < |chain| ==> chain[k] + MIN_DUPLICATE_SIZE <= begin
      requires forall j, k :: 0 <= j < k < |chain| ==> chain[j] > chain[k]
      requires SameText(text, chain[first], begin, MIN_DUPLICATE_SIZE)
      ensures IsMatch(text, data, begin, end, window, longest)
      ensures Unbeaten(chain, first, first + MAX_CHAIN_LENGTH, text, begin, end, window, longest)
      ensures first <= at < |chain| && at < first + MAX_CHAIN_LENGTH && chain[at] == data
      ensures Shorter(chain, first, at, text, begin, end, longest)
    {
      hide SameText;
      longest, data, at := MIN_DUPLICATE_SIZE, chain[first], first;
      if begin + longest < end {
        var chainLen, j := MAX_CHAIN_LENGTH, first;
        while j < |chain| && chain[j] >= window && chainLen > 0
          invariant first <= j <= |chain| && j + chainLen == first + MAX_CHAIN_LENGTH
          invariant window <= data < begin && MIN_DUPLICATE_SIZE <= longest && begin + longest <= end
          invariant SameText(text, data, begin, longest)
          invariant first <= at < |chain| && chain[at] == data && (at < j || j == first == at)
          invariant j > first ==> !Beats(text, data, begin, end, longest)
          invariant Unbeaten(chain, first, j, text, begin, end, window, longest)
          invariant Shorter(chain, first, at, text, begin, end, longest)
        {
          var p := chain[j];
          var before := longest;
          data, longest := Try(text, p, begin, end, longest, data);
          StillUnbeaten(chain, first, j, text, begin, end, window, before, longest);
          if data == p && at < j {
            NowShorter(chain, first, j, text, begin, end, window, before, longest);
            at := j;
          }
          chainLen, j := chainLen - 1, j + 1;
        }
      }
    }

    /** Take the candidate if it gives a longer match. */
    method Try(text: seq<byte>, p: nat, begin: nat, end: nat, n: nat, best: nat) returns (data: nat, longest: nat)
      requires MIN_DUPLICATE_SIZE <= n && p < begin && best < begin && begin + n <= end <= |text|
      requires SameText(text, best, begin, n) && (p == best || !Beats(text, best, begin, end, n))
      ensures (data == best && longest == n) || (data == p && (longest > n || begin + n == end))
      ensures n <= longest && begin + longest <= end && SameText(text, data, begin, longest)
      ensures !Beats(text, data, begin, end, longest) && !Beats(text, p, begin, end, longest)
    {
      hide SameText, Beats;
      CandidateOrNot(text, p, begin, end, n);
      data, longest := best, n;
      if Candidate(text, p, begin, end, n) {
        data := p;
        if begin + n < end {
          SameLonger(text, p, begin, n);
        }
        longest := Extend(text, p, begin, end, n);
        OneMore(text, p, begin, end, n, longest);
      }
    }

    lemma OneMore(text: seq<byte>, p: nat, begin: nat, end: nat, n: nat, longest: nat)
      requires begin + n < end ==> SameText(text, p, begin, n + 1)
      requires n <= longest && begin + longest <= end && !Beats(text, p, begin, end, longest)
      ensures longest > n || begin + n == end
    {
    }

    /** A candidate taken agrees for longer than those in front of it. */
    lemma NowShorter(chain: seq<nat>, first: nat, j: nat, text: seq<byte>, begin: nat, end: nat, window: nat, m: nat, n: nat)
      requires j < |chain| && chain[j] >= window && Unbeaten(chain, first, j, text, begin, end, window, m)
      requires forall i, k :: 0 <= i < k < |chain| ==> chain[i] > chain[k]
      requires n > m || begin + m == end == begin + n
      ensures Shorter(chain, first, j, text, begin, end, n)
    {
      if begin + n < end {
        forall k | first <= k < j
          ensures !SameText(text, chain[k], begin, n)
        {
          assert !Beats(text, chain[k], begin, end, m);
          if SameText(text, chain[k], begin, n) {
            SameShorter(text, chain[k], begin, m + 1, n);
          }
        }
      }
    }

    lemma StillUnbeaten(chain: seq<nat>, first: nat, j: nat, text: seq<byte>, begin: nat, end: nat,
      window: nat, m: nat, n: nat)
      requires m <= n && j < |chain| && Unbeaten(chain, first, j, text, begin, end, window, m)
      requires !Beats(text, chain[j], begin, end, n)
      ensures Unbeaten(chain, first, j + 1, text, begin, end, window, n)
    {
      forall k | first <= k < j + 1 && chain[k] >= window
        ensures !Beats(text, chain[k], begin, end, n)
      {
        if k < j && Beats(text, chain[k], begin, end, n) {
          SameShorter(text, chain[k], begin, m + 1, n + 1);
        }
      }
    }

    /** Compress what follows the first initWinSize bytes of the text, which the decoder already has. */
    method Compress(text: seq<byte>, initWinSize: nat, dest: array<byte>) returns (destSize: nat, ghost ts: seq<Token>)
      requires buckets.Length > 0 && initWinSize <= |text| < TEXT_LIMIT
      requires 8 * dest.Length >= 9 * (|text| - initWinSize) + 64
      modifies buckets, dest
      ensures Covers(text, ts, initWinSize, |text|) && Reaches(ts, windowSize)
      ensures destSize == (|TokensBits(ts)| + 7) / 8 <= dest.Length && |TokensBits(ts)| <= 9 * (|text| - initWinSize)
      ensures TokensBits(ts) <= BitsOf(dest[..destSize])
      ensures Turns(Settings(), text, initWinSize, ts, initWinSize, |text|)
    {
      hide BitsOf, ToBits, TokenBits, LittleEndian, Covers, Holds, Kind, Turn, Turns;
      SetupWithInitWindow(text, initWinSize);
      HoldsLater(text, initWinSize, 0, WindowStart(initWinSize, windowSize), initWinSize);
      var bs := new OutputBitStream(dest, dest.Length * 8);
      var windowEnd := initWinSize;
      ts := [];
      ghost var done := windowEnd;
      assert Covers(text, ts, initWinSize, done) by { NothingCovered(text, initWinSize); }
      NoTurns(Settings(), text, initWinSize);
      while windowEnd < |text|
        invariant initWinSize <= windowEnd == done <= |text|
        invariant bs.Valid() && bs.Bits() == TokensBits(ts) && |TokensBits(ts)| <= 9 * (done - initWinSize)
        invariant Covers(text, ts, initWinSize, done) && Reaches(ts, windowSize)
        invariant Turns(Settings(), text, initWinSize, ts, initWinSize, done)
        invariant Holds(text, initWinSize, WindowStart(windowEnd, windowSize), windowEnd)
        decreases |text| - windowEnd
      {
        var window := WindowStart(windowEnd, windowSize);
        var size;
        ghost var step;
        size, step := EmitNext(bs, text, windowEnd, window, initWinSize, ts);
        NextTurn(Settings(), text, initWinSize, ts, initWinSize, windowEnd, windowEnd + size, step);
        ts := ts + step;
        done := done + size;
        if windowEnd + size >= |text| {
          break;
        }
        AddRefs(text, windowEnd, size, window, initWinSize);
        windowEnd := windowEnd + size;
      }
      destSize := (bs.pos + 7) / 8;
      WholeBytes(dest[..], bs.pos, destSize);
    }

    lemma HoldsLater(text: seq<byte>, initWinSize: nat, window: nat, later: nat, upto: nat)
      requires Holds(text, initWinSize, window, upto) && window <= later
      ensures Holds(text, initWinSize, later, upto)
    {
      forall p | Due(text, initWinSize, later, upto, p)
        ensures p in buckets[Bucket(text, p)]
      {
        assert Due(text, initWinSize, window, upto, p);
      }
    }

    /** File the positions that the next size bytes make complete. */
    method AddRefs(text: seq<byte>, windowEnd: nat, size: nat, window: nat, ghost initWinSize: nat)
      requires initWinSize <= windowEnd && windowEnd + size <= |text| && window == WindowStart(windowEnd, windowSize)
      requires Holds(text, initWinSize, window, windowEnd)
      modifies buckets
      ensures Holds(text, initWinSize, WindowStart(windowEnd + size, windowSize), windowEnd + size)
    {
      for i := 0 to size
        invariant Holds(text, initWinSize, window, windowEnd + i)
      {
        AddRef(text, windowEnd + i + 1 - MIN_DUPLICATE_SIZE, window, initWinSize);
      }
    }

    /** One turn of the compression: a literal or a match. */
    method EmitNext(bs: OutputBitStream, text: seq<byte>, windowEnd: nat, window: nat, ghost initWinSize: nat,
      ghost ts: seq<Token>)
      returns (size: nat, ghost step: seq<Token>)
      requires bs.Valid() && bs.Bits() == TokensBits(ts) && |TokensBits(ts)| <= 9 * (windowEnd - initWinSize)
      requires initWinSize <= windowEnd < |text| < TEXT_LIMIT && window == WindowStart(windowEnd, windowSize)
      requires bs.bitCount == 8 * bs.buf.Length >= 9 * (|text| - initWinSize) + 64
      requires Holds(text, initWinSize, window, windowEnd)
      requires Covers(text, ts, initWinSize, windowEnd) && Reaches(ts, windowSize)
      modifies bs, bs.buf
      ensures bs.Valid() && bs.Bits() == TokensBits(ts + step)
      ensures 0 < size && windowEnd + size <= |text|
      ensures Turn(Settings(), text, initWinSize, windowEnd, windowEnd + size, step)
      ensures |TokensBits(ts + step)| <= 9 * (windowEnd + size - initWinSize)
      ensures Covers(text, ts + step, initWinSize, windowEnd + size) && Reaches(ts + step, windowSize)
    {
      hide BitsOf, ToBits, TokenBits, LittleEndian, Covers, Holds, Kind, Beats, BestMatch, NoneAgrees, Written;
      var m, n := FindLongestMatch(text, windowEnd, |text|, window, initWinSize);
      size := n;
      if m.NoMatch? {
        var t := Literal(text[windowEnd]);
        WriteLiteral(bs, text[windowEnd]);
        OneToken(t);
        TokenCost(t);
        CoversOne(text, t, windowEnd);
        step := [t];
      } else {
        MatchFits(Settings(), text, initWinSize, windowEnd, m.data, size);
        step := WriteRef(bs, windowEnd - m.data, size, text, windowEnd);
        assert TakesMatch(Settings(), text, initWinSize, windowEnd, windowEnd + size, m.data, step);
      }
      TokensConcat(ts, step);
      CoversConcat(text, ts, step, initWinSize, windowEnd, windowEnd + size);
    }
  }

  lemma MatchFits(s: Search, text: seq<byte>, initWinSize: nat, at: nat, data: nat, size: nat)
    requires BestMatch(s, text, initWinSize, at, data, size)
    ensures WindowStart(at, s.windowSize) <= data < at && MIN_DUPLICATE_SIZE <= size && at + size <= |text|
    ensures FitsAt(text, Reference(at - data, size), at)
  {
    hide Latest, Searched, Wins, Beats;
  }

  lemma NoTurns(s: Search, text: seq<byte>, at: nat)
    ensures Turns(s, text, at, [], at, at)
  {
  }

  /** As many members as places. */
  lemma {:induction false} DistinctSize(s: seq<nat>, all: set<nat>)
    requires forall i, j :: 0 <= i < j < |s| ==> s[i] > s[j]
    requires forall q :: q in all <==> q in s
    ensures |all| == |s|
  {
    if s == [] {
      assert all == {};
    } else {
      var rest := all - {s[0]};
      forall q
        ensures q in rest <==> q in s[1..]
      {
        if q in s[1..] {
          var j :| 0 <= j < |s| - 1 && s[1..][j] == q;
          assert s[j + 1] == q;
        }
        if q in rest {
          var j :| 0 <= j < |s| && s[j] == q;
          assert s[1..][j - 1] == q;
        }
      }
      DistinctSize(s[1..], rest);
    }
  }

  lemma NothingCovered(text: seq<byte>, at: nat)
    ensures Covers(text, [], at, at)
  {
  }

  // ---- Decompression of a chunk -----------------------------------------------------------

  /** Undo the compression behind the window that is already in dest. Reads may touch a few bytes after
      the payload; memory is the payload followed by at least eight bytes of any content. */
  method UncompressChunk(memory: seq<byte>, chunkSize: nat, dest: array<byte>, initWinSize: nat,
    ghost text: seq<byte>, ghost ts: seq<Token>)
    requires chunkSize + 8 <= |memory| && initWinSize <= dest.Length == |text| < TEXT_LIMIT
    requires Covers(text, ts, initWinSize, |text|) && dest[..initWinSize] == text[..initWinSize]
    requires TokensBits(ts) <= BitsOf(memory)[..8 * chunkSize]
    modifies dest
    ensures dest[..] == text
  {
    hide BitsOf, ToBits, TokenBits, FitsAt, Covers, InputBitStream.Valid;
    var windowEnd := initWinSize;
    var bs := new InputBitStream(memory, chunkSize * 8);
    ghost var left := ts;
    ghost var pad := bs.Rest()[|TokensBits(ts)|..];
    while windowEnd < dest.Length
      invariant windowEnd <= dest.Length && dest[..windowEnd] == text[..windowEnd]
      invariant Covers(text, left, windowEnd, |text|) && bs.Valid() && bs.Rest() == TokensBits(left) + pad
      decreases dest.Length - windowEnd
    {
      CoversBound(text, left, windowEnd, |text|);
      assert bs.Rest() == TokenBits(left[0]) + (TokensBits(left[1..]) + pad);
      var size := ReadLiteralOrRef(bs, dest, windowEnd, text, left[0], TokensBits(left[1..]) + pad);
      left := left[1..];
      windowEnd := windowEnd + size;
    }
    assert dest[..windowEnd] == dest[..];
  }
}
