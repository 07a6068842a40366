/** LZW compression of one chunk: the encoder's hashed dictionary, the decoder's table that lags it
    by one entry, and the variable-width codes between them. */
module Lzw {
  import opened Numerals
  import opened BitStream
  import opened BitFields
  import opened SelfCopy

  // ---- Codes ------------------------------------------------------------------------------

  /** The number of bits a code is written in. */
  ghost function Width(code: nat): nat {
    if code < 0x100 then 8 else if code < 0x1_0000 then 16 else if code < 0x100_0000 then 24 else 32
  }

  /** It is the least of the four widths that hold the code. */
  lemma WidthNarrowest(code: nat, w: nat)
    requires code < Pow(2, w) && (w == 8 || w == 16 || w == 24 || w == 32)
    ensures Width(code) <= w && (Width(code) < 32 ==> code < Pow(2, Width(code)))
  {
    Widths();
    hide Pow;
  }

  lemma Widths()
    ensures Pow(2, 8) == 0x100 && Pow(2, 16) == 0x1_0000 && Pow(2, 24) == 0x100_0000
  {
    assert Pow(2, 4) == 16;
    PowAdd(2, 4, 4);
    PowAdd(2, 8, 8);
    PowAdd(2, 16, 8);
  }

  /** A clear flag for every width that is too small, and a set one for the width that fits; 32 bits
      follow three clear flags. */
  ghost function Flags(w: nat): seq<bool> {
    if w == 8 then [true] else if w == 16 then [false, true] else if w == 24 then [false, false, true] else [false, false, false]
  }

  ghost function CodeBits(code: nat): seq<bool> {
    Flags(Width(code)) + ToBits(code, Width(code))
  }

  ghost function CodesBits(codes: seq<nat>): seq<bool> {
    if codes == [] then [] else CodeBits(codes[0]) + CodesBits(codes[1..])
  }

  lemma {:induction false} CodesSnoc(codes: seq<nat>, c: nat)
    ensures CodesBits(codes + [c]) == CodesBits(codes) + CodeBits(c)
  {
    if codes == [] {
      assert [] + [c] == [c] && [c][1..] == [];
    } else {
      assert (codes + [c])[1..] == codes[1..] + [c];
      CodesSnoc(codes[1..], c);
    }
  }

  /** Write one code. The stream needs slack for the word that is touched last. */
  method WriteCode(bs: OutputBitStream, code: nat)
    requires bs.Valid() && code < CODE_LIMIT && bs.bitCount == 8 * bs.buf.Length
    requires bs.pos + |CodeBits(code)| + 64 <= bs.bitCount
    modifies bs, bs.buf
    ensures bs.Valid() && bs.Bits() == old(bs.Bits()) + CodeBits(code)
  {
    hide ToBits, LittleEndian, Pow;
    ghost var start, w := bs.Bits(), Width(code);
    if code < 0x100 {
      bs.WriteBool(true);
      bs.WriteByte(code);
    } else {
      bs.WriteBool(false);
      if code < 0x1_0000 {
        bs.WriteBool(true);
        WriteWide(bs, code, 16);
      } else {
        bs.WriteBool(false);
        WriteLong(bs, code, w);
      }
    }
    assert bs.Bits() == start + Flags(w) + ToBits(code, w);
  }

  /** The last flag of a long code and the code. */
  method WriteLong(bs: OutputBitStream, code: nat, ghost w: nat)
    requires bs.Valid() && 0x1_0000 <= code < CODE_LIMIT && bs.bitCount == 8 * bs.buf.Length
    requires w == Width(code) && bs.pos + 1 + w + 64 <= bs.bitCount
    modifies bs, bs.buf
    ensures bs.Valid() && bs.Bits() == old(bs.Bits()) + [w == 24] + ToBits(code, w)
  {
    hide ToBits;
    if code < 0x100_0000 {
      bs.WriteBool(true);
      WriteSplit(bs, code);
    } else {
      bs.WriteBool(false);
      WriteWide(bs, code, 32);
    }
  }

  /** Read one code back. */
  method ReadCode(bs: InputBitStream, ghost code: nat, ghost rest: seq<bool>) returns (c: nat)
    requires bs.Valid() && code < CODE_LIMIT && bs.Rest() == CodeBits(code) + rest
    requires bs.bitCount + 64 <= 8 * |bs.buf|
    modifies bs
    ensures bs.Valid() && c == code && bs.Rest() == rest
  {
    ghost var w := Width(code);
    ghost var tail := ToBits(code, w) + rest;
    assert bs.Rest() == Flags(w) + tail;
    assert bs.Rest()[0] == (w == 8);
    var short := bs.ReadBool();
    if short {
      assert bs.Rest() == tail;
      c := ReadPlain(bs, 8, code, rest);
    } else {
      assert bs.Rest() == Flags(w)[1..] + tail;
      assert bs.Rest()[0] == (w == 16);
      var middle := bs.ReadBool();
      if middle {
        assert bs.Rest() == tail;
        c := ReadPlain(bs, 16, code, rest);
      } else {
        assert bs.Rest() == [w == 24] + tail;
        c := ReadLong(bs, code, w, rest);
      }
    }
  }

  /** The last flag of a long code and the code. */
  method ReadLong(bs: InputBitStream, ghost code: nat, ghost w: nat, ghost rest: seq<bool>) returns (c: nat)
    requires bs.Valid() && 0x1_0000 <= code < CODE_LIMIT && w == Width(code)
    requires bs.Rest() == [w == 24] + (ToBits(code, w) + rest)
    requires bs.bitCount + 64 <= 8 * |bs.buf|
    modifies bs
    ensures bs.Valid() && c == code && bs.Rest() == rest
  {
    ghost var tail := ToBits(code, w) + rest;
    assert bs.Rest()[0] == (w == 24);
    var split := bs.ReadBool();
    assert bs.Rest() == tail;
    if split {
      c := ReadSplit(bs, code, rest);
    } else {
      c := ReadPlain(bs, 32, code, rest);
    }
  }

  // ---- What a code sequence says about a chunk --------------------------------------------

  /** The text of entry j: phrase j and the byte after it. */
  ghost function EntryText(chunk: seq<byte>, starts: seq<nat>, j: nat): seq<byte>
    requires j + 1 < |starts| && starts[j] < starts[j + 1] < |chunk|
  {
    chunk[starts[j]..starts[j + 1] + 1]
  }

  /** The phrase boundaries: strictly increasing from 0. */
  ghost predicate Boundaries(chunk: seq<byte>, starts: seq<nat>) {
    && starts != [] && starts[0] == 0 && starts[|starts| - 1] <= |chunk|
    && forall i, j :: 0 <= i < j < |starts| ==> starts[i] < starts[j]
  }

  /** Code k names its phrase: a byte, or an entry made before the phrase began. */
  ghost predicate NamesPhrase(chunk: seq<byte>, starts: seq<nat>, code: nat, k: nat)
    requires Boundaries(chunk, starts) && k + 1 < |starts|
  {
    && code < 256 + k
    && (if code < 256 then chunk[starts[k]..starts[k + 1]] == [code]
        else EntryText(chunk, starts, code - 256) == chunk[starts[k]..starts[k + 1]])
  }

  ghost predicate Parsed(chunk: seq<byte>, starts: seq<nat>, codes: seq<nat>) {
    && Boundaries(chunk, starts) && |starts| == |codes| + 1
    && forall k :: 0 <= k < |codes| ==> NamesPhrase(chunk, starts, codes[k], k)
  }

  /** No phrase could have been longer: with its next byte it is not an entry made before. */
  ghost predicate Greedy(chunk: seq<byte>, starts: seq<nat>)
    requires Boundaries(chunk, starts)
  {
    forall j, k :: 0 <= j < k < |starts| - 1 && starts[k + 1] < |chunk| ==>
      EntryText(chunk, starts, j) != EntryText(chunk, starts, k)
  }

  ghost predicate Complete(chunk: seq<byte>, starts: seq<nat>, codes: seq<nat>) {
    Parsed(chunk, starts, codes) && Greedy(chunk, starts) && starts[|codes|] == |chunk|
  }

  /** The code names the text chunk[from..to], with the phrases in starts finished. */
  ghost predicate Names(chunk: seq<byte>, starts: seq<nat>, code: nat, from: nat, to: nat)
    requires Boundaries(chunk, starts)
  {
    && from < to <= |chunk| && code < 256 + |starts| - 1 && starts[|starts| - 1] < |chunk|
    && (if code < 256 then chunk[from..to] == [code] else EntryText(chunk, starts, code - 256) == chunk[from..to])
  }

  /** No finished phrase with its next byte is the text chunk[from..to]. */
  ghost predicate NoEntry(chunk: seq<byte>, starts: seq<nat>, from: nat, to: nat)
    requires Boundaries(chunk, starts) && starts[|starts| - 1] < |chunk| && from <= to <= |chunk|
  {
    forall j :: 0 <= j < |starts| - 1 ==> EntryText(chunk, starts, j) != chunk[from..to]
  }

  lemma ParsedBounds(chunk: seq<byte>, starts: seq<nat>, codes: seq<nat>)
    requires Parsed(chunk, starts, codes)
    ensures Boundaries(chunk, starts) && |starts| == |codes| + 1
  {
  }

  lemma NothingParsed(chunk: seq<byte>)
    ensures Parsed(chunk, [0], []) && Greedy(chunk, [0]) && CodesBits([]) == []
  {
  }

  /** Taking the next phrase, as long as possible, keeps a parse a greedy parse. */
  lemma NextPhrase(chunk: seq<byte>, starts: seq<nat>, codes: seq<nat>, code: nat, to: nat)
    requires Parsed(chunk, starts, codes) && Greedy(chunk, starts)
    requires Names(chunk, starts, code, starts[|codes|], to)
    requires to < |chunk| ==> NoEntry(chunk, starts, starts[|codes|], to + 1)
    ensures Parsed(chunk, starts + [to], codes + [code]) && Greedy(chunk, starts + [to])
  {
    NextBoundary(chunk, starts, to);
    NextNames(chunk, starts, codes, code, to);
    NextGreedy(chunk, starts, to);
  }

  lemma NextBoundary(chunk: seq<byte>, starts: seq<nat>, to: nat)
    requires Boundaries(chunk, starts) && starts[|starts| - 1] < to <= |chunk|
    ensures Boundaries(chunk, starts + [to])
  {
    var n, starts' := |starts|, starts + [to];
    forall i, j | 0 <= i < j < |starts'|
      ensures starts'[i] < starts'[j]
    {
      if j == n && i < n - 1 {
        assert starts[i] < starts[n - 1];
      }
    }
  }

  lemma NextNames(chunk: seq<byte>, starts: seq<nat>, codes: seq<nat>, code: nat, to: nat)
    requires Parsed(chunk, starts, codes) && Boundaries(chunk, starts + [to])
    requires Names(chunk, starts, code, starts[|codes|], to)
    ensures Parsed(chunk, starts + [to], codes + [code])
  {
    var starts', codes' := starts + [to], codes + [code];
    forall k | 0 <= k < |codes'|
      ensures NamesPhrase(chunk, starts', codes'[k], k)
    {
      if k < |codes| {
        assert NamesPhrase(chunk, starts, codes[k], k);
      }
    }
  }

  lemma NextGreedy(chunk: seq<byte>, starts: seq<nat>, to: nat)
    requires Boundaries(chunk, starts) && Greedy(chunk, starts)
    requires starts[|starts| - 1] < to <= |chunk| && Boundaries(chunk, starts + [to])
    requires to < |chunk| ==> NoEntry(chunk, starts, starts[|starts| - 1], to + 1)
    ensures Greedy(chunk, starts + [to])
  {
    var n, starts' := |starts| - 1, starts + [to];
    forall j, k | 0 <= j < k < |starts'| - 1 && starts'[k + 1] < |chunk|
      ensures EntryText(chunk, starts', j) != EntryText(chunk, starts', k)
    {
      if k < n {
        assert EntryText(chunk, starts, j) != EntryText(chunk, starts, k);
      } else {
        assert EntryText(chunk, starts, j) != chunk[starts[n]..to + 1];
      }
    }
  }

  // ---- The size of the output -------------------------------------------------------------

  /** The phrases before this one have codes of at most 16 bits. */
  const EARLY: nat := 0x1_0000 - 256

  /** The most bits a parse may take: 9 a byte while no code needs more than 16 bits, at most 27 for two more
      bytes while none needs more than 24, else 18 a byte. */
  function Budget(n: nat): nat {
    if n <= EARLY then 9 * n
    else if n <= 0x100_0000 - 256 then 9 * EARLY + 27 * (n - EARLY) / 2
    else 18 * n
  }

  /** Exactly the codes that take more than ten bits for each byte of their phrase. */
  lemma CodeOver10(chunk: seq<byte>, starts: seq<nat>, codes: seq<nat>, k: nat)
    requires Parsed(chunk, starts, codes) && k < |codes| && codes[k] < CODE_LIMIT
    ensures var size := starts[k + 1] - starts[k];
      |CodeBits(codes[k])| > 10 * size <==>
        (size == 2 && codes[k] >= 0x1_0000) || (size == 3 && codes[k] >= 0x100_0000)
  {
    PhraseSize(chunk, starts, codes, k);
  }

  lemma PhraseSize(chunk: seq<byte>, starts: seq<nat>, codes: seq<nat>, k: nat)
    requires Parsed(chunk, starts, codes) && k < |codes|
    ensures codes[k] < 256 + k && starts[k] < starts[k + 1] <= |chunk|
    ensures if codes[k] < 256 then starts[k + 1] - starts[k] == 1 else starts[k + 1] - starts[k] >= 2
  {
    assert NamesPhrase(chunk, starts, codes[k], k);
    assert starts[k + 1] <= starts[|starts| - 1];
    if codes[k] >= 256 {
      var j := codes[k] - 256;
      assert starts[j] < starts[j + 1];
      assert |chunk[starts[k]..starts[k + 1]]| == |EntryText(chunk, starts, j)| >= 2;
    }
  }

  /** There are no more phrases than bytes. */
  lemma {:induction false} StartsGrow(chunk: seq<byte>, starts: seq<nat>, k: nat)
    requires Boundaries(chunk, starts) && k < |starts|
    ensures k <= starts[k]
  {
    if k > 0 {
      StartsGrow(chunk, starts, k - 1);
      assert starts[k - 1] < starts[k];
    }
  }

  lemma CodesBelow(chunk: seq<byte>, starts: seq<nat>, codes: seq<nat>)
    requires Parsed(chunk, starts, codes)
    ensures forall i :: 0 <= i < |codes| ==> codes[i] < 256 + |chunk|
  {
    forall i | 0 <= i < |codes|
      ensures codes[i] < 256 + |chunk|
    {
      assert NamesPhrase(chunk, starts, codes[i], i);
      StartsGrow(chunk, starts, i);
      assert starts[i] < starts[i + 1];
    }
  }

  lemma CodeCost(chunk: seq<byte>, starts: seq<nat>, codes: seq<nat>, k: nat)
    requires Parsed(chunk, starts, codes) && k < |codes| && codes[k] < CODE_LIMIT
    ensures var size := starts[k + 1] - starts[k];
      |CodeBits(codes[k])| <= 18 * size
      && (codes[k] < 0x100_0000 ==> 2 * |CodeBits(codes[k])| <= 27 * size)
      && (k < EARLY ==> |CodeBits(codes[k])| <= 9 * size)
  {
    PhraseSize(chunk, starts, codes, k);
  }

  /** What the first k codes take, at most. */
  lemma {:induction false} ParseCost(chunk: seq<byte>, starts: seq<nat>, codes: seq<nat>, k: nat)
    requires Parsed(chunk, starts, codes) && k <= |codes|
    requires forall i :: 0 <= i < |codes| ==> codes[i] < CODE_LIMIT
    ensures |CodesBits(codes[..k])| <= 18 * starts[k]
    ensures k <= EARLY ==> |CodesBits(codes[..k])| <= 9 * starts[k]
    ensures k > EARLY && (forall i :: 0 <= i < |codes| ==> codes[i] < 0x100_0000) ==>
      2 * |CodesBits(codes[..k])| <= 27 * starts[k] - 9 * EARLY
  {
    hide CodeBits, NamesPhrase;
    if k > 0 {
      ParseCost(chunk, starts, codes, k - 1);
      CodeCost(chunk, starts, codes, k - 1);
      StartsGrow(chunk, starts, k - 1);
      assert codes[..k] == codes[..k - 1] + [codes[k - 1]];
      CodesSnoc(codes[..k - 1], codes[k - 1]);
    }
  }

  lemma WithinBudget(chunk: seq<byte>, starts: seq<nat>, codes: seq<nat>)
    requires Parsed(chunk, starts, codes) && |chunk| < 0x8000_0000
    ensures |CodesBits(codes)| <= Budget(|chunk|)
  {
    hide CodesBits, NamesPhrase;
    var k := |codes|;
    CodesBelow(chunk, starts, codes);
    ParseCost(chunk, starts, codes, k);
    StartsGrow(chunk, starts, k);
    assert codes[..k] == codes && k <= starts[k] <= |chunk|;
  }

  // ---- The codes of a chunk ---------------------------------------------------------------

  /** The codes of the chunk's parse, of which there is only one, and 64 bits for the word touched last. */
  ghost predicate FitsIn(chunk: seq<byte>, bits: nat) {
    forall starts, codes :: Complete(chunk, starts, codes) ==> |CodesBits(codes)| + 64 <= bits
  }

  lemma BudgetFits(chunk: seq<byte>, bits: nat)
    requires |chunk| < 0x8000_0000 && Budget(|chunk|) + 64 <= bits
    ensures FitsIn(chunk, bits)
  {
    hide Budget, Parsed, Greedy;
    forall starts, codes | Complete(chunk, starts, codes)
      ensures |CodesBits(codes)| + 64 <= bits
    {
      WithinBudget(chunk, starts, codes);
    }
  }

  /** The longest text with a code from there on. */
  lemma {:induction false} LongestFrom(chunk: seq<byte>, starts: seq<nat>, from: nat, code: nat, to: nat)
    returns (longestCode: nat, end: nat)
    requires Boundaries(chunk, starts) && Names(chunk, starts, code, from, to)
    ensures Names(chunk, starts, longestCode, from, end)
    ensures end < |chunk| ==> NoEntry(chunk, starts, from, end + 1)
    decreases |chunk| - to
  {
    longestCode, end := code, to;
    if to < |chunk| && !NoEntry(chunk, starts, from, to + 1) {
      var j: nat :| j < |starts| - 1 && EntryText(chunk, starts, j) == chunk[from..to + 1];
      longestCode, end := LongestFrom(chunk, starts, from, 256 + j, to + 1);
    }
  }

  /** A greedy parse of a beginning goes on to the end of the chunk. */
  lemma {:induction false} CompleteFrom(chunk: seq<byte>, starts: seq<nat>, codes: seq<nat>)
    returns (ends: seq<nat>, rest: seq<nat>)
    requires Parsed(chunk, starts, codes) && Greedy(chunk, starts)
    ensures Complete(chunk, ends, codes + rest)
    decreases |chunk| - starts[|codes|]
  {
    hide NamesPhrase, Greedy, NoEntry, Names;
    var from := starts[|codes|];
    if from == |chunk| {
      ends, rest := starts, [];
      assert codes + [] == codes;
    } else {
      ByteNames(chunk, starts, from);
      var code, to := LongestFrom(chunk, starts, from, chunk[from], from + 1);
      NextPhrase(chunk, starts, codes, code, to);
      NamesForward(chunk, starts, code, from, to);
      ends, rest := CompleteFrom(chunk, starts + [to], codes + [code]);
      assert codes + [code] + rest == codes + ([code] + rest);
      rest := [code] + rest;
    }
  }

  lemma ByteNames(chunk: seq<byte>, starts: seq<nat>, from: nat)
    requires Boundaries(chunk, starts) && from == starts[|starts| - 1] < |chunk|
    ensures Names(chunk, starts, chunk[from], from, from + 1)
  {
  }

  lemma NamesForward(chunk: seq<byte>, starts: seq<nat>, code: nat, from: nat, to: nat)
    requires Boundaries(chunk, starts) && Names(chunk, starts, code, from, to)
    ensures from < to <= |chunk|
  {
  }

  lemma {:induction false} CodesConcat(codes: seq<nat>, more: seq<nat>)
    ensures CodesBits(codes + more) == CodesBits(codes) + CodesBits(more)
  {
    hide CodeBits;
    if codes == [] {
      assert [] + more == more;
    } else {
      assert (codes + more)[1..] == codes[1..] + more;
      CodesConcat(codes[1..], more);
    }
  }

  /** So the codes of a beginning fit where the codes of the chunk do. */
  lemma BeginningFits(chunk: seq<byte>, starts: seq<nat>, codes: seq<nat>, bits: nat)
    requires Parsed(chunk, starts, codes) && Greedy(chunk, starts) && FitsIn(chunk, bits)
    ensures |CodesBits(codes)| + 64 <= bits
  {
    hide Complete, CodesBits, Parsed, Greedy;
    var ends, rest := CompleteFrom(chunk, starts, codes);
    CodesConcat(codes, rest);
  }

  // ---- Compression ------------------------------------------------------------------------

  datatype Ref = Ref(data: nat, size: nat, code: nat, hash: nat)
  datatype Found = Nothing | Some(ref: Ref)

  /** The hash of a text, folded byte by byte. */
  ghost function HashOf(step: (nat, byte) -> nat, seed: nat, s: seq<byte>): nat {
    if s == [] then seed else step(HashOf(step, seed, s[..|s| - 1]), s[|s| - 1])
  }

  class ChunkCompressor {
    const buckets: array<seq<Ref>>
    const step: (nat, byte) -> nat
    const seed: nat

    constructor (bucketCount: nat, step: (nat, byte) -> nat, seed: nat)
      requires bucketCount > 0
      ensures fresh(buckets) && buckets.Length == bucketCount && Cleared()
    {
      buckets := new seq<Ref>[bucketCount](_ => []);
      this.step, this.seed := step, seed;
    }

    ghost predicate Cleared()
      reads buckets
    {
      buckets.Length > 0 && forall b :: 0 <= b < buckets.Length ==> buckets[b] == []
    }

    /** The reference to the entry made by phrase j. */
    ghost function EntryRef(chunk: seq<byte>, starts: seq<nat>, j: nat): Ref
      requires Boundaries(chunk, starts) && starts[|starts| - 1] < |chunk| && j < |starts| - 1
    {
      Ref(starts[j], starts[j + 1] + 1 - starts[j], 256 + j, HashOf(step, seed, EntryText(chunk, starts, j)))
    }

    ghost predicate IsEntry(chunk: seq<byte>, starts: seq<nat>, r: Ref)
      requires Boundaries(chunk, starts) && starts[|starts| - 1] < |chunk|
    {
      256 <= r.code < 256 + |starts| - 1 && r == EntryRef(chunk, starts, r.code - 256)
    }

    /** The buckets hold exactly the references to the entries of the finished phrases, each in the
        bucket of its hash. */
    ghost predicate Holds(chunk: seq<byte>, starts: seq<nat>)
      reads buckets
    {
      && buckets.Length > 0 && Boundaries(chunk, starts) && starts[|starts| - 1] < |chunk|
      && OnlyEntries(buckets[..], chunk, starts) && AllFiled(buckets[..], chunk, starts)
    }

    ghost predicate OnlyEntries(table: seq<seq<Ref>>, chunk: seq<byte>, starts: seq<nat>)
      requires Boundaries(chunk, starts) && starts[|starts| - 1] < |chunk|
    {
      forall b, i :: 0 <= b < |table| && 0 <= i < |table[b]| ==> IsEntry(chunk, starts, table[b][i])
    }

    ghost predicate AllFiled(table: seq<seq<Ref>>, chunk: seq<byte>, starts: seq<nat>)
      requires Boundaries(chunk, starts) && starts[|starts| - 1] < |chunk|
    {
      |table| > 0 && forall j :: 0 <= j < |starts| - 1 ==> Filed(table, EntryRef(chunk, starts, j))
    }

    ghost predicate Filed(table: seq<seq<Ref>>, r: Ref)
      requires |table| > 0
    {
      r in table[r.hash % |table|]
    }

    /** The first reference in the bucket's chain with the same text. */
    method Find(cur: Ref, chunk: seq<byte>, ghost starts: seq<nat>) returns (found: Found)
      requires Holds(chunk, starts)
      requires cur.data + cur.size <= |chunk| && cur.size > 0
      requires cur.hash == HashOf(step, seed, chunk[cur.data..cur.data + cur.size])
      ensures found.Some? ==> Names(chunk, starts, found.ref.code, cur.data, cur.data + cur.size)
      ensures found.Nothing? ==> NoEntry(chunk, starts, cur.data, cur.data + cur.size)
    {
      ghost var table, b := buckets[..], cur.hash % buckets.Length;
      var chain := buckets[cur.hash % buckets.Length];
      assert chain == table[b];
      hide HashOf, EntryText, EntryRef, IsEntry, NoEntry, Names, SameText, Boundaries, AllFiled;
      for i := 0 to |chain|
        invariant forall k :: 0 <= k < i ==> !SameText(chain[k], cur, chunk)
      {
        var p := chain[i];
        assert IsEntry(chunk, starts, table[b][i]);
        EntryInside(chunk, starts, p);
        if p.hash == cur.hash && p.size == cur.size && chunk[p.data..p.data + p.size] == chunk[cur.data..cur.data + cur.size] {
          EntryNames(chunk, starts, p, cur);
          return Some(p);
        }
        NotSame(p, cur, chunk);
      }
      NoneFound(table, cur, chunk, starts);
      return Nothing;
    }

    lemma EntryInside(chunk: seq<byte>, starts: seq<nat>, p: Ref)
      requires Boundaries(chunk, starts) && starts[|starts| - 1] < |chunk| && IsEntry(chunk, starts, p)
      ensures p.data + p.size <= |chunk|
    {
      hide HashOf;
    }

    lemma NotSame(p: Ref, cur: Ref, chunk: seq<byte>)
      requires p.data + p.size <= |chunk| && cur.data + cur.size <= |chunk|
      requires !(p.hash == cur.hash && p.size == cur.size && chunk[p.data..p.data + p.size] == chunk[cur.data..cur.data + cur.size])
      ensures !SameText(p, cur, chunk)
    {
    }

    /** A reference with the same text has a code that names it. */
    lemma EntryNames(chunk: seq<byte>, starts: seq<nat>, p: Ref, cur: Ref)
      requires Boundaries(chunk, starts) && starts[|starts| - 1] < |chunk| && IsEntry(chunk, starts, p)
      requires 0 < cur.size && cur.data + cur.size <= |chunk| && p.data + p.size <= |chunk|
      requires chunk[p.data..p.data + p.size] == chunk[cur.data..cur.data + cur.size]
      ensures Names(chunk, starts, p.code, cur.data, cur.data + cur.size)
    {
      hide HashOf;
    }

    /** If no reference of its chain has the text, none has it. */
    lemma NoneFound(table: seq<seq<Ref>>, cur: Ref, chunk: seq<byte>, starts: seq<nat>)
      requires Boundaries(chunk, starts) && starts[|starts| - 1] < |chunk| && AllFiled(table, chunk, starts)
      requires cur.data + cur.size <= |chunk| && cur.hash == HashOf(step, seed, chunk[cur.data..cur.data + cur.size])
      requires forall k :: 0 <= k < |table[cur.hash % |table|]| ==> !SameText(table[cur.hash % |table|][k], cur, chunk)
      ensures NoEntry(chunk, starts, cur.data, cur.data + cur.size)
    {
      hide HashOf;
      forall j | 0 <= j < |starts| - 1
        ensures EntryText(chunk, starts, j) != chunk[cur.data..cur.data + cur.size]
      {
        var r, chain := EntryRef(chunk, starts, j), table[cur.hash % |table|];
        assert Filed(table, r);
        assert r.hash == cur.hash ==> r in chain;
        assert r in chain ==> !SameText(r, cur, chunk);
      }
    }

    ghost predicate SameText(p: Ref, cur: Ref, chunk: seq<byte>) {
      && p.hash == cur.hash && p.size == cur.size && p.data + p.size <= |chunk| && cur.data + cur.size <= |chunk|
      && chunk[p.data..p.data + p.size] == chunk[cur.data..cur.data + cur.size]
    }

    /** One more byte of the chunk in the current reference. */
    function Extend(cur: Ref, chunk: seq<byte>): Ref
      requires cur.data + cur.size < |chunk|
    {
      cur.(size := cur.size + 1, hash := step(cur.hash, chunk[cur.data + cur.size]))
    }

    lemma ExtendHash(cur: Ref, chunk: seq<byte>)
      requires cur.data + cur.size < |chunk| && cur.hash == HashOf(step, seed, chunk[cur.data..cur.data + cur.size])
      ensures Extend(cur, chunk).hash == HashOf(step, seed, chunk[cur.data..cur.data + cur.size + 1])
    {
      var s := chunk[cur.data..cur.data + cur.size + 1];
      assert s[..|s| - 1] == chunk[cur.data..cur.data + cur.size];
    }

    /** The longest text from offset from on that has a code, and the reference to that text and the
        byte after it when there is one. */
    method TakePhrase(chunk: seq<byte>, from: nat, code: nat, ghost starts: seq<nat>)
      returns (to: nat, longestCode: nat, cur: Ref)
      requires Holds(chunk, starts) && from == starts[|starts| - 1] && code == 256 + |starts| - 1
      ensures Names(chunk, starts, longestCode, from, to)
      ensures to < |chunk| ==> NoEntry(chunk, starts, from, to + 1)
      ensures to < |chunk| ==> cur == Ref(from, to + 1 - from, code, HashOf(step, seed, chunk[from..to + 1]))
    {
      hide EntryText;
      longestCode := chunk[from];
      cur := Ref(from, 0, code, seed);
      assert chunk[from..from] == [];
      ExtendHash(cur, chunk);
      cur := Extend(cur, chunk);
      to := from + 1;
      assert chunk[from..to] == [longestCode];
      while to < |chunk|
        invariant from < to <= |chunk| && cur == Ref(from, to - from, code, HashOf(step, seed, chunk[from..to]))
        invariant Names(chunk, starts, longestCode, from, to)
      {
        ExtendHash(cur, chunk);
        cur := Extend(cur, chunk);
        var found := Find(cur, chunk, starts);
        if found.Nothing? {
          break;
        }
        longestCode := found.ref.code;
        to := to + 1;
      }
    }

    /** File a new reference in front of its chain. */
    method File(r: Ref, chunk: seq<byte>, ghost starts: seq<nat>, ghost to: nat)
      requires Holds(chunk, starts) && starts[|starts| - 1] < to < |chunk|
      requires Boundaries(chunk, starts + [to]) && r == EntryRef(chunk, starts + [to], |starts| - 1)
      modifies buckets
      ensures Holds(chunk, starts + [to])
    {
      var b := r.hash % buckets.Length;
      ghost var table := buckets[..];
      buckets[b] := [r] + buckets[b];
      assert buckets[..] == table[b := [r] + table[b]];
      hide EntryRef, Boundaries, HashOf, EntryText, OnlyEntries, AllFiled;
      EntriesStay(table, b, r, chunk, starts, to);
      FiledStay(table, b, r, chunk, starts, to);
    }

    lemma EntriesStay(table: seq<seq<Ref>>, b: nat, r: Ref, chunk: seq<byte>, starts: seq<nat>, to: nat)
      requires Boundaries(chunk, starts) && starts[|starts| - 1] < to < |chunk| && Boundaries(chunk, starts + [to])
      requires OnlyEntries(table, chunk, starts) && b < |table| && r == EntryRef(chunk, starts + [to], |starts| - 1)
      ensures OnlyEntries(table[b := [r] + table[b]], chunk, starts + [to])
    {
      hide EntryRef, HashOf, EntryText;
      var after := table[b := [r] + table[b]];
      NewCode(chunk, starts, to);
      forall c, i | 0 <= c < |after| && 0 <= i < |after[c]|
        ensures IsEntry(chunk, starts + [to], after[c][i])
      {
        if c != b || i > 0 {
          var e := table[c][if c == b then i - 1 else i];
          assert IsEntry(chunk, starts, e);
          EntryKept(chunk, starts, to, e.code - 256);
        }
      }
    }

    lemma FiledStay(table: seq<seq<Ref>>, b: nat, r: Ref, chunk: seq<byte>, starts: seq<nat>, to: nat)
      requires Boundaries(chunk, starts) && starts[|starts| - 1] < to < |chunk| && Boundaries(chunk, starts + [to])
      requires AllFiled(table, chunk, starts) && b < |table| && r == EntryRef(chunk, starts + [to], |starts| - 1)
      requires b == r.hash % |table|
      ensures AllFiled(table[b := [r] + table[b]], chunk, starts + [to])
    {
      hide EntryRef, HashOf, EntryText;
      var after := table[b := [r] + table[b]];
      forall j | 0 <= j < |starts|
        ensures Filed(after, EntryRef(chunk, starts + [to], j))
      {
        if j < |starts| - 1 {
          EntryKept(chunk, starts, to, j);
          assert Filed(table, EntryRef(chunk, starts, j));
        }
      }
    }

    lemma EntryKept(chunk: seq<byte>, starts: seq<nat>, to: nat, j: nat)
      requires Boundaries(chunk, starts) && Boundaries(chunk, starts + [to]) && to < |chunk|
      requires starts[|starts| - 1] < |chunk| && j < |starts| - 1
      ensures EntryRef(chunk, starts + [to], j) == EntryRef(chunk, starts, j)
    {
      hide HashOf;
    }

    lemma NewCode(chunk: seq<byte>, starts: seq<nat>, to: nat)
      requires Boundaries(chunk, starts + [to]) && to < |chunk| && starts != []
      ensures EntryRef(chunk, starts + [to], |starts| - 1).code == 256 + |starts| - 1
    {
      hide HashOf;
    }

    /** Compress a chunk. */
    method Compress(chunk: seq<byte>, dest: array<byte>)
      returns (size: nat, ghost starts: seq<nat>, ghost codes: seq<nat>)
      requires Cleared() && |chunk| < 0x8000_0000 && FitsIn(chunk, 8 * dest.Length)
      modifies buckets, dest
      ensures Cleared() && Complete(chunk, starts, codes)
      ensures size == (|CodesBits(codes)| + 7) / 8 <= dest.Length
      ensures CodesBits(codes) <= BitsOf(dest[..size])
    {
      hide CodesBits, Greedy, ToBits, BitsOf, LittleEndian, Parsed, Holds, NoEntry, FitsIn, HashOf;
      var bs := new OutputBitStream(dest, dest.Length * 8);
      var code: nat := 256;
      starts, codes := [0], [];
      NothingParsed(chunk);
      NothingHeld(chunk);
      var i: nat := 0;
      while i < |chunk|
        invariant Boundaries(chunk, starts) && |starts| == |codes| + 1 && i == starts[|codes|]
        invariant Parsed(chunk, starts, codes) && Greedy(chunk, starts)
        invariant i <= |chunk| && code == 256 + |codes| && buckets.Length > 0
        invariant i < |chunk| ==> Holds(chunk, starts)
        invariant bs.Valid() && bs.Bits() == CodesBits(codes)
        decreases |chunk| - i
      {
        var to, longestCode, cur := TakePhrase(chunk, i, code, starts);
        NextPhrase(chunk, starts, codes, longestCode, to);
        ParsedBounds(chunk, starts + [to], codes + [longestCode]);
        if to < |chunk| {
          File(cur, chunk, starts, to);
        }
        starts, codes := starts + [to], codes + [longestCode];
        Emit(bs, longestCode, chunk, starts, codes);
        code, i := code + 1, to;
      }
      Clear();
      size := (bs.pos + 7) / 8;
      BeginningFits(chunk, starts, codes, 8 * dest.Length);
      WholeBytes(dest[..], bs.pos, size);
    }

    lemma NothingHeld(chunk: seq<byte>)
      requires Cleared()
      ensures chunk != [] ==> Holds(chunk, [0])
    {
    }

    /** Write the last code of a parse. */
    method Emit(bs: OutputBitStream, code: nat, ghost chunk: seq<byte>, ghost starts: seq<nat>, ghost codes: seq<nat>)
      requires Parsed(chunk, starts, codes) && codes != [] && code == codes[|codes| - 1] && |chunk| < 0x8000_0000
      requires Greedy(chunk, starts) && bs.Valid() && bs.Bits() == CodesBits(codes[..|codes| - 1])
      requires bs.bitCount == 8 * bs.buf.Length && FitsIn(chunk, bs.bitCount)
      modifies bs, bs.buf
      ensures bs.Valid() && bs.Bits() == CodesBits(codes)
    {
      hide CodeBits, CodesBits, Parsed, Greedy, FitsIn, ToBits, LittleEndian;
      CodesBelow(chunk, starts, codes);
      BeginningFits(chunk, starts, codes, bs.bitCount);
      assert codes == codes[..|codes| - 1] + [code];
      CodesSnoc(codes[..|codes| - 1], code);
      WriteCode(bs, code);
    }

    method Clear()
      requires buckets.Length > 0
      modifies buckets
      ensures Cleared()
    {
      for b := 0 to buckets.Length
        invariant forall c :: 0 <= c < b ==> buckets[c] == []
      {
        buckets[b] := [];
      }
    }
  }

  // ---- Decompression ----------------------------------------------------------------------

  /** Where the decoder finds a text: one of the 256 constant bytes, or a slice of what it writes. */
  datatype Source = Byte(b: byte) | Slice(data: nat, size: nat)

  class ChunkUncompressor {
    var code2Ref: seq<Source>

    ghost predicate Valid()
      reads this
    {
      |code2Ref| >= 256 && forall b: byte :: code2Ref[b] == Byte(b)
    }

    constructor ()
      ensures Valid()
    {
      code2Ref := [];
      new;
      for b := 0 to 256
        invariant |code2Ref| == b && forall c: byte :: c < b ==> code2Ref[c] == Byte(c)
      {
        code2Ref := code2Ref + [Byte(b)];
      }
    }

    /** The table after k phrases: the entries of all of them, the last one still missing its last
        byte in the output. */
    ghost predicate Lags(starts: seq<nat>, k: nat)
      reads this
    {
      && Valid() && |code2Ref| == 256 + k && k < |starts|
      && forall j :: 0 <= j < k && starts[j] < starts[j + 1] ==>
           code2Ref[256 + j] == Slice(starts[j], starts[j + 1] + 1 - starts[j])
    }

    /** Decode one phrase behind what is already there. */
    method CopyPhrase(code: nat, i: nat, dest: array<byte>, ghost chunk: seq<byte>, ghost starts: seq<nat>,
      ghost k: nat) returns (size: nat)
      requires Boundaries(chunk, starts) && k + 1 < |starts| && Lags(starts, k) && NamesPhrase(chunk, starts, code, k)
      requires i == starts[k] && dest.Length == |chunk| && dest[..i] == chunk[..i]
      modifies dest
      ensures size == starts[k + 1] - starts[k] && i + size <= dest.Length
      ensures dest[..i + size] == chunk[..i + size]
    {
      assert starts[k] < starts[k + 1] <= |chunk| by {
        if k + 1 < |starts| - 1 {
          assert starts[k + 1] < starts[|starts| - 1];
        }
      }
      var prefix := code2Ref[code];
      match prefix
      case Byte(b) =>
        size := 1;
        assert chunk[i..starts[k + 1]] == [b];
        dest[i] := b;
        assert dest[..i + 1] == chunk[..i] + [b] == chunk[..i + 1];
      case Slice(data, n) =>
        ghost var j := code - 256;
        assert starts[j] < starts[j + 1];
        size := n;
        assert |EntryText(chunk, starts, j)| == n == |chunk[starts[k]..starts[k + 1]]|;
        assert code != |code2Ref| - 1 ==> data + n <= i by {
          if j + 1 < k {
            assert starts[j + 1] < starts[k];
          }
        }
        if code == |code2Ref| - 1 {
          CopyForward(dest, data, i, n, chunk);
        } else {
          CopyBlock(dest, data, i, n, chunk);
        }
    }

    /** Enter the phrase just decoded, which began at i, into the table. */
    method AddEntry(i: nat, size: nat, ghost chunk: seq<byte>, ghost starts: seq<nat>, ghost k: nat)
      requires Boundaries(chunk, starts) && k + 1 < |starts| && Lags(starts, k)
      requires i == starts[k] && size == starts[k + 1] - starts[k]
      modifies this
      ensures Lags(starts, k + 1)
    {
      code2Ref := code2Ref + [Slice(i, size + 1)];
    }

    /** Undo the compression of a chunk. Reads of 16 and 32 bits may touch a few bytes after the
        payload; memory is the payload followed by at least eight bytes of any content. */
    method Uncompress(memory: seq<byte>, chunkSize: nat, dest: array<byte>, ghost chunk: seq<byte>,
      ghost starts: seq<nat>, ghost codes: seq<nat>)
      requires Valid() && chunkSize + 8 <= |memory|
      requires Complete(chunk, starts, codes) && 0 < |chunk| < 0x8000_0000 && dest.Length == |chunk|
      requires CodesBits(codes) <= BitsOf(memory)[..8 * chunkSize]
      modifies this, dest
      ensures dest[..] == chunk && Valid()
    {
      hide CodesBits, ToBits, Complete;
      var bs := new InputBitStream(memory, chunkSize * 8);
      ghost var pad := bs.Rest()[|CodesBits(codes)|..];
      assert codes[0..] == codes;
      code2Ref := code2Ref[..256];
      DecodeAll(bs, dest, chunk, starts, codes, pad);
    }

    method DecodeAll(bs: InputBitStream, dest: array<byte>, ghost chunk: seq<byte>, ghost starts: seq<nat>,
      ghost codes: seq<nat>, ghost pad: seq<bool>)
      requires Valid() && |code2Ref| == 256 && bs.Valid() && bs.bitCount + 64 <= 8 * |bs.buf|
      requires Complete(chunk, starts, codes) && 0 < |chunk| < 0x8000_0000 && dest.Length == |chunk|
      requires bs.Rest() == CodesBits(codes[0..]) + pad
      modifies this, dest, bs
      ensures dest[..] == chunk && Valid()
    {
      hide CodesBits, ToBits, BitsOf, Greedy, NamesPhrase, InputBitStream.Rest, InputBitStream.Valid;
      NotDone(chunk, starts, codes, 0);
      var code := NextCode(bs, codes, 0, pad);
      var i: nat := 0;
      ghost var k: nat := 0;
      while i < dest.Length
        invariant k <= |codes| && i == starts[k] && dest[..i] == chunk[..i]
        invariant i < dest.Length ==> k < |codes| && code == codes[k] && Lags(starts, k)
        invariant i < dest.Length ==> bs.Valid() && bs.Rest() == CodesBits(codes[k + 1..]) + pad
        invariant Valid()
        decreases dest.Length - i
      {
        NotDone(chunk, starts, codes, k);
        var size := CopyPhrase(code, i, dest, chunk, starts, k);
        i := i + size;
        if i < dest.Length {
          NotDone(chunk, starts, codes, k + 1);
          code := NextCode(bs, codes, k + 1, pad);
          AddEntry(i - size, size, chunk, starts, k);
        }
        k := k + 1;
      }
    }
  }

  /** While bytes are missing there is a next code. */
  lemma NotDone(chunk: seq<byte>, starts: seq<nat>, codes: seq<nat>, k: nat)
    requires Complete(chunk, starts, codes) && k <= |codes| && starts[k] < |chunk| < 0x8000_0000
    ensures k < |codes| && codes[k] < CODE_LIMIT && NamesPhrase(chunk, starts, codes[k], k)
  {
    CodesBelow(chunk, starts, codes);
  }

  method NextCode(bs: InputBitStream, ghost codes: seq<nat>, ghost k: nat, ghost pad: seq<bool>) returns (code: nat)
    requires bs.Valid() && k < |codes| && bs.Rest() == CodesBits(codes[k..]) + pad
    requires codes[k] < CODE_LIMIT && bs.bitCount + 64 <= 8 * |bs.buf|
    modifies bs
    ensures bs.Valid() && code == codes[k] && bs.Rest() == CodesBits(codes[k + 1..]) + pad
  {
    assert codes[k..][1..] == codes[k + 1..];
    assert bs.Rest() == CodeBits(codes[k]) + (CodesBits(codes[k + 1..]) + pad);
    code := ReadCode(bs, codes[k], CodesBits(codes[k + 1..]) + pad);
  }

  /** Compressing a chunk and decompressing the result gives the chunk back, for every hash. */
  method RoundTrip(chunk: seq<byte>, buckets: nat, step: (nat, byte) -> nat, seed: nat, slack: seq<byte>)
    returns (out: seq<byte>)
    requires 0 < |chunk| < 0x8000_0000 && buckets > 0 && |slack| >= 8
    ensures out == chunk
  {
    var c := new ChunkCompressor(buckets, step, seed);
    var dest := new byte[Budget(|chunk|) / 8 + 9];
    BudgetFits(chunk, 8 * dest.Length);
    var size, starts, codes := c.Compress(chunk, dest);
    var u := new ChunkUncompressor();
    var back := new byte[|chunk|];
    BitsOfConcat(dest[..size], slack);
    u.Uncompress(dest[..size] + slack, size, back, chunk, starts, codes);
    out := back[..];
  }
}
