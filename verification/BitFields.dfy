/** Numbers of 8, 16, 24 and 32 bits in the bit streams, as the codes and references of the compressors
    use them. */
module BitFields {
  import opened Numerals
  import opened BitStream

  const CODE_LIMIT: nat := 0x1_0000_0000

  lemma Widths()
    ensures Pow(2, 8) == 0x100 && Pow(2, 16) == 0x1_0000 && Pow(2, 32) == CODE_LIMIT
  {
    Pow256(1);
    PowAdd(2, 8, 8);
    PowAdd(2, 16, 16);
  }

  /** Write 16 or 32 bits. The stream needs room for the word that is touched last. */
  method WriteWide(bs: OutputBitStream, v: nat, w: nat)
    requires bs.Valid() && (w == 16 || w == 32) && v < (if w == 16 then 0x1_0000 else CODE_LIMIT)
    requires bs.pos + 2 * w <= bs.bitCount == 8 * bs.buf.Length
    modifies bs, bs.buf
    ensures bs.Valid() && bs.Bits() == old(bs.Bits()) + ToBits(v, w) && bs.pos == old(bs.pos) + w
  {
    Widths();
    WordsFitSlack(bs.pos, w, bs.buf.Length);
    bs.WriteInt(v, w);
  }

  /** Write 24 bits: the low 16 and the high 8. */
  method WriteSplit(bs: OutputBitStream, v: nat)
    requires bs.Valid() && v < 0x100_0000 && bs.pos + 64 <= bs.bitCount == 8 * bs.buf.Length
    modifies bs, bs.buf
    ensures bs.Valid() && bs.Bits() == old(bs.Bits()) + ToBits(v, 24) && bs.pos == old(bs.pos) + 24
  {
    hide ToBits;
    Widths();
    ToBitsSplit(v, 16, 8);
    ghost var start := bs.Bits();
    WriteWide(bs, Low(v, 16), 16);
    bs.WriteByte(Shr(v, 16));
    assert bs.Bits() == start + ToBits(v, 24);
  }

  /** Read 8, 16 or 32 bits. */
  method ReadPlain(bs: InputBitStream, w: nat, ghost v: nat, ghost rest: seq<bool>) returns (r: nat)
    requires bs.Valid() && (w == 8 || w == 16 || w == 32)
    requires v < (if w == 8 then 0x100 else if w == 16 then 0x1_0000 else CODE_LIMIT)
    requires bs.bitCount + 64 <= 8 * |bs.buf| && bs.Rest() == ToBits(v, w) + rest
    modifies bs
    ensures bs.Valid() && r == v && bs.Rest() == rest
  {
    Widths();
    WordsFitSlack(bs.pos, w, |bs.buf|);
    r := bs.ReadInt(w);
    SameNumber(r, v, w, bs.Rest(), rest);
  }

  lemma SameNumber(x: nat, y: nat, w: nat, a: seq<bool>, b: seq<bool>)
    requires x < Pow(2, w) && y < Pow(2, w) && ToBits(x, w) + a == ToBits(y, w) + b
    ensures x == y && a == b
  {
    assert ToBits(x, w) == (ToBits(x, w) + a)[..w] == ToBits(y, w);
    assert a == (ToBits(x, w) + a)[w..] == b;
    FromToBits(x, w);
    FromToBits(y, w);
  }

  /** Read 24 bits: the low 16 and the high 8. */
  method ReadSplit(bs: InputBitStream, ghost v: nat, ghost rest: seq<bool>) returns (r: nat)
    requires bs.Valid() && v < 0x100_0000 && bs.Rest() == ToBits(v, 24) + rest
    requires bs.bitCount + 64 <= 8 * |bs.buf|
    modifies bs
    ensures bs.Valid() && r == v && bs.Rest() == rest
  {
    hide ToBits, BitsOf, InputBitStream.Rest, Pow, Low, Shr;
    ghost var low, high := Low(v, 16), Shr(v, 16);
    Widths();
    ToBitsSplit(v, 16, 8);
    assert bs.Rest() == ToBits(low, 16) + (ToBits(high, 8) + rest);
    var lo := ReadPlain(bs, 16, low, ToBits(high, 8) + rest);
    var hi := ReadPlain(bs, 8, high, rest);
    r := Or(lo, Shl(hi, 16));
    OrDisjoint(lo, hi, 16);
  }
}
