/** Huffman decompression of one chunk: the tree read back in preorder, the byte-wide quick lookup
    table, and the bit-by-bit walk it must agree with. */
module HuffmanDecompress {
  import opened Numerals
  import opened BitStream
  import opened HuffmanTree
  import opened HuffmanCode
  import opened Huffman
  import opened HuffmanCompress

  ghost function NodeCount(t: CodeTree): nat {
    2 * LeafCount(t) - 1
  }

  /** Read a tree into consecutive nodes from nodeID on; the result is the first unused id. */
  method DeserializeNode(bs: InputBitStream, nodeID: nat, nodes: array<HuffmanNode>, ghost t: CodeTree,
    ghost rest: seq<bool>) returns (next: nat)
    requires bs.Valid() && bs.bitCount == 8 * |bs.buf| && bs.Rest() == Serialized(t) + rest
    requires nodes.Length == NODE_COUNT && FIRST_ID <= nodeID && nodeID + NodeCount(t) <= NODE_COUNT
    modifies bs, nodes
    ensures bs.Valid() && bs.Rest() == rest
    ensures next == nodeID + NodeCount(t)
    ensures Represents(nodes[..], nodeID, next, nodeID, t)
    ensures forall i :: 0 <= i < NODE_COUNT && !(nodeID <= i < next) ==> nodes[i] == old(nodes[i])
    decreases t
  {
    hide ToBits, BitsOf, Syms, Represents, InputBitStream.Rest, InputBitStream.Valid;
    assert bs.Rest()[0] == t.Leaf?;
    ghost var start := bs.Rest();
    var b := bs.ReadBool();
    if b {
      assert bs.Rest() == start[1..] == ToBits(t.sym, 8) + rest;
      var v := ReadSym(bs, t.sym, rest);
      nodes[nodeID] := HuffmanNode(v, NULL_ID, NULL_ID);
      next := nodeID + 1;
      RepresentsLeaf(nodes[..], nodeID, t);
    } else {
      var l, r := t.left, t.right;
      assert bs.Rest() == start[1..] == Serialized(l) + (Serialized(r) + rest);
      nodes[nodeID] := nodes[nodeID].(leftID := nodeID + 1);
      var rightID := DeserializeNode(bs, nodeID + 1, nodes, l, Serialized(r) + rest);
      ghost var middle := nodes[..];
      nodes[nodeID] := nodes[nodeID].(rightID := rightID);
      next := DeserializeNode(bs, rightID, nodes, r, rest);
      RepresentsNode(middle, nodes[..], nodeID, rightID, next, l, r);
    }
  }

  lemma RepresentsLeaf(nodes: seq<HuffmanNode>, id: nat, t: CodeTree)
    requires FIRST_ID <= id < |nodes| && t.Leaf? && nodes[id] == HuffmanNode(t.sym, NULL_ID, NULL_ID)
    ensures Represents(nodes, id, id + 1, id, t)
  {
  }

  /** A node in front of the nodes of its left tree and then those of its right tree. */
  lemma RepresentsNode(middle: seq<HuffmanNode>, nodes: seq<HuffmanNode>, id: nat, rightID: nat, next: nat,
    l: CodeTree, r: CodeTree)
    requires Represents(middle, id + 1, rightID, id + 1, l) && Represents(nodes, rightID, next, rightID, r)
    requires FIRST_ID <= id && id + 1 <= rightID <= next <= |middle| == |nodes|
    requires forall i :: id < i < rightID ==> nodes[i] == middle[i]
    requires nodes[id].leftID == id + 1 && nodes[id].rightID == rightID
    ensures Represents(nodes, id, next, id, Node(l, r))
  {
    RepresentsFrame(middle, id + 1, rightID, nodes, id, next, id + 1, l);
    RepresentsFrame(nodes, rightID, next, nodes, id, next, rightID, r);
  }

  method ReadSym(bs: InputBitStream, ghost b: byte, ghost rest: seq<bool>) returns (v: byte)
    requires bs.Valid() && bs.bitCount == 8 * |bs.buf| && bs.Rest() == ToBits(b, 8) + rest
    modifies bs
    ensures bs.Valid() && bs.Rest() == rest && v == b
  {
    WordsFitByte(bs.pos, |bs.buf|);
    var x := bs.ReadInt(8);
    ReadByte(x, b, bs.Rest(), rest);
    v := x;
  }

  /** Two readings of a byte from the same bits are equal. */
  lemma ReadByte(v: nat, b: byte, got: seq<bool>, rest: seq<bool>)
    requires v < Pow(2, 8) && ToBits(v, 8) + got == ToBits(b, 8) + rest
    ensures v == b && got == rest
  {
    Pow256(1);
    assert ToBits(v, 8) == (ToBits(v, 8) + got)[..8] == ToBits(b, 8);
    assert got == (ToBits(v, 8) + got)[8..] == rest;
    FromToBits(v, 8);
    FromToBits(b, 8);
  }

  method LeafCountOf(nodeID: nat, nodes: array<HuffmanNode>, ghost lo: nat, ghost hi: nat, ghost t: CodeTree)
    returns (n: nat)
    requires Represents(nodes[..], lo, hi, nodeID, t)
    ensures n == LeafCount(t)
    decreases t
  {
    if nodes[nodeID].leftID == NULL_ID {
      n := 1;
    } else {
      var l := LeafCountOf(nodes[nodeID].leftID, nodes, lo, hi, t.left);
      var r := LeafCountOf(nodes[nodeID].rightID, nodes, lo, hi, t.right);
      n := l + r;
    }
  }

  // ---- The quick lookup table -------------------------------------------------------------

  const TABLE_SIZE: nat := 256

  /** What the table should hold for the byte v: a symbol in the low byte and the number of bits it
      takes above it, or zero when eight bits do not reach a leaf. */
  ghost function QuickEntry(t: CodeTree, v: nat, depth: nat, before: nat): nat
    requires depth <= 8
  {
    match Walk(t, ToBits(Shr(v, depth), 8 - depth))
    case Out => before
    case Found(b, n) => b + 256 * (depth + n)
  }

  /** The entries for bytes whose low bits are code are filled in, the others kept. */
  ghost predicate Filled(table: seq<nat>, before: seq<nat>, t: CodeTree, depth: nat, code: nat) {
    && |table| == |before| == TABLE_SIZE && depth <= 8
    && forall v: nat :: v < TABLE_SIZE ==>
         table[v] == if Low(v, depth) == code then QuickEntry(t, v, depth, before[v]) else before[v]
  }

  /** Fill the entries below a node at the given depth, reached by the low bits code. */
  method FillTable(depth: nat, code: nat, nodeID: nat, nodes: array<HuffmanNode>, table: array<nat>,
                   ghost lo: nat, ghost hi: nat, ghost t: CodeTree)
    requires Represents(nodes[..], lo, hi, nodeID, t) && table.Length == TABLE_SIZE
    requires depth <= 8 ==> code < Pow(2, depth)
    requires depth == 0 ==> t.Node?
    modifies table
    ensures depth > 8 ==> table[..] == old(table[..])
    ensures depth <= 8 ==> Filled(table[..], old(table[..]), t, depth, code)
    decreases t
  {
    if depth > 8 {
      return;
    }
    var node := nodes[nodeID];
    if node.leftID == NULL_ID {
      var bitCount := if depth == 0 then 1 else depth;
      FillLeaf(bitCount, code, node.sym, table);
    } else {
      ghost var before := table[..];
      NextCodes(depth, code);
      FillTable(depth + 1, Or(code, Shl(0, depth)), node.leftID, nodes, table, lo, hi, t.left);
      ghost var middle := table[..];
      FillTable(depth + 1, Low(Or(code, Shl(1, depth)), 8), node.rightID, nodes, table, lo, hi, t.right);
      if depth < 8 {
        FilledBoth(before, middle, table[..], t.left, t.right, depth, code);
      } else {
        FilledDeep(table[..], t, code);
      }
    }
  }

  /** The two codes below code. */
  lemma NextCodes(depth: nat, code: nat)
    requires depth <= 8 && code < Pow(2, depth)
    ensures Or(code, Shl(0, depth)) == code < Pow(2, depth + 1)
    ensures depth < 8 ==> Low(Or(code, Shl(1, depth)), 8) == code + Pow(2, depth) < Pow(2, depth + 1)
  {
    var p := Pow(2, depth);
    assert Or(code, Shl(0, depth)) == code by {
      OrDisjoint(code, 0, depth);
      assert p * 0 == 0;
    }
    assert Or(code, Shl(1, depth)) == code + p by {
      OrDisjoint(code, 1, depth);
      assert p * 1 == p;
    }
    assert Pow(2, depth + 1) == 2 * p;
    if depth < 8 {
      PowMonotone(2, depth + 1, 8);
      ShrSmall(code + p, 8);
      LowWhole(code + p, 8);
    }
  }

  lemma LowWhole(v: nat, n: nat)
    requires Shr(v, n) == 0
    ensures Low(v, n) == v
  {
    assert Pow(2, n) * 0 == 0;
  }

  /** At depth 8 an inner node is out of the table's reach. */
  lemma FilledDeep(table: seq<nat>, t: CodeTree, code: nat)
    requires |table| == TABLE_SIZE && t.Node?
    ensures Filled(table, table, t, 8, code)
  {
  }

  /** The bit at the given depth decides between the two children. */
  lemma ChildBit(v: nat, depth: nat)
    requires depth < 8
    ensures ToBits(Shr(v, depth), 8 - depth) == [Shr(v, depth) % 2 == 1] + ToBits(Shr(v, depth + 1), 8 - (depth + 1))
    ensures Low(v, depth + 1) == Low(v, depth) + (if Shr(v, depth) % 2 == 1 then Pow(2, depth) else 0)
  {
    var p, u := Pow(2, depth), Shr(v, depth);
    var bit := u % 2;
    assert u == bit + 2 * (u / 2);
    ShiftArithmeticBit(p, bit, u / 2);
    DivModUnique(Low(v, depth) + p * bit, u / 2, p * 2);
    assert Pow(2, depth + 1) == 2 * p;
    assert Shr(v, depth + 1) == u / 2;
    assert bit == 0 ==> p * bit == 0;
  }

  lemma ShiftArithmeticBit(p: nat, bit: nat, h: nat)
    requires p > 0 && bit < 2
    ensures p * (bit + 2 * h) == p * bit + (p * 2) * h
  {
    MulDistribute(bit, 2 * h, p);
    MulAssoc(p, 2, h);
  }

  lemma FilledBoth(a: seq<nat>, b: seq<nat>, c: seq<nat>, l: CodeTree, r: CodeTree, depth: nat, code: nat)
    requires depth < 8 && code < Pow(2, depth)
    requires Filled(b, a, l, depth + 1, code) && Filled(c, b, r, depth + 1, code + Pow(2, depth))
    ensures Filled(c, a, Node(l, r), depth, code)
  {
    forall v: nat | v < TABLE_SIZE
      ensures c[v] == if Low(v, depth) == code then QuickEntry(Node(l, r), v, depth, a[v]) else a[v]
    {
      ChildBit(v, depth);
      var bit := Shr(v, depth) % 2 == 1;
      var bits := ToBits(Shr(v, depth), 8 - depth);
      assert bits[1..] == ToBits(Shr(v, depth + 1), 8 - (depth + 1));
      if Low(v, depth) == code {
        EntryStep(Node(l, r), v, depth, a[v]);
      }
    }
  }

  lemma EntryStep(t: CodeTree, v: nat, depth: nat, before: nat)
    requires depth < 8 && t.Node?
    ensures QuickEntry(t, v, depth, before)
      == QuickEntry(if Shr(v, depth) % 2 == 1 then t.right else t.left, v, depth + 1, before)
  {
    ChildBit(v, depth);
    var bits := ToBits(Shr(v, depth), 8 - depth);
    assert bits[1..] == ToBits(Shr(v, depth + 1), 8 - (depth + 1));
  }

  /** Fill every entry whose low bitCount bits are code. */
  method FillLeaf(bitCount: nat, code: nat, sym: byte, table: array<nat>)
    requires 1 <= bitCount <= 8 && table.Length == TABLE_SIZE && code < Pow(2, bitCount)
    modifies table
    ensures forall v: nat :: v < TABLE_SIZE ==>
      table[v] == if Low(v, bitCount) == code then sym + 256 * bitCount else old(table[v])
  {
    Pow256(1);
    PowAdd(2, bitCount, 8 - bitCount);
    var step, n := Pow(2, bitCount), Pow(2, 8 - bitCount);
    var c := code;
    assert step * 0 == 0;
    for i := 0 to n
      invariant c == code + step * i
      invariant forall v: nat :: v < TABLE_SIZE ==>
        table[v] == if Low(v, bitCount) == code && Shr(v, bitCount) < i then sym + 256 * bitCount else old(table[v])
    {
      LeafIndex(code, step, n, i, bitCount);
      table[c] := sym + 256 * bitCount;
      forall v: nat | v < TABLE_SIZE && Low(v, bitCount) == code && Shr(v, bitCount) == i
        ensures v == c
      {
      }
      MulDistribute(i, 1, step);
      c := c + step;
    }
    forall v: nat | v < TABLE_SIZE
      ensures Shr(v, bitCount) < n
    {
      QuotientBelow(Low(v, bitCount), step, Shr(v, bitCount), n);
    }
  }

  lemma LeafIndex(code: nat, step: nat, n: nat, i: nat, bitCount: nat)
    requires step == Pow(2, bitCount) && step * n == 256 && code < step && i < n
    ensures 0 <= code + step * i < 256
    ensures Low(code + step * i, bitCount) == code && Shr(code + step * i, bitCount) == i
  {
    MulSign(step, i);
    DivModUnique(code, i, step);
    MulMonotone(i + 1, n, step);
    MulDistribute(i, 1, step);
  }

  /** The whole table of a tree. */
  ghost predicate TableOf(table: seq<nat>, t: CodeTree) {
    && |table| == TABLE_SIZE
    && forall v: nat :: v < TABLE_SIZE ==> table[v] == QuickEntry(t, v, 0, 0)
  }

  method BuildQuickLookupTable(root: nat, nodes: array<HuffmanNode>, ghost lo: nat, ghost hi: nat, ghost t: CodeTree)
    returns (table: array<nat>)
    requires Represents(nodes[..], lo, hi, root, t) && t.Node?
    ensures fresh(table) && TableOf(table[..], t)
  {
    table := new nat[TABLE_SIZE](_ => 0);
    assert Pow(2, 0) == 1;
    FillTable(0, 0, root, nodes, table, lo, hi, t);
    forall v: nat | v < TABLE_SIZE
      ensures table[v] == QuickEntry(t, v, 0, 0)
    {
      assert Low(v, 0) == 0;
    }
  }

  // ---- Lookups ----------------------------------------------------------------------------

  /** Walk from the root, one bit at a time. */
  method Lookup(bs: InputBitStream, root: nat, nodes: array<HuffmanNode>, ghost lo: nat, ghost hi: nat,
                ghost t: CodeTree, ghost b: byte, ghost rest: seq<bool>) returns (sym: byte)
    requires bs.Valid() && Represents(nodes[..], lo, hi, root, t)
    requires b in Syms(t) && bs.Rest() == Path(t, b) + rest
    modifies bs
    ensures bs.Valid() && sym == b && bs.Rest() == rest
  {
    var node := nodes[root];
    ghost var id: nat, u := root, t;
    while node.leftID != NULL_ID
      invariant bs.Valid() && Represents(nodes[..], lo, hi, id, u) && node == nodes[id]
      invariant b in Syms(u) && bs.Rest() == Path(u, b) + rest
      decreases u
    {
      ghost var bits := bs.Rest();
      ghost var child := if b in Syms(u.left) then u.left else u.right;
      assert bits[0] == (child != u.left || b !in Syms(u.left));
      assert bits[1..] == Path(child, b) + rest;
      var bit := bs.ReadBool();
      assert bs.Rest() == bits[1..];
      id := if bit then node.rightID else node.leftID;
      node := nodes[if bit then node.rightID else node.leftID];
      u := child;
    }
    assert Path(u, b) + rest == rest;
    sym := node.sym;
  }

  /** Look eight bits ahead; -1 when they do not reach a leaf. */
  method QuickLookup(bs: InputBitStream, table: array<nat>, ghost t: CodeTree, ghost b: byte, ghost rest: seq<bool>)
    returns (sym: int)
    requires bs.Valid() && bs.bitCount == 8 * |bs.buf| && bs.pos + 8 <= bs.bitCount
    requires TableOf(table[..], t) && t.Node?
    requires b in Syms(t) && bs.Rest() == Path(t, b) + rest
    modifies bs
    ensures bs.Valid()
    ensures |Path(t, b)| <= 8 ==> sym == b && bs.Rest() == rest
    ensures |Path(t, b)| > 8 ==> sym == -1 && bs.Rest() == old(bs.Rest())
  {
    WordsFitByte(bs.pos, |bs.buf|);
    var x := bs.FetchInt(8);
    Pow256(1);
    EntryOfPath(table[..], x, t, b, rest);
    var v := table[x];
    if v / 256 != 0 {
      bs.Advance(v / 256);
      sym := v % 256;
      assert (Path(t, b) + rest)[|Path(t, b)|..] == rest;
    } else {
      sym := -1;
    }
  }

  lemma EntryOfPath(table: seq<nat>, x: nat, t: CodeTree, b: byte, rest: seq<bool>)
    requires TableOf(table, t) && t.Node? && x < TABLE_SIZE && b in Syms(t)
    requires |Path(t, b) + rest| >= 8 && ToBits(x, 8) == (Path(t, b) + rest)[..8]
    ensures table[x] == if |Path(t, b)| <= 8 then b + 256 * |Path(t, b)| else 0
    ensures |Path(t, b)| >= 1
  {
    assert Pow(2, 0) == 1;
    assert Shr(x, 0) == x;
    WalkPath(t, b, ToBits(x, 8), rest);
  }

  // ---- Decompression ----------------------------------------------------------------------

  /** Decode all of src from the codes that follow the tree. */
  method UncompressBuffer(bs: InputBitStream, root: nat, nodes: array<HuffmanNode>, dest: array<byte>,
                          ghost lo: nat, ghost hi: nat, ghost t: CodeTree, ghost src: seq<byte>, ghost pad: seq<bool>)
    requires bs.Valid() && bs.bitCount == 8 * |bs.buf|
    requires Represents(nodes[..], lo, hi, root, t)
    requires dest.Length == |src| && HasCodes(t, src)
    requires bs.Rest() == Encode(t, src) + pad
    modifies bs, dest
    ensures dest[..] == src
  {
    hide ToBits, BitsOf, Represents, Encode;
    var i: nat := 0;
    var leaves := LeafCountOf(root, nodes, lo, hi, t);
    if leaves > 2 {
      i := UncompressQuick(bs, root, nodes, dest, lo, hi, t, src, pad);
    } else {
      assert src[0..] == src;
    }
    while i < dest.Length
      invariant 0 <= i <= dest.Length && bs.Valid() && dest[..i] == src[..i]
      invariant t.Node? ==> bs.Rest() == Encode(t, src[i..]) + pad
      decreases dest.Length - i
    {
      ghost var rest := LookupRest(t, src, i, pad, bs.Rest());
      dest[i] := Lookup(bs, root, nodes, lo, hi, t, src[i], rest);
      i := i + 1;
    }
  }

  /** What a lookup leaves unread: the codes that follow, or everything when the tree is one leaf. */
  lemma LookupRest(t: CodeTree, src: seq<byte>, i: nat, pad: seq<bool>, bits: seq<bool>) returns (rest: seq<bool>)
    requires i < |src| && HasCodes(t, src)
    requires t.Node? ==> bits == Encode(t, src[i..]) + pad
    ensures bits == Path(t, src[i]) + rest
    ensures t.Node? ==> rest == Encode(t, src[i + 1..]) + pad
  {
    if t.Node? {
      rest := Encode(t, src[i + 1..]) + pad;
      NextCode(t, src, i, pad);
    } else {
      rest := bits;
    }
  }

  /** The part of the text decoded with the table: all but the last seven bytes, so that eight bits
      are always there to look at. */
  method UncompressQuick(bs: InputBitStream, root: nat, nodes: array<HuffmanNode>, dest: array<byte>,
                         ghost lo: nat, ghost hi: nat, ghost t: CodeTree, ghost src: seq<byte>, ghost pad: seq<bool>) returns (i: nat)
    requires bs.Valid() && bs.bitCount == 8 * |bs.buf| && t.Node?
    requires Represents(nodes[..], lo, hi, root, t)
    requires dest.Length == |src| && HasCodes(t, src)
    requires bs.Rest() == Encode(t, src) + pad
    modifies bs, dest
    ensures i <= dest.Length && bs.Valid() && dest[..i] == src[..i]
    ensures bs.Rest() == Encode(t, src[i..]) + pad
  {
    hide ToBits, BitsOf, Represents, Walk;
    var table := BuildQuickLookupTable(root, nodes, lo, hi, t);
    i := 0;
    assert src[0..] == src;
    while i + 8 <= dest.Length
      invariant i <= dest.Length && bs.Valid() && dest[..i] == src[..i]
      invariant TableOf(table[..], t)
      invariant bs.Rest() == Encode(t, src[i..]) + pad
      decreases dest.Length - i
    {
      ghost var rest := LookupRest(t, src, i, pad, bs.Rest());
      EncodeLength(t, src[i..]);
      var sym := QuickLookup(bs, table, t, src[i], rest);
      if sym == -1 {
        sym := Lookup(bs, root, nodes, lo, hi, t, src[i], rest);
      }
      dest[i] := sym;
      i := i + 1;
    }
  }

  lemma NextCode(t: CodeTree, src: seq<byte>, i: nat, pad: seq<bool>)
    requires i < |src| && t.Node? && HasCodes(t, src)
    ensures Encode(t, src[i..]) + pad == Path(t, src[i]) + (Encode(t, src[i + 1..]) + pad)
  {
    assert src[i..][1..] == src[i + 1..];
  }

  /** Undo the compression of a chunk. */
  method Uncompress(bytes: seq<byte>, dest: array<byte>, ghost t: CodeTree, ghost src: seq<byte>)
    requires Compressed(bytes, t, src) && dest.Length == |src|
    modifies dest
    ensures dest[..] == src
  {
    hide Encode, Serialized, Proper, HasCodes, ToBits, LittleEndian, Represents;
    var bs := new InputBitStream(bytes, |bytes| * 8);
    ghost var bits := BitsOf(bytes);
    ghost var pad := bits[|Serialized(t) + Encode(t, src)|..];
    assert bs.Rest() == bits == Serialized(t) + (Encode(t, src) + pad);
    var nodes := new HuffmanNode[NODE_COUNT](_ => HuffmanNode(0, NULL_ID, NULL_ID));
    CountSyms(t);
    AtMost256(Syms(t));
    var next := DeserializeNode(bs, FIRST_ID, nodes, t, Encode(t, src) + pad);
    UncompressBuffer(bs, FIRST_ID, nodes, dest, FIRST_ID, next, t, src, pad);
  }

  /** Compressing a chunk and decompressing the result gives the chunk back. */
  method RoundTrip(src: seq<byte>) returns (out: seq<byte>)
    requires 0 < |src| < 0x8000_0000
    ensures out == src
  {
    var dest := new byte[|src| + COMPRESSION_OVERHEAD];
    var size, t := Compress(src, dest);
    var back := new byte[|src|];
    Uncompress(dest[..size], back, t, src);
    out := back[..];
  }
}
