/** Huffman compression of one chunk. */
module HuffmanCompress {
  import opened Numerals
  import opened BitStream
  import opened HuffmanTree
  import opened HuffmanCode
  import opened Huffman

  datatype ByteCodeBits = ByteCodeBits(bitCount: nat, bits: seq<byte>)

  const CODE_BYTES: nat := 12

  /** The code of b below a node reached by the bits cur. */
  ghost function CodeFrom(cur: seq<bool>, t: CodeTree, b: byte): seq<bool>
    requires b in Syms(t)
  {
    if cur + Path(t, b) == [] then [false] else cur + Path(t, b)
  }

  lemma CodeFromChild(cur: seq<bool>, l: CodeTree, r: CodeTree, b: byte)
    requires b in Syms(l) + Syms(r)
    ensures CodeFrom(cur, Node(l, r), b) ==
      if b in Syms(l) then CodeFrom(cur + [false], l, b) else CodeFrom(cur + [true], r, b)
  {
    if b in Syms(l) {
      Prepend(cur, false, Path(l, b));
    } else {
      Prepend(cur, true, Path(r, b));
    }
  }

  lemma Prepend(cur: seq<bool>, bit: bool, p: seq<bool>)
    ensures cur + ([bit] + p) == cur + [bit] + p != []
  {
  }

  /** strs is before with the code of every byte below a node recorded. */
  ghost predicate Recorded(strs: seq<seq<bool>>, before: seq<seq<bool>>, cur: seq<bool>, t: CodeTree) {
    && |strs| == |before| == BYTE_COUNT
    && forall b: byte :: strs[b] == if b in Syms(t) then CodeFrom(cur, t, b) else before[b]
  }

  lemma RecordedBoth(a: seq<seq<bool>>, b: seq<seq<bool>>, c: seq<seq<bool>>, cur: seq<bool>, l: CodeTree, r: CodeTree)
    requires Syms(l) !! Syms(r)
    requires Recorded(b, a, cur + [false], l) && Recorded(c, b, cur + [true], r)
    ensures Recorded(c, a, cur, Node(l, r))
  {
    forall x: byte
      ensures c[x] == if x in Syms(l) + Syms(r) then CodeFrom(cur, Node(l, r), x) else a[x]
    {
      if x in Syms(l) + Syms(r) {
        CodeFromChild(cur, l, r, x);
      }
    }
  }

  /** Record the code of every byte below a node. */
  method GenerateCodeStr(cur: seq<bool>, nodeID: nat, nodes: array<HuffmanNode>, codeStrs: array<seq<bool>>,
                         ghost lo: nat, ghost hi: nat, ghost t: CodeTree)
    requires Represents(nodes[..], lo, hi, nodeID, t) && Proper(t) && codeStrs.Length == BYTE_COUNT
    modifies codeStrs
    ensures Recorded(codeStrs[..], old(codeStrs[..]), cur, t)
    decreases t
  {
    var node := nodes[nodeID];
    if node.leftID == NULL_ID {
      assert node.rightID == NULL_ID;
      codeStrs[node.sym] := if cur == [] then [false] else cur;
      assert cur + Path(t, node.sym) == cur;
    } else {
      ghost var before := codeStrs[..];
      GenerateCodeStr(cur + [false], node.leftID, nodes, codeStrs, lo, hi, t.left);
      ghost var middle := codeStrs[..];
      GenerateCodeStr(cur + [true], node.rightID, nodes, codeStrs, lo, hi, t.right);
      RecordedBoth(before, middle, codeStrs[..], cur, t.left, t.right);
    }
  }

  /** A packed code holds the given bits. */
  ghost predicate IsCode(c: ByteCodeBits, code: seq<bool>) {
    && c.bitCount == |code| <= 8 * CODE_BYTES && |c.bits| == CODE_BYTES
    && ToBits(LittleEndian(c.bits), c.bitCount) == code
  }

  /** Pack a code string into the fixed field of a code. */
  method PackCode(code: seq<bool>) returns (c: ByteCodeBits)
    requires |code| <= 8 * CODE_BYTES
    ensures IsCode(c, code)
  {
    var field := new byte[CODE_BYTES];
    var bs := new OutputBitStream(field, 8 * CODE_BYTES);
    for i := 0 to |code|
      invariant bs.Valid() && bs.pos == i && bs.Bits() == code[..i] && bs.bitCount == 8 * CODE_BYTES
      invariant fresh(bs) && bs.buf == field
    {
      bs.WriteBool(code[i]);
    }
    c := ByteCodeBits(bs.pos, field[..]);
  }

  /** The codes of a tree, packed; other bytes have none. */
  ghost predicate CodesOf(codebits: seq<ByteCodeBits>, t: CodeTree) {
    && |codebits| == BYTE_COUNT
    && (forall b: byte :: b in Syms(t) ==> IsCode(codebits[b], Code(t, b)))
    && forall b: byte :: b !in Syms(t) ==> codebits[b].bitCount == 0
  }

  method GenerateCodeBits(root: nat, nodes: array<HuffmanNode>, ghost hi: nat, ghost t: CodeTree)
    returns (codebits: seq<ByteCodeBits>)
    requires Represents(nodes[..], FIRST_ID, hi, root, t) && Proper(t)
    requires Height(t) <= 8 * CODE_BYTES
    ensures CodesOf(codebits, t)
  {
    hide CodeFrom, ToBits, Code, Represents, IsCode, Recorded, Syms;
    var codeStrs := new seq<bool>[BYTE_COUNT](_ => []);
    ghost var empty := codeStrs[..];
    GenerateCodeStr([], root, nodes, codeStrs, FIRST_ID, hi, t);
    codebits := [];
    for i := 0 to BYTE_COUNT
      invariant |codebits| == i && Recorded(codeStrs[..], empty, [], t)
      invariant forall b: byte :: b < i && b in Syms(t) ==> IsCode(codebits[b], Code(t, b))
      invariant forall b: byte :: b < i && b !in Syms(t) ==> codebits[b].bitCount == 0
    {
      CodeStrAt(codeStrs[..], empty, t, i);
      var c := PackIfUsed(codeStrs[i]);
      codebits := codebits + [c];
    }
  }

  /** What is recorded of a byte: its code, which fits, or nothing. */
  lemma CodeStrAt(strs: seq<seq<bool>>, empty: seq<seq<bool>>, t: CodeTree, b: byte)
    requires Recorded(strs, empty, [], t) && empty[b] == [] && Height(t) <= 8 * CODE_BYTES
    ensures if b in Syms(t) then strs[b] == Code(t, b) && 0 < |strs[b]| <= 8 * CODE_BYTES else strs[b] == []
  {
    hide CodeFrom, Code, Syms;
    CodeFits(t, b);
  }

  method PackIfUsed(code: seq<bool>) returns (c: ByteCodeBits)
    requires |code| <= 8 * CODE_BYTES
    ensures if code != [] then IsCode(c, code) else c.bitCount == 0
  {
    c := ByteCodeBits(0, []);
    if code != [] {
      c := PackCode(code);
    }
  }

  lemma CodeFits(t: CodeTree, b: byte)
    ensures b in Syms(t) ==> CodeFrom([], t, b) == Code(t, b) && |Code(t, b)| <= if Height(t) == 0 then 1 else Height(t)
  {
    if b in Syms(t) {
      PathHeight(t, b);
      assert [] + Path(t, b) == Path(t, b);
    }
  }

  method SerializeNode(bs: OutputBitStream, nodeID: nat, nodes: array<HuffmanNode>, ghost lo: nat,
    ghost hi: nat, ghost t: CodeTree)
    requires bs.Valid() && bs.pos + |Serialized(t)| <= bs.bitCount
    requires Represents(nodes[..], lo, hi, nodeID, t)
    modifies bs, bs.buf
    ensures bs.Valid() && bs.Bits() == old(bs.Bits()) + Serialized(t)
    decreases t
  {
    hide ToBits, LittleEndian, Pow;
    var node := nodes[nodeID];
    if node.leftID == NULL_ID {
      bs.WriteBool(true);
      bs.WriteByte(node.sym);
    } else {
      bs.WriteBool(false);
      SerializeNode(bs, node.leftID, nodes, lo, hi, t.left);
      SerializeNode(bs, node.rightID, nodes, lo, hi, t.right);
    }
  }

  /** Append the code of every byte of src. */
  method CompressBuffer(bs: OutputBitStream, src: seq<byte>, codebits: seq<ByteCodeBits>, ghost t: CodeTree)
    requires bs.Valid() && CodesOf(codebits, t) && HasCodes(t, src)
    requires bs.pos + |Encode(t, src)| + 64 <= bs.bitCount
    modifies bs, bs.buf
    ensures bs.Valid() && bs.Bits() == old(bs.Bits()) + Encode(t, src)
  {
    ghost var start := bs.Bits();
    EncodeEnds(t, src, start);
    for i := 0 to |src|
      invariant bs.Valid() && bs.Bits() == start + Encode(t, src[..i])
    {
      WriteCode(bs, codebits[src[i]], t, src, i, start);
    }
  }

  lemma EncodeEnds(t: CodeTree, src: seq<byte>, start: seq<bool>)
    requires HasCodes(t, src)
    ensures start == start + Encode(t, src[..0])
    ensures src[..|src|] == src
  {
  }

  /** Append the code of byte i. */
  method WriteCode(bs: OutputBitStream, code: ByteCodeBits, ghost t: CodeTree, ghost src: seq<byte>,
    ghost i: nat, ghost start: seq<bool>)
    requires HasCodes(t, src) && i < |src| && IsCode(code, Code(t, src[i]))
    requires bs.Valid() && bs.Bits() == start + Encode(t, src[..i])
    requires |start| + |Encode(t, src)| + 64 <= bs.bitCount
    modifies bs, bs.buf
    ensures bs.Valid() && bs.Bits() == start + Encode(t, src[..i + 1])
  {
    assert code.bitCount > 0;
    EncodeTake(t, src, i, start);
    bs.WriteBits(code.bits, code.bitCount);
  }

  /** One more byte's code, and how much is left to write. */
  lemma EncodeTake(t: CodeTree, src: seq<byte>, i: nat, start: seq<bool>)
    requires i < |src| && HasCodes(t, src)
    ensures start + Encode(t, src[..i]) + Code(t, src[i]) == start + Encode(t, src[..i + 1])
    ensures |Encode(t, src[..i])| + |Code(t, src[i])| <= |Encode(t, src)|
  {
    hide Encode, Code, Syms;
    assert src[..i + 1] == src[..i] + [src[i]];
    EncodeSnoc(t, src[..i], src[i]);
    EncodeConcat(t, src[..i + 1], src[i + 1..]);
    assert src == src[..i + 1] + src[i + 1..];
  }

  /** bytes hold the serialised tree t followed by the codes of src, padded to whole bytes. */
  ghost predicate Compressed(bytes: seq<byte>, t: CodeTree, src: seq<byte>) {
    && Proper(t)
    && HasCodes(t, src)
    && Serialized(t) + Encode(t, src) <= BitsOf(bytes)
  }

  /** A least-cost tree over the bytes of src spends at most 8 bits per byte, and at most 2559 bits
      on itself. */
  lemma SizeBound(t: CodeTree, src: seq<byte>)
    requires src != [] && HuffmanTreeOf(t, Freq(src))
    requires HasCodes(t, src)
    ensures |Serialized(t)| <= 2559 && |Encode(t, src)| <= 8 * |src|
  {
    var f := Freq(src);
    var used := UsedAll(f);
    CountSyms(t);
    AtMost256(Syms(t));
    UsedBytes(f, |f|);
    EncodedCost(t, src);
    if t.Node? {
      assert src[0] in Syms(t);
      assert Pow(2, 8) == 256 by { Pow256(1); }
      assert |used| >= 1 by { assert src[0] in used; }
      var balanced := Balanced(Weights(f, used), 8);
      assert Cost(Weigh(t, f)) <= Cost(balanced);
      assert Weight(balanced) == |src| by { UsedSum(src); }
    }
  }

  /** The occurring bytes' frequencies add up to the length of the text. */
  lemma UsedSum(src: seq<byte>)
    ensures Sum(Weights(Freq(src), UsedAll(Freq(src)))) == |src|
  {
    UsedSumTo(Freq(src), |Freq(src)|);
    assert Freq(src)[..|Freq(src)|] == Freq(src);
    FreqSum(src);
  }

  lemma {:induction false} UsedSumTo(f: seq<nat>, n: nat)
    requires n <= |f| == BYTE_COUNT
    ensures Sum(Weights(f, Used(f, n))) == Sum(f[..n])
  {
    if n == 0 {
      assert Weights(f, Used(f, 0)) == [];
    } else {
      UsedSumTo(f, n - 1);
      assert f[..n] == f[..n - 1] + [f[n - 1]];
      SumConcat(f[..n - 1], [f[n - 1]]);
      SumOne(f[n - 1]);
      if f[n - 1] > 0 {
        assert Weights(f, Used(f, n)) == Weights(f, Used(f, n - 1)) + [f[n - 1]];
        SumConcat(Weights(f, Used(f, n - 1)), [f[n - 1]]);
      } else {
        assert Used(f, n) == Used(f, n - 1);
      }
    }
  }

  lemma SumOne(x: nat)
    ensures Sum([x]) == x
  {
    assert [x][1..] == [];
  }

  lemma {:induction false} FreqSum(src: seq<byte>)
    ensures Sum(Freq(src)) == |src|
  {
    if src == [] {
      SumZeros(Freq([]));
    } else {
      var n := |src| - 1;
      FreqSum(src[..n]);
      SumUpdate(Freq(src[..n]), src[n]);
    }
  }

  lemma {:induction false} SumZeros(f: seq<nat>)
    requires forall i :: 0 <= i < |f| ==> f[i] == 0
    ensures Sum(f) == 0
  {
    if f != [] {
      SumZeros(f[1..]);
    }
  }

  lemma SumUpdate(f: seq<nat>, b: nat)
    requires b < |f|
    ensures Sum(f[b := f[b] + 1]) == Sum(f) + 1
  {
    var g := f[b := f[b] + 1];
    assert f == f[..b] + ([f[b]] + f[b + 1..]) && g == f[..b] + ([f[b] + 1] + f[b + 1..]);
    SumConcat(f[..b], [f[b]] + f[b + 1..]);
    SumConcat(f[..b], [f[b] + 1] + f[b + 1..]);
    SumHead(f[b], f[b + 1..]);
    SumHead(f[b] + 1, f[b + 1..]);
  }

  lemma SumHead(x: nat, s: seq<nat>)
    ensures Sum([x] + s) == x + Sum(s)
  {
    assert ([x] + s)[1..] == s;
  }

  // ---- What the tree promises about the encoding -------------------------------------------

  /** The weights of the bytes below n that are in s. */
  ghost function SetWeights(s: set<byte>, f: seq<nat>, n: nat): multiset<nat>
    requires n <= |f| == BYTE_COUNT
  {
    if n == 0 then multiset{} else SetWeights(s, f, n - 1) + if n - 1 in s then multiset{f[n - 1]} else multiset{}
  }

  lemma {:induction false} SetWeightsUnion(s: set<byte>, r: set<byte>, f: seq<nat>, n: nat)
    requires n <= |f| == BYTE_COUNT && s !! r
    ensures SetWeights(s + r, f, n) == SetWeights(s, f, n) + SetWeights(r, f, n)
  {
    if n > 0 {
      SetWeightsUnion(s, r, f, n - 1);
    }
  }

  lemma {:induction false} SetWeightsOne(b: byte, f: seq<nat>, n: nat)
    requires n <= |f| == BYTE_COUNT
    ensures SetWeights({b}, f, n) == if b < n then multiset{f[b]} else multiset{}
  {
    if n > 0 {
      SetWeightsOne(b, f, n - 1);
    }
  }

  /** The leaf weights of a proper tree depend only on its set of bytes. */
  lemma {:induction false} LeavesOfSyms(u: CodeTree, f: seq<nat>)
    requires |f| == BYTE_COUNT && Proper(u)
    ensures Leaves(Weigh(u, f)) == SetWeights(Syms(u), f, BYTE_COUNT)
  {
    match u
    case Leaf(b) => SetWeightsOne(b, f, BYTE_COUNT);
    case Node(l, r) =>
      LeavesOfSyms(l, f);
      LeavesOfSyms(r, f);
      SetWeightsUnion(Syms(l), Syms(r), f, BYTE_COUNT);
  }

  lemma OptimalOver(t: CodeTree, u: CodeTree, src: seq<byte>)
    requires HuffmanTreeOf(t, Freq(src)) && Proper(u) && Syms(u) == Syms(t)
    requires HasCodes(t, src)
    ensures |Encode(t, src)| <= |Encode(u, src)|
  {
    EncodedCost(t, src);
    EncodedCost(u, src);
    LeavesOfSyms(t, Freq(src));
    LeavesOfSyms(u, Freq(src));
    EncodeLength(u, src);
    if u.Leaf? && t.Node? {
      CountSyms(t);
      CountSyms(u);
    }
  }

  /** The codes of v are no longer than those of u. */
  ghost predicate Shorter(v: CodeTree, u: CodeTree) {
    forall b :: b in Syms(v) ==> b in Syms(u) && |Path(v, b)| <= |Path(u, b)|
  }

  /** A tree cut down to some of its bytes. */
  lemma {:induction false} Prune(u: CodeTree, s: set<byte>) returns (v: CodeTree)
    requires Proper(u) && Syms(u) * s != {}
    ensures Proper(v) && Syms(v) == Syms(u) * s && Shorter(v, u) && (u.Leaf? ==> v == u)
  {
    match u
    case Leaf(b) => v := u;
    case Node(l, r) =>
      assert Syms(u) * s == Syms(l) * s + Syms(r) * s;
      if Syms(l) * s == {} {
        v := Prune(r, s);
      } else if Syms(r) * s == {} {
        v := Prune(l, s);
      } else {
        var x := Prune(l, s);
        var y := Prune(r, s);
        v := Node(x, y);
      }
  }

  lemma {:induction false} ShorterText(v: CodeTree, u: CodeTree, src: seq<byte>)
    requires Shorter(v, u) && HasCodes(v, src) && HasCodes(u, src) && (u.Leaf? ==> v.Leaf?)
    ensures |Encode(v, src)| <= |Encode(u, src)|
  {
    hide Syms, Path;
    if src != [] {
      ShorterText(v, u, src[1..]);
    }
  }

  /** No prefix code, over the bytes of src or over more, encodes src in fewer bits than its Huffman tree
      does. */
  lemma EncodingOptimal(t: CodeTree, u: CodeTree, src: seq<byte>)
    requires HuffmanTreeOf(t, Freq(src)) && Proper(u) && HasCodes(t, src) && HasCodes(u, src)
    ensures |Encode(t, src)| <= |Encode(u, src)|
  {
    assert Syms(t) <= Syms(u);
    CountSyms(t);
    assert Syms(u) * Syms(t) == Syms(t) != {};
    var v := Prune(u, Syms(t));
    OptimalOver(t, v, src);
    ShorterText(v, u, src);
  }

  /** A code of d bits takes a text of at least Fib(d + 2) bytes. */
  lemma LongCodeLongText(t: CodeTree, src: seq<byte>, b: byte, d: nat)
    requires HuffmanTreeOf(t, Freq(src)) && b in Syms(t) && d == |Path(t, b)|
    requires HasCodes(t, src)
    ensures |src| >= Fib(d + 2)
  {
    HeavyCode(t, src, b, d);
  }

  lemma HeavyCode(t: CodeTree, src: seq<byte>, b: byte, d: nat)
    requires Proper(t) && HeavyFor(Weigh(t, Freq(src)), Height(Weigh(t, Freq(src))))
    requires b in Syms(t) && d == |Path(t, b)|
    requires HasCodes(t, src)
    ensures |src| >= Fib(d + 2)
  {
    var h := Height(t);
    PathHeight(t, b);
    HeavyText(t, src, h);
    FibMonotone(d + 2, h + 2);
  }

  lemma HeavyText(t: CodeTree, src: seq<byte>, h: nat)
    requires Proper(t) && HeavyFor(Weigh(t, Freq(src)), Height(Weigh(t, Freq(src)))) && h == Height(t)
    requires HasCodes(t, src)
    ensures |src| >= Fib(h + 2)
  {
    EncodedCost(t, src);
    WeighHeight(t, Freq(src));
  }

  method CountBytes(src: seq<byte>) returns (byteFreq: array<nat>)
    ensures fresh(byteFreq) && byteFreq[..] == Freq(src)
  {
    byteFreq := new nat[BYTE_COUNT](_ => 0);
    for i := 0 to |src|
      invariant byteFreq[..] == Freq(src[..i])
    {
      byteFreq[src[i]] := byteFreq[src[i]] + 1;
      assert src[..i + 1][..i] == src[..i];
    }
    assert src[..|src|] == src;
  }

  /** Compress one chunk into dest. */
  method Compress(src: seq<byte>, dest: array<byte>) returns (size: nat, ghost t: CodeTree)
    requires 0 < |src| < 0x8000_0000
    requires dest.Length >= |src| + COMPRESSION_OVERHEAD
    modifies dest
    ensures size <= dest.Length && size <= |src| + 320
    ensures HuffmanTreeOf(t, Freq(src)) && Compressed(dest[..size], t, src)
    ensures size == (|Serialized(t)| + |Encode(t, src)| + 7) / 8
  {
    var byteFreq := CountBytes(src);
    assert src[0] in src;
    var nodes := new HuffmanNode[NODE_COUNT](_ => HuffmanNode(0, NULL_ID, NULL_ID));
    ghost var hi;
    var root;
    root, hi, t := BuildHuffmanTree(nodes, byteFreq);
    ChunkTree(t, src);
    var codebits := GenerateCodeBits(root, nodes, hi, t);

    size := WriteChunk(src, dest, root, nodes, codebits, hi, t);
  }

  /** Write the tree and the codes. */
  method WriteChunk(src: seq<byte>, dest: array<byte>, root: nat, nodes: array<HuffmanNode>,
    codebits: seq<ByteCodeBits>,
                    ghost hi: nat, ghost t: CodeTree) returns (size: nat)
    requires Represents(nodes[..], FIRST_ID, hi, root, t) && CodesOf(codebits, t) && Proper(t)
    requires HasCodes(t, src)
    requires |Serialized(t)| <= 2559 && |Encode(t, src)| <= 8 * |src|
    requires dest.Length >= |src| + COMPRESSION_OVERHEAD
    modifies dest
    ensures size <= dest.Length && size <= |src| + 320
    ensures Compressed(dest[..size], t, src) && size == (|Serialized(t)| + |Encode(t, src)| + 7) / 8
  {
    var bs := new OutputBitStream(dest, dest.Length * 8);
    SerializeNode(bs, root, nodes, FIRST_ID, hi, t);
    CompressBuffer(bs, src, codebits, t);
    size := (bs.pos + 7) / 8;
    ChunkBits(dest[..], bs.pos, size, t, src);
  }

  lemma ChunkBits(s: seq<byte>, n: nat, size: nat, t: CodeTree, src: seq<byte>)
    requires Proper(t) && HasCodes(t, src)
    requires size == (n + 7) / 8 && n <= 8 * |s|
    requires ToBits(LittleEndian(s), n) == [] + Serialized(t) + Encode(t, src)
    ensures size <= |s| && Compressed(s[..size], t, src) && n == |Serialized(t)| + |Encode(t, src)|
  {
    assert [] + Serialized(t) == Serialized(t);
    WholeBytes(s, n, size);
  }

  /** What the tree of a chunk guarantees: all bytes have codes, the codes fit the code field, and
      the output fits the overhead. */
  lemma ChunkTree(t: CodeTree, src: seq<byte>)
    requires 0 < |src| < 0x8000_0000 && HuffmanTreeOf(t, Freq(src))
    ensures HasCodes(t, src)
    ensures Height(t) <= 61
    ensures |Serialized(t)| <= 2559 && |Encode(t, src)| <= 8 * |src|
  {
    assert HasCodes(t, src) by {
      forall i | 0 <= i < |src| ensures src[i] in Syms(t) {
        assert src[i] in src;
      }
    }
    EncodedCost(t, src);
    WeighHeight(t, Freq(src));
    PowOfTwo31();
    HeightBelow(Weigh(t, Freq(src)), 31);
    SizeBound(t, src);
  }
}
