/** Byte code trees as the compressor and the decompressor see them: codes, serialised form,
    code lengths, and decoding by prefix. */
module HuffmanCode {
  import opened Numerals
  import opened BitStream
  import opened HuffmanTree

  type CodeTree = Tree<byte>

  ghost function Syms(t: CodeTree): set<byte> {
    match t
    case Leaf(b) => {b}
    case Node(l, r) => Syms(l) + Syms(r)
  }

  /** No byte labels two leaves. */
  ghost predicate Proper(t: CodeTree) {
    t.Node? ==> Syms(t.left) !! Syms(t.right) && Proper(t.left) && Proper(t.right)
  }

  ghost function LeafCount(t: CodeTree): (n: nat)
    ensures n >= 1
  {
    match t
    case Leaf(_) => 1
    case Node(l, r) => LeafCount(l) + LeafCount(r)
  }

  lemma {:induction false} CountSyms(t: CodeTree)
    requires Proper(t)
    ensures LeafCount(t) == |Syms(t)|
  {
    match t
    case Leaf(_) =>
    case Node(l, r) =>
      CountSyms(l);
      CountSyms(r);
      assert Syms(l) * Syms(r) == {};
  }

  lemma AtMost256(s: set<byte>)
    ensures |s| <= 256
  {
    AtMostN(s, 256);
  }

  lemma {:induction false} AtMostN(s: set<byte>, n: nat)
    requires forall b :: b in s ==> b < n
    ensures |s| <= n
  {
    if n == 0 {
      assert s == {};
    } else if n <= 256 {
      AtMostN(s - {n - 1}, n - 1);
      assert |s| <= |s - {n - 1}| + 1;
    } else {
      AtMostN(s, n - 1);
    }
  }

  /** The way from the root to the leaf of b: false to the left, true to the right. */
  ghost function Path(t: CodeTree, b: byte): seq<bool>
    requires b in Syms(t)
  {
    match t
    case Leaf(_) => []
    case Node(l, r) => if b in Syms(l) then [false] + Path(l, b) else [true] + Path(r, b)
  }

  /** The code of b; a tree of one leaf still spends a bit. */
  ghost function Code(t: CodeTree, b: byte): (c: seq<bool>)
    requires b in Syms(t)
    ensures |c| >= 1
  {
    if t.Leaf? then [false] else Path(t, b)
  }

  /** Every byte of src has a code. */
  ghost predicate HasCodes(t: CodeTree, src: seq<byte>) {
    forall i :: 0 <= i < |src| ==> src[i] in Syms(t)
  }

  ghost function Encode(t: CodeTree, src: seq<byte>): seq<bool>
    requires HasCodes(t, src)
  {
    if src == [] then [] else Code(t, src[0]) + Encode(t, src[1..])
  }

  lemma EncodeSnoc(t: CodeTree, src: seq<byte>, b: byte)
    requires b in Syms(t) && HasCodes(t, src)
    ensures Encode(t, src + [b]) == Encode(t, src) + Code(t, b)
  {
    assert Encode(t, [b]) == Code(t, b) by { assert [b][1..] == []; }
    EncodeConcat(t, src, [b]);
  }

  lemma {:induction false} EncodeConcat(t: CodeTree, a: seq<byte>, b: seq<byte>)
    requires HasCodes(t, a)
    requires HasCodes(t, b)
    ensures Encode(t, a + b) == Encode(t, a) + Encode(t, b)
  {
    hide Code, Syms;
    if a == [] {
      assert a + b == b;
    } else {
      assert (a + b)[1..] == a[1..] + b;
      EncodeConcat(t, a[1..], b);
    }
  }

  lemma {:induction false} EncodeLength(t: CodeTree, src: seq<byte>)
    requires HasCodes(t, src)
    ensures |Encode(t, src)| >= |src|
  {
    if src != [] {
      EncodeLength(t, src[1..]);
    }
  }

  lemma {:induction false} PathHeight(t: CodeTree, b: byte)
    requires b in Syms(t)
    ensures |Path(t, b)| <= Height(t)
  {
    match t
    case Leaf(_) =>
    case Node(l, r) => if b in Syms(l) { PathHeight(l, b); } else { PathHeight(r, b); }
  }

  /** The serialised tree: a leaf is a set bit and its byte, an inner node a clear bit and its children. */
  ghost function Serialized(t: CodeTree): (s: seq<bool>)
    ensures |s| == 10 * LeafCount(t) - 1
  {
    match t
    case Leaf(b) => [true] + ToBits(b, 8)
    case Node(l, r) => [false] + Serialized(l) + Serialized(r)
  }

  // ---- Frequencies and lengths ------------------------------------------------------------

  ghost function Freq(src: seq<byte>): (f: seq<nat>)
    ensures |f| == 256
    ensures forall b: byte :: f[b] > 0 <==> b in src
  {
    if src == [] then seq(256, _ => 0)
    else
      var n := |src| - 1;
      var f := Freq(src[..n]);
      assert src == src[..n] + [src[n]];
      f[src[n] := f[src[n]] + 1]
  }

  /** The tree of weights under a tree of bytes. */
  ghost function Weigh(t: CodeTree, f: seq<nat>): WTree
    requires |f| == 256
  {
    match t
    case Leaf(b) => Leaf(f[b])
    case Node(l, r) => Node(Weigh(l, f), Weigh(r, f))
  }

  lemma {:induction false} WeighHeight(t: CodeTree, f: seq<nat>)
    requires |f| == 256
    ensures Height(Weigh(t, f)) == Height(t)
  {
    match t
    case Leaf(_) =>
    case Node(l, r) =>
      WeighHeight(l, f);
      WeighHeight(r, f);
  }

  /** One more occurrence of b adds one to the weight and the length of b's path to the cost. */
  lemma {:induction false} WeighMore(t: CodeTree, f: seq<nat>, b: byte)
    requires |f| == 256 && Proper(t)
    ensures var g := f[b := f[b] + 1];
      if b in Syms(t) then
        Weight(Weigh(t, g)) == Weight(Weigh(t, f)) + 1 && Cost(Weigh(t, g)) == Cost(Weigh(t, f)) + |Path(t, b)|
      else Weigh(t, g) == Weigh(t, f)
  {
    match t
    case Leaf(_) =>
    case Node(l, r) =>
      WeighMore(l, f, b);
      WeighMore(r, f, b);
  }

  lemma {:induction false} WeighNothing(t: CodeTree)
    ensures Weight(Weigh(t, Freq([]))) == 0 && Cost(Weigh(t, Freq([]))) == 0
  {
    match t
    case Leaf(_) =>
    case Node(l, r) =>
      WeighNothing(l);
      WeighNothing(r);
  }

  /** The weight of the tree is the length of the text and its cost the length of the encoding. */
  lemma {:induction false} EncodedCost(t: CodeTree, src: seq<byte>)
    requires Proper(t) && HasCodes(t, src)
    ensures Weight(Weigh(t, Freq(src))) == |src|
    ensures |Encode(t, src)| == if t.Leaf? then |src| else Cost(Weigh(t, Freq(src)))
  {
    if src == [] {
      WeighNothing(t);
    } else {
      var n := |src| - 1;
      assert src == src[..n] + [src[n]];
      EncodedCost(t, src[..n]);
      EncodeSnoc(t, src[..n], src[n]);
      WeighMore(t, Freq(src[..n]), src[n]);
    }
  }

  // ---- Decoding ---------------------------------------------------------------------------

  datatype Walked = Out | Found(sym: byte, used: nat)

  /** Walk down from the root along the given bits. */
  ghost function Walk(t: CodeTree, bits: seq<bool>): Walked {
    match t
    case Leaf(b) => Found(b, 0)
    case Node(l, r) =>
      if bits == [] then Out
      else
        match Walk(if bits[0] then r else l, bits[1..])
        case Out => Out
        case Found(b, n) => Found(b, n + 1)
  }

  /** A walk along bits agreeing with the path of b finds b if the bits suffice, and nothing else. */
  lemma {:induction false} WalkPath(t: CodeTree, b: byte, bits: seq<bool>, rest: seq<bool>)
    requires b in Syms(t) && bits <= Path(t, b) + rest
    ensures Walk(t, bits) == if |Path(t, b)| <= |bits| then Found(b, |Path(t, b)|) else Out
  {
    match t
    case Leaf(_) =>
    case Node(l, r) =>
      if bits != [] {
        var c := if b in Syms(l) then l else r;
        assert (Path(t, b) + rest)[1..] == Path(c, b) + rest;
        WalkPath(c, b, bits[1..], rest);
      }
  }
}
