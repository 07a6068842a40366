/** The Huffman compressor and decompressor: node arrays filled in place, codes and trees written
    to and read from bit streams, and the framing of chunks. */
module Huffman {
  import opened Numerals
  import opened BitStream
  import opened HuffmanTree
  import opened HuffmanCode

  const NULL_ID: nat := 0
  const FIRST_ID: nat := 1
  const NODE_COUNT: nat := 512
  const COMPRESSION_OVERHEAD: nat := 512
  const BYTE_COUNT: nat := 256

  datatype HuffmanNode = HuffmanNode(sym: byte, leftID: nat, rightID: nat)

  /** The nodes with ids in [lo, hi) reachable from id spell out the tree t. */
  ghost predicate Represents(nodes: seq<HuffmanNode>, lo: nat, hi: nat, id: nat, t: CodeTree)
    decreases t
  {
    && NULL_ID < lo <= id < hi <= |nodes|
    && match t
       case Leaf(b) => nodes[id].leftID == nodes[id].rightID == NULL_ID && nodes[id].sym == b
       case Node(l, r) =>
         && Represents(nodes, lo, hi, nodes[id].leftID, l)
         && Represents(nodes, lo, hi, nodes[id].rightID, r)
  }

  lemma {:induction false} RepresentsFrame(a: seq<HuffmanNode>, lo: nat, hi: nat, b: seq<HuffmanNode>,
    lo': nat, hi': nat, id: nat, t: CodeTree)
    requires Represents(a, lo, hi, id, t)
    requires 0 < lo' <= lo && hi <= hi' <= |b| && forall i :: lo <= i < hi ==> a[i] == b[i]
    ensures Represents(b, lo', hi', id, t)
    decreases t
  {
    match t
    case Leaf(_) =>
    case Node(l, r) =>
      RepresentsFrame(a, lo, hi, b, lo', hi', a[id].leftID, l);
      RepresentsFrame(a, lo, hi, b, lo', hi', a[id].rightID, r);
  }

  // ---- Building the tree ------------------------------------------------------------------

  datatype IntPair = IntPair(id: nat, freq: nat)

  function RemoveAt<T>(s: seq<T>, k: nat): seq<T>
    requires k < |s|
  {
    s[..k] + s[k + 1..]
  }

  lemma RemoveAtMultiset<T>(s: seq<T>, k: nat)
    requires k < |s|
    ensures multiset(s) == multiset(RemoveAt(s, k)) + multiset{s[k]}
  {
    assert s == s[..k] + [s[k]] + s[k + 1..];
  }

  ghost function Freqs(q: seq<IntPair>): (s: seq<nat>)
    ensures |s| == |q| && forall i :: 0 <= i < |q| ==> s[i] == q[i].freq
  {
    seq(|q|, i requires 0 <= i < |q| => q[i].freq)
  }

  ghost function ForestLeaves(forest: seq<CodeTree>, f: seq<nat>): multiset<nat>
    requires |f| == BYTE_COUNT
  {
    if forest == [] then multiset{} else Leaves(Weigh(forest[0], f)) + ForestLeaves(forest[1..], f)
  }

  ghost function ForestCost(forest: seq<CodeTree>, f: seq<nat>): nat
    requires |f| == BYTE_COUNT
  {
    if forest == [] then 0 else Cost(Weigh(forest[0], f)) + ForestCost(forest[1..], f)
  }

  lemma {:induction false} ForestRemove(forest: seq<CodeTree>, f: seq<nat>, k: nat)
    requires |f| == BYTE_COUNT && k < |forest|
    ensures ForestLeaves(forest, f) == ForestLeaves(RemoveAt(forest, k), f) + Leaves(Weigh(forest[k], f))
    ensures ForestCost(forest, f) == ForestCost(RemoveAt(forest, k), f) + Cost(Weigh(forest[k], f))
  {
    if k == 0 {
      assert RemoveAt(forest, 0) == forest[1..];
    } else {
      assert RemoveAt(forest, k)[1..] == RemoveAt(forest[1..], k - 1);
      ForestRemove(forest[1..], f, k - 1);
    }
  }

  lemma ForestSnoc(forest: seq<CodeTree>, f: seq<nat>, t: CodeTree)
    requires |f| == BYTE_COUNT
    ensures ForestLeaves(forest + [t], f) == ForestLeaves(forest, f) + Leaves(Weigh(t, f))
    ensures ForestCost(forest + [t], f) == ForestCost(forest, f) + Cost(Weigh(t, f))
  {
    ForestRemove(forest + [t], f, |forest|);
    assert RemoveAt(forest + [t], |forest|) == forest;
  }

  /** What holds of one queue entry and its tree. */
  ghost predicate Entry(nodes: seq<HuffmanNode>, next: nat, e: IntPair, t: CodeTree, f: seq<nat>)
    requires |f| == BYTE_COUNT
  {
    && Represents(nodes, FIRST_ID, next, e.id, t)
    && Proper(t) && e.freq == Weight(Weigh(t, f)) && FibonacciHeavy(Weigh(t, f))
  }

  /** What holds of two different entries. */
  ghost predicate Separate(e: IntPair, t: CodeTree, e': IntPair, t': CodeTree, f: seq<nat>)
    requires |f| == BYTE_COUNT
  {
    && Syms(t) !! Syms(t')
    && ChildrenAtMost(Weigh(t, f), e'.freq) && ChildrenAtMost(Weigh(t', f), e.freq)
  }

  lemma SeparateSwap(e: IntPair, t: CodeTree, e': IntPair, t': CodeTree, f: seq<nat>)
    requires |f| == BYTE_COUNT
    ensures Separate(e, t, e', t', f) <==> Separate(e', t', e, t, f)
  {
    hide Syms, Weigh, ChildrenAtMost;
  }

  ghost predicate Forest(nodes: seq<HuffmanNode>, next: nat, q: seq<IntPair>, forest: seq<CodeTree>, f: seq<nat>) {
    && |f| == BYTE_COUNT && |q| == |forest|
    && (forall i :: 0 <= i < |q| ==> Entry(nodes, next, q[i], forest[i], f))
    && (forall i, j :: 0 <= i < j < |q| ==> Separate(q[i], forest[i], q[j], forest[j], f))
  }

  /** The queue with the entry of least frequency taken out. Ties may break either way. */
  method PopTop(q: seq<IntPair>) returns (top: IntPair, rest: seq<IntPair>, ghost k: nat)
    requires q != []
    ensures k < |q| && top == q[k] && rest == RemoveAt(q, k)
    ensures forall i :: 0 <= i < |q| ==> top.freq <= q[i].freq
  {
    var m := 0;
    for i := 1 to |q|
      invariant m < |q| && forall j :: 0 <= j < i ==> q[m].freq <= q[j].freq
    {
      if q[i].freq < q[m].freq {
        m := i;
      } else if q[i].freq == q[m].freq {
        var tie: bool := *;
        m := if tie then i else m;
      }
    }
    top, rest, k := q[m], RemoveAt(q, m), m;
  }

  /** The weights still to be merged and the cost already spent account for every competing tree. */
  ghost predicate Accounted(f: seq<nat>, q: seq<IntPair>, forest: seq<CodeTree>, start: multiset<nat>)
    requires |f| == BYTE_COUNT
  {
    ForestLeaves(forest, f) == start && Reduced(start, multiset(Freqs(q)), ForestCost(forest, f))
  }

  lemma ForestPop(nodes: seq<HuffmanNode>, next: nat, q: seq<IntPair>, forest: seq<CodeTree>, f: seq<nat>, k: nat)
    requires Forest(nodes, next, q, forest, f) && k < |q|
    ensures Forest(nodes, next, RemoveAt(q, k), RemoveAt(forest, k), f)
    ensures Entry(nodes, next, q[k], forest[k], f)
    ensures forall i :: 0 <= i < |q| - 1 ==> Separate(RemoveAt(q, k)[i], RemoveAt(forest, k)[i], q[k], forest[k], f)
  {
    hide Entry, Separate;
    var q', forest' := RemoveAt(q, k), RemoveAt(forest, k);
    forall i | 0 <= i < |q'|
      ensures Entry(nodes, next, q'[i], forest'[i], f) && Separate(q'[i], forest'[i], q[k], forest[k], f)
    {
      var i0 := if i < k then i else i + 1;
      assert q'[i] == q[i0] && forest'[i] == forest[i0];
      assert Entry(nodes, next, q[i0], forest[i0], f);
      SeparateSwap(q[i0], forest[i0], q[k], forest[k], f);
      if i0 < k {
        assert Separate(q[i0], forest[i0], q[k], forest[k], f);
      } else {
        assert Separate(q[k], forest[k], q[i0], forest[i0], f);
      }
    }
    forall i, j | 0 <= i < j < |q'|
      ensures Separate(q'[i], forest'[i], q'[j], forest'[j], f)
    {
      var i0, j0 := if i < k then i else i + 1, if j < k then j else j + 1;
      assert q'[i] == q[i0] && forest'[i] == forest[i0] && q'[j] == q[j0] && forest'[j] == forest[j0];
      assert Separate(q[i0], forest[i0], q[j0], forest[j0], f);
    }
  }

  lemma ForestPush(nodes: seq<HuffmanNode>, next: nat, q: seq<IntPair>, forest: seq<CodeTree>, f: seq<nat>,
    e: IntPair, t: CodeTree)
    requires Forest(nodes, next, q, forest, f) && Entry(nodes, next, e, t, f)
    requires forall i :: 0 <= i < |q| ==> Separate(q[i], forest[i], e, t, f)
    ensures Forest(nodes, next, q + [e], forest + [t], f)
  {
  }

  lemma ForestFrame(nodes: seq<HuffmanNode>, next: nat, q: seq<IntPair>, forest: seq<CodeTree>, f: seq<nat>,
    nodes': seq<HuffmanNode>)
    requires Forest(nodes, next, q, forest, f)
    requires next < |nodes| == |nodes'| && forall i :: 0 <= i < next ==> nodes'[i] == nodes[i]
    ensures Forest(nodes', next + 1, q, forest, f)
  {
    forall i | 0 <= i < |q|
      ensures Entry(nodes', next + 1, q[i], forest[i], f)
    {
      assert Entry(nodes, next, q[i], forest[i], f);
      RepresentsFrame(nodes, FIRST_ID, next, nodes', FIRST_ID, next + 1, q[i].id, forest[i]);
    }
  }

  lemma JointEntry(nodes: seq<HuffmanNode>, id: nat, f: seq<nat>, l: IntPair, tl: CodeTree, r: IntPair, tr: CodeTree)
    requires |f| == BYTE_COUNT && FIRST_ID <= id < |nodes|
    requires Entry(nodes, id + 1, l, tl, f) && Entry(nodes, id + 1, r, tr, f) && Separate(r, tr, l, tl, f)
    requires nodes[id].leftID == l.id && nodes[id].rightID == r.id
    ensures Entry(nodes, id + 1, IntPair(id, l.freq + r.freq), Node(tl, tr), f)
  {
    MergeHeavy(Weigh(tl, f), Weigh(tr, f));
  }

  /** Entry a is least, and entry b is least among the rest. */
  ghost predicate TwoLeast(s: seq<nat>, a: nat, b: nat) {
    && a < |s| && b < |s| - 1
    && (forall i :: 0 <= i < |s| ==> s[a] <= s[i])
    && (forall i :: 0 <= i < |s| - 1 ==> RemoveAt(s, a)[b] <= RemoveAt(s, a)[i])
  }

  /** Taking out the two least entries a and b and putting in their joint tree at node id. */
  lemma ForestStep(nodes: seq<HuffmanNode>, q: seq<IntPair>, forest: seq<CodeTree>, f: seq<nat>,
                   a: nat, b: nat, nodes': seq<HuffmanNode>, id: nat)
    returns (q': seq<IntPair>, forest': seq<CodeTree>)
    requires Forest(nodes, id, q, forest, f)
    requires a < |q| && forall i :: 0 <= i < |q| ==> q[a].freq <= q[i].freq
    requires b < |q| - 1 && forall i :: 0 <= i < |q| - 1 ==> RemoveAt(q, a)[b].freq <= RemoveAt(q, a)[i].freq
    requires FIRST_ID <= id < |nodes| == |nodes'| && forall i :: 0 <= i < id ==> nodes'[i] == nodes[i]
    requires nodes'[id].leftID == q[a].id && nodes'[id].rightID == RemoveAt(q, a)[b].id
    ensures q' == RemoveAt(RemoveAt(q, a), b) + [IntPair(id, q[a].freq + RemoveAt(q, a)[b].freq)]
    ensures forest' == RemoveAt(RemoveAt(forest, a), b) + [Node(forest[a], RemoveAt(forest, a)[b])]
    ensures Forest(nodes', id + 1, q', forest', f)
  {
    hide Represents;
    var q1, f1 := RemoveAt(q, a), RemoveAt(forest, a);
    var q2, f2 := RemoveAt(q1, b), RemoveAt(f1, b);
    var l, r, tl, tr := q[a], q1[b], forest[a], f1[b];
    ForestFrame(nodes, id, q, forest, f, nodes');
    ForestPop(nodes', id + 1, q, forest, f, a);
    ForestPop(nodes', id + 1, q1, f1, f, b);
    var e, t := IntPair(id, l.freq + r.freq), Node(tl, tr);
    JointEntry(nodes', id, f, l, tl, r, tr);
    forall i | 0 <= i < |q2|
      ensures Separate(q2[i], f2[i], e, t, f)
    {
      var i1 := if i < b then i else i + 1;
      assert q2[i] == q1[i1] && f2[i] == f1[i1];
      JointSeparate(q2[i], f2[i], l, tl, r, tr, e, f);
    }
    ForestPush(nodes', id + 1, q2, f2, f, e, t);
    q', forest' := q2 + [e], f2 + [t];
  }

  lemma JointSeparate(x: IntPair, tx: CodeTree, l: IntPair, tl: CodeTree, r: IntPair, tr: CodeTree, e: IntPair,
    f: seq<nat>)
    requires |f| == BYTE_COUNT && Separate(x, tx, l, tl, f) && Separate(x, tx, r, tr, f)
    requires l.freq == Weight(Weigh(tl, f)) <= x.freq && r.freq == Weight(Weigh(tr, f)) <= x.freq
    requires e.freq == l.freq + r.freq
    ensures Separate(x, tx, e, Node(tl, tr), f)
  {
  }

  /** A step that merges the two lightest weights keeps every competing tree accounted for. */
  lemma AccountedStep(f: seq<nat>, q: seq<IntPair>, forest: seq<CodeTree>, start: multiset<nat>, x: nat, y: nat,
                      e: nat, q': seq<IntPair>, forest': seq<CodeTree>)
    requires |f| == BYTE_COUNT && Accounted(f, q, forest, start)
    requires LightestTwo(multiset(Freqs(q)), x, y) && e == x + y
    requires multiset(Freqs(q')) == multiset(Freqs(q)) - multiset{x, y} + multiset{e}
    requires ForestLeaves(forest', f) == ForestLeaves(forest, f)
    requires ForestCost(forest', f) == ForestCost(forest, f) + x + y
    ensures Accounted(f, q', forest', start)
  {
    ReducedStep(start, multiset(Freqs(q)), ForestCost(forest, f), x, y, e, multiset(Freqs(q')), ForestCost(forest', f));
  }

  lemma ForestTotals(f: seq<nat>, forest: seq<CodeTree>, a: nat, b: nat, forest': seq<CodeTree>)
    requires |f| == BYTE_COUNT && a < |forest| && b < |forest| - 1
    requires forest' == RemoveAt(RemoveAt(forest, a), b) + [Node(forest[a], RemoveAt(forest, a)[b])]
    ensures ForestLeaves(forest', f) == ForestLeaves(forest, f)
    ensures ForestCost(forest', f) == ForestCost(forest, f) + Weight(Weigh(forest[a], f)) + Weight(Weigh(RemoveAt(forest, a)[b], f))
  {
    ForestRemove(forest, f, a);
    ForestRemove(RemoveAt(forest, a), f, b);
    ForestSnoc(RemoveAt(RemoveAt(forest, a), b), f, Node(forest[a], RemoveAt(forest, a)[b]));
    WeighNode(forest[a], RemoveAt(forest, a)[b], f);
  }

  lemma WeighNode(l: CodeTree, r: CodeTree, f: seq<nat>)
    requires |f| == BYTE_COUNT
    ensures var x, y, z := Weigh(l, f), Weigh(r, f), Weigh(Node(l, r), f);
      Leaves(z) == Leaves(x) + Leaves(y) && Cost(z) == Cost(x) + Cost(y) + Weight(x) + Weight(y)
  {
  }

  lemma FreqsStep(q: seq<IntPair>, a: nat, b: nat, e: IntPair)
    requires TwoLeast(Freqs(q), a, b)
    ensures LightestTwo(multiset(Freqs(q)), q[a].freq, RemoveAt(q, a)[b].freq)
    ensures multiset(Freqs(RemoveAt(RemoveAt(q, a), b) + [e]))
      == multiset(Freqs(q)) - multiset{q[a].freq, RemoveAt(q, a)[b].freq} + multiset{e.freq}
  {
    var q1 := RemoveAt(q, a);
    var q2 := RemoveAt(q1, b);
    assert Freqs(q1) == RemoveAt(Freqs(q), a) && Freqs(q2) == RemoveAt(Freqs(q1), b);
    assert Freqs(q2 + [e]) == Freqs(q2) + [e.freq];
    TakeTwo(Freqs(q), a, b);
  }

  lemma LeastOf(s: seq<nat>, x: nat)
    requires forall i :: 0 <= i < |s| ==> x <= s[i]
    ensures forall z :: z in multiset(s) ==> x <= z
  {
    forall z | z in multiset(s)
      ensures x <= z
    {
      assert z in s;
    }
  }

  lemma TakeTwo(s: seq<nat>, a: nat, b: nat)
    requires TwoLeast(s, a, b)
    ensures LightestTwo(multiset(s), s[a], RemoveAt(s, a)[b])
    ensures multiset(RemoveAt(RemoveAt(s, a), b)) == multiset(s) - multiset{s[a], RemoveAt(s, a)[b]}
  {
    var s1 := RemoveAt(s, a);
    RemoveAtMultiset(s, a);
    RemoveAtMultiset(s1, b);
    LeastOf(s, s[a]);
    LeastOf(s1, s1[b]);
    hide RemoveAt;
    TwoLeastSets(multiset(s), multiset(s1), multiset(RemoveAt(s1, b)), s[a], s1[b]);
  }

  lemma TwoLeastSets(m: multiset<nat>, m1: multiset<nat>, m2: multiset<nat>, x: nat, y: nat)
    requires m == m1 + multiset{x} && m1 == m2 + multiset{y}
    requires (forall z :: z in m ==> x <= z) && forall z :: z in m1 ==> y <= z
    ensures LightestTwo(m, x, y) && m2 == m - multiset{x, y}
  {
    assert multiset{x, y} == multiset{x} + multiset{y};
    assert m - multiset{x} == m1;
  }

  /** The bytes below n that occur. */
  ghost function Used(f: seq<nat>, n: nat): seq<byte>
    requires n <= |f| == BYTE_COUNT
  {
    if n == 0 then [] else Used(f, n - 1) + if f[n - 1] > 0 then [n - 1] else []
  }

  /** All bytes that occur. */
  ghost function UsedAll(f: seq<nat>): seq<byte>
    requires |f| == BYTE_COUNT
  {
    Used(f, |f|)
  }

  ghost function Weights(f: seq<nat>, used: seq<byte>): (s: seq<nat>)
    requires |f| == BYTE_COUNT
    ensures |s| == |used| && forall i :: 0 <= i < |used| ==> s[i] == f[used[i]]
  {
    seq(|used|, i requires 0 <= i < |used| => f[used[i]])
  }

  ghost function LeafForest(used: seq<byte>): (s: seq<CodeTree>)
    ensures |s| == |used| && forall i :: 0 <= i < |used| ==> s[i] == Leaf(used[i])
  {
    seq(|used|, i requires 0 <= i < |used| => Leaf(used[i]))
  }

  lemma {:induction false} UsedBytes(f: seq<nat>, n: nat)
    requires n <= |f| == BYTE_COUNT
    ensures |Used(f, n)| <= n
    ensures forall b: byte :: b in Used(f, n) <==> b < n && f[b] > 0
    ensures forall i :: 0 <= i < |Used(f, n)| ==> Used(f, n)[i] < n
    ensures forall i, j :: 0 <= i < j < |Used(f, n)| ==> Used(f, n)[i] < Used(f, n)[j]
  {
    if n > 0 {
      UsedBytes(f, n - 1);
    }
  }

  lemma {:induction false} LeafForestFacts(f: seq<nat>, used: seq<byte>)
    requires |f| == BYTE_COUNT
    ensures ForestLeaves(LeafForest(used), f) == multiset(Weights(f, used))
    ensures ForestCost(LeafForest(used), f) == 0
  {
    if used == [] {
      assert Weights(f, used) == [];
    } else {
      assert LeafForest(used)[1..] == LeafForest(used[1..]);
      assert Weights(f, used) == [f[used[0]]] + Weights(f, used[1..]);
      LeafForestFacts(f, used[1..]);
    }
  }

  /** The i-th leaf node and its queue entry. */
  ghost predicate LeafNodes(nodes: seq<HuffmanNode>, used: seq<byte>) {
    && FIRST_ID + |used| <= |nodes|
    && forall i :: 0 <= i < |used| ==> nodes[FIRST_ID + i] == HuffmanNode(used[i], NULL_ID, NULL_ID)
  }

  lemma LeafForestValid(nodes: seq<HuffmanNode>, used: seq<byte>, q: seq<IntPair>, f: seq<nat>)
    requires |f| == BYTE_COUNT && LeafNodes(nodes, used) && |q| == |used|
    requires forall i :: 0 <= i < |used| ==> f[used[i]] > 0 && q[i] == IntPair(FIRST_ID + i, f[used[i]])
    requires forall i, j :: 0 <= i < j < |used| ==> used[i] < used[j]
    ensures Forest(nodes, FIRST_ID + |used|, q, LeafForest(used), f)
    ensures Accounted(f, q, LeafForest(used), multiset(Weights(f, used)))
  {
    hide Freqs, Reduced, Entry, Separate, LeafForest;
    forall i | 0 <= i < |used|
      ensures Entry(nodes, FIRST_ID + |used|, q[i], LeafForest(used)[i], f)
    {
      LeafEntry(nodes, FIRST_ID + |used|, q[i], used[i], f);
    }
    forall i, j | 0 <= i < j < |used|
      ensures Separate(q[i], LeafForest(used)[i], q[j], LeafForest(used)[j], f)
    {
      LeafSeparate(q[i], used[i], q[j], used[j], f);
    }
    LeafForestFacts(f, used);
    assert Freqs(q) == Weights(f, used);
    ReducedStart(multiset(Weights(f, used)));
  }

  lemma LeafEntry(nodes: seq<HuffmanNode>, next: nat, e: IntPair, b: byte, f: seq<nat>)
    requires |f| == BYTE_COUNT && f[b] > 0 && e.freq == f[b] && FIRST_ID <= e.id < next <= |nodes|
    requires nodes[e.id] == HuffmanNode(b, NULL_ID, NULL_ID)
    ensures Entry(nodes, next, e, Leaf(b), f)
  {
    assert Fib(2) == 1;
  }

  lemma LeafSeparate(e: IntPair, b: byte, e': IntPair, b': byte, f: seq<nat>)
    requires |f| == BYTE_COUNT && b != b'
    ensures Separate(e, Leaf(b), e', Leaf(b'), f)
  {
  }

  /** All bytes of the forest's trees. */
  ghost function ForestSyms(forest: seq<CodeTree>): set<byte> {
    if forest == [] then {} else Syms(forest[0]) + ForestSyms(forest[1..])
  }

  lemma {:induction false} SymsRemove(forest: seq<CodeTree>, k: nat)
    requires k < |forest|
    ensures ForestSyms(forest) == ForestSyms(RemoveAt(forest, k)) + Syms(forest[k])
  {
    if k == 0 {
      assert RemoveAt(forest, 0) == forest[1..];
    } else {
      assert RemoveAt(forest, k)[1..] == RemoveAt(forest[1..], k - 1);
      SymsRemove(forest[1..], k - 1);
    }
  }

  lemma SymsStep(forest: seq<CodeTree>, a: nat, b: nat)
    requires a < |forest| && b < |forest| - 1
    ensures ForestSyms(RemoveAt(RemoveAt(forest, a), b) + [Node(forest[a], RemoveAt(forest, a)[b])]) == ForestSyms(forest)
  {
    var rest, t := RemoveAt(RemoveAt(forest, a), b), Node(forest[a], RemoveAt(forest, a)[b]);
    SymsRemove(forest, a);
    SymsRemove(RemoveAt(forest, a), b);
    SymsRemove(rest + [t], |rest|);
    assert RemoveAt(rest + [t], |rest|) == rest;
  }

  lemma {:induction false} LeafForestSyms(used: seq<byte>)
    ensures ForestSyms(LeafForest(used)) == set b | b in used
  {
    if used != [] {
      assert LeafForest(used)[1..] == LeafForest(used[1..]);
      LeafForestSyms(used[1..]);
      assert used == [used[0]] + used[1..];
    }
  }

  /** t is a Huffman tree for the frequencies f: over exactly the bytes that occur, of least cost,
      and heavy enough at every height. */
  ghost predicate HuffmanTreeOf(t: CodeTree, f: seq<nat>) {
    && |f| == BYTE_COUNT && Proper(t)
    && (forall b: byte :: b in Syms(t) <==> f[b] > 0)
    && Leaves(Weigh(t, f)) == multiset(Weights(f, UsedAll(f)))
    && Optimal(Weigh(t, f)) && FibonacciHeavy(Weigh(t, f))
  }

  /** Put a leaf node for every byte that occurs. */
  method BuildLeaves(nodes: array<HuffmanNode>, byteFreq: array<nat>) returns (next: nat)
    requires nodes.Length == NODE_COUNT && byteFreq.Length == BYTE_COUNT
    modifies nodes
    ensures var used := UsedAll(byteFreq[..]);
      next == FIRST_ID + |used| && LeafNodes(nodes[..], used)
  {
    next := FIRST_ID;
    for i := 0 to BYTE_COUNT
      invariant next == FIRST_ID + |Used(byteFreq[..], i)| && LeafNodes(nodes[..], Used(byteFreq[..], i))
    {
      UsedBytes(byteFreq[..], i);
      if byteFreq[i] > 0 {
        nodes[next] := HuffmanNode(i, NULL_ID, NULL_ID);
        next := next + 1;
      }
    }
  }

  /** What the merging loop keeps. */
  ghost predicate Merging(nodes: seq<HuffmanNode>, next: nat, q: seq<IntPair>, forest: seq<CodeTree>,
    f: seq<nat>, start: multiset<nat>) {
    Forest(nodes, next, q, forest, f) && Accounted(f, q, forest, start)
  }

  /** Make node id the parent of the two least entries and queue it in their place. */
  method MergeTop(nodes: array<HuffmanNode>, id: nat, q: seq<IntPair>, ghost forest: seq<CodeTree>,
    ghost f: seq<nat>, ghost start: multiset<nat>)
    returns (q': seq<IntPair>, ghost forest': seq<CodeTree>)
    requires FIRST_ID <= id < nodes.Length && |q| > 1 && Merging(nodes[..], id, q, forest, f, start)
    modifies nodes
    ensures |q'| == |q| - 1 && Merging(nodes[..], id + 1, q', forest', f, start)
    ensures ForestSyms(forest') == ForestSyms(forest)
  {
    hide Forest, Accounted, ForestSyms, Freqs;
    ghost var before := nodes[..];
    var l, q1, a := PopTop(q);
    var r, q2, b := PopTop(q1);
    nodes[id] := nodes[id].(leftID := l.id, rightID := r.id);
    q' := q2 + [IntPair(id, l.freq + r.freq)];
    ghost var q0;
    q0, forest' := ForestStep(before, q, forest, f, a, b, nodes[..], id);
    MergeAccounted(before, id, q, forest, f, start, a, b, q', forest');
    SymsStep(forest, a, b);
  }

  lemma MergeAccounted(nodes: seq<HuffmanNode>, id: nat, q: seq<IntPair>, forest: seq<CodeTree>, f: seq<nat>,
    start: multiset<nat>,
                       a: nat, b: nat, q': seq<IntPair>, forest': seq<CodeTree>)
    requires Merging(nodes, id, q, forest, f, start)
    requires a < |q| && forall i :: 0 <= i < |q| ==> q[a].freq <= q[i].freq
    requires b < |q| - 1 && forall i :: 0 <= i < |q| - 1 ==> RemoveAt(q, a)[b].freq <= RemoveAt(q, a)[i].freq
    requires q' == RemoveAt(RemoveAt(q, a), b) + [IntPair(id, q[a].freq + RemoveAt(q, a)[b].freq)]
    requires forest' == RemoveAt(RemoveAt(forest, a), b) + [Node(forest[a], RemoveAt(forest, a)[b])]
    ensures |forest| == |q|
    ensures Accounted(f, q', forest', start)
  {
    assert Freqs(RemoveAt(q, a)) == RemoveAt(Freqs(q), a);
    ForestPop(nodes, id, q, forest, f, a);
    assert Entry(nodes, id, RemoveAt(q, a)[b], RemoveAt(forest, a)[b], f);
    BuildAccounted(f, q, forest, start, a, b, q', forest', id);
  }

  /** Put the leaf nodes and queue them. */
  method QueueLeaves(nodes: array<HuffmanNode>, byteFreq: array<nat>)
    returns (next: nat, q: seq<IntPair>, ghost forest: seq<CodeTree>)
    requires nodes.Length == NODE_COUNT && byteFreq.Length == BYTE_COUNT
    modifies nodes
    ensures byteFreq[..] == old(byteFreq[..])
    ensures var f := byteFreq[..];
      var used := UsedAll(f);
      && |q| == |used| <= BYTE_COUNT && next == FIRST_ID + |used|
      && Merging(nodes[..], next, q, forest, f, multiset(Weights(f, used)))
      && ForestSyms(forest) == set b | b in used
  {
    ghost var f := byteFreq[..];
    ghost var used := UsedAll(f);
    UsedBytes(f, |f|);
    next := BuildLeaves(nodes, byteFreq);
    q := [];
    for i := FIRST_ID to next
      invariant |q| == i - FIRST_ID && byteFreq[..] == f && LeafNodes(nodes[..], used)
      invariant forall j :: 0 <= j < |q| ==> q[j] == IntPair(FIRST_ID + j, f[used[j]])
    {
      assert nodes[..][FIRST_ID + (i - FIRST_ID)] == HuffmanNode(used[i - FIRST_ID], NULL_ID, NULL_ID);
      q := q + [IntPair(i, byteFreq[nodes[i].sym])];
    }
    forest := LeafForest(used);
    assert forall i :: 0 <= i < |used| ==> used[i] in used;
    LeafForestValid(nodes[..], used, q, f);
    LeafForestSyms(used);
  }

  lemma SomeUsed(f: seq<nat>)
    requires |f| == BYTE_COUNT && exists b: byte :: f[b] > 0
    ensures |UsedAll(f)| >= 1
  {
    UsedBytes(f, |f|);
  }

  method BuildHuffmanTree(nodes: array<HuffmanNode>, byteFreq: array<nat>)
    returns (root: nat, ghost next: nat, ghost tree: CodeTree)
    requires nodes.Length == NODE_COUNT && byteFreq.Length == BYTE_COUNT
    requires exists b: byte :: byteFreq[b] > 0
    modifies nodes
    ensures Represents(nodes[..], FIRST_ID, next, root, tree)
    ensures HuffmanTreeOf(tree, byteFreq[..])
  {
    ghost var f := byteFreq[..];
    ghost var used := UsedAll(f);
    ghost var start := multiset(Weights(f, used));
    hide Merging, Represents, HuffmanTreeOf, UsedAll, Weights;
    var nextNodeID, q;
    ghost var forest;
    nextNodeID, q, forest := QueueLeaves(nodes, byteFreq);
    SomeUsed(f);

    while |q| > 1
      invariant |q| >= 1 && nextNodeID + |q| <= 2 * BYTE_COUNT + 1
      invariant nextNodeID >= FIRST_ID && Merging(nodes[..], nextNodeID, q, forest, f, start)
      invariant ForestSyms(forest) == set b | b in used
      decreases |q|
    {
      var id := nextNodeID;
      nextNodeID := nextNodeID + 1;
      assert nextNodeID <= NODE_COUNT;
      q, forest := MergeTop(nodes, id, q, forest, f, start);
    }
    tree, next := forest[0], nextNodeID;
    root := q[0].id;
    BuildEnd(nodes[..], next, q, forest, f, start);
  }

  lemma BuildAccounted(f: seq<nat>, q: seq<IntPair>, forest: seq<CodeTree>, start: multiset<nat>, a: nat, b: nat,
                       q': seq<IntPair>, forest': seq<CodeTree>, id: nat)
    requires |f| == BYTE_COUNT && |q| == |forest| && Accounted(f, q, forest, start)
    requires TwoLeast(Freqs(q), a, b)
    requires q[a].freq == Weight(Weigh(forest[a], f)) && RemoveAt(q, a)[b].freq == Weight(Weigh(RemoveAt(forest, a)[b], f))
    requires q' == RemoveAt(RemoveAt(q, a), b) + [IntPair(id, q[a].freq + RemoveAt(q, a)[b].freq)]
    requires forest' == RemoveAt(RemoveAt(forest, a), b) + [Node(forest[a], RemoveAt(forest, a)[b])]
    ensures Accounted(f, q', forest', start)
  {
    var x, y := q[a].freq, RemoveAt(q, a)[b].freq;
    assert LightestTwo(multiset(Freqs(q)), x, y) && multiset(Freqs(q')) == multiset(Freqs(q)) - multiset{x, y} + multiset{q'[|q'| - 1].freq} by {
      FreqsStep(q, a, b, q'[|q'| - 1]);
    }
    assert ForestLeaves(forest', f) == ForestLeaves(forest, f) && ForestCost(forest', f) == ForestCost(forest, f) + x + y by {
      ForestTotals(f, forest, a, b, forest');
    }
    AccountedStep(f, q, forest, start, x, y, q'[|q'| - 1].freq, q', forest');
  }

  lemma BuildEnd(nodes: seq<HuffmanNode>, next: nat, q: seq<IntPair>, forest: seq<CodeTree>, f: seq<nat>,
    start: multiset<nat>)
    requires Forest(nodes, next, q, forest, f) && |q| == 1 && Accounted(f, q, forest, start)
    requires start == multiset(Weights(f, UsedAll(f)))
    requires ForestSyms(forest) == set b | b in UsedAll(f)
    ensures HuffmanTreeOf(forest[0], f)
  {
    var t := forest[0];
    assert forest == [t] && [t][1..] == [];
    assert Leaves(Weigh(t, f)) == start && ForestCost(forest, f) == Cost(Weigh(t, f)) by {
      ForestSnoc([], f, t);
      assert [] + [t] == [t];
    }
    ReducedEnd(Weigh(t, f), multiset(Freqs(q)));
    UsedBytes(f, |f|);
    assert ForestSyms(forest) == Syms(t);
  }
}
