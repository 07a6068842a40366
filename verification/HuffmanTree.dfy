/** Binary code trees: weights, costs, and why merging two lightest trees is optimal. */
module HuffmanTree {
  import opened Numerals

  datatype Tree<T> = Leaf(sym: T) | Node(left: Tree<T>, right: Tree<T>)

  // ---- Trees of weights -------------------------------------------------------------------

  type WTree = Tree<nat>

  ghost function Leaves(t: WTree): multiset<nat> {
    match t
    case Leaf(w) => multiset{w}
    case Node(l, r) => Leaves(l) + Leaves(r)
  }

  ghost function Weight(t: WTree): nat {
    match t
    case Leaf(w) => w
    case Node(l, r) => Weight(l) + Weight(r)
  }

  /** The total weighted leaf depth. */
  ghost function Cost(t: WTree): nat {
    match t
    case Leaf(_) => 0
    case Node(l, r) => Cost(l) + Cost(r) + Weight(t)
  }

  ghost function Height<T>(t: Tree<T>): nat {
    match t
    case Leaf(_) => 0
    case Node(l, r) => 1 + if Height(l) >= Height(r) then Height(l) else Height(r)
  }

  // ---- Subtrees by path -------------------------------------------------------------------

  ghost predicate IsPath(t: WTree, p: seq<bool>) {
    p == [] || (t.Node? && IsPath(if p[0] then t.right else t.left, p[1..]))
  }

  ghost function At(t: WTree, p: seq<bool>): WTree
    requires IsPath(t, p)
  {
    if p == [] then t else At(if p[0] then t.right else t.left, p[1..])
  }

  ghost function Put(t: WTree, p: seq<bool>, s: WTree): WTree
    requires IsPath(t, p)
  {
    if p == [] then s
    else if p[0] then Node(t.left, Put(t.right, p[1..], s))
    else Node(Put(t.left, p[1..], s), t.right)
  }

  ghost predicate IsLeafPath(t: WTree, p: seq<bool>) {
    IsPath(t, p) && At(t, p).Leaf?
  }

  lemma {:induction false} LeafDepth(t: WTree, p: seq<bool>)
    requires IsPath(t, p)
    ensures |p| + Height(At(t, p)) <= Height(t)
  {
    if p != [] {
      LeafDepth(if p[0] then t.right else t.left, p[1..]);
    }
  }

  lemma {:induction false} AtChild(t: WTree, p: seq<bool>, b: bool)
    requires IsPath(t, p) && At(t, p).Node?
    ensures IsPath(t, p + [b]) && At(t, p + [b]) == if b then At(t, p).right else At(t, p).left
  {
    if p == [] {
      assert (p + [b])[1..] == [];
    } else {
      assert (p + [b])[1..] == p[1..] + [b];
      AtChild(if p[0] then t.right else t.left, p[1..], b);
    }
  }

  lemma {:induction false} PutLeaves(t: WTree, p: seq<bool>, s: WTree)
    requires IsPath(t, p)
    ensures Leaves(At(t, p)) <= Leaves(t)
    ensures Leaves(Put(t, p, s)) == Leaves(t) - Leaves(At(t, p)) + Leaves(s)
  {
    if p != [] {
      var c, d := if p[0] then t.right else t.left, if p[0] then t.left else t.right;
      PutLeaves(c, p[1..], s);
      ReplacePart(Leaves(d), Leaves(c), Leaves(At(t, p)), Leaves(s));
    }
  }

  lemma ReplacePart(d: multiset<nat>, c: multiset<nat>, a: multiset<nat>, s: multiset<nat>)
    requires a <= c
    ensures a <= c + d && a <= d + c
    ensures d + (c - a + s) == d + c - a + s && (c - a + s) + d == c + d - a + s
  {
  }

  lemma {:induction false} PutWeight(t: WTree, p: seq<bool>, s: WTree)
    requires IsPath(t, p)
    ensures Weight(Put(t, p, s)) - Weight(s) == Weight(t) - Weight(At(t, p))
  {
    if p != [] {
      PutWeight(if p[0] then t.right else t.left, p[1..], s);
    }
  }

  lemma {:induction false} PutCost(t: WTree, p: seq<bool>, s: WTree)
    requires IsPath(t, p)
    ensures Cost(Put(t, p, s)) - Cost(s) == Cost(t) - Cost(At(t, p)) + |p| * (Weight(s) - Weight(At(t, p)))
  {
    if p != [] {
      var c := if p[0] then t.right else t.left;
      PutCost(c, p[1..], s);
      PutWeight(t, p, s);
      Distribute(|p| - 1, Weight(s) - Weight(At(t, p)));
    }
  }

  lemma Distribute(n: int, d: int)
    ensures (n + 1) * d == n * d + d
  {
  }

  /** Putting one leaf for another leaves every other leaf where it was. */
  lemma {:induction false} PutElsewhere(t: WTree, p: seq<bool>, s: WTree, q: seq<bool>)
    requires IsLeafPath(t, p) && IsLeafPath(t, q) && s.Leaf?
    ensures IsPath(Put(t, p, s), q)
    ensures At(Put(t, p, s), q) == if p == q then s else At(t, q)
  {
    if p != [] && q != [] && p[0] == q[0] {
      PutElsewhere(if p[0] then t.right else t.left, p[1..], s, q[1..]);
      assert p == [p[0]] + p[1..] && q == [q[0]] + q[1..];
    }
  }

  lemma {:induction false} Parent(t: WTree, p: seq<bool>, b: bool)
    requires IsPath(t, p + [b])
    ensures IsPath(t, p) && At(t, p).Node?
  {
    if p != [] {
      assert (p + [b])[1..] == p[1..] + [b];
      Parent(if p[0] then t.right else t.left, p[1..], b);
    }
  }

  lemma {:induction false} PutHeight(t: WTree, p: seq<bool>, s: WTree)
    requires IsLeafPath(t, p) && s.Leaf?
    ensures Height(Put(t, p, s)) == Height(t)
  {
    if p != [] {
      PutHeight(if p[0] then t.right else t.left, p[1..], s);
    }
  }

  /** Two different leaves are two different elements of the leaf multiset. */
  lemma {:induction false} TwoLeaves(t: WTree, p: seq<bool>, q: seq<bool>)
    requires IsLeafPath(t, p) && IsLeafPath(t, q) && p != q
    ensures multiset{At(t, p).sym, At(t, q).sym} <= Leaves(t)
  {
    var c := if p[0] then t.right else t.left;
    if p[0] == q[0] {
      assert p == [p[0]] + p[1..] && q == [q[0]] + q[1..];
      TwoLeaves(c, p[1..], q[1..]);
    } else {
      var d := if q[0] then t.right else t.left;
      LeafIn(c, p[1..]);
      LeafIn(d, q[1..]);
      PairIn(Leaves(c), Leaves(d), At(t, p).sym, At(t, q).sym);
    }
  }

  lemma LeafIn(t: WTree, p: seq<bool>)
    requires IsLeafPath(t, p)
    ensures At(t, p).sym in Leaves(t)
  {
    PutLeaves(t, p, t);
    assert At(t, p).sym in Leaves(At(t, p));
  }

  lemma PairIn(c: multiset<nat>, d: multiset<nat>, x: nat, y: nat)
    requires x in c && y in d
    ensures multiset{x, y} <= c + d && multiset{x, y} <= d + c
  {
  }

  lemma {:induction false} FindLeaf(t: WTree, w: nat) returns (p: seq<bool>)
    requires w in Leaves(t)
    ensures IsLeafPath(t, p) && At(t, p).sym == w
  {
    match t
    case Leaf(_) => p := [];
    case Node(l, r) =>
      if w in Leaves(l) {
        var q := FindLeaf(l, w);
        p := [false] + q;
      } else {
        var q := FindLeaf(r, w);
        p := [true] + q;
      }
      assert p[1..] == p[1..][..];
  }

  /** A leaf of weight w other than the leaf at p. */
  lemma FindOtherLeaf(t: WTree, p: seq<bool>, w: nat) returns (q: seq<bool>)
    requires IsLeafPath(t, p) && w in Leaves(t) - multiset{At(t, p).sym}
    ensures IsLeafPath(t, q) && q != p && At(t, q).sym == w
  {
    var mark := w + 1;
    var marked := Put(t, p, Leaf(mark));
    PutLeaves(t, p, Leaf(mark));
    q := FindLeaf(marked, w);
    PutElsewhere(t, p, Leaf(mark), p);
    PutElsewhere(marked, p, At(t, p), q);
    PutBack(t, p, Leaf(mark));
  }

  lemma {:induction false} PutBack(t: WTree, p: seq<bool>, s: WTree)
    requires IsPath(t, p)
    ensures IsPath(Put(t, p, s), p) && At(Put(t, p, s), p) == s
    ensures Put(Put(t, p, s), p, At(t, p)) == t
    ensures Put(t, p, At(t, p)) == t
  {
    if p != [] {
      PutBack(if p[0] then t.right else t.left, p[1..], s);
    }
  }

  /** Two deepest leaves that are siblings. */
  lemma {:induction false} DeepestPair(t: WTree) returns (d: seq<bool>)
    requires t.Node?
    ensures IsPath(t, d) && At(t, d).Node? && At(t, d).left.Leaf? && At(t, d).right.Leaf?
    ensures |d| + 1 == Height(t)
  {
    if t.left.Leaf? && t.right.Leaf? {
      d := [];
    } else if Height(t.left) >= Height(t.right) {
      var e := DeepestPair(t.left);
      d := [false] + e;
      assert d[1..] == e;
    } else {
      var e := DeepestPair(t.right);
      d := [true] + e;
      assert d[1..] == e;
    }
  }

  /** Exchanging two leaves. */
  ghost function Swap(t: WTree, p: seq<bool>, q: seq<bool>): WTree
    requires IsLeafPath(t, p) && IsLeafPath(t, q)
  {
    PutElsewhere(t, p, At(t, q), q);
    Put(Put(t, p, At(t, q)), q, At(t, p))
  }

  lemma SwapAt(t: WTree, p: seq<bool>, q: seq<bool>, r: seq<bool>)
    requires IsLeafPath(t, p) && IsLeafPath(t, q) && IsLeafPath(t, r)
    ensures IsPath(Swap(t, p, q), r)
    ensures At(Swap(t, p, q), r) == if r == q then At(t, p) else if r == p then At(t, q) else At(t, r)
  {
    PutElsewhere(t, p, At(t, q), q);
    PutElsewhere(t, p, At(t, q), r);
    PutElsewhere(Put(t, p, At(t, q)), q, At(t, p), r);
  }

  /** Exchanging a leaf p with a leaf q that is no lighter and no higher does not raise the cost. */
  lemma SwapCost(t: WTree, p: seq<bool>, q: seq<bool>)
    requires IsLeafPath(t, p) && IsLeafPath(t, q)
    requires |p| <= |q| && At(t, p).sym <= At(t, q).sym
    ensures Cost(Swap(t, p, q)) <= Cost(t)
  {
    var x, y := At(t, p), At(t, q);
    var m := Put(t, p, y);
    PutElsewhere(t, p, y, q);
    assert Cost(m) == Cost(t) + |p| * (y.sym - x.sym) by { PutCost(t, p, y); }
    assert Cost(Swap(t, p, q)) == Cost(m) + |q| * (x.sym - y.sym) by { PutCost(m, q, x); }
    SwapArithmetic(|p|, |q|, x.sym, y.sym);
  }

  lemma SwapKeeps(t: WTree, p: seq<bool>, q: seq<bool>)
    requires IsLeafPath(t, p) && IsLeafPath(t, q)
    ensures Leaves(Swap(t, p, q)) == Leaves(t)
    ensures Height(Swap(t, p, q)) == Height(t)
  {
    var x, y := At(t, p), At(t, q);
    var m := Put(t, p, y);
    PutElsewhere(t, p, y, q);
    PutHeight(t, p, y);
    PutHeight(m, q, x);
    PutLeaves(t, p, y);
    PutLeaves(m, q, x);
    assert Leaves(m) == Leaves(t) - multiset{x.sym} + multiset{y.sym};
    assert Leaves(Swap(t, p, q)) == Leaves(m) - multiset{y.sym} + multiset{x.sym};
  }

  lemma SwapArithmetic(m: nat, n: nat, x: nat, y: nat)
    requires m <= n && x <= y
    ensures m * (y - x) + n * (x - y) <= 0
  {
    assert m * (y - x) + n * (x - y) == (m - n) * (y - x);
    assert (n - m) * (y - x) >= 0;
  }

  ghost predicate LightestTwo(w: multiset<nat>, a: nat, b: nat) {
    && multiset{a, b} <= w
    && (forall x :: x in w ==> a <= x)
    && (forall x :: x in w - multiset{a} ==> b <= x)
  }

  /** Any tree can be rearranged, without raising its cost, so that its two lightest leaves are
      siblings. */
  lemma SinkLightest(t: WTree, a: nat, b: nat) returns (u: WTree, d: seq<bool>)
    requires LightestTwo(Leaves(t), a, b)
    ensures Leaves(u) == Leaves(t) && Cost(u) <= Cost(t)
    ensures IsPath(u, d) && At(u, d) == Node(Leaf(a), Leaf(b))
  {
    assert t.Node? by { assert |multiset{a, b}| == 2; }
    d := DeepestPair(t);
    var p, q := DeepestLeaves(t, d);
    var t1 := SinkFirst(t, a, p);
    u := SinkSecond(t1, a, b, p, q);
    SiblingPair(u, d, a, b);
  }

  lemma DeepestLeaves(t: WTree, d: seq<bool>) returns (p: seq<bool>, q: seq<bool>)
    requires IsPath(t, d) && At(t, d).Node? && At(t, d).left.Leaf? && At(t, d).right.Leaf?
    ensures p == d + [false] && q == d + [true] && p != q
    ensures IsLeafPath(t, p) && IsLeafPath(t, q)
  {
    p, q := d + [false], d + [true];
    assert p[|d|] != q[|d|];
    AtChild(t, d, false);
    AtChild(t, d, true);
  }

  /** Bring a second lightest leaf to another deepest place. */
  lemma SinkSecond(t: WTree, a: nat, b: nat, p: seq<bool>, q: seq<bool>) returns (u: WTree)
    requires LightestTwo(Leaves(t), a, b)
    requires IsLeafPath(t, p) && At(t, p) == Leaf(a) && p != q
    requires IsLeafPath(t, q) && |q| == Height(t)
    ensures Leaves(u) == Leaves(t) && Cost(u) <= Cost(t)
    ensures IsPath(u, p) && At(u, p) == Leaf(a) && IsPath(u, q) && At(u, q) == Leaf(b)
  {
    assert b in Leaves(t) - multiset{a} by { assert multiset{a, b} - multiset{a} == multiset{b}; }
    var pb := FindOtherLeaf(t, p, b);
    LeafDepth(t, pb);
    var y := At(t, q).sym;
    TwoLeaves(t, p, q);
    assert y in Leaves(t) - multiset{a} by { assert multiset{a, y} - multiset{a} == multiset{y}; }
    SwapKeeps(t, pb, q);
    SwapCost(t, pb, q);
    SwapAt(t, pb, q, p);
    SwapAt(t, pb, q, q);
    u := Swap(t, pb, q);
  }

  /** Bring a lightest leaf to a deepest place. */
  lemma SinkFirst(t: WTree, a: nat, p: seq<bool>) returns (u: WTree)
    requires a in Leaves(t) && forall x :: x in Leaves(t) ==> a <= x
    requires IsLeafPath(t, p) && |p| == Height(t)
    ensures Leaves(u) == Leaves(t) && Cost(u) <= Cost(t) && Height(u) == Height(t)
    ensures IsPath(u, p) && At(u, p) == Leaf(a)
    ensures forall r :: IsLeafPath(t, r) ==> IsLeafPath(u, r)
  {
    var pa := FindLeaf(t, a);
    LeafDepth(t, pa);
    PutLeaves(t, p, Leaf(0));
    SwapKeeps(t, pa, p);
    SwapCost(t, pa, p);
    u := Swap(t, pa, p);
    SwapAt(t, pa, p, p);
    forall r | IsLeafPath(t, r)
      ensures IsLeafPath(u, r)
    {
      SwapAt(t, pa, p, r);
    }
  }

  lemma SiblingPair(u: WTree, d: seq<bool>, a: nat, b: nat)
    requires IsPath(u, d + [false]) && At(u, d + [false]) == Leaf(a)
    requires IsPath(u, d + [true]) && At(u, d + [true]) == Leaf(b)
    ensures IsPath(u, d) && At(u, d) == Node(Leaf(a), Leaf(b))
  {
    Parent(u, d, false);
    AtChild(u, d, false);
    AtChild(u, d, true);
  }

  /** Two lightest leaves of any tree can become one leaf of their joint weight, the cost falling
      by at least that weight. */
  lemma MergeLightest(t: WTree, a: nat, b: nat, e: nat) returns (v: WTree)
    requires LightestTwo(Leaves(t), a, b) && e == a + b
    ensures Leaves(v) == Leaves(t) - multiset{a, b} + multiset{e}
    ensures Cost(v) + e <= Cost(t)
  {
    var u, d := SinkLightest(t, a, b);
    v := Put(u, d, Leaf(e));
    CollapseLeaves(u, d, a, b, e);
    CollapseCost(u, d, a, b, e);
  }

  /** Replacing two sibling leaves by one leaf of their joint weight. */
  lemma CollapseLeaves(u: WTree, d: seq<bool>, a: nat, b: nat, e: nat)
    requires IsPath(u, d) && At(u, d) == Node(Leaf(a), Leaf(b))
    ensures Leaves(Put(u, d, Leaf(e))) == Leaves(u) - multiset{a, b} + multiset{e}
  {
    PairFacts(a, b);
    PutLeaves(u, d, Leaf(e));
  }

  lemma CollapseCost(u: WTree, d: seq<bool>, a: nat, b: nat, e: nat)
    requires IsPath(u, d) && At(u, d) == Node(Leaf(a), Leaf(b)) && e == a + b
    ensures Cost(Put(u, d, Leaf(e))) + e == Cost(u)
  {
    PairFacts(a, b);
    PutCost(u, d, Leaf(e));
    assert |d| * 0 == 0;
  }

  lemma PairFacts(a: nat, b: nat)
    ensures Leaves(Node(Leaf(a), Leaf(b))) == multiset{a, b}
    ensures Weight(Node(Leaf(a), Leaf(b))) == Cost(Node(Leaf(a), Leaf(b))) == a + b
  {
    var x, y := Leaf(a), Leaf(b);
    assert Leaves(x) == multiset{a} && Leaves(y) == multiset{b};
    assert Weight(x) == a && Weight(y) == b && Cost(x) == Cost(y) == 0;
  }

  // ---- Optimality of the merging loop -----------------------------------------------------

  /** Every tree over the weights start costs at least c more than some tree over the weights now. */
  ghost predicate Reduced(start: multiset<nat>, now: multiset<nat>, c: nat) {
    forall t: WTree {:trigger CanReduce(t, now, c)} :: Leaves(t) == start ==> CanReduce(t, now, c)
  }

  ghost predicate CanReduce(t: WTree, now: multiset<nat>, c: nat) {
    exists v: WTree :: Leaves(v) == now && Cost(v) + c <= Cost(t)
  }

  lemma ReducedStart(start: multiset<nat>)
    ensures Reduced(start, start, 0)
  {
    forall t: WTree | Leaves(t) == start
      ensures CanReduce(t, start, 0)
    {
      assert Leaves(t) == start && Cost(t) + 0 <= Cost(t);
    }
  }

  /** Merging two lightest weights a and b into e keeps the best reachable cost. */
  lemma ReducedStep(start: multiset<nat>, now: multiset<nat>, c: nat, a: nat, b: nat, e: nat,
    next: multiset<nat>, cost: nat)
    requires Reduced(start, now, c) && LightestTwo(now, a, b)
    requires e == a + b && next == now - multiset{a, b} + multiset{e} && cost == c + e
    ensures Reduced(start, next, cost)
  {
    forall t: WTree | Leaves(t) == start
      ensures CanReduce(t, next, cost)
    {
      assert CanReduce(t, now, c);
      var v: WTree :| Leaves(v) == now && Cost(v) + c <= Cost(t);
      var u := MergeLightest(v, a, b, e);
      assert Leaves(u) == next && Cost(u) + cost <= Cost(t);
    }
  }

  /** The cost of t is least among all trees over the same leaf weights. */
  ghost predicate Optimal(t: WTree) {
    forall u: WTree {:trigger Cost(u)} :: Leaves(u) == Leaves(t) ==> Cost(t) <= Cost(u)
  }

  lemma ReducedEnd(t: WTree, now: multiset<nat>)
    requires Reduced(Leaves(t), now, Cost(t))
    ensures Optimal(t)
  {
    forall u: WTree | Leaves(u) == Leaves(t)
      ensures Cost(t) <= Cost(u)
    {
      assert CanReduce(u, now, Cost(t));
    }
  }

  // ---- Depth ------------------------------------------------------------------------------

  function Fib(n: nat): nat {
    if n < 2 then n else Fib(n - 1) + Fib(n - 2)
  }

  /** A tree of height h weighs at least Fib(h + 2). */
  ghost predicate HeavyFor(t: WTree, h: nat) {
    Height(t) == h && Weight(t) >= Fib(h + 2)
  }

  /** The tree and its children are heavy for their heights. */
  ghost predicate FibonacciHeavy(t: WTree) {
    && HeavyFor(t, Height(t))
    && (t.Node? ==> HeavyFor(t.left, Height(t.left)) && HeavyFor(t.right, Height(t.right)))
  }

  /** Both children of t weigh at most w. */
  ghost predicate ChildrenAtMost(t: WTree, w: nat) {
    t.Node? ==> Weight(t.left) <= w && Weight(t.right) <= w
  }

  lemma MergeHeavy(l: WTree, r: WTree)
    requires FibonacciHeavy(l) && FibonacciHeavy(r)
    requires ChildrenAtMost(l, Weight(r)) && ChildrenAtMost(r, Weight(l))
    ensures FibonacciHeavy(Node(l, r))
  {
    var h := if Height(l) >= Height(r) then Height(l) else Height(r);
    if Height(l) >= Height(r) {
      PartnerWeight(l, r);
    } else {
      PartnerWeight(r, l);
    }
    FibStep(h + 1);
    assert Weight(Node(l, r)) == Weight(l) + Weight(r) && Height(Node(l, r)) == h + 1;
  }

  /** What is no lighter than the children of t weighs enough for the next Fibonacci number. */
  lemma PartnerWeight(t: WTree, o: WTree)
    requires FibonacciHeavy(t) && FibonacciHeavy(o) && ChildrenAtMost(t, Weight(o))
    ensures Weight(o) >= Fib(Height(t) + 1)
  {
    hide Fib, Weight;
    if t.Leaf? {
      FibMonotone(1, Height(o) + 2);
    } else {
      var c := if Height(t.left) >= Height(t.right) then t.left else t.right;
      assert Height(t) == 1 + Height(c) && HeavyFor(c, Height(c)) && Weight(c) <= Weight(o);
    }
  }

  lemma FibStep(n: nat)
    ensures Fib(n + 2) == Fib(n + 1) + Fib(n)
  {
  }

  lemma {:induction false} FibGrows(k: nat)
    ensures Fib(2 * k + 2) >= Pow(2, k) && Fib(2 * k + 3) >= Pow(2, k)
  {
    if k > 0 {
      FibGrows(k - 1);
      assert Fib(2 * k + 2) == Fib(2 * k + 1) + Fib(2 * k);
      assert Fib(2 * k + 3) == Fib(2 * k + 2) + Fib(2 * k + 1);
    }
  }

  lemma {:induction false} FibMonotone(m: nat, n: nat)
    requires m <= n
    ensures Fib(m) <= Fib(n)
  {
    if m < n {
      FibMonotone(m, n - 1);
      assert n >= 2 ==> Fib(n) == Fib(n - 1) + Fib(n - 2);
    }
  }

  lemma HeightBelow(t: WTree, k: nat)
    requires HeavyFor(t, Height(t)) && Weight(t) < Pow(2, k)
    ensures Height(t) < 2 * k
  {
    if Height(t) >= 2 * k {
      FibGrows(k);
      FibMonotone(2 * k + 2, Height(t) + 2);
    }
  }

  // ---- The balanced tree ------------------------------------------------------------------

  ghost function Sum(ws: seq<nat>): nat {
    if ws == [] then 0 else ws[0] + Sum(ws[1..])
  }

  lemma {:induction false} SumConcat(s: seq<nat>, t: seq<nat>)
    ensures Sum(s + t) == Sum(s) + Sum(t)
  {
    if s == [] {
      assert s + t == t;
    } else {
      assert (s + t)[1..] == s[1..] + t;
      SumConcat(s[1..], t);
    }
  }

  /** t is a tree over the weights ws with no leaf deeper than k, and no costlier than that allows. */
  ghost predicate Shallow(t: WTree, ws: seq<nat>, k: nat) {
    Leaves(t) == multiset(ws) && Weight(t) == Sum(ws) && Height(t) <= k && Cost(t) <= k * Sum(ws)
  }

  /** Over at most 2^k weights there is a tree in which no leaf is deeper than k. */
  lemma {:induction false} Balanced(ws: seq<nat>, k: nat) returns (t: WTree)
    requires 1 <= |ws| <= Pow(2, k)
    ensures Shallow(t, ws, k)
  {
    hide Shallow, Pow;
    if |ws| == 1 {
      t := ShallowLeaf(ws, k);
    } else {
      var h := |ws| / 2;
      HalvesFit(|ws|, k);
      var l := Balanced(ws[..h], k - 1);
      var r := Balanced(ws[h..], k - 1);
      assert ws == ws[..h] + ws[h..];
      t := JoinShallow(ws[..h], l, ws[h..], r, k - 1, ws);
    }
  }

  lemma ShallowLeaf(ws: seq<nat>, k: nat) returns (t: WTree)
    requires |ws| == 1
    ensures Shallow(t, ws, k)
  {
    t := Leaf(ws[0]);
    assert ws == [ws[0]] && ws[1..] == [];
    MulSign(k, Sum(ws));
  }

  lemma JoinShallow(a: seq<nat>, l: WTree, b: seq<nat>, r: WTree, k: nat, ws: seq<nat>) returns (t: WTree)
    requires Shallow(l, a, k) && Shallow(r, b, k) && ws == a + b
    ensures Shallow(t, ws, k + 1)
  {
    t := Node(l, r);
    SumConcat(a, b);
    BalancedCost(k, Sum(a), Sum(b));
    assert Leaves(t) == multiset(a) + multiset(b);
    assert multiset(a + b) == multiset(a) + multiset(b);
  }

  lemma HalvesFit(n: nat, k: nat)
    requires 2 <= n <= Pow(2, k)
    ensures k > 0 && 1 <= n / 2 <= Pow(2, k - 1) && n - n / 2 <= Pow(2, k - 1)
  {
  }

  lemma BalancedCost(k: nat, x: nat, y: nat)
    ensures k * x + k * y + (x + y) == (k + 1) * (x + y)
  {
  }
}
