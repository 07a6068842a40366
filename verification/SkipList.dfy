/** An order-statistic skip list: every level skips over the nodes that do not reach it, and every joint
    knows how many places of the full list it skips. */
module SkipList {
  import opened Options

  const NULL: int := -1
  const HEAD: nat := 0

  // ---- The neighbours on a level ----------------------------------------------------------

  /** The heights along the list; position 0 is the head. The first position from k on that reaches level
      i, or the end. */
  ghost function NextFrom(hs: seq<nat>, i: nat, k: nat): (b: nat)
    requires k <= |hs|
    ensures k <= b <= |hs|
    decreases |hs| - k
  {
    if k == |hs| || hs[k] > i then k else NextFrom(hs, i, k + 1)
  }

  /** b is the first position from k on that reaches level i, or the end. */
  ghost predicate IsNext(hs: seq<nat>, i: nat, k: nat, b: nat) {
    k <= b <= |hs| && (b < |hs| ==> hs[b] > i) && forall j :: k <= j < b ==> hs[j] <= i
  }

  lemma {:induction false} NextIs(hs: seq<nat>, i: nat, k: nat, b: nat)
    requires k <= |hs|
    ensures IsNext(hs, i, k, b) <==> NextFrom(hs, i, k) == b
    decreases |hs| - k
  {
    if k < |hs| && hs[k] <= i {
      NextIs(hs, i, k + 1, b);
    }
  }

  /** The last position before b that reaches level i. */
  ghost function Prev(hs: seq<nat>, i: nat, b: nat): (a: nat)
    requires 0 < b <= |hs| && hs[0] > i
    ensures a < b && hs[a] > i
  {
    if hs[b - 1] > i then b - 1 else Prev(hs, i, b - 1)
  }

  ghost predicate IsPrev(hs: seq<nat>, i: nat, b: nat, a: nat) {
    a < b <= |hs| && hs[a] > i && forall j :: a < j < b ==> hs[j] <= i
  }

  lemma {:induction false} PrevIs(hs: seq<nat>, i: nat, b: nat, a: nat)
    requires 0 < b <= |hs| && hs[0] > i
    ensures IsPrev(hs, i, b, a) <==> Prev(hs, i, b) == a
  {
    if hs[b - 1] <= i {
      PrevIs(hs, i, b - 1, a);
    }
  }

  /** The sequence with x put in at position q, or with position q taken out. */
  function Ins(s: seq<nat>, q: nat, x: nat): (r: seq<nat>)
    requires q <= |s|
    ensures |r| == |s| + 1
  {
    s[..q] + [x] + s[q..]
  }

  function Del(s: seq<nat>, q: nat): (r: seq<nat>)
    requires q < |s|
    ensures |r| == |s| - 1
  {
    s[..q] + s[q + 1..]
  }

  lemma InsEach(s: seq<nat>, q: nat, x: nat)
    requires q <= |s|
    ensures forall j {:trigger Ins(s, q, x)[j]} :: 0 <= j <= |s| ==>
      Ins(s, q, x)[j] == if j < q then s[j] else if j == q then x else s[j - 1]
  {
  }

  /** Where the next position on a level moves when a node of height h comes in at q. */
  lemma NextIns(hs: seq<nat>, i: nat, q: nat, h: nat, k: nat)
    requires k <= |hs| && q <= |hs|
    ensures k <= q ==>
      var b := NextFrom(hs, i, k);
      NextFrom(Ins(hs, q, h), i, k) == if b < q then b else if h > i then q else b + 1
    ensures k >= q ==> NextFrom(Ins(hs, q, h), i, k + 1) == NextFrom(hs, i, k) + 1
  {
    InsEach(hs, q, h);
    hide NextFrom, Ins;
    var hs', b := Ins(hs, q, h), NextFrom(hs, i, k);
    NextIs(hs, i, k, b);
    if k <= q {
      var e := if b < q then b else if h > i then q else b + 1;
      assert IsNext(hs', i, k, e);
      NextIs(hs', i, k, e);
    }
    if k >= q {
      assert IsNext(hs', i, k + 1, b + 1);
      NextIs(hs', i, k + 1, b + 1);
    }
  }

  lemma NextDel(hs: seq<nat>, i: nat, q: nat, k: nat)
    requires k < |hs| && q < |hs|
    ensures k <= q ==>
      var b := NextFrom(hs, i, k);
      NextFrom(Del(hs, q), i, k) == if b < q then b else if b == q then NextFrom(hs, i, q + 1) - 1 else b - 1
    ensures k >= q ==> NextFrom(Del(hs, q), i, k) == NextFrom(hs, i, k + 1) - 1
  {
    hide NextFrom;
    var hs', b, c, d := Del(hs, q), NextFrom(hs, i, k), NextFrom(hs, i, k + 1), NextFrom(hs, i, q + 1);
    NextIs(hs, i, k, b);
    NextIs(hs, i, k + 1, c);
    NextIs(hs, i, q + 1, d);
    if k <= q {
      NextIs(hs', i, k, if b < q then b else if b == q then d - 1 else b - 1);
    }
    if k >= q {
      NextIs(hs', i, k, c - 1);
    }
  }

  lemma PrevIns(hs: seq<nat>, i: nat, q: nat, h: nat, b: nat)
    requires 0 < q <= |hs| && 0 < b <= |hs| && hs[0] > i
    ensures b <= q ==> Prev(Ins(hs, q, h), i, b) == Prev(hs, i, b)
    ensures b >= q ==>
      var a := Prev(hs, i, b);
      Prev(Ins(hs, q, h), i, b + 1) == if a >= q then a + 1 else if h > i then q else a
  {
    hide Prev;
    var hs', a := Ins(hs, q, h), Prev(hs, i, b);
    PrevIs(hs, i, b, a);
    if b <= q {
      PrevIs(hs', i, b, a);
    }
    if b >= q {
      PrevIs(hs', i, b + 1, if a >= q then a + 1 else if h > i then q else a);
    }
  }

  lemma PrevDel(hs: seq<nat>, i: nat, q: nat, b: nat)
    requires 0 < q < |hs| && 0 < b <= |hs| && hs[0] > i
    ensures b <= q ==> Prev(Del(hs, q), i, b) == Prev(hs, i, b)
    ensures b > q ==>
      var a := Prev(hs, i, b);
      Prev(Del(hs, q), i, b - 1) == if a > q then a - 1 else if a == q then Prev(hs, i, q) else a
  {
    hide Prev;
    var hs', a, c := Del(hs, q), Prev(hs, i, b), Prev(hs, i, q);
    PrevIs(hs, i, b, a);
    PrevIs(hs, i, q, c);
    if b <= q {
      PrevIs(hs', i, b, a);
    }
    if b > q {
      PrevIs(hs', i, b - 1, if a > q then a - 1 else if a == q then c else a);
    }
  }

  lemma PrevOfNext(hs: seq<nat>, i: nat, q: nat)
    requires 0 < q <= |hs| && hs[0] > i && NextFrom(hs, i, q) < |hs|
    ensures Prev(hs, i, NextFrom(hs, i, q)) == Prev(hs, i, q)
  {
    Gap(hs, i, q, Prev(hs, i, q), NextFrom(hs, i, q));
    PrevIs(hs, i, NextFrom(hs, i, q), Prev(hs, i, q));
  }

  lemma Gap(hs: seq<nat>, i: nat, q: nat, a: nat, b: nat)
    requires 0 < q <= |hs| && hs[0] > i && a == Prev(hs, i, q) && b == NextFrom(hs, i, q)
    ensures IsNext(hs, i, a + 1, b) && (b < |hs| ==> IsPrev(hs, i, b, a))
  {
    hide NextFrom, Prev;
    NextIs(hs, i, q, b);
    PrevIs(hs, i, q, a);
  }

  lemma NextHere(hs: seq<nat>, i: nat, q: nat)
    requires q < |hs|
    ensures NextFrom(hs, i, q) == if hs[q] > i then q else NextFrom(hs, i, q + 1)
  {
  }

  // ---- The links and distances of a level -------------------------------------------------

  /** The nodes in the order of the list, each once, and their heights. */
  ghost predicate Order(order: seq<nat>, hs: seq<nat>, nodes: nat, maxLevel: nat) {
    && |order| == |hs| > 0 && order[0] == HEAD && hs[0] == maxLevel
    && (forall a :: 0 <= a < |order| ==> order[a] < nodes && 1 <= hs[a] <= maxLevel)
    && forall a, b :: 0 <= a < b < |order| ==> order[a] != order[b]
  }

  ghost function NodeAt(order: seq<nat>, b: nat): int {
    if b < |order| then order[b] else NULL
  }

  ghost predicate PtrAt(order: seq<nat>, hs: seq<nat>, nx: seq<int>, i: nat, a: nat)
    requires a < |order| == |hs| && order[a] < |nx|
  {
    nx[order[a]] == NodeAt(order, NextFrom(hs, i, a + 1))
  }

  /** On level i each node is linked to the next one that reaches the level. */
  ghost predicate Ptrs(order: seq<nat>, hs: seq<nat>, nx: seq<int>, i: nat) {
    |order| == |hs| && forall a :: 0 <= a < |order| && hs[a] > i ==> order[a] < |nx| && PtrAt(order, hs, nx, i, a)
  }

  ghost predicate DistAt(order: seq<nat>, hs: seq<nat>, ds: seq<int>, i: nat, b: nat)
    requires 0 < b < |order| == |hs| && order[b] < |ds| && hs[0] > i
  {
    ds[order[b]] == b - Prev(hs, i, b)
  }

  /** On level i each node knows how far back the one before it on the level is. */
  ghost predicate Dists(order: seq<nat>, hs: seq<nat>, ds: seq<int>, i: nat) {
    && |order| == |hs| > 0 && hs[0] > i
    && forall b :: 0 < b < |order| && hs[b] > i ==> order[b] < |ds| && DistAt(order, hs, ds, i, b)
  }

  lemma NodeIns(order: seq<nat>, q: nat, p: nat, b: nat)
    requires q <= |order|
    ensures b < q ==> NodeAt(Ins(order, q, p), b) == NodeAt(order, b)
    ensures NodeAt(Ins(order, q, p), q) == p
    ensures b >= q ==> NodeAt(Ins(order, q, p), b + 1) == NodeAt(order, b)
  {
  }

  lemma InsAt(s: seq<nat>, q: nat, x: nat, k: nat)
    requires q <= |s| && k <= |s|
    ensures Ins(s, q, x)[k] == if k < q then s[k] else if k == q then x else s[k - 1]
  {
  }

  /** Where a node's link leads after the node p of height h came in at q. */
  lemma PtrMoves(order: seq<nat>, hs: seq<nat>, i: nat, q: nat, p: nat, h: nat, a: nat)
    requires |order| == |hs| && 0 < q <= |hs| && a < |hs| && hs[0] > i && hs[a] > i
    ensures
      var b, b' := NextFrom(hs, i, a + 1), NextFrom(Ins(hs, q, h), i, if a < q then a + 1 else a + 2);
      NodeAt(Ins(order, q, p), b') == if h > i && a == Prev(hs, i, q) then p else NodeAt(order, b)
  {
    hide Ins, NextFrom, Prev, NodeAt;
    var b := NextFrom(hs, i, a + 1);
    NextIns(hs, i, q, h, a + 1);
    NodeIns(order, q, p, b);
    NextIs(hs, i, a + 1, b);
    PrevIs(hs, i, q, a);
  }

  ghost function Linked(order: seq<nat>, hs: seq<nat>, nx: seq<int>, i: nat, q: nat, p: nat, h: nat): seq<int>
    requires |order| == |hs| && 0 < q <= |hs| && p < |nx| && hs[0] > i && order[Prev(hs, i, q)] < |nx|
  {
    if h > i then nx[p := NodeAt(order, NextFrom(hs, i, q))][order[Prev(hs, i, q)] := p] else nx
  }

  lemma LinkedOld(order: seq<nat>, hs: seq<nat>, nx: seq<int>, i: nat, q: nat, p: nat, h: nat, maxLevel: nat, a: nat)
    requires Order(order, hs, p, maxLevel) && Ptrs(order, hs, nx, i) && p < |nx| && 0 < q <= |order| && i < maxLevel
    requires a < |order| && hs[a] > i
    ensures var u := Linked(order, hs, nx, i, q, p, h);
      order[a] < |u| && u[order[a]] == if h > i && a == Prev(hs, i, q) then p else NodeAt(order, NextFrom(hs, i, a + 1))
  {
    hide NextFrom, Prev, NodeAt;
    assert PtrAt(order, hs, nx, i, a);
  }

  lemma LinkedNew(order: seq<nat>, hs: seq<nat>, nx: seq<int>, i: nat, q: nat, p: nat, h: nat, maxLevel: nat)
    requires Order(order, hs, p, maxLevel) && Ptrs(order, hs, nx, i) && p < |nx| && 0 < q <= |order| && i < maxLevel
    ensures order[Prev(hs, i, q)] < |nx| && |Linked(order, hs, nx, i, q, p, h)| == |nx|
    ensures h > i ==> Linked(order, hs, nx, i, q, p, h)[p] == NodeAt(order, NextFrom(hs, i, q))
  {
    hide NextFrom, Prev, NodeAt;
  }

  lemma PtrInsAt(order: seq<nat>, hs: seq<nat>, nx: seq<int>, i: nat, q: nat, p: nat, h: nat, maxLevel: nat, a': nat)
    requires Order(order, hs, p, maxLevel) && Ptrs(order, hs, nx, i) && p < |nx| && 0 < q <= |order| && i < maxLevel
    requires a' <= |order| && Ins(hs, q, h)[a'] > i
    ensures order[Prev(hs, i, q)] < |nx|
    ensures Ins(order, q, p)[a'] < |nx| && PtrAt(Ins(order, q, p), Ins(hs, q, h), Linked(order, hs, nx, i, q, p, h), i, a')
  {
    hide Ins, NextFrom, Prev, NodeAt, Ptrs, Linked;
    InsAt(order, q, p, a');
    InsAt(hs, q, h, a');
    LinkedNew(order, hs, nx, i, q, p, h, maxLevel);
    if a' == q {
      NextIns(hs, i, q, h, q);
      NodeIns(order, q, p, NextFrom(hs, i, q));
    } else {
      var a := if a' < q then a' else a' - 1;
      LinkedOld(order, hs, nx, i, q, p, h, maxLevel, a);
      PtrMoves(order, hs, i, q, p, h, a);
    }
  }

  /** A node p of height h at position q: the links of level i. */
  lemma PtrsIns(order: seq<nat>, hs: seq<nat>, nx: seq<int>, i: nat, q: nat, p: nat, h: nat, maxLevel: nat)
    requires Order(order, hs, p, maxLevel) && Ptrs(order, hs, nx, i) && p < |nx| && 0 < q <= |order| && i < maxLevel
    ensures order[Prev(hs, i, q)] < |nx|
    ensures Ptrs(Ins(order, q, p), Ins(hs, q, h), Linked(order, hs, nx, i, q, p, h), i)
  {
    hide Ins, Prev, Linked, PtrAt;
    LinkedNew(order, hs, nx, i, q, p, h, maxLevel);
    forall a' | 0 <= a' <= |order| && Ins(hs, q, h)[a'] > i
      ensures Ins(order, q, p)[a'] < |nx| && PtrAt(Ins(order, q, p), Ins(hs, q, h), Linked(order, hs, nx, i, q, p, h), i, a')
    {
      PtrInsAt(order, hs, nx, i, q, p, h, maxLevel, a');
    }
  }

  /** The first position from q on is the one whose predecessor lies before q. */
  lemma FirstFrom(hs: seq<nat>, i: nat, q: nat, b: nat)
    requires 0 < q <= b < |hs| && hs[0] > i && hs[b] > i
    ensures Prev(hs, i, b) < q <==> b == NextFrom(hs, i, q)
    ensures b == NextFrom(hs, i, q) ==> Prev(hs, i, b) == Prev(hs, i, q)
  {
    hide NextFrom, Prev;
    var a, c := Prev(hs, i, b), NextFrom(hs, i, q);
    PrevIs(hs, i, b, a);
    NextIs(hs, i, q, c);
    NextIs(hs, i, q, b);
    if b == c {
      PrevOfNext(hs, i, q);
    }
  }

  ghost function Counted(order: seq<nat>, hs: seq<nat>, ds: seq<int>, i: nat, q: nat, p: nat, h: nat): seq<int>
    requires |order| == |hs| && 0 < q <= |hs| && p < |ds| && hs[0] > i
    requires NextFrom(hs, i, q) < |hs| ==> order[NextFrom(hs, i, q)] < |ds|
  {
    var b, gap := NextFrom(hs, i, q), q - Prev(hs, i, q);
    var ds1 := if h > i then ds[p := gap] else ds;
    if b == |hs| then ds1 else ds1[order[b] := ds1[order[b]] + 1 - (if h > i then gap else 0)]
  }

  lemma NextKnown(order: seq<nat>, hs: seq<nat>, ds: seq<int>, i: nat, k: nat)
    requires Dists(order, hs, ds, i) && 0 < k <= |hs|
    ensures NextFrom(hs, i, k) < |hs| ==>
      var b := NextFrom(hs, i, k);
      hs[b] > i && order[b] < |ds| && ds[order[b]] == b - Prev(hs, i, b)
  {
    hide NextFrom, Prev;
    var b := NextFrom(hs, i, k);
    NextIs(hs, i, k, b);
    assert b < |hs| ==> DistAt(order, hs, ds, i, b);
  }

  lemma CountedAt(order: seq<nat>, hs: seq<nat>, ds: seq<int>, i: nat, q: nat, p: nat, h: nat, maxLevel: nat, b: nat)
    requires Order(order, hs, p, maxLevel) && Dists(order, hs, ds, i) && p < |ds| && 0 < q <= |order|
    requires 0 < b < |order| && hs[b] > i
    ensures NextFrom(hs, i, q) < |hs| ==> order[NextFrom(hs, i, q)] < |ds|
    ensures
      var u, gap := Counted(order, hs, ds, i, q, p, h), q - Prev(hs, i, q);
      && |u| == |ds| && order[b] < |ds| && (h > i ==> u[p] == gap)
      && u[order[b]] == if b == NextFrom(hs, i, q) then b - Prev(hs, i, b) + 1 - (if h > i then gap else 0) else b - Prev(hs, i, b)
  {
    hide NextFrom, Prev;
    NextKnown(order, hs, ds, i, q);
    assert DistAt(order, hs, ds, i, b);
  }

  lemma CountedNew(order: seq<nat>, hs: seq<nat>, ds: seq<int>, i: nat, q: nat, p: nat, h: nat, maxLevel: nat)
    requires Order(order, hs, p, maxLevel) && Dists(order, hs, ds, i) && p < |ds| && 0 < q <= |order|
    ensures NextFrom(hs, i, q) < |hs| ==> order[NextFrom(hs, i, q)] < |ds|
    ensures |Counted(order, hs, ds, i, q, p, h)| == |ds|
    ensures h > i ==> Counted(order, hs, ds, i, q, p, h)[p] == q - Prev(hs, i, q)
  {
    hide NextFrom, Prev;
    NextKnown(order, hs, ds, i, q);
  }

  lemma DistInsAt(order: seq<nat>, hs: seq<nat>, ds: seq<int>, i: nat, q: nat, p: nat, h: nat, maxLevel: nat, b': nat)
    requires Order(order, hs, p, maxLevel) && Dists(order, hs, ds, i) && p < |ds| && 0 < q <= |order|
    requires 0 < b' <= |order| && Ins(hs, q, h)[b'] > i
    ensures NextFrom(hs, i, q) < |hs| ==> order[NextFrom(hs, i, q)] < |ds|
    ensures Ins(hs, q, h)[0] > i && Ins(order, q, p)[b'] < |ds|
    ensures DistAt(Ins(order, q, p), Ins(hs, q, h), Counted(order, hs, ds, i, q, p, h), i, b')
  {
    hide Ins, NextFrom, Prev, Counted, Dists;
    assert hs[0] > i by { HeadTall(order, hs, ds, i); }
    InsAt(order, q, p, b');
    InsAt(hs, q, h, b');
    InsAt(hs, q, h, 0);
    CountedNew(order, hs, ds, i, q, p, h, maxLevel);
    if b' == q {
      PrevIns(hs, i, q, h, q);
    } else {
      var b := if b' < q then b' else b' - 1;
      CountedAt(order, hs, ds, i, q, p, h, maxLevel, b);
      PrevIns(hs, i, q, h, b);
      if b >= q {
        FirstFrom(hs, i, q, b);
      } else {
        NextIs(hs, i, q, b);
      }
    }
  }

  lemma HeadTall(order: seq<nat>, hs: seq<nat>, ds: seq<int>, i: nat)
    requires Dists(order, hs, ds, i)
    ensures |order| == |hs| > 0 && hs[0] > i
  {
  }

  /** A node p of height h at position q: the distances of level i. */
  lemma DistsIns(order: seq<nat>, hs: seq<nat>, ds: seq<int>, i: nat, q: nat, p: nat, h: nat, maxLevel: nat)
    requires Order(order, hs, p, maxLevel) && Dists(order, hs, ds, i) && p < |ds| && 0 < q <= |order|
    ensures NextFrom(hs, i, q) < |hs| ==> order[NextFrom(hs, i, q)] < |ds|
    ensures Dists(Ins(order, q, p), Ins(hs, q, h), Counted(order, hs, ds, i, q, p, h), i)
  {
    hide Ins, Prev, Counted, DistAt;
    CountedNew(order, hs, ds, i, q, p, h, maxLevel);
    InsAt(hs, q, h, 0);
    forall b' | 0 < b' <= |order| && Ins(hs, q, h)[b'] > i
      ensures Ins(order, q, p)[b'] < |ds| && DistAt(Ins(order, q, p), Ins(hs, q, h), Counted(order, hs, ds, i, q, p, h), i, b')
    {
      DistInsAt(order, hs, ds, i, q, p, h, maxLevel, b');
    }
  }

  // ---- Taking a node out ------------------------------------------------------------------

  lemma NodeDel(order: seq<nat>, q: nat, b: nat)
    requires q < |order|
    ensures b < q ==> NodeAt(Del(order, q), b) == NodeAt(order, b)
    ensures b > q ==> NodeAt(Del(order, q), b - 1) == NodeAt(order, b)
  {
  }

  lemma DelAt(s: seq<nat>, q: nat, k: nat)
    requires q < |s| && k < |s| - 1
    ensures Del(s, q)[k] == if k < q then s[k] else s[k + 1]
  {
  }

  ghost function Unlinked(order: seq<nat>, hs: seq<nat>, nx: seq<int>, i: nat, q: nat): seq<int>
    requires |order| == |hs| && 0 < q < |hs| && hs[0] > i && order[Prev(hs, i, q)] < |nx| && order[q] < |nx|
  {
    if hs[q] > i then nx[order[Prev(hs, i, q)] := nx[order[q]]] else nx
  }

  lemma UnlinkedAt(order: seq<nat>, hs: seq<nat>, nx: seq<int>, i: nat, q: nat, nodes: nat, maxLevel: nat, a: nat)
    requires Order(order, hs, nodes, maxLevel) && Ptrs(order, hs, nx, i) && nodes <= |nx| && 0 < q < |order| && i < maxLevel
    requires a < |order| && a != q && hs[a] > i
    ensures order[Prev(hs, i, q)] < |nx| && order[a] < |nx|
    ensures Unlinked(order, hs, nx, i, q)[order[a]]
      == NodeAt(order, NextFrom(hs, i, if hs[q] > i && a == Prev(hs, i, q) then q + 1 else a + 1))
  {
    hide NextFrom, Prev, NodeAt;
    assert PtrAt(order, hs, nx, i, a);
    assert hs[q] > i ==> PtrAt(order, hs, nx, i, q);
  }

  lemma PtrDelAt(order: seq<nat>, hs: seq<nat>, nx: seq<int>, i: nat, q: nat, nodes: nat, maxLevel: nat, a': nat)
    requires Order(order, hs, nodes, maxLevel) && Ptrs(order, hs, nx, i) && nodes <= |nx| && 0 < q < |order| && i < maxLevel
    requires a' < |order| - 1 && Del(hs, q)[a'] > i
    ensures order[Prev(hs, i, q)] < |nx| && Del(order, q)[a'] < |nx|
    ensures PtrAt(Del(order, q), Del(hs, q), Unlinked(order, hs, nx, i, q), i, a')
  {
    hide Del, NextFrom, Prev, NodeAt, Ptrs, Unlinked;
    DelAt(order, q, a');
    DelAt(hs, q, a');
    var a := if a' < q then a' else a' + 1;
    UnlinkedAt(order, hs, nx, i, q, nodes, maxLevel, a);
    if a' < q {
      NextDel(hs, i, q, a + 1);
      NextIs(hs, i, a + 1, NextFrom(hs, i, a + 1));
      PrevIs(hs, i, q, a);
    } else {
      NextDel(hs, i, q, a);
    }
    NodeDel(order, q, NextFrom(hs, i, a + 1));
    NodeDel(order, q, NextFrom(hs, i, q + 1));
  }

  /** Without the node at position q: the links of level i. */
  lemma PtrsDel(order: seq<nat>, hs: seq<nat>, nx: seq<int>, i: nat, q: nat, nodes: nat, maxLevel: nat)
    requires Order(order, hs, nodes, maxLevel) && Ptrs(order, hs, nx, i) && nodes <= |nx| && 0 < q < |order| && i < maxLevel
    ensures order[Prev(hs, i, q)] < |nx|
    ensures Ptrs(Del(order, q), Del(hs, q), Unlinked(order, hs, nx, i, q), i)
  {
    hide Del, Prev, PtrAt;
    forall a' | 0 <= a' < |order| - 1 && Del(hs, q)[a'] > i
      ensures Del(order, q)[a'] < |nx| && PtrAt(Del(order, q), Del(hs, q), Unlinked(order, hs, nx, i, q), i, a')
    {
      PtrDelAt(order, hs, nx, i, q, nodes, maxLevel, a');
    }
  }

  ghost function Uncounted(order: seq<nat>, hs: seq<nat>, ds: seq<int>, i: nat, q: nat): seq<int>
    requires |order| == |hs| && 0 < q < |hs| && order[q] < |ds|
    requires NextFrom(hs, i, q + 1) < |hs| ==> order[NextFrom(hs, i, q + 1)] < |ds|
  {
    var b := NextFrom(hs, i, q + 1);
    if b == |hs| then ds else ds[order[b] := ds[order[b]] - 1 + (if hs[q] > i then ds[order[q]] else 0)]
  }

  lemma UncountedAt(order: seq<nat>, hs: seq<nat>, ds: seq<int>, i: nat, q: nat, nodes: nat, maxLevel: nat, b: nat)
    requires Order(order, hs, nodes, maxLevel) && Dists(order, hs, ds, i) && nodes <= |ds| && 0 < q < |order|
    requires 0 < b < |order| && b != q && hs[b] > i
    ensures NextFrom(hs, i, q + 1) < |hs| ==> order[NextFrom(hs, i, q + 1)] < |ds|
    ensures
      var u, gap := Uncounted(order, hs, ds, i, q), q - Prev(hs, i, q);
      && |u| == |ds| && order[b] < |ds|
      && u[order[b]] == if b == NextFrom(hs, i, q + 1) then b - Prev(hs, i, b) - 1 + (if hs[q] > i then gap else 0) else b - Prev(hs, i, b)
  {
    hide NextFrom, Prev;
    NextKnown(order, hs, ds, i, q + 1);
    assert DistAt(order, hs, ds, i, b);
    assert hs[q] > i ==> DistAt(order, hs, ds, i, q);
  }

  lemma DistDelAt(order: seq<nat>, hs: seq<nat>, ds: seq<int>, i: nat, q: nat, nodes: nat, maxLevel: nat, b': nat)
    requires Order(order, hs, nodes, maxLevel) && Dists(order, hs, ds, i) && nodes <= |ds| && 0 < q < |order|
    requires 0 < b' < |order| - 1 && Del(hs, q)[b'] > i
    ensures NextFrom(hs, i, q + 1) < |hs| ==> order[NextFrom(hs, i, q + 1)] < |ds|
    ensures Del(hs, q)[0] > i && Del(order, q)[b'] < |ds|
    ensures DistAt(Del(order, q), Del(hs, q), Uncounted(order, hs, ds, i, q), i, b')
  {
    hide Del, NextFrom, Prev, Uncounted, Dists;
    HeadTall(order, hs, ds, i);
    DelAt(order, q, b');
    DelAt(hs, q, b');
    DelAt(hs, q, 0);
    var b := if b' < q then b' else b' + 1;
    UncountedAt(order, hs, ds, i, q, nodes, maxLevel, b);
    PrevDel(hs, i, q, b);
    if b > q {
      FirstFrom(hs, i, q + 1, b);
      PrevIs(hs, i, b, Prev(hs, i, b));
    }
  }

  /** Without the node at position q: the distances of level i. */
  lemma DistsDel(order: seq<nat>, hs: seq<nat>, ds: seq<int>, i: nat, q: nat, nodes: nat, maxLevel: nat)
    requires Order(order, hs, nodes, maxLevel) && Dists(order, hs, ds, i) && nodes <= |ds| && 0 < q < |order|
    ensures NextFrom(hs, i, q + 1) < |hs| ==> order[NextFrom(hs, i, q + 1)] < |ds|
    ensures Dists(Del(order, q), Del(hs, q), Uncounted(order, hs, ds, i, q), i)
  {
    hide Del, Prev, DistAt;
    NextKnown(order, hs, ds, i, q + 1);
    DelAt(hs, q, 0);
    forall b' | 0 < b' < |order| - 1 && Del(hs, q)[b'] > i
      ensures Del(order, q)[b'] < |ds| && DistAt(Del(order, q), Del(hs, q), Uncounted(order, hs, ds, i, q), i, b')
    {
      DistDelAt(order, hs, ds, i, q, nodes, maxLevel, b');
    }
  }

  // ---- The keys ---------------------------------------------------------------------------

  ghost predicate Sorted(order: seq<nat>, key: seq<int>) {
    && (forall a :: 0 <= a < |order| ==> order[a] < |key|)
    && forall a, b :: 0 < a < b < |order| ==> key[order[a]] < key[order[b]]
  }

  /** q is where the key k is or belongs. */
  ghost predicate IsPlace(order: seq<nat>, key: seq<int>, k: int, q: nat) {
    && 0 < q <= |order| && (forall a :: 0 <= a < |order| ==> order[a] < |key|)
    && (forall a :: 0 < a < q ==> key[order[a]] < k)
    && (forall a :: q <= a < |order| ==> key[order[a]] >= k)
  }

  ghost function Place(order: seq<nat>, key: seq<int>, k: int, b: nat): (q: nat)
    requires Sorted(order, key) && 0 < b <= |order| && forall a :: 0 < a < b ==> key[order[a]] < k
    ensures IsPlace(order, key, k, q)
    decreases |order| - b
  {
    if b == |order| || key[order[b]] >= k then b else Place(order, key, k, b + 1)
  }

  /** The entries of the nodes behind the head. */
  ghost function Dict<V>(order: seq<nat>, key: seq<int>, value: seq<V>): map<int, V>
    requires |key| == |value| && forall a :: 0 <= a < |order| ==> order[a] < |key|
  {
    if |order| <= 1 then map[]
    else
      var n := order[|order| - 1];
      Dict(order[..|order| - 1], key, value)[key[n] := value[n]]
  }

  lemma {:induction false} DictHas<V>(order: seq<nat>, key: seq<int>, value: seq<V>, k: int)
    requires |key| == |value| && Sorted(order, key)
    ensures k in Dict(order, key, value) ==> exists a :: 0 < a < |order| && key[order[a]] == k && Dict(order, key, value)[k] == value[order[a]]
  {
    if |order| > 1 {
      var front, n := order[..|order| - 1], order[|order| - 1];
      DictHas(front, key, value, k);
      if k == key[n] {
        assert key[order[|order| - 1]] == k;
      } else if k in Dict(front, key, value) {
        var a :| 0 < a < |front| && key[front[a]] == k && Dict(front, key, value)[k] == value[front[a]];
        assert order[a] == front[a];
      }
    }
  }

  lemma {:induction false} DictAt<V>(order: seq<nat>, key: seq<int>, value: seq<V>, a: nat)
    requires |key| == |value| && Sorted(order, key) && 0 < a < |order|
    ensures key[order[a]] in Dict(order, key, value) && Dict(order, key, value)[key[order[a]]] == value[order[a]]
  {
    var front := order[..|order| - 1];
    if a < |front| {
      DictAt(front, key, value, a);
      assert front[a] == order[a];
      assert key[order[a]] < key[order[|order| - 1]];
    }
  }

  /** The key is in the list exactly when it is at its place. */
  lemma DictPlace<V>(order: seq<nat>, key: seq<int>, value: seq<V>, k: int, q: nat)
    requires |key| == |value| && Sorted(order, key) && IsPlace(order, key, k, q)
    ensures k in Dict(order, key, value) <==> q < |order| && key[order[q]] == k
    ensures q < |order| && key[order[q]] == k ==> Dict(order, key, value)[k] == value[order[q]]
  {
    if q < |order| && key[order[q]] == k {
      DictAt(order, key, value, q);
    }
    DictHas(order, key, value, k);
  }

  ghost predicate Extends<T>(s: seq<T>, t: seq<T>) {
    |s| <= |t| && forall i :: 0 <= i < |s| ==> t[i] == s[i]
  }

  lemma {:induction false} DictExtends<V>(order: seq<nat>, key: seq<int>, value: seq<V>, key': seq<int>, value': seq<V>)
    requires |key| == |value| && |key'| == |value'| && Extends(key, key') && Extends(value, value')
    requires forall a :: 0 <= a < |order| ==> order[a] < |key|
    ensures Dict(order, key', value') == Dict(order, key, value)
  {
    if |order| > 1 {
      DictExtends(order[..|order| - 1], key, value, key', value');
    }
  }

  lemma SortedIns(order: seq<nat>, key: seq<int>, q: nat, p: nat)
    requires Sorted(order, key) && 0 < q <= |order| && p < |key|
    requires IsPlace(order, key, key[p], q) && (q < |order| ==> key[order[q]] != key[p])
    ensures Sorted(Ins(order, q, p), key)
  {
  }

  lemma DictSnoc<V>(order: seq<nat>, key: seq<int>, value: seq<V>)
    requires |key| == |value| && |order| > 1 && forall a :: 0 <= a < |order| ==> order[a] < |key|
    ensures var n := order[|order| - 1];
      Dict(order, key, value) == Dict(order[..|order| - 1], key, value)[key[n] := value[n]]
  {
  }

  /** The list without its last node, when the new node goes in front of that. */
  lemma PlaceInFront(order: seq<nat>, key: seq<int>, q: nat, p: nat)
    requires Sorted(order, key) && 0 < q < |order| && p < |key|
    requires IsPlace(order, key, key[p], q) && key[order[q]] != key[p]
    ensures var front := order[..|order| - 1];
      && Sorted(front, key) && IsPlace(front, key, key[p], q) && (q < |front| ==> key[front[q]] != key[p])
      && key[order[|order| - 1]] != key[p]
      && Ins(order, q, p)[..|order|] == Ins(front, q, p) && Ins(order, q, p)[|order|] == order[|order| - 1]
  {
  }

  lemma {:induction false} DictIns<V>(order: seq<nat>, key: seq<int>, value: seq<V>, q: nat, p: nat)
    requires |key| == |value| && Sorted(order, key) && 0 < q <= |order| && p < |key|
    requires IsPlace(order, key, key[p], q) && (q < |order| ==> key[order[q]] != key[p])
    ensures Sorted(Ins(order, q, p), key)
    ensures Dict(Ins(order, q, p), key, value) == Dict(order, key, value)[key[p] := value[p]]
  {
    hide Dict, IsPlace;
    var order' := Ins(order, q, p);
    SortedIns(order, key, q, p);
    DictSnoc(order', key, value);
    if q == |order| {
      assert order'[..|order'| - 1] == order;
    } else {
      PlaceInFront(order, key, q, p);
      DictSnoc(order, key, value);
      DictIns(order[..|order| - 1], key, value, q, p);
    }
  }

  lemma SortedDel(order: seq<nat>, key: seq<int>, q: nat)
    requires Sorted(order, key) && 0 < q < |order|
    ensures Sorted(Del(order, q), key)
  {
  }

  lemma DeleteInFront(order: seq<nat>, key: seq<int>, q: nat)
    requires Sorted(order, key) && 0 < q < |order| - 1
    ensures var front, n := order[..|order| - 1], order[|order| - 1];
      && Sorted(front, key) && front[q] == order[q] && key[order[q]] != key[n]
      && Del(order, q)[..|order| - 2] == Del(front, q) && Del(order, q)[|order| - 2] == n
  {
  }

  lemma {:induction false} DictDel<V>(order: seq<nat>, key: seq<int>, value: seq<V>, q: nat)
    requires |key| == |value| && Sorted(order, key) && 0 < q < |order|
    ensures Sorted(Del(order, q), key)
    ensures Dict(Del(order, q), key, value) == Dict(order, key, value) - {key[order[q]]}
  {
    hide Dict;
    var order', front, n := Del(order, q), order[..|order| - 1], order[|order| - 1];
    SortedDel(order, key, q);
    DictSnoc(order, key, value);
    if q == |order| - 1 {
      assert order' == front;
      NotInFront(order, key, value);
    } else {
      DeleteInFront(order, key, q);
      DictSnoc(order', key, value);
      DictDel(front, key, value, q);
    }
  }

  /** The last key is not among those in front of it. */
  lemma NotInFront<V>(order: seq<nat>, key: seq<int>, value: seq<V>)
    requires |key| == |value| && Sorted(order, key) && |order| > 1
    ensures key[order[|order| - 1]] !in Dict(order[..|order| - 1], key, value)
  {
    hide Dict;
    DictHas(order[..|order| - 1], key, value, key[order[|order| - 1]]);
  }

  /** The keys below the one at position a are those at the positions before it. */
  lemma {:induction false} Below<V>(order: seq<nat>, key: seq<int>, value: seq<V>, a: nat)
    requires |key| == |value| && Sorted(order, key) && 0 < a <= |order|
    ensures |Dict(order[..a], key, value).Keys| == a - 1
    ensures a < |order| ==> Dict(order[..a], key, value).Keys == set x | x in Dict(order, key, value) && x < key[order[a]]
  {
    if a > 1 {
      Below(order, key, value, a - 1);
      var front, k := order[..a - 1], key[order[a - 1]];
      assert order[..a][..a - 1] == front;
      DictHas(front, key, value, k);
      assert Dict(order[..a], key, value).Keys == Dict(front, key, value).Keys + {k};
    }
    if a < |order| {
      forall x
        ensures x in Dict(order[..a], key, value) <==> x in Dict(order, key, value) && x < key[order[a]]
      {
        BelowAt(order, key, value, a, x);
      }
    }
  }

  lemma BelowAt<V>(order: seq<nat>, key: seq<int>, value: seq<V>, a: nat, x: int)
    requires |key| == |value| && Sorted(order, key) && 0 < a < |order|
    ensures x in Dict(order[..a], key, value) <==> x in Dict(order, key, value) && x < key[order[a]]
  {
    hide Dict;
    var front := order[..a];
    assert Sorted(front, key);
    if x in Dict(front, key, value) {
      var c := DictFind(front, key, value, x);
      assert front[c] == order[c];
      DictAt(order, key, value, c);
    }
    if x in Dict(order, key, value) && x < key[order[a]] {
      var c := DictFind(order, key, value, x);
      assert c < a && front[c] == order[c];
      DictAt(front, key, value, c);
    }
  }

  lemma DictFind<V>(order: seq<nat>, key: seq<int>, value: seq<V>, k: int) returns (a: nat)
    requires |key| == |value| && Sorted(order, key) && k in Dict(order, key, value)
    ensures 0 < a < |order| && key[order[a]] == k
  {
    DictHas(order, key, value, k);
    a :| 0 < a < |order| && key[order[a]] == k;
  }

  /** A slot for a new node leaves a level as it is. */
  lemma LevelGrows(order: seq<nat>, hs: seq<nat>, nx: seq<int>, ds: seq<int>, i: nat)
    requires Ptrs(order, hs, nx, i) && Dists(order, hs, ds, i)
    ensures Ptrs(order, hs, nx + [NULL], i) && Dists(order, hs, ds + [0], i)
  {
    hide NextFrom, Prev;
    forall a | 0 <= a < |order| && hs[a] > i
      ensures order[a] < |nx| && PtrAt(order, hs, nx + [NULL], i, a)
    {
      assert PtrAt(order, hs, nx, i, a);
    }
    forall b | 0 < b < |order| && hs[b] > i
      ensures order[b] < |ds| && DistAt(order, hs, ds + [0], i, b)
    {
      assert DistAt(order, hs, ds, i, b);
    }
  }

  lemma OrderIns(order: seq<nat>, hs: seq<nat>, q: nat, p: nat, h: nat, maxLevel: nat)
    requires Order(order, hs, p, maxLevel) && 0 < q <= |order| && 1 <= h <= maxLevel
    ensures Order(Ins(order, q, p), Ins(hs, q, h), p + 1, maxLevel)
  {
  }

  lemma OrderDel(order: seq<nat>, hs: seq<nat>, q: nat, nodes: nat, maxLevel: nat)
    requires Order(order, hs, nodes, maxLevel) && 0 < q < |order|
    ensures Order(Del(order, q), Del(hs, q), nodes, maxLevel)
  {
  }

  function Rows(n: nat, x: int): (r: seq<seq<int>>)
    ensures |r| == n && forall i :: 0 <= i < n ==> r[i] == [x]
  {
    if n == 0 then [] else Rows(n - 1, x) + [[x]]
  }

  lemma EmptyList<V>(maxLevel: nat, value: seq<V>)
    requires maxLevel > 0 && |value| == 1
    ensures Order([HEAD], [maxLevel], 1, maxLevel) && Sorted([HEAD], [0]) && Dict([HEAD], [0], value) == map[]
  {
  }

  lemma EmptyLevel(maxLevel: nat, i: nat)
    requires i < maxLevel
    ensures Ptrs([HEAD], [maxLevel], [NULL], i) && Dists([HEAD], [maxLevel], [0], i)
  {
  }

  // ---- The list ---------------------------------------------------------------------------

  class SkipList<V> {
    const maxLevel: nat
    var key: seq<int>
    var value: seq<V>
    /** The joint of node n on level i: its link and its distance. */
    var next: seq<seq<int>>
    var dist: seq<seq<int>>
    var size: nat
    ghost var order: seq<nat>
    ghost var hs: seq<nat>

    ghost predicate Shape(order: seq<nat>, hs: seq<nat>, nodes: nat)
      reads this
    {
      && maxLevel > 0 && Order(order, hs, nodes, maxLevel) && nodes <= |key| == |value|
      && |next| == |dist| == maxLevel && forall i :: 0 <= i < maxLevel ==> |next[i]| == |dist[i]| == |key|
    }

    ghost predicate Valid()
      reads this
    {
      && Shape(order, hs, |key|) && Sorted(order, key) && size == |order| - 1
      && forall i :: 0 <= i < maxLevel ==> Ptrs(order, hs, next[i], i) && Dists(order, hs, dist[i], i)
    }

    ghost function Contents(): map<int, V>
      requires Valid()
      reads this
    {
      Dict(order, key, value)
    }

    constructor (maxLevel: nat, headValue: V)
      requires 0 < maxLevel < 32
      ensures Valid() && Contents() == map[] && size == 0
    {
      this.maxLevel := maxLevel;
      key, value, size := [0], [headValue], 0;
      next := Rows(maxLevel, NULL);
      dist := Rows(maxLevel, 0);
      order, hs := [HEAD], [maxLevel];
      new;
      hide Ptrs, Dists, Order, Sorted, Dict, Rows;
      EmptyList(maxLevel, value);
      forall i | 0 <= i < maxLevel
        ensures Ptrs(order, hs, next[i], i) && Dists(order, hs, dist[i], i)
      {
        EmptyLevel(maxLevel, i);
        assert next[i] == [NULL] && dist[i] == [0];
      }
    }

    /** Go on along a level as long as the next key is smaller: up to the last node before position q. */
    method Walk(i: nat, start: nat, k: int, ghost a0: nat, ghost q: nat)
      returns (n: nat, moved: int, nx: int, ghost a: nat)
      requires Shape(order, hs, |key|)
      requires i < maxLevel && Ptrs(order, hs, next[i], i) && Dists(order, hs, dist[i], i) && IsPlace(order, key, k, q)
      requires a0 < q && hs[a0] > i && start == order[a0]
      ensures a == Prev(hs, i, q) && n == order[a] && moved == a - a0
      ensures nx == NodeAt(order, NextFrom(hs, i, q))
    {
      hide NextFrom, Prev, Order;
      n, moved, a := start, 0, a0;
      nx := next[i][n];
      LinkHere(i, a);
      while nx != NULL && key[nx] < k
        invariant a < q && a < |order| && hs[a] > i && n == order[a] && moved == a - a0
        invariant nx == NodeAt(order, NextFrom(hs, i, a + 1))
        decreases |order| - a
      {
        ghost var b := NextFrom(hs, i, a + 1);
        Hop(i, a, q, k);
        moved := moved + dist[i][nx];
        n := nx;
        a := b;
        LinkHere(i, a);
        nx := next[i][n];
      }
      Arrived(i, a, q, k);
    }

    lemma LinkHere(i: nat, a: nat)
      requires Shape(order, hs, |key|) && i < maxLevel && Ptrs(order, hs, next[i], i) && a < |order| && hs[a] > i
      ensures order[a] < |next[i]| && next[i][order[a]] == NodeAt(order, NextFrom(hs, i, a + 1))
      ensures NodeAt(order, NextFrom(hs, i, a + 1)) != NULL ==> 0 <= NodeAt(order, NextFrom(hs, i, a + 1)) < |key|
    {
      hide NextFrom, Prev;
      assert PtrAt(order, hs, next[i], i, a);
    }

    /** A link to a smaller key leads to a position before q, as far ahead as its distance says. */
    lemma Hop(i: nat, a: nat, q: nat, k: int)
      requires Shape(order, hs, |key|) && i < maxLevel && Dists(order, hs, dist[i], i) && IsPlace(order, key, k, q)
      requires a < |order| && hs[a] > i
      requires var nx := NodeAt(order, NextFrom(hs, i, a + 1)); nx != NULL && nx < |key| && key[nx] < k
      ensures var b := NextFrom(hs, i, a + 1);
        a < b < q && b < |order| && hs[b] > i && order[b] < |dist[i]| && dist[i][order[b]] == b - a
    {
      hide NextFrom, Prev;
      var b := NextFrom(hs, i, a + 1);
      NextIs(hs, i, a + 1, b);
      PrevIs(hs, i, b, a);
      assert DistAt(order, hs, dist[i], i, b);
    }

    /** No link to a smaller key: q lies between the two places. */
    lemma Arrived(i: nat, a: nat, q: nat, k: int)
      requires Shape(order, hs, |key|) && i < maxLevel && IsPlace(order, key, k, q) && a < q && a < |order| && hs[a] > i
      requires var nx := NodeAt(order, NextFrom(hs, i, a + 1)); nx == NULL || (0 <= nx < |key| && key[nx] >= k)
      ensures hs[0] > i && a == Prev(hs, i, q) && NextFrom(hs, i, q) == NextFrom(hs, i, a + 1)
    {
      hide NextFrom, Prev;
      var b := NextFrom(hs, i, a + 1);
      NextIs(hs, i, a + 1, b);
      assert b >= q;
      PrevIs(hs, i, q, a);
      NextIs(hs, i, q, b);
    }

    /** The value of a key. */
    method Get(k: int) returns (r: Option<V>)
      requires Valid()
      ensures r.Some? <==> k in Contents()
      ensures r.Some? ==> r.value == Contents()[k]
    {
      hide NextFrom, Prev, Ptrs, Dists;
      ghost var q := Place(order, key, k, 1);
      DictPlace(order, key, value, k, q);
      var n: nat := HEAD;
      ghost var a: nat := 0;
      for i := maxLevel downto 0
        invariant a < q && n == order[a] && hs[a] >= i && (i < maxLevel ==> hs[a] > i)
        invariant q < |order| && key[order[q]] == k ==> hs[q] <= i
      {
        var moved, nx;
        n, moved, nx, a := Walk(i, n, k, a, q);
        Landed(i, q, k);
        if nx != NULL && key[nx] == k {
          return Some(value[nx]);
        }
      }
      return None;
    }

    /** What the link across position q tells about the key. */
    lemma Landed(i: nat, q: nat, k: int)
      requires Shape(order, hs, |key|) && i < maxLevel && IsPlace(order, key, k, q) && Sorted(order, key)
      ensures var nx := NodeAt(order, NextFrom(hs, i, q));
        && (nx != NULL ==> 0 <= nx < |key| && key[nx] >= k)
        && (nx != NULL && key[nx] == k <==> q < |order| && hs[q] > i && key[order[q]] == k)
        && (nx != NULL && key[nx] == k ==> nx == order[q])
    {
      hide NextFrom;
      var b := NextFrom(hs, i, q);
      NextIs(hs, i, q, b);
      if q < |order| {
        NextHere(hs, i, q);
      }
    }

    /** Node p stands at position q of the list with the other nodes. */
    ghost predicate Inserting(p: nat, q: nat, h: nat, k: int)
      reads this
    {
      && 0 < q <= |order| == |hs| && hs[0] == maxLevel && order[0] == HEAD && 1 <= h <= maxLevel
      && Shape(order, hs, p) && p + 1 == |key| && Sorted(order, key) && IsPlace(order, key, k, q)
    }

    /** The links are done from level i up. */
    ghost predicate LinkedFrom(p: nat, q: nat, h: nat, i: nat)
      requires 0 < q <= |order| == |hs|
      reads this
    {
      && i <= maxLevel == |next|
      && (forall j :: 0 <= j < i ==> Ptrs(order, hs, next[j], j))
      && (forall j :: i <= j < maxLevel ==> Ptrs(Ins(order, q, p), Ins(hs, q, h), next[j], j))
    }

    /** The distances are done below level i. */
    ghost predicate CountedTo(p: nat, q: nat, h: nat, i: nat)
      requires 0 < q <= |order| == |hs|
      reads this
    {
      && i <= maxLevel == |dist|
      && (forall j :: 0 <= j < i ==> Dists(Ins(order, q, p), Ins(hs, q, h), dist[j], j))
      && (forall j :: i <= j < maxLevel ==> Dists(order, hs, dist[j], j))
    }

    /** What the search noted on the levels from i up: how far it went, and the links across position q. */
    ghost predicate Noted(moved: seq<int>, nexts: seq<int>, q: nat, i: nat)
      requires 0 < q <= |order| == |hs| && hs[0] == maxLevel
      reads this`order, this`hs
    {
      |moved| == |nexts| == maxLevel && forall j :: i <= j < maxLevel ==> NotedAt(moved[j], nexts[j], q, j)
    }

    ghost predicate NotedAt(d: int, nx: int, q: nat, j: nat)
      requires 0 < q <= |order| == |hs| && j < maxLevel && hs[0] == maxLevel
      reads this`order, this`hs
    {
      && nx == NodeAt(order, NextFrom(hs, j, q))
      && d == Prev(hs, j, q) - if j + 1 < maxLevel then Prev(hs, j + 1, q) else 0
    }

    /** A new node that is not linked yet. */
    method AllocNode(k: int, v: V) returns (p: nat)
      requires Valid()
      modifies this`key, this`value, this`next, this`dist
      ensures Shape(order, hs, p) && p + 1 == |key| && key[p] == k && value[p] == v && Sorted(order, key)
      ensures Extends(old(key), key) && Extends(old(value), value)
      ensures forall i :: 0 <= i < maxLevel ==> Ptrs(order, hs, next[i], i) && Dists(order, hs, dist[i], i)
    {
      p := |key|;
      var nx, ds := next, dist;
      key, value := key + [k], value + [v];
      next := seq(maxLevel, i requires 0 <= i < maxLevel && |nx| == maxLevel => nx[i] + [NULL]);
      dist := seq(maxLevel, i requires 0 <= i < maxLevel && |ds| == maxLevel => ds[i] + [0]);
      hide Ptrs, Dists;
      forall i | 0 <= i < maxLevel
        ensures Ptrs(order, hs, next[i], i) && Dists(order, hs, dist[i], i)
      {
        LevelGrows(order, hs, nx[i], ds[i], i);
      }
    }

    /** Insert a new key with a value, in a node of the given height. */
    method Insert(k: int, v: V, level: nat)
      requires Valid() && k !in Contents() && 1 <= level <= maxLevel
      modifies this
      ensures Valid() && Contents() == old(Contents())[k := v] && size == old(size) + 1
    {
      hide NextFrom, Prev, Ptrs, Dists, Dict, Place, Ins, Order, Sorted, IsPlace;
      ghost var q := PlaceOf(k);
      ghost var key0, value0, d := key, value, Contents();
      var p := AllocNode(k, v);
      Allocated(p, q, level, k, key0, value0);
      var moved, nexts := LinkAll(p, q, level, k);
      CountAll(p, q, level, k, moved, nexts);
      size := size + 1;
      Inserted(p, q, level, k);
      order, hs := Ins(order, q, p), Ins(hs, q, level);
    }

    /** The place of a key, and what the list holds there. */
    lemma PlaceOf(k: int) returns (q: nat)
      requires Valid()
      ensures IsPlace(order, key, k, q) && 0 < q <= |order|
      ensures k in Contents() <==> q < |order| && key[order[q]] == k
      ensures q < |order| && key[order[q]] == k ==> Contents()[k] == value[order[q]]
    {
      q := Place(order, key, k, 1);
      DictPlace(order, key, value, k, q);
    }

    lemma Allocated(p: nat, q: nat, h: nat, k: int, key0: seq<int>, value0: seq<V>)
      requires Shape(order, hs, p) && p + 1 == |key| && key[p] == k && Sorted(order, key) && 1 <= h <= maxLevel
      requires |key0| == |value0| && Sorted(order, key0) && IsPlace(order, key0, k, q)
      requires Extends(key0, key) && Extends(value0, value)
      requires q < |order| ==> key0[order[q]] != k
      ensures Inserting(p, q, h, k) && (q < |order| ==> key[order[q]] != k)
      ensures Dict(order, key, value) == Dict(order, key0, value0)
    {
      DictExtends(order, key0, value0, key, value);
    }

    lemma Inserted(p: nat, q: nat, h: nat, k: int)
      requires Inserting(p, q, h, k) && LinkedFrom(p, q, h, 0) && CountedTo(p, q, h, maxLevel) && key[p] == k
      requires q < |order| ==> key[order[q]] != k
      ensures Order(Ins(order, q, p), Ins(hs, q, h), |key|, maxLevel) && Sorted(Ins(order, q, p), key)
      ensures Dict(Ins(order, q, p), key, value) == Dict(order, key, value)[k := value[p]]
    {
      hide NextFrom, Prev, Ptrs, Dists;
      OrderIns(order, hs, q, p, h, maxLevel);
      DictIns(order, key, value, q, p);
    }

    /** Descend from the top level and link the new node into the levels it reaches. */
    method LinkAll(p: nat, ghost q: nat, level: nat, k: int) returns (moved: seq<int>, nexts: seq<int>)
      requires Inserting(p, q, level, k) && LinkedFrom(p, q, level, maxLevel) && CountedTo(p, q, level, 0)
      modifies this`next
      ensures Inserting(p, q, level, k) && LinkedFrom(p, q, level, 0) && Noted(moved, nexts, q, 0)
    {
      hide NextFrom, Prev, Ptrs, Dists, IsPlace, Order, Sorted;
      moved, nexts := seq(maxLevel, _ => 0), seq(maxLevel, _ => NULL);
      var n: nat := HEAD;
      ghost var a: nat := 0;
      for i := maxLevel downto 0
        invariant Inserting(p, q, level, k) && LinkedFrom(p, q, level, i) && CountedTo(p, q, level, 0)
        invariant Noted(moved, nexts, q, i)
        invariant a < q && n == order[a] && hs[a] >= i && a == if i < maxLevel then Prev(hs, i, q) else 0
      {
        n, moved, nexts, a := LinkLevel(i, n, p, q, level, k, moved, nexts, a);
      }
    }

    /** Link the new node into level i if it reaches it. */
    method LinkLevel(i: nat, start: nat, p: nat, ghost q: nat, level: nat, k: int, moved0: seq<int>,
      nexts0: seq<int>, ghost a0: nat)
      returns (n: nat, moved: seq<int>, nexts: seq<int>, ghost a: nat)
      requires i < maxLevel && Inserting(p, q, level, k) && LinkedFrom(p, q, level, i + 1) && CountedTo(p, q, level, 0)
      requires Noted(moved0, nexts0, q, i + 1)
      requires a0 < q && start == order[a0] && hs[a0] > i && a0 == if i + 1 < maxLevel then Prev(hs, i + 1, q) else 0
      modifies this`next
      ensures Inserting(p, q, level, k) && LinkedFrom(p, q, level, i) && CountedTo(p, q, level, 0)
      ensures Noted(moved, nexts, q, i) && a == Prev(hs, i, q) && n == order[a]
    {
      hide NextFrom, Prev, Ptrs, Dists, Sorted, Linked, Ins;
      var d, nx;
      n, d, nx, a := Walk(i, start, k, a0, q);
      moved, nexts := moved0[i := d], nexts0[i := nx];
      assert NotedAt(moved[i], nexts[i], q, i);
      PtrsIns(order, hs, next[i], i, q, p, level, maxLevel);
      LinkedIs(order, hs, next[i], i, q, p, level);
      if i < level {
        next := next[i := next[i][p := nx][n := p]];
      }
    }

    /** Set the distances of the new node and correct those across it. */
    method CountAll(p: nat, ghost q: nat, level: nat, k: int, moved: seq<int>, nexts: seq<int>)
      requires Inserting(p, q, level, k) && LinkedFrom(p, q, level, 0) && CountedTo(p, q, level, 0) && Noted(moved, nexts, q, 0)
      modifies this`dist
      ensures Inserting(p, q, level, k) && LinkedFrom(p, q, level, 0) && CountedTo(p, q, level, maxLevel)
    {
      hide NextFrom, Prev, Ptrs, Dists, IsPlace, Sorted, Ins, NotedAt;
      CountBottom(p, q, level, k);
      for i := 1 to maxLevel
        invariant Inserting(p, q, level, k) && LinkedFrom(p, q, level, 0) && CountedTo(p, q, level, i)
        invariant i - 1 < level ==> dist[i - 1][p] == q - Prev(hs, i - 1, q)
      {
        CountLevel(i, p, q, level, k, moved, nexts);
      }
    }

    /** On the full list all distances are 1. */
    method CountBottom(p: nat, ghost q: nat, level: nat, k: int)
      requires Inserting(p, q, level, k) && LinkedFrom(p, q, level, 0) && CountedTo(p, q, level, 0)
      modifies this`dist
      ensures Inserting(p, q, level, k) && LinkedFrom(p, q, level, 0) && CountedTo(p, q, level, 1)
      ensures dist[0][p] == 1 == q - Prev(hs, 0, q)
    {
      hide NextFrom, Prev, Ptrs, Dists, Sorted, Counted, Ins;
      DistsIns(order, hs, dist[0], 0, q, p, level, maxLevel);
      BottomIs(order, hs, dist[0], q, p, level, maxLevel);
      dist := dist[0 := dist[0][p := 1]];
    }

    method CountLevel(i: nat, p: nat, ghost q: nat, level: nat, k: int, moved: seq<int>, nexts: seq<int>)
      requires 0 < i < maxLevel && Inserting(p, q, level, k) && LinkedFrom(p, q, level, 0) && CountedTo(p, q, level, i)
      requires Noted(moved, nexts, q, 0) && (i - 1 < level ==> dist[i - 1][p] == q - Prev(hs, i - 1, q))
      modifies this`dist
      ensures Inserting(p, q, level, k) && LinkedFrom(p, q, level, 0) && CountedTo(p, q, level, i + 1)
      ensures i < level ==> dist[i][p] == q - Prev(hs, i, q)
    {
      hide NextFrom, Prev, Ptrs, Dists, Sorted, Counted, Ins, IsPlace;
      assert NotedAt(moved[i], nexts[i], q, i) && NotedAt(moved[i - 1], nexts[i - 1], q, i - 1);
      DistsIns(order, hs, dist[i], i, q, p, level, maxLevel);
      CountedIs(order, hs, dist[i], i, q, p, level, maxLevel);
      var nx := nexts[i];
      if i < level {
        dist := dist[i := dist[i][p := dist[i - 1][p] + moved[i - 1]]];
        if nx != NULL {
          dist := dist[i := dist[i][nx := dist[i][nx] + 1 - dist[i][p]]];
        }
      } else if nx != NULL {
        dist := dist[i := dist[i][nx := dist[i][nx] + 1]];
      }
    }

    // ---- Removing ----

    /** The node at position q is about to leave the list. */
    ghost predicate Removing(q: nat, k: int)
      reads this
    {
      && 0 < q <= |order| == |hs| && hs[0] == maxLevel && order[0] == HEAD && Sorted(order, key)
      && Shape(order, hs, |key|) && IsPlace(order, key, k, q)
    }

    ghost predicate Present(q: nat, k: int)
      reads this`order, this`key
    {
      q < |order| && order[q] < |key| && key[order[q]] == k
    }

    /** A level before the node leaves; with it unlinked but not yet discounted; and after it has left. */
    ghost predicate Whole(i: nat)
      requires i < |next| && i < |dist|
      reads this
    {
      Ptrs(order, hs, next[i], i) && Dists(order, hs, dist[i], i)
    }

    ghost predicate Passed(q: nat, i: nat)
      requires i < |next| && i < |dist| && 0 < q < |order| == |hs|
      reads this
    {
      && Ptrs(Del(order, q), Del(hs, q), next[i], i)
      && if hs[q] > i then Dists(Del(order, q), Del(hs, q), dist[i], i) else Dists(order, hs, dist[i], i)
    }

    ghost predicate Left(q: nat, i: nat)
      requires i < |next| && i < |dist| && 0 < q < |order| == |hs|
      reads this
    {
      Ptrs(Del(order, q), Del(hs, q), next[i], i) && Dists(Del(order, q), Del(hs, q), dist[i], i)
    }

    /** The levels from i up have been passed. */
    ghost predicate PassedFrom(q: nat, k: int, i: nat)
      requires Removing(q, k)
      reads this
    {
      && (forall j :: 0 <= j < maxLevel && (j < i || !Present(q, k)) ==> Whole(j))
      && (Present(q, k) ==> forall j :: i <= j < maxLevel ==> Passed(q, j))
    }

    /** The node has left the levels below i. */
    ghost predicate LeftTo(q: nat, k: int, i: nat)
      requires Removing(q, k) && Present(q, k)
      reads this
    {
      (forall j :: 0 <= j < maxLevel && j < i ==> Left(q, j)) && forall j :: i <= j < maxLevel ==> Passed(q, j)
    }

    /** The links across the node on the levels it does not reach. */
    ghost predicate Across(nexts: seq<int>, q: nat, i: nat)
      requires 0 < q < |order| == |hs|
      reads this`order, this`hs
    {
      |nexts| == maxLevel && forall j :: i <= j < maxLevel ==>
        nexts[j] == if hs[q] > j then NULL else NodeAt(order, NextFrom(hs, j, q))
    }

    /** Remove a key. */
    method Remove(k: int) returns (removed: bool)
      requires Valid()
      modifies this
      ensures Valid() && (removed <==> k in old(Contents()))
      ensures Contents() == old(Contents()) - {k} && size == old(size) - (if removed then 1 else 0)
    {
      hide NextFrom, Prev, Ptrs, Dists, Dict, Del, Order, Sorted, IsPlace;
      ghost var q := PlaceOf(k);
      ghost var d := Contents();
      StartRemoving(q, k);
      var p, nexts := UnlinkAll(k, q);
      if p != NULL {
        DiscountAll(k, q, nexts);
        Removed(q, k);
        order, hs, size := Del(order, q), Del(hs, q), size - 1;
      }
      removed := p != NULL;
      if !removed {
        assert d - {k} == d;
        Kept(q, k);
      }
    }

    lemma Kept(q: nat, k: int)
      requires Removing(q, k) && PassedFrom(q, k, 0) && !Present(q, k)
      ensures forall i :: 0 <= i < maxLevel ==> Ptrs(order, hs, next[i], i) && Dists(order, hs, dist[i], i)
    {
      hide Ptrs, Dists;
      forall i | 0 <= i < maxLevel
        ensures Ptrs(order, hs, next[i], i) && Dists(order, hs, dist[i], i)
      {
        assert Whole(i);
      }
    }

    lemma StartRemoving(q: nat, k: int)
      requires Valid() && IsPlace(order, key, k, q)
      ensures Removing(q, k) && PassedFrom(q, k, maxLevel)
      ensures Present(q, k) <==> q < |order| && key[order[q]] == k
    {
      hide NextFrom, Prev, Ptrs, Dists;
    }

    lemma Removed(q: nat, k: int)
      requires Removing(q, k) && Present(q, k) && LeftTo(q, k, maxLevel)
      ensures Order(Del(order, q), Del(hs, q), |key|, maxLevel) && Sorted(Del(order, q), key)
      ensures Dict(Del(order, q), key, value) == Dict(order, key, value) - {k}
      ensures forall i :: 0 <= i < maxLevel ==>
        Ptrs(Del(order, q), Del(hs, q), next[i], i) && Dists(Del(order, q), Del(hs, q), dist[i], i)
    {
      hide NextFrom, Prev, Ptrs, Dists;
      forall i | 0 <= i < maxLevel
        ensures Ptrs(Del(order, q), Del(hs, q), next[i], i) && Dists(Del(order, q), Del(hs, q), dist[i], i)
      {
        assert Left(q, i);
      }
      OrderDel(order, hs, q, |key|, maxLevel);
      DictDel(order, key, value, q);
    }

    /** Descend from the top level and unlink the node from the levels it reaches. */
    method UnlinkAll(k: int, ghost q: nat) returns (p: int, nexts: seq<int>)
      requires Removing(q, k) && PassedFrom(q, k, maxLevel)
      modifies this`next, this`dist
      ensures Removing(q, k) && PassedFrom(q, k, 0) && (p != NULL <==> Present(q, k))
      ensures Present(q, k) ==> Across(nexts, q, 0)
    {
      hide NextFrom, Prev, Order, Sorted, IsPlace, Whole, Passed;
      p, nexts := NULL, seq(maxLevel, _ => NULL);
      var n: nat := HEAD;
      ghost var a: nat := 0;
      NodeHeights(q, k);
      for i := maxLevel downto 0
        invariant Removing(q, k) && PassedFrom(q, k, i) && (Present(q, k) ==> Across(nexts, q, i))
        invariant |nexts| == maxLevel && (p != NULL <==> Present(q, k) && i < hs[q])
        invariant forall j :: 0 <= j < i ==> nexts[j] == NULL
        invariant a < q && n == order[a] && hs[a] >= i && (i < maxLevel ==> hs[a] > i)
      {
        n, p, nexts, a := UnlinkLevel(i, n, k, q, p, nexts, a);
      }
    }

    lemma NodeHeights(q: nat, k: int)
      requires Removing(q, k)
      ensures Present(q, k) ==> 0 < hs[q] <= maxLevel
    {
    }

    method UnlinkLevel(i: nat, start: nat, k: int, ghost q: nat, p0: int, nexts0: seq<int>, ghost a0: nat)
      returns (n: nat, p: int, nexts: seq<int>, ghost a: nat)
      requires i < maxLevel && Removing(q, k) && PassedFrom(q, k, i + 1) && (Present(q, k) ==> Across(nexts0, q, i + 1))
      requires |nexts0| == maxLevel && (p0 != NULL <==> Present(q, k) && i + 1 < hs[q])
      requires forall j :: 0 <= j <= i ==> nexts0[j] == NULL
      requires a0 < q && start == order[a0] && hs[a0] > i
      modifies this`next, this`dist
      ensures Removing(q, k) && PassedFrom(q, k, i) && (Present(q, k) ==> Across(nexts, q, i))
      ensures |nexts| == maxLevel && (p != NULL <==> Present(q, k) && i < hs[q])
      ensures forall j :: 0 <= j < i ==> nexts[j] == NULL
      ensures a < q && n == order[a] && hs[a] > i
    {
      hide NextFrom, Prev, Order, Sorted, IsPlace, Del, Ptrs, Dists;
      var moved, nx;
      assert Whole(i);
      n, moved, nx, a := Walk(i, start, k, a0, q);
      Landed(i, q, k);
      p, nexts := p0, nexts0;
      if nx == NULL || key[nx] > k {
        nexts := nexts[i := nx];
        ShortNode(i, q, k);
      } else {
        p := nx;
        UnlinkNode(i, n, p, q, k);
      }
      forall j | 0 <= j < maxLevel && (j < i || !Present(q, k))
        ensures Whole(j)
      {
        assert old(Whole(j));
      }
      forall j | i <= j < maxLevel && Present(q, k)
        ensures Passed(q, j)
      {
        assert j > i ==> old(Passed(q, j));
      }
    }

    /** A level the node does not reach keeps its links. */
    lemma ShortNode(i: nat, q: nat, k: int)
      requires i < maxLevel && Removing(q, k) && Whole(i) && (Present(q, k) ==> hs[q] <= i)
      ensures Present(q, k) ==> Passed(q, i)
    {
      hide NextFrom, Prev, Ptrs, Dists, Del;
      if Present(q, k) {
        PtrsDel(order, hs, next[i], i, q, |key|, maxLevel);
      }
    }

    method UnlinkNode(i: nat, n: nat, p: nat, ghost q: nat, ghost k: int)
      requires i < maxLevel && Removing(q, k) && Present(q, k) && hs[q] > i && Whole(i)
      requires p == order[q] && n == order[Prev(hs, i, q)]
      modifies this`next, this`dist
      ensures Removing(q, k) && Passed(q, i)
      ensures forall j :: 0 <= j < maxLevel && j != i ==> next[j] == old(next)[j] && dist[j] == old(dist)[j]
    {
      hide NextFrom, Prev, Ptrs, Dists, Del, Sorted, IsPlace, Unlinked, Uncounted;
      PtrsDel(order, hs, next[i], i, q, |key|, maxLevel);
      DistsDel(order, hs, dist[i], i, q, |key|, maxLevel);
      UnlinkedIs(order, hs, next[i], dist[i], i, q, |key|, maxLevel);
      next := next[i := next[i][n := next[i][p]]];
      var pnext := next[i][p];
      if pnext != NULL {
        dist := dist[i := dist[i][pnext := dist[i][pnext] + (dist[i][p] - 1)]];
      }
    }

    /** One place less to skip on the levels the node did not reach. */
    method DiscountAll(k: int, ghost q: nat, nexts: seq<int>)
      requires Removing(q, k) && Present(q, k) && PassedFrom(q, k, 0) && Across(nexts, q, 0)
      modifies this`dist
      ensures Removing(q, k) && LeftTo(q, k, maxLevel)
    {
      hide NextFrom, Prev, Order, Sorted, IsPlace, Left, Passed;
      for i := 0 to maxLevel
        invariant Removing(q, k) && LeftTo(q, k, i)
      {
        DiscountLevel(i, k, q, nexts[i]);
      }
    }

    method DiscountLevel(i: nat, k: int, ghost q: nat, nx: int)
      requires i < maxLevel && Removing(q, k) && Present(q, k) && LeftTo(q, k, i)
      requires nx == if hs[q] > i then NULL else NodeAt(order, NextFrom(hs, i, q))
      modifies this`dist
      ensures Removing(q, k) && LeftTo(q, k, i + 1)
    {
      hide NextFrom, Prev, Ptrs, Dists, Del, Sorted, IsPlace, Uncounted;
      assert Passed(q, i);
      if hs[q] <= i {
        DistsDel(order, hs, dist[i], i, q, |key|, maxLevel);
        UncountedIs(order, hs, dist[i], i, q, |key|, maxLevel);
        NextHere(hs, i, q);
      }
      if nx != NULL {
        dist := dist[i := dist[i][nx := dist[i][nx] + -1]];
      }
      forall j | 0 <= j < i + 1
        ensures Left(q, j)
      {
        assert j < i ==> old(Left(q, j));
      }
      forall j | i + 1 <= j < maxLevel
        ensures Passed(q, j)
      {
        assert old(Passed(q, j));
      }
    }

    /** The key with k smaller ones. */
    method GetKth(k: nat) returns (r: int)
      requires Valid() && k < size
      ensures r in Contents() && |set x | x in Contents() && x < r| == k
    {
      hide NextFrom, Prev, Ptrs, Dists, Dict, Sorted;
      var left: nat := k + 1;
      var n: nat := HEAD;
      ghost var a: nat := 0;
      for i := maxLevel downto 0
        invariant a <= k + 1 && n == order[a] && left == k + 1 - a && hs[a] >= i && (i < maxLevel ==> hs[a] > i)
        invariant i == 0 ==> left == 0
      {
        n, left, a := SkipLevel(i, n, left, a, k);
      }
      Kth(k);
      r := key[n];
    }

    /** Go on along a level as long as no more than the places left are skipped. */
    method SkipLevel(i: nat, start: nat, left0: nat, ghost a0: nat, ghost k: nat)
      returns (n: nat, left: nat, ghost a: nat)
      requires Valid() && k < size && i < maxLevel && a0 <= k + 1 && start == order[a0] && left0 == k + 1 - a0 && hs[a0] > i
      ensures a <= k + 1 && n == order[a] && left == k + 1 - a && hs[a] > i && (i == 0 ==> left == 0)
    {
      hide NextFrom, Prev, Ptrs, Dists, Dict, Sorted;
      n, left, a := start, left0, a0;
      LinkHere(i, a);
      var nx := next[i][n];
      Gaps(i, a);
      while left != 0 && nx != NULL && left >= dist[i][nx]
        invariant a <= k + 1 && n == order[a] && left == k + 1 - a && hs[a] > i
        invariant var b := NextFrom(hs, i, a + 1);
          nx == NodeAt(order, b) && (nx != NULL ==> 0 <= nx < |key| && b < |order| && hs[b] > i && a < b && dist[i][nx] == b - a)
        decreases left
      {
        ghost var b := NextFrom(hs, i, a + 1);
        left := left - dist[i][nx];
        n := nx;
        a := b;
        LinkHere(i, a);
        Gaps(i, a);
        nx := next[i][n];
      }
      Bottom(i, a);
    }

    lemma Gaps(i: nat, a: nat)
      requires Valid() && i < maxLevel && a < |order| && hs[a] > i
      ensures var b := NextFrom(hs, i, a + 1);
        NodeAt(order, b) != NULL ==> a < b < |order| && hs[b] > i && order[b] < |dist[i]| && dist[i][order[b]] == b - a
    {
      hide NextFrom, Prev;
      var b := NextFrom(hs, i, a + 1);
      NextIs(hs, i, a + 1, b);
      if b < |order| {
        PrevIs(hs, i, b, a);
        assert DistAt(order, hs, dist[i], i, b);
      }
    }

    /** On the full list the next place is one further. */
    lemma Bottom(i: nat, a: nat)
      requires Valid() && i < maxLevel && a < |order|
      ensures i == 0 ==> NextFrom(hs, i, a + 1) == a + 1
    {
      if i == 0 {
        NextIs(hs, 0, a + 1, a + 1);
      }
    }

    lemma Kth(k: nat)
      requires Valid() && k < size
      ensures var r := key[order[k + 1]]; r in Contents() && |set x | x in Contents() && x < r| == k
    {
      Below(order, key, value, k + 1);
      DictAt(order, key, value, k + 1);
    }
  }

  lemma UnlinkedIs(order: seq<nat>, hs: seq<nat>, nx: seq<int>, ds: seq<int>, i: nat, q: nat, nodes: nat, maxLevel: nat)
    requires Order(order, hs, nodes, maxLevel) && Ptrs(order, hs, nx, i) && Dists(order, hs, ds, i)
    requires nodes <= |nx| == |ds| && 0 < q < |order| && i < maxLevel && hs[q] > i
    ensures NextFrom(hs, i, q + 1) < |hs| ==> order[NextFrom(hs, i, q + 1)] < |ds|
    ensures
      var a, p, b := order[Prev(hs, i, q)], order[q], NodeAt(order, NextFrom(hs, i, q + 1));
      && a < |nx| && p < |nx| && nx[a := nx[p]] == Unlinked(order, hs, nx, i, q)
      && nx[a := nx[p]][p] == b && (b != NULL ==> 0 <= b < |ds|)
      && Uncounted(order, hs, ds, i, q) == if b == NULL then ds else ds[b := ds[b] + (ds[p] - 1)]
  {
    hide NextFrom, Prev;
    assert PtrAt(order, hs, nx, i, q);
    NextKnown(order, hs, ds, i, q + 1);
    var a := Prev(hs, i, q);
    assert order[a] != order[q] && order[a] < nodes && order[q] < nodes;
    var b := NextFrom(hs, i, q + 1);
    assert nx[order[q]] == NodeAt(order, b) && (b < |hs| ==> order[b] < nodes);
    hide Order, Ptrs, Dists, PtrAt;
  }

  lemma UncountedIs(order: seq<nat>, hs: seq<nat>, ds: seq<int>, i: nat, q: nat, nodes: nat, maxLevel: nat)
    requires Order(order, hs, nodes, maxLevel) && Dists(order, hs, ds, i)
    requires nodes <= |ds| && 0 < q < |order| && hs[q] <= i
    ensures NextFrom(hs, i, q + 1) < |hs| ==> order[NextFrom(hs, i, q + 1)] < |ds|
    ensures
      var b := NodeAt(order, NextFrom(hs, i, q + 1));
      && (b != NULL ==> 0 <= b < |ds|)
      && Uncounted(order, hs, ds, i, q) == if b == NULL then ds else ds[b := ds[b] + -1]
  {
    hide NextFrom;
    NextKnown(order, hs, ds, i, q + 1);
  }

  lemma LinkedIs(order: seq<nat>, hs: seq<nat>, nx: seq<int>, i: nat, q: nat, p: nat, h: nat)
    requires |order| == |hs| && 0 < q <= |hs| && p < |nx| && hs[0] > i && order[Prev(hs, i, q)] < |nx|
    ensures Linked(order, hs, nx, i, q, p, h)
      == if i < h then nx[p := NodeAt(order, NextFrom(hs, i, q))][order[Prev(hs, i, q)] := p] else nx
  {
  }

  ghost function Bumped(ds: seq<int>, p: nat, nx: int, tall: bool, gap: int): seq<int>
    requires p < |ds| && (nx != NULL ==> 0 <= nx < |ds|)
  {
    if tall then (if nx == NULL then ds[p := gap] else ds[p := gap][nx := ds[nx] + 1 - gap])
    else if nx == NULL then ds else ds[nx := ds[nx] + 1]
  }

  /** The new distances in terms of the link across position q. */
  lemma CountedIs(order: seq<nat>, hs: seq<nat>, ds: seq<int>, i: nat, q: nat, p: nat, h: nat, maxLevel: nat)
    requires Order(order, hs, p, maxLevel) && Dists(order, hs, ds, i) && p < |ds| && 0 < q <= |order|
    ensures NextFrom(hs, i, q) < |hs| ==> order[NextFrom(hs, i, q)] < |ds|
    ensures
      var nx := NodeAt(order, NextFrom(hs, i, q));
      && (nx != NULL ==> 0 <= nx < |ds| && nx != p)
      && Counted(order, hs, ds, i, q, p, h) == Bumped(ds, p, nx, i < h, q - Prev(hs, i, q))
  {
    hide NextFrom, Prev, Counted, Bumped;
    NextKnown(order, hs, ds, i, q);
    var b := NextFrom(hs, i, q);
    assert |order| == |hs| && hs[0] > i && (b < |hs| ==> order[b] < p);
    hide Order, Dists;
    CountedBumps(order, hs, ds, i, q, p, h);
  }

  lemma CountedBumps(order: seq<nat>, hs: seq<nat>, ds: seq<int>, i: nat, q: nat, p: nat, h: nat)
    requires |order| == |hs| && 0 < q <= |hs| && p < |ds| && hs[0] > i
    requires NextFrom(hs, i, q) < |hs| ==> order[NextFrom(hs, i, q)] < |ds| && order[NextFrom(hs, i, q)] != p
    ensures Counted(order, hs, ds, i, q, p, h) == Bumped(ds, p, NodeAt(order, NextFrom(hs, i, q)), i < h, q - Prev(hs, i, q))
  {
    hide NextFrom, Prev;
  }

  lemma BottomPrev(order: seq<nat>, hs: seq<nat>, q: nat, p: nat, maxLevel: nat)
    requires Order(order, hs, p, maxLevel) && 0 < q <= |order|
    ensures hs[0] > 0 && Prev(hs, 0, q) == q - 1
  {
  }

  lemma BottomIs(order: seq<nat>, hs: seq<nat>, ds: seq<int>, q: nat, p: nat, h: nat, maxLevel: nat)
    requires Order(order, hs, p, maxLevel) && Dists(order, hs, ds, 0) && p < |ds| && 0 < q <= |order| && h > 0
    ensures NextFrom(hs, 0, q) < |hs| ==> order[NextFrom(hs, 0, q)] < |ds|
    ensures Prev(hs, 0, q) == q - 1 && Counted(order, hs, ds, 0, q, p, h) == ds[p := 1]
  {
    hide NextFrom, Prev;
    NextKnown(order, hs, ds, 0, q);
    BottomPrev(order, hs, q, p, maxLevel);
    if q < |hs| {
      NextHere(hs, 0, q);
      var n := order[q];
      assert hs[q] > 0 && n < p && ds[n] == q - Prev(hs, 0, q) == 1;
      hide Order, Dists;
      assert ds[p := 1][n := ds[p := 1][n] + 1 - 1] == ds[p := 1];
    }
  }
}
