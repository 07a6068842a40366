/** The buddy allocator: an implicit binary tree in an array, whose entries tell the largest free block
    below each node. */
module Buddy {
  import opened Numerals

  /** Blocks of 2^h units: free, in use, or split into two halves that are not both free. */
  datatype Tree = Free | Used | Split(left: Tree, right: Tree)

  function Left(t: Tree): Tree { if t.Split? then t.left else Free }

  function Right(t: Tree): Tree { if t.Split? then t.right else Free }

  function Join(l: Tree, r: Tree): Tree { if l.Free? && r.Free? then Free else Split(l, r) }

  /** No higher than h, and free halves are joined. */
  ghost predicate Fits(t: Tree, h: nat) {
    t.Split? ==> h > 0 && Fits(t.left, h - 1) && Fits(t.right, h - 1) && !(t.left.Free? && t.right.Free?)
  }

  /** One more than the height of the largest free block, or 0. */
  ghost function Best(t: Tree, h: nat): nat
    decreases t
  {
    match t
    case Free => h + 1
    case Used => 0
    case Split(l, r) => if h == 0 then 0 else Max(Best(l, h - 1), Best(r, h - 1))
  }

  lemma {:induction false} BestBound(t: Tree, h: nat)
    requires Fits(t, h)
    ensures Best(t, h) <= h + 1 && (Best(t, h) == h + 1 <==> t.Free?)
    decreases t
  {
    if t.Split? {
      BestBound(t.left, h - 1);
      BestBound(t.right, h - 1);
    }
  }

  // ---- Live blocks ------------------------------------------------------------------------

  datatype Block = Block(offset: nat, height: nat)

  /** A block of height k in use at offset o. */
  ghost predicate LiveAt(t: Tree, h: nat, o: int, k: nat)
    decreases t
  {
    match t
    case Free => false
    case Used => o == 0 && k == h
    case Split(l, r) =>
      h > 0 && if o < Pow(2, h - 1) then LiveAt(l, h - 1, o, k) else LiveAt(r, h - 1, o - Pow(2, h - 1), k)
  }

  ghost predicate Overlap(o: int, k: nat, p: int, m: nat) {
    o < p + Pow(2, m) && p < o + Pow(2, k)
  }

  /** Live blocks lie inside the area, each at a multiple of its size. */
  lemma {:induction false} LiveAligned(t: Tree, h: nat, o: int, k: nat)
    requires LiveAt(t, h, o, k)
    ensures k <= h && 0 <= o && o + Pow(2, k) <= Pow(2, h) && o % Pow(2, k) == 0
    decreases t
  {
    if t.Split? {
      var half := Pow(2, h - 1);
      if o < half {
        LiveAligned(t.left, h - 1, o, k);
      } else {
        LiveAligned(t.right, h - 1, o - half, k);
        PowAdd(2, k, h - 1 - k);
        AlignedSum(o - half, Pow(2, h - 1 - k), Pow(2, k));
      }
    }
  }

  lemma AlignedSum(o: int, c: nat, size: nat)
    requires size > 0 && o % size == 0
    ensures (o + size * c) % size == 0 && (o - size * c) % size == 0
  {
    DivModLaw(o, size);
    var q := o / size;
    MulDistribute(q, c, size);
    Multiple(size, q + c);
    Multiple(size, q - c);
  }

  lemma Multiple(size: nat, c: int)
    requires size > 0
    ensures (size * c) % size == 0
  {
    DivModUnique(0, c, size);
  }

  /** Two different live blocks do not overlap. */
  lemma {:induction false} LiveDisjoint(t: Tree, h: nat, o: int, k: nat, p: int, m: nat)
    requires LiveAt(t, h, o, k) && LiveAt(t, h, p, m) && Overlap(o, k, p, m)
    ensures o == p && k == m
    decreases t
  {
    if t.Split? {
      var half := Pow(2, h - 1);
      if o < half {
        LiveAligned(t.left, h - 1, o, k);
      } else {
        LiveAligned(t.right, h - 1, o - half, k);
      }
      if p < half {
        LiveAligned(t.left, h - 1, p, m);
      } else {
        LiveAligned(t.right, h - 1, p - half, m);
      }
      if o < half && p < half {
        LiveDisjoint(t.left, h - 1, o, k, p, m);
      } else if o >= half && p >= half {
        LiveDisjoint(t.right, h - 1, o - half, k, p - half, m);
      }
    }
  }

  /** An aligned block no live block overlaps. */
  ghost predicate FreeBlock(t: Tree, h: nat, o: int, k: nat) {
    && k <= h && 0 <= o && o + Pow(2, k) <= Pow(2, h) && o % Pow(2, k) == 0
    && forall p, m {:trigger LiveAt(t, h, p, m)} :: LiveAt(t, h, p, m) ==> !Overlap(o, k, p, m)
  }

  /** What a request of 2^k units gets: the tree afterwards and the offset. */
  ghost function Take(t: Tree, h: nat, k: nat): (r: (Tree, nat))
    requires k <= h
    decreases h
  {
    if h == k then (Used, 0)
    else if Best(Left(t), h - 1) > k then
      var (l, o) := Take(Left(t), h - 1, k);
      (Join(l, Right(t)), o)
    else
      var (r, o) := Take(Right(t), h - 1, k);
      (Join(Left(t), r), Pow(2, h - 1) + o)
  }

  /** The half a smaller request goes to. */
  ghost function Half(t: Tree, h: nat, k: nat): (r: (bool, Tree))
    requires k < h
  {
    if Best(Left(t), h - 1) > k then (false, Left(t)) else (true, Right(t))
  }

  /** A smaller request goes on in one half that has room. */
  lemma TakeHalf(t: Tree, h: nat, k: nat)
    requires Fits(t, h) && k < h && Best(t, h) > k
    ensures
      var (b, c) := Half(t, h, k);
      var (u, o) := Take(c, h - 1, k);
      && c == (if b then Right(t) else Left(t)) && Fits(c, h - 1) && Best(c, h - 1) > k && !t.Used?
      && Fits(if b then Left(t) else Right(t), h - 1)
      && Take(t, h, k) == (JoinAt(t, b, u), (if b then Pow(2, h - 1) else 0) + o)
  {
    hide Best, Fits, Take, Half, JoinAt, Left, Right, Pow;
    HalfRoom(t, h, k);
    TakeThere(t, h, k);
  }

  lemma HalfRoom(t: Tree, h: nat, k: nat)
    requires Fits(t, h) && k < h && Best(t, h) > k
    ensures
      var (b, c) := Half(t, h, k);
      && c == (if b then Right(t) else Left(t)) && Fits(c, h - 1) && Best(c, h - 1) > k && !t.Used?
      && Fits(if b then Left(t) else Right(t), h - 1)
  {
    SplitHalves(t, h, k);
    NotUsed(t, h);
    hide Best, Fits, Left, Right;
  }

  lemma NotUsed(t: Tree, h: nat)
    ensures t.Used? ==> Best(t, h) == 0
  {
  }

  lemma TakeThere(t: Tree, h: nat, k: nat)
    requires k < h
    ensures
      var (b, c) := Half(t, h, k);
      var (u, o) := Take(c, h - 1, k);
      Take(t, h, k) == (JoinAt(t, b, u), (if b then Pow(2, h - 1) else 0) + o)
  {
    hide Best, Fits, Pow, Left, Right;
  }

  lemma TakeWhole(t: Tree, h: nat)
    ensures Take(t, h, h) == (Used, 0)
  {
  }

  ghost function JoinAt(t: Tree, b: bool, s: Tree): Tree {
    if b then Join(Left(t), s) else Join(s, Right(t))
  }

  lemma SplitHalves(t: Tree, h: nat, k: nat)
    requires Fits(t, h) && k < h && Best(t, h) > k
    ensures Fits(Left(t), h - 1) && Fits(Right(t), h - 1)
    ensures Best(Left(t), h - 1) > k || Best(Right(t), h - 1) > k
  {
    BestBound(t, h);
  }

  lemma {:induction false} TakeFits(t: Tree, h: nat, k: nat)
    requires Fits(t, h) && k <= h && Best(t, h) > k
    ensures var (u, o) := Take(t, h, k); Fits(u, h) && !u.Free?
    decreases h
  {
    hide Take, Best, Half, Pow;
    if k < h {
      TakeHalf(t, h, k);
      TakeFits(Half(t, h, k).1, h - 1, k);
    } else {
      TakeWhole(t, h);
    }
  }

  lemma LiveJoin(l: Tree, r: Tree, h: nat, p: int, m: nat)
    requires h > 0
    ensures LiveAt(Join(l, r), h, p, m)
      <==> if p < Pow(2, h - 1) then LiveAt(l, h - 1, p, m) else LiveAt(r, h - 1, p - Pow(2, h - 1), m)
  {
  }

  lemma LiveHalves(t: Tree, h: nat, p: int, m: nat)
    requires h > 0 && !t.Used?
    ensures LiveAt(t, h, p, m)
      <==> if p < Pow(2, h - 1) then LiveAt(Left(t), h - 1, p, m) else LiveAt(Right(t), h - 1, p - Pow(2, h - 1), m)
  {
  }

  /** The request gets an aligned block that was free; it is live afterwards, besides those that were. */
  lemma {:induction false} TakeLive(t: Tree, h: nat, k: nat, p: int, m: nat)
    requires Fits(t, h) && k <= h && Best(t, h) > k
    ensures var (u, o) := Take(t, h, k); LiveAt(u, h, p, m) <==> LiveAt(t, h, p, m) || (p == o && m == k)
    decreases h
  {
    hide Take, LiveAt, Best, Fits, Half, Pow;
    if k < h {
      TakeHalf(t, h, k);
      var (b, c) := Half(t, h, k);
      var (u, o) := Take(c, h - 1, k);
      TakeLive(c, h - 1, k, if b then p - Pow(2, h - 1) else p, m);
      TakeInside(c, h - 1, k);
      LiveHalves(t, h, p, m);
      LiveJoin(if b then Left(t) else u, if b then u else Right(t), h, p, m);
      LowHalf(c, h - 1, p, m, o, k);
    } else {
      TakeWhole(t, h);
      WholeFree(t, h, p, m);
    }
  }

  lemma WholeFree(t: Tree, h: nat, p: int, m: nat)
    requires Fits(t, h) && Best(t, h) > h
    ensures !LiveAt(t, h, p, m) && (LiveAt(Used, h, p, m) <==> p == 0 && m == h)
  {
    BestBound(t, h);
  }

  lemma LowHalf(t: Tree, h: nat, p: int, m: nat, o: nat, k: nat)
    requires o + Pow(2, k) <= Pow(2, h)
    ensures p >= Pow(2, h) ==> !(p == o && m == k)
  {
  }

  lemma {:induction false} TakeInside(t: Tree, h: nat, k: nat)
    requires Fits(t, h) && k <= h && Best(t, h) > k
    ensures var (u, o) := Take(t, h, k); o + Pow(2, k) <= Pow(2, h)
    decreases h
  {
    hide Take, Best, Fits, Half;
    if k < h {
      TakeHalf(t, h, k);
      TakeInside(Half(t, h, k).1, h - 1, k);
    } else {
      TakeWhole(t, h);
    }
  }

  /** The new block overlaps none of the blocks that were live. */
  lemma {:induction false} TakeWasFree(t: Tree, h: nat, k: nat)
    requires Fits(t, h) && k <= h && Best(t, h) > k
    ensures FreeBlock(t, h, Take(t, h, k).1, k)
  {
    var (u, o) := Take(t, h, k);
    TakeLive(t, h, k, o, k);
    LiveAligned(u, h, o, k);
    forall p, m | LiveAt(t, h, p, m)
      ensures !Overlap(o, k, p, m)
    {
      TakeLive(t, h, k, p, m);
      if Overlap(o, k, p, m) {
        LiveDisjoint(u, h, o, k, p, m);
        TakeNew(t, h, k);
      }
    }
  }

  lemma {:induction false} TakeNew(t: Tree, h: nat, k: nat)
    requires Fits(t, h) && k <= h && Best(t, h) > k
    ensures !LiveAt(t, h, Take(t, h, k).1, k)
    decreases h
  {
    hide Take, LiveAt, Best, Fits, Half, Pow;
    if k < h {
      TakeHalf(t, h, k);
      var (b, c) := Half(t, h, k);
      var (u, o) := Take(c, h - 1, k);
      TakeNew(c, h - 1, k);
      TakeInside(c, h - 1, k);
      LiveHalves(t, h, Take(t, h, k).1, k);
      MulSign(Pow(2, k), 1);
      LowHalf(c, h - 1, Take(t, h, k).1, k, o, k);
    } else {
      WholeFree(t, h, Take(t, h, k).1, k);
    }
  }

  /** A request is refused exactly when there is no aligned free block of the size. */
  lemma RefusedExactly(t: Tree, h: nat, k: nat)
    requires Fits(t, h)
    ensures Best(t, h) > k <==> exists o :: FreeBlock(t, h, o, k)
  {
    BestBound(t, h);
    if Best(t, h) > k {
      TakeWasFree(t, h, k);
    } else if o :| FreeBlock(t, h, o, k) {
      NoRoom(t, h, o, k);
      assert false;
    }
  }

  /** Where there is a free aligned block there is room. */
  lemma {:induction false} NoRoom(t: Tree, h: nat, o: int, k: nat)
    requires Fits(t, h) && FreeBlock(t, h, o, k)
    ensures Best(t, h) > k
    decreases t
  {
    assert t.Used? ==> LiveAt(t, h, 0, h);
    match t
    case Free =>
    case Used =>
    case Split(l, r) =>
      var half := Pow(2, h - 1);
      if k == h {
        SomeLive(t, h);
      } else if o < half {
        FreeLeft(l, r, h, o, k);
        NoRoom(l, h - 1, o, k);
      } else {
        FreeRight(l, r, h, o, k);
        NoRoom(r, h - 1, o - half, k);
      }
  }

  lemma FreeLeft(l: Tree, r: Tree, h: nat, o: int, k: nat)
    requires FreeBlock(Split(l, r), h, o, k) && k < h && o < Pow(2, h - 1)
    ensures FreeBlock(l, h - 1, o, k)
  {
    RoomBelow(o, h - 1, k);
    forall p, m | LiveAt(l, h - 1, p, m)
      ensures !Overlap(o, k, p, m)
    {
      LiveAligned(l, h - 1, p, m);
      assert LiveAt(Split(l, r), h, p, m);
    }
  }

  /** The block handed out is the one with the least offset. */
  lemma {:induction false} TakeLeftmost(t: Tree, h: nat, k: nat, o: int)
    requires Fits(t, h) && FreeBlock(t, h, o, k)
    ensures Take(t, h, k).1 <= o
    decreases h
  {
    hide Fits, Best, LiveAt, Half, FreeBlock, Pow;
    NoRoom(t, h, o, k);
    NotNegative(t, h, o, k);
    if k < h {
      TakeHalf(t, h, k);
      var (b, c) := Half(t, h, k);
      FreeInHalf(t, h, o, k);
      if o < Pow(2, h - 1) {
        TakesLeft(t, h, k, o);
        TakeLeftmost(c, h - 1, k, o);
      } else if b {
        TakeLeftmost(c, h - 1, k, o - Pow(2, h - 1));
      } else {
        TakeInside(c, h - 1, k);
      }
    } else {
      TakeWhole(t, h);
    }
  }

  lemma NotNegative(t: Tree, h: nat, o: int, k: nat)
    requires FreeBlock(t, h, o, k)
    ensures o >= 0 && k <= h
  {
  }

  lemma FreeInHalf(t: Tree, h: nat, o: int, k: nat)
    requires Fits(t, h) && k < h && Best(t, h) > k && FreeBlock(t, h, o, k)
    ensures if o < Pow(2, h - 1) then FreeBlock(Left(t), h - 1, o, k) else FreeBlock(Right(t), h - 1, o - Pow(2, h - 1), k)
  {
    if t.Split? {
      if o < Pow(2, h - 1) {
        FreeLeft(t.left, t.right, h, o, k);
      } else {
        FreeRight(t.left, t.right, h, o, k);
      }
    } else {
      if o < Pow(2, h - 1) {
        RoomBelow(o, h - 1, k);
      } else {
        PowAdd(2, k, h - 1 - k);
        AlignedSum(o, Pow(2, h - 1 - k), Pow(2, k));
      }
    }
  }

  lemma TakesLeft(t: Tree, h: nat, k: nat, o: int)
    requires Fits(t, h) && k < h && Best(t, h) > k && FreeBlock(Left(t), h - 1, o, k)
    ensures !Half(t, h, k).0
  {
    SplitHalves(t, h, k);
    NoRoom(Left(t), h - 1, o, k);
  }

  lemma RoomBelow(o: int, h: nat, k: nat)
    requires k <= h && o % Pow(2, k) == 0 && 0 <= o < Pow(2, h)
    ensures o + Pow(2, k) <= Pow(2, h)
  {
    PowAdd(2, k, h - k);
    StaysBelow(o, Pow(2, h - k), Pow(2, k));
  }

  lemma FreeRight(l: Tree, r: Tree, h: nat, o: int, k: nat)
    requires FreeBlock(Split(l, r), h, o, k) && k < h && o >= Pow(2, h - 1)
    ensures FreeBlock(r, h - 1, o - Pow(2, h - 1), k)
  {
    var half, size, whole := Pow(2, h - 1), Pow(2, k), Pow(2, h);
    assert whole == half + half;
    ShiftDown(o, h - 1, k);
    hide Pow;
    forall p, m {:trigger LiveAt(r, h - 1, p, m)} | LiveAt(r, h - 1, p, m)
      ensures !Overlap(o - half, k, p, m)
    {
      LiveAligned(r, h - 1, p, m);
      LiveRight(l, r, h, p, m);
    }
  }

  lemma LiveRight(l: Tree, r: Tree, h: nat, p: int, m: nat)
    requires h > 0 && LiveAt(r, h - 1, p, m) && 0 <= p
    ensures LiveAt(Split(l, r), h, p + Pow(2, h - 1), m)
  {
  }

  lemma ShiftDown(o: int, h: nat, k: nat)
    requires k <= h && o % Pow(2, k) == 0
    ensures (o - Pow(2, h)) % Pow(2, k) == 0
  {
    hide Pow;
    PowAdd(2, k, h - k);
    AlignedSum(o, Pow(2, h - k), Pow(2, k));
  }

  /** A multiple of the size below a larger multiple leaves room for the size. */
  lemma StaysBelow(o: int, c: nat, size: nat)
    requires size > 0 && o % size == 0 && 0 <= o < size * c
    ensures o + size <= size * c
  {
    DivModLaw(o, size);
    var q := o / size;
    if q >= c {
      MulMonotone(c, q, size);
      assert false;
    }
    MulMonotone(q + 1, c, size);
    MulDistribute(q, 1, size);
  }

  /** A tree that is not free has a live block. */
  lemma {:induction false} SomeLive(t: Tree, h: nat)
    requires Fits(t, h) && !t.Free?
    ensures exists p, m :: LiveAt(t, h, p, m) && Overlap(0, h, p, m)
    decreases t
  {
    if t.Used? {
      assert LiveAt(t, h, 0, h) && Overlap(0, h, 0, h);
    } else if !t.left.Free? {
      SomeLive(t.left, h - 1);
      var p, m :| LiveAt(t.left, h - 1, p, m);
      LiveAligned(t.left, h - 1, p, m);
      assert LiveAt(t, h, p, m) && Overlap(0, h, p, m);
    } else {
      SomeLive(t.right, h - 1);
      var p, m :| LiveAt(t.right, h - 1, p, m);
      LiveAligned(t.right, h - 1, p, m);
      assert LiveAt(t, h, p + Pow(2, h - 1), m) && Overlap(0, h, p + Pow(2, h - 1), m);
    }
  }

  // ---- Giving back ------------------------------------------------------------------------

  /** The tree without the live block at offset o. */
  ghost function Give(t: Tree, h: nat, o: int): Tree
    decreases t
  {
    match t
    case Free => Free
    case Used => Free
    case Split(l, r) =>
      if h == 0 then t
      else if o < Pow(2, h - 1) then Join(Give(l, h - 1, o), r)
      else Join(l, Give(r, h - 1, o - Pow(2, h - 1)))
  }

  /** Giving back removes the block and nothing else. */
  lemma {:induction false} GiveLive(t: Tree, h: nat, o: int, k: nat, p: int, m: nat)
    requires Fits(t, h) && LiveAt(t, h, o, k)
    ensures Fits(Give(t, h, o), h)
    ensures LiveAt(Give(t, h, o), h, p, m) <==> LiveAt(t, h, p, m) && p != o
    decreases t
  {
    if t.Split? {
      var half := Pow(2, h - 1);
      if o < half {
        GiveLive(t.left, h - 1, o, k, p, m);
      } else {
        GiveLive(t.right, h - 1, o - half, k, p - half, m);
      }
    }
  }

  /** Giving back what was just taken restores the tree. */
  lemma {:induction false} GiveTaken(t: Tree, h: nat, k: nat)
    requires Fits(t, h) && k <= h && Best(t, h) > k
    ensures var (u, o) := Take(t, h, k); Give(u, h, o) == t
    decreases h
  {
    hide Take, Best, Fits, Half, Pow, Give, JoinAt;
    if k < h {
      TakeHalf(t, h, k);
      var (b, c) := Half(t, h, k);
      var (u, o) := Take(c, h - 1, k);
      TakeFits(c, h - 1, k);
      TakeInside(c, h - 1, k);
      GiveTaken(c, h - 1, k);
      GiveHalf(t, h, k, b, u, o);
      JoinBack(t, h, b, c);
    } else {
      TakeWhole(t, h);
      BestBound(t, h);
      GiveWhole(h);
    }
  }

  lemma GiveWhole(h: nat)
    ensures Give(Used, h, 0) == Free
  {
  }

  /** Giving back in a half whose tree is not free. */
  lemma GiveHalf(t: Tree, h: nat, k: nat, b: bool, u: Tree, o: nat)
    requires h > 0 && !u.Free? && o + Pow(2, k) <= Pow(2, h - 1)
    ensures Give(JoinAt(t, b, u), h, (if b then Pow(2, h - 1) else 0) + o) == JoinAt(t, b, Give(u, h - 1, o))
  {
    hide Pow;
    PowPositive(k);
  }

  lemma PowPositive(k: nat)
    ensures Pow(2, k) > 0
  {
  }

  lemma JoinBack(t: Tree, h: nat, b: bool, c: Tree)
    requires Fits(t, h) && !t.Used? && c == if b then Right(t) else Left(t)
    ensures JoinAt(t, b, c) == t
  {
  }

  // ---- The tree in the array --------------------------------------------------------------

  type Path = seq<bool>

  /** The array holds the tree with its root at idx: each entry is the best of its subtree, also below
      blocks that are free or in use as a whole. */
  ghost predicate Rep(fl: seq<nat>, idx: nat, h: nat, t: Tree)
    decreases h
  {
    && 0 < idx < |fl| && fl[idx] == Best(t, h) && (t.Split? ==> h > 0)
    && (h > 0 ==> Rep(fl, 2 * idx, h - 1, Left(t)) && Rep(fl, 2 * idx + 1, h - 1, Right(t)))
  }

  /** The same array entries, the same tree: what the array holds below a node is determined by the tree. */
  lemma {:induction false} RepUnique(fl: seq<nat>, gl: seq<nat>, idx: nat, h: nat, t: Tree, j: nat)
    requires Rep(fl, idx, h, t) && Rep(gl, idx, h, t) && |fl| == |gl| && InSub(idx, j, h)
    ensures j < |fl| && fl[j] == gl[j]
    decreases h
  {
    hide Best, Left, Right;
    if j != idx {
      var left := InSub(2 * idx, j, h - 1);
      var c, u := if left then 2 * idx else 2 * idx + 1, if left then Left(t) else Right(t);
      assert Rep(fl, c, h - 1, u) && Rep(gl, c, h - 1, u);
      RepUnique(fl, gl, c, h - 1, u, j);
    }
  }

  /** Node j lies at most h levels below idx. */
  ghost predicate InSub(idx: nat, j: nat, h: nat)
    decreases h
  {
    j == idx || (h > 0 && (InSub(2 * idx, j, h - 1) || InSub(2 * idx + 1, j, h - 1)))
  }

  lemma {:induction false} SubRange(idx: nat, j: nat, h: nat)
    requires InSub(idx, j, h) && idx > 0
    ensures j >= idx && (j > idx ==> InSub(idx, j / 2, h))
    decreases h
  {
    if j != idx {
      var c := if InSub(2 * idx, j, h - 1) then 2 * idx else 2 * idx + 1;
      SubRange(c, j, h - 1);
      if j == c {
        assert j / 2 == idx;
      } else if c == 2 * idx {
        assert InSub(2 * idx, j / 2, h - 1);
      } else {
        assert InSub(2 * idx + 1, j / 2, h - 1);
      }
    }
  }

  lemma {:induction false} Siblings(idx: nat, j: nat, h: nat)
    requires idx > 0
    ensures !(InSub(2 * idx, j, h) && InSub(2 * idx + 1, j, h))
    ensures InSub(2 * idx, j, h) || InSub(2 * idx + 1, j, h) ==> j != idx
    decreases j
  {
    if InSub(2 * idx, j, h) && InSub(2 * idx + 1, j, h) {
      SubRange(2 * idx, j, h);
      SubRange(2 * idx + 1, j, h);
      Siblings(idx, j / 2, h);
      assert false;
    }
    if InSub(2 * idx, j, h) {
      SubRange(2 * idx, j, h);
    }
    if InSub(2 * idx + 1, j, h) {
      SubRange(2 * idx + 1, j, h);
    }
  }

  /** An entry outside the subtree does not matter. */
  lemma {:induction false} RepFrame(fl: seq<nat>, m: nat, x: nat, idx: nat, h: nat, t: Tree)
    requires Rep(fl, idx, h, t) && m < |fl| && !InSub(idx, m, h)
    ensures Rep(fl[m := x], idx, h, t)
    decreases h
  {
    hide Best, Left, Right;
    if h > 0 {
      RepFrame(fl, m, x, 2 * idx, h - 1, Left(t));
      RepFrame(fl, m, x, 2 * idx + 1, h - 1, Right(t));
    }
  }

  ghost function Node(idx: nat, p: Path): nat
    decreases |p|
  {
    if p == [] then idx else Node(if p[0] then 2 * idx + 1 else 2 * idx, p[1..])
  }

  ghost function Sub(t: Tree, p: Path): Tree
    decreases |p|
  {
    if p == [] then t else Sub(if p[0] then Right(t) else Left(t), p[1..])
  }

  lemma {:induction false} PathSnoc(idx: nat, t: Tree, p: Path, b: bool)
    ensures Node(idx, p + [b]) == 2 * Node(idx, p) + (if b then 1 else 0)
    ensures Sub(t, p + [b]) == if b then Right(Sub(t, p)) else Left(Sub(t, p))
    decreases |p|
  {
    if p == [] {
      assert [b][1..] == [] && [] + [b] == [b];
    } else {
      assert (p + [b])[1..] == p[1..] + [b];
      PathSnoc(if p[0] then 2 * idx + 1 else 2 * idx, if p[0] then Right(t) else Left(t), p[1..], b);
    }
  }

  lemma {:induction false} NodeInSub(idx: nat, p: Path, h: nat)
    requires |p| <= h
    ensures InSub(idx, Node(idx, p), h)
    decreases |p|
  {
    if p != [] {
      NodeInSub(if p[0] then 2 * idx + 1 else 2 * idx, p[1..], h - 1);
    }
  }

  lemma {:induction false} RepAt(fl: seq<nat>, idx: nat, h: nat, t: Tree, p: Path)
    requires Rep(fl, idx, h, t) && |p| <= h
    ensures Rep(fl, Node(idx, p), h - |p|, Sub(t, p))
    decreases |p|
  {
    hide Best, Left, Right;
    if p != [] {
      var c, u := if p[0] then 2 * idx + 1 else 2 * idx, if p[0] then Right(t) else Left(t);
      RepAt(fl, c, h - 1, u, p[1..]);
      assert Node(idx, p) == Node(c, p[1..]) && Sub(t, p) == Sub(u, p[1..]);
    }
  }

  /** The array holds the tree with s in the place at the end of the path, except for the entries along the
      path above it. */
  ghost predicate Stale(fl: seq<nat>, idx: nat, h: nat, t: Tree, p: Path, s: Tree)
    decreases |p|
  {
    if p == [] then Rep(fl, idx, h, s)
    else
      && 0 < idx < |fl| && h > 0
      && if p[0] then Rep(fl, 2 * idx, h - 1, Left(t)) && Stale(fl, 2 * idx + 1, h - 1, Right(t), p[1..], s)
         else Stale(fl, 2 * idx, h - 1, Left(t), p[1..], s) && Rep(fl, 2 * idx + 1, h - 1, Right(t))
  }

  lemma {:induction false} StaleStart(fl: seq<nat>, idx: nat, h: nat, t: Tree, p: Path)
    requires Rep(fl, idx, h, t) && |p| <= h
    ensures Stale(fl, idx, h, t, p, Sub(t, p))
    decreases |p|
  {
    if p != [] {
      StaleStart(fl, if p[0] then 2 * idx + 1 else 2 * idx, h - 1, if p[0] then Right(t) else Left(t), p[1..]);
    }
  }

  /** A change below one child keeps what the other child says. */
  lemma StaleWrap(fl: seq<nat>, m: nat, x: nat, idx: nat, h: nat, t: Tree, p: Path, s: Tree)
    requires p != [] && 0 < idx < |fl| && h > 0 && m < |fl|
    requires InSub(if p[0] then 2 * idx + 1 else 2 * idx, m, h - 1)
    requires Stale(fl[m := x], if p[0] then 2 * idx + 1 else 2 * idx, h - 1, if p[0] then Right(t) else Left(t), p[1..], s)
    requires if p[0] then Rep(fl, 2 * idx, h - 1, Left(t)) else Rep(fl, 2 * idx + 1, h - 1, Right(t))
    ensures Stale(fl[m := x], idx, h, t, p, s)
  {
    hide Rep;
    Siblings(idx, m, h - 1);
    if p[0] {
      RepFrame(fl, m, x, 2 * idx, h - 1, Left(t));
    } else {
      RepFrame(fl, m, x, 2 * idx + 1, h - 1, Right(t));
    }
  }

  /** A new subtree at the end of the path. */
  lemma {:induction false} StalePut(fl: seq<nat>, x: nat, idx: nat, h: nat, t: Tree, p: Path, s: Tree, u: Tree)
    requires Stale(fl, idx, h, t, p, s) && |p| <= h && idx > 0 && Node(idx, p) < |fl|
    requires Rep(fl[Node(idx, p) := x], Node(idx, p), h - |p|, u)
    ensures Stale(fl[Node(idx, p) := x], idx, h, t, p, u)
    decreases |p|
  {
    hide Rep, Best;
    if p != [] {
      var c, v := if p[0] then 2 * idx + 1 else 2 * idx, if p[0] then Right(t) else Left(t);
      assert Node(idx, p) == Node(c, p[1..]) && Stale(fl, c, h - 1, v, p[1..], s);
      StalePut(fl, x, c, h - 1, v, p[1..], s, u);
      NodeInSub(c, p[1..], h - 1);
      StaleWrap(fl, Node(idx, p), x, idx, h, t, p, u);
    }
  }

  /** Correcting the last entry of the path shortens it by one. */
  lemma {:induction false} StaleUp(fl: seq<nat>, idx: nat, h: nat, t: Tree, p: Path, b: bool, s: Tree)
    requires Stale(fl, idx, h, t, p + [b], s) && |p| < h && idx > 0
    ensures Node(idx, p) < |fl|
    ensures var j := JoinAt(Sub(t, p), b, s); Stale(fl[Node(idx, p) := Best(j, h - |p|)], idx, h, t, p, j)
    decreases |p|
  {
    hide Best, Rep, JoinAt, Left, Right;
    if p == [] {
      assert (p + [b])[1..] == [];
      StaleUpHere(fl, idx, h, t, b, s);
    } else {
      var c, u := if p[0] then 2 * idx + 1 else 2 * idx, if p[0] then Right(t) else Left(t);
      assert (p + [b])[0] == p[0] && (p + [b])[1..] == p[1..] + [b];
      StaleUp(fl, c, h - 1, u, p[1..], b, s);
      var m, j := Node(c, p[1..]), JoinAt(Sub(u, p[1..]), b, s);
      assert Node(idx, p) == m && Sub(t, p) == Sub(u, p[1..]);
      hide Node, Sub;
      assert fl[m := Best(j, h - |p|)] == fl[m := Best(j, h - 1 - |p[1..]|)];
      NodeInSub(c, p[1..], h - 1);
      StaleWrap(fl, m, Best(j, h - |p|), idx, h, t, p, j);
    }
  }

  lemma StaleUpHere(fl: seq<nat>, idx: nat, h: nat, t: Tree, b: bool, s: Tree)
    requires 0 < idx < |fl| && h > 0
    requires Rep(fl, 2 * idx, h - 1, if b then Left(t) else s) && Rep(fl, 2 * idx + 1, h - 1, if b then s else Right(t))
    ensures var j := JoinAt(t, b, s); Rep(fl[idx := Best(j, h)], idx, h, j)
  {
    hide Best, Rep, Left, Right, JoinAt;
    var j := JoinAt(t, b, s);
    var x := Best(j, h);
    Siblings(idx, idx, h - 1);
    RepFrame(fl, idx, x, 2 * idx, h - 1, if b then Left(t) else s);
    RepFrame(fl, idx, x, 2 * idx + 1, h - 1, if b then s else Right(t));
    JoinChildren(t, b, s);
    RepOf(fl[idx := x], idx, h, j);
  }

  lemma JoinChildren(t: Tree, b: bool, s: Tree)
    ensures var j := JoinAt(t, b, s); Left(j) == (if b then Left(t) else s) && Right(j) == if b then s else Right(t)
  {
  }

  lemma RepOf(fl: seq<nat>, idx: nat, h: nat, t: Tree)
    requires 0 < idx < |fl| && h > 0 && fl[idx] == Best(t, h)
    requires Rep(fl, 2 * idx, h - 1, Left(t)) && Rep(fl, 2 * idx + 1, h - 1, Right(t))
    ensures Rep(fl, idx, h, t)
  {
    hide Best, Left, Right;
  }

  /** The two children of the last node of a longer path, and what their parent should say. */
  lemma {:induction false} StaleChildren(fl: seq<nat>, idx: nat, h: nat, t: Tree, p: Path, b: bool, s: Tree)
    requires Stale(fl, idx, h, t, p + [b], s) && |p| < h && idx > 0
    ensures var m, sub, k := Node(idx, p), Sub(t, p), h - |p| - 1;
      && 2 * m + 1 < |fl| && m > 0
      && fl[2 * m] == Best(if b then Left(sub) else s, k) && fl[2 * m + 1] == Best(if b then s else Right(sub), k)
    decreases |p|
  {
    hide Best, Rep, Left, Right;
    if p == [] {
      assert (p + [b])[1..] == [] && (p + [b])[0] == b;
      RepRoot(fl, 2 * idx, h - 1, if b then Left(t) else s);
      RepRoot(fl, 2 * idx + 1, h - 1, if b then s else Right(t));
    } else {
      var c, u := if p[0] then 2 * idx + 1 else 2 * idx, if p[0] then Right(t) else Left(t);
      assert (p + [b])[0] == p[0] && (p + [b])[1..] == p[1..] + [b];
      StaleChildren(fl, c, h - 1, u, p[1..], b, s);
      assert Node(idx, p) == Node(c, p[1..]) && Sub(t, p) == Sub(u, p[1..]);
    }
  }

  lemma RepRoot(fl: seq<nat>, idx: nat, h: nat, t: Tree)
    requires Rep(fl, idx, h, t)
    ensures 0 < idx < |fl| && fl[idx] == Best(t, h)
  {
  }

  /** The tree with s at the end of the path. */
  ghost function Put(t: Tree, p: Path, s: Tree): Tree
    decreases |p|
  {
    if p == [] then s else JoinAt(t, p[0], Put(if p[0] then Right(t) else Left(t), p[1..], s))
  }

  lemma {:induction false} PutSnoc(t: Tree, p: Path, b: bool, s: Tree)
    ensures Put(t, p + [b], s) == Put(t, p, JoinAt(Sub(t, p), b, s))
    decreases |p|
  {
    if p == [] {
      assert [b][1..] == [] && [] + [b] == [b];
    } else {
      assert (p + [b])[1..] == p[1..] + [b];
      PutSnoc(if p[0] then Right(t) else Left(t), p[1..], b, s);
    }
  }

  lemma {:induction false} SubFits(t: Tree, h: nat, p: Path)
    requires Fits(t, h) && |p| <= h
    ensures Fits(Sub(t, p), h - |p|)
    decreases |p|
  {
    if p != [] {
      SubFits(if p[0] then Right(t) else Left(t), h - 1, p[1..]);
    }
  }

  // ---- Paths and offsets ------------------------------------------------------------------

  /** The offset of the block at the end of the path, in an area of 2^h units. */
  ghost function Off(p: Path, h: nat): nat
    requires |p| <= h
  {
    if p == [] then 0 else (if p[0] then Pow(2, h - 1) else 0) + Off(p[1..], h - 1)
  }

  lemma {:induction false} NodeOffset(idx: nat, p: Path, h: nat)
    requires |p| <= h
    ensures Node(idx, p) >= idx * Pow(2, |p|)
    ensures (Node(idx, p) - idx * Pow(2, |p|)) * Pow(2, h - |p|) == Off(p, h)
    decreases |p|
  {
    if p != [] {
      var b := if p[0] then 1 else 0;
      var q, s := Pow(2, |p| - 1), Pow(2, h - |p|);
      NodeOffset(2 * idx + b, p[1..], h - 1);
      PowAdd(2, |p| - 1, h - |p|);
      OffsetArithmetic(Node(idx, p), idx, b, q, s);
    }
  }

  lemma OffsetArithmetic(n: int, idx: int, b: int, q: nat, s: nat)
    ensures (n - idx * (2 * q)) * s == (n - (2 * idx + b) * q) * s + b * (q * s)
    ensures (2 * idx + b) * q == idx * (2 * q) + b * q
  {
    MulDistribute(2 * idx, b, q);
    MulAssoc(idx, 2, q);
    assert 2 * idx * q == idx * (2 * q);
    var d := n - (2 * idx + b) * q;
    assert n - idx * (2 * q) == d + b * q;
    MulDistribute(d, b * q, s);
    MulAssoc(b, q, s);
  }

  /** The path to the unit at offset o. */
  ghost function Leaf(h: nat, o: int): (p: Path)
    ensures |p| == h
  {
    if h == 0 then [] else
      var half := Pow(2, h - 1);
      if o < half then [false] + Leaf(h - 1, o) else [true] + Leaf(h - 1, o - half)
  }

  lemma {:induction false} LeafNode(idx: nat, h: nat, o: int)
    requires 0 <= o < Pow(2, h)
    ensures Node(idx, Leaf(h, o)) == idx * Pow(2, h) + o
    decreases h
  {
    if h > 0 {
      var half := Pow(2, h - 1);
      var b := if o < half then 0 else 1;
      LeafNode(2 * idx + b, h - 1, if o < half then o else o - half);
      assert Leaf(h, o)[1..] == Leaf(h - 1, if o < half then o else o - half);
      MulDistribute(2 * idx, b, half);
      MulAssoc(idx, 2, half);
      assert 2 * idx * half == idx * (2 * half);
    }
  }

  /** On the way from a live block's first unit up, everything is free below the block, and the block is the
      first node that is not. */
  lemma {:induction false} LivePath(t: Tree, h: nat, o: int, k: nat, n: nat)
    requires LiveAt(t, h, o, k) && Fits(t, h) && n <= h
    ensures k <= h
    ensures n >= h - k ==> Sub(t, Leaf(h, o)[..n]) == if n == h - k then Used else Free
    ensures Give(t, h, o) == Put(t, Leaf(h, o)[..h - k], Free)
    decreases t
  {
    hide LiveAt, Fits, Leaf, Give, JoinAt, Pow, Left, Right;
    LiveAligned(t, h, o, k);
    var leaf := Leaf(h, o);
    if t.Used? {
      LiveWhole(h, o, k);
      if n > 0 {
        assert leaf[..n][1..] == leaf[1..][..n - 1];
        LeftOfUsed();
        FreeBelow(leaf[1..][..n - 1]);
      }
    } else {
      var half := LiveHalf(t, h, o, k);
      var (b, c, d) := half;
      LivePath(c, h - 1, d, k, if n > 0 then n - 1 else 0);
      assert leaf[1..] == Leaf(h - 1, d);
      assert leaf[..h - k][0] == b && leaf[..h - k][1..] == leaf[1..][..h - 1 - k];
      if n > 0 {
        assert leaf[..n][0] == b && leaf[..n][1..] == leaf[1..][..n - 1];
      }
    }
  }

  lemma LeftOfUsed()
    ensures Left(Used) == Free == Right(Used)
  {
  }

  lemma LiveWhole(h: nat, o: int, k: nat)
    requires LiveAt(Used, h, o, k)
    ensures o == 0 && k == h && Give(Used, h, o) == Free
  {
  }

  /** The half a live block lies in, and its offset there. */
  lemma LiveHalf(t: Tree, h: nat, o: int, k: nat) returns (r: (bool, Tree, int))
    requires LiveAt(t, h, o, k) && Fits(t, h) && !t.Used?
    ensures var (b, c, d) := r;
      && t.Split? && h > 0 && c == (if b then t.right else t.left) && c == (if b then Right(t) else Left(t))
      && LiveAt(c, h - 1, d, k) && Fits(c, h - 1) && k <= h - 1
      && Leaf(h, o) == [b] + Leaf(h - 1, d) && Give(t, h, o) == JoinAt(t, b, Give(c, h - 1, d))
  {
    hide Pow;
    var half := Pow(2, h - 1);
    r := if o < half then (false, t.left, o) else (true, t.right, o - half);
    LiveAligned(r.1, h - 1, r.2, k);
  }

  lemma {:induction false} FreeBelow(p: Path)
    ensures Sub(Free, p) == Free
    decreases |p|
  {
    if p != [] {
      FreeBelow(p[1..]);
    }
  }

  /** The path to the block a request of 2^k units gets. */
  ghost function TakePath(t: Tree, h: nat, k: nat): (p: Path)
    requires k <= h
    ensures |p| == h - k
    decreases h
  {
    if h == k then []
    else if Best(Left(t), h - 1) > k then [false] + TakePath(Left(t), h - 1, k)
    else [true] + TakePath(Right(t), h - 1, k)
  }

  lemma {:induction false} TakeByPath(t: Tree, h: nat, k: nat)
    requires Fits(t, h) && k <= h && Best(t, h) > k
    ensures var p := TakePath(t, h, k); Take(t, h, k) == (Put(t, p, Used), Off(p, h)) && Sub(t, p) == Free
    decreases h
  {
    hide Take, Best, Fits, Half, Pow, Put, Sub, Off, JoinAt;
    if h > k {
      TakeHalf(t, h, k);
      var (b, c) := Half(t, h, k);
      var p := TakePath(t, h, k);
      TakePathHalf(t, h, k);
      TakeByPath(c, h - 1, k);
      PathStep(t, h, p, b, c);
    } else {
      TakeWhole(t, h);
      BestBound(t, h);
      EmptyPath(t, h);
    }
  }

  lemma TakePathHalf(t: Tree, h: nat, k: nat)
    requires k < h
    ensures
      var (b, c) := Half(t, h, k);
      var p := TakePath(t, h, k);
      p[0] == b && p[1..] == TakePath(c, h - 1, k)
  {
    hide Best;
  }

  lemma EmptyPath(t: Tree, h: nat)
    ensures Put(t, [], Used) == Used && Off([], h) == 0 && Sub(t, []) == t
  {
  }

  lemma PathStep(t: Tree, h: nat, p: Path, b: bool, c: Tree)
    requires 0 < |p| <= h && p[0] == b && c == (if b then Right(t) else Left(t))
    ensures Sub(t, p) == Sub(c, p[1..]) && Put(t, p, Used) == JoinAt(t, b, Put(c, p[1..], Used))
    ensures Off(p, h) == (if b then Pow(2, h - 1) else 0) + Off(p[1..], h - 1)
  {
  }

  /** The next turn of the way down: left if the left half has room. */
  lemma {:induction false} TakeTurn(t: Tree, h: nat, k: nat, n: nat)
    requires Fits(t, h) && k <= h && Best(t, h) > k && n < h - k
    ensures var p := TakePath(t, h, k); p[n] <==> Best(Left(Sub(t, p[..n])), h - n - 1) <= k
    decreases h
  {
    hide Best, Fits;
    SplitHalves(t, h, k);
    var p := TakePath(t, h, k);
    if n == 0 {
      assert p[..0] == [];
    } else {
      var left := Best(Left(t), h - 1) > k;
      var c := if left then Left(t) else Right(t);
      assert p[0] == !left && p[1..] == TakePath(c, h - 1, k);
      TakeTurn(c, h - 1, k, n - 1);
      assert p[..n][0] == p[0] && p[..n][1..] == p[1..][..n - 1];
      assert Sub(t, p[..n]) == Sub(c, p[1..][..n - 1]);
    }
  }

  // ---- The allocator ----------------------------------------------------------------------

  /** The smallest power of two that is at least s, as an exponent. */
  method ToCeilPowerOf2(s: nat) returns (j: nat)
    requires s > 0
    ensures s <= Pow(2, j) && (j > 0 ==> Pow(2, j - 1) < s)
  {
    j := 0;
    var p := 1;
    while p < s
      invariant p == Pow(2, j) && (j > 0 ==> Pow(2, j - 1) < s)
      decreases s - p
    {
      p := 2 * p;
      j := j + 1;
    }
  }

  /** How deep a node lies. */
  ghost function Depth(i: nat): nat {
    if i <= 1 then 0 else 1 + Depth(i / 2)
  }

  predicate IsPowerOf2(i: nat) {
    i == 1 || (i > 1 && i % 2 == 0 && IsPowerOf2(i / 2))
  }

  /** A new level begins at each power of two. */
  lemma {:induction false} DepthStep(i: nat)
    requires i > 1
    ensures Depth(i) == Depth(i - 1) + (if IsPowerOf2(i) then 1 else 0)
  {
    if i > 3 {
      if i % 2 == 0 {
        assert (i - 1) / 2 == i / 2 - 1;
        DepthStep(i / 2);
      } else {
        assert (i - 1) / 2 == i / 2;
      }
    }
  }

  lemma {:induction false} DepthBound(i: nat, n: nat)
    requires i < 2 * Pow(2, n)
    ensures Depth(i) <= n
  {
    if i > 1 && n > 0 {
      DepthBound(i / 2, n - 1);
    }
  }

  /** A node other than the root lies on a path that is not empty. */
  lemma {:induction false} NodeRoot(idx: nat, p: Path)
    requires idx > 0
    ensures if p == [] then Node(idx, p) == idx else Node(idx, p) > idx
    decreases |p|
  {
    if p != [] {
      NodeRoot(if p[0] then 2 * idx + 1 else 2 * idx, p[1..]);
    }
  }

  /** One step up from the end of the path q + [b]. */
  lemma UpStep(fl: seq<nat>, level: nat, t: Tree, q: Path, b: bool, s: Tree)
    requires Stale(fl, 1, level, t, q + [b], s) && |q| < level
    ensures
      var m, j, k := Node(1, q), JoinAt(Sub(t, q), b, s), level - |q| - 1;
      && Node(1, q + [b]) / 2 == m && 0 < m && 2 * m + 1 < |fl|
      && fl[2 * m] == Best(if b then Left(Sub(t, q)) else s, k) && fl[2 * m + 1] == Best(if b then s else Right(Sub(t, q)), k)
      && Stale(fl[m := Best(j, k + 1)], 1, level, t, q, j) && Put(t, q + [b], s) == Put(t, q, j)
  {
    hide Stale, Best;
    PathSnoc(1, t, q, b);
    StaleChildren(fl, 1, level, t, q, b, s);
    StaleUp(fl, 1, level, t, q, b, s);
    PutSnoc(t, q, b, s);
  }

  /** What the parent of two blocks says: one more than the blocks if both are free, else the larger. */
  lemma JoinBest(l: Tree, r: Tree, h: nat)
    requires Fits(l, h) && Fits(r, h)
    ensures l.Free? && r.Free? <==> Best(l, h) == Best(r, h) == h + 1
    ensures Best(Join(l, r), h + 1) == if Best(l, h) == Best(r, h) == h + 1 then h + 2 else Max(Best(l, h), Best(r, h))
    ensures Fits(Join(l, r), h + 1)
  {
    BestBound(l, h);
    BestBound(r, h);
  }

  /** The halves of the block at the end of a path. */
  lemma HalvesFit(t: Tree, h: nat, q: Path)
    requires Fits(t, h) && |q| < h
    ensures Fits(Left(Sub(t, q)), h - |q| - 1) && Fits(Right(Sub(t, q)), h - |q| - 1)
  {
    SubFits(t, h, q);
  }

  /** Every entry tells that all below its node is free. */
  ghost predicate Filled(fl: seq<nat>, level: nat) {
    forall i :: 0 < i < |fl| ==> fl[i] + Depth(i) == level + 1
  }

  lemma {:induction false} AllFree(fl: seq<nat>, level: nat, idx: nat, h: nat)
    requires Filled(fl, level)
    requires idx > 0 && Depth(idx) + h == level && (idx + 1) * Pow(2, h) <= |fl|
    ensures Rep(fl, idx, h, Free)
    decreases h
  {
    hide Filled, Depth, Pow;
    PowPositive(h);
    MulMonotone(1, Pow(2, h), idx + 1);
    EntryFree(fl, level, idx);
    if h > 0 {
      HalfSize(h);
      TwiceAsMany(idx, Pow(2, h - 1));
      ChildDepth(idx);
      AllFree(fl, level, 2 * idx, h - 1);
      AllFree(fl, level, 2 * idx + 1, h - 1);
    }
  }

  lemma EntryFree(fl: seq<nat>, level: nat, i: nat)
    requires Filled(fl, level) && 0 < i < |fl|
    ensures fl[i] + Depth(i) == level + 1
  {
  }

  lemma HalfSize(h: nat)
    requires h > 0
    ensures Pow(2, h) == 2 * Pow(2, h - 1) && Pow(2, h - 1) > 0
  {
  }

  lemma TwiceAsMany(idx: nat, q: nat)
    ensures (idx + 1) * (2 * q) == (2 * idx + 2) * q && (2 * idx + 1) * q <= (2 * idx + 2) * q
  {
    MulAssoc(idx + 1, 2, q);
    MulMonotone(2 * idx + 1, 2 * idx + 2, q);
  }

  lemma ChildDepth(idx: nat)
    requires idx > 0
    ensures Depth(2 * idx) == Depth(idx) + 1 && Depth(2 * idx + 1) == Depth(idx) + 1
  {
    assert (2 * idx + 1) / 2 == idx;
  }

  /** Every entry of a new area tells that all below is free. */
  method FillFree(a: array<nat>, level: nat)
    requires a.Length == 2 * Pow(2, level)
    modifies a
    ensures forall i :: 0 < i < a.Length ==> a[i] + Depth(i) == level + 1
  {
    hide Pow, Depth, IsPowerOf2;
    var fl: nat := level + 2;
    for i := 1 to a.Length
      invariant if i == 1 then fl == level + 2 else fl + Depth(i - 1) == level + 1
      invariant forall j :: 0 < j < i ==> a[j] + Depth(j) == level + 1
    {
      if i > 1 {
        DepthStep(i);
      } else {
        FirstNode();
      }
      DepthBound(i, level);
      if IsPowerOf2(i) {
        fl := fl - 1;
      }
      a[i] := fl;
    }
  }

  lemma FirstNode()
    ensures IsPowerOf2(1) && Depth(1) == 0
  {
  }

  class Buddy {
    const level: nat
    const freeLevel: array<nat>
    ghost var tree: Tree

    ghost predicate Valid()
      reads this, freeLevel
    {
      freeLevel.Length == 2 * Pow(2, level) && Fits(tree, level) && Rep(freeLevel[..], 1, level, tree)
    }

    constructor (level: nat)
      ensures Valid() && this.level == level && tree == Free && fresh(freeLevel)
    {
      this.level := level;
      var size := PowerOf2(level);
      freeLevel := new nat[2 * size];
      tree := Free;
      new;
      FillFree(freeLevel, level);
      assert Filled(freeLevel[..], level);
      assert 2 * size == (1 + 1) * Pow(2, level);
      AllFree(freeLevel[..], level, 1, level);
    }

    static method PowerOf2(k: nat) returns (p: nat)
      ensures p == Pow(2, k)
    {
      p := 1;
      for i := 0 to k
        invariant p == Pow(2, i)
      {
        p := 2 * p;
      }
    }

    /** Allocate s units: the offset of a block, or -1. */
    method Alloc(s: nat) returns (off: int)
      requires Valid()
      modifies this`tree, freeLevel
      ensures Valid()
      ensures exists k: nat :: IsRounded(s, k) && AllocResult(old(tree), k, off)
    {
      var s' := if s == 0 then 1 else s;
      var k := ToCeilPowerOf2(s');
      BestBound(tree, level);
      assert IsRounded(s, k);
      if freeLevel[1] < k + 1 {
        off := -1;
      } else {
        off := Carve(k);
      }
      assert AllocResult(old(tree), k, off);
    }

    /** Take a block of 2^k units: down to it, leftmost first, and up again. */
    method Carve(k: nat) returns (off: nat)
      requires Valid() && Best(tree, level) > k && k <= level
      modifies this`tree, freeLevel
      ensures Valid() && Take(old(tree), level, k) == (tree, off)
    {
      hide Best, Fits, Rep, Stale;
      ghost var p := TakePath(tree, level, k);
      TakeByPath(tree, level, k);
      TakeFits(tree, level, k);
      var idx := Descend(k);
      ghost var fl := freeLevel[..];
      StaleStart(fl, 1, level, tree, p);
      RepAt(fl, 1, level, tree, p);
      UseBlock(fl, idx, k);
      freeLevel[idx] := 0;
      StalePut(fl, 0, 1, level, tree, p, Free, Used);
      assert freeLevel[..] == fl[idx := 0];
      NodeOffset(1, p, level);
      var first := PowerOf2(level - k);
      var size := PowerOf2(k);
      off := (idx - first) * size;
      ClimbTaken(idx, p);
      tree := Put(tree, p, Used);
    }

    lemma UseBlock(fl: seq<nat>, idx: nat, k: nat)
      requires Rep(fl, idx, k, Free)
      ensures idx < |fl| && Rep(fl[idx := 0], idx, k, Used)
    {
      if k > 0 {
        Siblings(idx, idx, k - 1);
        RepFrame(fl, idx, 0, 2 * idx, k - 1, Free);
        RepFrame(fl, idx, 0, 2 * idx + 1, k - 1, Free);
      }
    }

    /** The node of the block to take. */
    method Descend(k: nat) returns (idx: nat)
      requires Valid() && Best(tree, level) > k && k <= level
      ensures idx == Node(1, TakePath(tree, level, k)) && idx < freeLevel.Length
    {
      hide Best, Fits, Stale;
      ghost var p := TakePath(tree, level, k);
      idx := 1;
      for i := 0 to level - k
        invariant idx == Node(1, p[..i])
      {
        RepAt(freeLevel[..], 1, level, tree, p[..i]);
        TakeTurn(tree, level, k, i);
        PathSnoc(1, tree, p[..i], p[i]);
        assert p[..i] + [p[i]] == p[..i + 1];
        idx := 2 * idx;
        if freeLevel[idx] < k + 1 {
          idx := idx + 1;
        }
      }
      assert p[..level - k] == p;
      RepAt(freeLevel[..], 1, level, tree, p);
    }

    /** On the way up: the array holds the tree with u at p as the tree with s at q, but for the entries above. */
    ghost predicate OnWay(fl: seq<nat>, q: Path, s: Tree, p: Path, u: Tree)
      reads this
    {
      |q| <= level && Fits(s, level - |q|) && Stale(fl, 1, level, tree, q, s) && Put(tree, q, s) == Put(tree, p, u)
    }

    /** What the two entries below say about the block one step up, and what its entry has to become. */
    lemma ClimbStep(fl: seq<nat>, r: Path, b: bool, s: Tree, p: Path, u: Tree)
      requires Fits(tree, level) && OnWay(fl, r + [b], s, p, u)
      ensures
        var m, j, h := Node(1, r), JoinAt(Sub(tree, r), b, s), level - |r| - 1;
        && |r| < level && Node(1, r + [b]) / 2 == m && 0 < m && 2 * m + 1 < |fl|
        && OnWay(fl[m := Best(j, h + 1)], r, j, p, u)
        && Best(j, h + 1) == (if fl[2 * m] == fl[2 * m + 1] == h + 1 then h + 2
             else if fl[2 * m] > fl[2 * m + 1] then fl[2 * m] else fl[2 * m + 1])
        && (!s.Free? ==> !j.Free? && !(fl[2 * m] == fl[2 * m + 1] == h + 1))
    {
      hide Best, Fits, Stale, Put, Node, Sub;
      JoinedBest(r, b, s);
      UpStep(fl, level, tree, r, b, s);
      BestBound(s, level - |r| - 1);
    }

    /** Correct the entries above a block that was taken. */
    method ClimbTaken(idx0: nat, ghost p: Path)
      requires Fits(tree, level) && |p| <= level && idx0 == Node(1, p) && Stale(freeLevel[..], 1, level, tree, p, Used)
      modifies freeLevel
      ensures Rep(freeLevel[..], 1, level, Put(tree, p, Used))
    {
      hide Best, Stale, Put, JoinAt, Join, Node, Sub, OnWay, Rep;
      var idx := idx0;
      ghost var q, s := p, Used;
      Leaving(freeLevel[..], p, s);
      hide Fits;
      NodeRoot(1, q);
      while idx > 1
        invariant idx == Node(1, q) && !s.Free? && OnWay(freeLevel[..], q, s, p, Used)
        invariant idx > 1 ==> q != []
        decreases |q|
      {
        ghost var fl, b, r := freeLevel[..], q[|q| - 1], q[..|q| - 1];
        assert q == r + [b];
        ClimbStep(fl, r, b, s, p, Used);
        idx := idx / 2;
        freeLevel[idx] := if freeLevel[2 * idx] > freeLevel[2 * idx + 1] then freeLevel[2 * idx] else freeLevel[2 * idx + 1];
        assert freeLevel[..] == fl[idx := freeLevel[idx]];
        q, s := r, JoinAt(Sub(tree, r), b, s);
        NodeRoot(1, q);
      }
      AtRoot(freeLevel[..], q, s, p, Used);
    }

    lemma Leaving(fl: seq<nat>, p: Path, s: Tree)
      requires |p| <= level && Fits(s, level - |p|) && Stale(fl, 1, level, tree, p, s)
      ensures OnWay(fl, p, s, p, s)
    {
    }

    /** The node of the live block at an offset: the first entry of 0 on the way up from its first unit. */
    method FindBlock(offset: nat, ghost k: nat) returns (idx: nat, height: nat)
      requires Valid() && LiveAt(tree, level, offset, k)
      ensures height == k <= level && idx == Node(1, Leaf(level, offset)[..level - k]) && idx < freeLevel.Length
    {
      hide Best, Stale, Rep, Give, Node, Sub, Leaf, LiveAt, Fits;
      LiveAligned(tree, level, offset, k);
      LiveInside(offset, k);
      LeafNode(1, level, offset);
      ghost var leaf := Leaf(level, offset);
      var first := PowerOf2(level);
      idx := offset + first;
      height := 0;
      assert leaf[..level] == leaf;
      EntryThere(offset, k, leaf, 0);
      while freeLevel[idx] != 0
        invariant height <= k <= level && idx == Node(1, leaf[..level - height]) && idx < freeLevel.Length
        invariant freeLevel[idx] == 0 <==> height == k
        decreases k - height
      {
        ghost var n := level - height;
        PathSnoc(1, tree, leaf[..n - 1], leaf[n - 1]);
        assert leaf[..n - 1] + [leaf[n - 1]] == leaf[..n];
        idx := idx / 2;
        height := height + 1;
        EntryThere(offset, k, leaf, height);
      }
    }

    /** On the way up from the first unit of a live block its entry is the first that is 0. */
    lemma EntryThere(offset: nat, k: nat, leaf: Path, height: nat)
      requires Valid() && LiveAt(tree, level, offset, k) && leaf == Leaf(level, offset) && height <= k
      ensures k <= level && Node(1, leaf[..level - height]) < freeLevel.Length
      ensures freeLevel[Node(1, leaf[..level - height])] == 0 <==> height == k
    {
      hide Best, Stale, Rep, Give, Node, Sub, Leaf, LiveAt, Fits, Put;
      LiveAligned(tree, level, offset, k);
      EntryAt(leaf, level - height);
      LivePath(tree, level, offset, k, level - height);
      EntryOf(Sub(tree, leaf[..level - height]), height);
    }

    lemma LiveInside(o: nat, k: nat)
      requires LiveAt(tree, level, o, k)
      ensures o < Pow(2, level)
    {
      LiveAligned(tree, level, o, k);
    }

    lemma EntryAt(p: Path, n: nat)
      requires Valid() && n <= |p| == level
      ensures Node(1, p[..n]) < freeLevel.Length && freeLevel[Node(1, p[..n])] == Best(Sub(tree, p[..n]), level - n)
    {
      RepAt(freeLevel[..], 1, level, tree, p[..n]);
    }

    lemma EntryOf(t: Tree, h: nat)
      ensures t.Free? ==> Best(t, h) != 0
      ensures t.Used? ==> Best(t, h) == 0
    {
    }

    /** The size of the live block at an offset. */
    method Size(offset: nat, ghost k: nat) returns (size: nat)
      requires Valid() && LiveAt(tree, level, offset, k)
      ensures size == Pow(2, k)
    {
      var idx, height := FindBlock(offset, k);
      size := PowerOf2(height);
    }

    /** Free the live block at an offset, joining free halves on the way up. */
    method Release(offset: nat, ghost k: nat)
      requires Valid() && LiveAt(tree, level, offset, k)
      modifies this`tree, freeLevel
      ensures Valid() && tree == Give(old(tree), level, offset)
    {
      hide Best, Fits, Stale, Rep, Put, Give;
      var idx, height := FindBlock(offset, k);
      ghost var p, fl := Leaf(level, offset)[..level - k], freeLevel[..];
      LivePath(tree, level, offset, k, level - k);
      GiveLive(tree, level, offset, k, 0, 0);
      StaleStart(fl, 1, level, tree, p);
      RepAt(fl, 1, level, tree, p);
      FreeBlockHere(fl, idx, k);
      freeLevel[idx] := height + 1;
      StalePut(fl, height + 1, 1, level, tree, p, Used, Free);
      assert freeLevel[..] == fl[idx := height + 1];
      ClimbFreed(idx, height + 1, p);
      tree := Put(tree, p, Free);
    }

    lemma FreeBlockHere(fl: seq<nat>, idx: nat, k: nat)
      requires Rep(fl, idx, k, Used)
      ensures idx < |fl| && Rep(fl[idx := k + 1], idx, k, Free)
    {
      if k > 0 {
        Siblings(idx, idx, k - 1);
        RepFrame(fl, idx, k + 1, 2 * idx, k - 1, Free);
        RepFrame(fl, idx, k + 1, 2 * idx + 1, k - 1, Free);
      }
    }

    /** Correct the entries above a block that was freed. */
    method ClimbFreed(idx0: nat, fl0: nat, ghost p: Path)
      requires Fits(tree, level) && |p| <= level && idx0 == Node(1, p) && Stale(freeLevel[..], 1, level, tree, p, Free)
      requires fl0 == level - |p| + 1
      modifies freeLevel
      ensures Rep(freeLevel[..], 1, level, Put(tree, p, Free))
    {
      hide Best, Stale, Put, JoinAt, Join, Node, Sub, OnWay, Rep;
      var idx, full := idx0, fl0;
      ghost var q, s := p, Free;
      Leaving(freeLevel[..], p, s);
      hide Fits;
      NodeRoot(1, q);
      while idx > 1
        invariant idx == Node(1, q) && full == level - |q| + 1 && OnWay(freeLevel[..], q, s, p, Free)
        invariant idx > 1 ==> q != []
        decreases |q|
      {
        ghost var fl, b, r := freeLevel[..], q[|q| - 1], q[..|q| - 1];
        assert q == r + [b];
        ClimbStep(fl, r, b, s, p, Free);
        idx := idx / 2;
        var leftFL, rightFL := freeLevel[2 * idx], freeLevel[2 * idx + 1];
        if leftFL == rightFL && leftFL == full {
          freeLevel[idx] := full + 1;
        } else {
          freeLevel[idx] := if leftFL > rightFL then leftFL else rightFL;
        }
        assert freeLevel[..] == fl[idx := freeLevel[idx]];
        q, s := r, JoinAt(Sub(tree, r), b, s);
        full := full + 1;
        NodeRoot(1, q);
      }
      AtRoot(freeLevel[..], q, s, p, Free);
    }

    lemma JoinedBest(r: Path, b: bool, s: Tree)
      requires Fits(tree, level) && |r| < level && Fits(s, level - |r| - 1)
      ensures
        var j, h := JoinAt(Sub(tree, r), b, s), level - |r| - 1;
        var x, y := Best(if b then Left(Sub(tree, r)) else s, h), Best(if b then s else Right(Sub(tree, r)), h);
        Fits(j, h + 1) && Best(j, h + 1) == if x == y && x == h + 1 then h + 2 else if x > y then x else y
    {
      hide Best, Fits;
      HalvesFit(tree, level, r);
      JoinBest(if b then Left(Sub(tree, r)) else s, if b then s else Right(Sub(tree, r)), level - |r| - 1);
    }

    lemma AtRoot(fl: seq<nat>, q: Path, s: Tree, p: Path, u: Tree)
      requires Node(1, q) <= 1 && OnWay(fl, q, s, p, u)
      ensures Rep(fl, 1, level, Put(tree, p, u))
    {
      NodeRoot(1, q);
    }

    /** 2^k is the size a request is rounded up to. */
    ghost predicate IsRounded(s: nat, k: nat) {
      s <= Pow(2, k) && (k > 0 ==> Pow(2, k - 1) < s)
    }

    ghost predicate AllocResult(before: Tree, k: nat, off: int)
      reads this`tree
    {
      if Best(before, level) > k then k <= level && off >= 0 && Take(before, level, k) == (tree, off)
      else off == -1 && tree == before
    }
  }

  lemma {:induction false} AllInSub(idx: nat, h: nat, d: nat, j: nat)
    requires idx > 0 && idx * Pow(2, d) <= j < (idx + 1) * Pow(2, d) && d <= h
    ensures InSub(idx, j, h)
    decreases d
  {
    if d > 0 {
      var q := Pow(2, d - 1);
      MulAssoc(idx, 2, q);
      MulAssoc(idx + 1, 2, q);
      assert idx * (2 * q) == (2 * idx) * q && (idx + 1) * (2 * q) == (2 * idx + 2) * q;
      if j < (2 * idx + 1) * q {
        AllInSub(2 * idx, h - 1, d - 1, j);
      } else {
        AllInSub(2 * idx + 1, h - 1, d - 1, j);
      }
    }
  }

  lemma {:induction false} SomeLevel(j: nat, h: nat) returns (d: nat)
    requires 0 < j < 2 * Pow(2, h)
    ensures d <= h && Pow(2, d) <= j < 2 * Pow(2, d)
    decreases h
  {
    if j >= Pow(2, h) {
      d := h;
    } else {
      d := SomeLevel(j, h - 1);
    }
  }

  /** Freeing right after allocating restores every entry of the array. */
  lemma RestoresEntries(before: seq<nat>, after: seq<nat>, level: nat, t: Tree, k: nat, j: nat)
    requires |before| == |after| == 2 * Pow(2, level) && 0 < j < |before|
    requires Fits(t, level) && Rep(before, 1, level, t) && k <= level && Best(t, level) > k
    requires var (u, o) := Take(t, level, k); Rep(after, 1, level, Give(u, level, o))
    ensures before[j] == after[j]
  {
    GiveTaken(t, level, k);
    var d := SomeLevel(j, level);
    AllInSub(1, level, d, j);
    RepUnique(before, after, 1, level, t, j);
  }
}
