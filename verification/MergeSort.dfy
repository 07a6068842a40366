/** Mergesort that alternates between sorting in place and sorting into the other buffer: recursively, and
    by a loop over an explicit stack of frames. Both buffers are ranges of one memory. */
module MergeSort {
  import opened Numerals

  // ---- Merging ----------------------------------------------------------------------------

  ghost predicate Sorted(s: seq<int>) {
    forall i, j :: 0 <= i < j < |s| ==> s[i] <= s[j]
  }

  /** The smaller head first; the second list's on a tie. */
  ghost function Merge(x: seq<int>, y: seq<int>): (r: seq<int>)
    ensures |r| == |x| + |y|
    decreases |x| + |y|
  {
    if x == [] then y
    else if y == [] then x
    else if x[0] < y[0] then [x[0]] + Merge(x[1..], y)
    else [y[0]] + Merge(x, y[1..])
  }

  lemma {:induction false} MergeContents(x: seq<int>, y: seq<int>)
    ensures multiset(Merge(x, y)) == multiset(x) + multiset(y)
    decreases |x| + |y|
  {
    if x != [] && y != [] {
      if x[0] < y[0] {
        assert x == [x[0]] + x[1..];
        MergeContents(x[1..], y);
      } else {
        assert y == [y[0]] + y[1..];
        MergeContents(x, y[1..]);
      }
    }
  }

  lemma {:induction false} MergeSorted(x: seq<int>, y: seq<int>)
    requires Sorted(x) && Sorted(y)
    ensures Sorted(Merge(x, y))
    decreases |x| + |y|
  {
    if x != [] && y != [] {
      if x[0] < y[0] {
        MergeSorted(x[1..], y);
        Heads(x[0], x[1..], y);
      } else {
        MergeSorted(x, y[1..]);
        Heads(y[0], x, y[1..]);
      }
    }
  }

  /** What is no larger than both lists can go in front of their merge. */
  lemma Heads(h: int, x: seq<int>, y: seq<int>)
    requires (forall i :: 0 <= i < |x| ==> h <= x[i]) && (forall i :: 0 <= i < |y| ==> h <= y[i])
    requires Sorted(Merge(x, y))
    ensures Sorted([h] + Merge(x, y))
  {
    MergeContents(x, y);
    var m := Merge(x, y);
    forall i | 0 <= i < |m|
      ensures h <= m[i]
    {
      assert m[i] in multiset(m);
      assert m[i] in x || m[i] in y;
    }
  }

  // ---- The recursive form -----------------------------------------------------------------

  /** The memory with r written from d on. */
  ghost function Written(s: seq<int>, d: nat, r: seq<int>): (u: seq<int>)
    requires d + |r| <= |s|
    ensures |u| == |s|
  {
    s[..d] + r + s[d + |r|..]
  }

  lemma WrittenThere(s: seq<int>, d: nat, r: seq<int>)
    requires d + |r| <= |s|
    ensures Written(s, d, r)[d..d + |r|] == r && OnlyIn(s, Written(s, d, r), d, |r|, d, |r|)
  {
  }

  ghost predicate CanCombine(s: seq<int>, b: nat, e: nat, b2: nat, e2: nat, d: nat) {
    && b <= e <= |s| && b2 <= e2 <= |s| && d + (e - b) + (e2 - b2) <= |s|
    && Apart(d, (e - b) + (e2 - b2), b, e - b) && Apart(d, (e - b) + (e2 - b2), b2, e2 - b2)
  }

  /** The memory after merging two ranges into a third. */
  ghost function Combined(s: seq<int>, b: nat, e: nat, b2: nat, e2: nat, d: nat): (u: seq<int>)
    requires b <= e <= |s| && b2 <= e2 <= |s| && d + (e - b) + (e2 - b2) <= |s|
    ensures |u| == |s|
  {
    Written(s, d, Merge(s[b..e], s[b2..e2]))
  }

  /** Sources and destination, or the range and its scratch space. */
  ghost predicate TwoRanges(n: nat, b: nat, e: nat, d: nat) {
    b <= e <= n && d + (e - b) <= n && Apart(b, e - b, d, e - b)
  }

  /** The memory after sorting a range into another one, which leaves the range in disorder. */
  ghost function SortMove(s: seq<int>, b: nat, e: nat, d: nat): (u: seq<int>)
    requires TwoRanges(|s|, b, e, d)
    ensures |u| == |s|
    decreases e - b
  {
    if e - b == 0 then s
    else if e - b == 1 then s[d := s[b]]
    else
      var mid := b + (e - b) / 2;
      var s1 := SortInplace(s, b, mid, d);
      var s2 := SortInplace(s1, mid, e, d);
      Combined(s2, b, mid, mid, e, d)
  }

  /** The memory after sorting a range in place with scratch space of its size. */
  ghost function SortInplace(s: seq<int>, b: nat, e: nat, t: nat): (u: seq<int>)
    requires TwoRanges(|s|, b, e, t)
    ensures |u| == |s|
    decreases e - b
  {
    if e - b <= 1 then s
    else
      var h := (e - b) / 2;
      var s1 := SortMove(s, b, b + h, t);
      var s2 := SortMove(s1, b + h, e, t + h);
      Combined(s2, t, t + h, t + h, t + (e - b), b)
  }

  // ---- The recursive form sorts -----------------------------------------------------------

  /** t is s changed in two ranges of size n at most. */
  ghost predicate OnlyIn(s: seq<int>, u: seq<int>, b: nat, nb: nat, d: nat, nd: nat) {
    |s| == |u| && forall i :: 0 <= i < |s| && !(b <= i < b + nb) && !(d <= i < d + nd) ==> s[i] == u[i]
  }

  ghost predicate SortOf(x: seq<int>, y: seq<int>) {
    Sorted(x) && multiset(x) == multiset(y)
  }

  lemma Unchanged(s: seq<int>, u: seq<int>, b: nat, nb: nat, d: nat, nd: nat, at: nat, n: nat)
    requires OnlyIn(s, u, b, nb, d, nd) && at + n <= |s| && Apart(at, n, b, nb) && Apart(at, n, d, nd)
    ensures u[at..at + n] == s[at..at + n]
  {
  }

  /** Changes in parts of the two ranges, one after the other. */
  lemma OnlyInBoth(s: seq<int>, u: seq<int>, v: seq<int>, b: nat, nb: nat, d: nat, nd: nat, b1: nat, nb1: nat,
    d1: nat, nd1: nat)
    requires OnlyIn(s, u, b, nb, d, nd) && OnlyIn(u, v, b1, nb1, d1, nd1)
    requires (b <= b1 && b1 + nb1 <= b + nb) || (d <= b1 && b1 + nb1 <= d + nd)
    requires (b <= d1 && d1 + nd1 <= b + nb) || (d <= d1 && d1 + nd1 <= d + nd)
    ensures OnlyIn(s, v, b, nb, d, nd)
  {
  }

  lemma OnlyInSelf(s: seq<int>, b: nat, nb: nat, d: nat, nd: nat)
    ensures OnlyIn(s, s, b, nb, d, nd)
  {
  }

  lemma CombinedSorts(s: seq<int>, b: nat, e: nat, b2: nat, e2: nat, d: nat, x: seq<int>, y: seq<int>)
    requires CanCombine(s, b, e, b2, e2, d) && SortOf(s[b..e], x) && SortOf(s[b2..e2], y)
    ensures var u, n := Combined(s, b, e, b2, e2, d), (e - b) + (e2 - b2);
      SortOf(u[d..d + n], x + y) && OnlyIn(s, u, d, n, d, n)
  {
    hide Merge, Written, Sorted, OnlyIn;
    MergeSorted(s[b..e], s[b2..e2]);
    MergeContents(s[b..e], s[b2..e2]);
    WrittenThere(s, d, Merge(s[b..e], s[b2..e2]));
    assert multiset(x + y) == multiset(x) + multiset(y);
  }

  lemma MoveOne(s: seq<int>, b: nat, d: nat)
    requires TwoRanges(|s|, b, b + 1, d)
    ensures SortOf(s[d := s[b]][d..d + 1], s[b..b + 1]) && OnlyIn(s, s[d := s[b]], b, 1, d, 1)
  {
    assert s[d := s[b]][d..d + 1] == [s[b]] == s[b..b + 1];
  }

  lemma {:induction false} SortMoveSorts(s: seq<int>, b: nat, e: nat, d: nat)
    requires TwoRanges(|s|, b, e, d)
    ensures var u := SortMove(s, b, e, d);
      SortOf(u[d..d + (e - b)], s[b..e]) && OnlyIn(s, u, b, e - b, d, e - b)
    decreases e - b
  {
    hide SortInplace, Combined, OnlyIn, SortOf;
    var h, n := (e - b) / 2, e - b;
    OnlyInSelf(s, b, n, d, n);
    if n >= 2 {
      var mid := b + h;
      var s1 := SortInplace(s, b, mid, d);
      var s2 := SortInplace(s1, mid, e, d);
      SortInplaceSorts(s, b, mid, d);
      SortInplaceSorts(s1, mid, e, d);
      Unchanged(s, s1, b, h, d, h, mid, e - mid);
      Unchanged(s1, s2, mid, e - mid, d, e - mid, b, h);
      CombinedSorts(s2, b, mid, mid, e, d, s[b..mid], s[mid..e]);
      assert s[b..mid] + s[mid..e] == s[b..e];
      OnlyInBoth(s, s, s1, b, n, d, n, b, h, d, h);
      OnlyInBoth(s, s1, s2, b, n, d, n, mid, e - mid, d, e - mid);
      OnlyInBoth(s, s2, SortMove(s, b, e, d), b, n, d, n, d, n, d, n);
    } else if n == 1 {
      MoveOne(s, b, d);
    } else {
      assert SortMove(s, b, e, d)[d..d] == s[b..e];
      Short(s[b..e]);
    }
  }

  lemma Short(x: seq<int>)
    requires |x| <= 1
    ensures SortOf(x, x)
  {
  }

  lemma {:induction false} SortInplaceSorts(s: seq<int>, b: nat, e: nat, t: nat)
    requires TwoRanges(|s|, b, e, t)
    ensures var u := SortInplace(s, b, e, t);
      SortOf(u[b..e], s[b..e]) && OnlyIn(s, u, b, e - b, t, e - b)
    decreases e - b
  {
    hide SortMove, Combined, OnlyIn, SortOf;
    var h, n := (e - b) / 2, e - b;
    OnlyInSelf(s, b, n, t, n);
    if n >= 2 {
      var mid := b + h;
      var s1 := SortMove(s, b, mid, t);
      var s2 := SortMove(s1, mid, e, t + h);
      SortMoveSorts(s, b, mid, t);
      SortMoveSorts(s1, mid, e, t + h);
      Unchanged(s, s1, b, h, t, h, mid, e - mid);
      Unchanged(s1, s2, mid, e - mid, t + h, e - mid, t, h);
      CombinedSorts(s2, t, t + h, t + h, t + n, b, s[b..mid], s[mid..e]);
      assert s[b..mid] + s[mid..e] == s[b..e];
      OnlyInBoth(s, s, s1, b, n, t, n, b, h, t, h);
      OnlyInBoth(s, s1, s2, b, n, t, n, mid, e - mid, t + h, e - mid);
      OnlyInBoth(s, s2, SortInplace(s, b, e, t), b, n, t, n, b, n, b, n);
    } else {
      Short(s[b..e]);
    }
  }

  // ---- Merging in memory ------------------------------------------------------------------

  /** How far a merge has come: up to d the merge is written, the rest will be merged from b and b2 on. */
  ghost predicate Merging(s: seq<int>, u: seq<int>, all: seq<int>, b0: nat, b: nat, e: nat, b20: nat, b2: nat,
    e2: nat, d0: nat, d: nat) {
    && b0 <= b <= e <= |s| && b20 <= b2 <= e2 <= |s| && d == d0 + (b - b0) + (b2 - b20) && d0 + |all| <= |s|
    && |u| == |s| && |all| == (e - b0) + (e2 - b20) && OnlyIn(s, u, d0, d - d0, d0, d - d0)
    && all == u[d0..d] + Merge(s[b..e], s[b2..e2])
  }

  /** One element further. */
  lemma MergeStep(s: seq<int>, u: seq<int>, all: seq<int>, b0: nat, b: nat, e: nat, b20: nat, b2: nat, e2: nat,
    d0: nat, d: nat, left: bool)
    requires Merging(s, u, all, b0, b, e, b20, b2, e2, d0, d)
    requires if left then b < e && (b2 == e2 || s[b] < s[b2]) else b2 < e2 && (b == e || s[b] >= s[b2])
    ensures d < |s|
    ensures var x := if left then s[b] else s[b2];
      Merging(s, u[d := x], all, b0, if left then b + 1 else b, e, b20, if left then b2 else b2 + 1, e2, d0, d + 1)
  {
    hide Merge, OnlyIn;
    var x := if left then s[b] else s[b2];
    if left {
      HeadTail(s, b, e);
    } else {
      HeadTail(s, b2, e2);
    }
    MergeHead(s[b..e], s[b2..e2], left);
    OneMore(s, u, d0, d - d0, x);
    if left {
      Regroup(u[d0..d], x, Merge(s[b + 1..e], s[b2..e2]));
    } else {
      Regroup(u[d0..d], x, Merge(s[b..e], s[b2 + 1..e2]));
    }
  }

  lemma HeadTail(s: seq<int>, i: nat, j: nat)
    requires i < j <= |s|
    ensures s[i..j] != [] && s[i..j][0] == s[i] && s[i..j][1..] == s[i + 1..j]
  {
  }

  lemma Regroup(done: seq<int>, x: int, rest: seq<int>)
    ensures done + ([x] + rest) == (done + [x]) + rest
  {
  }

  lemma OneMore(s: seq<int>, u: seq<int>, d0: nat, n: nat, x: int)
    requires OnlyIn(s, u, d0, n, d0, n) && d0 + n < |s|
    ensures OnlyIn(s, u[d0 + n := x], d0, n + 1, d0, n + 1) && u[d0 + n := x][d0..d0 + n + 1] == u[d0..d0 + n] + [x]
  {
  }

  lemma MergeHead(p: seq<int>, q: seq<int>, left: bool)
    requires if left then p != [] && (q == [] || p[0] < q[0]) else q != [] && (p == [] || p[0] >= q[0])
    ensures Merge(p, q) == if left then [p[0]] + Merge(p[1..], q) else [q[0]] + Merge(p, q[1..])
  {
    if left && q == [] {
      MergeNothing(p);
      MergeNothing(p[1..]);
      assert p == [p[0]] + p[1..];
    } else if !left && p == [] {
      assert q == [q[0]] + q[1..];
    }
  }

  lemma MergeNothing(p: seq<int>)
    ensures Merge(p, []) == p
  {
  }

  lemma MergeDone(s: seq<int>, u: seq<int>, all: seq<int>, b0: nat, e: nat, b20: nat, e2: nat, d0: nat, d: nat)
    requires Merging(s, u, all, b0, e, e, b20, e2, e2, d0, d)
    ensures d0 + |all| <= |s| && u == Written(s, d0, all)
  {
    assert u == u[..d0] + u[d0..d] + u[d..];
  }

  lemma MergeStart(s: seq<int>, b: nat, e: nat, b2: nat, e2: nat, d: nat)
    requires CanCombine(s, b, e, b2, e2, d)
    ensures b <= e <= |s| && b2 <= e2 <= |s|
    ensures Merging(s, s, Merge(s[b..e], s[b2..e2]), b, b, e, b2, b2, e2, d, d)
  {
  }

  /** The sources are still as they were. */
  lemma SourcesKept(s: seq<int>, u: seq<int>, all: seq<int>, b0: nat, b: nat, e: nat, b20: nat, b2: nat,
    e2: nat, d0: nat, d: nat)
    requires Merging(s, u, all, b0, b, e, b20, b2, e2, d0, d) && CanCombine(s, b0, e, b20, e2, d0)
    ensures |u| == |s| && (b < e ==> u[b] == s[b]) && (b2 < e2 ==> u[b2] == s[b2]) && (b < e || b2 < e2 ==> d < |s|)
  {
  }

  /** Write the next element of the merge. */
  method PutNext(m: array<int>, ghost s: seq<int>, ghost all: seq<int>, b0: nat, b: nat, e: nat, b20: nat,
    b2: nat, e2: nat, d0: nat, d: nat, left: bool)
    requires CanCombine(s, b0, e, b20, e2, d0) && Merging(s, m[..], all, b0, b, e, b20, b2, e2, d0, d)
    requires if left then b < e else b2 < e2
    requires if left then b2 == e2 || s[b] < s[b2] else b == e || s[b] >= s[b2]
    modifies m
    ensures Merging(s, m[..], all, b0, if left then b + 1 else b, e, b20, if left then b2 else b2 + 1, e2, d0, d + 1)
  {
    ghost var u := m[..];
    SourcesKept(s, u, all, b0, b, e, b20, b2, e2, d0, d);
    MergeStep(s, u, all, b0, b, e, b20, b2, e2, d0, d, left);
    hide Merging, CanCombine;
    m[d] := if left then m[b] else m[b2];
    assert m[..] == u[d := if left then s[b] else s[b2]];
  }

  /** Write the smaller of the two heads. */
  method PutSmaller(m: array<int>, ghost s: seq<int>, ghost all: seq<int>, b0: nat, b: nat, e: nat, b20: nat,
    b2: nat, e2: nat, d0: nat, d: nat)
    returns (left: bool)
    requires CanCombine(s, b0, e, b20, e2, d0) && Merging(s, m[..], all, b0, b, e, b20, b2, e2, d0, d) && b < e && b2 < e2
    modifies m
    ensures Merging(s, m[..], all, b0, if left then b + 1 else b, e, b20, if left then b2 else b2 + 1, e2, d0, d + 1)
  {
    SourcesKept(s, m[..], all, b0, b, e, b20, b2, e2, d0, d);
    left := m[b] < m[b2];
    PutNext(m, s, all, b0, b, e, b20, b2, e2, d0, d, left);
  }

  lemma CombinedIs(s: seq<int>, b: nat, e: nat, b2: nat, e2: nat, d: nat)
    requires CanCombine(s, b, e, b2, e2, d)
    ensures b <= e <= |s| && b2 <= e2 <= |s| && d + (e - b) + (e2 - b2) <= |s|
    ensures Combined(s, b, e, b2, e2, d) == Written(s, d, Merge(s[b..e], s[b2..e2]))
  {
  }

  /** Merge two ranges into a third. */
  method MergeCombine(m: array<int>, b0: nat, e: nat, b20: nat, e2: nat, d0: nat)
    requires CanCombine(m[..], b0, e, b20, e2, d0)
    modifies m
    ensures m[..] == Combined(old(m[..]), b0, e, b20, e2, d0)
  {
    hide Merge, Written, Merging, CanCombine, Combined;
    ghost var s := m[..];
    CombinedIs(s, b0, e, b20, e2, d0);
    ghost var all := Merge(s[b0..e], s[b20..e2]);
    MergeStart(s, b0, e, b20, e2, d0);
    var b: nat, b2: nat, d: nat := b0, b20, d0;
    while b != e && b2 != e2
      invariant b <= e && b2 <= e2 && Merging(s, m[..], all, b0, b, e, b20, b2, e2, d0, d)
      decreases (e - b) + (e2 - b2)
    {
      var left := PutSmaller(m, s, all, b0, b, e, b20, b2, e2, d0, d);
      if left {
        b := b + 1;
      } else {
        b2 := b2 + 1;
      }
      d := d + 1;
    }
    while b < e
      invariant b <= e && b2 <= e2 && (b < e ==> b2 == e2) && Merging(s, m[..], all, b0, b, e, b20, b2, e2, d0, d)
    {
      PutNext(m, s, all, b0, b, e, b20, b2, e2, d0, d, true);
      b, d := b + 1, d + 1;
    }
    while b2 < e2
      invariant b == e && b2 <= e2 && Merging(s, m[..], all, b0, b, e, b20, b2, e2, d0, d)
    {
      PutNext(m, s, all, b0, b, e, b20, b2, e2, d0, d, false);
      b2, d := b2 + 1, d + 1;
    }
    MergeDone(s, m[..], all, b0, e, b20, e2, d0, d);
  }

  method MergeSortMove(m: array<int>, b: nat, e: nat, d: nat)
    requires TwoRanges(m.Length, b, e, d)
    modifies m
    ensures m[..] == SortMove(old(m[..]), b, e, d)
    decreases e - b
  {
    hide SortInplace, Combined;
    var count := e - b;
    if count <= 1 {
      if count == 1 {
        m[d] := m[b];
      }
      return;
    }
    var mid := b + count / 2;
    MergeSortInplace(m, b, mid, d);
    MergeSortInplace(m, mid, e, d);
    MergeCombine(m, b, mid, mid, e, d);
  }

  method MergeSortInplace(m: array<int>, b: nat, e: nat, t: nat)
    requires TwoRanges(m.Length, b, e, t)
    modifies m
    ensures m[..] == SortInplace(old(m[..]), b, e, t)
    decreases e - b
  {
    hide SortMove, Combined;
    var count := e - b;
    if count <= 1 {
      return;
    }
    var h := count / 2;
    MergeSortMove(m, b, b + h, t);
    MergeSortMove(m, b + h, e, t + h);
    MergeCombine(m, t, t + h, t + h, t + count, b);
  }

  // ---- The stack machine ------------------------------------------------------------------

  /** A frame remembers its ranges and how many of its two recursive calls have been made. */
  datatype Frame =
    | Combine(begin: nat, end: nat, begin2: nat, end2: nat, dest: nat)
    | Inplace(begin: nat, end: nat, temp: nat, state: nat)
    | Move(begin: nat, end: nat, dest: nat, state: nat)

  /** The frame's ranges lie in a memory of n cells and do not collide. */
  ghost predicate Sound(f: Frame, s: seq<int>) {
    match f
    case Combine(b, e, b2, e2, d) => CanCombine(s, b, e, b2, e2, d)
    case Inplace(b, e, t, state) => TwoRanges(|s|, b, e, t) && state <= 2 && (state > 0 ==> e - b >= 2)
    case Move(b, e, d, state) => TwoRanges(|s|, b, e, d) && state <= 2 && (state > 0 ==> e - b >= 2)
  }

  /** The memory once the frame has done what is left of it. */
  ghost function Finish(f: Frame, s: seq<int>): (u: seq<int>)
    requires Sound(f, s)
    ensures |u| == |s|
  {
    match f
    case Combine(b, e, b2, e2, d) => Combined(s, b, e, b2, e2, d)
    case Inplace(b, e, t, state) =>
      var h := (e - b) / 2;
      if state == 0 then SortInplace(s, b, e, t)
      else
        var s2 := if state == 1 then SortMove(s, b + h, e, t + h) else s;
        Combined(s2, t, t + h, t + h, t + (e - b), b)
    case Move(b, e, d, state) =>
      var mid := b + (e - b) / 2;
      if state == 0 then SortMove(s, b, e, d)
      else
        var s2 := if state == 1 then SortInplace(s, mid, e, d) else s;
        Combined(s2, b, mid, mid, e, d)
  }

  ghost predicate AllSound(stack: seq<Frame>, s: seq<int>) {
    forall k :: 0 <= k < |stack| ==> Sound(stack[k], s)
  }

  lemma SoundForSize(f: Frame, s: seq<int>, u: seq<int>)
    requires |s| == |u|
    ensures Sound(f, s) <==> Sound(f, u)
  {
  }

  /** The memory once all frames are done, the top one, at the end, first. */
  ghost function FinishAll(stack: seq<Frame>, s: seq<int>): (u: seq<int>)
    requires AllSound(stack, s)
    ensures |u| == |s|
    decreases |stack|
  {
    if stack == [] then s
    else
      var top, rest := stack[|stack| - 1], stack[..|stack| - 1];
      var t := Finish(top, s);
      RestSound(rest, s, t);
      FinishAll(rest, t)
  }

  lemma RestSound(stack: seq<Frame>, s: seq<int>, u: seq<int>)
    requires AllSound(stack, s) && |s| == |u|
    ensures AllSound(stack, u)
  {
    forall k | 0 <= k < |stack|
      ensures Sound(stack[k], u)
    {
      SoundForSize(stack[k], s, u);
    }
  }

  /** What one turn of the loop makes of the top frame: the frames that take its place. */
  ghost function Turn(f: Frame): seq<Frame>
  {
    if !f.Combine? && f.end < f.begin then []
    else
    match f
    case Combine(_, _, _, _, _) => []
    case Inplace(b, e, t, state) =>
      var h := (e - b) / 2;
      if state == 0 then (if e - b <= 1 then [] else [Inplace(b, e, t, 1), Move(b, b + h, t, 0)])
      else if state == 1 then [Inplace(b, e, t, 2), Move(b + h, e, t + h, 0)]
      else [Combine(t, t + h, t + h, t + (e - b), b)]
    case Move(b, e, d, state) =>
      var mid := b + (e - b) / 2;
      if state == 0 then (if e - b <= 1 then [] else [Move(b, e, d, 1), Inplace(b, mid, d, 0)])
      else if state == 1 then [Move(b, e, d, 2), Inplace(mid, e, d, 0)]
      else [Combine(b, mid, mid, e, d)]
  }

  /** What one turn of the loop does to the memory. */
  ghost function Effect(f: Frame, s: seq<int>): (u: seq<int>)
    requires Sound(f, s)
    ensures |u| == |s|
  {
    match f
    case Combine(b, e, b2, e2, d) => Combined(s, b, e, b2, e2, d)
    case Inplace(_, _, _, _) => s
    case Move(b, e, d, state) => if state == 0 && e - b == 1 then s[d := s[b]] else s
  }

  /** One turn does a part of what the frame has to do and leaves the rest to the new frames. */
  lemma TurnFinishes(f: Frame, s: seq<int>)
    requires Sound(f, s)
    ensures AllSound(Turn(f), Effect(f, s)) && FinishAll(Turn(f), Effect(f, s)) == Finish(f, s)
  {
    hide Combined, FinishAll, Sound, AllSound;
    var t := Turn(f);
    TurnSound(f, s);
    NothingLeft(Effect(f, s));
    TurnParts(f, s);
    if |t| == 1 {
      FinishOne(t[0], Effect(f, s));
    } else if |t| == 2 {
      FinishTwo(t[0], t[1], Effect(f, s));
    }
  }

  /** The new frames, the last one first, finish what the frame has to do. */
  ghost predicate Parts(t: seq<Frame>, u: seq<int>, done: seq<int>) {
    match |t|
    case 0 => u == done
    case 1 => t == [t[0]] && Sound(t[0], u) && Finish(t[0], u) == done
    case _ =>
      && |t| == 2 && t == [t[0], t[1]] && Sound(t[0], u) && Sound(t[1], u)
      && Sound(t[0], Finish(t[1], u)) && Finish(t[0], Finish(t[1], u)) == done
  }

  lemma TurnParts(f: Frame, s: seq<int>)
    requires Sound(f, s)
    ensures Parts(Turn(f), Effect(f, s), Finish(f, s))
  {
    hide Combined, Parts;
    match f
    case Combine(_, _, _, _, _) => CombineParts(f, s);
    case Inplace(_, _, _, state) => if state == 0 { InplaceStarts(f, s); } else { InplaceGoesOn(f, s); }
    case Move(_, _, _, state) => if state == 0 { MoveStarts(f, s); } else { MoveGoesOn(f, s); }
  }

  lemma CombineParts(f: Frame, s: seq<int>)
    requires Sound(f, s) && f.Combine?
    ensures Parts(Turn(f), Effect(f, s), Finish(f, s))
  {
    hide Combined;
  }

  lemma InplaceStarts(f: Frame, s: seq<int>)
    requires Sound(f, s) && f.Inplace? && f.state == 0
    ensures Parts(Turn(f), Effect(f, s), Finish(f, s))
  {
    hide Combined, SortMove;
  }

  lemma InplaceGoesOn(f: Frame, s: seq<int>)
    requires Sound(f, s) && f.Inplace? && f.state > 0
    ensures Parts(Turn(f), Effect(f, s), Finish(f, s))
  {
    hide Combined, SortMove, SortInplace;
  }

  lemma MoveStarts(f: Frame, s: seq<int>)
    requires Sound(f, s) && f.Move? && f.state == 0
    ensures Parts(Turn(f), Effect(f, s), Finish(f, s))
  {
    hide Combined, SortInplace;
  }

  lemma MoveGoesOn(f: Frame, s: seq<int>)
    requires Sound(f, s) && f.Move? && f.state > 0
    ensures Parts(Turn(f), Effect(f, s), Finish(f, s))
  {
    hide Combined, SortMove, SortInplace;
  }

  lemma FinishOne(f: Frame, s: seq<int>)
    requires Sound(f, s)
    ensures AllSound([f], s) && FinishAll([f], s) == Finish(f, s)
  {
    assert [f][..0] == [];
  }

  lemma FinishTwo(f: Frame, g: Frame, s: seq<int>)
    requires Sound(f, s) && Sound(g, s)
    ensures Sound(f, Finish(g, s)) && AllSound([f, g], s) && FinishAll([f, g], s) == Finish(f, Finish(g, s))
  {
    hide Finish;
    SoundForSize(f, s, Finish(g, s));
    assert [f, g][..1] == [f];
    FinishOne(f, Finish(g, s));
  }

  lemma TurnSound(f: Frame, s: seq<int>)
    requires Sound(f, s)
    ensures AllSound(Turn(f), Effect(f, s))
  {
  }

  lemma {:induction false} FinishConcat(stack: seq<Frame>, top: seq<Frame>, s: seq<int>)
    requires AllSound(stack, s) && AllSound(top, s)
    ensures AllSound(stack + top, s)
    ensures var t := FinishAll(top, s); AllSound(stack, t) && FinishAll(stack + top, s) == FinishAll(stack, t)
    decreases |top|
  {
    hide Finish;
    RestSound(stack, s, FinishAll(top, s));
    if top == [] {
      assert stack + top == stack;
    } else {
      var f, rest := top[|top| - 1], top[..|top| - 1];
      var t := Finish(f, s);
      assert (stack + top)[..|stack + top| - 1] == stack + rest;
      RestSound(stack, s, t);
      RestSound(rest, s, t);
      FinishConcat(stack, rest, t);
    }
  }

  /** A turn of the loop leaves unchanged what the memory will be in the end. */
  lemma TurnKeeps(stack: seq<Frame>, f: Frame, s: seq<int>)
    requires AllSound(stack + [f], s)
    ensures Sound(f, s) && AllSound(stack + Turn(f), Effect(f, s))
    ensures FinishAll(stack + Turn(f), Effect(f, s)) == FinishAll(stack + [f], s)
  {
    hide Finish, Effect, Turn, Sound;
    assert (stack + [f])[|stack|] == f && (stack + [f])[..|stack|] == stack;
    assert AllSound(stack, s) by {
      forall k | 0 <= k < |stack|
        ensures Sound(stack[k], s)
      {
        assert stack[k] == (stack + [f])[k];
      }
    }
    var u := Effect(f, s);
    TurnFinishes(f, s);
    RestSound(stack, s, u);
    FinishConcat(stack, Turn(f), u);
  }

  // ---- Termination and the depth of the stack -------------------------------------------------

  /** The turns a sort of n elements takes. */
  ghost function Turns(n: nat): nat {
    if n <= 1 then 1 else 4 + Turns(n / 2) + Turns(n - n / 2)
  }

  /** The turns a frame still takes. */
  ghost function Left(f: Frame): nat {
    match f
    case Combine(_, _, _, _, _) => 1
    case Inplace(b, e, _, state) => LeftOf(e - b, state)
    case Move(b, e, _, state) => LeftOf(e - b, state)
  }

  ghost function LeftOf(n: int, state: nat): nat {
    if n < 0 then 0 else if state == 0 then Turns(n) else if state == 1 then 3 + Turns(n - n / 2) else 2
  }

  ghost function LeftAll(stack: seq<Frame>): nat {
    if stack == [] then 0 else Left(stack[|stack| - 1]) + LeftAll(stack[..|stack| - 1])
  }

  lemma {:induction false} LeftConcat(stack: seq<Frame>, top: seq<Frame>)
    ensures LeftAll(stack + top) == LeftAll(stack) + LeftAll(top)
    decreases |top|
  {
    if top == [] {
      assert stack + top == stack;
    } else {
      assert (stack + top)[..|stack + top| - 1] == stack + top[..|top| - 1];
      LeftConcat(stack, top[..|top| - 1]);
    }
  }

  /** Every turn is one of them. */
  lemma TurnCounts(f: Frame, s: seq<int>)
    requires Sound(f, s)
    ensures LeftAll(Turn(f)) + 1 == Left(f)
  {
    hide LeftAll, Turn, Left, Sound;
    var t := Turn(f);
    LeftNone();
    TurnLeft(f, s);
    if |t| == 1 {
      assert t == [t[0]];
      LeftOne(t[0]);
    } else if |t| == 2 {
      LeftOne(t[0]);
      LeftOne(t[1]);
      LeftConcat([t[0]], [t[1]]);
      assert t == [t[0]] + [t[1]];
    }
  }

  lemma TurnLeft(f: Frame, s: seq<int>)
    requires Sound(f, s)
    ensures var t := Turn(f);
      match |t|
      case 0 => Left(f) == 1
      case 1 => Left(t[0]) + 1 == Left(f)
      case _ => |t| == 2 && Left(t[0]) + Left(t[1]) + 1 == Left(f)
  {
    hide Turns, Sound;
    SizeOf(f, s);
    if !f.Combine? {
      TurnsStep(f.end - f.begin);
    }
  }

  lemma SizeOf(f: Frame, s: seq<int>)
    requires Sound(f, s)
    ensures f.Combine? || (f.begin <= f.end && f.state <= 2)
  {
  }

  lemma TurnsStep(n: nat)
    ensures Turns(n) == if n <= 1 then 1 else 4 + Turns(n / 2) + Turns(n - n / 2)
  {
  }

  lemma LeftNone()
    ensures LeftAll([]) == 0
  {
  }

  lemma LeftOne(f: Frame)
    ensures LeftAll([f]) == Left(f)
  {
    assert [f][..0] == [];
  }

  /** The frames a sort of n elements needs at most. */
  ghost function Depth(n: int): nat {
    if n <= 1 then 1 else 1 + Depth(n - n / 2)
  }

  lemma {:induction false} DepthMonotone(m: int, n: int)
    requires m <= n
    ensures Depth(m) <= Depth(n)
    decreases n
  {
    if m > 1 {
      DepthMonotone(m - m / 2, n - n / 2);
    }
  }

  /** One more than the binary logarithm, rounded up. */
  lemma {:induction false} DepthLog(n: nat, k: nat)
    requires n <= Pow(2, k)
    ensures Depth(n) <= k + 1
    decreases k
  {
    if n > 1 {
      DepthLog(n - n / 2, k - 1);
    }
  }

  /** How many frames a frame needs at most, itself included. */
  ghost function Needs(f: Frame): nat {
    match f
    case Combine(_, _, _, _, _) => 1
    case Inplace(b, e, _, state) => if state == 2 then 1 else Depth(e - b)
    case Move(b, e, _, state) => if state == 2 then 1 else Depth(e - b)
  }

  /** Each frame has room for what it needs. */
  ghost predicate Fits(stack: seq<Frame>, room: nat) {
    forall k :: 0 <= k < |stack| ==> k + Needs(stack[k]) <= room
  }

  lemma TurnFits(stack: seq<Frame>, f: Frame, s: seq<int>, room: nat)
    requires Sound(f, s) && Fits(stack + [f], room)
    ensures Fits(stack + Turn(f), room)
  {
    var old_stack, t := stack + [f], stack + Turn(f);
    assert old_stack[|stack|] == f;
    TurnNeeds(f, s);
    forall k | 0 <= k < |t|
      ensures k + Needs(t[k]) <= room
    {
      if k < |stack| {
        assert t[k] == old_stack[k];
      } else {
        assert t[k] == Turn(f)[k - |stack|];
      }
    }
  }

  lemma TurnNeeds(f: Frame, s: seq<int>)
    requires Sound(f, s)
    ensures forall k :: 0 <= k < |Turn(f)| ==> k + Needs(Turn(f)[k]) <= Needs(f)
  {
    if !f.Combine? {
      var n := f.end - f.begin;
      DepthMonotone(n / 2, n - n / 2);
    }
  }

  // ---- The loop ---------------------------------------------------------------------------

  /** Make a turn: the memory and the top of the stack change. */
  method MakeTurn(m: array<int>, stack: seq<Frame>, f: Frame) returns (next: seq<Frame>)
    requires Sound(f, m[..])
    modifies m
    ensures m[..] == Effect(f, old(m[..])) && next == stack + Turn(f)
  {
    match f
    case Combine(b, e, b2, e2, d) =>
      MergeCombine(m, b, e, b2, e2, d);
      next := stack;
    case Inplace(b, e, t, state) =>
      var count := e - b;
      var h := count / 2;
      if state == 0 {
        next := if count <= 1 then stack else stack + [Inplace(b, e, t, 1), Move(b, b + h, t, 0)];
      } else if state == 1 {
        next := stack + [Inplace(b, e, t, 2), Move(b + h, e, t + h, 0)];
      } else {
        next := stack + [Combine(t, t + h, t + h, t + count, b)];
      }
    case Move(b, e, d, state) =>
      var count := e - b;
      var mid := b + count / 2;
      if state == 0 {
        if count == 1 {
          m[d] := m[b];
        }
        next := if count <= 1 then stack else stack + [Move(b, e, d, 1), Inplace(b, mid, d, 0)];
      } else if state == 1 {
        next := stack + [Move(b, e, d, 2), Inplace(mid, e, d, 0)];
      } else {
        next := stack + [Combine(b, mid, mid, e, d)];
      }
  }

  /** Mergesort by a loop. It does to the memory what the recursive form does, and the stack never holds
      more frames than the logarithm of the number of elements, rounded up, and one; 32 for 2^31 elements. The
      result is the largest number it held. */
  method MergeSortIteration(m: array<int>, begin: nat, end: nat, temp: nat) returns (ghost most: nat)
    requires TwoRanges(m.Length, begin, end, temp) && end - begin <= 0x8000_0000
    modifies m
    ensures m[..] == SortInplace(old(m[..]), begin, end, temp)
    ensures SortOf(m[begin..end], old(m[begin..end]))
    ensures OnlyIn(old(m[..]), m[..], begin, end - begin, temp, end - begin)
    ensures most <= Depth(end - begin) <= 32
  {
    hide Finish, FinishAll, Sound, AllSound, Effect, Turn, LeftAll, Fits, SortInplace, SortOf, OnlyIn, Depth;
    ghost var s := m[..];
    var stack := [Inplace(begin, end, temp, 0)];
    Start(s, begin, end, temp);
    AtMost(stack, Depth(end - begin));
    most := |stack|;
    while stack != []
      invariant |stack| <= most <= Depth(end - begin) <= 32
      invariant m.Length == |s| && AllSound(stack, m[..]) && FinishAll(stack, m[..]) == SortInplace(s, begin, end, temp)
      invariant Fits(stack, Depth(end - begin))
      decreases LeftAll(stack)
    {
      var f, rest := stack[|stack| - 1], stack[..|stack| - 1];
      assert stack == rest + [f];
      TurnKeeps(rest, f, m[..]);
      TurnFits(rest, f, m[..], Depth(end - begin));
      TurnLess(rest, f, m[..]);
      stack := MakeTurn(m, rest, f);
      AtMost(stack, Depth(end - begin));
      most := Max(most, |stack|);
    }
    NothingLeft(m[..]);
    SortInplaceSorts(s, begin, end, temp);
  }

  lemma Start(s: seq<int>, b: nat, e: nat, t: nat)
    requires TwoRanges(|s|, b, e, t) && e - b <= 0x8000_0000
    ensures AllSound([Inplace(b, e, t, 0)], s) && FinishAll([Inplace(b, e, t, 0)], s) == SortInplace(s, b, e, t)
    ensures Fits([Inplace(b, e, t, 0)], Depth(e - b)) && Depth(e - b) <= 32
  {
    hide SortInplace, FinishAll, Pow, Depth;
    FinishOne(Inplace(b, e, t, 0), s);
    PowOfTwo31();
    DepthLog(e - b, 31);
  }

  lemma AtMost(stack: seq<Frame>, room: nat)
    requires Fits(stack, room)
    ensures |stack| <= room
  {
    if stack != [] {
      NeedsOne(stack[|stack| - 1]);
    }
  }

  lemma NeedsOne(f: Frame)
    ensures Needs(f) >= 1
  {
  }

  lemma TurnLess(stack: seq<Frame>, f: Frame, s: seq<int>)
    requires Sound(f, s)
    ensures LeftAll(stack + Turn(f)) < LeftAll(stack + [f])
  {
    hide Turn, Left, Sound;
    TurnCounts(f, s);
    LeftConcat(stack, Turn(f));
    LeftConcat(stack, [f]);
    assert [f][..0] == [];
  }

  lemma NothingLeft(s: seq<int>)
    ensures AllSound([], s) && FinishAll([], s) == s
  {
  }
}
