/** Rotating a range of an array in place: by three reversals, by swapping blocks, and along the cycles of
    the index permutation. */
module Rotate {
  import opened Numerals

  /** The sequence with its first k elements moved to the end. */
  ghost function Rotated<T>(s: seq<T>, k: nat): (r: seq<T>)
    requires k <= |s|
    ensures |r| == |s|
  {
    s[k..] + s[..k]
  }

  ghost function Reversed<T>(s: seq<T>): (r: seq<T>)
    ensures |r| == |s|
  {
    if s == [] then [] else Reversed(s[1..]) + [s[0]]
  }

  lemma {:induction false} ReversedConcat<T>(s: seq<T>, t: seq<T>)
    ensures Reversed(s + t) == Reversed(t) + Reversed(s)
  {
    if s == [] {
      assert s + t == t;
    } else {
      assert (s + t)[1..] == s[1..] + t;
      ReversedConcat(s[1..], t);
    }
  }

  lemma {:induction false} ReversedTwice<T>(s: seq<T>)
    ensures Reversed(Reversed(s)) == s
  {
    if s != [] {
      ReversedConcat(Reversed(s[1..]), [s[0]]);
      ReversedTwice(s[1..]);
      assert [s[0]][1..] == [];
    }
  }

  lemma {:induction false} ReversedAt<T>(s: seq<T>, i: nat)
    requires i < |s|
    ensures Reversed(s)[i] == s[|s| - 1 - i]
  {
    if i < |s| - 1 {
      ReversedAt(s[1..], i);
    }
  }

  /** Outside the range nothing changes. */
  ghost predicate Outside<T>(s: seq<T>, t: seq<T>, lo: nat, hi: nat) {
    |s| == |t| && forall i :: 0 <= i < |s| && !(lo <= i < hi) ==> s[i] == t[i]
  }

  // ---- Three reversals --------------------------------------------------------------------

  method Reverse<T>(a: array<T>, lo: nat, hi: nat)
    requires lo <= hi <= a.Length
    modifies a
    ensures Outside(old(a[..]), a[..], lo, hi) && a[lo..hi] == Reversed(old(a[lo..hi]))
  {
    ghost var s := a[lo..hi];
    var i, last := lo, hi - 1;
    while i < last
      invariant lo <= i && i - lo == hi - 1 - last && i <= last + 1
      invariant Outside(old(a[..]), a[..], lo, hi)
      invariant forall k :: lo <= k < hi ==> a[k] == if i <= k <= last then old(a[k]) else old(a[lo + hi - 1 - k])
    {
      a[i], a[last] := a[last], a[i];
      i, last := i + 1, last - 1;
    }
    forall k | 0 <= k < hi - lo
      ensures a[lo..hi][k] == Reversed(s)[k]
    {
      ReversedAt(s, k);
      assert a[lo + k] == old(a[hi - 1 - k]);
    }
  }

  method Rotate1<T>(a: array<T>, lo: nat, mid: nat, hi: nat)
    requires lo <= mid <= hi <= a.Length
    modifies a
    ensures Outside(old(a[..]), a[..], lo, hi) && a[lo..hi] == Rotated(old(a[lo..hi]), mid - lo)
  {
    ghost var s, t := a[lo..mid], a[mid..hi];
    assert a[lo..hi] == s + t;
    Reverse(a, lo, mid);
    assert a[mid..hi] == t;
    ghost var middle := a[..];
    Reverse(a, mid, hi);
    assert a[lo..mid] == middle[lo..mid];
    assert a[lo..hi] == Reversed(s) + Reversed(t);
    Reverse(a, lo, hi);
    ReversedConcat(Reversed(s), Reversed(t));
    ReversedTwice(s);
    ReversedTwice(t);
  }

  // ---- Swapping blocks --------------------------------------------------------------------

  method SwapRange<T>(a: array<T>, lo: nat, hi: nat, lo2: nat)
    requires lo <= hi <= lo2 && lo2 + (hi - lo) <= a.Length
    modifies a
    ensures a[lo..hi] == old(a[lo2..lo2 + (hi - lo)]) && a[lo2..lo2 + (hi - lo)] == old(a[lo..hi])
    ensures forall i :: 0 <= i < a.Length && !(lo <= i < hi) && !(lo2 <= i < lo2 + (hi - lo)) ==> a[i] == old(a[i])
  {
    ghost var d := lo2 - lo;
    for k := 0 to hi - lo
      invariant forall i :: 0 <= i < a.Length ==>
        a[i] == if lo <= i < lo + k then old(a[i + d]) else if lo2 <= i < lo2 + k then old(a[i - d]) else old(a[i])
    {
      a[lo + k], a[lo2 + k] := a[lo2 + k], a[lo + k];
    }
    forall j | 0 <= j < hi - lo
      ensures a[lo..hi][j] == old(a[lo2..lo2 + (hi - lo)])[j] && a[lo2..lo2 + (hi - lo)][j] == old(a[lo..hi])[j]
    {
      assert a[lo + j] == old(a[lo + j + d]) && a[lo2 + j] == old(a[lo2 + j - d]);
    }
  }

  method Rotate2<T>(a: array<T>, lo: nat, mid: nat, hi: nat)
    requires lo <= mid <= hi <= a.Length
    modifies a
    ensures Outside(old(a[..]), a[..], lo, hi) && a[lo..hi] == Rotated(old(a[lo..hi]), mid - lo)
    decreases hi - lo
  {
    var count1, count2 := mid - lo, hi - mid;
    ghost var s := a[..];
    if count1 == 0 || count2 == 0 {
      assert Rotated(s[lo..hi], count1) == s[lo..hi];
      return;
    }
    if count1 <= count2 {
      var tmid := hi - count1;
      SwapRange(a, lo, mid, tmid);
      ghost var t := a[..];
      Rotate2(a, lo, mid, tmid);
      LeftShorter(s, t, a[..], lo, mid, tmid, hi);
    } else {
      var tmid := lo + count2;
      SwapRange(a, lo, tmid, mid);
      ghost var t := a[..];
      Rotate2(a, tmid, mid, hi);
      RightShorter(s, t, a[..], lo, tmid, mid, hi);
    }
  }

  /** A B1 B2 becomes B2 B1 A and then B1 B2 A. */
  lemma LeftShorter<T>(s: seq<T>, t: seq<T>, u: seq<T>, lo: nat, mid: nat, tmid: nat, hi: nat)
    requires lo <= mid <= tmid <= hi <= |s| == |t| && hi - tmid == mid - lo
    requires t[lo..mid] == s[tmid..hi] && t[tmid..hi] == s[lo..mid]
    requires forall i :: 0 <= i < |s| && !(lo <= i < mid) && !(tmid <= i < hi) ==> t[i] == s[i]
    requires Outside(t, u, lo, tmid) && u[lo..tmid] == Rotated(t[lo..tmid], mid - lo)
    ensures Outside(s, u, lo, hi) && u[lo..hi] == Rotated(s[lo..hi], mid - lo)
  {
    assert t[mid..tmid] == s[mid..tmid];
    assert t[lo..tmid] == t[lo..mid] + t[mid..tmid];
    assert u[lo..tmid] == s[mid..tmid] + s[tmid..hi];
    assert u[tmid..hi] == t[tmid..hi];
    assert u[lo..hi] == u[lo..tmid] + u[tmid..hi];
    assert s[lo..hi] == s[lo..mid] + (s[mid..tmid] + s[tmid..hi]);
  }

  /** A1 A2 B becomes B A2 A1 and then B A1 A2. */
  lemma RightShorter<T>(s: seq<T>, t: seq<T>, u: seq<T>, lo: nat, tmid: nat, mid: nat, hi: nat)
    requires lo <= tmid <= mid <= hi <= |s| == |t| && tmid - lo == hi - mid
    requires t[lo..tmid] == s[mid..hi] && t[mid..hi] == s[lo..tmid]
    requires forall i :: 0 <= i < |s| && !(lo <= i < tmid) && !(mid <= i < hi) ==> t[i] == s[i]
    requires Outside(t, u, tmid, hi) && u[tmid..hi] == Rotated(t[tmid..hi], mid - tmid)
    ensures Outside(s, u, lo, hi) && u[lo..hi] == Rotated(s[lo..hi], mid - lo)
  {
    assert t[tmid..mid] == s[tmid..mid];
    assert t[tmid..hi] == t[tmid..mid] + t[mid..hi];
    assert u[tmid..hi] == s[lo..tmid] + s[tmid..mid];
    assert u[lo..tmid] == t[lo..tmid];
    assert u[lo..hi] == u[lo..tmid] + u[tmid..hi];
    assert s[lo..hi] == (s[lo..tmid] + s[tmid..mid]) + s[mid..hi];
  }

  // ---- The greatest common divisor --------------------------------------------------------

  ghost predicate Divides(g: int, x: int) {
    exists q :: x == g * q
  }

  /** g divides both numbers and is a sum of multiples of them, so every common divisor divides it. */
  ghost predicate IsGcd(g: nat, a: nat, b: nat) {
    g > 0 && Divides(g, a) && Divides(g, b) && exists x, y :: Combination(g, a, b, x, y)
  }

  ghost predicate Combination(g: int, a: int, b: int, x: int, y: int) {
    a * x + b * y == g
  }

  lemma CommonDivisor(g: nat, a: nat, b: nat, d: int)
    requires IsGcd(g, a, b) && Divides(d, a) && Divides(d, b)
    ensures Divides(d, g)
  {
    var x, y :| Combination(g, a, b, x, y);
    var p :| a == d * p;
    var q :| b == d * q;
    MulAssoc(d, p, x);
    MulAssoc(d, q, y);
    MulDistribute(p * x, q * y, d);
    assert g == d * (p * x + q * y);
  }

  /** One step of the division chain keeps the common divisors. */
  lemma GcdStep(g: nat, a: nat, b: nat)
    requires a > 0 && IsGcd(g, b % a, a)
    ensures IsGcd(g, a, b)
  {
    var k := b / a;
    DivModLaw(b, a);
    var x, y :| Combination(g, b % a, a, x, y);
    var p :| b % a == g * p;
    var q :| a == g * q;
    assert b == a * k + b % a;
    MulAssoc(g, q, k);
    MulDistribute(q * k, p, g);
    assert b == g * (q * k + p);
    assert Combination(g, a, b, y - k * x, x) by {
      MulDistribute(y, k * x, a);
      MulAssoc(a, k, x);
      MulDistribute(a * k, b % a, x);
    }
  }

  lemma GcdEnd(b: nat)
    requires b > 0
    ensures IsGcd(b, 0, b)
  {
    assert b == b * 1 && 0 == b * 0;
    assert Combination(b, 0, b, 0, 1);
  }

  lemma GcdSwap(g: nat, a: nat, b: nat)
    requires IsGcd(g, a, b)
    ensures IsGcd(g, b, a)
  {
    var x, y :| Combination(g, a, b, x, y);
    assert Combination(g, b, a, y, x);
  }

  method Gcd(a0: nat, b0: nat) returns (g: nat)
    requires a0 > 0 || b0 > 0
    ensures IsGcd(g, a0, b0)
  {
    hide IsGcd;
    var a, b := a0, b0;
    if a > b {
      a, b := b, a;
    }
    ghost var first, second := a, b;
    while a > 0
      invariant b > 0
      invariant forall d: nat :: IsGcd(d, a, b) ==> IsGcd(d, first, second)
      decreases a
    {
      var t := b % a;
      forall d: nat | IsGcd(d, t, a)
        ensures IsGcd(d, first, second)
      {
        GcdStep(d, a, b);
      }
      b := a;
      a := t;
    }
    GcdEnd(b);
    g := b;
    if a0 > b0 {
      GcdSwap(g, first, second);
    }
  }

  // ---- Cycles -----------------------------------------------------------------------------

  /** The index after k steps. */
  ghost function Walk(start: nat, step: nat, n: nat, k: nat): (i: nat)
    requires start < n
    ensures i < n
  {
    if k == 0 then start else (Walk(start, step, n, k - 1) + step) % n
  }

  lemma {:induction false} WalkIs(start: nat, step: nat, n: nat, k: nat)
    requires start < n
    ensures 0 <= k * step && Walk(start, step, n, k) == (start + k * step) % n
  {
    MulSign(k, step);
    if k > 0 {
      WalkIs(start, step, n, k - 1);
      var x := (k - 1) * step;
      assert k * step == x + step by { MulDistribute(k, 1, step); }
      WalkStep(start, step, n, k);
      hide Walk;
      ModAdd(start + x, step, n);
      assert start + x + step == start + k * step;
    } else {
      SmallMod(start, n);
    }
  }

  lemma WalkStep(start: nat, step: nat, n: nat, k: nat)
    requires start < n && k > 0
    ensures Walk(start, step, n, k) == (Walk(start, step, n, k - 1) + step) % n
  {
  }

  lemma ModAdd(x: int, y: int, n: nat)
    requires n > 0
    ensures (x % n + y) % n == (x + y) % n
  {
    DivModLaw(x, n);
    DivModLaw(x % n + y, n);
    var q, r := (x % n + y) / n, (x % n + y) % n;
    MulDistribute(x / n, q, n);
    assert x + y == r + n * (x / n + q);
    DivModUnique(r, x / n + q, n);
  }

  /** Steps do not merge. */
  lemma StepInjective(x: nat, y: nat, step: nat, n: nat)
    requires x < n && y < n && step <= n && (x + step) % n == (y + step) % n
    ensures x == y
  {
    SmallMod(x + step, n);
    SmallMod(y + step, n);
  }

  lemma SmallMod(x: nat, n: nat)
    requires 0 < n && x < 2 * n
    ensures x % n == if x < n then x else x - n
  {
    if x >= n {
      DivModUnique(x - n, 1, n);
    }
  }

  /** Coming to an index a second time means having come back to the start in between. */
  lemma {:induction false} WalkReturns(start: nat, step: nat, n: nat, j: nat, k: nat)
    requires start < n && step <= n && j <= k && Walk(start, step, n, j) == Walk(start, step, n, k)
    ensures Walk(start, step, n, k - j) == start
  {
    if j > 0 {
      StepInjective(Walk(start, step, n, j - 1), Walk(start, step, n, k - 1), step, n);
      WalkReturns(start, step, n, j - 1, k - 1);
    }
  }

  /** After n steps at the latest the walk is back. */
  lemma WalkCloses(start: nat, step: nat, n: nat)
    requires start < n
    ensures Walk(start, step, n, n) == start
  {
    WalkIs(start, step, n, n);
    assert n * step == n * step;
    DivModUnique(start, step, n);
  }

  /** Once back at the start, the walk goes round. */
  lemma {:induction false} WalkPeriod(start: nat, step: nat, n: nat, l: nat, k: nat) returns (j: nat)
    requires start < n && l > 0 && Walk(start, step, n, l) == start
    ensures j < l && Walk(start, step, n, j) == Walk(start, step, n, k)
  {
    if k < l {
      j := k;
    } else {
      WalkOn(start, step, n, l, k - l);
      j := WalkPeriod(start, step, n, l, k - l);
    }
  }

  lemma {:induction false} WalkOn(start: nat, step: nat, n: nat, l: nat, k: nat)
    requires start < n && Walk(start, step, n, l) == start
    ensures Walk(start, step, n, k + l) == Walk(start, step, n, k)
  {
    if k > 0 {
      WalkOn(start, step, n, l, k - 1);
      assert k + l - 1 == (k - 1) + l;
    }
  }

  /** A walk stays in its class modulo the common divisor. */
  lemma {:induction false} WalkClass(start: nat, step: nat, n: nat, g: nat, k: nat)
    requires start < n && step <= n && IsGcd(g, n, step)
    ensures Walk(start, step, n, k) % g == start % g
  {
    if k > 0 {
      WalkClass(start, step, n, g, k - 1);
      var x := Walk(start, step, n, k - 1);
      SmallMod(x + step, n);
      var p :| n == g * p;
      var q :| step == g * q;
      ModShift(x, q, g);
      MulDistribute(q, p, g);
      ModShift(x, q - p, g);
    }
  }

  lemma ModShift(x: int, q: int, g: nat)
    requires g > 0
    ensures (x + g * q) % g == x % g
  {
    DivModLaw(x, g);
    MulDistribute(x / g, q, g);
    assert x + g * q == x % g + g * (x / g + q);
    DivModUnique(x % g, x / g + q, g);
  }

  /** The walk from a start comes to every index of its class. */
  lemma WalkCovers(start: nat, step: nat, n: nat, g: nat, i: nat) returns (k: nat)
    requires start < n && i < n && IsGcd(g, n, step) && i % g == start % g
    ensures Walk(start, step, n, k) == i
  {
    var x, y :| Combination(g, n, step, x, y);
    DivModLaw(i, g);
    DivModLaw(start, g);
    var t := i / g - start / g;
    MulDistribute(i / g, start / g, g);
    assert i == start + g * t;
    DivModLaw(t * y, n);
    k := (t * y) % n;
    WalkIs(start, step, n, k);
    CoverArithmetic(start, step, n, g, x, y, t, (t * y) / n, k);
    var w := -(t * x) - step * ((t * y) / n);
    DivModUnique(i, w, n);
  }

  lemma CoverArithmetic(start: int, step: int, n: int, g: int, x: int, y: int, t: int, q: int, k: int)
    requires n * x + step * y == g && t * y == n * q + k
    ensures start + k * step == (start + g * t) + n * (-(t * x) - step * q)
  {
    assert k * step == t * y * step - n * q * step;
    assert g * t == n * x * t + step * y * t;
    assert t * y * step == step * y * t;
    assert n * (-(t * x) - step * q) == -(n * (t * x)) - n * (step * q) by { MulDistribute(-(t * x), step * q, n); }
    assert n * x * t == n * (t * x);
    assert n * q * step == n * (step * q);
  }

  // ---- Rotating along the cycles ----------------------------------------------------------

  /** Index i of the range gets what was a step further on. */
  ghost predicate Moved<T>(s: seq<T>, t: seq<T>, step: nat, i: nat)
    requires i < |s| == |t| && step <= |s|
  {
    t[i] == s[(i + step) % |s|]
  }

  /** The classes below c have been moved, the others not. */
  ghost predicate MovedBelow<T>(s: seq<T>, t: seq<T>, step: nat, g: nat, c: nat) {
    && |s| == |t| && g > 0 && step <= |s|
    && forall i :: 0 <= i < |s| ==> if i % g < c then Moved(s, t, step, i) else t[i] == s[i]
  }

  /** The index has been visited in fewer than k steps. */
  ghost predicate Visited(start: nat, step: nat, n: nat, k: nat, i: nat)
    requires start < n
  {
    exists j: nat :: j < k && Walk(start, step, n, j) == i
  }

  /** The first k indices of the cycle have been moved, the others not. */
  ghost predicate MovedAlong<T>(s: seq<T>, t: seq<T>, start: nat, step: nat, k: nat) {
    && |s| == |t| && start < |s| && step <= |s|
    && forall i {:trigger t[i]} :: 0 <= i < |s| ==> if Visited(start, step, |s|, k, i) then Moved(s, t, step, i) else t[i] == s[i]
  }

  ghost predicate NotBack(start: nat, step: nat, n: nat, k: nat) {
    start < n && forall j: nat :: 0 < j <= k ==> Walk(start, step, n, j) != start
  }

  /** The next index of the cycle has not been visited. */
  lemma NextIsNew(start: nat, step: nat, n: nat, k: nat)
    requires start < n && step <= n && NotBack(start, step, n, k)
    ensures !Visited(start, step, n, k, Walk(start, step, n, k))
  {
    if Visited(start, step, n, k, Walk(start, step, n, k)) {
      var j: nat :| j < k && Walk(start, step, n, j) == Walk(start, step, n, k);
      WalkReturns(start, step, n, j, k);
      assert false;
    }
  }

  /** One index moved. */
  lemma MoveOne<T>(s: seq<T>, t: seq<T>, start: nat, step: nat, k: nat, x: T)
    requires MovedAlong(s, t, start, step, k) && x == s[(Walk(start, step, |s|, k) + step) % |s|]
    ensures MovedAlong(s, t[Walk(start, step, |s|, k) := x], start, step, k + 1)
  {
    hide Walk, Visited;
    var n := |s|;
    var m := Walk(start, step, n, k);
    var u := t[m := x];
    forall i | 0 <= i < n
      ensures if Visited(start, step, n, k + 1, i) then Moved(s, u, step, i) else u[i] == s[i]
    {
      VisitedNext(start, step, n, k, i);
    }
  }

  lemma VisitedNext(start: nat, step: nat, n: nat, k: nat, i: nat)
    requires start < n
    ensures Visited(start, step, n, k + 1, i) <==> Visited(start, step, n, k, i) || i == Walk(start, step, n, k)
  {
    if Visited(start, step, n, k, i) {
      var j: nat :| j < k && Walk(start, step, n, j) == i;
      assert j < k + 1;
    }
    if i == Walk(start, step, n, k) {
      assert k < k + 1;
    }
  }

  /** A whole cycle is a whole class. */
  lemma CycleIsClass(start: nat, step: nat, n: nat, g: nat, l: nat, i: nat)
    requires start < g <= n && step <= n && IsGcd(g, n, step) && l > 0 && Walk(start, step, n, l) == start && i < n
    ensures Visited(start, step, n, l, i) <==> i % g == start
  {
    SmallMod(start, g);
    if Visited(start, step, n, l, i) {
      var j: nat :| j < l && Walk(start, step, n, j) == i;
      WalkClass(start, step, n, g, j);
    }
    if i % g == start {
      var k := WalkCovers(start, step, n, g, i);
      var j := WalkPeriod(start, step, n, l, k);
      assert Visited(start, step, n, l, i);
    }
  }

  lemma CycleDone<T>(s: seq<T>, t: seq<T>, u: seq<T>, step: nat, g: nat, start: nat, l: nat)
    requires MovedBelow(s, t, step, g, start) && MovedAlong(t, u, start, step, l) && IsGcd(g, |s|, step) && start < g <= |s|
    requires l > 0 && Walk(start, step, |s|, l) == start
    ensures MovedBelow(s, u, step, g, start + 1)
  {
    hide Walk, Visited, IsGcd;
    forall i | 0 <= i < |s|
      ensures if i % g < start + 1 then Moved(s, u, step, i) else u[i] == s[i]
    {
      CycleIsClass(start, step, |s|, g, l, i);
      SameClass(i, step, |s|, g);
      var next := (i + step) % |s|;
      CycleDoneAt(s[i], t[i], u[i], s[next], t[next], i % g, start, Visited(start, step, |s|, l, i));
    }
  }

  /** An element after its cycle: the classes before keep what they have, its own class gets it now. */
  lemma CycleDoneAt<T>(si: T, ti: T, ui: T, sn: T, tn: T, c: int, start: int, visited: bool)
    requires visited <==> c == start
    requires if c < start then ti == sn else ti == si && tn == sn
    requires if visited then ui == tn else ui == ti
    ensures if c < start + 1 then ui == sn else ui == si
  {
  }

  /** A step stays in the class. */
  lemma SameClass(i: nat, step: nat, n: nat, g: nat)
    requires i < n && step <= n && IsGcd(g, n, step)
    ensures (i + step) % n < n && ((i + step) % n) % g == i % g
  {
    WalkClass(i, step, n, g, 1);
    assert Walk(i, step, n, 1) == (Walk(i, step, n, 0) + step) % n;
  }

  lemma AllMoved<T>(s: seq<T>, t: seq<T>, step: nat, g: nat)
    requires MovedBelow(s, t, step, g, g) && step <= |s|
    ensures t == Rotated(s, step)
  {
    forall i | 0 <= i < |s|
      ensures t[i] == Rotated(s, step)[i]
    {
      DivModLaw(i, g);
      assert Moved(s, t, step, i);
      SmallMod(i + step, |s|);
    }
  }

  /** Write one element of the range. */
  method Store<T>(a: array<T>, lo: nat, hi: nat, i: nat, x: T)
    requires lo <= hi <= a.Length && i < hi - lo
    modifies a
    ensures Outside(old(a[..]), a[..], lo, hi) && a[lo..hi] == old(a[lo..hi])[i := x]
  {
    a[lo + i] := x;
  }

  lemma CycleStart<T>(s: seq<T>, start: nat, step: nat)
    requires start < |s| && step <= |s|
    ensures MovedAlong(s, s, start, step, 0) && NotBack(start, step, |s|, 0) && Walk(start, step, |s|, 0) == start
  {
    forall i | 0 <= i < |s|
      ensures !Visited(start, step, |s|, 0, i)
    {
    }
  }

  lemma WalkNext(start: nat, step: nat, n: nat, k: nat)
    requires start < n && NotBack(start, step, n, k)
    ensures Walk(start, step, n, k + 1) == (Walk(start, step, n, k) + step) % n
    ensures Walk(start, step, n, k + 1) != start ==> NotBack(start, step, n, k + 1)
  {
  }

  /** What the next index held is still there. */
  lemma StillThere<T>(s: seq<T>, t: seq<T>, start: nat, step: nat, k: nat)
    requires MovedAlong(s, t, start, step, k) && NotBack(start, step, |s|, k + 1)
    ensures var i := Walk(start, step, |s|, k + 1); t[i] == s[i]
  {
    NextIsNew(start, step, |s|, k + 1);
    VisitedNext(start, step, |s|, k, Walk(start, step, |s|, k + 1));
  }

  /** Move one cycle. */
  method MoveCycle<T>(a: array<T>, lo: nat, hi: nat, step: nat, start: nat) returns (ghost l: nat)
    requires lo <= hi <= a.Length && step <= hi - lo && start < hi - lo
    modifies a
    ensures Outside(old(a[..]), a[..], lo, hi) && MovedAlong(old(a[lo..hi]), a[lo..hi], start, step, l)
    ensures l > 0 && Walk(start, step, hi - lo, l) == start
  {
    hide Walk, MovedAlong, NotBack;
    ghost var s := a[lo..hi];
    var count := hi - lo;
    var idx: nat := start;
    var t := a[lo + idx];
    l := 0;
    CycleStart(s, start, step);
    while true
      invariant l < count && idx == Walk(start, step, count, l) && NotBack(start, step, count, l)
      invariant Outside(old(a[..]), a[..], lo, hi) && MovedAlong(s, a[lo..hi], start, step, l)
      decreases count - l
    {
      WalkNext(start, step, count, l);
      var nidx := (idx + step) % count;
      if nidx == start {
        break;
      }
      WalkCloses(start, step, count);
      StillThere(s, a[lo..hi], start, step, l);
      MoveOne(s, a[lo..hi], start, step, l, a[lo + nidx]);
      Store(a, lo, hi, idx, a[lo + nidx]);
      idx := nidx;
      l := l + 1;
    }
    MoveOne(s, a[lo..hi], start, step, l, t);
    Store(a, lo, hi, idx, t);
    l := l + 1;
  }

  method Rotate3<T>(a: array<T>, lo: nat, mid: nat, hi: nat)
    requires lo <= mid <= hi <= a.Length
    modifies a
    ensures Outside(old(a[..]), a[..], lo, hi) && a[lo..hi] == Rotated(old(a[lo..hi]), mid - lo)
  {
    hide MovedBelow, MovedAlong, IsGcd, Walk;
    var count, step := hi - lo, mid - lo;
    ghost var s := a[lo..hi];
    if step == 0 || count == 0 {
      assert Rotated(s, step) == s;
      return;
    }
    var g := Gcd(count, step);
    GcdBound(g, count, step);
    NothingMoved(s, step, g);
    for start := 0 to g
      invariant Outside(old(a[..]), a[..], lo, hi) && MovedBelow(s, a[lo..hi], step, g, start)
    {
      ghost var t := a[lo..hi];
      ghost var l := MoveCycle(a, lo, hi, step, start);
      CycleDone(s, t, a[lo..hi], step, g, start, l);
    }
    AllMoved(s, a[lo..hi], step, g);
  }

  lemma GcdBound(g: nat, a: nat, b: nat)
    requires IsGcd(g, a, b) && a > 0
    ensures 0 < g <= a
  {
    var p :| a == g * p;
    if p <= 0 {
      MulMonotone(p, 0, g);
    } else {
      MulMonotone(1, p, g);
    }
  }

  lemma NothingMoved<T>(s: seq<T>, step: nat, g: nat)
    requires g > 0 && step <= |s|
    ensures MovedBelow(s, s, step, g, 0)
  {
    forall i | 0 <= i < |s|
      ensures i % g >= 0
    {
      DivModLaw(i, g);
    }
  }
}
