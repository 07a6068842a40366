/** The hash table with linear probing: no tombstones, instead removal places the entries behind the hole
    anew. */
module HashTable {
  import opened Options

  datatype Entry<K, V> = Entry(key: K, value: V)

  type Buckets<K, V> = seq<Option<Entry<K, V>>>

  // ---- Going round ------------------------------------------------------------------------

  /** Slot m lies on the way round from slot h up to, but not including, slot j. */
  predicate InPath(h: nat, j: nat, m: nat) {
    if h <= j then h <= m < j else m >= h || m < j
  }

  function NextSlot(j: nat, n: nat): nat
    requires j < n
  {
    if j + 1 == n then 0 else j + 1
  }

  function Home<K>(hash: K -> nat, k: K, n: nat): (h: nat)
    requires n > 0
    ensures h < n
  {
    hash(k) % n
  }

  // ---- What a table holds -----------------------------------------------------------------

  ghost predicate Distinct<K, V>(b: Buckets<K, V>) {
    forall i, j :: 0 <= i < j < |b| && b[i].Some? && b[j].Some? ==> b[i].value.key != b[j].value.key
  }

  /** The slots from the home of the entry in slot j to j are all occupied. */
  ghost predicate Probed<K, V>(hash: K -> nat, b: Buckets<K, V>, j: nat)
    requires j < |b|
  {
    b[j].Some? ==> forall m {:trigger b[m]} :: 0 <= m < |b| && InPath(Home(hash, b[j].value.key, |b|), j, m) ==> b[m].Some?
  }

  ghost predicate Table<K, V>(hash: K -> nat, b: Buckets<K, V>) {
    |b| > 0 && Distinct(b) && forall j {:trigger Probed(hash, b, j)} :: 0 <= j < |b| ==> Probed(hash, b, j)
  }

  ghost predicate HasKey<K, V>(b: Buckets<K, V>, k: K) {
    exists j :: 0 <= j < |b| && b[j].Some? && b[j].value.key == k
  }

  /** The slots hold exactly the entries of the map. */
  ghost predicate Holds<K, V>(b: Buckets<K, V>, d: map<K, V>) {
    && (forall j :: 0 <= j < |b| && b[j].Some? ==> b[j].value.key in d && d[b[j].value.key] == b[j].value.value)
    && forall k :: k in d ==> HasKey(b, k)
  }

  /** With more slots than entries there is an empty slot. */
  lemma EmptySlot<K, V>(b: Buckets<K, V>, d: map<K, V>) returns (e: nat)
    requires Distinct(b) && Holds(b, d) && |d| < |b|
    ensures e < |b| && b[e].None?
  {
    if j: nat :| j < |b| && b[j].None? {
      e := j;
    } else {
      Crowded(b, d.Keys, |b|);
      assert false;
    }
  }

  lemma {:induction false} Crowded<K, V>(b: Buckets<K, V>, keys: set<K>, n: nat)
    requires Distinct(b) && n <= |b| && forall j :: 0 <= j < n ==> b[j].Some? && b[j].value.key in keys
    ensures n <= |keys|
  {
    if n > 0 {
      Crowded(b, keys - {b[n - 1].value.key}, n - 1);
    }
  }

  /** Where the search for a key ends: at the key or at an empty slot, past occupied slots with other keys. */
  ghost predicate IsBucket<K, V>(hash: K -> nat, b: Buckets<K, V>, k: K, r: nat) {
    && r < |b| && (b[r].Some? ==> b[r].value.key == k)
    && forall m {:trigger b[m]} :: 0 <= m < |b| && InPath(Home(hash, k, |b|), r, m) ==> b[m].Some? && b[m].value.key != k
  }

  lemma EitherFirst(h: nat, j: nat, r: nat)
    ensures j == r || InPath(h, j, r) || InPath(h, r, j)
  {
  }

  /** The search finds a key wherever the table holds it. */
  lemma BucketFinds<K, V>(hash: K -> nat, b: Buckets<K, V>, d: map<K, V>, k: K, r: nat)
    requires Table(hash, b) && Holds(b, d) && IsBucket(hash, b, k, r)
    ensures k in d <==> b[r].Some?
    ensures k in d ==> d[k] == b[r].value.value
  {
    if k in d {
      assert HasKey(b, k);
      var j: nat :| j < |b| && b[j].Some? && b[j].value.key == k;
      assert Probed(hash, b, j);
      EitherFirst(Home(hash, k, |b|), j, r);
    }
  }

  /** Search for a key, going round from its home slot. */
  method FindBucket<K(==), V>(hash: K -> nat, b: Buckets<K, V>, k: K, ghost e: nat) returns (j: nat)
    requires e < |b| && b[e].None?
    ensures IsBucket(hash, b, k, j)
  {
    var i := hash(k) % |b|;
    j := i;
    while b[j].Some? && b[j].value.key != k
      invariant j < |b| && !InPath(i, j, e)
      invariant forall m {:trigger b[m]} :: 0 <= m < |b| && InPath(i, j, m) ==> b[m].Some? && b[m].value.key != k
      decreases if j <= e then e - j else |b| - j + e
    {
      ghost var before := j;
      j := NextSlot(j, |b|);
      Onward(i, before, |b|, e);
      if j == i {
        break;
      }
    }
  }

  /** One slot further on the way round; the way cannot close without passing every slot. */
  lemma Onward(i: nat, j: nat, n: nat, e: nat)
    requires i < n && j < n && e < n && e != j && !InPath(i, j, e)
    ensures var next := NextSlot(j, n);
      next != i && !InPath(i, next, e)
      && forall m :: 0 <= m < n ==> (InPath(i, next, m) <==> InPath(i, j, m) || m == j)
  {
  }

  // ---- Putting in -------------------------------------------------------------------------

  function Filled<K, V>(b: Buckets<K, V>, r: nat, x: Entry<K, V>): Buckets<K, V>
    requires r < |b|
  {
    b[r := Some(x)]
  }

  /** An entry put where the search for its key ended. */
  lemma PutKeeps<K, V>(hash: K -> nat, b: Buckets<K, V>, d: map<K, V>, r: nat, x: Entry<K, V>)
    requires Table(hash, b) && Holds(b, d) && IsBucket(hash, b, x.key, r)
    ensures Table(hash, Filled(b, r, x)) && Holds(Filled(b, r, x), d[x.key := x.value])
  {
    var c := Filled(b, r, x);
    BucketFinds(hash, b, d, x.key, r);
    forall j | 0 <= j < |c|
      ensures Probed(hash, c, j)
    {
      assert Probed(hash, b, j);
    }
    forall k | k in d[x.key := x.value]
      ensures HasKey(c, k)
    {
      if k == x.key {
        assert c[r].value.key == k;
      } else {
        assert HasKey(b, k);
        var j :| 0 <= j < |b| && b[j].Some? && b[j].value.key == k;
        assert c[j] == b[j];
      }
    }
  }

  // ---- Taking out -------------------------------------------------------------------------

  /** The first empty slot on the way round from p. */
  ghost predicate FirstEmpty<K, V>(b: Buckets<K, V>, p: nat, e: nat) {
    p < |b| && e < |b| && e != p && b[e].None? && forall m {:trigger b[m]} :: 0 <= m < |b| && InPath(p, e, m) ==> b[m].Some?
  }

  lemma {:induction false} FindFirstEmpty<K, V>(b: Buckets<K, V>, p: nat, q: nat, e0: nat) returns (e: nat)
    requires p < |b| && q < |b| && e0 < |b| && b[p].Some? && b[e0].None? && b[q].Some?
    requires !InPath(p, q, e0) && forall m {:trigger b[m]} :: 0 <= m < |b| && InPath(p, q, m) ==> b[m].Some?
    ensures FirstEmpty(b, p, e)
    decreases if q <= e0 then e0 - q else |b| - q + e0
  {
    Onward(p, q, |b|, e0);
    var next := NextSlot(q, |b|);
    if b[next].None? {
      e := next;
    } else {
      e := FindFirstEmpty(b, p, next, e0);
    }
  }

  /** The hole was at p; the entries from i up to the empty slot e have still to be placed anew. Their ways
      from home may lead over the slots from p to i, all other ways are occupied. */
  ghost predicate Moving<K, V>(hash: K -> nat, b: Buckets<K, V>, p: nat, i: nat, e: nat) {
    && p < |b| && i < |b| && e < |b| && p != e && i != p && (i == e || InPath(p, e, i)) && b[e].None? && Distinct(b)
    && (forall m {:trigger b[m]} :: 0 <= m < |b| && InPath(i, e, m) ==> b[m].Some?)
    && (forall j {:trigger Probed(hash, b, j)} :: 0 <= j < |b| && !InPath(i, e, j) ==> Probed(hash, b, j))
    && (forall j {:trigger Waiting(hash, b, p, i, j)} :: 0 <= j < |b| && InPath(i, e, j) ==> Waiting(hash, b, p, i, j))
  }

  ghost predicate Waiting<K, V>(hash: K -> nat, b: Buckets<K, V>, p: nat, i: nat, j: nat)
    requires j < |b|
  {
    b[j].Some? ==>
      var h := Home(hash, b[j].value.key, |b|);
      forall m {:trigger b[m]} :: 0 <= m < |b| && InPath(h, j, m) ==> b[m].Some? || InPath(p, i, m)
  }

  /** Right after the entry at p is gone. */
  lemma HoleMade<K, V>(hash: K -> nat, b: Buckets<K, V>, p: nat, e: nat)
    requires Table(hash, b) && FirstEmpty(b, p, e) && b[p].Some?
    ensures Moving(hash, b[p := None], p, NextSlot(p, |b|), e)
  {
    var c, i := b[p := None], NextSlot(p, |b|);
    forall j | 0 <= j < |c| && !InPath(i, e, j)
      ensures Probed(hash, c, j)
    {
      assert Probed(hash, b, j);
      if c[j].Some? {
        AvoidsSlot(Home(hash, c[j].value.key, |b|), j, p, e);
      }
    }
    forall j | 0 <= j < |c| && InPath(i, e, j)
      ensures Waiting(hash, c, p, i, j)
    {
      assert Probed(hash, b, j);
    }
  }

  /** A way that avoids the empty slot e and does not end between i and e does not lead over i. */
  lemma AvoidsSlot(h: nat, j: nat, i: nat, e: nat)
    requires i != e && j != e && !InPath(i, e, j)
    ensures InPath(h, j, i) ==> InPath(h, j, e)
  {
  }

  /** Where the entry at i goes: into the part the hole has gone through. */
  lemma GoesBack<K, V>(hash: K -> nat, b: Buckets<K, V>, p: nat, i: nat, e: nat, r: nat)
    requires Moving(hash, b, p, i, e) && i != e && b[i].Some?
    requires IsBucket(hash, b[i := None], b[i].value.key, r)
    ensures b[i := None][r].None? && (r == i || InPath(p, i, r))
  {
    var c, h := b[i := None], Home(hash, b[i].value.key, |b|);
    assert InPath(i, e, i);
    assert Waiting(hash, b, p, i, i);
    EitherFirst(h, i, r);
    assert c[i].None?;
  }

  /** The entry at i placed anew. */
  lemma Replaced<K, V>(hash: K -> nat, b: Buckets<K, V>, p: nat, i: nat, e: nat, r: nat)
    requires Moving(hash, b, p, i, e) && i != e && b[i].Some?
    requires IsBucket(hash, b[i := None], b[i].value.key, r)
    ensures Moving(hash, Filled(b[i := None], r, b[i].value), p, NextSlot(i, |b|), e)
  {
    GoesBack(hash, b, p, i, e, r);
    var c := Filled(b[i := None], r, b[i].value);
    var i' := NextSlot(i, |b|);
    Between(p, i, e, |b|);
    assert Distinct(c);
    forall j | 0 <= j < |c| && !InPath(i', e, j)
      ensures Probed(hash, c, j)
    {
      if j != r && c[j].Some? {
        assert Probed(hash, b, j);
        AvoidsSlot(Home(hash, c[j].value.key, |b|), j, i, e);
      }
    }
    forall j | 0 <= j < |c| && InPath(i', e, j)
      ensures Waiting(hash, c, p, i', j)
    {
      assert Waiting(hash, b, p, i, j);
    }
  }

  lemma Between(p: nat, i: nat, e: nat, n: nat)
    requires p < n && i < n && e < n && p != e && i != p && InPath(p, e, i)
    ensures var next := NextSlot(i, n);
      && next != p && (next == e || InPath(p, e, next))
      && (forall m :: 0 <= m < n ==> (InPath(i, e, m) <==> m == i || InPath(next, e, m)))
      && (forall m :: 0 <= m < n ==> (InPath(p, next, m) <==> m == i || InPath(p, i, m)))
      && forall m :: 0 <= m < n && InPath(p, next, m) ==> m != e && !InPath(next, e, m)
  {
  }

  /** When an empty slot is reached every entry is in its place. */
  lemma AllPlaced<K, V>(hash: K -> nat, b: Buckets<K, V>, p: nat, i: nat, e: nat)
    requires Moving(hash, b, p, i, e) && b[i].None?
    ensures i == e && Table(hash, b)
  {
    assert i != e ==> InPath(i, e, i);
    forall j | 0 <= j < |b|
      ensures Probed(hash, b, j)
    {
      assert !InPath(e, e, j);
    }
  }

  lemma RemovedHolds<K, V>(b: Buckets<K, V>, d: map<K, V>, p: nat)
    requires Distinct(b) && Holds(b, d) && p < |b| && b[p].Some?
    ensures Holds(b[p := None], d - {b[p].value.key})
  {
    forall k | k in d - {b[p].value.key}
      ensures HasKey(b[p := None], k)
    {
      assert HasKey(b, k);
      var j :| 0 <= j < |b| && b[j].Some? && b[j].value.key == k;
      assert b[p := None][j] == b[j];
    }
  }

  lemma KeyHeld<K, V>(b: Buckets<K, V>, d: map<K, V>, p: nat)
    requires Holds(b, d) && p < |b| && b[p].Some?
    ensures b[p].value.key in d
  {
  }

  lemma TableDistinct<K, V>(hash: K -> nat, b: Buckets<K, V>)
    requires Table(hash, b)
    ensures Distinct(b)
  {
  }

  lemma ReplacedHolds<K, V>(b: Buckets<K, V>, d: map<K, V>, i: nat, r: nat)
    requires Holds(b, d) && i < |b| && r < |b| && b[i].Some? && b[i := None][r].None?
    ensures Holds(Filled(b[i := None], r, b[i].value), d)
  {
    var c := Filled(b[i := None], r, b[i].value);
    forall k | k in d
      ensures HasKey(c, k)
    {
      assert HasKey(b, k);
      var j :| 0 <= j < |b| && b[j].Some? && b[j].value.key == k;
      assert j == i ==> c[r] == b[j];
      assert j != i ==> c[j] == b[j];
    }
  }

  // ---- The sizes --------------------------------------------------------------------------

  const SIZE_LIST: seq<nat> := [7, 13, 31, 61, 127, 251, 509, 1021, 2039, 4093, 8191, 16381, 32749, 65521, 131071, 262139,
    524287, 1048573, 2097143, 4194301, 8388593, 16777213, 33554393, 67108859, 134217689, 268435399, 536870909,
    1073741789, 2147483647]

  const LARGEST: nat := 2147483647

  ghost predicate Increasing(sizes: seq<nat>) {
    forall i, j :: 0 <= i < j < |sizes| ==> sizes[i] + 6 <= sizes[j]
  }

  lemma {:induction false} StepsIncrease(sizes: seq<nat>)
    requires forall i :: 0 < i < |sizes| ==> sizes[i - 1] + 6 <= sizes[i]
    ensures Increasing(sizes)
  {
    if sizes != [] {
      var n := |sizes| - 1;
      var front := sizes[..n];
      StepsIncrease(front);
      forall i, j | 0 <= i < j < |sizes|
        ensures sizes[i] + 6 <= sizes[j]
      {
        if j < n {
          assert front[i] + 6 <= front[j];
        } else if i < n - 1 {
          assert front[i] + 6 <= front[n - 1];
        }
      }
    }
  }

  /** The first size in the list above the present one. */
  method ChooseFrom(sizes: seq<nat>, size: nat) returns (n: nat)
    requires Increasing(sizes) && sizes != [] && sizes[|sizes| - 1] > size
    ensures n > size && n in sizes && n >= sizes[0] && forall m :: m in sizes && m > size ==> n <= m
  {
    var i := 0;
    while i < |sizes| - 1 && sizes[i] <= size
      invariant 0 <= i < |sizes| && forall j :: 0 <= j < i ==> sizes[j] <= size
    {
      i := i + 1;
    }
    n := sizes[i];
  }

  lemma SizesIncrease()
    ensures Increasing(SIZE_LIST) && |SIZE_LIST| == 29 && SIZE_LIST[28] == LARGEST && SIZE_LIST[0] == 7
  {
    StepsIncrease(SIZE_LIST);
  }

  /** The least listed size above the present one. */
  ghost predicate Next(size: nat, n: nat) {
    n > size && n in SIZE_LIST && forall m :: m in SIZE_LIST && m > size ==> n <= m
  }

  lemma Apart6(sizes: seq<nat>, m: nat, n: nat)
    requires Increasing(sizes) && m in sizes && n in sizes
    ensures m == n || m + 6 <= n || n + 6 <= m
  {
  }

  lemma SizesApart(m: nat, n: nat)
    requires m in SIZE_LIST && n in SIZE_LIST && m < n
    ensures m + 6 <= n
  {
    SizesIncrease();
    hide SIZE_LIST;
    Apart6(SIZE_LIST, m, n);
  }

  method ChooseLargerSize(size: nat) returns (n: nat)
    requires size < LARGEST
    ensures Next(size, n) && n >= 7
  {
    SizesIncrease();
    hide SIZE_LIST;
    n := ChooseFrom(SIZE_LIST, size);
  }

  // ---- The table --------------------------------------------------------------------------

  /** A listed number of slots, of which at most half and one more are taken. */
  ghost predicate HalfFull(size: nat, slots: nat) {
    slots in SIZE_LIST && slots >= 7 && 2 * size <= slots + 2
  }

  class OpenAddressingHashTable<K(==), V> {
    const hash: K -> nat
    var buckets: Buckets<K, V>
    var size: nat
    ghost var contents: map<K, V>

    ghost predicate Valid()
      reads this
    {
      Table(hash, buckets) && Holds(buckets, contents) && size == |contents| && HalfFull(size, |buckets|)
    }

    constructor (hash: K -> nat, bucketSize: nat)
      requires bucketSize < LARGEST
      ensures Valid() && contents == map[] && this.hash == hash && Next(bucketSize, |buckets|)
    {
      hide SIZE_LIST;
      this.hash := hash;
      size := 0;
      contents := map[];
      var n := ChooseLargerSize(bucketSize);
      buckets := seq(n, _ => None);
    }

    method Get(k: K) returns (r: Option<V>)
      requires Valid()
      ensures r.Some? <==> k in contents
      ensures r.Some? ==> r.value == contents[k]
    {
      ghost var e := EmptySlot(buckets, contents);
      var p := FindBucket(hash, buckets, k, e);
      BucketFinds(hash, buckets, contents, k, p);
      r := if buckets[p].None? then None else Some(buckets[p].value.value);
    }

    /** Set the value of a key; the result tells whether the key is new. */
    method Insert(k: K, v: V) returns (added: bool)
      requires Valid() && (|buckets| < LARGEST || 2 * size <= |buckets|)
      modifies this
      ensures Valid() && contents == old(contents)[k := v] && (added <==> k !in old(contents))
      ensures if 2 * old(size) > old(|buckets|) then Next(old(|buckets|), |buckets|) else |buckets| == old(|buckets|)
    {
      hide SIZE_LIST;
      if 2 * size > |buckets| {
        Rehash();
      }
      ghost var e := EmptySlot(buckets, contents);
      var p := FindBucket(hash, buckets, k, e);
      BucketFinds(hash, buckets, contents, k, p);
      PutKeeps(hash, buckets, contents, p, Entry(k, v));
      added := buckets[p].None?;
      buckets := Filled(buckets, p, Entry(k, v));
      if added {
        size := size + 1;
      }
      contents := contents[k := v];
    }

    /** Put all entries into more buckets. */
    method Rehash()
      requires Valid() && |buckets| < LARGEST
      modifies this`buckets
      ensures Valid() && Next(old(|buckets|), |buckets|) && |buckets| >= old(|buckets|) + 6
    {
      hide SIZE_LIST, Table, Holds, Distinct, Copied;
      var a := buckets;
      var n := ChooseLargerSize(|a|);
      var b: Buckets<K, V> := seq(n, _ => None);
      ghost var d: map<K, V> := map[];
      EmptyTable<K, V>(hash, b);
      CopyStart(hash, a, contents);
      for i := 0 to |a|
        invariant |b| == n && Table(hash, b) && Holds(b, d) && Copied(a, i, d, contents)
      {
        CopyStep(a, i, d, contents);
        if a[i].Some? {
          var x := a[i].value;
          TableDistinct(hash, b);
          ghost var e := EmptySlot(b, d);
          var p := FindBucket(hash, b, x.key, e);
          PutKeeps(hash, b, d, p, x);
          b := Filled(b, p, x);
          d := d[x.key := x.value];
        }
      }
      AllMoved(a, contents, d);
      SizesApart(|a|, n);
      buckets := b;
    }

    /** Remove a key; the entries behind it are placed anew up to the next empty slot. */
    method Remove(k: K) returns (removed: bool)
      requires Valid()
      modifies this
      ensures Valid() && contents == old(contents) - {k} && (removed <==> k in old(contents))
      ensures |buckets| == old(|buckets|)
    {
      hide SIZE_LIST;
      ghost var e0 := EmptySlot(buckets, contents);
      var p := FindBucket(hash, buckets, k, e0);
      BucketFinds(hash, buckets, contents, k, p);
      if buckets[p].None? {
        assert contents - {k} == contents;
        return false;
      }
      RemoveAt(p, e0);
      return true;
    }

    /** Take out the entry at p. */
    method RemoveAt(p: nat, ghost e0: nat)
      requires Valid() && p < |buckets| && buckets[p].Some? && e0 < |buckets| && buckets[e0].None?
      modifies this
      ensures Valid() && contents == old(contents) - {old(buckets)[p].value.key} && |buckets| == old(|buckets|)
    {
      hide SIZE_LIST, Table, Moving, Holds, Distinct;
      ghost var k := buckets[p].value.key;
      KeyHeld(buckets, contents, p);
      ghost var e := FindFirstEmpty(buckets, p, p, e0);
      HoleMade(hash, buckets, p, e);
      TableDistinct(hash, buckets);
      RemovedHolds(buckets, contents, p);
      buckets := buckets[p := None];
      size := size - 1;
      contents := contents - {k};
      var i: nat := NextSlot(p, |buckets|);
      while buckets[i].Some?
        invariant i < |buckets| == old(|buckets|) && e < |buckets|
        invariant Moving(hash, buckets, p, i, e) && Holds(buckets, contents)
        invariant size == |contents| < |buckets| && contents == old(contents) - {k}
        decreases if i <= e then e - i else |buckets| - i + e
      {
        i := PlaceAnew(p, i, e);
      }
      AllPlaced(hash, buckets, p, i, e);
    }

    method PlaceAnew(ghost p: nat, i: nat, ghost e: nat) returns (next: nat)
      requires Moving(hash, buckets, p, i, e) && Holds(buckets, contents) && i < |buckets| && buckets[i].Some?
      modifies this`buckets
      ensures |buckets| == old(|buckets|) && i != e && next == NextSlot(i, |buckets|)
      ensures Moving(hash, buckets, p, next, e) && Holds(buckets, contents)
    {
      ghost var b := buckets;
      var x := buckets[i].value;
      buckets := buckets[i := None];
      var r := FindBucket(hash, buckets, x.key, e);
      GoesBack(hash, b, p, i, e, r);
      Replaced(hash, b, p, i, e, r);
      ReplacedHolds(b, contents, i, r);
      assert buckets[r].None?;
      buckets := Filled(buckets, r, x);
      next := NextSlot(i, |buckets|);
    }
  }

  /** d holds the entries of the first i slots, a part of all the contents. */
  ghost predicate Copied<K, V>(a: Buckets<K, V>, i: nat, d: map<K, V>, contents: map<K, V>) {
    && i <= |a| && |d| <= i && Distinct(a) && Holds(a, contents)
    && (forall j :: 0 <= j < i && a[j].Some? ==> a[j].value.key in d)
    && (forall k :: k in d ==> k in contents && contents[k] == d[k])
    && forall j :: i <= j < |a| && a[j].Some? ==> a[j].value.key !in d
  }

  lemma CopyStart<K, V>(hash: K -> nat, a: Buckets<K, V>, contents: map<K, V>)
    requires Table(hash, a) && Holds(a, contents)
    ensures Copied(a, 0, map[], contents)
  {
  }

  lemma EmptyTable<K, V>(hash: K -> nat, b: Buckets<K, V>)
    requires |b| > 0 && forall j :: 0 <= j < |b| ==> b[j].None?
    ensures Table(hash, b) && Holds(b, map[])
  {
  }

  lemma CopyStep<K, V>(a: Buckets<K, V>, i: nat, d: map<K, V>, contents: map<K, V>)
    requires i < |a| && Copied(a, i, d, contents)
    ensures |d| <= i && Copied(a, i + 1, if a[i].Some? then d[a[i].value.key := a[i].value.value] else d, contents)
  {
  }

  lemma AllMoved<K, V>(b: Buckets<K, V>, contents: map<K, V>, d: map<K, V>)
    requires Copied(b, |b|, d, contents)
    ensures d == contents
  {
    forall k | k in contents
      ensures k in d
    {
      assert HasKey(b, k);
    }
  }
}
