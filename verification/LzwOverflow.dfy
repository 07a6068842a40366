/** Chunks of any size from 84920 bytes on whose LZW codes do not fit the size estimate. Every pair of bytes follows
    once, and in front of the last of those pairs come pairs already seen, so that the pairs behind get codes of 24
    bits. From there on the chunk is made of these pairs alone, each in a code of 27 bits, in an order that never
    makes an entry twice. */
module LzwOverflow {
  import opened Numerals
  import opened BitStream
  import opened Lzw
  import opened LzwStream
  import opened LzwLimits

  // ---- Every pair of bytes once -------------------------------------------------------------

  /** The number of pairs of bytes. */
  const ALL: nat := 65536

  /** The letters of a closed walk over all pairs: x, x + d, x + 1, x + 1 + d and so on around the bytes, for the
      distances d from 1 to 128. */
  function Walk(p: nat): byte
    requires p <= ALL
  {
    var x := p % 512 / 2;
    if p == ALL then 0 else if p % 2 == 0 then x else Plus(x, p / 512 + 1)
  }

  /** Bytes wrap around. */
  function Plus(x: byte, d: nat): byte {
    (x + d) % 256
  }

  /** How far it is from a to b. */
  function Distance(a: byte, b: byte): byte {
    (b - a) % 256
  }

  /** Where the pair of a and b follows. */
  function Index(a: byte, b: byte): nat {
    if 1 <= Distance(a, b) <= 128 then 512 * (Distance(a, b) - 1) + 2 * a
    else
      var x := Plus(b, 255);
      512 * ((Distance(x, a) + 255) % 256) + 2 * x + 1
  }

  /** The walk around the bytes at one distance. */
  lemma WalkAt(x: byte, d: nat, p: nat)
    requires 1 <= d <= 128 && p == 512 * (d - 1) + 2 * x
    ensures p + 2 <= ALL && Walk(p) == x && Walk(p + 1) == Plus(x, d) && Walk(p + 2) == Plus(x, 1)
  {
    hide Plus;
    PlusIs(x, 1);
    Parts(p, d - 1, 2 * x);
    Parts(p + 1, d - 1, 2 * x + 1);
    if x < 255 {
      Parts(p + 2, d - 1, 2 * x + 2);
    } else {
      Parts(p + 2, d, 0);
    }
  }

  lemma Parts(p: nat, q: nat, r: nat)
    requires p == 512 * q + r && r < 512
    ensures p / 512 == q && p % 512 == r && p % 2 == r % 2
  {
  }

  /** Pair p of the walk. */
  lemma WalkPairs(p: nat)
    requires p < ALL
    ensures Index(Walk(p), Walk(p + 1)) == p
  {
    hide Walk, Index, Plus;
    var x, d := p % 512 / 2, p / 512 + 1;
    WalkAt(x, d, 512 * (d - 1) + 2 * x);
    StepAway(x, d);
    StepBack(x, d);
    assert p == 512 * (d - 1) + 2 * x + p % 2;
  }

  lemma Around(a: byte, d: nat, e: nat)
    ensures Plus(Plus(a, d), e) == Plus(a, d + e)
  {
  }

  lemma WholeTurn(a: byte, d: nat)
    ensures Plus(a, 256) == a == Plus(a, 0) && Plus(a, d + 256) == Plus(a, d)
  {
  }

  lemma DistanceOf(a: byte, d: nat)
    requires d < 256
    ensures Distance(a, Plus(a, d)) == d
  {
  }

  /** From a byte to one that far away. */
  lemma StepAway(x: byte, d: nat)
    requires 1 <= d <= 128
    ensures Index(x, Plus(x, d)) == 512 * (d - 1) + 2 * x
  {
    hide Distance, Plus;
    DistanceOf(x, d);
  }

  /** And from there to the next byte. */
  lemma StepBack(x: byte, d: nat)
    requires 1 <= d <= 128
    ensures Index(Plus(x, d), Plus(x, 1)) == 512 * (d - 1) + 2 * x + 1
  {
    hide Distance, Plus;
    var a, b := Plus(x, d), Plus(x, 1);
    Around(x, 1, 255);
    WholeTurn(x, 1);
    DistanceOf(x, d);
    Around(x, d, 257 - d);
    WholeTurn(a, 0);
    if d == 1 {
      DistanceOf(a, 0);
    } else {
      DistanceOf(a, 257 - d);
    }
    assert (d + 255) % 256 == d - 1;
  }

  /** The walk comes by every pair. */
  lemma PlaceOf(a: byte, b: byte)
    ensures Index(a, b) < ALL && Walk(Index(a, b)) == a && Walk(Index(a, b) + 1) == b
  {
    hide Walk, Plus, Distance;
    var d := Distance(a, b);
    DistanceIs(a, b);
    if 1 <= d <= 128 {
      PlusIs(a, d);
      WalkAt(a, d, 512 * (d - 1) + 2 * a);
    } else {
      var x := Plus(b, 255);
      var e: nat := (Distance(x, a) + 255) % 256 + 1;
      BackFrom(a, b, x, e);
      WalkAt(x, e, Index(a, b) - 1);
    }
  }

  lemma BackFrom(a: byte, b: byte, x: byte, e: nat)
    requires !(1 <= Distance(a, b) <= 128) && x == Plus(b, 255) && e == (Distance(x, a) + 255) % 256 + 1
    ensures 1 <= e <= 128 && Plus(x, e) == a && Plus(x, 1) == b
  {
    hide Plus, Distance;
    PlusIs(b, 255);
    DistanceIs(a, b);
    DistanceIs(x, a);
    PlusIs(x, 1);
    PlusIs(x, e);
  }

  lemma PlusIs(a: byte, d: nat)
    requires d <= 256
    ensures Plus(a, d) == if a + d < 256 then a + d else a + d - 256
  {
  }

  lemma DistanceIs(a: byte, b: byte)
    ensures Distance(a, b) == if a <= b then b - a else b - a + 256
  {
  }

  /** Pairs of far bytes follow late in the walk. */
  lemma FarPair(a: byte, d: nat, m: nat)
    requires 1 <= m <= 127 && 129 - m <= d <= 128 + m
    ensures Distance(a, Plus(a, d)) == d && 512 * (128 - m) <= Index(a, Plus(a, d)) < ALL
  {
    hide Plus, Distance, Index;
    DistanceOf(a, d);
    if d <= 128 {
      StepAway(a, d);
    } else {
      var x := Plus(a, d - 1);
      WholeTurn(a, 0);
      Around(a, d - 1, 257 - d);
      Around(a, d - 1, 1);
      StepBack(x, 257 - d);
    }
  }

  /** Pairs of near bytes follow early. */
  lemma NearPair(a: byte, d: nat, m: nat)
    requires m < 128 && d <= 128 - m
    ensures Distance(a, Plus(a, d)) == d && Index(a, Plus(a, d)) < 512 * (128 - m)
  {
    hide Plus, Distance, Index;
    DistanceOf(a, d);
    if d > 0 {
      StepAway(a, d);
    } else {
      Around(a, 255, 1);
      WholeTurn(a, 0);
      StepBack(Plus(a, 255), 1);
    }
  }

  // ---- The chunk ----------------------------------------------------------------------------

  /** With a parameter m: the pairs of the walk in front of the loops, the loops, and the bytes of both with the
      rest of the walk. */
  function Front(m: nat): int { 65536 - 512 * m }

  function Loops(m: nat): int { 512 * m - 256 }

  function Lead(m: nat): int { 65024 + 1024 * m }

  predicate Size(m: nat, n: nat) {
    1 <= m <= 43 && Lead(m) + 2 <= n <= Lead(m) + 262144 * m
  }

  /** The second byte of loop u, whose first is u % 256. */
  function LoopEnd(u: nat): byte {
    Plus(u % 256, u / 256)
  }

  /** The distance of the late pair j. */
  function Far(m: nat, j: nat): int {
    129 - m + j / ALL
  }

  function LateEnd(m: nat, j: nat): byte
    requires m <= 43
  {
    Plus(Walk(j % ALL), Far(m, j))
  }

  function Letter(m: nat, i: nat): byte
    requires 1 <= m <= 43
  {
    var u, j := (i - Front(m)) / 2, (i - Lead(m)) / 2;
    if i < Front(m) then Walk(i)
    else if i < Front(m) + 2 * Loops(m) then if i % 2 == 0 then u % 256 else LoopEnd(u)
    else if i < Lead(m) then Walk(i - 2 * Loops(m))
    else if i % 2 == 0 then Walk(j % ALL) else LateEnd(m, j)
  }

  ghost function Chunk(m: nat, n: nat): (s: seq<byte>)
    requires 1 <= m <= 43
    ensures |s| == n
  {
    seq(n, i requires 0 <= i < n => Letter(m, i))
  }

  /** Where the loops begin the walk is at byte 0. */
  lemma WalkAtFront(m: nat)
    requires 1 <= m <= 43
    ensures Front(m) % 512 == 0 && Walk(Front(m)) == 0
  {
    assert Front(m) == 512 * (128 - m);
  }

  lemma FrontLetter(m: nat, i: nat)
    requires 1 <= m <= 43 && i <= Front(m)
    ensures Letter(m, i) == Walk(i)
  {
    hide Walk, LoopEnd, LateEnd;
    WalkAtFront(m);
  }

  lemma LoopLetters(m: nat, u: nat, i: nat)
    requires 1 <= m <= 43 && u < Loops(m) && i == Front(m) + 2 * u
    ensures Letter(m, i) == u % 256 && Letter(m, i + 1) == LoopEnd(u) && Letter(m, i + 2) == Plus(u % 256, 1)
  {
    hide LoopEnd, LateEnd, Walk;
    WalkAtFront(m);
    NextLoop(u);
    assert i % 2 == 0 && (i - Front(m)) / 2 == u && (i + 1 - Front(m)) / 2 == u && (i + 2 - Front(m)) / 2 == u + 1;
    if u + 1 == Loops(m) {
      assert Loops(m) == 256 * (2 * m - 1);
      assert i + 2 - 2 * Loops(m) == Front(m);
    }
  }

  lemma NextLoop(u: nat)
    ensures (u + 1) % 256 == Plus(u % 256, 1)
  {
  }

  lemma RestLetters(m: nat, p: nat, i: nat)
    requires 1 <= m <= 43 && Front(m) <= p < ALL && i == p + 2 * Loops(m)
    ensures Letter(m, i) == Walk(p) && Letter(m, i + 1) == Walk(p + 1)
  {
    hide Walk, LoopEnd, LateEnd;
    WalkCloses(ALL - 1);
  }

  lemma LateLetters(m: nat, j: nat, i: nat)
    requires 1 <= m <= 43 && i == Lead(m) + 2 * j
    ensures Letter(m, i) == Walk(j % ALL) && Letter(m, i + 1) == LateEnd(m, j) && Letter(m, i + 2) == Walk(j % ALL + 1)
  {
    hide LateEnd, Walk;
    assert i % 2 == 0 && (i - Lead(m)) / 2 == j && (i + 1 - Lead(m)) / 2 == j && (i + 2 - Lead(m)) / 2 == j + 1;
    WalkCloses(j);
  }

  lemma WalkCloses(j: nat)
    ensures Walk((j + 1) % ALL) == Walk(j % ALL + 1)
  {
    if j % ALL == ALL - 1 {
      assert (j + 1) % ALL == 0;
    } else {
      assert (j + 1) % ALL == j % ALL + 1;
    }
  }

  // ---- Its parse ----------------------------------------------------------------------------

  /** The pairs of the walk, the loops and the late phrases, the last of which may be a single byte. */
  function Phrases(m: nat, n: nat): int {
    ALL + Loops(m) + (n - Lead(m) + 1) / 2
  }

  function Start(m: nat, k: nat): int {
    if k < Front(m) then k
    else if k < Front(m) + Loops(m) then Front(m) + 2 * (k - Front(m))
    else if k < ALL + Loops(m) then k + Loops(m)
    else Lead(m) + 2 * (k - ALL - Loops(m))
  }

  function Clipped(m: nat, n: nat, k: nat): nat
    requires 1 <= m <= 43
  {
    if Start(m, k) < n then Start(m, k) else n
  }

  ghost function Starts(m: nat, n: nat): (s: seq<nat>)
    requires Size(m, n)
    ensures |s| == Phrases(m, n) + 1
  {
    seq(Phrases(m, n) + 1, k requires 0 <= k => Clipped(m, n, k))
  }

  /** A loop names the pair seen in the walk, a late pair likewise; other phrases are single bytes. */
  ghost function CodeAt(m: nat, n: nat, k: nat): nat
    requires Size(m, n)
  {
    var u, j := k - Front(m), k - ALL - Loops(m);
    if k < Front(m) then Walk(k)
    else if k < Front(m) + Loops(m) then 256 + Index(u % 256, LoopEnd(u))
    else if k < ALL + Loops(m) then Walk(k - Loops(m))
    else if Start(m, k) + 1 < n then 256 + Loops(m) + Index(Walk(j % ALL), LateEnd(m, j))
    else Walk(j % ALL)
  }

  ghost function Codes(m: nat, n: nat): (s: seq<nat>)
    requires Size(m, n)
    ensures |s| == Phrases(m, n)
  {
    seq(Phrases(m, n), k requires 0 <= k => CodeAt(m, n, k))
  }

  lemma StartsIncrease(m: nat, i: nat, j: nat)
    requires 1 <= m <= 43 && i < j
    ensures Start(m, i) < Start(m, j)
  {
  }

  lemma FirstLast(m: nat, n: nat, k: nat)
    requires Size(m, n) && k < Phrases(m, n)
    ensures Start(m, 0) == 0 && Start(m, k) < n <= Start(m, Phrases(m, n))
  {
  }

  lemma ChunkBoundaries(m: nat, n: nat)
    requires Size(m, n)
    ensures Boundaries(Chunk(m, n), Starts(m, n)) && Starts(m, n)[Phrases(m, n)] == n
  {
    hide Start, Letter;
    FirstLast(m, n, 0);
    forall i, j | 0 <= i < j < |Starts(m, n)|
      ensures Starts(m, n)[i] < Starts(m, n)[j]
    {
      FirstLast(m, n, i);
      StartsIncrease(m, i, j);
    }
  }

  lemma Slice1(m: nat, n: nat, i: nat)
    requires 1 <= m <= 43 && i < n
    ensures Chunk(m, n)[i..i + 1] == [Letter(m, i)]
  {
    hide Letter;
  }

  lemma Slice2(m: nat, n: nat, i: nat)
    requires 1 <= m <= 43 && i + 1 < n
    ensures Chunk(m, n)[i..i + 2] == [Letter(m, i), Letter(m, i + 1)]
  {
    hide Letter;
  }

  lemma Slice3(m: nat, n: nat, i: nat)
    requires 1 <= m <= 43 && i + 2 < n
    ensures Chunk(m, n)[i..i + 3] == [Letter(m, i), Letter(m, i + 1), Letter(m, i + 2)]
  {
    hide Letter;
  }

  /** What tells the entries apart: the place of the pair in the walk, or the distance of the first two bytes and the
      first one, or the distance and the place of the pair around the middle byte. */
  ghost function Key(m: nat, e: seq<byte>): int
    requires |e| == 2 || |e| == 3
  {
    if |e| == 2 then PairKey(m, Index(e[0], e[1]))
    else if 129 - m <= Distance(e[0], e[1]) <= 128 + m then
      ALL + Loops(m) + ALL * (Distance(e[0], e[1]) - (129 - m)) + Index(e[0], e[2])
    else Front(m) + 256 * Distance(e[0], e[1]) + e[0]
  }

  /** The phrase at place p of the walk. */
  function PairKey(m: nat, p: nat): int {
    if p < Front(m) then p else p + Loops(m)
  }

  /** Phrase k with its next byte. */
  ghost function EntryOf(m: nat, n: nat, k: nat): seq<byte>
    requires 1 <= m <= 43 && 0 <= Start(m, k) <= Start(m, k + 1) < n
  {
    Chunk(m, n)[Start(m, k)..Start(m, k + 1) + 1]
  }

  /** The entry at place p of the walk. */
  lemma PairEntry(m: nat, n: nat, p: nat, k: nat)
    requires Size(m, n) && p < ALL && k == PairKey(m, p) && k < Phrases(m, n)
    ensures 0 <= Start(m, k) && Start(m, k + 1) == Start(m, k) + 1 < n
    ensures EntryOf(m, n, k) == [Walk(p), Walk(p + 1)]
  {
    hide Walk, Chunk, Letter;
    var i: nat := Start(m, k);
    if p < Front(m) {
      FrontLetter(m, p);
      FrontLetter(m, p + 1);
    } else {
      RestLetters(m, p, i);
    }
    Slice2(m, n, i);
  }

  lemma PairEntryKey(m: nat, n: nat, p: nat, k: nat)
    requires Size(m, n) && p < ALL && k == PairKey(m, p) && k < Phrases(m, n)
    requires 0 <= Start(m, k) <= Start(m, k + 1) < n
    ensures Key(m, [Walk(p), Walk(p + 1)]) == k
  {
    hide Walk, Index, Start;
    WalkPairs(p);
  }

  lemma LoopEntry(m: nat, n: nat, u: nat, k: nat)
    requires Size(m, n) && u < Loops(m) && k == Front(m) + u
    ensures Start(m, k) == Front(m) + 2 * u && Start(m, k + 1) == Start(m, k) + 2 < n
    ensures EntryOf(m, n, k) == [u % 256, LoopEnd(u), Plus(u % 256, 1)]
  {
    hide Chunk, Letter, LoopEnd, Plus;
    LoopLetters(m, u, Front(m) + 2 * u);
    Slice3(m, n, Front(m) + 2 * u);
  }

  lemma LoopEntryKey(m: nat, u: nat)
    requires 1 <= m <= 43 && u < Loops(m)
    ensures Key(m, [u % 256, LoopEnd(u), Plus(u % 256, 1)]) == Front(m) + u
  {
    hide Index, Plus, Distance;
    LoopDistance(m, u);
    NearPair(u % 256, u / 256, m);
  }

  lemma LoopDistance(m: nat, u: nat)
    requires 1 <= m <= 43 && u < Loops(m)
    ensures u / 256 <= 2 * m - 2 <= 128 - m && u == 256 * (u / 256) + u % 256
  {
  }

  lemma LateEntry(m: nat, n: nat, j: nat, k: nat)
    requires Size(m, n) && k == ALL + Loops(m) + j && Lead(m) + 2 * j + 2 < n
    ensures Start(m, k) == Lead(m) + 2 * j && Start(m, k + 1) == Start(m, k) + 2 < n
    ensures EntryOf(m, n, k) == [Walk(j % ALL), LateEnd(m, j), Walk(j % ALL + 1)]
  {
    hide Chunk, Letter, Walk, LateEnd;
    LateLetters(m, j, Lead(m) + 2 * j);
    Slice3(m, n, Lead(m) + 2 * j);
  }

  lemma LateDistance(m: nat, n: nat, j: nat)
    requires Size(m, n) && Lead(m) + 2 * j < n
    ensures 129 - m <= Far(m, j) <= 128 + m && j == ALL * (Far(m, j) - (129 - m)) + j % ALL
  {
  }

  lemma LateEntryKey(m: nat, n: nat, j: nat)
    requires Size(m, n) && Lead(m) + 2 * j < n
    ensures Key(m, [Walk(j % ALL), LateEnd(m, j), Walk(j % ALL + 1)]) == ALL + Loops(m) + j
  {
    hide Index, Plus, Distance, Walk, Far;
    LateDistance(m, n, j);
    FarPair(Walk(j % ALL), Far(m, j), m);
    WalkPairs(j % ALL);
  }

  /** The chunk never makes an entry twice: each tells its number. */
  lemma EntryKey(m: nat, n: nat, k: nat)
    requires Size(m, n) && k < Phrases(m, n) && Start(m, k + 1) < n
    ensures 0 <= Start(m, k) < Start(m, k + 1) && |EntryOf(m, n, k)| in {2, 3} && Key(m, EntryOf(m, n, k)) == k
  {
    hide Chunk, Letter, Key, Walk, LoopEnd, LateEnd, Plus;
    if k < Front(m) {
      PairEntry(m, n, k, k);
      PairEntryKey(m, n, k, k);
    } else if k < Front(m) + Loops(m) {
      LoopEntry(m, n, k - Front(m), k);
      LoopEntryKey(m, k - Front(m));
    } else if k < ALL + Loops(m) {
      PairEntry(m, n, k - Loops(m), k);
      PairEntryKey(m, n, k - Loops(m), k);
    } else {
      var j := k - ALL - Loops(m);
      LateEntry(m, n, j, k);
      LateEntryKey(m, n, j);
    }
  }

  lemma EntryTextOf(m: nat, n: nat, k: nat)
    requires Size(m, n) && k < Phrases(m, n) && 0 <= Start(m, k) < Start(m, k + 1) < n
    ensures EntryText(Chunk(m, n), Starts(m, n), k) == EntryOf(m, n, k)
  {
    hide Letter, Start, Phrases;
  }

  lemma ChunkGreedy(m: nat, n: nat)
    requires Size(m, n) && Boundaries(Chunk(m, n), Starts(m, n))
    ensures Greedy(Chunk(m, n), Starts(m, n))
  {
    hide Key, Start, Letter, Phrases;
    forall j, k | 0 <= j < k < |Starts(m, n)| - 1 && Starts(m, n)[k + 1] < |Chunk(m, n)|
      ensures EntryText(Chunk(m, n), Starts(m, n), j) != EntryText(Chunk(m, n), Starts(m, n), k)
    {
      StartsIncrease(m, j + 1, k + 1);
      EntryKey(m, n, j);
      EntryKey(m, n, k);
      EntryTextOf(m, n, j);
      EntryTextOf(m, n, k);
    }
  }

  /** The code of one byte names it, the code of an entry made before names its text. */
  lemma NamesByte(m: nat, n: nat, k: nat, b: byte)
    requires Size(m, n) && k < Phrases(m, n) && Boundaries(Chunk(m, n), Starts(m, n))
    requires 0 <= Start(m, k) < n && Clipped(m, n, k + 1) == Start(m, k) + 1 && Letter(m, Start(m, k)) == b
    ensures NamesPhrase(Chunk(m, n), Starts(m, n), b, k)
  {
    hide Letter, Start, Phrases, Boundaries, Chunk;
    Slice1(m, n, Start(m, k));
  }

  lemma NamesPair(m: nat, n: nat, k: nat, a: byte, b: byte, e: nat)
    requires Size(m, n) && k < Phrases(m, n) && Boundaries(Chunk(m, n), Starts(m, n))
    requires 0 <= Start(m, k) && Clipped(m, n, k + 1) == Start(m, k) + 2 <= n
    requires Letter(m, Start(m, k)) == a && Letter(m, Start(m, k) + 1) == b
    requires e < k && 0 <= Start(m, e) < Start(m, e + 1) < n && EntryOf(m, n, e) == [a, b]
    ensures NamesPhrase(Chunk(m, n), Starts(m, n), 256 + e, k)
  {
    hide Letter, Start, Phrases, Boundaries, Chunk, EntryOf;
    EntryTextOf(m, n, e);
    Slice2(m, n, Start(m, k));
  }

  /** Where the pair of loop u was seen. */
  lemma LoopPlace(m: nat, u: nat)
    requires 1 <= m <= 43 && u < Loops(m)
    ensures var p := Index(u % 256, LoopEnd(u)); p < Front(m) && Walk(p) == u % 256 && Walk(p + 1) == LoopEnd(u)
  {
    hide Index, Plus, Walk;
    LoopDistance(m, u);
    NearPair(u % 256, u / 256, m);
    PlaceOf(u % 256, LoopEnd(u));
  }

  lemma LoopNames(m: nat, n: nat, u: nat, k: nat)
    requires Size(m, n) && u < Loops(m) && k == Front(m) + u && Boundaries(Chunk(m, n), Starts(m, n))
    ensures NamesPhrase(Chunk(m, n), Starts(m, n), 256 + Index(u % 256, LoopEnd(u)), k)
  {
    hide Chunk, Letter, Walk, Index, Plus, LoopEnd, EntryOf, Boundaries, NamesPhrase, Starts;
    var a, p := u % 256, Index(u % 256, LoopEnd(u));
    LoopPlace(m, u);
    LoopLetters(m, u, Front(m) + 2 * u);
    LoopEntry(m, n, u, k);
    PairEntry(m, n, p, p);
    NamesPair(m, n, k, a, LoopEnd(u), p);
  }

  /** Where the late pair was seen. */
  lemma LatePlace(m: nat, n: nat, j: nat)
    requires Size(m, n) && Lead(m) + 2 * j < n
    ensures var p := Index(Walk(j % ALL), LateEnd(m, j));
      Front(m) <= p < ALL && Walk(p) == Walk(j % ALL) && Walk(p + 1) == LateEnd(m, j)
  {
    hide Index, Plus, Walk, Far;
    LateDistance(m, n, j);
    FarPair(Walk(j % ALL), Far(m, j), m);
    PlaceOf(Walk(j % ALL), LateEnd(m, j));
  }

  lemma LateNames(m: nat, n: nat, j: nat, k: nat)
    requires Size(m, n) && k == ALL + Loops(m) + j && Lead(m) + 2 * j + 1 < n
    requires Boundaries(Chunk(m, n), Starts(m, n))
    ensures var p := Index(Walk(j % ALL), LateEnd(m, j));
      Front(m) <= p < ALL && NamesPhrase(Chunk(m, n), Starts(m, n), 256 + Loops(m) + p, k)
  {
    hide Chunk, Letter, Walk, Index, Plus, LateEnd, EntryOf, Boundaries, NamesPhrase, Starts;
    var a, b := Walk(j % ALL), LateEnd(m, j);
    var p := Index(a, b);
    LatePlace(m, n, j);
    LateLetters(m, j, Lead(m) + 2 * j);
    PairEntry(m, n, p, p + Loops(m));
    NamesPair(m, n, k, a, b, p + Loops(m));
  }

  lemma PhraseNames(m: nat, n: nat, k: nat)
    requires Size(m, n) && k < Phrases(m, n) && Boundaries(Chunk(m, n), Starts(m, n))
    ensures NamesPhrase(Chunk(m, n), Starts(m, n), CodeAt(m, n, k), k)
  {
    hide Chunk, Letter, Walk, Index, LoopEnd, LateEnd, EntryOf, Boundaries, NamesPhrase;
    if k < Front(m) {
      FrontLetter(m, k);
      NamesByte(m, n, k, Walk(k));
    } else if k < Front(m) + Loops(m) {
      LoopNames(m, n, k - Front(m), k);
    } else if k < ALL + Loops(m) {
      var p := k - Loops(m);
      RestLetters(m, p, p + 2 * Loops(m));
      NamesByte(m, n, k, Walk(p));
    } else {
      var j := k - ALL - Loops(m);
      if Start(m, k) + 1 < n {
        LateNames(m, n, j, k);
      } else {
        LateLetters(m, j, Lead(m) + 2 * j);
        NamesByte(m, n, k, Walk(j % ALL));
      }
    }
  }

  /** Its greedy parse. */
  lemma ChunkComplete(m: nat, n: nat)
    requires Size(m, n)
    ensures Complete(Chunk(m, n), Starts(m, n), Codes(m, n))
  {
    hide Chunk, Starts, CodeAt, NamesPhrase, Boundaries, Greedy;
    ChunkBoundaries(m, n);
    ChunkGreedy(m, n);
    forall k | 0 <= k < Phrases(m, n)
      ensures NamesPhrase(Chunk(m, n), Starts(m, n), Codes(m, n)[k], k)
    {
      PhraseNames(m, n, k);
    }
  }

  // ---- Its size ---------------------------------------------------------------------------

  /** The bits in front of phrase k: nine for a byte, 18 for a loop, 27 for a late pair. */
  ghost function Cost(m: nat, n: nat, k: nat): int
    requires Size(m, n)
  {
    var late := Clipped(m, n, k) - Lead(m);
    if k < Front(m) then 9 * k
    else if k < Front(m) + Loops(m) then 9 * Front(m) + 18 * (k - Front(m))
    else if k < ALL + Loops(m) then 9 * k + 9 * Loops(m)
    else 9 * ALL + 18 * Loops(m) + 27 * (late / 2) + 9 * (late % 2)
  }

  lemma ShortCode(code: nat, n: nat)
    requires n == if code < 256 then 9 else if code < 0x1_0000 then 18 else 27
    requires code < 0x100_0000
    ensures |CodeBits(code)| == n
  {
  }

  lemma CodeSize(m: nat, n: nat, k: nat)
    requires Size(m, n) && k < Phrases(m, n)
    ensures |CodeBits(CodeAt(m, n, k))| == Cost(m, n, k + 1) - Cost(m, n, k)
  {
    hide CodeBits, Walk, Index, LoopEnd, LateEnd;
    var u, j := k - Front(m), k - ALL - Loops(m);
    if k < Front(m) {
      ShortCode(CodeAt(m, n, k), 9);
    } else if k < Front(m) + Loops(m) {
      LoopPlace(m, u);
      ShortCode(CodeAt(m, n, k), 18);
    } else if k < ALL + Loops(m) {
      ShortCode(CodeAt(m, n, k), 9);
    } else if Start(m, k) + 1 < n {
      LatePlace(m, n, j);
      ShortCode(CodeAt(m, n, k), 27);
    } else {
      ShortCode(CodeAt(m, n, k), 9);
    }
  }

  /** The bits of every part of the parse. */
  lemma {:induction false} CodesSize(m: nat, n: nat, k: nat)
    requires Size(m, n) && k <= Phrases(m, n)
    ensures |CodesBits(Codes(m, n)[..k])| == Cost(m, n, k)
  {
    hide CodeBits, CodeAt, Phrases, Clipped;
    var codes := Codes(m, n);
    if k > 0 {
      CodesSize(m, n, k - 1);
      CodeSize(m, n, k - 1);
      assert codes[..k] == codes[..k - 1] + [codes[k - 1]];
      CodesSnoc(codes[..k - 1], codes[k - 1]);
    }
  }

  /** However the chunk is compressed, its codes take more than the estimated bytes. */
  ghost predicate Overflows(chunk: seq<byte>) {
    && (exists starts, codes :: Complete(chunk, starts, codes))
    && forall starts, codes :: Complete(chunk, starts, codes) ==>
         |CodesBits(codes)| > 8 * EstimateMaxCompressedSize(|chunk|)
  }

  lemma ChunkOverflows(m: nat, n: nat)
    requires Size(m, n) && Cost(m, n, Phrases(m, n)) > 8 * EstimateMaxCompressedSize(n)
    ensures Overflows(Chunk(m, n))
  {
    hide Complete, Chunk, CodesBits, Starts, Codes, Cost, Phrases;
    ChunkComplete(m, n);
    CodesSize(m, n, Phrases(m, n));
    assert Codes(m, n)[..Phrases(m, n)] == Codes(m, n);
    forall starts, codes | Complete(Chunk(m, n), starts, codes)
      ensures |CodesBits(codes)| > 8 * EstimateMaxCompressedSize(|Chunk(m, n)|)
    {
      UniqueParse(Chunk(m, n), starts, codes, Starts(m, n), Codes(m, n));
    }
  }

  /** The parameter for a chunk of that size. */
  function Part(size: nat): int {
    1 + (size - 66048) / 262144
  }

  lemma PartFits(size: nat)
    requires 84920 <= size < 11338240
    ensures Part(size) > 0 && Size(Part(size), size)
    ensures var m := Part(size); Cost(m, size, Phrases(m, size)) > 8 * EstimateMaxCompressedSize(size)
  {
  }

  /** Every size from 84920 to more than 10 MiB has a chunk the estimate is too small for. */
  lemma EstimateFails(size: nat)
    requires 84920 <= size < 11338240
    ensures exists chunk: seq<byte> :: |chunk| == size && Overflows(chunk)
  {
    hide Overflows, Chunk, Cost, Size, Part;
    PartFits(size);
    ChunkOverflows(Part(size), size);
    assert |Chunk(Part(size), size)| == size;
  }
}
