/** What the search for matches is good for: how long the match of a turn is at least, what its tokens cost, and what
    chunks that repeat themselves or the window carried over are compressed to. */
module Lz77Matches {
  import opened Numerals
  import opened BitStream
  import opened BitFields
  import opened Lz77

  // ---- The format of a reference --------------------------------------------------------------

  /** The format k has room for the distance and the size. */
  ghost predicate Room(dist: nat, size: nat, k: nat) {
    k < 4 && Field(dist, DistWidth(k)) && Field(size, SizeWidth(k))
  }

  /** The format chosen is the cheapest with room, and the only one that costs as little. */
  lemma KindCheapest(dist: nat, size: nat, k: nat)
    requires dist < CODE_LIMIT && size < CODE_LIMIT && Room(dist, size, k)
    ensures Room(dist, size, Kind(dist, size)) && Cost(Kind(dist, size)) <= Cost(k)
    ensures Cost(k) == Cost(Kind(dist, size)) ==> k == Kind(dist, size)
  {
  }

  /** Shorter distances cost no more. */
  lemma CostMonotone(dist: nat, far: nat, size: nat)
    requires dist <= far
    ensures Cost(Kind(dist, size)) <= Cost(Kind(far, size)) <= 67
  {
  }

  // ---- How long a match is --------------------------------------------------------------------

  lemma SameLatest(text: seq<byte>, initWinSize: nat, window: nat, at: nat, f: nat, g: nat)
    requires Latest(text, initWinSize, window, at, f) && Latest(text, initWinSize, window, at, g)
    ensures f == g
  {
  }

  /** Where some position of the window agrees there is a latest one. */
  lemma {:induction false} LatestFrom(text: seq<byte>, initWinSize: nat, window: nat, at: nat, p: nat) returns (f: nat)
    requires Due(text, initWinSize, window, at, p) && SameText(text, p, at, MIN_DUPLICATE_SIZE)
    ensures p <= f && Latest(text, initWinSize, window, at, f)
    decreases at - p
  {
    hide SameText;
    if q: nat :| p < q && Due(text, initWinSize, window, at, q) && SameText(text, q, at, MIN_DUPLICATE_SIZE) {
      f := LatestFrom(text, initWinSize, window, at, q);
    } else {
      f := p;
    }
  }

  /** A turn covers at least what the text at any searched position agrees in. */
  lemma TurnCovers(s: Search, text: seq<byte>, initWinSize: nat, at: nat, to: nat, step: seq<Token>, f: nat, p: nat,
    n: nat)
    requires Turn(s, text, initWinSize, at, to, step)
    requires Latest(text, initWinSize, WindowStart(at, s.windowSize), at, f)
    requires Searched(s, text, initWinSize, at, f, p) && SameText(text, p, at, n)
    ensures at + n <= to && exists data :: TakesMatch(s, text, initWinSize, at, to, data, step)
  {
    hide Searched, SameText;
    assert !NoneAgrees(text, initWinSize, WindowStart(at, s.windowSize), at);
    var data :| TakesMatch(s, text, initWinSize, at, to, data, step);
    var g :| BestFrom(s, text, initWinSize, at, g, data, to - at);
    SameLatest(text, initWinSize, WindowStart(at, s.windowSize), at, f, g);
    AgreesLonger(text, p, at, to - at, n);
  }

  lemma AgreesLonger(text: seq<byte>, p: nat, at: nat, size: nat, n: nat)
    requires SameText(text, p, at, n)
    ensures size < n ==> Beats(text, p, at, |text|, size)
  {
    if size < n {
      SameShorter(text, p, at, size + 1, n);
    }
  }

  /** The latest position that agrees is always searched. */
  lemma LatestSearched(s: Search, text: seq<byte>, initWinSize: nat, at: nat, f: nat)
    requires s.bucketCount > 0 && Latest(text, initWinSize, WindowStart(at, s.windowSize), at, f)
    ensures Searched(s, text, initWinSize, at, f, f)
  {
    assert Between(s, text, initWinSize, at, f, f) == {};
  }

  /** So a turn covers at least what the text there agrees in, whatever the hash. */
  lemma LatestCovered(s: Search, text: seq<byte>, initWinSize: nat, at: nat, to: nat, step: seq<Token>, f: nat, n: nat)
    requires s.bucketCount > 0 && Turn(s, text, initWinSize, at, to, step)
    requires Latest(text, initWinSize, WindowStart(at, s.windowSize), at, f) && SameText(text, f, at, n)
    ensures at + n <= to
  {
    LatestSearched(s, text, initWinSize, at, f);
    TurnCovers(s, text, initWinSize, at, to, step, f, f, n);
  }

  /** Searched from further on is searched from nearer by. */
  lemma SearchedNearer(s: Search, text: seq<byte>, initWinSize: nat, at: nat, g: nat, f: nat, p: nat)
    requires Searched(s, text, initWinSize, at, g, p) && p <= f <= g
    ensures Searched(s, text, initWinSize, at, f, p)
  {
    hide Listed;
    var near, all := Between(s, text, initWinSize, at, p, f), Between(s, text, initWinSize, at, p, g);
    assert near <= all;
    SubsetSize(near, all);
  }

  lemma {:induction false} SubsetSize(a: set<nat>, b: set<nat>)
    requires a <= b
    ensures |a| <= |b|
  {
    if a != {} {
      var x :| x in a;
      SubsetSize(a - {x}, b - {x});
    }
  }

  /** What a turn costs: nine bits for a literal, else what is less of nine bits a byte and the reference. */
  lemma TurnCost(s: Search, text: seq<byte>, initWinSize: nat, at: nat, to: nat, step: seq<Token>)
    requires Turn(s, text, initWinSize, at, to, step)
    ensures NoneAgrees(text, initWinSize, WindowStart(at, s.windowSize), at) ==> to == at + 1 && |TokensBits(step)| == 9
    ensures !NoneAgrees(text, initWinSize, WindowStart(at, s.windowSize), at) ==>
      exists data :: TakesMatch(s, text, initWinSize, at, to, data, step)
        && |TokensBits(step)| == Min(9 * (to - at), Cost(Kind(at - data, to - at)))
  {
    hide NoneAgrees, BestMatch, Kind, Written, TokenBits;
    if NoneAgrees(text, initWinSize, WindowStart(at, s.windowSize), at) {
      OneToken(step[0]);
      TokenCost(step[0]);
    } else {
      var data :| TakesMatch(s, text, initWinSize, at, to, data, step);
      WrittenCost(text, at, at - data, to - at);
    }
  }

  // ---- A chunk of equal bytes -----------------------------------------------------------------

  ghost predicate AllEqual(text: seq<byte>, b: byte) {
    forall i :: 0 <= i < |text| ==> text[i] == b
  }

  lemma EqualSame(text: seq<byte>, b: byte, p: nat, q: nat, n: nat)
    requires AllEqual(text, b) && p + n <= |text| && q + n <= |text|
    ensures SameText(text, p, q, n)
  {
  }

  /** The first four bytes are literals, then one match goes to the end. */
  lemma EqualTurn(s: Search, text: seq<byte>, b: byte, at: nat, to: nat, step: seq<Token>)
    requires s.bucketCount > 0 && s.windowSize >= MIN_DUPLICATE_SIZE && |text| >= 8 && AllEqual(text, b) && at <= 4
    requires Turn(s, text, 0, at, to, step)
    ensures if at < 4 then to == at + 1 && |TokensBits(step)| == 9
      else to == |text| && |TokensBits(step)| == Min(9 * (|text| - 4), Cost(Kind(4, |text| - 4)))
  {
    hide Kind, TokensBits, Turn;
    TurnCost(s, text, 0, at, to, step);
    if at < 4 {
      assert NoneAgrees(text, 0, WindowStart(at, s.windowSize), at);
    } else {
      EqualSame(text, b, 0, at, MIN_DUPLICATE_SIZE);
      assert Due(text, 0, WindowStart(at, s.windowSize), at, 0);
      assert !NoneAgrees(text, 0, WindowStart(at, s.windowSize), at);
      var data :| TakesMatch(s, text, 0, at, to, data, step)
        && |TokensBits(step)| == Min(9 * (to - at), Cost(Kind(at - data, to - at)));
      EqualBest(s, text, b, at, data, to - at);
    }
  }

  lemma EqualBest(s: Search, text: seq<byte>, b: byte, at: nat, data: nat, size: nat)
    requires AllEqual(text, b) && at == 4 && BestMatch(s, text, 0, at, data, size)
    ensures data == 0 && at + size == |text|
  {
    hide Between, Wins, Latest, Beats;
    EqualBeats(text, b, data, at, size);
  }

  lemma EqualBeats(text: seq<byte>, b: byte, p: nat, at: nat, size: nat)
    requires AllEqual(text, b) && p < at
    ensures at + size < |text| ==> Beats(text, p, at, |text|, size)
  {
    if at + size < |text| {
      EqualSame(text, b, p, at, size + 1);
    }
  }

  /** So a chunk of n equal bytes takes 36 bits and one reference. */
  lemma {:induction false} EqualBytes(s: Search, text: seq<byte>, b: byte, ts: seq<Token>, end: nat)
    requires s.bucketCount > 0 && s.windowSize >= MIN_DUPLICATE_SIZE && |text| >= 8 && AllEqual(text, b)
    requires Turns(s, text, 0, ts, 0, end)
    ensures if end <= 4 then |TokensBits(ts)| == 9 * end
      else end == |text| && |TokensBits(ts)| == 36 + Min(9 * (|text| - 4), Cost(Kind(4, |text| - 4)))
    decreases end
  {
    hide Turn, Kind, TokenBits, AllEqual;
    if end > 0 {
      var mid: nat, n: nat :| mid < end && n <= |ts|
        && Turn(s, text, 0, mid, end, ts[n..]) && Turns(s, text, 0, ts[..n], 0, mid);
      EqualBytes(s, text, b, ts[..n], mid);
      TurnOn(s, text, 0, mid, end, ts[n..]);
      EqualTurn(s, text, b, mid, end, ts[n..]);
      TokensConcat(ts[..n], ts[n..]);
      assert ts[..n] + ts[n..] == ts;
    }
  }

  // ---- A chunk that lies in the window --------------------------------------------------------

  /** The chunk is what the text has at p, in the window carried over, among the last 32 positions with its hash. */
  ghost predicate Repeats(s: Search, text: seq<byte>, initWinSize: nat, p: nat) {
    && MIN_DUPLICATE_SIZE <= |text| - initWinSize && p + (|text| - initWinSize) <= initWinSize <= s.windowSize
    && SameText(text, p, initWinSize, |text| - initWinSize)
    && Searched(s, text, initWinSize, initWinSize, initWinSize, p)
  }

  /** The tokens are those of a match that goes to the end. */
  ghost predicate ToTheEnd(text: seq<byte>, at: nat, dist: nat, ts: seq<Token>) {
    0 < dist <= at <= |text| && ts == Written(text, at, dist, |text| - at)
  }

  lemma RepeatLatest(s: Search, text: seq<byte>, at: nat, p: nat) returns (f: nat)
    requires Repeats(s, text, at, p)
    ensures Latest(text, at, WindowStart(at, s.windowSize), at, f) && Searched(s, text, at, at, f, p)
  {
    hide Latest, Between;
    SameShorter(text, p, at, MIN_DUPLICATE_SIZE, |text| - at);
    f := LatestFrom(text, at, WindowStart(at, s.windowSize), at, p);
    LatestBefore(text, at, WindowStart(at, s.windowSize), at, f);
    SearchedNearer(s, text, at, at, at, f, p);
  }

  lemma LatestBefore(text: seq<byte>, initWinSize: nat, window: nat, at: nat, f: nat)
    requires Latest(text, initWinSize, window, at, f)
    ensures f <= at
  {
  }

  lemma RepeatSame(s: Search, text: seq<byte>, at: nat, p: nat)
    requires Repeats(s, text, at, p)
    ensures at <= |text| && SameText(text, p, at, |text| - at)
  {
  }

  lemma RepeatTurn(s: Search, text: seq<byte>, at: nat, p: nat, to: nat, step: seq<Token>)
    requires Repeats(s, text, at, p) && Turn(s, text, at, at, to, step)
    ensures to == |text|
    ensures exists dist :: ToTheEnd(text, at, dist, step)
  {
    var f := RepeatLatest(s, text, at, p);
    var n := |text| - at;
    RepeatSame(s, text, at, p);
    hide Turn, Searched, Latest, BestMatch, SameText, Repeats, Written;
    TurnOn(s, text, at, at, to, step);
    TurnCovers(s, text, at, at, to, step, f, p, n);
    var data :| TakesMatch(s, text, at, at, to, data, step);
    assert ToTheEnd(text, at, at - data, step);
  }

  /** It becomes one reference, or literals if these are shorter. */
  lemma {:induction false} RepeatedChunk(s: Search, text: seq<byte>, at: nat, p: nat, ts: seq<Token>, end: nat)
    requires Repeats(s, text, at, p) && Turns(s, text, at, ts, at, end)
    ensures (end == at && ts == []) || (end == |text| && exists dist :: ToTheEnd(text, at, dist, ts))
    decreases end
  {
    hide Turn, Repeats, ToTheEnd;
    if end > at {
      var mid: nat, n: nat :| at <= mid < end && n <= |ts|
        && Turn(s, text, at, mid, end, ts[n..]) && Turns(s, text, at, ts[..n], at, mid);
      TurnOn(s, text, at, mid, end, ts[n..]);
      RepeatedChunk(s, text, at, p, ts[..n], mid);
      assert ts == ts[n..];
      RepeatTurn(s, text, at, p, end, ts);
    }
  }

  /** At most 67 bits, and 19 if window and chunk are below 256 bytes. */
  lemma RepeatedCost(s: Search, text: seq<byte>, at: nat, p: nat, ts: seq<Token>)
    requires Repeats(s, text, at, p) && Turns(s, text, at, ts, at, |text|)
    ensures |TokensBits(ts)| <= Cost(Kind(at, |text| - at)) <= 67
    ensures at < 256 ==> |TokensBits(ts)| <= 19
  {
    hide Turns, TokensBits, Written;
    RepeatedChunk(s, text, at, p, ts, |text|);
    var dist :| ToTheEnd(text, at, dist, ts);
    WrittenCost(text, at, dist, |text| - at);
    CostMonotone(dist, at, |text| - at);
  }
}
