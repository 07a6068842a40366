/** Matching many patterns at once: a trie with failure links, and the same automaton with every
    transition filled in. */
module AhoCorasick {
  newtype letter = x: int | 0 <= x < 128
  type word = seq<letter>
  type edges = map<letter, nat>

  const ROOT: nat := 0

  function Put(m: edges, c: letter, n: nat): edges { m[c := n] }

  // ---- Suffixes ---------------------------------------------------------------------------

  ghost predicate IsSuffix(v: word, t: word) {
    |v| <= |t| && t[|t| - |v|..] == v
  }

  /** The longest suffix of s that is among the words; the empty word always is. */
  ghost function Longest(ws: seq<word>, s: word): word {
    if s in ws || s == [] then s else Longest(ws, s[1..])
  }

  lemma {:induction false} LongestIs(ws: seq<word>, s: word)
    requires [] in ws
    ensures Longest(ws, s) in ws && IsSuffix(Longest(ws, s), s)
  {
    if s !in ws {
      LongestIs(ws, s[1..]);
    }
  }

  /** Any suffix among the words is a suffix of the longest one. */
  lemma {:induction false} LongestWins(ws: seq<word>, s: word, v: word)
    requires v in ws && IsSuffix(v, s)
    ensures IsSuffix(v, Longest(ws, s))
  {
    if s !in ws && s != [] {
      assert |v| < |s|;
      assert s[1..][|s| - 1 - |v|..] == s[|s| - |v|..];
      LongestWins(ws, s[1..], v);
    }
  }

  /** With every word its beginnings are among the words. */
  ghost predicate Closed(ws: seq<word>) {
    forall m {:trigger FrontIn(ws, m)} :: 0 <= m < |ws| ==> FrontIn(ws, m)
  }

  ghost predicate FrontIn(ws: seq<word>, m: nat)
    requires m < |ws|
  {
    ws[m] != [] ==> ws[m][..|ws[m]| - 1] in ws
  }

  /** After one more letter, the longest suffix depends on the longest suffix before only. */
  lemma {:induction false} LongestStep(ws: seq<word>, s: word, c: letter)
    requires Closed(ws) && [] in ws
    ensures Longest(ws, s + [c]) == Longest(ws, Longest(ws, s) + [c])
  {
    if s !in ws {
      Beginning(ws, s, c);
      assert (s + [c])[1..] == s[1..] + [c];
      LongestStep(ws, s[1..], c);
    }
  }

  lemma Beginning(ws: seq<word>, s: word, c: letter)
    requires Closed(ws) && s !in ws
    ensures s + [c] !in ws
  {
    forall m: nat | m < |ws|
      ensures ws[m] != s + [c]
    {
      assert FrontIn(ws, m) && (s + [c])[..|s|] == s;
    }
  }

  /** Where a word cannot be continued, its longest proper suffix among the words takes over. */
  lemma FailureStep(ws: seq<word>, s: word, c: letter)
    requires Closed(ws) && [] in ws && s + [c] !in ws && s != []
    ensures Longest(ws, s + [c]) == Longest(ws, Longest(ws, s[1..]) + [c])
  {
    assert (s + [c])[1..] == s[1..] + [c];
    LongestStep(ws, s[1..], c);
  }

  // ---- Occurrences ------------------------------------------------------------------------

  /** The start positions of pat in the first n letters of the text, in the order they end. */
  ghost function Occurrences(text: word, pat: word, n: nat): seq<nat>
    requires n <= |text|
  {
    if n == 0 then [] else Occurrences(text, pat, n - 1) + Ending(text, pat, n)
  }

  ghost function Ending(text: word, pat: word, n: nat): seq<nat>
    requires n <= |text|
  {
    if IsSuffix(pat, text[..n]) then [n - |pat|] else []
  }

  ghost predicate OccursAt(text: word, pat: word, i: nat) {
    i + |pat| <= |text| && text[i..i + |pat|] == pat
  }

  /** The list holds exactly the positions where the pattern occurs, in increasing order. */
  lemma {:induction false} OccurrencesExact(text: word, pat: word, n: nat)
    requires n <= |text| && pat != []
    ensures forall i: nat :: i in Occurrences(text, pat, n) <==> i + |pat| <= n && OccursAt(text, pat, i)
    ensures forall j, k :: 0 <= j < k < |Occurrences(text, pat, n)| ==> Occurrences(text, pat, n)[j] < Occurrences(text, pat, n)[k]
  {
    if n > 0 {
      OccurrencesExact(text, pat, n - 1);
      EndingExact(text, pat, n);
      var s, e := Occurrences(text, pat, n - 1), Ending(text, pat, n);
      hide Occurrences, OccursAt, Ending;
      assert Occurrences(text, pat, n) == s + e by { OccurrencesSnoc(text, pat, n); }
      forall i: nat
        ensures i in Occurrences(text, pat, n) <==> i + |pat| <= n && OccursAt(text, pat, i)
      {
        assert i in s + e <==> i in s || i in e;
      }
      forall j, k | 0 <= j < k < |s + e|
        ensures (s + e)[j] < (s + e)[k]
      {
        if k >= |s| {
          assert (s + e)[k] in e;
          if j < |s| {
            assert s[j] in s;
          }
        }
      }
    }
  }

  lemma OccurrencesSnoc(text: word, pat: word, n: nat)
    requires 0 < n <= |text|
    ensures Occurrences(text, pat, n) == Occurrences(text, pat, n - 1) + Ending(text, pat, n)
  {
  }

  lemma EndingExact(text: word, pat: word, n: nat)
    requires n <= |text|
    ensures |Ending(text, pat, n)| <= 1
    ensures forall i: nat :: i in Ending(text, pat, n) <==> i + |pat| == n && OccursAt(text, pat, i)
  {
    if |pat| <= n {
      assert text[..n][n - |pat|..] == text[n - |pat|..n];
    }
  }

  /** The pattern is reported once the walk along the suffixes of t has come down to u. */
  ghost function Longer(p: word, u: word, t: word): seq<nat> {
    if IsSuffix(p, t) && |p| > |u| then [|t| - |p|] else []
  }

  lemma SuffixOfSuffix(p: word, u: word, t: word)
    requires IsSuffix(p, t) && IsSuffix(u, t) && |p| <= |u|
    ensures IsSuffix(p, u)
  {
    assert u[|u| - |p|..] == t[|t| - |u|..][|u| - |p|..] == t[|t| - |p|..];
  }

  /** The walk starts with the longest suffix. */
  lemma WalkStarts(ws: seq<word>, t: word, p: word)
    requires [] in ws && p in ws
    ensures Longer(p, Longest(ws, t), t) == []
  {
    if IsSuffix(p, t) {
      LongestWins(ws, t, p);
    }
  }

  /** One step of the walk reports u and nothing else. */
  lemma WalkStep(ws: seq<word>, t: word, u: word, p: word)
    requires [] in ws && p in ws && u != [] && IsSuffix(u, t)
    ensures IsSuffix(Longest(ws, u[1..]), t) && |Longest(ws, u[1..])| < |u|
    ensures Longer(p, Longest(ws, u[1..]), t) == Longer(p, u, t) + (if p == u then [|t| - |p|] else [])
  {
    hide Longest, IsSuffix;
    var v := Longest(ws, u[1..]);
    LongestIs(ws, u[1..]);
    SuffixOfTail(v, u);
    SuffixTrans(v, u, t);
    SuffixSizes(v, u[1..]);
    if IsSuffix(p, t) && |p| <= |u| {
      SuffixOfSuffix(p, u, t);
      if |p| < |u| {
        TailSuffix(p, u);
        LongestWins(ws, u[1..], p);
        SuffixSizes(p, v);
      } else {
        SuffixWhole(p, u);
      }
    }
    assert p == u ==> IsSuffix(p, t);
  }

  lemma SuffixSizes(v: word, u: word)
    requires IsSuffix(v, u)
    ensures |v| <= |u|
  {
  }

  lemma SuffixOfTail(v: word, u: word)
    requires u != [] && IsSuffix(v, u[1..])
    ensures IsSuffix(v, u)
  {
    assert u[1..][|u| - 1 - |v|..] == u[|u| - |v|..];
  }

  lemma TailSuffix(p: word, u: word)
    requires IsSuffix(p, u) && |p| < |u|
    ensures IsSuffix(p, u[1..])
  {
    assert u[1..][|u| - 1 - |p|..] == u[|u| - |p|..];
  }

  lemma SuffixTrans(v: word, u: word, t: word)
    requires IsSuffix(v, u) && IsSuffix(u, t)
    ensures IsSuffix(v, t)
  {
    assert t[|t| - |v|..] == t[|t| - |u|..][|u| - |v|..];
  }

  lemma SuffixWhole(p: word, u: word)
    requires IsSuffix(p, u) && |p| == |u|
    ensures p == u
  {
  }

  // ---- The trie ---------------------------------------------------------------------------

  /** Each node stands for a word, the root for the empty one. */
  ghost predicate Words(ws: seq<word>) {
    && |ws| > 0 && ws[ROOT] == [] && Closed(ws)
    && forall m, n :: 0 <= m < n < |ws| ==> ws[m] != ws[n]
  }

  ghost predicate EdgeAt(children: seq<edges>, ws: seq<word>, n: nat, c: letter)
    requires n < |ws| && n < |children|
  {
    && (c in children[n] <==> ws[n] + [c] in ws)
    && (c in children[n] ==> children[n][c] < |ws| && ws[children[n][c]] == ws[n] + [c])
  }

  /** A node has a child for a letter exactly when the longer word has a node. */
  ghost predicate Edges(children: seq<edges>, ws: seq<word>) {
    |children| == |ws| && forall n, c: letter {:trigger EdgeAt(children, ws, n, c)} :: 0 <= n < |ws| ==> EdgeAt(children, ws, n, c)
  }

  /** A new node for a word one letter longer than that of node n. */
  lemma NewNode(children: seq<edges>, ws: seq<word>, n: nat, c: letter)
    requires Words(ws) && Edges(children, ws) && n < |ws| && c !in children[n]
    ensures Words(ws + [ws[n] + [c]])
    ensures Edges(children[n := Put(children[n], c, |ws|)] + [map[]], ws + [ws[n] + [c]])
  {
    hide Words, Closed;
    var w := ws[n] + [c];
    assert EdgeAt(children, ws, n, c);
    NewWord(ws, n, c);
    var ws', children' := ws + [w], children[n := Put(children[n], c, |ws|)] + [map[]];
    forall m, d: letter | 0 <= m < |ws'|
      ensures EdgeAt(children', ws', m, d)
    {
      if m < |ws| {
        OldEdges(children, ws, n, c, m, d);
      } else {
        NoEdges(ws, w, d);
      }
    }
  }

  /** The edges of a node that was there before. */
  lemma OldEdges(children: seq<edges>, ws: seq<word>, n: nat, c: letter, m: nat, d: letter)
    requires Words(ws) && Edges(children, ws) && n < |ws| && c !in children[n] && m < |ws|
    ensures EdgeAt(children[n := Put(children[n], c, |ws|)] + [map[]], ws + [ws[n] + [c]], m, d)
  {
    hide Closed;
    var w := ws[n] + [c];
    var ws' := ws + [w];
    assert EdgeAt(children, ws, m, d);
    SameBeginning(ws[m], d, ws[n], c);
    assert ws'[|ws|] == w;
    assert ws[m] + [d] in ws' <==> ws[m] + [d] in ws || ws[m] + [d] == w;
  }

  lemma NoEdges(ws: seq<word>, w: word, d: letter)
    requires Words(ws) && w !in ws
    ensures w + [d] !in ws + [w]
  {
    Beginning(ws, w, d);
    assert |w + [d]| == |w| + 1;
  }

  lemma SameBeginning(v: word, d: letter, w: word, c: letter)
    ensures v + [d] == w + [c] <==> v == w && d == c
  {
    var s, t := v + [d], w + [c];
    assert |s| == |v| + 1 && |t| == |w| + 1 && s[|v|] == d && t[|w|] == c;
    if s == t {
      forall i | 0 <= i < |v|
        ensures v[i] == w[i]
      {
        assert s[i] == v[i] && t[i] == w[i];
      }
    }
  }

  lemma NewWord(ws: seq<word>, n: nat, c: letter)
    requires Words(ws) && n < |ws| && ws[n] + [c] !in ws
    ensures Words(ws + [ws[n] + [c]])
  {
    var w, ws' := ws[n] + [c], ws + [ws[n] + [c]];
    forall m: nat | m < |ws'|
      ensures FrontIn(ws', m)
    {
      if m == |ws| {
        assert w[..|w| - 1] == ws[n] == ws'[n];
      } else {
        assert FrontIn(ws, m);
      }
    }
  }

  /** Node n is marked with a pattern exactly when its word is that pattern. */
  ghost predicate Marks(patIdx: seq<int>, ws: seq<word>, pats: seq<word>) {
    && |patIdx| == |ws|
    && (forall n :: 0 <= n < |ws| ==> -1 <= patIdx[n] < |pats| && (patIdx[n] >= 0 ==> pats[patIdx[n]] == ws[n]))
    && (forall k :: 0 <= k < |pats| ==> pats[k] != [] && pats[k] in ws)
    && (forall n, k :: 0 <= n < |ws| && 0 <= k < |pats| && ws[n] == pats[k] ==> patIdx[n] == k)
  }

  lemma MarkAdded(patIdx: seq<int>, ws: seq<word>, pats: seq<word>, n: nat, pat: word)
    requires Words(ws) && Marks(patIdx, ws, pats) && n < |ws| && ws[n] == pat && pat != [] && pat !in pats
    ensures patIdx[n] == -1 && Marks(patIdx[n := |pats|], ws, pats + [pat])
  {
  }

  /** The failure link of node n leads to the longest proper suffix of its word. */
  ghost predicate LinkAt(prefix: seq<nat>, ws: seq<word>, n: nat)
    requires n < |ws| && n < |prefix|
  {
    n != ROOT ==> ws[n] != [] && prefix[n] < |ws| && ws[prefix[n]] == Longest(ws, ws[n][1..])
  }

  /** All nodes with words of up to d letters have their failure links. */
  ghost predicate LinksTo(prefix: seq<nat>, ws: seq<word>, d: int) {
    && |prefix| == |ws|
    && forall n :: 0 <= n < |ws| && |ws[n]| <= d ==> LinkAt(prefix, ws, n)
  }

  ghost predicate Links(prefix: seq<nat>, ws: seq<word>) {
    && |prefix| == |ws|
    && forall n :: 0 <= n < |ws| ==> LinkAt(prefix, ws, n)
  }

  /** The results after the walk along the suffixes of t has come down to u. */
  ghost predicate Reported(pats: seq<word>, before: seq<seq<nat>>, now: seq<seq<nat>>, u: word, t: word) {
    && |before| == |now| >= |pats|
    && (forall k :: 0 <= k < |pats| ==> now[k] == before[k] + Longer(pats[k], u, t))
    && (forall k :: |pats| <= k < |now| ==> now[k] == before[k])
  }

  function Pushed(now: seq<seq<nat>>, k: int, x: nat): seq<seq<nat>>
    requires k < |now|
  {
    if k < 0 then now else now[k := now[k] + [x]]
  }

  lemma ReportStarts(ws: seq<word>, pats: seq<word>, now: seq<seq<nat>>, t: word)
    requires [] in ws && |now| >= |pats| && forall k :: 0 <= k < |pats| ==> pats[k] in ws
    ensures Reported(pats, now, now, Longest(ws, t), t) && IsSuffix(Longest(ws, t), t)
  {
    hide Longer;
    LongestIs(ws, t);
    forall k | 0 <= k < |pats|
      ensures now[k] == now[k] + Longer(pats[k], Longest(ws, t), t)
    {
      WalkStarts(ws, t, pats[k]);
    }
  }

  /** At node m the pattern marked there is reported. */
  lemma ReportStep(ws: seq<word>, pats: seq<word>, mark: int, before: seq<seq<nat>>, now: seq<seq<nat>>,
    u: word, t: word)
    requires [] in ws && u != [] && IsSuffix(u, t) && Reported(pats, before, now, u, t)
    requires -1 <= mark < |pats| && forall k :: 0 <= k < |pats| ==> pats[k] in ws && (pats[k] == u <==> k == mark)
    ensures Reported(pats, before, Pushed(now, mark, |t| - |u|), Longest(ws, u[1..]), t)
    ensures IsSuffix(Longest(ws, u[1..]), t) && |Longest(ws, u[1..])| < |u|
  {
    hide Longer;
    var v, next := Longest(ws, u[1..]), Pushed(now, mark, |t| - |u|);
    WalkStep(ws, t, u, []);
    forall k | 0 <= k < |pats|
      ensures next[k] == before[k] + Longer(pats[k], v, t)
    {
      WalkStep(ws, t, u, pats[k]);
    }
  }

  /** Every transition is filled in: it leads to the longest suffix of the word and the letter. */
  ghost predicate GotoAt(children: seq<edges>, ws: seq<word>, n: nat, c: letter)
    requires n < |ws| && n < |children|
  {
    c in children[n] && children[n][c] < |ws| && ws[children[n][c]] == Longest(ws, ws[n] + [c])
  }

  ghost predicate Gotos(children: seq<edges>, ws: seq<word>) {
    |children| == |ws| && forall n, c: letter {:trigger GotoAt(children, ws, n, c)} :: 0 <= n < |ws| ==> GotoAt(children, ws, n, c)
  }

  lemma RootSuffix(ws: seq<word>, i: letter)
    requires Words(ws)
    ensures ws[ROOT] == [] == Longest(ws, []) && (ws[ROOT] + [i])[1..] == []
  {
  }

  /** The link of a node, followed by the letter, finds the link of the child for the letter. */
  lemma LinkSuffix(ws: seq<word>, u: word, v: word, i: letter)
    requires Words(ws) && u != [] && v == Longest(ws, u[1..])
    ensures |v| < |u| && Longest(ws, v + [i]) == Longest(ws, (u + [i])[1..])
  {
    hide Longest;
    assert [] in ws by { assert ws[ROOT] in ws; }
    LongestIs(ws, u[1..]);
    LongestStep(ws, u[1..], i);
    assert (u + [i])[1..] == u[1..] + [i];
  }

  lemma FewerLinks(prefix: seq<nat>, ws: seq<word>, d: int, e: int)
    requires LinksTo(prefix, ws, d) && e <= d
    ensures LinksTo(prefix, ws, e)
  {
  }

  // ---- Breadth first ----------------------------------------------------------------------

  ghost function Parent(ws: seq<word>, m: nat): (n: nat)
    requires Words(ws) && m < |ws| && m != ROOT
    ensures n < |ws| && ws[m] != [] && ws[n] == ws[m][..|ws[m]| - 1]
  {
    assert ws[m] != ws[ROOT] && FrontIn(ws, m);
    var n: nat :| n < |ws| && ws[n] == ws[m][..|ws[m]| - 1];
    n
  }

  lemma ParentIs(ws: seq<word>, m: nat, n: nat, c: letter)
    requires Words(ws) && m < |ws| && m != ROOT && n < |ws| && ws[m] == ws[n] + [c]
    ensures Parent(ws, m) == n && ws[m][|ws[m]| - 1] == c
  {
    assert ws[m][..|ws[m]| - 1] == ws[n];
  }

  ghost predicate Found(q: seq<nat>, done: set<nat>, m: nat) {
    m in done || m in q
  }

  /** The parent is finished, up to letter i if it is the current node. */
  ghost predicate Reached(ws: seq<word>, done: set<nat>, cur: nat, i: nat, m: nat)
    requires Words(ws) && m < |ws| && m != ROOT
  {
    Parent(ws, m) in done && (Parent(ws, m) == cur ==> ws[m][|ws[m]| - 1] as int < i)
  }

  /** The queue and the finished nodes are disjoint and hold exactly the root and the nodes whose parents
      are finished. */
  ghost predicate Frontier(ws: seq<word>, q: seq<nat>, done: set<nat>, cur: nat, i: nat) {
    && Words(ws) && Found(q, done, ROOT)
    && (forall j :: 0 <= j < |q| ==> q[j] < |ws| && q[j] !in done) && (forall m :: m in done ==> m < |ws|)
    && (forall j, k :: 0 <= j < k < |q| ==> q[j] != q[k])
    && (forall m {:trigger Found(q, done, m)} :: 0 < m < |ws| ==> (Found(q, done, m) <==> Reached(ws, done, cur, i, m)))
  }

  /** The queue is in the order of lengths, none shorter than d nor longer than d + 1. */
  ghost predicate Ordered(ws: seq<word>, q: seq<nat>, d: nat) {
    && (forall j :: 0 <= j < |q| ==> q[j] < |ws| && d <= |ws[q[j]]| <= d + 1)
    && (forall j, k :: 0 <= j < k < |q| ==> |ws[q[j]]| <= |ws[q[k]]|)
  }

  ghost predicate NotShorter(ws: seq<word>, q: seq<nat>, d: nat) {
    forall j :: 0 <= j < |q| ==> q[j] < |ws| && |ws[q[j]]| >= d
  }

  /** Whatever is shorter than the words in the queue is finished; with an empty queue everything is. */
  lemma {:induction false} ShorterDone(ws: seq<word>, q: seq<nat>, done: set<nat>, cur: nat, d: nat, m: nat)
    requires Frontier(ws, q, done, cur, 128) && NotShorter(ws, q, d)
    requires m < |ws| && (|ws[m]| < d || q == [])
    ensures m in done
    decreases |ws[m]|
  {
    assert Found(q, done, m) ==> m in done;
    if m != ROOT {
      ShorterDone(ws, q, done, cur, d, Parent(ws, m));
      assert Reached(ws, done, cur, 128, m);
    }
  }

  /** Whatever is no longer than the word in front is found. */
  lemma NotLongerFound(ws: seq<word>, q: seq<nat>, done: set<nat>, cur: nat, d: nat, m: nat)
    requires Frontier(ws, q, done, cur, 128) && NotShorter(ws, q, d)
    requires m < |ws| && |ws[m]| <= d
    ensures Found(q, done, m)
  {
    if m != ROOT {
      ShorterDone(ws, q, done, cur, d, Parent(ws, m));
      assert Reached(ws, done, cur, 128, m);
    }
  }

  /** The node in front becomes the current one. */
  lemma PopFront(ws: seq<word>, q: seq<nat>, done: set<nat>, cur: nat)
    requires Frontier(ws, q, done, cur, 128) && q != []
    ensures Frontier(ws, q[1..], done + {q[0]}, q[0], 0)
  {
    hide Words;
    var n, q', done' := q[0], q[1..], done + {q[0]};
    forall m: nat | m < |ws|
      ensures Found(q', done', m) <==> Found(q, done, m)
    {
      PopFound(q, done, m);
    }
    forall m | 0 < m < |ws|
      ensures Found(q', done', m) <==> Reached(ws, done', n, 0, m)
    {
      assert Found(q, done, m) <==> Reached(ws, done, cur, 128, m);
    }
  }

  lemma PopFound(q: seq<nat>, done: set<nat>, m: nat)
    requires q != []
    ensures Found(q[1..], done + {q[0]}, m) <==> Found(q, done, m)
  {
    assert q == [q[0]] + q[1..];
  }

  /** The current node has no child for letter i. */
  lemma SkipLetter(ws: seq<word>, q: seq<nat>, done: set<nat>, cur: nat, i: letter)
    requires Frontier(ws, q, done, cur, i as int) && cur < |ws| && ws[cur] + [i] !in ws
    ensures Frontier(ws, q, done, cur, i as int + 1)
  {
    forall m | 0 < m < |ws|
      ensures Found(q, done, m) <==> Reached(ws, done, cur, i as int + 1, m)
    {
      if Parent(ws, m) == cur {
        assert ws[m] == ws[m][..|ws[m]| - 1] + [ws[m][|ws[m]| - 1]];
      }
    }
  }

  /** The child of the current node for letter i joins the queue. */
  lemma PushChild(ws: seq<word>, q: seq<nat>, done: set<nat>, cur: nat, i: letter, c: nat)
    requires Frontier(ws, q, done, cur, i as int) && cur in done && cur < |ws| && c < |ws| && ws[c] == ws[cur] + [i]
    ensures Frontier(ws, q + [c], done, cur, i as int + 1) && !Found(q, done, c) && c != ROOT
  {
    ParentIs(ws, c, cur, i);
    assert c != ROOT && !Reached(ws, done, cur, i as int, c);
    assert !Found(q, done, c);
    forall m: nat
      ensures Found(q + [c], done, m) <==> Found(q, done, m) || m == c
    {
    }
    forall m | 0 < m < |ws|
      ensures Found(q + [c], done, m) <==> Reached(ws, done, cur, i as int + 1, m)
    {
      LastLetter(ws, m, cur, i, c);
      hide Words;
      assert Found(q, done, m) <==> Reached(ws, done, cur, i as int, m);
    }
  }

  lemma LastLetter(ws: seq<word>, m: nat, cur: nat, i: letter, c: nat)
    requires Words(ws) && 0 < m < |ws| && cur < |ws| && c < |ws| && ws[c] == ws[cur] + [i]
    ensures Parent(ws, m) == cur && ws[m][|ws[m]| - 1] == i <==> m == c
  {
    ParentIs(ws, c, cur, i);
    if Parent(ws, m) == cur && ws[m][|ws[m]| - 1] == i {
      assert ws[m] == ws[m][..|ws[m]| - 1] + [i];
    }
  }

  /** All nodes found so far have their failure links. */
  ghost predicate FoundLinked(prefix: seq<nat>, ws: seq<word>, q: seq<nat>, done: set<nat>) {
    |prefix| == |ws| && forall m {:trigger Found(q, done, m)} :: 0 <= m < |ws| && Found(q, done, m) ==> LinkAt(prefix, ws, m)
  }

  lemma FoundLinksTo(prefix: seq<nat>, ws: seq<word>, q: seq<nat>, done: set<nat>, cur: nat, d: nat)
    requires Frontier(ws, q, done, cur, 128) && NotShorter(ws, q, d) && FoundLinked(prefix, ws, q, done)
    ensures LinksTo(prefix, ws, d)
  {
    forall m | 0 <= m < |ws| && |ws[m]| <= d
      ensures LinkAt(prefix, ws, m)
    {
      NotLongerFound(ws, q, done, cur, d, m);
    }
  }

  lemma AllLinked(prefix: seq<nat>, ws: seq<word>, done: set<nat>, cur: nat)
    requires Frontier(ws, [], done, cur, 128) && FoundLinked(prefix, ws, [], done)
    ensures Links(prefix, ws)
  {
    forall m | 0 <= m < |ws|
      ensures LinkAt(prefix, ws, m)
    {
      ShorterDone(ws, [], done, cur, 0, m);
      assert Found([], done, m);
    }
  }

  lemma PopLinked(prefix: seq<nat>, ws: seq<word>, q: seq<nat>, done: set<nat>)
    requires q != [] && FoundLinked(prefix, ws, q, done)
    ensures FoundLinked(prefix, ws, q[1..], done + {q[0]})
  {
    forall m | 0 <= m < |ws| && Found(q[1..], done + {q[0]}, m)
      ensures LinkAt(prefix, ws, m)
    {
      PopFound(q, done, m);
    }
  }

  /** The queue in front of which node n was taken off. */
  lemma PopOrdered(ws: seq<word>, q: seq<nat>)
    requires q != [] && q[0] < |ws| && Ordered(ws, q, |ws[q[0]]|)
    ensures Ordered(ws, q[1..], |ws[q[0]]|)
  {
  }

  ghost predicate InOrder(ws: seq<word>, q: seq<nat>) {
    q != [] ==> q[0] < |ws| && Ordered(ws, q, |ws[q[0]]|)
  }

  lemma OrderedInOrder(ws: seq<word>, q: seq<nat>, d: nat)
    requires Ordered(ws, q, d)
    ensures InOrder(ws, q)
  {
  }

  /** A child of a node with d letters goes to the end of the queue, and gets its link. */
  lemma PushLinked(prefix: seq<nat>, ws: seq<word>, q: seq<nat>, done: set<nat>, d: nat, c: nat, link: nat)
    requires FoundLinked(prefix, ws, q, done) && Ordered(ws, q, d) && LinksTo(prefix, ws, d)
    requires c < |ws| && |ws[c]| == d + 1 && !Found(q, done, c) && link < |ws| && ws[link] == Longest(ws, ws[c][1..])
    ensures FoundLinked(prefix[c := link], ws, q + [c], done) && Ordered(ws, q + [c], d) && LinksTo(prefix[c := link], ws, d)
  {
    var prefix' := prefix[c := link];
    forall m | 0 <= m < |ws| && Found(q + [c], done, m)
      ensures LinkAt(prefix', ws, m)
    {
      assert m == c || Found(q, done, m);
    }
    forall m | 0 <= m < |ws| && |ws[m]| <= d
      ensures LinkAt(prefix', ws, m)
    {
      assert LinkAt(prefix, ws, m);
    }
  }

  // ---- Filling in the transitions ---------------------------------------------------------

  /** The transitions of finished nodes are filled in, up to letter i for the current node. */
  ghost predicate Settled(done: set<nat>, cur: nat, i: nat, n: nat, c: letter) {
    n in done && (n == cur ==> c as int < i)
  }

  ghost predicate Mixed(children: seq<edges>, ws: seq<word>, done: set<nat>, cur: nat, i: nat) {
    && |children| == |ws|
    && forall n, c: letter {:trigger Settled(done, cur, i, n, c)} :: 0 <= n < |ws| ==>
         if Settled(done, cur, i, n, c) then GotoAt(children, ws, n, c) else EdgeAt(children, ws, n, c)
  }

  lemma MixedStart(children: seq<edges>, ws: seq<word>)
    requires Edges(children, ws)
    ensures Mixed(children, ws, {}, ROOT, 128)
  {
    forall n, c: letter | 0 <= n < |ws|
      ensures EdgeAt(children, ws, n, c)
    {
    }
  }

  lemma MixedPop(children: seq<edges>, ws: seq<word>, done: set<nat>, cur: nat, n: nat)
    requires Mixed(children, ws, done, cur, 128) && n !in done
    ensures Mixed(children, ws, done + {n}, n, 0)
  {
    forall m, c: letter | 0 <= m < |ws|
      ensures if Settled(done + {n}, n, 0, m, c) then GotoAt(children, ws, m, c) else EdgeAt(children, ws, m, c)
    {
      assert Settled(done + {n}, n, 0, m, c) <==> Settled(done, cur, 128, m, c);
    }
  }

  lemma MixedEnd(children: seq<edges>, ws: seq<word>, done: set<nat>, cur: nat)
    requires Mixed(children, ws, done, cur, 128) && forall m :: 0 <= m < |ws| ==> m in done
    ensures Gotos(children, ws)
  {
    forall n, c: letter | 0 <= n < |ws|
      ensures GotoAt(children, ws, n, c)
    {
      assert Settled(done, cur, 128, n, c);
    }
  }

  /** The transition of the current node for letter i is filled in. */
  lemma MixedFill(children: seq<edges>, ws: seq<word>, done: set<nat>, cur: nat, i: letter, target: nat)
    requires Mixed(children, ws, done, cur, i as int) && cur in done && cur < |ws|
    requires target < |ws| && ws[target] == Longest(ws, ws[cur] + [i])
    ensures Mixed(children[cur := Put(children[cur], i, target)], ws, done, cur, i as int + 1)
  {
    var children' := children[cur := Put(children[cur], i, target)];
    forall n, c: letter | 0 <= n < |ws|
      ensures if Settled(done, cur, i as int + 1, n, c) then GotoAt(children', ws, n, c) else EdgeAt(children', ws, n, c)
    {
      assert Settled(done, cur, i as int + 1, n, c) <==> Settled(done, cur, i as int, n, c) || (n == cur && c == i);
    }
  }

  /** Words no shorter than d can only belong to unfinished nodes or to the current one. */
  ghost predicate ShortDone(ws: seq<word>, done: set<nat>, d: nat) {
    forall m :: 0 <= m < |ws| && |ws[m]| < d ==> m in done
  }

  lemma QueueShortDone(ws: seq<word>, q: seq<nat>, done: set<nat>, cur: nat, d: nat)
    requires Frontier(ws, q, done, cur, 128) && NotShorter(ws, q, d)
    ensures ShortDone(ws, done, d) && (q == [] ==> forall m :: 0 <= m < |ws| ==> m in done)
  {
    forall m | 0 <= m < |ws| && (|ws[m]| < d || q == [])
      ensures m in done
    {
      ShorterDone(ws, q, done, cur, d, m);
    }
  }

  // ---- The automaton ----------------------------------------------------------------------

  class Automaton {
    var children: seq<edges>
    var prefix: seq<nat>
    var patIdx: seq<int>
    var patLens: seq<nat>
    ghost var words: seq<word>
    ghost var pats: seq<word>

    ghost predicate Marked()
      reads this
    {
      Words(words) && |prefix| == |words| && Marks(patIdx, words, pats)
      && |patLens| == |pats| && forall k :: 0 <= k < |pats| ==> patLens[k] == |pats[k]|
    }

    /** Patterns can still be added. */
    ghost predicate Open()
      reads this
    {
      Marked() && Edges(children, words)
    }

    /** The automaton with failure links. */
    ghost predicate Linked()
      reads this
    {
      Open() && Links(prefix, words)
    }

    /** The automaton with every transition filled in. */
    ghost predicate Filled()
      reads this
    {
      Marked() && Links(prefix, words) && Gotos(children, words)
    }

    constructor ()
      ensures Open() && pats == [] && words == [[]]
    {
      children := [map[]];
      prefix := [ROOT];
      patIdx := [-1];
      patLens := [];
      words := [[]];
      pats := [];
    }

    method AllocNode(n: nat, c: letter) returns (m: nat)
      requires Open() && n < |words| && c !in children[n]
      modifies this
      ensures Open() && m == |old(words)| && words == old(words) + [old(words)[n] + [c]]
      ensures pats == old(pats) && patLens == old(patLens)
      ensures patIdx == old(patIdx) + [-1]
    {
      m := |children|;
      ghost var w := words[n] + [c];
      assert EdgeAt(children, words, n, c);
      NewNode(children, words, n, c);
      children := children[n := Put(children[n], c, m)] + [map[]];
      prefix := prefix + [ROOT];
      patIdx := patIdx + [-1];
      words := words + [w];
    }

    /** The child of n for the next letter of the pattern, made if it is missing. */
    method Descend(n: nat, pat: word, i: nat) returns (m: nat)
      requires Open() && i < |pat| && n < |words| && words[n] == pat[..i]
      modifies this
      ensures Open() && pats == old(pats) && patLens == old(patLens) && m < |words| && words[m] == pat[..i + 1]
      ensures words == old(words) || words == old(words) + [pat[..i + 1]]
    {
      hide Marks, Words;
      assert EdgeAt(children, words, n, pat[i]);
      assert pat[..i] + [pat[i]] == pat[..i + 1];
      if pat[i] in children[n] {
        m := children[n][pat[i]];
      } else {
        m := AllocNode(n, pat[i]);
      }
    }

    /** Mark the node of a new pattern. */
    method MarkNode(n: nat, pat: word)
      requires Open() && pat != [] && pat !in pats && n < |words| && words[n] == pat
      modifies this`patIdx, this`patLens, this`pats
      ensures Open() && pats == old(pats) + [pat]
    {
      hide Edges, Words;
      MarkAdded(patIdx, words, pats, n, pat);
      patIdx := patIdx[n := |patLens|];
      patLens := patLens + [|pat|];
      pats := pats + [pat];
    }

    /** Add the next pattern. */
    method SetPattern(pat: word)
      requires Open() && pat != [] && pat !in pats
      modifies this
      ensures Open() && pats == old(pats) + [pat]
      ensures forall w :: w in words ==> w in old(words) || w <= pat
    {
      hide Edges, Marks, Words;
      var n: nat := ROOT;
      assert words[ROOT] == [] by { RootWord(); }
      for i := 0 to |pat|
        invariant Open() && pats == old(pats) && n < |words| && words[n] == pat[..i]
        invariant forall w :: w in words ==> w in old(words) || w <= pat
      {
        n := Descend(n, pat, i);
      }
      assert pat[..|pat|] == pat;
      MarkNode(n, pat);
    }

    lemma RootWord()
      requires Open()
      ensures |words| > 0 && words[ROOT] == []
    {
    }

    // ---- Failure links ----

    /** Walk the failure links until a node goes on with the letter. */
    method Follow(start: nat, c: letter) returns (n: nat)
      requires Open() && start < |words| && LinksTo(prefix, words, |words[start]|)
      ensures n < |words| && words[n] == Longest(words, words[start] + [c])
    {
      n := start;
      while n != ROOT && c !in children[n]
        invariant n < |words| && |words[n]| <= |words[start]|
        invariant Longest(words, words[n] + [c]) == Longest(words, words[start] + [c])
        decreases |words[n]|
      {
        assert EdgeAt(children, words, n, c) && LinkAt(prefix, words, n);
        FailureStep(words, words[n], c);
        LongestIs(words, words[n][1..]);
        n := prefix[n];
      }
      assert EdgeAt(children, words, n, c);
      if c in children[n] {
        n := children[n][c];
      } else {
        assert (words[ROOT] + [c])[1..] == [];
      }
    }

    /** What holds while the children of node n are visited, from letter i on. */
    ghost predicate Visiting(q: seq<nat>, done: set<nat>, n: nat, i: nat)
      reads this
    {
      && Frontier(words, q, done, n, i) && FoundLinked(prefix, words, q, done)
      && n in done && n < |words| && Ordered(words, q, |words[n]|) && LinksTo(prefix, words, |words[n]|)
    }

    /** What holds between the nodes. */
    ghost predicate Between(q: seq<nat>, done: set<nat>, cur: nat)
      reads this
    {
      Frontier(words, q, done, cur, 128) && FoundLinked(prefix, words, q, done) && InOrder(words, q)
    }

    lemma Started()
      requires Words(words) && |prefix| == |words|
      ensures Between([ROOT], {}, ROOT)
    {
      assert Found([ROOT], {}, ROOT);
    }

    lemma Popped(q: seq<nat>, done: set<nat>, cur: nat)
      requires Between(q, done, cur) && q != []
      ensures Visiting(q[1..], done + {q[0]}, q[0], 0) && q[0] !in done
    {
      hide Words;
      PopFront(words, q, done, cur);
      PopLinked(prefix, words, q, done);
      PopOrdered(words, q);
      FoundLinksTo(prefix, words, q, done, cur, |words[q[0]]|);
    }

    /** Each node is finished once. */
    lemma Unfinished(q: seq<nat>, done: set<nat>, cur: nat)
      requires Between(q, done, cur)
      ensures |done| <= |words| && (q != [] ==> |done| < |words|)
    {
      hide Words, Ordered, FoundLinked;
      var all := Nodes(|words|);
      assert done <= all;
      CardinalityMonotone(done, all);
      if q != [] {
        CardinalityMonotone(done + {q[0]}, all);
      }
    }

    /** The link of a child: where the link of its parent goes on with the letter. */
    method ChildLink(n: nat, i: letter, ghost c: nat) returns (link: nat)
      requires Open() && n < |words| && LinksTo(prefix, words, |words[n]|) && c < |words| && words[c] == words[n] + [i]
      ensures link < |words| && words[link] == Longest(words, words[c][1..])
    {
      hide Edges, Marks, Words, LinksTo, Longest;
      ChildSuffix(n, i, c);
      if n == ROOT {
        link := ROOT;
      } else {
        link := Follow(prefix[n], i);
      }
    }

    lemma ChildSuffix(n: nat, i: letter, c: nat)
      requires Open() && n < |words| && LinksTo(prefix, words, |words[n]|) && c < |words| && words[c] == words[n] + [i]
      ensures |prefix| == |words| && |words[c]| > 0
      ensures n == ROOT ==> words[ROOT] == Longest(words, words[c][1..])
      ensures n != ROOT ==> prefix[n] < |words| && LinksTo(prefix, words, |words[prefix[n]]|)
      ensures n != ROOT ==> Longest(words, words[prefix[n]] + [i]) == Longest(words, words[c][1..])
    {
      hide Edges, Marks, Longest, Words;
      if n == ROOT {
        RootSuffix(words, i);
      } else {
        assert LinkAt(prefix, words, n);
        LinkSuffix(words, words[n], words[prefix[n]], i);
        FewerLinks(prefix, words, |words[n]|, |words[prefix[n]]|);
      }
    }

    /** Put the child for letter i, if there is one, into the queue and set its link. */
    method VisitLetter(q0: seq<nat>, ghost done: set<nat>, n: nat, i: letter) returns (q: seq<nat>)
      requires Open() && Visiting(q0, done, n, i as int)
      modifies this`prefix
      ensures Open() && Visiting(q, done, n, i as int + 1)
    {
      hide Words, Edges, Marks, FoundLinked, Ordered, LinksTo;
      q := q0;
      assert EdgeAt(children, words, n, i) by { EdgeHere(n, i); }
      if i in children[n] {
        var c := children[n][i];
        q := q + [c];
        PushChild(words, q0, done, n, i, c);
        var link := ChildLink(n, i, c);
        PushLinked(prefix, words, q0, done, |words[n]|, c, link);
        prefix := prefix[c := link];
      } else {
        SkipLetter(words, q, done, n, i);
      }
    }

    lemma EdgeHere(n: nat, i: letter)
      requires Open() && n < |words|
      ensures |children| == |words| == |prefix| && EdgeAt(children, words, n, i)
    {
    }

    /** Set the failure links of all nodes, breadth first. */
    method BuildPrefix()
      requires Open()
      modifies this`prefix
      ensures Linked()
    {
      hide Frontier, FoundLinked, InOrder, Words, Edges, Marks, Links;
      var q: seq<nat> := [ROOT];
      ghost var done: set<nat>, cur: nat := {}, ROOT;
      Started();
      while q != []
        invariant Open() && Between(q, done, cur)
        decreases |words| - |done|
      {
        Popped(q, done, cur);
        Unfinished(q, done, cur);
        var n := q[0];
        q, done, cur := q[1..], done + {q[0]}, n;
        for i := 0 to 128
          invariant Open() && Visiting(q, done, n, i)
        {
          q := VisitLetter(q, done, n, i as letter);
        }
        OrderedInOrder(words, q, |words[n]|);
        Unfinished(q, done, cur);
      }
      AllLinked(prefix, words, done, cur);
    }

    // ---- Filling in the transitions ----

    /** Where a finished, shorter node leads with the letter: the target for the current node. */
    lemma Detour(done: set<nat>, n: nat, i: letter)
      requires Words(words) && |prefix| == |words| && n in done && n < |words| && n != ROOT
      requires LinksTo(prefix, words, |words[n]|) && ShortDone(words, done, |words[n]|)
      requires Mixed(children, words, done, n, i as int)
      ensures prefix[n] < |words| && |children| == |words| && i in children[prefix[n]] && children[prefix[n]][i] < |words|
      ensures words[n] != [] && words[children[prefix[n]][i]] == Longest(words, words[n][1..] + [i])
    {
      assert LinkAt(prefix, words, n);
      LongestIs(words, words[n][1..]);
      assert Settled(done, n, i as int, prefix[n], i);
      LongestStep(words, words[n][1..], i);
    }

    lemma RootEdge(done: set<nat>, n: nat, i: letter)
      requires Words(words) && n < |words| && Mixed(children, words, done, n, i as int)
      ensures |children| == |words| && EdgeAt(children, words, n, i)
      ensures words[n] + [i] !in words && n == ROOT ==> Longest(words, words[n] + [i]) == words[ROOT]
      ensures n != ROOT ==> words[n] != [] && (words[n] + [i])[1..] == words[n][1..] + [i]
      ensures n == ROOT ==> (words[n] + [i])[1..] == words[ROOT]
      ensures Longest(words, words[ROOT]) == words[ROOT]
    {
      assert !Settled(done, n, i as int, n, i);
      assert n != ROOT ==> words[ROOT] != words[n];
    }

    /** As VisitLetter, but a missing child is replaced by where the failure link leads. */
    method FillLetter(q0: seq<nat>, ghost done: set<nat>, n: nat, i: letter) returns (q: seq<nat>)
      requires Marked() && Visiting(q0, done, n, i as int)
      requires Mixed(children, words, done, n, i as int) && ShortDone(words, done, |words[n]|)
      modifies this`prefix, this`children
      ensures Marked() && Visiting(q, done, n, i as int + 1) && Mixed(children, words, done, n, i as int + 1)
    {
      hide Words, Marks, FoundLinked, Ordered, LinksTo, Mixed, Frontier, ShortDone;
      q := q0;
      RootEdge(done, n, i);
      if n != ROOT {
        Detour(done, n, i);
      }
      var link := if n == ROOT then ROOT else children[prefix[n]][i];
      if i in children[n] {
        var c := children[n][i];
        q := q + [c];
        PushChild(words, q0, done, n, i, c);
        PushLinked(prefix, words, q0, done, |words[n]|, c, link);
        MixedFill(children, words, done, n, i, c);
        assert Put(children[n], i, c) == children[n];
        assert children[n := Put(children[n], i, c)] == children;
        prefix := prefix[c := link];
      } else {
        MixedFill(children, words, done, n, i, link);
        SkipLetter(words, q, done, n, i);
        children := children[n := Put(children[n], i, link)];
      }
    }

    /** Set the failure links and fill in all transitions, breadth first. */
    method BuildFilled()
      requires Open()
      modifies this`prefix, this`children
      ensures Filled()
    {
      hide Frontier, FoundLinked, InOrder, Words, Edges, Marks, Links, Mixed, LinksTo, ShortDone, Ordered, Gotos;
      var q: seq<nat> := [ROOT];
      ghost var done: set<nat>, cur: nat := {}, ROOT;
      Started();
      MixedStart(children, words);
      while q != []
        invariant Marked() && Between(q, done, cur) && Mixed(children, words, done, cur, 128)
        decreases |words| - |done|
      {
        Popped(q, done, cur);
        Unfinished(q, done, cur);
        Shortest(q, done, cur);
        var n := q[0];
        MixedPop(children, words, done, cur, n);
        q, done, cur := q[1..], done + {q[0]}, n;
        for i := 0 to 128
          invariant Marked() && Visiting(q, done, n, i) && Mixed(children, words, done, n, i)
          invariant ShortDone(words, done, |words[n]|)
        {
          q := FillLetter(q, done, n, i as letter);
        }
        OrderedInOrder(words, q, |words[n]|);
        Unfinished(q, done, cur);
      }
      QueueShortDone(words, q, done, cur, 0);
      MixedEnd(children, words, done, cur);
      AllLinked(prefix, words, done, cur);
    }

    lemma Shortest(q: seq<nat>, done: set<nat>, cur: nat)
      requires Between(q, done, cur) && q != []
      ensures q[0] < |words| && ShortDone(words, done + {q[0]}, |words[q[0]]|)
    {
      QueueShortDone(words, q, done, cur, |words[q[0]]|);
    }

    // ---- Searching ----

    /** Append the patterns that end with the text read so far: those on the chain of failure links. */
    method Report(n: nat, at: nat, result: array<seq<nat>>, ghost text: word)
      requires Marked() && Links(prefix, words) && n < |words| && result.Length >= |pats|
      requires at < |text| && words[n] == Longest(words, text[..at + 1])
      modifies result
      ensures forall k :: 0 <= k < |pats| ==> result[k] == old(result[k]) + Ending(text, pats[k], at + 1)
      ensures forall k :: |pats| <= k < result.Length ==> result[k] == old(result[k])
    {
      hide Longer, Longest, IsSuffix, Words, Marks, Links, Reported;
      ghost var t, before := text[..at + 1], result[..];
      var m: nat := n;
      AtRoot();
      ReportStarts(words, pats, before, t);
      while m != ROOT
        invariant m < |words| && IsSuffix(words[m], t) && Reported(pats, before, result[..], words[m], t)
        decreases |words[m]|
      {
        m := ReportNode(m, at, result, before, t);
      }
      WalkEnds(before, result[..], t);
      EndingIs(text, at + 1);
    }

    /** Report the pattern of one node and go on to the next shorter suffix. */
    method ReportNode(m: nat, at: nat, result: array<seq<nat>>, ghost before: seq<seq<nat>>, ghost t: word)
      returns (next: nat)
      requires Marked() && Links(prefix, words) && m < |words| && m != ROOT && at + 1 == |t| && IsSuffix(words[m], t)
      requires result.Length >= |pats| && Reported(pats, before, result[..], words[m], t)
      modifies result
      ensures next < |words| && |words[next]| < |words[m]| && IsSuffix(words[next], t)
      ensures Reported(pats, before, result[..], words[next], t)
    {
      hide Longer, Longest, IsSuffix, Words, Marks, Links, Reported;
      AtNode(m);
      ReportStep(words, pats, patIdx[m], before, result[..], words[m], t);
      ShorterSuffix(words[m], t);
      PushResult(result, patIdx[m], if patIdx[m] == -1 then 0 else at + 1 - patLens[patIdx[m]]);
      next := prefix[m];
    }

    lemma AtRoot()
      requires Marked()
      ensures |words| > 0 && words[ROOT] == [] && [] in words && forall k :: 0 <= k < |pats| ==> pats[k] in words
    {
    }

    lemma EndingIs(text: word, n: nat)
      requires n <= |text|
      ensures forall p: word :: Ending(text, p, n) == if IsSuffix(p, text[..n]) then [n - |p|] else []
    {
    }

    method PushResult(result: array<seq<nat>>, k: int, x: nat)
      requires -1 <= k < result.Length
      modifies result
      ensures result[..] == Pushed(old(result[..]), k, x)
    {
      if k != -1 {
        result[k] := result[k] + [x];
      }
    }

    lemma AtNode(m: nat)
      requires Marked() && Links(prefix, words) && m < |words| && m != ROOT
      ensures words[m] != [] && prefix[m] < |words| && words[prefix[m]] == Longest(words, words[m][1..])
      ensures [] in words && |patIdx| == |prefix| == |words| && |patLens| == |pats| && -1 <= patIdx[m] < |pats| && (patIdx[m] >= 0 ==> patLens[patIdx[m]] == |words[m]|)
      ensures forall k :: 0 <= k < |pats| ==> pats[k] in words && (pats[k] == words[m] <==> k == patIdx[m])
    {
      assert LinkAt(prefix, words, m);
    }

    lemma ShorterSuffix(u: word, t: word)
      requires IsSuffix(u, t)
      ensures |u| <= |t|
    {
    }

    lemma WalkEnds(before: seq<seq<nat>>, now: seq<seq<nat>>, t: word)
      requires Marked() && Reported(pats, before, now, words[ROOT], t)
      ensures |before| == |now| >= |pats|
      ensures forall k :: 0 <= k < |pats| ==> now[k] == before[k] + (if IsSuffix(pats[k], t) then [|t| - |pats[k]|] else [])
      ensures forall k :: |pats| <= k < |now| ==> now[k] == before[k]
    {
    }

    /** Search with failure links: every occurrence of every pattern, in order. */
    method Find(text: word, result: array<seq<nat>>)
      requires Linked() && result.Length >= |pats|
      modifies result
      ensures forall k :: 0 <= k < |pats| ==> result[k] == old(result[k]) + Occurrences(text, pats[k], |text|)
    {
      hide Words, Edges, Marks, Links, Ending;
      var n: nat := ROOT;
      StartAtRoot();
      for i := 0 to |text|
        invariant n < |words| && words[n] == Longest(words, text[..i])
        invariant forall k :: 0 <= k < |pats| ==> result[k] == old(result[k]) + Occurrences(text, pats[k], i)
      {
        assert text[..i + 1] == text[..i] + [text[i]];
        NextState(n, text[..i], text[i]);
        n := Follow(n, text[i]);
        Report(n, i, result, text);
      }
    }

    lemma StartAtRoot()
      requires Marked()
      ensures |words| > 0 && words[ROOT] == Longest(words, [])
    {
    }

    lemma NextState(n: nat, t: word, c: letter)
      requires Marked() && Links(prefix, words) && n < |words| && words[n] == Longest(words, t)
      ensures LinksTo(prefix, words, |words[n]|) && Longest(words, t + [c]) == Longest(words, words[n] + [c])
    {
      LongestStep(words, t, c);
    }

    /** Search with every transition filled in: the same results. */
    method FindFilled(text: word, result: array<seq<nat>>)
      requires Filled() && result.Length >= |pats|
      modifies result
      ensures forall k :: 0 <= k < |pats| ==> result[k] == old(result[k]) + Occurrences(text, pats[k], |text|)
    {
      hide Words, Marks, Links, Ending;
      var n: nat := ROOT;
      StartAtRoot();
      for i := 0 to |text|
        invariant n < |words| && words[n] == Longest(words, text[..i])
        invariant forall k :: 0 <= k < |pats| ==> result[k] == old(result[k]) + Occurrences(text, pats[k], i)
      {
        assert text[..i + 1] == text[..i] + [text[i]];
        NextState(n, text[..i], text[i]);
        assert GotoAt(children, words, n, text[i]);
        n := children[n][text[i]];
        Report(n, i, result, text);
      }
    }
  }

  ghost function Nodes(n: nat): (s: set<nat>)
    ensures |s| == n && forall m: nat :: m in s <==> m < n
  {
    if n == 0 then {} else Nodes(n - 1) + {n - 1}
  }

  lemma {:induction false} CardinalityMonotone(s: set<nat>, t: set<nat>)
    requires s <= t
    ensures |s| <= |t|
    decreases |s|
  {
    if s != {} {
      var x :| x in s;
      CardinalityMonotone(s - {x}, t - {x});
    }
  }
}
