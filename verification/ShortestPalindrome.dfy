/** The shortest palindrome that contains a line as a subsequence: by plain recursion, with a memo, and by
    dynamic programming over three rolling rows. */
module ShortestPalindrome {
  function Last(s: string): char
    requires s != []
  {
    s[|s| - 1]
  }

  function Front(s: string): string
    requires s != []
  {
    s[..|s| - 1]
  }

  /** The plain recursion. */
  function Shortest(line: string): string {
    if |line| <= 1 then line
    else if line[0] == Last(line) then [line[0]] + Shortest(line[1..|line| - 1]) + [line[0]]
    else
      var s1 := [Last(line)] + Shortest(line[..|line| - 1]) + [Last(line)];
      var s2 := [line[0]] + Shortest(line[1..]) + [line[0]];
      if |s1| < |s2| then s1 else s2
  }

  ghost predicate Palindrome(s: string) {
    forall i :: 0 <= i < |s| ==> s[i] == s[|s| - 1 - i]
  }

  /** The letters of s occur in p in the same order. */
  ghost predicate Subsequence(s: string, p: string)
    decreases |p|
  {
    if s == [] then true
    else if p == [] then false
    else if s[0] == p[0] then Subsequence(s[1..], p[1..])
    else Subsequence(s, p[1..])
  }

  // ---- Subsequences -----------------------------------------------------------------------

  lemma {:induction false} SubsequenceTail(s: string, p: string)
    requires Subsequence(s, p) && s != []
    ensures Subsequence(s[1..], p)
    decreases |p|
  {
    if s[0] == p[0] {
      LongerFront(s[1..], p);
    } else {
      SubsequenceTail(s, p[1..]);
      if |s| > 1 && s[1] == p[0] {
        SubsequenceTail(s[1..], p[1..]);
      }
    }
  }

  /** One more letter in front of p. */
  lemma {:induction false} LongerFront(s: string, p: string)
    requires p != [] && Subsequence(s, p[1..])
    ensures Subsequence(s, p)
    decreases |p|, 0
  {
    if s != [] && s[0] == p[0] {
      SubsequenceTail(s, p[1..]);
    }
  }

  /** One more letter behind p, or behind both. */
  lemma {:induction false} LongerBack(s: string, p: string, c: char)
    requires Subsequence(s, p)
    ensures Subsequence(s, p + [c]) && Subsequence(s + [c], p + [c])
    decreases |p|
  {
    if p == [] {
      assert (s + [c])[1..] == [];
    } else {
      assert (p + [c])[1..] == p[1..] + [c];
      if s == [] {
        LongerBack(s, p[1..], c);
        assert [] + [c] == [c];
        OneLetter(c, p + [c]);
      } else if s[0] == p[0] {
        LongerBack(s[1..], p[1..], c);
        assert (s + [c])[1..] == s[1..] + [c];
      } else {
        LongerBack(s, p[1..], c);
      }
    }
  }

  lemma {:induction false} OneLetter(c: char, p: string)
    requires p != [] && Last(p) == c
    ensures Subsequence([c], p)
    decreases |p|
  {
    if p[0] != c {
      OneLetter(c, p[1..]);
    } else {
      assert [c][1..] == [];
    }
  }

  /** The last letters of s and p: matched if they agree, else the last of p is not needed. */
  lemma {:induction false} DropLast(s: string, p: string)
    requires Subsequence(s, p) && s != []
    ensures p != []
    ensures if Last(s) == Last(p) then Subsequence(Front(s), Front(p)) else Subsequence(s, Front(p))
    decreases |p|
  {
    if |p| == 1 {
      assert p[1..] == [] && Front(s) == [];
    } else if s[0] == p[0] {
      assert Front(p)[1..] == Front(p[1..]);
      if |s| == 1 {
        assert Front(s) == [] && s[1..] == [];
      } else {
        DropLast(s[1..], p[1..]);
        assert Front(s)[1..] == Front(s[1..]);
      }
    } else {
      assert Front(p)[1..] == Front(p[1..]);
      DropLast(s, p[1..]);
      if Last(s) == Last(p) && Front(s) != [] {
        assert Front(s)[0] == s[0];
      }
    }
  }

  lemma {:induction false} NotLonger(s: string, p: string)
    requires Subsequence(s, p)
    ensures |s| <= |p|
    decreases |p|
  {
    if s != [] {
      NotLonger(if s[0] == p[0] then s[1..] else s, p[1..]);
    }
  }

  // ---- The result is a palindrome that contains the line ----------------------------------

  lemma Wrapped(c: char, p: string)
    requires Palindrome(p)
    ensures Palindrome([c] + p + [c])
  {
    var q := [c] + p + [c];
    forall i | 0 <= i < |q|
      ensures q[i] == q[|q| - 1 - i]
    {
      if 0 < i < |q| - 1 {
        assert q[i] == p[i - 1] && q[|q| - 1 - i] == p[|p| - 1 - (i - 1)];
      }
    }
  }

  lemma WrapContains(s: string, c: char, p: string)
    requires Subsequence(s, p)
    ensures Subsequence(s + [c], [c] + p + [c]) && Subsequence([c] + s, [c] + p + [c]) && Subsequence([c] + s + [c], [c] + p + [c])
  {
    LongerBack(s, p, c);
    var q := [c] + p + [c];
    assert q[1..] == p + [c];
    LongerFront(s + [c], q);
    assert ([c] + s)[1..] == s && ([c] + s + [c])[1..] == s + [c];
  }

  /** What the recursion makes of a line of two or more letters. */
  lemma ShortestStep(line: string)
    requires |line| > 1
    ensures var f, l, n := line[0], Last(line), |line|;
      var s1, s2 := [l] + Shortest(line[..n - 1]) + [l], [f] + Shortest(line[1..]) + [f];
      Shortest(line) == if f == l then [f] + Shortest(line[1..n - 1]) + [f] else if |s1| < |s2| then s1 else s2
  {
  }

  lemma OneFits(line: string)
    requires |line| <= 1
    ensures Palindrome(Shortest(line)) && Subsequence(line, Shortest(line))
  {
    if |line| == 1 {
      assert line[1..] == [];
    }
  }

  lemma {:induction false} ShortestFits(line: string)
    ensures Palindrome(Shortest(line)) && Subsequence(line, Shortest(line))
    decreases |line|
  {
    hide Shortest, Palindrome, Subsequence;
    if |line| <= 1 {
      OneFits(line);
    } else {
      var f, l, n := line[0], Last(line), |line|;
      ShortestStep(line);
      if f == l {
        var inner := line[1..n - 1];
        ShortestFits(inner);
        Wrapped(f, Shortest(inner));
        WrapContains(inner, f, Shortest(inner));
        assert line == [f] + inner + [f];
      } else {
        ShortestFits(line[..n - 1]);
        ShortestFits(line[1..]);
        Wrapped(l, Shortest(line[..n - 1]));
        Wrapped(f, Shortest(line[1..]));
        WrapContains(line[..n - 1], l, Shortest(line[..n - 1]));
        WrapContains(line[1..], f, Shortest(line[1..]));
        assert line == line[..n - 1] + [l] && line == [f] + line[1..];
      }
    }
  }

  // ---- No palindrome that contains the line is shorter ------------------------------------

  lemma InnerPalindrome(p: string)
    requires Palindrome(p) && |p| >= 2
    ensures Palindrome(p[1..|p| - 1]) && p[0] == Last(p)
  {
    var q := p[1..|p| - 1];
    assert p[0] == p[|p| - 1 - 0];
    forall i | 0 <= i < |q|
      ensures q[i] == q[|q| - 1 - i]
    {
      assert p[i + 1] == p[|p| - 1 - (i + 1)];
    }
  }

  /** Between equal outer letters of a palindrome lies what the outer letters do not match. */
  lemma Inside(line: string, p: string)
    requires Subsequence(line, p) && Palindrome(p) && |line| >= 2 && |p| >= 2
    ensures var q := p[1..|p| - 1];
      if p[0] == line[0] then
        if p[0] == Last(line) then Subsequence(line[1..|line| - 1], q) else Subsequence(line[1..], q)
      else
        if p[0] == Last(line) then Subsequence(line[..|line| - 1], q) else Subsequence(line, q)
  {
    InnerPalindrome(p);
    assert Front(p[1..]) == p[1..|p| - 1] && Last(p[1..]) == Last(p);
    var rest := if p[0] == line[0] then line[1..] else line;
    assert Last(rest) == Last(line);
    assert Front(line[1..]) == line[1..|line| - 1];
    DropLast(rest, p[1..]);
  }

  lemma {:induction false} ShortestIsShortest(line: string, p: string)
    requires Palindrome(p) && Subsequence(line, p)
    ensures |Shortest(line)| <= |p|
    decreases |p|
  {
    NotLonger(line, p);
    if |line| >= 2 {
      var q := p[1..|p| - 1];
      InnerPalindrome(p);
      Inside(line, p);
      if p[0] == line[0] && p[0] == Last(line) {
        ShortestIsShortest(line[1..|line| - 1], q);
      } else if p[0] == line[0] {
        ShortestIsShortest(line[1..], q);
      } else if p[0] == Last(line) {
        ShortestIsShortest(line[..|line| - 1], q);
      } else {
        ShortestIsShortest(line, q);
      }
    }
  }

  // ---- With a memo ------------------------------------------------------------------------

  /** The bytes from one place to another. */
  ghost predicate IsPart(s: string, line: string) {
    exists i, j :: IsSlice(s, line, i, j)
  }

  ghost predicate IsSlice(s: string, line: string, i: int, j: int) {
    0 <= i <= j <= |line| && s == line[i..j]
  }

  lemma PartInside(s: string, line: string, i: nat, j: nat)
    requires i <= j <= |line| && IsPart(s, line[i..j])
    ensures IsPart(s, line)
  {
    var k, l :| IsSlice(s, line[i..j], k, l);
    PartOfPart(line, i, j, k, l);
    assert IsSlice(s, line, i + k, i + l);
  }

  /** The entries that are new are for parts of the line. */
  ghost predicate Grown(before: map<string, string>, after: map<string, string>, line: string) {
    && (forall s :: s in before ==> s in after)
    && forall s :: s in after && s !in before ==> IsPart(s, line)
  }

  lemma GrownInside(before: map<string, string>, after: map<string, string>, line: string, i: nat, j: nat)
    requires i <= j <= |line| && Grown(before, after, line[i..j])
    ensures Grown(before, after, line) && (j - i < |line| && line !in before ==> line !in after)
  {
    forall s | s in after && s !in before
      ensures IsPart(s, line)
    {
      PartInside(s, line, i, j);
    }
  }

  lemma NothingGrown(m: map<string, string>, line: string)
    ensures Grown(m, m, line)
  {
  }

  lemma GrownBoth(m: map<string, string>, n: map<string, string>, o: map<string, string>, line: string)
    requires Grown(m, n, line) && Grown(n, o, line)
    ensures Grown(m, o, line)
  {
    hide IsPart;
  }

  lemma LineGrown(m: map<string, string>, n: map<string, string>, line: string, out: string)
    requires Grown(m, n, line)
    ensures Grown(m, n[line := out], line)
  {
    assert IsSlice(line, line, 0, |line|);
  }

  class Memo {
    var mem: map<string, string>
    /** How many lines have been computed. */
    ghost var computed: nat

    ghost predicate Valid()
      reads this
    {
      forall s :: s in mem ==> mem[s] == Shortest(s)
    }

    constructor ()
      ensures Valid() && mem == map[] && computed == 0
    {
      mem := map[];
      computed := 0;
    }

    method Memoize(line: string) returns (out: string)
      requires Valid()
      modifies this
      ensures Valid() && out == Shortest(line)
      ensures line in mem && Grown(old(mem), mem, line) && computed == old(computed) + |mem| - |old(mem)|
      decreases |line|, 1
    {
      if line in mem {
        return mem[line];
      }
      hide IsPart, Grown;
      ghost var before := mem;
      NothingGrown(before, line);
      computed := computed + 1;
      if |line| <= 1 {
        out := line;
      } else if line[0] == Last(line) {
        var inner := Memoize(line[1..|line| - 1]);
        GrownInside(before, mem, line, 1, |line| - 1);
        out := [line[0]] + inner + [line[0]];
      } else {
        out := Shorter(line);
      }
      LineGrown(before, mem, line, out);
      mem := mem[line := out];
    }

    /** The two ways when the ends differ. */
    method Shorter(line: string) returns (out: string)
      requires Valid() && |line| > 1 && line[0] != Last(line) && line !in mem
      modifies this
      ensures Valid() && out == Shortest(line)
      ensures line !in mem && Grown(old(mem), mem, line) && computed == old(computed) + |mem| - |old(mem)|
      decreases |line|, 0
    {
      hide IsPart, Grown;
      ghost var before := mem;
      var s1 := Memoize(line[0..|line| - 1]);
      ghost var between := mem;
      GrownInside(before, between, line, 0, |line| - 1);
      s1 := [Last(line)] + s1 + [Last(line)];
      var s2 := Memoize(line[1..|line|]);
      GrownInside(between, mem, line, 1, |line|);
      GrownBoth(before, between, mem, line);
      s2 := [line[0]] + s2 + [line[0]];
      assert line[0..|line| - 1] == line[..|line| - 1] && line[1..|line|] == line[1..];
      out := if |s1| < |s2| then s1 else s2;
    }
  }

  // ---- Three rolling rows -----------------------------------------------------------------

  /** The row holds the results for all parts of the line of that length. */
  ghost predicate RowHolds(row: seq<string>, line: string, len: nat) {
    |row| == |line| && forall start :: 0 <= start < |line| && start + len <= |line| ==> row[start] == Shortest(line[start..start + len])
  }

  /** Where the results for parts of a length are kept. */
  function RowOf(len: nat): nat { (len + 2) % 3 }

  method Dp(line: string) returns (out: string)
    ensures out == Shortest(line)
  {
    if |line| < 3 {
      return Shortest(line);
    }
    hide Shortest, RowHolds, RowOf;
    var n := |line|;
    var v3: array<seq<string>> := new seq<string>[3](_ => seq(n, _ => []));
    v3[0] := seq(n, i requires 0 <= i < n => line[i..i + 1]);
    FirstRows(v3[0], v3[2], line);
    var len: nat, idx: nat := 2, 1;
    Rolling(len);
    hide RowsReady;
    while len <= n
      invariant 2 <= len <= n + 1 && idx == RowOf(len) && RowsReady(v3[..], line, len)
    {
      idx := NextRow(v3, idx, line, len);
      len := len + 1;
    }
    Rolling(len);
    LastRow(v3[..], line, len);
    out := Whole(v3[(idx + 2) % 3], line);
  }

  /** Fill the row for one length; the result is the row for the next. */
  method NextRow(v3: array<seq<string>>, idx: nat, line: string, len: nat) returns (next: nat)
    requires v3.Length == 3 && len <= |line| && idx == RowOf(len) && RowsReady(v3[..], line, len)
    modifies v3
    ensures next == RowOf(len + 1) && RowsReady(v3[..], line, len + 1)
  {
    Rolling(len);
    hide RowHolds, RowOf;
    ghost var before := v3[..];
    FillRow(v3, idx, (idx + 2) % 3, (idx + 1) % 3, line, len);
    RowsNext(before, v3[..], line, len);
    next := (idx + 1) % 3;
  }

  lemma LastRow(rows: seq<seq<string>>, line: string, len: nat)
    requires RowsReady(rows, line, len)
    ensures RowHolds(rows[RowOf(len + 2)], line, len - 1)
  {
  }

  /** The two rows before the row for this length are filled. */
  ghost predicate RowsReady(rows: seq<seq<string>>, line: string, len: nat) {
    && len >= 2 && |rows| == 3 && |rows[RowOf(len)]| == |line|
    && RowHolds(rows[RowOf(len + 2)], line, len - 1) && RowHolds(rows[RowOf(len + 1)], line, len - 2)
  }

  lemma RowsNext(before: seq<seq<string>>, after: seq<seq<string>>, line: string, len: nat)
    requires RowsReady(before, line, len) && |after| == 3 && RowHolds(after[RowOf(len)], line, len)
    requires forall k :: 0 <= k < 3 && k != RowOf(len) ==> after[k] == before[k]
    ensures RowOf(len + 1) == (RowOf(len) + 1) % 3 && RowsReady(after, line, len + 1)
  {
    hide RowHolds, RowOf;
    Rolling(len);
    Rolling(len + 1);
    RowLength(before[RowOf(len + 1)], line, len - 2);
  }

  lemma Rolling(len: nat)
    ensures RowOf(2) == 1 && RowOf(4) == 0 && RowOf(3) == 2
    ensures RowOf(len) < 3 && RowOf(len + 1) == (RowOf(len) + 1) % 3 && RowOf(len + 2) == (RowOf(len) + 2) % 3
    ensures RowOf(len) != RowOf(len + 1) && RowOf(len) != RowOf(len + 2) && RowOf(len + 3) == RowOf(len)
  {
  }

  lemma RowLength(row: seq<string>, line: string, len: nat)
    requires RowHolds(row, line, len)
    ensures |row| == |line|
  {
  }

  /** Single letters, and nothing at all. */
  lemma FirstRows(row1: seq<string>, row0: seq<string>, line: string)
    requires |row1| == |row0| == |line|
    requires forall i :: 0 <= i < |line| ==> row1[i] == line[i..i + 1] && row0[i] == []
    ensures RowHolds(row1, line, 1) && RowHolds(row0, line, 0)
  {
  }

  method Whole(row: seq<string>, line: string) returns (out: string)
    requires line != [] && RowHolds(row, line, |line|)
    ensures out == Shortest(line)
  {
    out := row[0];
    assert line[0..0 + |line|] == line;
  }

  /** The results for one length from those for the two lengths before. */
  method FillRow(v3: array<seq<string>>, idx: nat, prevIdx1: nat, prevIdx2: nat, line: string, len: nat)
    requires v3.Length == 3 && idx < 3 && prevIdx1 < 3 && prevIdx2 < 3 && idx != prevIdx1 && idx != prevIdx2
    requires 2 <= len <= |line| && |v3[idx]| == |line|
    requires RowHolds(v3[prevIdx1], line, len - 1) && RowHolds(v3[prevIdx2], line, len - 2)
    modifies v3
    ensures RowHolds(v3[idx], line, len)
    ensures forall k :: 0 <= k < 3 && k != idx ==> v3[k] == old(v3[k])
  {
    hide Shortest, RowHolds, Filled;
    NotFilled(v3[idx], line, len);
    for start := 0 to |line| - len + 1
      invariant forall k :: 0 <= k < 3 && k != idx ==> v3[k] == old(v3[k])
      invariant |v3[idx]| == |line| && Filled(v3[idx], line, len, start)
    {
      var cell := Cell(v3[prevIdx1], v3[prevIdx2], line, start, len);
      FilledNext(v3[idx], line, len, start, cell);
      v3[idx] := v3[idx][start := cell];
    }
    AllFilled(v3[idx], line, len);
  }

  /** The row up to a start position. */
  ghost predicate Filled(row: seq<string>, line: string, len: nat, start: nat) {
    && |row| == |line| && 0 < len && start + len <= |line| + 1
    && forall s :: 0 <= s < start ==> row[s] == Shortest(line[s..s + len])
  }

  lemma NotFilled(row: seq<string>, line: string, len: nat)
    requires |row| == |line| && 0 < len <= |line|
    ensures Filled(row, line, len, 0)
  {
  }

  lemma FilledNext(row: seq<string>, line: string, len: nat, start: nat, cell: string)
    requires Filled(row, line, len, start) && start + len <= |line| && start < |line|
    requires cell == Shortest(line[start..start + len])
    ensures Filled(row[start := cell], line, len, start + 1)
  {
    hide Shortest;
  }

  lemma AllFilled(row: seq<string>, line: string, len: nat)
    requires len <= |line| && Filled(row, line, len, |line| - len + 1)
    ensures RowHolds(row, line, len)
  {
    hide Shortest;
  }

  /** The string for one part of the line from the strings for its shorter parts. */
  method Cell(row1: seq<string>, row2: seq<string>, line: string, start: nat, len: nat) returns (s: string)
    requires 2 <= len && start + len <= |line| && RowHolds(row1, line, len - 1) && RowHolds(row2, line, len - 2)
    ensures s == Shortest(line[start..start + len])
  {
    var front, back := line[start], line[start + len - 1];
    PartOfLine(line, start, len);
    if front == back {
      s := [front] + row2[start + 1] + [front];
    } else {
      var s1, s2 := row1[start], row1[start + 1];
      s := if |s1| < |s2| then [back] + s1 + [back] else [front] + s2 + [front];
    }
  }

  lemma PartOfLine(line: string, start: nat, len: nat)
    requires len >= 2 && start + len <= |line|
    ensures var s := line[start..start + len];
      && s[0] == line[start] && Last(s) == line[start + len - 1] && s[1..len - 1] == line[start + 1..start + 1 + (len - 2)]
      && s[..len - 1] == line[start..start + (len - 1)] && s[1..] == line[start + 1..start + 1 + (len - 1)]
  {
    PartOfPart(line, start, start + len, 1, len - 1);
    PartOfPart(line, start, start + len, 0, len - 1);
    PartOfPart(line, start, start + len, 1, len);
  }

  lemma PartOfPart(s: string, from: nat, to: nat, i: nat, j: nat)
    requires from <= to <= |s| && i <= j <= to - from
    ensures s[from..to][i..j] == s[from + i..from + j]
  {
    var v, w := s[from..to][i..j], s[from + i..from + j];
    forall k | 0 <= k < j - i
      ensures v[k] == w[k]
    {
      assert v[k] == s[from..to][i + k] == s[from + i + k];
    }
    assert v == w;
  }
}
