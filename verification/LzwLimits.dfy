/** The codes of a chunk are determined by the chunk: it has one complete greedy parse. */
module LzwLimits {
  import opened Numerals
  import opened BitStream
  import opened Lzw
  import opened LzwStream

  // ---- One parse --------------------------------------------------------------------------

  /** The beginnings of an entry, of two bytes or more, are entries made no later. */
  lemma {:induction false} BeginningIsEntry(chunk: seq<byte>, starts: seq<nat>, codes: seq<nat>, j: nat, n: nat)
    returns (i: nat)
    requires Complete(chunk, starts, codes) && j < |codes| && starts[j + 1] < |chunk|
    requires 2 <= n <= starts[j + 1] + 1 - starts[j]
    ensures i <= j && starts[i] < starts[i + 1] < |chunk|
    ensures EntryText(chunk, starts, i) == chunk[starts[j]..starts[j] + n]
  {
    hide Greedy;
    PhraseSize(chunk, starts, codes, j);
    assert NamesPhrase(chunk, starts, codes[j], j);
    if n == starts[j + 1] + 1 - starts[j] {
      i := j;
    } else {
      var e := codes[j] - 256;
      assert starts[e + 1] <= starts[j];
      i := BeginningIsEntry(chunk, starts, codes, e, n);
      SameBeginning(chunk, starts[e], starts[e + 1] + 1, starts[j], starts[j + 1], n);
    }
  }

  lemma SameBeginning(s: seq<byte>, a: nat, b: nat, c: nat, d: nat, n: nat)
    requires a <= b <= |s| && c <= d <= |s| && s[a..b] == s[c..d] && n <= d - c
    ensures a + n <= b && s[a..a + n] == s[c..c + n]
  {
    assert |s[a..b]| == b - a && |s[c..d]| == d - c;
    var u, v := s[a..a + n], s[c..c + n];
    forall i | 0 <= i < n
      ensures u[i] == v[i]
    {
      assert s[a..b][i] == s[c..d][i];
    }
  }

  /** And so are the beginnings of a phrase. */
  lemma PhraseBeginning(chunk: seq<byte>, starts: seq<nat>, codes: seq<nat>, k: nat, n: nat) returns (i: nat)
    requires Complete(chunk, starts, codes) && k < |codes| && 2 <= n <= starts[k + 1] - starts[k]
    ensures i < k && starts[i] < starts[i + 1] < |chunk|
    ensures EntryText(chunk, starts, i) == chunk[starts[k]..starts[k] + n]
  {
    hide Greedy;
    PhraseSize(chunk, starts, codes, k);
    assert NamesPhrase(chunk, starts, codes[k], k);
    var e := codes[k] - 256;
    assert starts[e + 1] <= starts[k];
    SameBeginning(chunk, starts[e], starts[e + 1] + 1, starts[k], starts[k + 1], n);
    i := BeginningIsEntry(chunk, starts, codes, e, n);
  }

  /** The next phrase of two parses that agree so far has the same end: were one shorter, it would have
      been the beginning of an entry and so an entry itself. */
  lemma NotShorter(chunk: seq<byte>, starts: seq<nat>, codes: seq<nat>, starts': seq<nat>, codes': seq<nat>, k: nat)
    requires Complete(chunk, starts, codes) && Complete(chunk, starts', codes')
    requires k < |codes| && k < |codes'| && forall j :: 0 <= j <= k ==> starts[j] == starts'[j]
    ensures starts[k + 1] >= starts'[k + 1]
  {
    PhraseSize(chunk, starts, codes, k);
    PhraseSize(chunk, starts', codes', k);
    if starts[k + 1] < starts'[k + 1] {
      var i := PhraseBeginning(chunk, starts', codes', k, starts[k + 1] + 1 - starts[k]);
      NoEarlierEntry(chunk, starts, i, k);
      assert false;
    }
  }

  lemma NoEarlierEntry(chunk: seq<byte>, starts: seq<nat>, i: nat, k: nat)
    requires Boundaries(chunk, starts) && Greedy(chunk, starts) && i < k < |starts| - 1 && starts[k + 1] < |chunk|
    ensures starts[i] < starts[i + 1] < |chunk| && EntryText(chunk, starts, i) != chunk[starts[k]..starts[k + 1] + 1]
  {
    assert starts[i] < starts[i + 1] <= starts[k] < starts[k + 1];
    assert EntryText(chunk, starts, i) != EntryText(chunk, starts, k);
  }

  lemma SameCode(chunk: seq<byte>, starts: seq<nat>, codes: seq<nat>, codes': seq<nat>, k: nat)
    requires Complete(chunk, starts, codes) && Complete(chunk, starts, codes') && k < |codes|
    ensures codes[k] == codes'[k]
  {
    PhraseSize(chunk, starts, codes, k);
    PhraseSize(chunk, starts, codes', k);
    assert NamesPhrase(chunk, starts, codes[k], k) && NamesPhrase(chunk, starts, codes'[k], k);
    if codes[k] >= 256 {
      var e, e' := codes[k] - 256, codes'[k] - 256;
      assert starts[e + 1] <= starts[k] < |chunk| && starts[e' + 1] <= starts[k];
      assert EntryText(chunk, starts, e) == EntryText(chunk, starts, e');
    }
  }

  lemma {:induction false} SameStarts(chunk: seq<byte>, starts: seq<nat>, codes: seq<nat>, starts': seq<nat>,
    codes': seq<nat>, k: nat)
    requires Complete(chunk, starts, codes) && Complete(chunk, starts', codes') && k <= |codes|
    ensures k <= |codes'| && forall j :: 0 <= j <= k ==> starts[j] == starts'[j]
  {
    hide Greedy, NamesPhrase;
    if k > 0 {
      SameStarts(chunk, starts, codes, starts', codes', k - 1);
      PhraseSize(chunk, starts, codes, k - 1);
      NotShorter(chunk, starts, codes, starts', codes', k - 1);
      NotShorter(chunk, starts', codes', starts, codes, k - 1);
    }
  }

  /** A chunk has one complete greedy parse, whatever hash the dictionary uses. */
  lemma UniqueParse(chunk: seq<byte>, starts: seq<nat>, codes: seq<nat>, starts': seq<nat>, codes': seq<nat>)
    requires Complete(chunk, starts, codes) && Complete(chunk, starts', codes')
    ensures starts == starts' && codes == codes'
  {
    hide Greedy, NamesPhrase;
    SameStarts(chunk, starts, codes, starts', codes', |codes|);
    SameStarts(chunk, starts', codes', starts, codes, |codes'|);
    assert starts == starts';
    forall k | 0 <= k < |codes|
      ensures codes[k] == codes'[k]
    {
      SameCode(chunk, starts, codes, codes', k);
    }
  }
}
