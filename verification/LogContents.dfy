/** What a log file holds when it loads, and when it does not: every byte belongs to a record whose checksum is right,
    up to a tail too short for the sizes it begins with. */
module LogContents {
  import opened Options
  import opened Numerals
  import opened BitStream
  import opened WriteAheadLog

  /** The records of the entries, one behind the other. */
  ghost function Records<K>(f: Format<K>, es: seq<Entry>): seq<byte> {
    if es == [] then [] else Record(f, es[0]) + Records(f, es[1..])
  }

  ghost predicate AllFit(es: seq<Entry>) {
    forall i :: 0 <= i < |es| ==> Fits(es[i])
  }

  /** The entries applied in order. */
  ghost function Applied<K>(f: Format<K>, es: seq<Entry>, d: map<K, seq<byte>>): Option<map<K, seq<byte>>> {
    if es == [] then Some(d)
    else
      match ApplyEntry(f, d, es[0])
      case None => None
      case Some(d') => Applied(f, es[1..], d')
  }

  /** A beginning of a record: not even the sizes are there, or they ask for more than there is. */
  ghost predicate Short(s: seq<byte>) {
    && s != []
    && (|s| < 13 ||
        var n := ToInt(s[9..13]);
        n >= 0 && (|s| < FIXED + n ||
          var k := ToInt(s[13 + n..FIXED + n]);
          k >= 0 && |s| < FIXED + n + k))
  }

  ghost predicate Holds<K>(f: Format<K>, s: seq<byte>, es: seq<Entry>, tail: seq<byte>, d: map<K, seq<byte>>,
    r: Loaded<K>) {
    && s == Records(f, es) + tail && AllFit(es) && r.Loaded? && Applied(f, es, d) == Some(r.dict)
    && if r.clean then tail == [] else Short(tail)
  }

  lemma TornIsShort<K>(f: Format<K>, data: seq<byte>, at: nat)
    requires at <= |data|
    ensures ReadAt(f, data, at).Torn? <==> Short(data[at..])
    ensures ReadAt(f, data, at).End? <==> data[at..] == []
  {
    hide Checksum, ToInt;
    var s := data[at..];
    if |s| >= 13 {
      assert s[9..13] == data[at + 9..at + 13];
      var n := ToInt(s[9..13]);
      if n >= 0 && |s| >= FIXED + n {
        assert s[13 + n..FIXED + n] == data[at + 13 + n..at + FIXED + n];
      }
    }
  }

  /** A replay that does not fail accounts for every byte. */
  lemma {:induction false} Accounts<K>(f: Format<K>, data: seq<byte>, at: nat, d: map<K, seq<byte>>)
    returns (es: seq<Entry>, tail: seq<byte>)
    requires at <= |data| && Replay(f, data, at, d).Loaded?
    ensures Holds(f, data[at..], es, tail, d, Replay(f, data, at, d))
    decreases |data| - at
  {
    hide ReadAt, ApplyEntry, Record, Short;
    var item := ReadAt(f, data, at);
    TornIsShort(f, data, at);
    if item.Got? {
      WroteWhatIsRead(f, data, at, item.entry, item.next);
      var rest;
      rest, tail := Accounts(f, data, item.next, ApplyEntry(f, d, item.entry).value);
      es := [item.entry] + rest;
      assert es[1..] == rest;
      assert data[at..] == data[at..item.next] + data[item.next..];
      assert data[at..] == Records(f, es) + tail;
    } else {
      es, tail := [], data[at..];
      assert [] + tail == tail;
    }
  }

  lemma {:induction false} Replays<K>(f: Format<K>, data: seq<byte>, at: nat, d: map<K, seq<byte>>, es: seq<Entry>,
    tail: seq<byte>, r: Loaded<K>)
    requires at <= |data| && Holds(f, data[at..], es, tail, d, r)
    ensures Replay(f, data, at, d) == r
    decreases |es|
  {
    hide ReadAt, ApplyEntry, Record, Short;
    if es == [] {
      assert data[at..] == tail;
      TornIsShort(f, data, at);
    } else {
      var next := at + |Record(f, es[0])|;
      assert data[at..] == Record(f, es[0]) + (Records(f, es[1..]) + tail);
      assert data[at..next] == data[at..][..|Record(f, es[0])|];
      ReadsRecords(f, data, at, es[0], next);
      assert data[next..] == data[at..][|Record(f, es[0])|..];
      Replays(f, data, next, ApplyEntry(f, d, es[0]).value, es[1..], tail, r);
    }
  }

  /** A file loads if and only if it is the records of entries that can be applied in order, behind which there is
      nothing or a beginning of a record. */
  lemma LoadExactly<K>(f: Format<K>, data: seq<byte>, r: Loaded<K>)
    requires r.Loaded?
    ensures Load(f, data) == r <==> exists es, tail :: Holds(f, data, es, tail, map[], r)
  {
    hide Holds, Replay;
    assert data[0..] == data;
    if Load(f, data) == r {
      var es, tail := Accounts(f, data, 0, map[]);
    }
    if es, tail :| Holds(f, data, es, tail, map[], r) {
      Replays(f, data, 0, map[], es, tail, r);
    }
  }

  // ---- Corruption ---------------------------------------------------------------------------

  /** The bytes of a record with some checksum. */
  ghost function Stored(sum: seq<byte>, e: Entry): seq<byte> {
    sum + [e.kind] + ToBytes(|e.key|, 4) + e.key + ToBytes(|e.value|, 4) + e.value
  }

  /** Behind a log that loads, what is read next decides. */
  lemma FailsAt<K>(f: Format<K>, base: seq<byte>, d: map<K, seq<byte>>, s: seq<byte>)
    requires Load(f, base) == Loaded(d, true)
    requires ReadAt(f, base + s, |base|).Corrupt? || ReadAt(f, base + s, |base|).BadLength?
    ensures Load(f, base + s) == Failed
  {
    hide ReadAt;
    ReplayAppend(f, base, s, 0, map[]);
  }

  /** A record with a wrong checksum, whatever lies behind it, makes the load fail. */
  lemma WrongChecksum<K>(f: Format<K>, base: seq<byte>, d: map<K, seq<byte>>, sum: seq<byte>, e: Entry, more: seq<byte>)
    requires Load(f, base) == Loaded(d, true) && Fits(e) && |sum| == 8 && LittleEndian(sum) != Checksum(f, e)
    ensures Load(f, base + (Stored(sum, e) + more)) == Failed
  {
    var g := f.(checksum := (_, _, _) => LittleEndian(sum));
    RecordWith(g, sum, e);
    hide Load, Checksum, LittleEndian, Record, Stored;
    var s, at := Stored(sum, e), |base|;
    var data, next := base + (s + more), at + |s|;
    assert data[at..next] == s;
    ReadsRecords(g, data, at, e, next);
    StoredSum(sum, e);
    assert data[at..at + 8] == s[..8];
    OtherChecksum(f, g, data, at, e, next);
    FailsAt(f, base, d, s + more);
  }

  lemma StoredSum(sum: seq<byte>, e: Entry)
    requires |sum| == 8
    ensures |Stored(sum, e)| >= 8 && Stored(sum, e)[..8] == sum
  {
  }

  /** With the stored checksum as the one to be expected it is a record. */
  lemma RecordWith<K>(g: Format<K>, sum: seq<byte>, e: Entry)
    requires |sum| == 8 && forall k, x, y :: g.checksum(k, x, y) == LittleEndian(sum)
    ensures Record(g, e) == Stored(sum, e)
  {
    hide LittleEndian, ToBytes;
    Widths();
    LittleEndianBound(sum);
    assert LittleEndian(sum) % WORD_LIMIT == LittleEndian(sum);
    ToBytesOf(sum);
  }

  lemma OtherChecksum<K>(f: Format<K>, g: Format<K>, data: seq<byte>, at: nat, e: Entry, next: nat)
    requires at <= |data| && ReadAt(g, data, at) == Got(e, next)
    requires LittleEndian(data[at..at + 8]) != Checksum(f, e)
    ensures ReadAt(f, data, at) == Corrupt
  {
    hide Checksum, LittleEndian, ToInt;
  }

  /** So does a size that reads as a negative number. */
  lemma NegativeSize<K>(f: Format<K>, base: seq<byte>, d: map<K, seq<byte>>, s: seq<byte>)
    requires Load(f, base) == Loaded(d, true) && |s| >= 13
    requires var n := ToInt(s[9..13]); n < 0 || (|s| >= FIXED + n && ToInt(s[13 + n..FIXED + n]) < 0)
    ensures Load(f, base + s) == Failed
  {
    hide Load, Checksum, ToInt;
    var data, at, n := base + s, |base|, ToInt(s[9..13]);
    assert data[at + 9..at + 13] == s[9..13];
    if n >= 0 {
      assert data[at + 13 + n..at + FIXED + n] == s[13 + n..FIXED + n];
    }
    FailsAt(f, base, d, s);
  }

  /** The entry with byte i of its record changed, where i is not in the checksum nor in a size. */
  function Changed(e: Entry, i: nat, x: byte): Entry {
    var n := |e.key|;
    if i == 8 then e.(kind := x)
    else if 13 <= i < 13 + n then e.(key := e.key[i - 13 := x])
    else if FIXED + n <= i < FIXED + n + |e.value| then e.(value := e.value[i - FIXED - n := x])
    else e
  }

  /** A record in which one byte has changed, not one of a size: a byte of the checksum always makes the load fail, any
      other byte if the entry now has another checksum, and if not it is the record of that entry. */
  lemma ChangedByte<K>(f: Format<K>, base: seq<byte>, d: map<K, seq<byte>>, e: Entry, i: nat, x: byte, more: seq<byte>)
    requires Load(f, base) == Loaded(d, true) && Fits(e) && i < |Record(f, e)|
    requires !(9 <= i < 13) && !(13 + |e.key| <= i < FIXED + |e.key|)
    ensures i < 8 && x != Record(f, e)[i] ==> Load(f, base + (Record(f, e)[i := x] + more)) == Failed
    ensures i >= 8 && Checksum(f, Changed(e, i, x)) != Checksum(f, e) ==>
      Load(f, base + (Record(f, e)[i := x] + more)) == Failed
    ensures i >= 8 && Checksum(f, Changed(e, i, x)) == Checksum(f, e) ==>
      Record(f, e)[i := x] == Record(f, Changed(e, i, x))
  {
    hide Load, Checksum, LittleEndian, ToBytes;
    var c := Checksum(f, e);
    var sum := ToBytes(c, 8);
    Widths();
    LittleEndianToBytes(c, 8);
    if i < 8 {
      var sum' := sum[i := x];
      assert Record(f, e)[i := x] == Stored(sum', e) && Record(f, e)[i] == sum[i];
      if x != sum[i] {
        ToBytesOf(sum);
        ToBytesOf(sum');
        WrongChecksum(f, base, d, sum', e, more);
      }
    } else {
      var e' := Changed(e, i, x);
      assert Record(f, e)[i := x] == Stored(sum, e');
      if Checksum(f, e') != c {
        WrongChecksum(f, base, d, sum, e', more);
      }
    }
  }

  // ---- The checksum of the source -----------------------------------------------------------

  /** One step of the checksum, in 64 bits. */
  function Mix(c: nat, w: nat): nat {
    (c * 239 + w) % WORD_LIMIT
  }

  /** Words of eight bytes, and what is left as a shorter one. */
  function Combine(c: nat, s: seq<byte>): nat
    decreases |s|
  {
    if s == [] then c
    else if |s| < 8 then Mix(c, LittleEndian(s))
    else Combine(Mix(c, LittleEndian(s[..8])), s[8..])
  }

  function Calculate(kind: byte, key: seq<byte>, value: seq<byte>): nat {
    Combine(Combine(kind, key), value)
  }

  /** The multiplier has an inverse modulo 2^64. */
  const INVERSE: nat := 7255204782128442895
  const TURNS: nat := 94

  /** Each step tells its two arguments apart. */
  lemma MixTells(c: nat, c': nat, w: nat, w': nat)
    requires c < WORD_LIMIT && c' < WORD_LIMIT && w < WORD_LIMIT && w' < WORD_LIMIT && Mix(c, w) == Mix(c', w')
    ensures c == c' <==> w == w'
  {
    var p, p' := c * 239 + w, c' * 239 + w';
    var k := p / WORD_LIMIT - p' / WORD_LIMIT;
    assert p - p' == WORD_LIMIT * k;
    if w == w' {
      assert 239 * (c - c') == WORD_LIMIT * k;
      assert c - c' == WORD_LIMIT * (INVERSE * k - TURNS * (c - c'));
    }
  }

  lemma MixBound(c: nat, w: nat)
    ensures Mix(c, w) < WORD_LIMIT
  {
  }

  lemma {:induction false} CombineBound(c: nat, s: seq<byte>)
    requires c < WORD_LIMIT
    ensures Combine(c, s) < WORD_LIMIT
    decreases |s|
  {
    hide LittleEndian;
    if |s| >= 8 {
      CombineBound(Mix(c, LittleEndian(s[..8])), s[8..]);
    }
  }

  lemma WordBound(s: seq<byte>)
    requires |s| <= 8
    ensures LittleEndian(s) < WORD_LIMIT
  {
    hide LittleEndian;
    LittleEndianBound(s);
    Widths();
    PowMonotone(256, |s|, 8);
  }

  /** Different numbers to begin with stay different. */
  lemma {:induction false} CombineStart(c: nat, c': nat, s: seq<byte>)
    requires c < WORD_LIMIT && c' < WORD_LIMIT && c != c'
    ensures Combine(c, s) != Combine(c', s)
    decreases |s|
  {
    hide LittleEndian, Mix;
    if s != [] {
      var word := if |s| < 8 then s else s[..8];
      var w := LittleEndian(word);
      WordBound(word);
      MixBound(c, w);
      MixBound(c', w);
      if Mix(c, w) == Mix(c', w) {
        MixTells(c, c', w, w);
      } else if |s| >= 8 {
        CombineStart(Mix(c, w), Mix(c', w), s[8..]);
      }
    }
  }

  /** A single byte makes a difference. */
  lemma {:induction false} CombineByte(c: nat, s: seq<byte>, i: nat, x: byte)
    requires c < WORD_LIMIT && i < |s| && x != s[i]
    ensures Combine(c, s) != Combine(c, s[i := x])
    decreases |s|
  {
    hide LittleEndian, Mix;
    var t := s[i := x];
    if |s| < 8 {
      OtherWord(c, s, t);
    } else if i < 8 {
      assert s[..8][i] != t[..8][i] && s[8..] == t[8..];
      OtherWord(c, s[..8], t[..8]);
      MixBound(c, LittleEndian(s[..8]));
      MixBound(c, LittleEndian(t[..8]));
      CombineStart(Mix(c, LittleEndian(s[..8])), Mix(c, LittleEndian(t[..8])), s[8..]);
    } else {
      assert s[..8] == t[..8] && t[8..] == s[8..][i - 8 := x];
      MixBound(c, LittleEndian(s[..8]));
      CombineByte(Mix(c, LittleEndian(s[..8])), s[8..], i - 8, x);
    }
  }

  lemma OtherWord(c: nat, s: seq<byte>, t: seq<byte>)
    requires c < WORD_LIMIT && |s| == |t| <= 8 && s != t
    ensures Mix(c, LittleEndian(s)) != Mix(c, LittleEndian(t))
  {
    hide LittleEndian, Mix;
    WordBound(s);
    WordBound(t);
    ToBytesOf(s);
    ToBytesOf(t);
    if Mix(c, LittleEndian(s)) == Mix(c, LittleEndian(t)) {
      MixTells(c, c, LittleEndian(s), LittleEndian(t));
    }
  }

  /** It changes with every single byte of the kind, the key and the value. */
  lemma OneByteTells(e: Entry, i: nat, x: byte)
    requires i == 8 || 13 <= i < 13 + |e.key| || FIXED + |e.key| <= i < FIXED + |e.key| + |e.value|
    requires var e' := Changed(e, i, x); e' != e
    ensures var e' := Changed(e, i, x); Calculate(e.kind, e.key, e.value) != Calculate(e'.kind, e'.key, e'.value)
  {
    hide Combine;
    var n, e' := |e.key|, Changed(e, i, x);
    CombineBound(e.kind, e.key);
    CombineBound(e'.kind, e'.key);
    if i == 8 {
      CombineStart(e.kind, x, e.key);
      CombineStart(Combine(e.kind, e.key), Combine(x, e.key), e.value);
    } else if i < 13 + n {
      assert e.key[i - 13 := e.key[i - 13]] == e.key;
      CombineByte(e.kind, e.key, i - 13, x);
      CombineStart(Combine(e.kind, e.key), Combine(e.kind, e'.key), e.value);
    } else {
      assert e.value[i - FIXED - n := e.value[i - FIXED - n]] == e.value;
      CombineByte(Combine(e.kind, e.key), e.value, i - FIXED - n, x);
    }
  }

  /** The bytes of a record: key "k", value 1. */
  lemma RecordExample<K>(f: Format<K>)
    requires forall k, s, v :: f.checksum(k, s, v) == Calculate(k, s, v)
    ensures Record(f, Entry(ADD, [107], [1])) ==
      [0xE6, 0x63, 0, 0, 0, 0, 0, 0, 0, 1, 0, 0, 0, 107, 1, 0, 0, 0, 1]
    ensures [ADD, UPDATE, REMOVE] == [0, 1, 2]
  {
    ChecksumExample(107, 1);
    BytesExample(25574, 8, 0xE6, 0x63);
    BytesExample(1, 4, 1, 0);
    hide ToBytes, Calculate;
    assert Checksum(f, Entry(ADD, [107], [1])) == 25574;
  }

  lemma ChecksumExample(k: byte, v: byte)
    ensures Calculate(ADD, [k], [v]) == k * 239 + v
  {
    ValOne(k, 256);
    ValOne(v, 256);
    assert LittleEndian([k]) == k && LittleEndian([v]) == v;
    hide LittleEndian;
  }

  /** Where the sizes ask for more than is there, whatever lies behind is taken for a torn tail. */
  lemma ShortEnds<K>(f: Format<K>, base: seq<byte>, d: map<K, seq<byte>>, s: seq<byte>)
    requires Load(f, base) == Loaded(d, true) && Short(s)
    ensures Load(f, base + s) == Loaded(d, false)
  {
    hide ReadAt, Short;
    ReplayAppend(f, base, s, 0, map[]);
    assert (base + s)[|base|..] == s;
    TornIsShort(f, base + s, |base|);
  }

  /** A record of which only the key size has grown beyond the end of the file: it and all records behind it are lost
      without an error. */
  lemma GrownSize<K>(f: Format<K>, base: seq<byte>, d: map<K, seq<byte>>, s: seq<byte>, size: seq<byte>)
    requires Load(f, base) == Loaded(d, true) && |s| >= 13 && |size| == 4 && ToInt(size) >= 0
    requires FIXED + ToInt(size) > |s|
    ensures Load(f, base + (s[..9] + size + s[13..])) == Loaded(d, false)
  {
    hide ToInt;
    var t := s[..9] + size + s[13..];
    assert t[9..13] == size;
    ShortEnds(f, base, d, t);
  }

  lemma CalculateBound(e: Entry)
    ensures Calculate(e.kind, e.key, e.value) < WORD_LIMIT
  {
    CombineBound(e.kind, e.key);
    CombineBound(Combine(e.kind, e.key), e.value);
  }

  /** With that checksum every single changed byte of a record outside its two sizes makes the load fail, whatever lies
      behind it. */
  lemma OneByteFails<K>(f: Format<K>, base: seq<byte>, d: map<K, seq<byte>>, e: Entry, i: nat, x: byte, more: seq<byte>)
    requires forall k, s, v :: f.checksum(k, s, v) == Calculate(k, s, v)
    requires Load(f, base) == Loaded(d, true) && Fits(e) && i < |Record(f, e)| && x != Record(f, e)[i]
    requires !(9 <= i < 13) && !(13 + |e.key| <= i < FIXED + |e.key|)
    ensures Load(f, base + (Record(f, e)[i := x] + more)) == Failed
  {
    hide Load, Calculate;
    ChangedByte(f, base, d, e, i, x, more);
    if i >= 8 {
      var e' := Changed(e, i, x);
      ByteOf(f, e, i);
      OneByteTells(e, i, x);
      CalculateBound(e);
      CalculateBound(e');
    }
  }

  lemma ByteOf<K>(f: Format<K>, e: Entry, i: nat)
    requires 8 <= i < |Record(f, e)|
    ensures i == 8 ==> Record(f, e)[i] == e.kind
    ensures 13 <= i < 13 + |e.key| ==> Record(f, e)[i] == e.key[i - 13]
    ensures i >= FIXED + |e.key| ==> Record(f, e)[i] == e.value[i - FIXED - |e.key|]
  {
    hide Checksum, ToBytes;
  }
}
