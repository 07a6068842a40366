/** The write-ahead log of the persistent dictionary: records in a file, the reader that stops at a torn
    tail, and the replay that rebuilds the dictionary. */
module WriteAheadLog {
  import opened Options
  import opened Numerals
  import opened BitStream

  /** Lengths are stored as signed 32-bit numbers, checksums as unsigned 64-bit numbers. */
  const INT_LIMIT: nat := 0x8000_0000
  const WORD_LIMIT: nat := 0x1_0000_0000_0000_0000

  const FIXED: nat := 17

  const ADD: byte := 0
  const UPDATE: byte := 1
  const REMOVE: byte := 2

  /** What the log takes from outside: a checksum, and the text encoding of keys. */
  datatype Format<!K> = Format(
    checksum: (byte, seq<byte>, seq<byte>) -> nat,
    encode: K -> seq<byte>,
    decode: seq<byte> -> K)

  datatype Entry = Entry(kind: byte, key: seq<byte>, value: seq<byte>)

  predicate Fits(e: Entry) {
    |e.key| < INT_LIMIT && |e.value| < INT_LIMIT
  }

  function Checksum<K>(f: Format<K>, e: Entry): (c: nat)
    ensures c < WORD_LIMIT
  {
    f.checksum(e.kind, e.key, e.value) % WORD_LIMIT
  }

  /** The bytes of one record. */
  function Record<K>(f: Format<K>, e: Entry): (s: seq<byte>)
    ensures |s| == FIXED + |e.key| + |e.value|
  {
    ToBytes(Checksum(f, e), 8) + [e.kind] + ToBytes(|e.key|, 4) + e.key + ToBytes(|e.value|, 4) + e.value
  }

  lemma Widths()
    ensures Pow(256, 4) == 2 * INT_LIMIT && Pow(256, 8) == WORD_LIMIT
  {
    assert Pow(256, 2) == 0x1_0000;
    PowAdd(256, 2, 2);
    PowAdd(256, 4, 4);
  }

  /** Four bytes as a signed number. */
  function ToInt(s: seq<byte>): int {
    var v := LittleEndian(s);
    if v < INT_LIMIT then v else v - 2 * INT_LIMIT
  }

  lemma ToIntOf(n: nat)
    requires n < INT_LIMIT
    ensures ToInt(ToBytes(n, 4)) == n
  {
    Widths();
    LittleEndianToBytes(n, 4);
  }

  // ---- Reading one record -----------------------------------------------------------------

  datatype Item = End | Torn | Corrupt | BadLength | Got(entry: Entry, next: nat)

  /** What the reader finds at an offset. */
  function ReadAt<K>(f: Format<K>, data: seq<byte>, at: nat): (item: Item)
    requires at <= |data|
    ensures item.Got? ==> at < item.next <= |data|
  {
    var left := |data| - at;
    if left == 0 then End
    else if left < 13 then Torn
    else
      var n := ToInt(data[at + 9..at + 13]);
      if n < 0 then BadLength
      else if left < FIXED + n then Torn
      else
        var k := ToInt(data[at + 13 + n..at + FIXED + n]);
        if k < 0 then BadLength
        else if left < FIXED + n + k then Torn
        else
          var e := Entry(data[at + 8], data[at + 13..at + 13 + n], data[at + FIXED + n..at + FIXED + n + k]);
          if LittleEndian(data[at..at + 8]) != Checksum(f, e) then Corrupt
          else Got(e, at + FIXED + n + k)
  }

  /** Where the fields of a record lie, in a file that holds the record up to its length n. */
  lemma Fields<K>(f: Format<K>, e: Entry, data: seq<byte>, at: nat, n: nat)
    requires Fits(e) && at + n == |data| && n <= |Record(f, e)| && data[at..] == Record(f, e)[..n]
    ensures n >= 13 ==> data[at..at + 8] == ToBytes(Checksum(f, e), 8) && data[at + 8] == e.kind
    ensures n >= 13 ==> ToInt(data[at + 9..at + 13]) == |e.key|
    ensures n >= FIXED + |e.key| ==> data[at + 13..at + 13 + |e.key|] == e.key
    ensures n >= FIXED + |e.key| ==> ToInt(data[at + 13 + |e.key|..at + FIXED + |e.key|]) == |e.value|
    ensures n == |Record(f, e)| ==> data[at + FIXED + |e.key|..] == e.value
  {
    hide ToInt, Checksum, ToBytes;
    var r, m := Record(f, e), |e.key|;
    ToIntOf(m);
    ToIntOf(|e.value|);
    if n >= 13 {
      Slice(data, at, r, n, 0, 8);
      Slice(data, at, r, n, 9, 13);
      assert data[at + 8] == data[at..][8] == r[8];
      assert r[0..8] == ToBytes(Checksum(f, e), 8) && r[9..13] == ToBytes(m, 4);
    }
    if n >= FIXED + m {
      Slice(data, at, r, n, 13, 13 + m);
      Slice(data, at, r, n, 13 + m, FIXED + m);
      SizeField(ToBytes(Checksum(f, e), 8) + [e.kind] + ToBytes(m, 4), e.key, ToBytes(|e.value|, 4) + e.value);
      SizeField(ToBytes(Checksum(f, e), 8) + [e.kind] + ToBytes(m, 4) + e.key, ToBytes(|e.value|, 4), e.value);
      assert r == ToBytes(Checksum(f, e), 8) + [e.kind] + ToBytes(m, 4) + e.key + (ToBytes(|e.value|, 4) + e.value);
    }
    if n == |r| {
      Slice(data, at, r, n, FIXED + m, n);
      assert data[at + FIXED + m..at + n] == data[at + FIXED + m..];
      assert r[FIXED + m..n] == e.value;
    }
  }

  lemma Slice(data: seq<byte>, at: nat, r: seq<byte>, n: nat, i: nat, j: nat)
    requires at + n == |data| && n <= |r| && data[at..] == r[..n] && i <= j <= n
    ensures data[at + i..at + j] == r[i..j]
  {
    forall x | 0 <= x < j - i
      ensures data[at + i..at + j][x] == r[i..j][x]
    {
      assert data[at..][i + x] == r[..n][i + x];
    }
  }

  lemma SizeField(a: seq<byte>, b: seq<byte>, c: seq<byte>)
    ensures (a + b + c)[|a|..|a| + |b|] == b
  {
  }

  /** A record at the end of the file, whole or torn anywhere, is read back or ends the log; it is never
      taken for a corrupt one. */
  lemma ReadWritten<K>(f: Format<K>, base: seq<byte>, e: Entry, n: nat)
    requires Fits(e) && n <= |Record(f, e)|
    ensures ReadAt(f, base + Record(f, e)[..n], |base|) ==
      if n == 0 then End else if n < |Record(f, e)| then Torn else Got(e, |base| + n)
  {
    hide ToInt, Record, Checksum;
    var data, at := base + Record(f, e)[..n], |base|;
    assert data[at..] == Record(f, e)[..n];
    Fields(f, e, data, at, n);
    Widths();
    LittleEndianToBytes(Checksum(f, e), 8);
    if n == |Record(f, e)| {
      assert data[at + FIXED + |e.key|..at + n] == data[at + FIXED + |e.key|..];
    }
  }

  /** What the reader returns is what was written: exactly the bytes of its record. */
  lemma ReadsRecords<K>(f: Format<K>, data: seq<byte>, at: nat, e: Entry, next: nat)
    requires at <= next <= |data|
    ensures ReadAt(f, data, at) == Got(e, next) <==> Fits(e) && data[at..next] == Record(f, e)
  {
    if Fits(e) && data[at..next] == Record(f, e) {
      ReadWritten(f, data[..at], e, |Record(f, e)|);
      assert data[..at] + Record(f, e)[..|Record(f, e)|] == data[..next];
      assert data[..next] + data[next..] == data;
      ReadWithin(f, data[..next], data[next..], at);
    }
    if ReadAt(f, data, at) == Got(e, next) {
      WroteWhatIsRead(f, data, at, e, next);
    }
  }

  lemma WroteWhatIsRead<K>(f: Format<K>, data: seq<byte>, at: nat, e: Entry, next: nat)
    requires at <= |data| && ReadAt(f, data, at) == Got(e, next)
    ensures Fits(e) && data[at..next] == Record(f, e)
  {
    hide Checksum, LittleEndian, ToBytes;
    var n, k := |e.key|, |e.value|;
    IntRead(data[at + 9..at + 13]);
    IntRead(data[at + 13 + n..at + FIXED + n]);
    ToBytesOf(data[at..at + 8]);
    SixParts(data, at, at + 8, at + 9, at + 13, at + 13 + n, at + FIXED + n, next);
  }

  lemma IntRead(s: seq<byte>)
    requires |s| == 4 && ToInt(s) >= 0
    ensures ToInt(s) < INT_LIMIT && ToBytes(ToInt(s), 4) == s
  {
    hide LittleEndian, ToBytes;
    Widths();
    ToBytesOf(s);
    LittleEndianBound(s);
  }

  lemma SixParts(s: seq<byte>, a: nat, b: nat, c: nat, d: nat, e: nat, g: nat, h: nat)
    requires a <= b < c <= d <= e <= g <= h <= |s| && c == b + 1
    ensures s[a..h] == s[a..b] + [s[b]] + s[c..d] + s[d..e] + s[e..g] + s[g..h]
  {
    assert s[b..c] == [s[b]];
    Join(s, a, b, c);
    Join(s, a, c, d);
    Join(s, a, d, e);
    Join(s, a, e, g);
    Join(s, a, g, h);
  }

  lemma Join(s: seq<byte>, i: nat, j: nat, k: nat)
    requires i <= j <= k <= |s|
    ensures s[i..j] + s[j..k] == s[i..k]
  {
  }

  lemma {:induction false} ToBytesOf(s: seq<byte>)
    ensures ToBytes(LittleEndian(s), |s|) == s
  {
    if s != [] {
      ToBytesOf(s[1..]);
      var v := LittleEndian(s[1..]);
      DivModUnique(s[0], v, 256);
      assert LittleEndian(s) == s[0] + 256 * v;
      hide LittleEndian;
      assert s == [s[0]] + s[1..];
    }
  }

  /** Bytes behind a record do not change how it is read. */
  lemma ReadWithin<K>(f: Format<K>, data: seq<byte>, more: seq<byte>, at: nat)
    requires at <= |data| && ReadAt(f, data, at).Got?
    ensures ReadAt(f, data + more, at) == ReadAt(f, data, at)
  {
    hide ToInt, Checksum;
    var e := ReadAt(f, data, at).entry;
    var n, k := |e.key|, |e.value|;
    SameSlice(data, more, at, at + 8);
    SameSlice(data, more, at + 9, at + 13);
    SameSlice(data, more, at + 13, at + 13 + n);
    SameSlice(data, more, at + 13 + n, at + FIXED + n);
    SameSlice(data, more, at + FIXED + n, at + FIXED + n + k);
  }

  lemma SameSlice(data: seq<byte>, more: seq<byte>, i: nat, j: nat)
    requires i <= j <= |data|
    ensures (data + more)[i..j] == data[i..j]
  {
  }

  /** The log reader: the position in the file moves from record to record. */
  class Reader<K> {
    const f: Format<K>
    const data: seq<byte>
    var position: nat

    constructor (f: Format<K>, data: seq<byte>)
      ensures this.f == f && this.data == data && position == 0
    {
      this.f := f;
      this.data := data;
      position := 0;
    }

    /** The bytes a read of n returns; fewer at the end of the file. */
    method ReadBytes(n: nat) returns (s: seq<byte>)
      requires position <= |data|
      modifies this
      ensures position <= |data|
      ensures if old(position) + n <= |data|
        then s == data[old(position)..old(position) + n] && position == old(position) + n
        else |s| < n && position == |data|
    {
      if position + n <= |data| {
        s := data[position..position + n];
      } else {
        s := data[position..];
      }
      position := position + |s|;
    }

    /** Read the next record; an incomplete one ends the log. */
    method MoveNext() returns (item: Item)
      requires position <= |data|
      modifies this
      ensures item == ReadAt(f, data, old(position))
      ensures item.Got? ==> position == item.next
      ensures item.End? || item.Torn? ==> position == |data|
    {
      hide ToInt, Checksum, LittleEndian;
      ghost var at := position;
      if position == |data| {
        return End;
      }
      var sum := ReadBytes(8);
      if |sum| < 8 { position := |data|; return Torn; }
      assert sum == data[at..at + 8] && position == at + 8;
      var kind := ReadBytes(1);
      if |kind| < 1 { position := |data|; return Torn; }
      assert kind[0] == data[at + 8] && position == at + 9;
      var size := ReadBytes(4);
      if |size| < 4 { position := |data|; return Torn; }
      assert size == data[at + 9..at + 13] && position == at + 13;
      var n := ToInt(size);
      if n < 0 { return BadLength; }
      var key := ReadBytes(n);
      if |key| < n { position := |data|; return Torn; }
      assert key == data[at + 13..at + 13 + n] && position == at + 13 + n;
      size := ReadBytes(4);
      if |size| < 4 { position := |data|; return Torn; }
      assert size == data[at + 13 + n..at + FIXED + n] && position == at + FIXED + n;
      var k := ToInt(size);
      if k < 0 { return BadLength; }
      var value := ReadBytes(k);
      if |value| < k { position := |data|; return Torn; }
      assert value == data[at + FIXED + n..at + FIXED + n + k] && position == at + FIXED + n + k;
      var e := Entry(kind[0], key, value);
      if LittleEndian(sum) != Checksum(f, e) {
        return Corrupt;
      }
      item := Got(e, position);
    }
  }

  // ---- Replay -----------------------------------------------------------------------------

  datatype Loaded<K> = Loaded(dict: map<K, seq<byte>>, clean: bool) | Failed

  /** One record applied to the dictionary; adding a key twice and unknown kinds are errors. */
  function ApplyEntry<K(==)>(f: Format<K>, d: map<K, seq<byte>>, e: Entry): Option<map<K, seq<byte>>> {
    var k := f.decode(e.key);
    if e.kind == ADD then (if k in d then None else Some(d[k := e.value]))
    else if e.kind == UPDATE then Some(d[k := e.value])
    else if e.kind == REMOVE then Some(d - {k})
    else None
  }

  /** The dictionary after replaying the log from an offset on, and whether the log ends with a whole
      record. */
  function Replay<K(==)>(f: Format<K>, data: seq<byte>, at: nat, d: map<K, seq<byte>>): Loaded<K>
    requires at <= |data|
    decreases |data| - at
  {
    match ReadAt(f, data, at)
    case End => Loaded(d, true)
    case Torn => Loaded(d, false)
    case Corrupt => Failed
    case BadLength => Failed
    case Got(e, next) =>
      match ApplyEntry(f, d, e)
      case None => Failed
      case Some(d') => Replay(f, data, next, d')
  }

  function Load<K(==)>(f: Format<K>, data: seq<byte>): Loaded<K> {
    Replay(f, data, 0, map[])
  }

  /** Rebuild the dictionary from a file. */
  method LoadSnapshot<K(==)>(f: Format<K>, data: seq<byte>) returns (r: Loaded<K>)
    ensures r == Load(f, data)
  {
    hide ReadAt, ApplyEntry;
    var reader := new Reader(f, data);
    var d: map<K, seq<byte>> := map[];
    while true
      invariant reader.position <= |data| && reader.f == f && reader.data == data
      invariant Replay(f, data, reader.position, d) == Load(f, data)
      decreases |data| - reader.position
    {
      var item := reader.MoveNext();
      match item {
        case End => return Loaded(d, true);
        case Torn => return Loaded(d, false);
        case Corrupt => return Failed;
        case BadLength => return Failed;
        case Got(e, next) =>
          var next := ApplyEntry(f, d, e);
          if next.None? {
            return Failed;
          }
          d := next.value;
      }
    }
  }

  /** A log that ends with a whole record goes on with whatever is appended. */
  lemma {:induction false} ReplayAppend<K>(f: Format<K>, data: seq<byte>, more: seq<byte>, at: nat, d: map<K,
    seq<byte>>)
    requires at <= |data| && Replay(f, data, at, d).Loaded? && Replay(f, data, at, d).clean
    ensures Replay(f, data + more, at, d) == Replay(f, data + more, |data|, Replay(f, data, at, d).dict)
    decreases |data| - at
  {
    hide ApplyEntry;
    var item := ReadAt(f, data, at);
    if item.Got? {
      ReadWithin(f, data, more, at);
      ReplayAppend(f, data, more, item.next, ApplyEntry(f, d, item.entry).value);
    } else {
      ReadEnd(f, data, at);
    }
  }

  lemma ReadEnd<K>(f: Format<K>, data: seq<byte>, at: nat)
    requires at <= |data| && ReadAt(f, data, at) == End
    ensures at == |data|
  {
  }

  /** Appending a record, or any beginning of one: the dictionary changes only when the record is whole. */
  lemma LoadAppended<K>(f: Format<K>, base: seq<byte>, e: Entry, n: nat, d: map<K, seq<byte>>)
    requires Load(f, base) == Loaded(d, true) && Fits(e) && n <= |Record(f, e)|
    requires ApplyEntry(f, d, e).Some?
    ensures Load(f, base + Record(f, e)[..n]) ==
      if n < |Record(f, e)| then Loaded(d, n == 0) else Loaded(ApplyEntry(f, d, e).value, true)
  {
    hide ReadAt, ApplyEntry, Record;
    var data := base + Record(f, e)[..n];
    ReplayAppend(f, base, Record(f, e)[..n], 0, map[]);
    ReadWritten(f, base, e, n);
    if n == |Record(f, e)| {
      ReadNothing(f, data);
    }
  }

  lemma ReadNothing<K>(f: Format<K>, data: seq<byte>)
    ensures ReadAt(f, data, |data|) == End
  {
  }

  lemma LoadsNothing<K>(f: Format<K>)
    ensures Load(f, []) == Loaded(map[], true)
  {
  }

  // ---- Snapshots --------------------------------------------------------------------------

  /** The file that adds the keys in the given order. */
  function Snapshot<K>(f: Format<K>, order: seq<K>, d: map<K, seq<byte>>): seq<byte>
    requires forall k :: k in order ==> k in d
  {
    if order == [] then []
    else
      var k := order[|order| - 1];
      Snapshot(f, order[..|order| - 1], d) + Record(f, Entry(ADD, f.encode(k), d[k]))
  }

  /** The keys of d, each once. */
  ghost predicate Enumerates<K>(order: seq<K>, d: map<K, seq<byte>>) {
    && (forall k :: k in order ==> k in d) && (forall k :: k in d ==> k in order)
    && forall i, j :: 0 <= i < j < |order| ==> order[i] != order[j]
  }

  /** A key that its encoding gives back, and sizes that can be stored. */
  ghost predicate Storable<K>(f: Format<K>, k: K, v: seq<byte>) {
    f.decode(f.encode(k)) == k && |f.encode(k)| < INT_LIMIT && |v| < INT_LIMIT
  }

  ghost predicate AllStorable<K>(f: Format<K>, d: map<K, seq<byte>>) {
    forall k :: k in d ==> Storable(f, k, d[k])
  }

  /** The entries of the given keys. */
  ghost function Restricted<K>(order: seq<K>, d: map<K, seq<byte>>): map<K, seq<byte>>
    requires forall k :: k in order ==> k in d
  {
    map k | k in order :: d[k]
  }

  /** A snapshot in any order loads the dictionary it was made of. */
  lemma {:induction false} LoadsSnapshot<K>(f: Format<K>, order: seq<K>, d: map<K, seq<byte>>)
    requires AllStorable(f, d) && forall k :: k in order ==> k in d
    requires forall i, j :: 0 <= i < j < |order| ==> order[i] != order[j]
    ensures Load(f, Snapshot(f, order, d)) == Loaded(Restricted(order, d), true)
  {
    hide ReadAt, Record;
    if order == [] {
      ReadNothing(f, []);
      assert Restricted(order, d) == map[];
    } else {
      var front, k := order[..|order| - 1], order[|order| - 1];
      var e := Entry(ADD, f.encode(k), d[k]);
      LoadsSnapshot(f, front, d);
      assert Storable(f, k, d[k]);
      assert k !in front;
      LoadAppended(f, Snapshot(f, front, d), e, |Record(f, e)|, Restricted(front, d));
      assert Record(f, e)[..|Record(f, e)|] == Record(f, e);
      assert Restricted(order, d) == Restricted(front, d)[k := d[k]];
    }
  }

  lemma LoadsFullSnapshot<K>(f: Format<K>, order: seq<K>, d: map<K, seq<byte>>)
    requires AllStorable(f, d) && Enumerates(order, d)
    ensures Load(f, Snapshot(f, order, d)) == Loaded(d, true)
  {
    LoadsSnapshot(f, order, d);
    assert Restricted(order, d) == d;
  }

  // ---- Keys and their encodings -----------------------------------------------------------

  /** A log that ends with a whole record, and one more whole record. */
  lemma LoadWhole<K>(f: Format<K>, base: seq<byte>, e: Entry, d: map<K, seq<byte>>)
    requires Load(f, base) == Loaded(d, true) && Fits(e)
    ensures Load(f, base + Record(f, e)) ==
      match ApplyEntry(f, d, e)
      case None => Failed
      case Some(d') => Loaded(d', true)
  {
    hide ReadAt, ApplyEntry, Record;
    var r := Record(f, e);
    assert r[..|r|] == r;
    if ApplyEntry(f, d, e).Some? {
      LoadAppended(f, base, e, |r|, d);
    } else {
      ReplayAppend(f, base, r, 0, map[]);
      ReadWritten(f, base, e, |r|);
    }
  }

  /** After an addition the log gives back the dictionary if and only if the key survives its own
      encoding. */
  lemma AddSurvives<K>(f: Format<K>, base: seq<byte>, d: map<K, seq<byte>>, k: K, v: seq<byte>)
    requires Load(f, base) == Loaded(d, true) && k !in d && Fits(Entry(ADD, f.encode(k), v))
    ensures Load(f, base + Record(f, Entry(ADD, f.encode(k), v))) == Loaded(d[k := v], true) <==>
      f.decode(f.encode(k)) == k
  {
    hide Load, Record;
    LoadWhole(f, base, Entry(ADD, f.encode(k), v), d);
    var k' := f.decode(f.encode(k));
    assert k' in d[k' := v] && (k' in d[k := v] <==> k' in d || k' == k);
  }

  /** After a removal, likewise. */
  lemma RemoveSurvives<K>(f: Format<K>, base: seq<byte>, d: map<K, seq<byte>>, k: K)
    requires Load(f, base) == Loaded(d, true) && k in d && Fits(Entry(REMOVE, f.encode(k), []))
    ensures Load(f, base + Record(f, Entry(REMOVE, f.encode(k), []))) == Loaded(d - {k}, true) <==>
      f.decode(f.encode(k)) == k
  {
    hide Load, Record;
    LoadWhole(f, base, Entry(REMOVE, f.encode(k), []), d);
    var k' := f.decode(f.encode(k));
    assert k !in d - {k} && (k in d - {k'} <==> k != k');
  }

  /** An update also survives when both keys already hold the value. */
  lemma UpdateSurvives<K>(f: Format<K>, base: seq<byte>, d: map<K, seq<byte>>, k: K, v: seq<byte>)
    requires Load(f, base) == Loaded(d, true) && Fits(Entry(UPDATE, f.encode(k), v))
    ensures Load(f, base + Record(f, Entry(UPDATE, f.encode(k), v))) == Loaded(d[k := v], true) <==>
      var k' := f.decode(f.encode(k));
      k' == k || (k in d && d[k] == v && k' in d && d[k'] == v)
  {
    hide Load, Record;
    LoadWhole(f, base, Entry(UPDATE, f.encode(k), v), d);
    UpdatesAgree(d, k, f.decode(f.encode(k)), v);
  }

  lemma UpdatesAgree<K>(d: map<K, seq<byte>>, k: K, k': K, v: seq<byte>)
    ensures d[k' := v] == d[k := v] <==> k' == k || (k in d && d[k] == v && k' in d && d[k'] == v)
  {
    if d[k' := v] == d[k := v] && k' != k {
      assert k in d[k' := v] && d[k' := v][k] == v;
      assert k' in d[k := v] && d[k := v][k'] == v;
    }
  }

  /** A snapshot loads at most the keys its encodings stand for. */
  lemma {:induction false} SnapshotKeys<K>(f: Format<K>, order: seq<K>, d: map<K, seq<byte>>)
    requires forall k :: k in order ==> k in d && |f.encode(k)| < INT_LIMIT && |d[k]| < INT_LIMIT
    ensures var r := Load(f, Snapshot(f, order, d));
      r.Loaded? ==> r.clean && forall k :: k in r.dict ==> exists j :: j in order && f.decode(f.encode(j)) == k
  {
    if order == [] {
      LoadsNothing(f);
    } else {
      var front, k := order[..|order| - 1], order[|order| - 1];
      var base, e := Snapshot(f, front, d), Entry(ADD, f.encode(k), d[k]);
      SnapshotKeys(f, front, d);
      assert order == front + [k];
      hide Load, Record;
      var r := Load(f, base);
      if r.Loaded? {
        LoadWhole(f, base, e, r.dict);
      } else {
        FailedStays(f, base, Record(f, e));
      }
    }
  }

  /** What a log fails on stays there. */
  lemma FailedStays<K>(f: Format<K>, data: seq<byte>, more: seq<byte>)
    requires Load(f, data).Failed?
    ensures Load(f, data + more).Failed?
  {
    ReplayFailed(f, data, more, 0, map[]);
  }

  lemma {:induction false} ReplayFailed<K>(f: Format<K>, data: seq<byte>, more: seq<byte>, at: nat, d: map<K,
    seq<byte>>)
    requires at <= |data| && Replay(f, data, at, d).Failed?
    ensures Replay(f, data + more, at, d).Failed?
    decreases |data| - at
  {
    hide ReadAt, ApplyEntry;
    var item := ReadAt(f, data, at);
    if item.Got? {
      ReadWithin(f, data, more, at);
      if ApplyEntry(f, d, item.entry).Some? {
        ReplayFailed(f, data, more, item.next, ApplyEntry(f, d, item.entry).value);
      }
    } else {
      ReadErrors(f, data, more, at);
    }
  }

  lemma ReadErrors<K>(f: Format<K>, data: seq<byte>, more: seq<byte>, at: nat)
    requires at <= |data| && (ReadAt(f, data, at).Corrupt? || ReadAt(f, data, at).BadLength?)
    ensures ReadAt(f, data + more, at) == ReadAt(f, data, at)
  {
    hide ToInt, Checksum, LittleEndian;
    SameSlice(data, more, at, at + 8);
    SameSlice(data, more, at + 9, at + 13);
    var n := ToInt(data[at + 9..at + 13]);
    if n >= 0 {
      SameSlice(data, more, at + 13, at + 13 + n);
      SameSlice(data, more, at + 13 + n, at + FIXED + n);
      var k := ToInt(data[at + 13 + n..at + FIXED + n]);
      if k >= 0 {
        SameSlice(data, more, at + FIXED + n, at + FIXED + n + k);
      }
    }
  }

  /** A snapshot loads the dictionary it was made of if and only if every key is what decoding its encoding
      gives, for an encoding that decoding and encoding once more does not change. */
  lemma SnapshotSurvives<K>(f: Format<K>, order: seq<K>, d: map<K, seq<byte>>)
    requires Enumerates(order, d) && forall k :: k in d ==> |f.encode(k)| < INT_LIMIT && |d[k]| < INT_LIMIT
    requires forall k :: k in d ==> f.decode(f.encode(f.decode(f.encode(k)))) == f.decode(f.encode(k))
    ensures Load(f, Snapshot(f, order, d)) == Loaded(d, true) <==> forall k :: k in d ==> f.decode(f.encode(k)) == k
  {
    hide Load, Snapshot;
    if Load(f, Snapshot(f, order, d)) == Loaded(d, true) {
      SnapshotKeys(f, order, d);
      forall k | k in d
        ensures f.decode(f.encode(k)) == k
      {
        var j :| j in order && f.decode(f.encode(j)) == k;
        assert j in d;
      }
    }
    if forall k :: k in d ==> f.decode(f.encode(k)) == k {
      LoadsFullSnapshot(f, order, d);
    }
  }

  /** Two keys with one encoding: the second addition, which the dictionary accepts, makes every later
      replay fail. */
  lemma SameEncodingFails<K>(f: Format<K>, base: seq<byte>, d: map<K, seq<byte>>, k: K, k': K, v: seq<byte>)
    requires Load(f, base) == Loaded(d, true) && f.encode(k) == f.encode(k') && Fits(Entry(ADD, f.encode(k), v))
    requires k !in d && f.decode(f.encode(k)) == k
    ensures Load(f, base + Record(f, Entry(ADD, f.encode(k), v)) + Record(f, Entry(ADD, f.encode(k'), v))) == Failed
  {
    hide Load, Record;
    var e := Entry(ADD, f.encode(k), v);
    LoadWhole(f, base, e, d);
    LoadWhole(f, base + Record(f, e), e, d[k := v]);
  }

  /** UTF-16 text in UTF-8; a surrogate on its own becomes the replacement character U+FFFD. */
  function Utf8(s: seq<nat>): seq<byte>
    requires forall i :: 0 <= i < |s| ==> s[i] < 0x1_0000
  {
    if s == [] then []
    else if |s| >= 2 && 0xD800 <= s[0] < 0xDC00 <= s[1] < 0xE000 then
      var point := 0x1_0000 + (s[0] - 0xD800) * 1024 + (s[1] - 0xDC00);
      [0xF0 + point / 262144, 0x80 + point / 4096 % 64, 0x80 + point / 64 % 64, 0x80 + point % 64] + Utf8(s[2..])
    else
      Utf8Unit(s[0]) + Utf8(s[1..])
  }

  function Utf8Unit(unit: nat): seq<byte>
    requires unit < 0x1_0000
  {
    if unit < 0x80 then [unit]
    else if unit < 0x800 then [0xC0 + unit / 64, 0x80 + unit % 64]
    else
      var point := if 0xD800 <= unit < 0xE000 then 0xFFFD else unit;
      [0xE0 + point / 4096, 0x80 + point / 64 % 64, 0x80 + point % 64]
  }

  lemma SameUtf8()
    ensures Utf8([0xD800]) == [0xEF, 0xBF, 0xBD] == Utf8([0xFFFD])
  {
    assert Utf8([]) == [] && [0xD800][1..] == [] && [0xFFFD][1..] == [];
    assert Utf8([0xD800]) == Utf8Unit(0xD800) && Utf8([0xFFFD]) == Utf8Unit(0xFFFD);
  }

  /** A key that does not survive: the single surrogate D800. Alone in the log it comes back as another key,
      and beside that key it makes the replay fail. */
  lemma LoneSurrogate(f: Format<seq<nat>>, v: seq<byte>)
    requires f.encode([0xD800]) == Utf8([0xD800]) && f.encode([0xFFFD]) == Utf8([0xFFFD])
    requires f.decode(Utf8([0xFFFD])) == [0xFFFD] && |v| < INT_LIMIT
    ensures var lone, other := Record(f, Entry(ADD, f.encode([0xD800]), v)), Record(f, Entry(ADD, f.encode([0xFFFD]), v));
      && Load(f, lone) == Loaded(map[[0xFFFD] := v], true) != Loaded(map[[0xD800] := v], true)
      && Load(f, other + lone) == Failed
  {
    SameUtf8();
    hide Load, Record, Utf8;
    var e := Entry(ADD, f.encode([0xFFFD]), v);
    LoadsNothing(f);
    LoadWhole(f, [], e, map[]);
    assert [] + Record(f, e) == Record(f, e);
    SameEncodingFails(f, [], map[], [0xFFFD], [0xD800], v);
    assert [0xFFFD][0] != [0xD800][0];
    assert [0xFFFD] in map[[0xFFFD] := v] && [0xFFFD] !in map[[0xD800] := v];
  }
}
