/** Appending behind a failed record: what is left of a record that could not be cut off swallows the next
    ones. */
module TornTail {
  import opened Numerals
  import opened Options
  import opened BitStream
  import opened WriteAheadLog

  ghost predicate Holds<K>(r: Loaded<K>, k: K, v: seq<byte>) {
    r.Loaded? && k in r.dict && r.dict[k] == v
  }

  /** Only its encoding stands for the key; so it is for every text without replacement characters. */
  ghost predicate OneEncoding<K>(f: Format<K>, k: K) {
    forall b :: f.decode(b) == k ==> b == f.encode(k)
  }

  /** After writing a value under the key the log does not give that value back. */
  ghost predicate Lost<K>(f: Format<K>, log: seq<byte>, k: K, v: seq<byte>) {
    !Holds(Load(f, log + Record(f, Entry(UPDATE, f.encode(k), v))), k, v)
  }

  lemma WritesOnly<K>(f: Format<K>, d: map<K, seq<byte>>, e: Entry, k: K, v: seq<byte>)
    requires OneEncoding(f, k) && !(k in d && d[k] == v) && ApplyEntry(f, d, e).Some?
    requires k in ApplyEntry(f, d, e).value && ApplyEntry(f, d, e).value[k] == v
    ensures e.key == f.encode(k) && e.value == v
  {
  }

  /** Too few bytes for a record that writes the value. */
  lemma {:induction false} TooShort<K>(f: Format<K>, data: seq<byte>, at: nat, d: map<K, seq<byte>>, k: K, v: seq<byte>)
    requires at <= |data| && OneEncoding(f, k) && |data| - at < FIXED + |f.encode(k)| + |v|
    requires !(k in d && d[k] == v)
    ensures !Holds(Replay(f, data, at, d), k, v)
    decreases |data| - at
  {
    hide ApplyEntry, OneEncoding;
    var item := ReadAt(f, data, at);
    if item.Got? && ApplyEntry(f, d, item.entry).Some? {
      var d' := ApplyEntry(f, d, item.entry).value;
      EntrySize(f, data, at);
      if k in d' && d'[k] == v {
        WritesOnly(f, d, item.entry, k, v);
      } else {
        TooShort(f, data, item.next, d', k, v);
      }
    }
  }

  lemma EntrySize<K>(f: Format<K>, data: seq<byte>, at: nat)
    requires at <= |data| && ReadAt(f, data, at).Got?
    ensures var item := ReadAt(f, data, at);
      && item.next == at + FIXED + |item.entry.key| + |item.entry.value|
      && item.entry.value == data[item.next - |item.entry.value|..item.next]
  {
  }

  /** The record that begins with the torn one has its sizes, as far as they are there, and does not end
      before the torn one breaks off. */
  lemma FirstSizes<K>(f: Format<K>, base: seq<byte>, e: Entry, n: nat, more: seq<byte>)
    requires Fits(e) && n < |Record(f, e)|
    requires ReadAt(f, base + Record(f, e)[..n] + more, |base|).Got?
    ensures var item := ReadAt(f, base + Record(f, e)[..n] + more, |base|);
      && item.next > |base| + n
      && (n >= 13 ==> |item.entry.key| == |e.key|)
      && (n >= FIXED + |e.key| ==> |item.entry.value| == |e.value|)
  {
    hide ToInt, Checksum, Record;
    var torn, at, m := base + Record(f, e)[..n], |base|, |e.key|;
    assert torn[at..] == Record(f, e)[..n];
    Fields(f, e, torn, at, n);
    if n >= 13 {
      SameSlice(torn, more, at + 9, at + 13);
    }
    if n >= FIXED + m {
      SameSlice(torn, more, at + 13 + m, at + FIXED + m);
    }
  }

  /** Zeros and one more byte. */
  function Probe(size: nat, last: byte): (v: seq<byte>)
    requires size > 0
    ensures |v| == size
  {
    seq(size - 1, _ => 0) + [last]
  }

  /** The last bytes of the record, and the ones between checksum and value, which the last byte of the
      value does not change. */
  lemma ProbeRecord<K>(f: Format<K>, key: seq<byte>, size: nat, last: byte, j: nat)
    requires size > 0 && 8 <= j < FIXED + |key| + size
    ensures var r := Record(f, Entry(UPDATE, key, Probe(size, last)));
      r[j] == if j < FIXED + |key| then ([UPDATE] + ToBytes(|key|, 4) + key + ToBytes(size, 4))[j - 8]
        else if j < FIXED + |key| + size - 1 then 0 else last
  {
    hide ToBytes, Checksum;
    var e := Entry(UPDATE, key, Probe(size, last));
    var sum, head := ToBytes(Checksum(f, e), 8), [UPDATE] + ToBytes(|key|, 4) + key + ToBytes(size, 4);
    assert |sum| == 8 && |head| == FIXED + |key| - 8;
    Regroup(sum, [UPDATE], ToBytes(|key|, 4), key, ToBytes(size, 4), e.value);
    assert Record(f, e) == sum + head + e.value;
    hide Record, Probe;
    InThree(sum, head, e.value, j);
    if j >= FIXED + |key| {
      ProbeAt(size, last, j - FIXED - |key|);
    }
  }

  lemma Regroup(a: seq<byte>, b: seq<byte>, c: seq<byte>, d: seq<byte>, e: seq<byte>, g: seq<byte>)
    ensures a + b + c + d + e + g == a + (b + c + d + e) + g
  {
    assert a + b + c + d + e == a + (b + c + d + e);
  }

  lemma InThree(a: seq<byte>, b: seq<byte>, c: seq<byte>, j: nat)
    requires |a| <= j < |a| + |b| + |c|
    ensures (a + b + c)[j] == if j < |a| + |b| then b[j - |a|] else c[j - |a| - |b|]
  {
  }

  lemma ProbeAt(size: nat, last: byte, i: nat)
    requires i < size
    ensures Probe(size, last)[i] == if i < size - 1 then 0 else last
  {
  }

  /** Whatever a torn record leaves behind: there is a value whose next record is not read back. */
  lemma TornLoses<K>(f: Format<K>, base: seq<byte>, d: map<K, seq<byte>>, e: Entry, n: nat, k: K)
    requires Load(f, base) == Loaded(d, true) && Fits(e) && 0 < n < |Record(f, e)| && OneEncoding(f, k)
    ensures exists v :: |v| <= 10 && Lost(f, base + Record(f, e)[..n], k, v)
  {
    hide Load, Record, ToBytes;
    var key, held := f.encode(k), if k in d then |d[k]| else 0;
    var size := if 8 != |e.value| && 8 != held then 8 else if 9 != |e.value| && 9 != held then 9 else 10;
    var fixed := [UPDATE] + ToBytes(|key|, 4) + key + ToBytes(size, 4);
    var j := FIXED + |key| + size - 1 - n;
    var last := if 8 <= j < FIXED + |key| && fixed[j - 8] == 1 then 2 else 1;
    ProbeLost(f, base, d, e, n, k, size, last);
    assert |Probe(size, last)| <= 10;
  }

  lemma ProbeLost<K>(f: Format<K>, base: seq<byte>, d: map<K, seq<byte>>, e: Entry, n: nat, k: K, size: nat, last: byte)
    requires Load(f, base) == Loaded(d, true) && Fits(e) && 0 < n < |Record(f, e)| && OneEncoding(f, k)
    requires size >= 8 && size != |e.value| && (k in d ==> size != |d[k]|) && last != 0
    requires var key := f.encode(k);
      var j := FIXED + |key| + size - 1 - n;
      8 <= j < FIXED + |key| ==> ([UPDATE] + ToBytes(|key|, 4) + key + ToBytes(size, 4))[j - 8] != last
    ensures Lost(f, base + Record(f, e)[..n], k, Probe(size, last))
  {
    hide Record, ToBytes, ReadAt, ApplyEntry, OneEncoding;
    var v := Probe(size, last);
    var torn := base + Record(f, e)[..n];
    var more := Record(f, Entry(UPDATE, f.encode(k), v));
    var data := torn + more;
    assert data == base + (Record(f, e)[..n] + more);
    ReplayAppend(f, base, Record(f, e)[..n] + more, 0, map[]);
    var item := ReadAt(f, data, |base|);
    if item.Got? && ApplyEntry(f, d, item.entry).Some? {
      var d' := ApplyEntry(f, d, item.entry).value;
      FirstSizes(f, base, e, n, more);
      EntrySize(f, data, |base|);
      if k in d' && d'[k] == v {
        WritesOnly(f, d, item.entry, k, v);
        var j := |more| - 1 - n;
        assert item.entry.value[size - 1] == data[item.next - 1] == more[j];
        ProbeRecord(f, f.encode(k), size, last, j);
        assert false;
      } else {
        TooShort(f, data, item.next, d', k, v);
      }
    }
  }

  /** Behind a record that was written whole although its append failed, the log takes that record into
      account, and fails if the next record adds its key once more. */
  lemma WholeTail<K>(f: Format<K>, base: seq<byte>, d: map<K, seq<byte>>, e: Entry, e': Entry)
    requires Load(f, base) == Loaded(d, true) && Fits(e) && Fits(e') && ApplyEntry(f, d, e).Some?
    ensures Load(f, base + Record(f, e) + Record(f, e')) ==
      match ApplyEntry(f, ApplyEntry(f, d, e).value, e')
      case None => Failed
      case Some(d') => Loaded(d', true)
  {
    hide Load, ApplyEntry, Record;
    LoadWhole(f, base, e, d);
    LoadWhole(f, base + Record(f, e), e', ApplyEntry(f, d, e).value);
  }

  /** One stray byte of a failed record, and a record of 18 bytes written behind it without a fault is
      lost. */
  lemma AppendAfterStrayByte<K>(f: Format<K>)
    ensures var r := Record(f, Entry(ADD, [1], []));
      && Load(f, r) == Loaded(map[f.decode([1]) := []], true)
      && Load(f, r[..1] + r) == Loaded(map[], false)
  {
    hide Record, ReadAt, Checksum;
    var e := Entry(ADD, [1], []);
    var r := Record(f, e);
    LoadsNothing(f);
    LoadWhole(f, [], e, map[]);
    assert [] + r == r;
    SmallRecord(f, e);
    StrayByte(f, r);
  }

  lemma SmallRecord<K>(f: Format<K>, e: Entry)
    requires e == Entry(ADD, [1], [])
    ensures Record(f, e)[8..12] == [0, 1, 0, 0]
  {
    ZeroBytes(3);
    assert ToBytes(1, 4) == [1] + ToBytes(0, 3);
    hide Checksum, ToBytes;
    assert ToBytes(0, 3) == [0, 0, 0];
    assert ToBytes(|e.key|, 4) == [1, 0, 0, 0];
  }

  lemma {:induction false} ZeroBytes(n: nat)
    ensures forall i :: 0 <= i < n ==> ToBytes(0, n)[i] == 0
  {
    if n > 0 {
      ZeroBytes(n - 1);
    }
  }

  lemma FourBytes(a: byte, b: byte, c: byte, d: byte)
    ensures LittleEndian([a, b, c, d]) == a + 256 * (b + 256 * (c + 256 * d))
  {
    ValOne(d, 256);
    assert [c, d][1..] == [d] && [b, c, d][1..] == [c, d] && [a, b, c, d][1..] == [b, c, d];
    assert Val([c, d], 256) == c + 256 * d;
    assert Val([b, c, d], 256) == b + 256 * (c + 256 * d);
  }

  /** Read one byte off, the kind and three bytes of the length are the length of a key longer than the
      file. */
  lemma StrayByte<K>(f: Format<K>, r: seq<byte>)
    requires |r| == 18 && r[8..12] == [0, 1, 0, 0]
    ensures ReadAt(f, r[..1] + r, 0) == Torn
  {
    var data := r[..1] + r;
    var size := data[9..13];
    assert size == r[8..12] == [0, 1, 0, 0];
    FourBytes(0, 1, 0, 0);
  }
}
