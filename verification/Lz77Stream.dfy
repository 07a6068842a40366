/** LZ77 compression of whole streams: compressor and decompressor carry the same window from chunk to
    chunk. */
module Lz77Stream {
  import opened Numerals
  import opened BitStream
  import opened Framing
  import opened Lz77
  import opened Lz77Matches

  /** The last bytes of the text, as many as there are up to `size`. */
  function Tail(text: seq<byte>, size: nat): (s: seq<byte>)
    ensures |s| == if size < |text| then size else |text|
  {
    if |text| <= size then text else text[|text| - size..]
  }

  /** What is carried over after the next chunk depends on what was carried over before it only. */
  lemma TailStep(text: seq<byte>, chunk: seq<byte>, size: nat)
    ensures Tail(Tail(text, size) + chunk, size) == Tail(text + chunk, size)
  {
  }

  /** The payload holds tokens that give the source behind the window. */
  ghost predicate CodedFrame(window: seq<byte>, f: Frame) {
    exists ts :: CodedBy(window, f, ts)
  }

  ghost predicate CodedBy(window: seq<byte>, f: Frame, ts: seq<Token>) {
    && Covers(window + f.src, ts, |window|, |window + f.src|)
    && |window + f.src| < TEXT_LIMIT && TokensBits(ts) <= BitsOf(f.payload)
  }

  /** Every frame is coded behind the window left by the frames before it. */
  ghost predicate Coded(frames: seq<Frame>, windowSize: nat) {
    forall i :: 0 <= i < |frames| ==> Sized(frames[i]) && CodedFrame(Tail(Sources(frames[..i]), windowSize), frames[i])
  }

  /** The tokens are those the search for matches takes, and the payload is no longer than they are. */
  ghost predicate PackedFrame(s: Search, window: seq<byte>, f: Frame) {
    exists ts :: PackedBy(s, window, f, ts)
  }

  ghost predicate PackedBy(s: Search, window: seq<byte>, f: Frame, ts: seq<Token>) {
    && CodedBy(window, f, ts) && Turns(s, window + f.src, |window|, ts, |window|, |window + f.src|)
    && |f.payload| == (|TokensBits(ts)| + 7) / 8
  }

  /** Every frame is compressed behind exactly the last bytes of the text before it. */
  ghost predicate Packed(s: Search, frames: seq<Frame>) {
    forall i :: 0 <= i < |frames| ==>
      Sized(frames[i]) && PackedFrame(s, Tail(Sources(frames[..i]), s.windowSize), frames[i])
  }

  lemma PackedCoded(s: Search, frames: seq<Frame>)
    requires Packed(s, frames)
    ensures Coded(frames, s.windowSize)
  {
    hide Tail, Sources, CodedBy;
    forall i | 0 <= i < |frames|
      ensures CodedFrame(Tail(Sources(frames[..i]), s.windowSize), frames[i])
    {
      var window := Tail(Sources(frames[..i]), s.windowSize);
      assert PackedFrame(s, window, frames[i]);
      var ts :| PackedBy(s, window, frames[i], ts);
    }
  }

  /** The window of a frame is the end of all sources before it, of exactly the window's size or as long as there
      are bytes. */
  lemma FrameWindow(s: Search, frames: seq<Frame>, i: nat)
    requires Packed(s, frames) && i < |frames|
    ensures var before := Sources(frames[..i]);
      PackedFrame(s, before[|before| - Min(s.windowSize, |before|)..], frames[i])
  {
    hide PackedFrame, Sources;
  }

  /** A first chunk of equal bytes takes 36 bits and one reference, 13 bytes at most. */
  lemma EqualFrame(s: Search, f: Frame, b: byte)
    requires s.bucketCount > 0 && s.windowSize >= MIN_DUPLICATE_SIZE && |f.src| >= 8 && AllEqual(f.src, b)
    requires PackedFrame(s, [], f)
    ensures |f.payload| == (36 + Min(9 * (|f.src| - 4), Cost(Kind(4, |f.src| - 4))) + 7) / 8 <= 13
  {
    hide Turns, CodedBy, TokensBits;
    var ts :| PackedBy(s, [], f, ts);
    assert [] + f.src == f.src;
    EqualBytes(s, f.src, b, ts, |f.src|);
  }

  /** A chunk that occurs in the window takes one reference, 9 bytes at most, and 3 if the window is below 256 bytes. */
  lemma RepeatedFrame(s: Search, window: seq<byte>, f: Frame, p: nat)
    requires PackedFrame(s, window, f) && Repeats(s, window + f.src, |window|, p)
    ensures |f.payload| <= (Cost(Kind(|window|, |f.src|)) + 7) / 8 <= 9
    ensures |window| < 256 ==> |f.payload| <= 3
  {
    hide Turns, CodedBy, TokensBits, Repeats;
    var ts :| PackedBy(s, window, f, ts);
    assert |window + f.src| - |window| == |f.src|;
    RepeatedCost(s, window + f.src, |window|, p, ts);
  }

  lemma PackedSnoc(s: Search, frames: seq<Frame>, f: Frame)
    requires Packed(s, frames) && Sized(f) && PackedFrame(s, Tail(Sources(frames), s.windowSize), f)
    ensures Packed(s, frames + [f])
  {
    hide PackedFrame, Sources, Tail;
    forall i | 0 <= i < |frames + [f]|
      ensures Sized((frames + [f])[i])
      ensures PackedFrame(s, Tail(Sources((frames + [f])[..i]), s.windowSize), (frames + [f])[i])
    {
      if i < |frames| {
        assert (frames + [f])[..i] == frames[..i];
      } else {
        assert (frames + [f])[..i] == frames;
      }
    }
  }

  /** Compress the chunk behind the window into a frame. */
  method CompressFrame(compressor: ChunkCompressor, readBuf: seq<byte>, initWinSize: nat, writeBuf: array<byte>)
    returns (bytes: seq<byte>, ghost frame: Frame)
    requires compressor.buckets.Length > 0 && initWinSize <= |readBuf| < TEXT_LIMIT
    requires 8 * writeBuf.Length >= 9 * (|readBuf| - initWinSize) + 64
    modifies compressor.buckets, writeBuf
    ensures frame.src == readBuf[initWinSize..] && Sized(frame)
    ensures PackedFrame(compressor.Settings(), readBuf[..initWinSize], frame)
    ensures bytes == FrameBytes(|frame.src|, frame.payload) && 8 * |frame.payload| <= 9 * |frame.src| + 7
  {
    hide Covers, TokensBits, BitsOf, FrameBytes, Turns;
    var size, ts := compressor.Compress(readBuf, initWinSize, writeBuf);
    var payload := writeBuf[..size];
    frame := Frame(readBuf[initWinSize..], payload);
    assert readBuf[..initWinSize] + frame.src == readBuf;
    assert PackedBy(compressor.Settings(), readBuf[..initWinSize], frame, ts);
    bytes := FrameBytes(|readBuf| - initWinSize, payload);
  }

  method CompressStream(input: seq<byte>, chunkSize: nat, windowSize: nat, bucketCount: nat, hash: seq<byte> -> nat)
    returns (output: seq<byte>, ghost frames: seq<Frame>)
    requires windowSize <= chunkSize && 68 <= chunkSize && chunkSize + windowSize < TEXT_LIMIT && bucketCount > 0
    ensures output == Flatten(frames) && Sources(frames) == input && Cut(frames, chunkSize)
    ensures Packed(Search(hash, bucketCount, windowSize), frames)
    ensures 8 * |output| <= 9 * |input| + (8 * HEADER + 7) * Chunks(|input|, chunkSize)
  {
    hide Packed, Flatten, PackedFrame, FrameBytes, Cut, Full, Chunks;
    ghost var s := Search(hash, bucketCount, windowSize);
    var compressor := new ChunkCompressor(bucketCount, hash, windowSize);
    var writeBuf := new byte[chunkSize * 10 / 8];
    output, frames := [], [];
    var window: seq<byte> := [];
    NothingPacked(s, chunkSize);
    var i: nat := 0;
    while i < |input|
      invariant i <= |input| && output == Flatten(frames) && Packed(s, frames)
      invariant Cut(frames, chunkSize) && (i < |input| ==> Full(frames, chunkSize))
      invariant Sources(frames) == input[..i] && window == Tail(input[..i], windowSize)
      invariant 8 * |output| <= 9 * i + (8 * HEADER + 7) * |frames|
    {
      var size := if |input| - i < chunkSize then |input| - i else chunkSize;
      var chunk := input[i..i + size];
      var readBuf := window + chunk;
      var bytes, frame := CompressFrame(compressor, readBuf, |window|, writeBuf);
      assert readBuf[..|window|] == window && readBuf[|window|..] == chunk;
      PackedSnoc(s, frames, frame);
      FlattenSnoc(frames, frame);
      CutSnoc(frames, frame, chunkSize);
      TailStep(input[..i], chunk, windowSize);
      assert input[..i] + chunk == input[..i + size];
      output, frames := output + bytes, frames + [frame];
      window := Tail(readBuf, windowSize);
      i := i + size;
    }
    assert input[..i] == input;
    CutCount(frames, chunkSize);
  }

  lemma NothingPacked(s: Search, chunkSize: nat)
    ensures Packed(s, []) && Cut([], chunkSize) && Full([], chunkSize)
    ensures Flatten([]) == [] && Sources([]) == [] && Tail([], s.windowSize) == []
  {
  }

  /** Undo the compression of one frame behind the window. */
  method UncompressFrame(window: seq<byte>, size: nat, payload: seq<byte>, slack: seq<byte>, ghost f: Frame)
    returns (writeBuf: seq<byte>)
    requires CodedFrame(window, f) && payload == f.payload && size == |f.src| && |slack| >= 8
    ensures writeBuf == window + f.src
  {
    hide BitsOf, TokensBits, Covers;
    ghost var ts :| CodedBy(window, f, ts);
    var dest := new byte[|window| + size](k requires 0 <= k => if k < |window| then window[k] else 0);
    assert dest[..|window|] == window == (window + f.src)[..|window|];
    BitsOfConcat(payload, slack);
    UncompressChunk(payload + slack, |payload|, dest, |window|, window + f.src, ts);
    writeBuf := dest[..];
  }

  method UncompressStream(data: seq<byte>, windowSize: nat, slack: seq<byte>, ghost frames: seq<Frame>)
    returns (output: seq<byte>)
    requires data == Flatten(frames) && Coded(frames, windowSize) && |slack| >= 8
    ensures output == Sources(frames)
  {
    hide CodedFrame, Flatten, Coded, Sources, Tail;
    output := [];
    var window: seq<byte> := [];
    ghost var k: nat := 0;
    var i: nat := 0;
    assert data[0..] == data && frames[0..] == frames && frames[..0] == [];
    NothingWritten(windowSize);
    while i < |data|
      invariant i <= |data| && k <= |frames| && data[i..] == Flatten(frames[k..])
      invariant output == Sources(frames[..k]) && window == Tail(output, windowSize)
      decreases |frames| - k
    {
      NotAtEnd(frames, k, data, i);
      CodedAt(frames, windowSize, k);
      var size, payload := ReadFrame(data, i, frames[k..]);
      var writeBuf := UncompressFrame(window, size, payload, slack, frames[k]);
      assert writeBuf[|window|..] == frames[k].src;
      NextWindow(frames, k, output, window, windowSize);
      output := output + writeBuf[|window|..];
      window := Tail(writeBuf, windowSize);
      i := i + HEADER + |payload|;
      k := k + 1;
    }
    NothingLeft(frames, k, data, i);
  }

  lemma NothingWritten(windowSize: nat)
    ensures Sources([]) == [] && Tail([], windowSize) == []
  {
  }

  lemma CodedAt(frames: seq<Frame>, windowSize: nat, k: nat)
    requires Coded(frames, windowSize) && k < |frames|
    ensures Sized(frames[k]) && CodedFrame(Tail(Sources(frames[..k]), windowSize), frames[k])
    ensures frames[k..][0] == frames[k] && frames[k..][1..] == frames[k + 1..]
  {
    hide CodedFrame, Tail, Sources;
  }

  /** The output with one more source, and its tail. */
  lemma NextWindow(frames: seq<Frame>, k: nat, output: seq<byte>, window: seq<byte>, windowSize: nat)
    requires k < |frames| && output == Sources(frames[..k]) && window == Tail(output, windowSize)
    ensures output + frames[k].src == Sources(frames[..k + 1])
    ensures Tail(window + frames[k].src, windowSize) == Tail(output + frames[k].src, windowSize)
  {
    hide Tail, Sources;
    FlattenSnoc(frames[..k], frames[k]);
    assert frames[..k] + [frames[k]] == frames[..k + 1];
    TailStep(output, frames[k].src, windowSize);
  }

  lemma NothingLeft(frames: seq<Frame>, k: nat, data: seq<byte>, i: nat)
    requires k <= |frames| && i == |data| && data[i..] == Flatten(frames[k..])
    ensures frames[..k] == frames
  {
    FlattenLength(frames[k..]);
  }

  lemma NotAtEnd(frames: seq<Frame>, k: nat, data: seq<byte>, i: nat)
    requires k <= |frames| && i < |data| && data[i..] == Flatten(frames[k..])
    ensures k < |frames|
  {
  }

  /** Whatever the input, the chunk size, the window and the hash, decompression undoes compression. */
  method StreamRoundTrip(input: seq<byte>, chunkSize: nat, windowSize: nat, bucketCount: nat,
    hash: seq<byte> -> nat, slack: seq<byte>)
    returns (output: seq<byte>)
    requires windowSize <= chunkSize && 68 <= chunkSize && chunkSize + windowSize < TEXT_LIMIT && bucketCount > 0
    requires |slack| >= 8
    ensures output == input
  {
    var data, frames := CompressStream(input, chunkSize, windowSize, bucketCount, hash);
    PackedCoded(Search(hash, bucketCount, windowSize), frames);
    output := UncompressStream(data, windowSize, slack, frames);
  }
}
