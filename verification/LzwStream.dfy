/** LZW compression of whole streams, chunk by chunk, in a buffer of ten bits for each byte of a chunk: right for
    every input whose chunks fit it, and up to a size all do. */
module LzwStream {
  import opened Numerals
  import opened BitStream
  import opened Framing
  import opened Lzw

  /** The source's estimate of the most bytes a chunk can need. */
  function EstimateMaxCompressedSize(size: nat): nat {
    size * 10 / 8
  }

  /** Up to this size the estimate holds. */
  const ENOUGH: nat := 83911

  /** Behind the shortest chunks the estimate leaves no room for the word touched last. */
  const SMALLEST: nat := 68

  lemma EstimateEnough(size: nat, chunkSize: nat)
    requires size <= chunkSize && SMALLEST <= chunkSize <= ENOUGH
    ensures Budget(size) + 64 <= 8 * EstimateMaxCompressedSize(chunkSize) && Budget(size) <= 10 * size
  {
  }

  /** From here on the estimate overflows a 32-bit number. */
  const TOO_LARGE: nat := 214748365

  /** Every chunk of the input fits the estimated buffer. */
  ghost predicate ChunksFit(input: seq<byte>, chunkSize: nat)
    requires chunkSize > 0
    decreases |input|
  {
    input == [] ||
    var size := Min(chunkSize, |input|);
    FitsIn(input[..size], 8 * EstimateMaxCompressedSize(chunkSize)) && ChunksFit(input[size..], chunkSize)
  }

  /** Which is so for every input in chunks of these sizes. */
  lemma {:induction false} AllChunksFit(input: seq<byte>, chunkSize: nat)
    requires SMALLEST <= chunkSize <= ENOUGH
    ensures ChunksFit(input, chunkSize)
    decreases |input|
  {
    hide FitsIn, Budget;
    if input != [] {
      var size := Min(chunkSize, |input|);
      EstimateEnough(size, chunkSize);
      BudgetFits(input[..size], 8 * EstimateMaxCompressedSize(chunkSize));
      AllChunksFit(input[size..], chunkSize);
    }
  }

  /** The payload holds the codes of a greedy parse of the source, and is no longer than they are. */
  ghost predicate CodedBy(f: Frame, starts: seq<nat>, codes: seq<nat>) {
    && 0 < |f.src| < 0x8000_0000 && Complete(f.src, starts, codes)
    && CodesBits(codes) <= BitsOf(f.payload) && |f.payload| == (|CodesBits(codes)| + 7) / 8
  }

  ghost predicate CodedFrame(f: Frame) {
    exists starts, codes :: CodedBy(f, starts, codes)
  }

  ghost predicate Coded(frames: seq<Frame>) {
    forall i :: 0 <= i < |frames| ==> Sized(frames[i]) && CodedFrame(frames[i])
  }

  /** Compress one chunk into a frame. */
  method CompressChunk(compressor: ChunkCompressor, src: seq<byte>, writeBuf: array<byte>)
    returns (bytes: seq<byte>, ghost frame: Frame)
    requires compressor.Cleared() && 0 < |src| < 0x8000_0000
    requires FitsIn(src, 8 * writeBuf.Length) && writeBuf.Length < LIMIT
    modifies compressor.buckets, writeBuf
    ensures compressor.Cleared() && frame.src == src && Sized(frame) && CodedFrame(frame)
    ensures bytes == FrameBytes(|src|, frame.payload) && |frame.payload| <= writeBuf.Length
  {
    hide Complete, CodesBits, BitsOf, FitsIn;
    var size, starts, codes := compressor.Compress(src, writeBuf);
    var payload := writeBuf[..size];
    frame := Frame(src, payload);
    assert CodedBy(frame, starts, codes);
    bytes := FrameBytes(|src|, payload);
  }

  /** Ten bits a byte are enough for small chunks, and 18 for all. */
  lemma PayloadSize(f: Frame)
    requires CodedFrame(f)
    ensures 8 * |f.payload| <= 18 * |f.src| + 7
    ensures |f.src| <= ENOUGH ==> 8 * |f.payload| <= 10 * |f.src| + 7
  {
    hide Parsed, Greedy, CodesBits, BitsOf;
    var starts, codes :| CodedBy(f, starts, codes);
    WithinBudget(f.src, starts, codes);
  }

  /** At most 18 bits a byte, and at most ten in small chunks, and 71 for each frame. */
  ghost predicate Short(out: nat, source: nat, frames: nat, chunkSize: nat) {
    && 8 * out <= 18 * source + (8 * HEADER + 7) * frames
    && (chunkSize <= ENOUGH ==> 8 * out <= 10 * source + (8 * HEADER + 7) * frames)
  }

  method CompressStream(input: seq<byte>, chunkSize: nat, bucketCount: nat, step: (nat, byte) -> nat, seed: nat)
    returns (output: seq<byte>, ghost frames: seq<Frame>)
    requires 0 < chunkSize < TOO_LARGE && ChunksFit(input, chunkSize) && bucketCount > 0
    ensures output == Flatten(frames) && Sources(frames) == input && Coded(frames) && Cut(frames, chunkSize)
    ensures Short(|output|, |input|, Chunks(|input|, chunkSize), chunkSize)
  {
    hide CodedFrame, Flatten, FrameBytes, FitsIn, Sized, ChunksFit, Cut, Full, Chunks;
    var writeBuf := new byte[EstimateMaxCompressedSize(chunkSize)];
    var compressor := new ChunkCompressor(bucketCount, step, seed);
    output, frames := [], [];
    NoFrames(chunkSize);
    var i: nat := 0;
    ghost var left := input;
    while i < |input|
      invariant compressor.Cleared() && output == Flatten(frames) && Coded(frames)
      invariant Sources(frames) == Before(input, i)
      invariant i < |input| ==> left == input[i..]
      invariant ChunksFit(left, chunkSize) && Cut(frames, chunkSize) && (i < |input| ==> Full(frames, chunkSize))
      invariant Short(|output|, |Sources(frames)|, |frames|, chunkSize)
      decreases |input| - i
    {
      var size := if |input| - i < chunkSize then |input| - i else chunkSize;
      NextChunk(left, size, chunkSize);
      assert left[..size] == input[i..i + size];
      var bytes, frame := CompressChunk(compressor, input[i..i + size], writeBuf);
      FlattenSnoc(frames, frame);
      CutSnoc(frames, frame, chunkSize);
      BeforeStep(input, i, size, chunkSize);
      PayloadSize(frame);
      left := left[size..];
      output, frames := output + bytes, frames + [frame];
      i := i + chunkSize;
    }
    CutCount(frames, chunkSize);
  }

  lemma NextChunk(left: seq<byte>, size: nat, chunkSize: nat)
    requires chunkSize > 0 && ChunksFit(left, chunkSize) && left != [] && size == Min(chunkSize, |left|)
    ensures FitsIn(left[..size], 8 * EstimateMaxCompressedSize(chunkSize)) && ChunksFit(left[size..], chunkSize)
  {
    hide FitsIn;
  }

  lemma NoFrames(chunkSize: nat)
    ensures Flatten([]) == [] && Sources([]) == [] && Cut([], chunkSize) && Full([], chunkSize)
  {
  }

  /** Undo the compression of one frame; behind the payload at least eight more bytes can be read. */
  method UncompressFrame(uncompressor: ChunkUncompressor, size: nat, payload: seq<byte>, slack: seq<byte>,
    ghost f: Frame) returns (dest: array<byte>)
    requires uncompressor.Valid() && CodedFrame(f) && payload == f.payload && size == |f.src| && |slack| >= 8
    modifies uncompressor
    ensures uncompressor.Valid() && dest[..] == f.src
  {
    hide BitsOf, CodesBits, Complete;
    ghost var starts, codes :| CodedBy(f, starts, codes);
    dest := new byte[size];
    BitsOfConcat(payload, slack);
    uncompressor.Uncompress(payload + slack, |payload|, dest, f.src, starts, codes);
  }

  method UncompressStream(data: seq<byte>, slack: seq<byte>, ghost frames: seq<Frame>) returns (output: seq<byte>)
    requires data == Flatten(frames) && Coded(frames) && |slack| >= 8
    ensures output == Sources(frames)
  {
    hide CodedFrame;
    var uncompressor := new ChunkUncompressor();
    output := [];
    ghost var left := frames;
    var i: nat := 0;
    assert data[0..] == data;
    while i < |data|
      invariant uncompressor.Valid() && i <= |data| && data[i..] == Flatten(left) && Coded(left)
      invariant output + Sources(left) == Sources(frames)
      decreases |left|
    {
      var size, payload := ReadFrame(data, i, left);
      var dest := UncompressFrame(uncompressor, size, payload, slack, left[0]);
      output := output + dest[..];
      left := left[1..];
      i := i + HEADER + |payload|;
    }
    FlattenLength(left);
  }

  /** Whatever the hash, decompression undoes compression for every input and chunk size with chunks that fit. */
  method StreamRoundTrip(input: seq<byte>, chunkSize: nat, bucketCount: nat, step: (nat, byte) -> nat, seed: nat,
    slack: seq<byte>) returns (output: seq<byte>)
    requires 0 < chunkSize < TOO_LARGE && ChunksFit(input, chunkSize) && bucketCount > 0 && |slack| >= 8
    ensures output == input
  {
    var data, frames := CompressStream(input, chunkSize, bucketCount, step, seed);
    output := UncompressStream(data, slack, frames);
  }
}
