/** Huffman compression of whole streams, chunk by chunk. */
module HuffmanStream {
  import opened Numerals
  import opened BitStream
  import opened HuffmanCode
  import opened Huffman
  import opened HuffmanCompress
  import opened HuffmanDecompress
  import opened Framing

  /** Every frame holds its source, compressed under some tree. */
  ghost predicate Coded(frames: seq<Frame>) {
    forall i :: 0 <= i < |frames| ==> Sized(frames[i]) && CodedFrame(frames[i])
  }

  ghost predicate CodedFrame(f: Frame) {
    exists t: CodeTree :: Compressed(f.payload, t, f.src)
  }

  /** It is the tree of least cost, and the payload is no longer than tree and codes. */
  ghost predicate PackedFrame(f: Frame) {
    exists t: CodeTree :: PackedBy(f, t)
  }

  ghost predicate PackedBy(f: Frame, t: CodeTree) {
    && HuffmanTreeOf(t, Freq(f.src)) && Compressed(f.payload, t, f.src)
    && |f.payload| == (|Serialized(t)| + |Encode(t, f.src)| + 7) / 8
  }

  ghost predicate Packed(frames: seq<Frame>) {
    forall i :: 0 <= i < |frames| ==> Sized(frames[i]) && PackedFrame(frames[i])
  }

  lemma PackedCoded(frames: seq<Frame>)
    requires Packed(frames)
    ensures Coded(frames)
  {
    hide HuffmanTreeOf, Compressed;
    forall i | 0 <= i < |frames|
      ensures CodedFrame(frames[i])
    {
      assert PackedFrame(frames[i]);
    }
  }

  ghost function Distinct(src: seq<byte>): set<byte> {
    set b: byte | b in src
  }

  /** Ten bits for each byte that occurs, less one, and no more for the text than any prefix code takes. */
  lemma SmallestFrame(f: Frame, u: CodeTree)
    requires PackedFrame(f) && f.src != [] && Proper(u) && HasCodes(u, f.src)
    ensures |f.payload| <= (10 * |Distinct(f.src)| - 1 + |Encode(u, f.src)| + 7) / 8
  {
    hide Compressed, HasCodes, Encode, Proper;
    var t: CodeTree :| PackedBy(f, t);
    PackedCodes(f, t);
    EncodingOptimal(t, u, f.src);
    assert Syms(t) == Distinct(f.src);
    hide HuffmanTreeOf, Syms;
    CountSyms(t);
  }

  lemma PackedCodes(f: Frame, t: CodeTree)
    requires PackedBy(f, t)
    ensures Proper(t) && HasCodes(t, f.src)
  {
  }

  /** Compress one chunk into a frame. */
  method CompressChunk(src: seq<byte>, writeBuf: array<byte>) returns (bytes: seq<byte>, ghost frame: Frame)
    requires 0 < |src| < 0x8000_0000 && writeBuf.Length >= |src| + COMPRESSION_OVERHEAD
    modifies writeBuf
    ensures frame.src == src && Sized(frame) && PackedFrame(frame)
    ensures bytes == FrameBytes(|src|, frame.payload)
    ensures |bytes| <= |src| + HEADER + 320
  {
    var size, t := Compress(src, writeBuf);
    var payload := writeBuf[..size];
    frame := Frame(src, payload);
    assert PackedBy(frame, t);
    bytes := FrameBytes(|src|, payload);
  }

  method CompressStream(input: seq<byte>, chunkSize: nat) returns (output: seq<byte>, ghost frames: seq<Frame>)
    requires 0 < chunkSize < 0x8000_0000
    ensures output == Flatten(frames) && Sources(frames) == input && Packed(frames) && Cut(frames, chunkSize)
    ensures |output| <= |input| + (HEADER + 320) * Chunks(|input|, chunkSize)
  {
    hide PackedFrame, Flatten, FrameBytes, Cut, Full;
    var writeBuf := new byte[chunkSize + COMPRESSION_OVERHEAD];
    output, frames := [], [];
    NoFrames(chunkSize);
    var i: nat := 0;
    while i < |input|
      invariant output == Flatten(frames) && Packed(frames)
      invariant Cut(frames, chunkSize) && (i < |input| ==> Full(frames, chunkSize))
      invariant Sources(frames) == Before(input, i)
      invariant |output| <= |Sources(frames)| + (HEADER + 320) * |frames|
      decreases |input| - i
    {
      var srcsize := if |input| - i < chunkSize then |input| - i else chunkSize;
      var bytes, frame := CompressChunk(input[i..i + srcsize], writeBuf);
      output := output + bytes;
      FlattenSnoc(frames, frame);
      CutSnoc(frames, frame, chunkSize);
      BeforeStep(input, i, srcsize, chunkSize);
      frames := frames + [frame];
      i := i + chunkSize;
    }
    CutCount(frames, chunkSize);
  }

  lemma NoFrames(chunkSize: nat)
    ensures Flatten([]) == [] && Sources([]) == [] && Cut([], chunkSize) && Full([], chunkSize)
  {
  }

  method UncompressStream(data: seq<byte>, ghost frames: seq<Frame>) returns (output: seq<byte>)
    requires data == Flatten(frames) && Coded(frames)
    ensures output == Sources(frames)
  {
    output := [];
    ghost var left := frames;
    var i: nat := 0;
    assert data[0..] == data;
    while i < |data|
      invariant i <= |data| && data[i..] == Flatten(left) && Coded(left)
      invariant output + Sources(left) == Sources(frames)
      decreases |left|
    {
      var size, payload := ReadFrame(data, i, left);
      ghost var src := left[0].src;
      assert CodedFrame(left[0]);
      ghost var t: CodeTree :| Compressed(payload, t, src);
      var dest := new byte[size];
      Uncompress(payload, dest, t, src);
      output := output + dest[..];
      left := left[1..];
      i := i + HEADER + |payload|;
    }
    FlattenLength(left);
  }

  /** Whatever the input and the chunk size, decompression undoes compression. */
  method StreamRoundTrip(input: seq<byte>, chunkSize: nat) returns (output: seq<byte>)
    requires 0 < chunkSize < 0x8000_0000
    ensures output == input
  {
    var data, frames := CompressStream(input, chunkSize);
    PackedCoded(frames);
    output := UncompressStream(data, frames);
  }
}
