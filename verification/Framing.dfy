/** The chunk framing shared by the compressors: two 32-bit sizes, then the compressed bytes. */
module Framing {
  import opened Numerals
  import opened BitStream

  const HEADER: nat := 8
  const LIMIT: nat := 0x1_0000_0000

  datatype Frame = Frame(src: seq<byte>, payload: seq<byte>)

  ghost predicate Sized(f: Frame) {
    |f.src| < LIMIT && |f.payload| < LIMIT
  }

  /** One frame as bytes. */
  function FrameBytes(size: nat, payload: seq<byte>): (s: seq<byte>)
    ensures |s| == HEADER + |payload|
  {
    ToBytes(size, 4) + ToBytes(|payload|, 4) + payload
  }

  /** The sizes come lowest byte first, that of the source before that of the payload. */
  lemma FrameExample()
    ensures FrameBytes(258, [7]) == [2, 1, 0, 0, 1, 0, 0, 0, 7]
  {
    BytesExample(258, 4, 2, 1);
    BytesExample(1, 4, 1, 0);
    hide ToBytes;
  }

  ghost function Flatten(frames: seq<Frame>): seq<byte> {
    if frames == [] then []
    else FrameBytes(|frames[0].src|, frames[0].payload) + Flatten(frames[1..])
  }

  ghost function Sources(frames: seq<Frame>): seq<byte> {
    if frames == [] then [] else frames[0].src + Sources(frames[1..])
  }

  lemma {:induction false} FlattenSnoc(frames: seq<Frame>, f: Frame)
    ensures Flatten(frames + [f]) == Flatten(frames) + FrameBytes(|f.src|, f.payload)
    ensures Sources(frames + [f]) == Sources(frames) + f.src
  {
    hide FrameBytes;
    if frames == [] {
      FlattenOne(f);
      assert [] + [f] == [f];
    } else {
      assert (frames + [f])[1..] == frames[1..] + [f];
      FlattenSnoc(frames[1..], f);
    }
  }

  lemma FlattenOne(f: Frame)
    ensures Flatten([f]) == FrameBytes(|f.src|, f.payload) && Sources([f]) == f.src
  {
    assert [f][1..] == [];
  }

  lemma Pow256By4()
    ensures Pow(256, 4) == LIMIT
  {
    assert Pow(256, 2) == 0x1_0000;
    PowAdd(256, 2, 2);
  }

  /** The part of the input in front of offset i, which may lie past its end. */
  ghost function Before(input: seq<byte>, i: nat): seq<byte> {
    if i < |input| then input[..i] else input
  }

  lemma BeforeStep(input: seq<byte>, i: nat, size: nat, chunkSize: nat)
    requires i < |input| && size == if |input| - i < chunkSize then |input| - i else chunkSize
    ensures Before(input, i) + input[i..i + size] == Before(input, i + chunkSize)
  {
  }

  // ---- Chunks -----------------------------------------------------------------------------

  /** The number of chunks of that size, the last of which may be smaller. */
  function Chunks(n: nat, chunkSize: nat): nat
    requires chunkSize > 0
  {
    (n + chunkSize - 1) / chunkSize
  }

  ghost predicate Full(frames: seq<Frame>, chunkSize: nat) {
    forall i :: 0 <= i < |frames| ==> |frames[i].src| == chunkSize
  }

  /** Every source has the chunk size, up to the last, which is not empty and no larger. */
  ghost predicate Cut(frames: seq<Frame>, chunkSize: nat) {
    frames != [] ==> Full(frames[..|frames| - 1], chunkSize) && 0 < |frames[|frames| - 1].src| <= chunkSize
  }

  lemma CutSnoc(frames: seq<Frame>, f: Frame, chunkSize: nat)
    requires Full(frames, chunkSize) && 0 < |f.src| <= chunkSize
    ensures Cut(frames + [f], chunkSize) && (|f.src| == chunkSize ==> Full(frames + [f], chunkSize))
  {
    assert (frames + [f])[..|frames|] == frames;
  }

  lemma {:induction false} FullLength(frames: seq<Frame>, chunkSize: nat)
    requires Full(frames, chunkSize)
    ensures |Sources(frames)| == chunkSize * |frames|
  {
    hide FrameBytes;
    if frames != [] {
      var k := |frames| - 1;
      FullLength(frames[..k], chunkSize);
      FlattenSnoc(frames[..k], frames[k]);
      assert frames[..k] + [frames[k]] == frames;
      MulDistribute(k, 1, chunkSize);
    }
  }

  /** So there are as many frames as chunks. */
  lemma CutCount(frames: seq<Frame>, chunkSize: nat)
    requires chunkSize > 0 && Cut(frames, chunkSize)
    ensures |frames| == Chunks(|Sources(frames)|, chunkSize)
  {
    if frames == [] {
      assert (chunkSize - 1) / chunkSize == 0 by { DivModUnique(chunkSize - 1, 0, chunkSize); }
    } else {
      var k := |frames| - 1;
      var l := |frames[k].src|;
      FullLength(frames[..k], chunkSize);
      FlattenSnoc(frames[..k], frames[k]);
      assert frames[..k] + [frames[k]] == frames;
      MulDistribute(k, 1, chunkSize);
      DivModUnique(l - 1, k + 1, chunkSize);
    }
  }

  /** Read the header at a frame boundary and cut out the payload. */
  method ReadFrame(data: seq<byte>, at: nat, ghost frames: seq<Frame>) returns (size: nat, payload: seq<byte>)
    requires at <= |data| && data[at..] == Flatten(frames) && frames != [] && Sized(frames[0])
    ensures size == |frames[0].src| && payload == frames[0].payload
    ensures at + HEADER + |payload| <= |data| && data[at + HEADER + |payload|..] == Flatten(frames[1..])
  {
    ghost var f, rest := frames[0], Flatten(frames[1..]);
    Pow256By4();
    LittleEndianToBytes(|f.src|, 4);
    LittleEndianToBytes(|f.payload|, 4);
    FrameParts(data, at, ToBytes(|f.src|, 4), ToBytes(|f.payload|, 4), f.payload, rest);
    hide Flatten, ToBytes;
    size := LoadBytes(data[at..at + 4]);
    var n := LoadBytes(data[at + 4..at + 8]);
    payload := data[at + HEADER..at + HEADER + n];
  }

  /** Where the parts of a frame lie. */
  lemma FrameParts(data: seq<byte>, at: nat, a: seq<byte>, b: seq<byte>, p: seq<byte>, rest: seq<byte>)
    requires at <= |data| && data[at..] == a + b + p + rest && |a| == |b| == 4
    ensures at + HEADER + |p| <= |data| && data[at..at + 4] == a && data[at + 4..at + 8] == b
    ensures data[at + HEADER..at + HEADER + |p|] == p && data[at + HEADER + |p|..] == rest
  {
    var s := data[at..];
    assert s[..4] == a && s[4..8] == b && s[8..8 + |p|] == p && s[8 + |p|..] == rest;
    assert data[at..at + 4] == s[..4] && data[at + 4..at + 8] == s[4..8];
    assert data[at + 8..at + 8 + |p|] == s[8..8 + |p|] && data[at + 8 + |p|..] == s[8 + |p|..];
  }

  lemma FlattenLength(frames: seq<Frame>)
    ensures frames != [] ==> |Flatten(frames)| >= HEADER
  {
  }
}
