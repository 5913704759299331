/** Re-framing a stream of audio chunks of any size into frames of one size. */
module PcmFraming {

  type Bytes = seq<bv8>

  /** All the bytes of the stream, in order. */
  ghost function Joined(chunks: seq<Bytes>): Bytes {
    if chunks == [] then [] else Joined(chunks[..|chunks| - 1]) + chunks[|chunks| - 1]
  }

  /** As many whole frames as there are. */
  ghost function Frames(bytes: Bytes, size: nat): seq<Bytes>
    requires size > 0
  {
    if |bytes| < size then [] else [bytes[..size]] + Frames(bytes[size..], size)
  }

  /** What is left after the whole frames. */
  ghost function Remainder(bytes: Bytes, size: nat): Bytes
    requires size > 0
  {
    if |bytes| < size then bytes else Remainder(bytes[size..], size)
  }

  // ---------------------------------------------------------------- what framing means

  ghost predicate AllOfSize(frames: seq<Bytes>, size: nat) {
    forall k :: 0 <= k < |frames| ==> |frames[k]| == size
  }

  lemma {:induction false} JoinedCons(first: Bytes, rest: seq<Bytes>)
    ensures Joined([first] + rest) == first + Joined(rest)
  {
    if rest == [] {
      assert ([first] + rest)[..0] == [];
    } else {
      var k := |rest| - 1;
      assert ([first] + rest)[..|rest|] == [first] + rest[..k];
      JoinedCons(first, rest[..k]);
    }
  }

  lemma {:induction false} FramesAreWhole(bytes: Bytes, size: nat)
    requires size > 0
    ensures AllOfSize(Frames(bytes, size), size) && |Remainder(bytes, size)| < size
    decreases |bytes|
  {
    if |bytes| >= size {
      FramesAreWhole(bytes[size..], size);
    }
  }

  lemma Regroup(a: Bytes, b: Bytes, c: Bytes)
    ensures a + b + c == a + (b + c)
  {
  }

  lemma {:induction false} FramesJoin(bytes: Bytes, size: nat)
    requires size > 0
    ensures Joined(Frames(bytes, size)) + Remainder(bytes, size) == bytes
    decreases |bytes|
  {
    if |bytes| >= size {
      hide Joined;
      var first, rest := bytes[..size], bytes[size..];
      FramesJoin(rest, size);
      JoinedCons(first, Frames(rest, size));
      Regroup(first, Joined(Frames(rest, size)), Remainder(rest, size));
    }
  }

  /** Frames and remainder are the bytes again; frames are whole, the remainder is not. */
  lemma FramesConserve(bytes: Bytes, size: nat)
    requires size > 0
    ensures Joined(Frames(bytes, size)) + Remainder(bytes, size) == bytes
    ensures AllOfSize(Frames(bytes, size), size) && |Remainder(bytes, size)| < size
  {
    FramesJoin(bytes, size);
    FramesAreWhole(bytes, size);
  }

  /** There is no other way to cut bytes into whole frames and a shorter remainder, so the frames of a
      stream depend on its bytes alone and not on its chunks. */
  lemma {:induction false} FramingIsUnique(frames: seq<Bytes>, rest: Bytes, size: nat)
    requires size > 0 && AllOfSize(frames, size) && |rest| < size
    ensures Frames(Joined(frames) + rest, size) == frames
    ensures Remainder(Joined(frames) + rest, size) == rest
    decreases |frames|
  {
    if frames != [] {
      var tail := frames[1..];
      assert frames == [frames[0]] + tail;
      JoinedCons(frames[0], tail);
      FramingIsUnique(tail, rest, size);
      assert (Joined(frames) + rest)[..size] == frames[0];
      assert (Joined(frames) + rest)[size..] == Joined(tail) + rest;
    }
  }

  // ---------------------------------------------------------------- the two loops

  /** Frames drained so far and the buffer, when the input seen so far is `bytes`. */
  ghost predicate Buffered(frames: seq<Bytes>, buffer: Bytes, bytes: Bytes, size: nat)
    requires size > 0
  {
    AllOfSize(frames, size) && Joined(frames) + buffer == bytes
  }

  lemma DrainOne(frames: seq<Bytes>, buffer: Bytes, bytes: Bytes, size: nat)
    requires size > 0 && Buffered(frames, buffer, bytes, size) && |buffer| >= size
    ensures Buffered(frames + [buffer[..size]], buffer[size..], bytes, size)
  {
    var frame := buffer[..size];
    assert (frames + [frame])[..|frames|] == frames;
    assert buffer == frame + buffer[size..];
    assert Joined(frames) + frame + buffer[size..] == Joined(frames) + (frame + buffer[size..]);
  }

  /** Sends each whole frame as soon as it is buffered, then a shorter last frame if bytes are left. */
  method SendFrames(chunks: seq<Bytes>, chunkBytes: nat) returns (sent: seq<Bytes>)
    requires chunkBytes > 0
    ensures var bytes := Joined(chunks);
      sent == Frames(bytes, chunkBytes) + if Remainder(bytes, chunkBytes) == [] then [] else [Remainder(bytes, chunkBytes)]
  {
    sent := [];
    var buffer: Bytes := [];
    for k := 0 to |chunks|
      invariant Buffered(sent, buffer, Joined(chunks[..k]), chunkBytes) && |buffer| < chunkBytes
    {
      assert chunks[..k + 1][..k] == chunks[..k];
      if chunks[k] == [] {
        continue;
      }
      buffer := buffer + chunks[k];
      while |buffer| >= chunkBytes
        invariant Buffered(sent, buffer, Joined(chunks[..k + 1]), chunkBytes)
        decreases |buffer|
      {
        DrainOne(sent, buffer, Joined(chunks[..k + 1]), chunkBytes);
        sent := sent + [buffer[..chunkBytes]];
        buffer := buffer[chunkBytes..];
      }
    }
    assert chunks[..|chunks|] == chunks;
    FramingIsUnique(sent, buffer, chunkBytes);
    if buffer != [] {
      sent := sent + [buffer];
    }
  }

  /** Recognises each whole stride as it is buffered, then whatever is left, even nothing, as the final
      chunk. A sample has two bytes. */
  method RecognizeStrides(chunks: seq<Bytes>, chunkStride: nat) returns (recognised: seq<Bytes>, final: Bytes)
    requires chunkStride > 0
    ensures recognised == Frames(Joined(chunks), 2 * chunkStride)
    ensures final == Remainder(Joined(chunks), 2 * chunkStride)
  {
    recognised := [];
    var buffer: Bytes := [];
    var strideBytes := chunkStride * 2;
    for k := 0 to |chunks|
      invariant Buffered(recognised, buffer, Joined(chunks[..k]), strideBytes) && |buffer| < strideBytes
    {
      assert chunks[..k + 1][..k] == chunks[..k];
      if chunks[k] == [] {
        continue;
      }
      buffer := buffer + chunks[k];
      while |buffer| >= strideBytes
        invariant Buffered(recognised, buffer, Joined(chunks[..k + 1]), strideBytes)
        decreases |buffer|
      {
        DrainOne(recognised, buffer, Joined(chunks[..k + 1]), strideBytes);
        recognised := recognised + [buffer[..strideBytes]];
        buffer := buffer[strideBytes..];
      }
    }
    assert chunks[..|chunks|] == chunks;
    FramingIsUnique(recognised, buffer, strideBytes);
    final := buffer;
  }
}
