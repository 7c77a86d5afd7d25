/** The streamed text-to-speech path: the status check made before streaming
    starts, and the loop that re-chunks the response's bytes into pieces of
    at most 1024 bytes (`streamingGenerateSpeechFrom`). */
module SpeechStream {
  import opened Common

  /** The threshold at which the buffer is handed to the consumer. */
  const ChunkSize: nat := 1024

  /** The live byte source of the response: the bytes it delivers, then how
      it ends. A source that fails after k bytes delivers k bytes and ends
      with `Failed`. */
  datatype ByteSource = ByteSource(bytes: seq<byte>, ending: Ending)
  datatype Ending = Completed | Failed(error: SourceError)

  /** How the stream handed to the caller terminates. */
  datatype Termination = Finished | FinishedThrowing(error: SourceError)

  /** What the caller of the stream observes: the yielded chunks, in order,
      followed by the terminal signal. */
  datatype StreamRun = StreamRun(chunks: seq<seq<byte>>, termination: Termination)

  /** The streaming path proceeds only on a status in [200, 300). */
  predicate IsSuccessStatus(status: int) {
    200 <= status < 300
  }

  /** The concatenation of a list of chunks. */
  function Flatten(chunks: seq<seq<byte>>): seq<byte> {
    if chunks == [] then [] else chunks[0] + Flatten(chunks[1..])
  }

  /** The full-size chunks yielded inside the loop for the bytes `s`. */
  function FullChunks(s: seq<byte>): seq<seq<byte>> {
    if |s| < ChunkSize then [] else [s[..ChunkSize]] + FullChunks(s[ChunkSize..])
  }

  /** The bytes left in the buffer once `s` has been read. */
  function Remainder(s: seq<byte>): seq<byte> {
    if |s| < ChunkSize then s else Remainder(s[ChunkSize..])
  }

  /** All chunks yielded for a source that completes after `s`: the full
      chunks, then the leftover buffer when it is not empty. */
  function Chunks(s: seq<byte>): seq<seq<byte>> {
    FullChunks(s) + (if Remainder(s) == [] then [] else [Remainder(s)])
  }

  /** The specification of one run of the streaming task. */
  function ExpectedRun(src: ByteSource): StreamRun {
    match src.ending
    case Completed => StreamRun(Chunks(src.bytes), Finished)
    case Failed(e) => StreamRun(FullChunks(src.bytes), FinishedThrowing(e))
  }

  /** A partition of `s` into chunks of 1 to ChunkSize bytes in which only
      the last chunk may be short. */
  predicate IsChunking(chunks: seq<seq<byte>>, s: seq<byte>) {
    && Flatten(chunks) == s
    && (forall i :: 0 <= i < |chunks| ==> 0 < |chunks[i]| <= ChunkSize)
    && (forall i :: 0 <= i < |chunks| - 1 ==> |chunks[i]| == ChunkSize)
  }

  /** The task body: read the source byte by byte, yield the buffer whenever
      it reaches ChunkSize, flush a non-empty leftover when the source ends,
      and on a source error finish with that error without the leftover. */
  method StreamChunks(src: ByteSource) returns (run: StreamRun)
    ensures run == ExpectedRun(src)
  {
    var buffer: seq<byte> := [];
    var chunks: seq<seq<byte>> := [];
    for i := 0 to |src.bytes|
      invariant chunks == FullChunks(src.bytes[..i])
      invariant buffer == Remainder(src.bytes[..i])
    {
      var b := src.bytes[i];
      ReadByte(src.bytes[..i], b);
      assert src.bytes[..i + 1] == src.bytes[..i] + [b];
      buffer := buffer + [b];
      if |buffer| >= ChunkSize {
        chunks := chunks + [buffer];
        buffer := [];
      }
    }
    assert src.bytes[..|src.bytes|] == src.bytes;
    match src.ending {
      case Completed =>
        if buffer != [] {
          chunks := chunks + [buffer];
        }
        run := StreamRun(chunks, Finished);
      case Failed(e) =>
        run := StreamRun(chunks, FinishedThrowing(e));
    }
  }

  /** `streamingGenerateSpeechFrom` after the request is sent: a response that
      is not HTTP or whose status is outside [200, 300) throws before any
      stream exists; otherwise the stream runs over the source. */
  method StreamingGenerateSpeech(status: Option<int>, src: ByteSource)
    returns (r: Result<StreamRun, ClientError>)
    ensures r.Success? <==> status.Some? && IsSuccessStatus(status.value)
    ensures r.Failure? ==> r.error == BadServerResponse
    ensures r.Success? ==> r.value == ExpectedRun(src)
  {
    if status.None? || !IsSuccessStatus(status.value) {
      return Failure(BadServerResponse);
    }
    var run := StreamChunks(src);
    r := Success(run);
  }

  // ---------------------------------------------------------------------
  // One loop iteration

  /** Reading one more byte either completes a full chunk out of the buffer
      (and empties it) or only grows the buffer. */
  lemma {:induction false} ReadByte(s: seq<byte>, b: byte)
    ensures |Remainder(s)| + 1 >= ChunkSize ==>
      FullChunks(s + [b]) == FullChunks(s) + [Remainder(s) + [b]] && Remainder(s + [b]) == []
    ensures |Remainder(s)| + 1 < ChunkSize ==>
      FullChunks(s + [b]) == FullChunks(s) && Remainder(s + [b]) == Remainder(s) + [b]
    decreases |s|
  {
    if |s| < ChunkSize {
      if |s| + 1 == ChunkSize {
        assert (s + [b])[ChunkSize..] == [];
        assert (s + [b])[..ChunkSize] == s + [b];
      }
    } else {
      assert (s + [b])[..ChunkSize] == s[..ChunkSize];
      assert (s + [b])[ChunkSize..] == s[ChunkSize..] + [b];
      ReadByte(s[ChunkSize..], b);
    }
  }

  // ---------------------------------------------------------------------
  // Properties of the chunking

  lemma {:induction false} FlattenAppend(a: seq<seq<byte>>, b: seq<seq<byte>>)
    ensures Flatten(a + b) == Flatten(a) + Flatten(b)
    decreases |a|
  {
    if a == [] {
      assert a + b == b;
    } else {
      assert (a + b)[0] == a[0];
      assert (a + b)[1..] == a[1..] + b;
      FlattenAppend(a[1..], b);
    }
  }

  /** The buffer never holds ChunkSize bytes between iterations, and its
      length is the count of bytes past the last full chunk. */
  lemma {:induction false} RemainderLength(s: seq<byte>)
    ensures |Remainder(s)| == |s| % ChunkSize
    ensures |Remainder(s)| < ChunkSize
    decreases |s|
  {
    if |s| >= ChunkSize {
      RemainderLength(s[ChunkSize..]);
    }
  }

  /** Every full chunk has exactly ChunkSize bytes, and there are
      floor(|s| / ChunkSize) of them. */
  lemma {:induction false} FullChunkSizes(s: seq<byte>)
    ensures |FullChunks(s)| == |s| / ChunkSize
    ensures forall i :: 0 <= i < |FullChunks(s)| ==> |FullChunks(s)[i]| == ChunkSize
    decreases |s|
  {
    if |s| >= ChunkSize {
      FullChunkSizes(s[ChunkSize..]);
    }
  }

  /** The full chunks followed by the leftover buffer give back `s`. */
  lemma {:induction false} FullChunksThenRemainder(s: seq<byte>)
    ensures Flatten(FullChunks(s)) + Remainder(s) == s
    decreases |s|
  {
    if |s| >= ChunkSize {
      FullChunksThenRemainder(s[ChunkSize..]);
      assert s == s[..ChunkSize] + s[ChunkSize..];
    }
  }

  /** A source that completes: the chunks concatenate to exactly the bytes
      read. */
  lemma ChunksConcatenate(s: seq<byte>)
    ensures Flatten(Chunks(s)) == s
  {
    FullChunksThenRemainder(s);
    var tail := if Remainder(s) == [] then [] else [Remainder(s)];
    FlattenAppend(FullChunks(s), tail);
    assert Flatten(tail) == Remainder(s) by {
      if tail != [] {
        assert tail[1..] == [];
      }
    }
  }

  /** No chunk is empty, every chunk but the last has exactly ChunkSize
      bytes, a source of N bytes yields ceil(N / ChunkSize) chunks, and the
      leftover chunk, when yielded, holds 1 to ChunkSize - 1 bytes. */
  lemma ChunkShape(s: seq<byte>)
    ensures forall i :: 0 <= i < |Chunks(s)| ==> 0 < |Chunks(s)[i]| <= ChunkSize
    ensures forall i :: 0 <= i < |Chunks(s)| - 1 ==> |Chunks(s)[i]| == ChunkSize
    ensures |Chunks(s)| == (|s| + ChunkSize - 1) / ChunkSize
    ensures Remainder(s) != [] ==> Chunks(s)[|Chunks(s)| - 1] == Remainder(s) && 0 < |Remainder(s)| < ChunkSize
  {
    FullChunkSizes(s);
    RemainderLength(s);
  }

  /** The chunks yielded for a completing source are the only partition of
      its bytes into chunks of 1 to ChunkSize bytes in which only the last
      may be short. */
  lemma ChunksAreChunking(s: seq<byte>)
    ensures IsChunking(Chunks(s), s)
  {
    ChunksConcatenate(s);
    ChunkShape(s);
  }

  lemma ChunksUnfold(s: seq<byte>)
    requires |s| >= ChunkSize
    ensures Chunks(s) == [s[..ChunkSize]] + Chunks(s[ChunkSize..])
  {
  }

  lemma {:induction false} ChunkingIsUnique(chunks: seq<seq<byte>>, s: seq<byte>)
    requires IsChunking(chunks, s)
    ensures chunks == Chunks(s)
    decreases |chunks|
  {
    if chunks == [] {
      assert s == [];
    } else if |chunks| == 1 {
      assert chunks[1..] == [];
      assert Flatten(chunks[1..]) == [];
      assert s == chunks[0];
      if |s| == ChunkSize {
        ChunksUnfold(s);
        assert s[ChunkSize..] == [];
      }
    } else {
      var rest := chunks[1..];
      assert s == chunks[0] + Flatten(rest);
      assert rest[0] == chunks[1];
      assert Flatten(rest) == rest[0] + Flatten(rest[1..]);
      assert |chunks[0]| == ChunkSize;
      assert s[..ChunkSize] == chunks[0];
      assert s[ChunkSize..] == Flatten(rest);
      assert IsChunking(rest, s[ChunkSize..]) by {
        forall i | 0 <= i < |rest| ensures 0 < |rest[i]| <= ChunkSize {
          assert rest[i] == chunks[i + 1];
        }
        forall i | 0 <= i < |rest| - 1 ensures |rest[i]| == ChunkSize {
          assert rest[i] == chunks[i + 1];
        }
      }
      ChunkingIsUnique(rest, s[ChunkSize..]);
      ChunksUnfold(s);
    }
  }

  /** A source that fails after k bytes: what was yielded is exactly the
      floor(k / ChunkSize) full chunks of those k bytes; the partial buffer
      is dropped. */
  lemma FailedRunDropsBuffer(s: seq<byte>, e: SourceError)
    ensures ExpectedRun(ByteSource(s, Failed(e))).termination == FinishedThrowing(e)
    ensures Flatten(ExpectedRun(ByteSource(s, Failed(e))).chunks) == s[..|s| / ChunkSize * ChunkSize]
    ensures |ExpectedRun(ByteSource(s, Failed(e))).chunks| == |s| / ChunkSize
  {
    FullChunksThenRemainder(s);
    RemainderLength(s);
    FullChunkSizes(s);
    assert s[..|s| / ChunkSize * ChunkSize] == Flatten(FullChunks(s));
  }

  /** Chunks are yielded as bytes arrive: the full chunks of a prefix of the
      source are a prefix of the full chunks of the whole source, so nothing
      yielded is ever taken back or reordered. */
  lemma {:induction false} FullChunksGrow(s: seq<byte>, t: seq<byte>)
    ensures FullChunks(s) <= FullChunks(s + t)
    decreases |s|
  {
    if |s| >= ChunkSize {
      assert (s + t)[..ChunkSize] == s[..ChunkSize];
      assert (s + t)[ChunkSize..] == s[ChunkSize..] + t;
      FullChunksGrow(s[ChunkSize..], t);
    }
  }
}
