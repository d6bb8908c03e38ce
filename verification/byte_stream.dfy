/** The chunked copy loop that appears twice in the helper: once to seed the
    database file from an asset, once to dump the live database file.

    The input stream is modelled as the finite sequence of results its
    `read(buffer)` calls produce, in order; the output stream as the bytes it
    has received and the list of individual `write(buffer, 0, len)` calls. */
module ByteStream {
  import opened Wrappers

  newtype byte = b: int | 0 <= b < 256

  /** Length of the `byte[512]` buffer both loops read into. */
  const BufferSize: nat := 512

  /** The outcome of one `InputStream.read(buffer)` call. */
  datatype ReadResult =
    | Eof                       // returned -1: end of stream
    | Zero                      // returned 0: nothing read, not the end
    | Chunk(bytes: seq<byte>)   // returned |bytes| > 0, held in the buffer's front
    | ReadError                 // threw an IOException

  /** `read(buffer)` never returns more bytes than the buffer holds. */
  predicate ValidRead(r: ReadResult) {
    r.Chunk? ==> 0 < |r.bytes| <= BufferSize
  }

  predicate ValidSource(src: seq<ReadResult>) {
    forall i :: 0 <= i < |src| ==> ValidRead(src[i])
  }

  /** The i-th read. A drained `InputStream` keeps answering -1, so every
      read past the modelled results is `Eof`. */
  function ReadAt(src: seq<ReadResult>, i: nat): ReadResult
  {
    if i < |src| then src[i] else Eof
  }

  /** The `int` that `read` returns (a ReadError returns nothing: it throws).
      Its bound is what lets `write(buffer, 0, len)` stay inside the buffer. */
  function Len(r: ReadResult): (n: int)
    requires !r.ReadError?
    requires ValidRead(r)
    ensures -1 <= n <= BufferSize as int
  {
    match r
    case Eof => -1
    case Zero => 0
    case Chunk(b) => |b|
  }

  // ---------------------------------------------------------------------
  // Reference semantics of the loop, read from the front of the source
  // ---------------------------------------------------------------------

  /** The bytes the loop is meant to deliver: every chunk, in order, up to
      the first end of stream or read error. Zero-length reads add nothing
      and do not stop the loop. */
  function Payload(src: seq<ReadResult>): seq<byte>
  {
    if |src| == 0 then []
    else match src[0]
      case Eof => []
      case ReadError => []
      case Zero => Payload(src[1..])
      case Chunk(b) => b + Payload(src[1..])
  }

  /** The loop reaches end of stream without a read throwing. */
  predicate CleanEnd(src: seq<ReadResult>)
  {
    if |src| == 0 then true
    else match src[0]
      case Eof => true
      case ReadError => false
      case Zero => CleanEnd(src[1..])
      case Chunk(_) => CleanEnd(src[1..])
  }

  /** Number of `write` calls a fault-free run of the loop makes: one per
      chunk before the end. */
  function WriteCount(src: seq<ReadResult>): nat
  {
    if |src| == 0 then 0
    else match src[0]
      case Eof => 0
      case ReadError => 0
      case Zero => WriteCount(src[1..])
      case Chunk(_) => 1 + WriteCount(src[1..])
  }

  /** The chunks a fault-free run of the loop writes, one per `write` call,
      in order. */
  function Chunks(src: seq<ReadResult>): seq<seq<byte>>
  {
    if |src| == 0 then []
    else match src[0]
      case Eof => []
      case ReadError => []
      case Zero => Chunks(src[1..])
      case Chunk(b) => [b] + Chunks(src[1..])
  }

  /** The loop finishes without an IOException: no read throws before the
      end, and the write that throws (if any) is never reached. */
  predicate CopySucceeds(src: seq<ReadResult>, writeFault: Option<nat>)
  {
    CleanEnd(src) && (writeFault.None? || WriteCount(src) <= writeFault.value)
  }

  /** The bytes a list of writes put on the output stream, in order. */
  function Flatten(writes: seq<seq<byte>>): seq<byte>
  {
    if |writes| == 0 then []
    else Flatten(writes[..|writes| - 1]) + writes[|writes| - 1]
  }

  lemma FlattenAppend(writes: seq<seq<byte>>, w: seq<byte>)
    ensures Flatten(writes + [w]) == Flatten(writes) + w
  {
    assert (writes + [w])[..|writes|] == writes;
  }

  /** The write count is the number of chunks. */
  lemma {:induction false} WriteCountIsChunks(src: seq<ReadResult>)
    ensures WriteCount(src) == |Chunks(src)|
    decreases |src|
  {
    if |src| > 0 {
      WriteCountIsChunks(src[1..]);
    }
  }

  /** The payload is the chunks laid end to end. */
  lemma {:induction false} PayloadIsFlattenedChunks(src: seq<ReadResult>)
    ensures Flatten(Chunks(src)) == Payload(src)
    decreases |src|
  {
    if |src| > 0 && (src[0].Zero? || src[0].Chunk?) {
      PayloadIsFlattenedChunks(src[1..]);
      if src[0].Chunk? {
        FlattenPrepend(src[0].bytes, Chunks(src[1..]));
      }
    }
  }

  lemma {:induction false} FlattenPrepend(w: seq<byte>, writes: seq<seq<byte>>)
    ensures Flatten([w] + writes) == w + Flatten(writes)
    decreases |writes|
  {
    if |writes| > 0 {
      var init := writes[..|writes| - 1];
      assert ([w] + writes)[..|writes|] == [w] + init;
      FlattenPrepend(w, init);
    }
  }

  /** Flattening preserves the prefix order. */
  lemma {:induction false} FlattenPrefix(a: seq<seq<byte>>, b: seq<seq<byte>>)
    requires a <= b
    ensures Flatten(a) <= Flatten(b)
    decreases |b|
  {
    if |a| < |b| {
      FlattenPrefix(a, b[..|b| - 1]);
    } else {
      assert a == b;
    }
  }

  /** Where the loop stops, its writes and output relate to the reference
      semantics as the contract of `Copy` says. */
  lemma CopyEnds(src: seq<ReadResult>, writes: seq<seq<byte>>)
    requires writes <= Chunks(src)
    ensures |Chunks(src)| == WriteCount(src)
    ensures Flatten(writes) <= Payload(src)
    ensures writes == Chunks(src) ==> Flatten(writes) == Payload(src)
  {
    WriteCountIsChunks(src);
    PayloadIsFlattenedChunks(src);
    FlattenPrefix(writes, Chunks(src));
  }

  /** What the read at index i contributes to the reference semantics of
      the reads from i on. */
  lemma StepFacts(src: seq<ReadResult>, i: nat)
    requires i < |src|
    ensures src[i..][1..] == src[i + 1..]
    ensures src[i].Chunk? ==>
      && Payload(src[i..]) == src[i].bytes + Payload(src[i + 1..])
      && Chunks(src[i..]) == [src[i].bytes] + Chunks(src[i + 1..])
      && CleanEnd(src[i..]) == CleanEnd(src[i + 1..])
    ensures src[i].Zero? ==>
      && Payload(src[i..]) == Payload(src[i + 1..])
      && Chunks(src[i..]) == Chunks(src[i + 1..])
      && CleanEnd(src[i..]) == CleanEnd(src[i + 1..])
    ensures src[i].Eof? ==> Payload(src[i..]) == [] && Chunks(src[i..]) == [] && CleanEnd(src[i..])
    ensures src[i].ReadError? ==> Payload(src[i..]) == [] && Chunks(src[i..]) == [] && !CleanEnd(src[i..])
  {
    assert src[i..][0] == src[i];
    assert src[i..][1..] == src[i + 1..];
  }

  // ---------------------------------------------------------------------
  // The loop itself
  // ---------------------------------------------------------------------

  /** `while (len != -1) { len = is.read(buffer); if (len > 0) os.write(buffer, 0, len); }`
      `writeFault` names the write call (counted from 0) that throws, if any.
      On success the output is exactly the payload; on an IOException it is
      the part of the payload written so far. */
  method Copy(src: seq<ReadResult>, writeFault: Option<nat>)
    returns (out: seq<byte>, writes: seq<seq<byte>>, ok: bool)
    requires ValidSource(src)
    ensures ok <==> CopySucceeds(src, writeFault)
    ensures ok ==> out == Payload(src) && |writes| == WriteCount(src)
    ensures ok ==> writes == Chunks(src)
    ensures out <= Payload(src)
    ensures writes <= Chunks(src)
    ensures Flatten(writes) == out
    ensures forall k :: 0 <= k < |writes| ==> 0 < |writes[k]| <= BufferSize
  {
    out := [];
    writes := [];
    var len := 0;
    var i := 0;
    while len != -1
      invariant i <= |src| + 1
      invariant len != -1 ==> i <= |src|
      invariant len != -1 ==> writes + Chunks(src[i..]) == Chunks(src)
      invariant len != -1 ==> (CleanEnd(src[i..]) <==> CleanEnd(src))
      invariant len == -1 ==> writes == Chunks(src) && CleanEnd(src)
      invariant Flatten(writes) == out
      invariant forall k :: 0 <= k < |writes| ==> 0 < |writes[k]| <= BufferSize
      invariant writeFault.None? || |writes| <= writeFault.value
      decreases |src| + 1 - i
    {
      var r := ReadAt(src, i);
      if i < |src| {
        StepFacts(src, i);
      }
      if r.ReadError? {
        CopyEnds(src, writes);
        ok := false;
        return;
      }
      len := Len(r);
      if len > 0 {
        if writeFault == Some(|writes|) {
          CopyEnds(src, writes);
          ok := false;
          return;
        }
        FlattenAppend(writes, r.bytes);
        out := out + r.bytes;
        writes := writes + [r.bytes];
      }
      i := i + 1;
    }
    CopyEnds(src, writes);
    ok := true;
  }


  // ---------------------------------------------------------------------
  // Properties of the reference semantics
  // ---------------------------------------------------------------------

  /** A stream that fills the whole buffer on every read but the last: the
      reads a plain file or asset of content `data` typically produces. */
  function FullReads(data: seq<byte>): seq<ReadResult>
    decreases |data|
  {
    if |data| == 0 then [Eof]
    else if |data| <= BufferSize then [Chunk(data), Eof]
    else [Chunk(data[..BufferSize])] + FullReads(data[BufferSize..])
  }

  /** Copying any content read in full buffers delivers it byte for byte,
      with one write per started 512-byte block: this covers the empty
      content and lengths that are not a multiple of the buffer. */
  lemma {:induction false} FullReadsRoundTrip(data: seq<byte>)
    ensures ValidSource(FullReads(data))
    ensures CleanEnd(FullReads(data))
    ensures Payload(FullReads(data)) == data
    ensures WriteCount(FullReads(data)) == (|data| + BufferSize - 1) / BufferSize
    decreases |data|
  {
    var src := FullReads(data);
    if |data| == 0 {
    } else if |data| <= BufferSize {
      assert src[1..] == [Eof];
    } else {
      var rest := FullReads(data[BufferSize..]);
      FullReadsRoundTrip(data[BufferSize..]);
      assert src[1..] == rest;
      assert data[..BufferSize] + data[BufferSize..] == data;
    }
  }

  /** A zero-length read anywhere before the end changes nothing: it writes
      no bytes and does not end the loop. */
  lemma {:induction false} ZeroReadIgnored(src: seq<ReadResult>, k: nat)
    requires k <= |src|
    ensures Payload(src[..k] + [Zero] + src[k..]) == Payload(src)
    ensures CleanEnd(src[..k] + [Zero] + src[k..]) == CleanEnd(src)
    ensures WriteCount(src[..k] + [Zero] + src[k..]) == WriteCount(src)
    decreases k
  {
    var s := src[..k] + [Zero] + src[k..];
    if k == 0 {
      assert s[1..] == src;
    } else {
      ZeroReadIgnored(src[1..], k - 1);
      assert s[1..] == src[1..][..k - 1] + [Zero] + src[1..][k - 1..];
    }
  }

  /** Only -1 ends the loop: whatever the stream would produce after an
      end-of-stream read is never read. */
  lemma {:induction false} NothingAfterEof(pre: seq<ReadResult>, post: seq<ReadResult>)
    ensures Payload(pre + [Eof] + post) == Payload(pre + [Eof])
    ensures CleanEnd(pre + [Eof] + post) == CleanEnd(pre + [Eof])
    ensures WriteCount(pre + [Eof] + post) == WriteCount(pre + [Eof])
    decreases |pre|
  {
    if |pre| > 0 {
      NothingAfterEof(pre[1..], post);
      assert (pre + [Eof] + post)[1..] == pre[1..] + [Eof] + post;
      assert (pre + [Eof])[1..] == pre[1..] + [Eof];
    }
  }

  /** The payload of a stream is the sum of its chunks: its length is
      bounded by a full buffer per write. */
  lemma {:induction false} PayloadBounded(src: seq<ReadResult>)
    requires ValidSource(src)
    ensures WriteCount(src) <= |Payload(src)| <= WriteCount(src) * BufferSize
    decreases |src|
  {
    if |src| > 0 {
      assert ValidSource(src[1..]) by {
        forall i | 0 <= i < |src| - 1 ensures ValidRead(src[1..][i]) {
          assert src[1..][i] == src[i + 1];
        }
      }
      PayloadBounded(src[1..]);
      assert ValidRead(src[0]);
    }
  }

  /** A 10000-byte seed read in full buffers (10000 = 19 * 512 + 272) is
      copied by twenty writes and arrives unchanged. */
  lemma TenThousandByteSeed(data: seq<byte>)
    requires |data| == 10000
    ensures Payload(FullReads(data)) == data
    ensures WriteCount(FullReads(data)) == 20
    ensures CleanEnd(FullReads(data))
  {
    FullReadsRoundTrip(data);
  }
}
