/** The whole `try` block around the copy loop, shared by seeding and by
    `dumpDatabase`: open the input, open (and truncate) the output, copy,
    then `os.flush()`, `os.close()`, `is.close()`. Any step may throw an
    IOException, which ends the block; the outcome of every step is an input. */
module StreamTransfer {
  import opened Wrappers
  import opened ByteStream

  datatype Transfer = Transfer(
    sourceOpens: bool,          // the input stream constructor returns
    sinkOpens: bool,            // `new FileOutputStream(file)` returns
    results: seq<ReadResult>,   // what the input's `read` calls produce
    writeFault: Option<nat>,    // the `write` call that throws, if any
    flushOk: bool,              // `os.flush()` returns
    sinkCloseOk: bool,          // `os.close()` returns
    sourceCloseOk: bool)        // `is.close()` returns

  /** Every step of the block completes: no IOException is thrown. */
  predicate Succeeds(t: Transfer)
  {
    && t.sourceOpens
    && t.sinkOpens
    && CopySucceeds(t.results, t.writeFault)
    && t.flushOk
    && t.sinkCloseOk
    && t.sourceCloseOk
  }

  /** The input is a stream over `content` (None: there is no such file or
      asset, so opening it throws) and delivers exactly that content unless
      a read throws. An existing input may still fail to open. */
  predicate Delivers(t: Transfer, content: Option<seq<byte>>)
  {
    && ValidSource(t.results)
    && (t.sourceOpens ==> content.Some?)
    && (content.Some? && CleanEnd(t.results) ==> Payload(t.results) == content.value)
  }

  /** Which opened streams had `close()` called on them. */
  datatype Closed = Closed(source: bool, sink: bool)

  /** Every stream the block opened is closed again. */
  predicate NoLeak(t: Transfer, c: Closed)
  {
    && (t.sourceOpens ==> c.source)
    && (t.sourceOpens && t.sinkOpens ==> c.sink)
  }

  /** The closes as the block is written: `os.close()` and `is.close()` are
      plain statements after the loop, so an IOException anywhere earlier
      skips them, and a failing `os.close()` skips `is.close()`. */
  function ClosedAsWritten(t: Transfer): (c: Closed)
    ensures c.sink <==> t.sourceOpens && t.sinkOpens && CopySucceeds(t.results, t.writeFault) && t.flushOk
    ensures Succeeds(t) ==> NoLeak(t, c)
    ensures NoLeak(t, c) <==>
      !t.sourceOpens || (t.sinkOpens && CopySucceeds(t.results, t.writeFault) && t.flushOk && t.sinkCloseOk)
  {
    var reachesClose := t.sourceOpens && t.sinkOpens && CopySucceeds(t.results, t.writeFault) && t.flushOk;
    Closed(reachesClose && t.sinkCloseOk, reachesClose)
  }

  /** A read that throws mid-copy leaves both streams open. */
  lemma ReadErrorLeaksStreams()
    ensures !NoLeak(Transfer(true, true, [ReadError], None, true, true, true),
                    ClosedAsWritten(Transfer(true, true, [ReadError], None, true, true, true)))
  {
    assert !CleanEnd([ReadError]);
  }

  /** Runs the block, closing each opened stream on every exit path (as a
      `finally` would). `dest` is the destination file afterwards: None when
      it was never opened (left as it was), Some(bytes) once the output
      stream truncated it and received `bytes`. */
  method Run(t: Transfer) returns (dest: Option<seq<byte>>, ok: bool, closed: Closed)
    requires ValidSource(t.results)
    ensures ok <==> Succeeds(t)
    ensures dest.Some? <==> t.sourceOpens && t.sinkOpens
    ensures dest.Some? ==> dest.value <= Payload(t.results)
    ensures ok ==> dest == Some(Payload(t.results))
    ensures NoLeak(t, closed)
  {
    if !t.sourceOpens {
      return None, false, Closed(false, false);
    }
    if !t.sinkOpens {
      return None, false, Closed(true, false);
    }
    var out, writes, copied := Copy(t.results, t.writeFault);
    dest := Some(out);
    ok := copied && t.flushOk && t.sinkCloseOk && t.sourceCloseOk;
    closed := Closed(true, true);
  }

  /** For any content there is a fault-free stream delivering it, read in
      full 512-byte buffers. */
  lemma {:induction false} EveryContentTransfers(content: seq<byte>)
    ensures Delivers(Transfer(true, true, FullReads(content), None, true, true, true), Some(content))
    ensures Succeeds(Transfer(true, true, FullReads(content), None, true, true, true))
  {
    FullReadsRoundTrip(content);
  }
}
