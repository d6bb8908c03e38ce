# SQLiteImprovedOpenHelper in Dafny

A model of `SQLiteImprovedOpenHelper`, an Android `SQLiteOpenHelper` subclass.
On the first readable or writable request, the helper makes sure a database file exists.
It first probes for an existing file. If none opens, it copies a seed database from the app's assets.
It also offers two dump operations. They write a copy of the database to the downloads folder and report success as a boolean.

The model has five modules:

- `Wrappers`: `Option`. It stands for a Java reference that may be null and for a fault that may or may not occur.
- `ByteStream`: the chunked copy loop used for both seeding and dumping.
  - The input stream is the sequence of results its `read(buffer)` calls give: `Eof` (-1), `Zero`, `Chunk(bytes)` with 1 to 512 bytes, or `ReadError` (an IOException). Reads past the end of that sequence return -1, like a drained stream.
  - `Copy` is the imperative loop. It keeps Java's `len` variable and its `len != -1` / `len > 0` tests.
  - Its loop invariant says the bytes written so far, followed by the payload of the reads not yet done, equal the payload of the whole stream. The payload is the in-order concatenation of the chunks before the end.
- `StreamTransfer`: the whole `try` block around the loop: open the input, open (and truncate) the output, copy, `flush`, `close`, `close`. The outcome of every step is an input.
- `Provisioning`: the `mHasDatabase` flag.
  - `CreateDatabase` is a pure transition of that flag. `GetDatabase` covers both `getReadableDatabase` and `getWritableDatabase`.
  - `Serve` runs a sequence of requests. The per-instance lock only serialises calls, so a run of calls is a plain sequence.
  - `RunCreateDatabase` runs the real copy loop. It agrees with the transition and also says what the database file holds afterwards.
- `Export`: `dumpDatabase` and `dumpDatabaseOnCreate`.

Foreign calls become inputs to the model:

- `getAssetFileName()` is an `Option<string>`.
- `SQLiteDatabase.openDatabase` is the bool `probeOpens`.
- `AssetManager.open`, `FileInputStream` and `FileOutputStream` construction, each `read`, each `write`, `flush` and each `close` are fields of `Transfer`.
- `openOrCreateDatabase`, `onCreate` and `db.close()` in `dumpDatabaseOnCreate` are fields of `OnCreateRun`.
- The framework's own `getReadableDatabase`/`getWritableDatabase` is only recorded as the `Mode` it was asked for.

Facts about the code that the model keeps:

- Only a null asset name disables seeding. An empty name still goes on to the probe and the asset open.
- The provisioning state is a single boolean. The `Outcome` log of a run records which path each request took.
- The streams are not closed on exception paths (see Findings).
- When the probe fails, its catch branch creates an engine-default file at the database path (line 115) before the seed copy starts.
  - If the copy then fails before `new FileOutputStream(dbFile)` at line 123 opens the output, the file stays the engine default (`EngineDefault`).
  - Once that output is open, the file has been truncated, and a later IOException leaves a truncated prefix of the seed (`Copied`).
  - Either way the framework then opens whatever file is there (lines 81 and 91), and the next request's probe may open it and set the flag without seeding.
  - The model does not tie the next probe to that file (see Left out).

## Model

| member | source | states |
|---|---|---|
| ByteStream.Copy | library/src/main/java/com/yashoid/data/sqlite/SQLiteImprovedOpenHelper.java:125-134 | Succeeds exactly when no read throws before the -1 and the faulty write is never reached. On success, write k carries exactly the k-th positive-length read, so the output is their in-order concatenation. On failure, the writes are a prefix of that list and the output a prefix of that concatenation. The writes concatenate to the output, and each is 1 to 512 bytes long. |
| ByteStream.FullReadsRoundTrip | library/src/main/java/com/yashoid/data/sqlite/SQLiteImprovedOpenHelper.java:125-134 | Content of any length, including 0 and lengths that are not a multiple of 512, read in full buffers, is copied byte for byte by ceil(n/512) writes. |
| ByteStream.ZeroReadIgnored | library/src/main/java/com/yashoid/data/sqlite/SQLiteImprovedOpenHelper.java:128-133 | Adding a zero-length read anywhere changes neither the bytes written, nor the write count, nor whether the copy fails: it writes nothing and does not end the loop. |
| ByteStream.NothingAfterEof | library/src/main/java/com/yashoid/data/sqlite/SQLiteImprovedOpenHelper.java:128-129 | Only a -1 read ends the loop: whatever follows it is never read. |
| ByteStream.PayloadBounded | library/src/main/java/com/yashoid/data/sqlite/SQLiteImprovedOpenHelper.java:126-132 | The bytes copied are at least one and at most 512 per write. |
| ByteStream.TenThousandByteSeed | library/src/main/java/com/yashoid/data/sqlite/SQLiteImprovedOpenHelper.java:121-134 | A 10000-byte seed read in full buffers arrives unchanged after twenty writes. |
| StreamTransfer.ClosedAsWritten | library/src/main/java/com/yashoid/data/sqlite/SQLiteImprovedOpenHelper.java:120-143 | As written, no opened stream is left unclosed exactly when the input never opened, or when every step up to and including `os.close()` completed. |
| StreamTransfer.ReadErrorLeaksStreams | library/src/main/java/com/yashoid/data/sqlite/SQLiteImprovedOpenHelper.java:128-141 | A read that throws mid-copy leaves both streams open. |
| StreamTransfer.Run | library/src/main/java/com/yashoid/data/sqlite/SQLiteImprovedOpenHelper.java:121-140 | The block succeeds exactly when every step succeeds. The destination is touched only once both streams are open, and then holds a prefix of the payload, the whole payload on success. Every opened stream is closed. |
| StreamTransfer.EveryContentTransfers | library/src/main/java/com/yashoid/data/sqlite/SQLiteImprovedOpenHelper.java:121-140 | For every content there is a fault-free stream over it, and copying it succeeds. |
| Provisioning.Initialize | library/src/main/java/com/yashoid/data/sqlite/SQLiteImprovedOpenHelper.java:64-73 | A new helper keeps the given database name and has its flag false. |
| Provisioning.CreateDatabase | library/src/main/java/com/yashoid/data/sqlite/SQLiteImprovedOpenHelper.java:101-145 | The flag ends true exactly when the probe opened the file or the seed copy succeeded. A null asset name, and only that, changes nothing. A probe hit skips the copy. Seeding happens exactly when the asset is configured, the probe fails and every copy step succeeds, and the seeded file holds the stream's payload. The copy fails exactly when the asset is configured, the probe fails and some step throws. |
| Provisioning.GetDatabase | library/src/main/java/com/yashoid/data/sqlite/SQLiteImprovedOpenHelper.java:76-93 | Both request kinds run provisioning exactly when the flag is false, then open the requested kind. With the flag true nothing changes. |
| Provisioning.ServeKeepsName | library/src/main/java/com/yashoid/data/sqlite/SQLiteImprovedOpenHelper.java:64-73 | No run of requests changes the database name. |
| Provisioning.ProvisionedIsIdempotent | library/src/main/java/com/yashoid/data/sqlite/SQLiteImprovedOpenHelper.java:76-93 | Once the flag is true, every later request skips provisioning and leaves the helper unchanged. |
| Provisioning.Serve | library/src/main/java/com/yashoid/data/sqlite/SQLiteImprovedOpenHelper.java:76-93 | A run of requests under the lock yields one log entry per request, in order. |
| Provisioning.ServeStepwise | library/src/main/java/com/yashoid/data/sqlite/SQLiteImprovedOpenHelper.java:76-93 | Log entry i is what request i's readable or writable call does to the helper left by the first i requests. The helper after i + 1 requests is the one that call returns. |
| Provisioning.ServeAppend | library/src/main/java/com/yashoid/data/sqlite/SQLiteImprovedOpenHelper.java:76-93 | Serving two runs of requests one after the other gives the same helper and log as serving their concatenation. |
| Provisioning.FlagIsMonotone | library/src/main/java/com/yashoid/data/sqlite/SQLiteImprovedOpenHelper.java:101-145 | The flag never returns from true to false: if it is set after the first k requests of a run, it is set after every longer prefix. |
| Provisioning.SkipsExactlyAfterSuccess | library/src/main/java/com/yashoid/data/sqlite/SQLiteImprovedOpenHelper.java:76-93 | Request i skips provisioning if and only if the flag was set before the run or an earlier request provided the file. So after a failed seed copy, the next request runs provisioning again. |
| Provisioning.FlagOnlyOnSuccess | library/src/main/java/com/yashoid/data/sqlite/SQLiteImprovedOpenHelper.java:110-143 | After a run the flag is true if and only if it was true before or some request found or seeded the file. |
| Provisioning.ProvidesAtMostOnce | library/src/main/java/com/yashoid/data/sqlite/SQLiteImprovedOpenHelper.java:76-93 | In any run, at most one request finds or seeds the file, and none does if the flag was already set. |
| Provisioning.NoAssetNeverProvisions | library/src/main/java/com/yashoid/data/sqlite/SQLiteImprovedOpenHelper.java:101-106 | While the asset name is null, every request returns at once: nothing is probed or copied and the flag stays false. |
| Provisioning.FirstRequestProvisions | library/src/main/java/com/yashoid/data/sqlite/SQLiteImprovedOpenHelper.java:72-79 | The first request to a new helper runs provisioning. |
| Provisioning.RunCreateDatabase | library/src/main/java/com/yashoid/data/sqlite/SQLiteImprovedOpenHelper.java:101-145 | With the loop run for real, it agrees with the transition. A seeded file holds exactly the asset's bytes. After a failed copy the file is the engine's default file or a truncated prefix of the payload. Without an asset, or on a probe hit, the file is untouched. |
| Export.DumpDatabase | library/src/main/java/com/yashoid/data/sqlite/SQLiteImprovedOpenHelper.java:173-202 | A null file name throws a NullPointerException outside the `try`, which escapes the call. Otherwise it returns true exactly when no IOException occurred. Then the exported file equals the live database file byte for byte. With no live database file it returns false and creates no external file. |
| Export.DumpDatabaseOnCreate | library/src/main/java/com/yashoid/data/sqlite/SQLiteImprovedOpenHelper.java:152-165 | Returns true exactly when building the path, opening, `onCreate` and `close` all complete. Any thrown error gives false. `onCreate` runs exactly when the database opened, and the database is closed only on success. |

## Findings

| source | as written | input that shows it | evidently intended | confidence | as-written member | corrected member |
|---|---|---|---|---|---|---|
| library/src/main/java/com/yashoid/data/sqlite/SQLiteImprovedOpenHelper.java:120-143 | `os.close()` and `is.close()` are plain statements after the loop. An IOException in the open, the copy or the flush skips both. | Both streams open, and the first `read` throws (`ReadErrorLeaksStreams`). Neither stream is closed. | Close each opened stream on every exit path (`finally` or try-with-resources). | medium, not executed | StreamTransfer.ClosedAsWritten | StreamTransfer.Run |

The same pattern appears in `dumpDatabase` (lines 177-199), which the model routes through the corrected `Run`. It also appears in `dumpDatabaseOnCreate`: when `onCreate` throws, the database is never closed. `Export.DumpDatabaseOnCreate` reports this through its `closed` field rather than correcting it. Closing streams does not affect the flag or the bytes written, so the correction changes nothing else in the model.

## Left out

- The link between a request's probe and the file an earlier request left: each request's `probeOpens` is a free input. That file is either the engine default from line 115 or a truncated seed prefix. The model therefore allows a second seed copy after a failed one. It does not say whether the engine accepts that file, so that the next probe sets the flag without seeding.
- Streams that never reach -1: the input is a finite sequence of reads, followed by -1 forever. A stream that keeps answering 0 would make the loop at lines 128-134 spin forever. That case is not modelled.

- The Android framework (`SQLiteOpenHelper`, `openDatabase`, `openOrCreateDatabase`, `onCreate`/`onUpgrade`/`onDowngrade`, `getDatabasePath`, `AssetManager`, `Environment`): these are foreign calls whose outcomes are inputs. The handle the framework returns is recorded only as the requested `Mode`.
- The `synchronized` block: the lock only serialises calls, so calls are modelled as a sequence.
- Logging through `Log.e`: it has no effect on state.
- The two constructor overloads: they differ only in `DatabaseErrorHandler` and API level, and both call `initialize`.
- The probe's catch branch calls `openOrCreateDatabase`. If that call throws, the error propagates as an engine failure. The model takes that call to succeed and records its file as `EngineDefault`.
- Unchecked exceptions from stream construction or I/O, such as `SecurityException`: the copy blocks catch only IOException, so these would propagate. The model's stream steps fail only with IOException.
- The exact bytes of a partly written file after a failed `write`: the model has a failed write add nothing, and claims only that the file holds a prefix of the payload.
- A probe hit whose `db.close()` throws after the flag is set (line 113) is not modelled. An SQLite close does not throw IOException, and the flag would stay set anyway.
