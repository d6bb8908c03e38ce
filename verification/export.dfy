/** The two dump operations, which copy a database to the device's public
    downloads folder and report success as a boolean. */
module Export {
  import opened Wrappers
  import opened ByteStream
  import opened StreamTransfer

  /** How a call ends: it returns a value, or an unchecked exception
      escapes it. */
  datatype Completion = Returns(value: bool) | Escapes

  /** `dumpDatabase`: copy the live database file to `fileName` in the
      downloads folder. A null `fileName` (None) makes `new File(dir, null)`
      throw a NullPointerException before the `try`, so it escapes. `live` is
      the database file's content, None when no database file exists yet, in
      which case opening the input throws `FileNotFoundException`.
      `exported` is the external file afterwards (None: never opened). */
  method DumpDatabase(fileName: Option<string>, live: Option<seq<byte>>, t: Transfer)
    returns (exported: Option<seq<byte>>, result: Completion)
    requires Delivers(t, live)
    ensures result == Escapes <==> fileName.None?
    ensures fileName.None? ==> exported.None?
    ensures result == Returns(true) <==> fileName.Some? && Succeeds(t)
    ensures result == Returns(true) ==> live.Some? && exported == Some(live.value)
    ensures fileName.Some? && live.None? ==> result == Returns(false) && exported.None?
    ensures exported.Some? ==> live.Some? && exported.value <= Payload(t.results)
  {
    if fileName.None? {
      return None, Escapes;
    }
    var ok, closed;
    exported, ok, closed := Run(t);
    result := Returns(ok);
  }

  /** The steps of `dumpDatabaseOnCreate`'s `try` block. */
  datatype OnCreateRun = OnCreateRun(
    opens: bool,        // `SQLiteDatabase.openOrCreateDatabase(file, factory)` returns
    onCreateOk: bool,   // the subclass's `onCreate(db)` returns
    closeOk: bool)      // `db.close()` returns

  /** What `dumpDatabaseOnCreate` did. */
  datatype OnCreateReport = OnCreateReport(result: bool, onCreateRan: bool, closed: bool)

  /** `dumpDatabaseOnCreate`: build a fresh database in the downloads folder
      through `onCreate`. `fileName` None is a null name, for which building
      the path throws. Every Throwable is caught and turned into `false`. */
  function DumpDatabaseOnCreate(fileName: Option<string>, run: OnCreateRun): (r: OnCreateReport)
    ensures r.result <==> fileName.Some? && run.opens && run.onCreateOk && run.closeOk
    ensures r.onCreateRan <==> fileName.Some? && run.opens
    ensures r.closed <==> r.result
    ensures r.closed ==> r.onCreateRan
  {
    if fileName.None? || !run.opens then OnCreateReport(false, false, false)
    else if !run.onCreateOk then OnCreateReport(false, true, false)
    else if !run.closeOk then OnCreateReport(false, true, false)
    else OnCreateReport(true, true, true)
  }
}
