/** The provisioning flag `mHasDatabase` of the helper and the calls that
    read and set it. The per-instance lock only serialises calls, so a run of
    requests is a sequence of steps; every outcome of a foreign call (the
    subclass's asset name, the probe open, the seed copy) is an input. */
module Provisioning {
  import opened Wrappers
  import opened ByteStream
  import opened StreamTransfer

  /** The state the helper keeps besides what the framework holds. */
  datatype Helper = Helper(databaseName: string, hasDatabase: bool)

  /** What the outside world answers during one `createDatabase` call. */
  datatype Env = Env(
    assetFileName: Option<string>,   // `getAssetFileName()`; None is null
    probeOpens: bool,                // `SQLiteDatabase.openDatabase(path, OPEN_READWRITE)` returns
    seed: Transfer)                  // the asset-to-database-file copy

  /** What one readable or writable request did about provisioning. */
  datatype Outcome =
    | AlreadyProvisioned          // flag was set: `createDatabase` not called
    | NoAsset                     // no asset configured: returned at once
    | FoundExisting               // the probe opened an existing file
    | Seeded(file: seq<byte>)     // the copy completed; the file holds `file`
    | SeedFailed                  // an IOException ended the copy

  /** The request made the database file usable. */
  predicate Provides(p: Outcome)
  {
    p.FoundExisting? || p.Seeded?
  }

  datatype Mode = Readable | Writable

  /** Result of one call: the new helper state, what provisioning did, and
      which kind of database the framework was asked to open. */
  datatype Answer = Answer(helper: Helper, provisioning: Outcome, openedAs: Mode)

  /** The constructors' common `initialize`. */
  function Initialize(name: string): (h: Helper)
    ensures h.databaseName == name
    ensures !h.hasDatabase
  {
    Helper(name, false)
  }

  /** `createDatabase`, as a transition of the flag. Only called while the
      flag is false. */
  function CreateDatabase(h: Helper, env: Env): (r: (Helper, Outcome))
    requires !h.hasDatabase
    ensures r.0.databaseName == h.databaseName
    ensures r.0.hasDatabase <==> Provides(r.1)
    ensures env.assetFileName.None? ==> r == (h, NoAsset)
    ensures r.1.FoundExisting? <==> env.assetFileName.Some? && env.probeOpens
    ensures r.1.NoAsset? <==> env.assetFileName.None?
    ensures r.1.Seeded? <==> env.assetFileName.Some? && !env.probeOpens && Succeeds(env.seed)
    ensures r.1.Seeded? ==> r.1.file == Payload(env.seed.results)
    ensures r.1.SeedFailed? <==> env.assetFileName.Some? && !env.probeOpens && !Succeeds(env.seed)
  {
    if env.assetFileName.None? then (h, NoAsset)
    else if env.probeOpens then (h.(hasDatabase := true), FoundExisting)
    else if Succeeds(env.seed) then (h.(hasDatabase := true), Seeded(Payload(env.seed.results)))
    else (h, SeedFailed)
  }

  /** `getReadableDatabase` and `getWritableDatabase`: provision while the
      flag is false, then let the framework open the database. */
  function GetDatabase(h: Helper, mode: Mode, env: Env): (a: Answer)
    ensures a.openedAs == mode
    ensures h.hasDatabase ==> a.helper == h && a.provisioning == AlreadyProvisioned
    ensures !h.hasDatabase ==> (a.helper, a.provisioning) == CreateDatabase(h, env)
  {
    if h.hasDatabase then Answer(h, AlreadyProvisioned, mode)
    else
      var (h', p) := CreateDatabase(h, env);
      Answer(h', p, mode)
  }

  /** One request of either kind and the world it meets. */
  datatype Request = Request(mode: Mode, env: Env)

  /** The helper after a run of requests, and what each request did. */
  datatype Trace = Trace(helper: Helper, log: seq<Outcome>)

  function Serve(h: Helper, requests: seq<Request>): (t: Trace)
    ensures |t.log| == |requests|
    decreases |requests|
  {
    if |requests| == 0 then Trace(h, [])
    else
      var a := GetDatabase(h, requests[0].mode, requests[0].env);
      var rest := Serve(a.helper, requests[1..]);
      Trace(rest.helper, [a.provisioning] + rest.log)
  }

  /** Number of requests that made the database usable. */
  function CountProvides(log: seq<Outcome>): nat
  {
    if |log| == 0 then 0
    else (if Provides(log[0]) then 1 else 0) + CountProvides(log[1..])
  }

  // ---------------------------------------------------------------------
  // Properties of runs of requests
  // ---------------------------------------------------------------------

  /** Requests never change which database the helper manages. */
  lemma {:induction false} ServeKeepsName(h: Helper, requests: seq<Request>)
    ensures Serve(h, requests).helper.databaseName == h.databaseName
    decreases |requests|
  {
    if |requests| > 0 {
      var a := GetDatabase(h, requests[0].mode, requests[0].env);
      ServeKeepsName(a.helper, requests[1..]);
    }
  }

  /** Once the flag is set, every later request skips provisioning and the
      helper stays as it is: repeated requests are idempotent. */
  lemma {:induction false} ProvisionedIsIdempotent(h: Helper, requests: seq<Request>)
    requires h.hasDatabase
    ensures Serve(h, requests).helper == h
    ensures forall i :: 0 <= i < |requests| ==> Serve(h, requests).log[i] == AlreadyProvisioned
    decreases |requests|
  {
    if |requests| > 0 {
      ProvisionedIsIdempotent(h, requests[1..]);
    }
  }

  /** Serving two runs one after the other is serving their concatenation. */
  lemma {:induction false} ServeAppend(h: Helper, first: seq<Request>, second: seq<Request>)
    ensures Serve(h, first + second).helper == Serve(Serve(h, first).helper, second).helper
    ensures Serve(h, first + second).log == Serve(h, first).log + Serve(Serve(h, first).helper, second).log
    decreases |first|
  {
    if |first| > 0 {
      var a := GetDatabase(h, first[0].mode, first[0].env);
      assert (first + second)[0] == first[0];
      assert (first + second)[1..] == first[1..] + second;
      ServeAppend(a.helper, first[1..], second);
    } else {
      assert first + second == second;
    }
  }

  /** A run is its requests taken one at a time under the lock: entry i of
      the log is what request i does to the helper the first i requests left,
      and the helper after i + 1 requests is the one that request returns. */
  lemma {:induction false} ServeStepwise(h: Helper, requests: seq<Request>, i: nat)
    requires i < |requests|
    ensures Serve(h, requests).log[i] ==
      GetDatabase(Serve(h, requests[..i]).helper, requests[i].mode, requests[i].env).provisioning
    ensures Serve(h, requests[..i + 1]).helper ==
      GetDatabase(Serve(h, requests[..i]).helper, requests[i].mode, requests[i].env).helper
  {
    var pre := Serve(h, requests[..i]);
    var a := GetDatabase(pre.helper, requests[i].mode, requests[i].env);
    assert requests[..i] + requests[i..] == requests;
    ServeAppend(h, requests[..i], requests[i..]);
    assert requests[i..][0] == requests[i];
    assert Serve(pre.helper, requests[i..]).log[0] == a.provisioning;
    assert requests[..i + 1] == requests[..i] + [requests[i]];
    ServeAppend(h, requests[..i], [requests[i]]);
    assert [requests[i]][1..] == [];
  }

  /** The flag never goes back from true to false: if it is set after the
      first k requests of a run, it is set after every longer prefix. */
  lemma {:induction false} FlagIsMonotone(h: Helper, requests: seq<Request>, k: nat, m: nat)
    requires k <= m <= |requests|
    requires Serve(h, requests[..k]).helper.hasDatabase
    ensures Serve(h, requests[..m]).helper.hasDatabase
  {
    assert requests[..k] + requests[k..m] == requests[..m];
    ServeAppend(h, requests[..k], requests[k..m]);
    ProvisionedIsIdempotent(Serve(h, requests[..k]).helper, requests[k..m]);
  }

  /** A request skips provisioning exactly when the flag was already set
      before the run or an earlier request provided the file; in particular
      a request after a failed seed copy runs `createDatabase` again. */
  lemma {:induction false} SkipsExactlyAfterSuccess(h: Helper, requests: seq<Request>, i: nat)
    requires i < |requests|
    ensures Serve(h, requests).log[i].AlreadyProvisioned? <==>
      h.hasDatabase || exists j :: 0 <= j < i && Provides(Serve(h, requests).log[j])
    decreases i
  {
    var t := Serve(h, requests);
    var a := GetDatabase(h, requests[0].mode, requests[0].env);
    var rest := Serve(a.helper, requests[1..]);
    assert t.log == [a.provisioning] + rest.log;
    if h.hasDatabase {
      ProvisionedIsIdempotent(h, requests);
    } else if i == 0 {
    } else if Provides(a.provisioning) {
      ProvisionedIsIdempotent(a.helper, requests[1..]);
      assert rest.log[i - 1] == t.log[i];
      assert Provides(t.log[0]);
    } else {
      assert !a.helper.hasDatabase;
      SkipsExactlyAfterSuccess(a.helper, requests[1..], i - 1);
      assert rest.log[i - 1] == t.log[i];
      if exists j :: 0 <= j < i && Provides(t.log[j]) {
        var j :| 0 <= j < i && Provides(t.log[j]);
        assert j != 0;
        assert Provides(rest.log[j - 1]);
      }
      if exists j :: 0 <= j < i - 1 && Provides(rest.log[j]) {
        var j :| 0 <= j < i - 1 && Provides(rest.log[j]);
        assert t.log[j + 1] == rest.log[j];
      }
    }
  }

  /** The flag is true after a run exactly when it was true before or some
      request provided the file: it is set only on success. */
  lemma {:induction false} FlagOnlyOnSuccess(h: Helper, requests: seq<Request>)
    ensures Serve(h, requests).helper.hasDatabase <==>
      h.hasDatabase || exists i :: 0 <= i < |requests| && Provides(Serve(h, requests).log[i])
    decreases |requests|
  {
    if |requests| > 0 {
      var t := Serve(h, requests);
      var a := GetDatabase(h, requests[0].mode, requests[0].env);
      var rest := Serve(a.helper, requests[1..]);
      assert t.log == [a.provisioning] + rest.log;
      FlagOnlyOnSuccess(a.helper, requests[1..]);
      if h.hasDatabase {
      } else if Provides(a.provisioning) {
        assert Provides(t.log[0]);
      } else {
        if exists i :: 0 <= i < |requests| && Provides(t.log[i]) {
          var i :| 0 <= i < |requests| && Provides(t.log[i]);
          assert i != 0;
          assert Provides(rest.log[i - 1]);
        }
        if exists i :: 0 <= i < |requests| - 1 && Provides(rest.log[i]) {
          var i :| 0 <= i < |requests| - 1 && Provides(rest.log[i]);
          assert t.log[i + 1] == rest.log[i];
        }
      }
    }
  }

  /** Provisioning succeeds at most once per helper, and never when the flag
      was already set; in particular the seed copy completes at most once. */
  lemma {:induction false} ProvidesAtMostOnce(h: Helper, requests: seq<Request>)
    ensures CountProvides(Serve(h, requests).log) <= (if h.hasDatabase then 0 else 1)
    decreases |requests|
  {
    if |requests| > 0 {
      var t := Serve(h, requests);
      var a := GetDatabase(h, requests[0].mode, requests[0].env);
      var rest := Serve(a.helper, requests[1..]);
      assert t.log[1..] == rest.log;
      ProvidesAtMostOnce(a.helper, requests[1..]);
    }
  }

  /** With no asset configured, no request probes or copies anything and
      the flag stays false. */
  lemma {:induction false} NoAssetNeverProvisions(h: Helper, requests: seq<Request>)
    requires !h.hasDatabase
    requires forall i :: 0 <= i < |requests| ==> requests[i].env.assetFileName.None?
    ensures Serve(h, requests).helper == h
    ensures forall i :: 0 <= i < |requests| ==> Serve(h, requests).log[i] == NoAsset
    decreases |requests|
  {
    if |requests| > 0 {
      NoAssetNeverProvisions(h, requests[1..]);
    }
  }

  /** A freshly constructed helper provisions on its first request, whatever
      its kind. */
  lemma FirstRequestProvisions(name: string, requests: seq<Request>)
    requires |requests| > 0
    ensures !Serve(Initialize(name), requests).log[0].AlreadyProvisioned?
  {
  }

  // ---------------------------------------------------------------------
  // The call with the copy loop run for real
  // ---------------------------------------------------------------------

  /** The database file as `createDatabase` leaves it. */
  datatype DbFile =
    | Unchanged                  // not touched
    | EngineDefault              // created (or kept) by `openOrCreateDatabase`
    | Copied(bytes: seq<byte>)   // truncated by the output stream, then given `bytes`

  /** `createDatabase` with the seed copy executed by the loop. `seedImage`
      is the content of the named asset (None: it cannot be opened). */
  method RunCreateDatabase(h: Helper, env: Env, seedImage: Option<seq<byte>>)
    returns (h': Helper, p: Outcome, file: DbFile)
    requires !h.hasDatabase
    requires Delivers(env.seed, seedImage)
    ensures (h', p) == CreateDatabase(h, env)
    ensures p.NoAsset? || p.FoundExisting? ==> file == Unchanged
    ensures p.Seeded? ==> seedImage.Some? && file == Copied(seedImage.value) && p.file == seedImage.value
    ensures p.SeedFailed? ==> file.EngineDefault? || (file.Copied? && file.bytes <= Payload(env.seed.results))
  {
    if env.assetFileName.None? {
      return h, NoAsset, Unchanged;
    }
    if env.probeOpens {
      return h.(hasDatabase := true), FoundExisting, Unchanged;
    }
    // the probe threw: the engine creates a default file, then the copy runs
    file := EngineDefault;
    var dest, ok, closed := Run(env.seed);
    if dest.Some? {
      file := Copied(dest.value);
    }
    if ok {
      h', p := h.(hasDatabase := true), Seeded(Payload(env.seed.results));
    } else {
      h', p := h, SeedFailed;
    }
  }
}
