/** The load stage, gs_files_to_big_query.py: for each day of the window,
    every staged blob under the day's prefix is classified, its metadata
    read again, and, according to the ledger, either archived straight away
    (already loaded) or loaded into its table, logged, and archived when the
    load job succeeded. Any exception ends the whole run. */
module Load {
  import opened Common
  import opened Text
  import opened Metadata
  import opened Ledger
  import opened Cloud
  import opened Dates

  /** What `load_table_from_uri(...).result()` leaves behind: the rows it
      wrote (`output_rows`), or the error message of a failed job. */
  datatype JobOutcome = Loaded(outputRows: nat) | Failed(message: string)

  /** The inputs of a load run: the staging bucket's name, the day-prefix
      formatter (`strftime("%Y/%m/%d/")`), the blob listing per prefix, each
      blob's text as lines, whether the ledger query raises for a blob,
      what the load job of a URI does, whether the ledger insert for a blob
      reports errors (which the stage only prints), and what the checks of
      lines 80-95 give for a blob, which `Checked` ties to `Prepare`. */
  datatype Env = Env(
    source: string,
    datePath: int -> string,
    listing: string -> seq<string>,
    download: string -> seq<string>,
    queryFails: string -> bool,
    job: string -> JobOutcome,
    insertFails: string -> bool,
    check: string -> Result<Staged>)

  const PoapaccToken := "poapacc"
  const TdactToken := "tdact"

  /** The target table from the blob name: `find(...) > 0`, `poapacc` first. */
  function Classify(name: string): (r: Result<Table>)
    ensures r.Err? ==> r.error == UnknownFileType(name)
  {
    if Find(name, PoapaccToken) > 0 then Ok(Poapacc)
    else if Find(name, TdactToken) > 0 then Ok(Tdact)
    else Err(UnknownFileType(name))
  }

  /** Classification in terms of occurrences: a token counts only when its
      FIRST occurrence exists and is not at index 0, and `poapacc` wins. */
  lemma ClassifyByOccurrence(name: string)
    ensures Classify(name) == Ok(Poapacc) <==>
      Contains(name, PoapaccToken) && !OccursAt(name, PoapaccToken, 0)
    ensures Classify(name) == Ok(Tdact) <==>
      !(Contains(name, PoapaccToken) && !OccursAt(name, PoapaccToken, 0)) &&
      Contains(name, TdactToken) && !OccursAt(name, TdactToken, 0)
  {
    FindPositive(name, PoapaccToken);
    FindPositive(name, TdactToken);
  }

  /** A blob whose name starts with `poapacc` and holds no `tdact` is
      rejected: the first occurrence is at index 0, which is not `> 0`. */
  lemma LeadingTokenRejected(rest: string)
    requires !Contains(PoapaccToken + rest, TdactToken)
    ensures Classify(PoapaccToken + rest) == Err(UnknownFileType(PoapaccToken + rest))
  {
    var name := PoapaccToken + rest;
    assert OccursAt(name, PoapaccToken, 0);
    ClassifyByOccurrence(name);
  }

  /** What the stage knows about a blob before it asks the ledger. */
  datatype Staged = Staged(table: Table, fileName: string, metadata: Tuple, businessDate: string)

  /** Lines 80-95: classify, take path segment 3 as the file name, download,
      parse header and footer, and pick field 5; each step raises on failure. */
  function Prepare(env: Env, name: string): (r: Result<Staged>)
    ensures r.Ok? ==> (|r.value.metadata| > BusinessDateColumn &&
      r.value.businessDate == r.value.metadata[BusinessDateColumn])
    ensures r.Err? ==> (r.error.UnknownFileType? || r.error.BadBlobPath? || r.error.EmptyBlob? ||
      r.error.MalformedField? || r.error.MissingBusinessDate?)
  {
    match Classify(name)
    case Err(e) => Err(e)
    case Ok(table) =>
      var segments := Split(name, "/");
      if |segments| <= 3 then Err(BadBlobPath(name))
      else
        var lines := env.download(name);
        if |lines| == 0 then Err(EmptyBlob(name))
        else
          match GetFileMetadata(segments[3], lines[0], Last(lines))
          case Err(e) => Err(e)
          case Ok(metadata) =>
            if |metadata[0]| <= BusinessDateColumn then Err(MissingBusinessDate)
            else Ok(Staged(table, segments[3], metadata[0], metadata[0][BusinessDateColumn]))
  }

  /** The recorded checks are those `Prepare` computes from the blobs' text. */
  ghost predicate Checked(env: Env) {
    forall name {:trigger Prepare(env, name)} :: env.check(name) == Prepare(env, name)
  }

  /** A blob passes the checks exactly when each step succeeds; it then
      carries its table, path segment 3 as its file name, the metadata tuple
      of its first and last lines, and that tuple's field 5. A name of
      unknown type or with fewer than four path segments is rejected first. */
  lemma PrepareSteps(env: Env, name: string)
    ensures var segments := Split(name, "/");
      var lines := env.download(name);
      Prepare(env, name).Ok? <==>
        Classify(name).Ok? && |segments| > 3 && |lines| > 0 &&
        GetFileMetadata(segments[3], lines[0], Last(lines)).Ok? &&
        |GetFileMetadata(segments[3], lines[0], Last(lines)).value[0]| > BusinessDateColumn
    ensures Classify(name).Err? ==> Prepare(env, name) == Err(UnknownFileType(name))
    ensures Classify(name).Ok? && |Split(name, "/")| <= 3 ==> Prepare(env, name) == Err(BadBlobPath(name))
    ensures Classify(name).Ok? && |Split(name, "/")| > 3 && |env.download(name)| == 0 ==>
      Prepare(env, name) == Err(EmptyBlob(name))
    ensures var segments := Split(name, "/");
      var lines := env.download(name);
      Classify(name).Ok? && |segments| > 3 && |lines| > 0 ==>
        var metadata := GetFileMetadata(segments[3], lines[0], Last(lines));
        (metadata.Err? ==> Prepare(env, name) == Err(metadata.error)) &&
        (metadata.Ok? && |metadata.value[0]| <= BusinessDateColumn ==> Prepare(env, name) == Err(MissingBusinessDate))
    ensures Prepare(env, name).Ok? ==>
      var st := Prepare(env, name).value;
      var lines := env.download(name);
      Classify(name) == Ok(st.table) && st.fileName == Split(name, "/")[3] &&
      GetFileMetadata(st.fileName, lines[0], Last(lines)) == Ok([st.metadata]) &&
      st.businessDate == st.metadata[BusinessDateColumn]
  {
  }

  /** The stages agree on file names: an object staged as
      `YYYY/MM/DD/<file>` has `<file>` as path segment 3, the `file_name`
      the load stage reads back, when no part holds a `/`. */
  lemma StagedFileName(year: string, month: string, day: string, file: string)
    requires !Contains(year, "/") && !Contains(month, "/") && !Contains(day, "/") && !Contains(file, "/")
    ensures var segments := Split(year + "/" + month + "/" + day + "/" + file, "/");
      |segments| == 4 && segments[3] == file
  {
    SplitWithoutSeparator(file, "/");
    SplitFirst(day, "/", file);
    assert year + "/" + month + "/" + day + "/" + file == year + "/" + (month + "/" + (day + "/" + file));
    SplitFirst(month, "/", day + "/" + file);
    SplitFirst(year, "/", month + "/" + (day + "/" + file));
  }

  /** `f"gs://{bucket.name}/{blob.name}"`: the bucket's URI followed by the
      blob's name. */
  function Uri(env: Env, name: string): (uri: string)
    ensures |uri| == 6 + |env.source| + |name|
    ensures uri[..5] == "gs://" && uri[5..5 + |env.source|] == env.source && uri[5 + |env.source|] == '/'
    ensures uri[|uri| - |name|..] == name
  {
    "gs://" + env.source + "/" + name
  }

  /** `f'loaded {job.output_rows} rows'`: the text between `loaded ` and
      ` rows` reads back as the row count. */
  function LoadedDetail(rows: nat): (detail: string)
    ensures |detail| > 12 && detail[..7] == "loaded " && detail[|detail| - 5..] == " rows"
    ensures ParseInt(detail[7..|detail| - 5]) == Some(rows)
  {
    var count := NatToString(rows);
    var detail := "loaded " + count + " rows";
    assert detail[7..|detail| - 5] == count;
    ParseIntOfNatToString(rows);
    detail
  }

  /** `f'Error: {message}'`: the job's message, verbatim, after `Error: `. */
  function ErrorDetail(message: string): (detail: string)
    ensures |detail| == 7 + |message| && detail[..7] == "Error: " && detail[7..] == message
  {
    "Error: " + message
  }

  /** The ledger insert of lines 122-131: the row goes in unless the
      insert reports errors, which are only printed. */
  function Log(s: State, env: Env, name: string, row: Row): (r: State)
    ensures r.staging == s.staging && r.archive == s.archive && r.loads == s.loads
    ensures r.ledger == if env.insertFails(name) then s.ledger else s.ledger + [row]
  {
    if env.insertFails(name) then s else s.(ledger := s.ledger + [row])
  }

  /** One iteration of the `for blob` loop of `processor`. An error is an
      exception that ends the run, raised before anything was changed. */
  function ProcessBlob(s: State, env: Env, name: string): (r: Result<State>)
    ensures r.Ok? ==> s.ledger <= r.value.ledger && s.loads <= r.value.loads
    ensures r.Ok? ==> s.staging + s.archive <= r.value.staging + r.value.archive
  {
    match env.check(name)
    case Err(e) => Err(e)
    case Ok(staged) =>
      if env.queryFails(name) then Err(LedgerQueryFailed)
      else
        match IsLoadedRecord(s.ledger, staged.fileName, staged.businessDate)
        case NotProcessed =>
          assert false;
          Ok(s)
        case Processed => Ok(Move(s, name))
        case NotLoaded =>
          var uri := Uri(env, name);
          var submitted := s.(loads := s.loads + [LoadJob(staged.table, uri)]);
          match env.job(uri)
          case Loaded(rows) =>
            var logged := Log(submitted, env, name, Row(staged.metadata, Some(true), Some(LoadedDetail(rows))));
            Ok(Move(logged, name))
          case Failed(message) =>
            Ok(Log(submitted, env, name, Row(staged.metadata, Some(false), Some(ErrorDetail(message)))))
  }

  /** The outcome of a stretch of the run: the stores, and the exception
      that ended it, if any. */
  datatype Outcome = Outcome(state: State, failure: Option<Failure>)

  /** One blob as a stretch of the run. */
  function Step(s: State, env: Env, name: string): (r: Outcome)
    ensures r.failure.None? <==> ProcessBlob(s, env, name).Ok?
    ensures r.failure.None? ==> r.state == ProcessBlob(s, env, name).value
    ensures r.failure.Some? ==> r.state == s && ProcessBlob(s, env, name) == Err(r.failure.value)
  {
    match ProcessBlob(s, env, name)
    case Err(e) => Outcome(s, Some(e))
    case Ok(next) => Outcome(next, None)
  }

  /** The `for blob` loop over a listing, stopping at the first exception. */
  function Process(s: State, env: Env, names: seq<string>): (r: Outcome)
    ensures s.ledger <= r.state.ledger && s.loads <= r.state.loads
    ensures s.staging + s.archive <= r.state.staging + r.state.archive
    decreases |names|
  {
    if |names| == 0 then Outcome(s, None)
    else
      var before := Process(s, env, names[..|names| - 1]);
      if before.failure.Some? then before
      else Step(before.state, env, Last(names))
  }

  /** The `__main__` loop: `processor` for each day's prefix, the first
      exception ending the run. */
  function LoadDays(s: State, env: Env, days: seq<int>): (r: Outcome)
    ensures s.ledger <= r.state.ledger && s.loads <= r.state.loads
    ensures s.staging + s.archive <= r.state.staging + r.state.archive
    decreases |days|
  {
    if |days| == 0 then Outcome(s, None)
    else
      var before := LoadDays(s, env, days[..|days| - 1]);
      if before.failure.Some? then before
      else Process(before.state, env, env.listing(env.datePath(Last(days))))
  }

  // ---- what one blob does ----

  /** The three outcomes of a blob that passes the checks: a blob already
      loaded is only archived; otherwise one load job is submitted for its
      URI and logged, and the blob is archived exactly when the job loaded. */
  lemma ProcessBlobOutcome(s: State, env: Env, name: string)
    requires env.check(name).Ok? && !env.queryFails(name)
    ensures var st := env.check(name).value;
      var uri := Uri(env, name);
      var r := ProcessBlob(s, env, name);
      r.Ok? &&
      (HasRow(s.ledger, st.fileName, st.businessDate, true) ==> r.value == Move(s, name)) &&
      (!HasRow(s.ledger, st.fileName, st.businessDate, true) ==>
        r.value.loads == s.loads + [LoadJob(st.table, uri)] &&
        match env.job(uri)
        case Loaded(rows) =>
          r.value.staging == s.staging - {name} && r.value.archive == s.archive + {name} &&
          (env.insertFails(name) ==> r.value.ledger == s.ledger) &&
          (!env.insertFails(name) ==>
            r.value.ledger == s.ledger + [Row(st.metadata, Some(true), Some(LoadedDetail(rows)))])
        case Failed(message) =>
          r.value.staging == s.staging && r.value.archive == s.archive &&
          (env.insertFails(name) ==> r.value.ledger == s.ledger) &&
          (!env.insertFails(name) ==>
            r.value.ledger == s.ledger + [Row(st.metadata, Some(false), Some(ErrorDetail(message)))]))
  {
  }

  /** A blob that fails the checks, or whose ledger query raises, ends the
      run with that exception and changes nothing. */
  lemma ProcessBlobFailure(s: State, env: Env, name: string)
    ensures env.check(name).Err? ==> ProcessBlob(s, env, name) == Err(env.check(name).error)
    ensures env.check(name).Ok? && env.queryFails(name) ==> ProcessBlob(s, env, name) == Err(LedgerQueryFailed)
  {
  }

  // ---- the run ----

  /** The loop one blob further. */
  lemma ProcessSnoc(s: State, env: Env, names: seq<string>, name: string)
    ensures var before := Process(s, env, names);
      Process(s, env, names + [name]) == if before.failure.Some? then before else Step(before.state, env, name)
  {
    assert (names + [name])[..|names|] == names;
  }

  /** One more blob of the listing advances the loop by one `Step`. */
  lemma ProcessAdvance(s: State, env: Env, names: seq<string>, i: nat, before: Outcome, after: Outcome)
    requires i < |names| && before == Process(s, env, names[..i]) && before.failure.None?
    requires after == Step(before.state, env, names[i])
    ensures after == Process(s, env, names[..i + 1])
  {
    var longer := names[..i + 1];
    assert longer[..|longer| - 1] == names[..i] && Last(longer) == names[i];
  }

  /** After an exception nothing further happens. */
  lemma {:induction false} AbortStops(s: State, env: Env, names: seq<string>, more: seq<string>)
    requires Process(s, env, names).failure.Some?
    ensures Process(s, env, names + more) == Process(s, env, names)
    decreases |more|
  {
    if |more| > 0 {
      var shorter := names + more[..|more| - 1];
      AbortStops(s, env, names, more[..|more| - 1]);
      assert names + more == shorter + [Last(more)];
      ProcessSnoc(s, env, shorter, Last(more));
    } else {
      assert names + more == names;
    }
  }

  /** The blob passes the checks and its key has a loaded row. */
  predicate AlreadyLoaded(ledger: seq<Row>, env: Env, name: string) {
    env.check(name).Ok? &&
    HasRow(ledger, env.check(name).value.fileName, env.check(name).value.businessDate, true)
  }

  /** A file already loaded is never loaded again: a run over blobs that
      fail their checks or whose key has a loaded row submits no load job. */
  lemma {:induction false} NoReloadWhenProcessed(s: State, env: Env, names: seq<string>)
    requires forall k :: 0 <= k < |names| && env.check(names[k]).Ok? ==> AlreadyLoaded(s.ledger, env, names[k])
    ensures Process(s, env, names).state.loads == s.loads
    decreases |names|
  {
    if |names| > 0 {
      var prefix := names[..|names| - 1];
      assert forall k :: 0 <= k < |prefix| ==> prefix[k] == names[k];
      NoReloadWhenProcessed(s, env, prefix);
      var before := Process(s, env, prefix);
      var name := Last(names);
      if before.failure.None? && env.check(name).Ok? && !env.queryFails(name) {
        var st := env.check(name).value;
        ProcessedIsTerminal(s.ledger, before.state.ledger, st.fileName, st.businessDate);
        ProcessBlobOutcome(before.state, env, name);
      }
    }
  }

  /** The row a blob's successful load writes is found by its own key:
      column 7 of the metadata is the file name and column 5 the business
      date (true when header and footer carry seven distinct keys other
      than `file_name`). */
  predicate Keyable(env: Env, name: string) {
    env.check(name).Ok? ==>
      var st := env.check(name).value;
      |st.metadata| > FileNameColumn && st.metadata[FileNameColumn] == st.fileName &&
      st.metadata[BusinessDateColumn] == st.businessDate
  }

  /** After a successful load whose log insert succeeds, the key is
      "processed": the blob now counts as already loaded. */
  lemma LoadedBecomesProcessed(s: State, env: Env, name: string)
    requires Keyable(env, name) && env.check(name).Ok? && !env.queryFails(name)
    requires env.job(Uri(env, name)).Loaded? && !env.insertFails(name)
    ensures ProcessBlob(s, env, name).Ok?
    ensures AlreadyLoaded(ProcessBlob(s, env, name).value.ledger, env, name)
  {
    var st := env.check(name).value;
    var r := ProcessBlob(s, env, name).value;
    ProcessBlobOutcome(s, env, name);
    if HasRow(s.ledger, st.fileName, st.businessDate, true) {
      assert r.ledger == s.ledger;
    } else {
      var row := Row(st.metadata, Some(true), Some(LoadedDetail(env.job(Uri(env, name)).outputRows)));
      assert r.ledger == s.ledger + [row];
      assert r.ledger[|s.ledger|] == row;
      assert Matches(r.ledger[|s.ledger|], st.fileName, st.businessDate);
    }
  }

  /** Every blob a listing contains is loaded and logged: each job loads
      and each insert succeeds. */
  ghost predicate LoadsCleanly(env: Env, names: seq<string>) {
    forall k :: 0 <= k < |names| ==>
      Keyable(env, names[k]) && env.job(Uri(env, names[k])).Loaded? && !env.insertFails(names[k])
  }

  lemma LoadsCleanlyPrefix(env: Env, names: seq<string>)
    requires |names| > 0 && LoadsCleanly(env, names)
    ensures LoadsCleanly(env, names[..|names| - 1])
  {
    var prefix := names[..|names| - 1];
    forall k | 0 <= k < |prefix| ensures prefix[k] == names[k] { }
  }

  /** One more cleanly loaded blob: the blobs already loaded stay loaded,
      and the last one joins them. */
  lemma LoadsAllStep(st: State, after: State, env: Env, prefix: seq<string>, names: seq<string>)
    requires |names| > 0 && prefix == names[..|names| - 1] && LoadsCleanly(env, names)
    requires forall k :: 0 <= k < |prefix| ==> AlreadyLoaded(st.ledger, env, prefix[k])
    requires ProcessBlob(st, env, Last(names)) == Ok(after)
    ensures forall k :: 0 <= k < |names| ==> AlreadyLoaded(after.ledger, env, names[k])
  {
    var name := Last(names);
    assert Keyable(env, name) && env.job(Uri(env, name)).Loaded? && !env.insertFails(name);
    ProcessBlobFailure(st, env, name);
    LoadedBecomesProcessed(st, env, name);
    forall k | 0 <= k < |names| ensures AlreadyLoaded(after.ledger, env, names[k]) {
      if k < |names| - 1 {
        assert prefix[k] == names[k];
        var staged := env.check(names[k]).value;
        ProcessedIsTerminal(st.ledger, after.ledger, staged.fileName, staged.businessDate);
      }
    }
  }

  /** A listing processed without an exception, where every job loads and
      every insert succeeds, leaves every blob of it already loaded. */
  lemma {:induction false} ProcessLoadsAll(s: State, env: Env, names: seq<string>)
    requires LoadsCleanly(env, names) && Process(s, env, names).failure.None?
    ensures forall k :: 0 <= k < |names| ==> AlreadyLoaded(Process(s, env, names).state.ledger, env, names[k])
    decreases |names|
  {
    if |names| > 0 {
      var prefix := names[..|names| - 1];
      var before := Process(s, env, prefix);
      LoadsCleanlyPrefix(env, names);
      ProcessLoadsAll(s, env, prefix);
      LoadsAllStep(before.state, Process(s, env, names).state, env, prefix, names);
    }
  }

  /** After a successful load the key becomes processed, so running the
      same listing again submits no further load job. */
  lemma NoReloadAfterLoad(s: State, env: Env, names: seq<string>)
    requires LoadsCleanly(env, names) && Process(s, env, names).failure.None?
    ensures var once := Process(s, env, names).state;
      Process(once, env, names).state.loads == once.loads
  {
    var once := Process(s, env, names).state;
    ProcessLoadsAll(s, env, names);
    NoReloadWhenProcessed(once, env, names);
  }

  /** One blob keeps the ledger invariant: at most one loaded row per key. */
  lemma ProcessBlobKeepsAtMostOneLoaded(s: State, env: Env, name: string)
    requires AtMostOneLoaded(s.ledger) && Keyable(env, name) && ProcessBlob(s, env, name).Ok?
    ensures AtMostOneLoaded(ProcessBlob(s, env, name).value.ledger)
  {
    var st := env.check(name).value;
    ProcessBlobOutcome(s, env, name);
    if !HasRow(s.ledger, st.fileName, st.businessDate, true) && !env.insertFails(name) {
      var uri := Uri(env, name);
      var detail := match env.job(uri) case Loaded(rows) => Some(LoadedDetail(rows)) case Failed(m) => Some(ErrorDetail(m));
      var row := Row(st.metadata, Some(env.job(uri).Loaded?), detail);
      assert ProcessBlob(s, env, name).value.ledger == s.ledger + [row];
      AppendKeepsAtMostOneLoaded(s.ledger, row);
    }
  }

  /** A whole listing keeps the ledger invariant. */
  lemma {:induction false} ProcessKeepsAtMostOneLoaded(s: State, env: Env, names: seq<string>)
    requires AtMostOneLoaded(s.ledger)
    requires forall k :: 0 <= k < |names| ==> Keyable(env, names[k])
    ensures AtMostOneLoaded(Process(s, env, names).state.ledger)
    decreases |names|
  {
    if |names| > 0 {
      var prefix := names[..|names| - 1];
      assert forall k :: 0 <= k < |prefix| ==> prefix[k] == names[k];
      ProcessKeepsAtMostOneLoaded(s, env, prefix);
      var before := Process(s, env, prefix);
      if before.failure.None? && ProcessBlob(before.state, env, Last(names)).Ok? {
        ProcessBlobKeepsAtMostOneLoaded(before.state, env, Last(names));
      }
    }
  }

  /** Every blob any listing can return is keyable. */
  ghost predicate ListingKeyable(env: Env) {
    forall prefix, k :: 0 <= k < |env.listing(prefix)| ==> Keyable(env, env.listing(prefix)[k])
  }

  /** The whole run keeps the ledger invariant. */
  lemma {:induction false} LoadDaysKeepsAtMostOneLoaded(s: State, env: Env, days: seq<int>)
    requires AtMostOneLoaded(s.ledger) && ListingKeyable(env)
    ensures AtMostOneLoaded(LoadDays(s, env, days).state.ledger)
    decreases |days|
  {
    if |days| > 0 {
      LoadDaysKeepsAtMostOneLoaded(s, env, days[..|days| - 1]);
      var before := LoadDays(s, env, days[..|days| - 1]);
      if before.failure.None? {
        ProcessKeepsAtMostOneLoaded(before.state, env, env.listing(env.datePath(Last(days))));
      }
    }
  }

  /** The run one day further. */
  lemma LoadDaysSnoc(s: State, env: Env, days: seq<int>, day: int)
    ensures var before := LoadDays(s, env, days);
      LoadDays(s, env, days + [day]) ==
        if before.failure.Some? then before else Process(before.state, env, env.listing(env.datePath(day)))
  {
    assert (days + [day])[..|days|] == days;
  }

  /** One more day of the window advances the run by one `processor` call. */
  lemma LoadDaysAdvance(s: State, env: Env, days: seq<int>, d: nat, before: Outcome, after: Outcome)
    requires d < |days| && before == LoadDays(s, env, days[..d]) && before.failure.None?
    requires after == Process(before.state, env, env.listing(env.datePath(days[d])))
    ensures after == LoadDays(s, env, days[..d + 1])
  {
    assert days[..d + 1] == days[..d] + [days[d]];
    LoadDaysSnoc(s, env, days[..d], days[d]);
  }

  /** After an exception no later day is processed. */
  lemma {:induction false} LoadDaysAbortStops(s: State, env: Env, days: seq<int>, more: seq<int>)
    requires LoadDays(s, env, days).failure.Some?
    ensures LoadDays(s, env, days + more) == LoadDays(s, env, days)
    decreases |more|
  {
    if |more| > 0 {
      var shorter := days + more[..|more| - 1];
      LoadDaysAbortStops(s, env, days, more[..|more| - 1]);
      assert days + more == shorter + [Last(more)];
      LoadDaysSnoc(s, env, shorter, Last(more));
    } else {
      assert days + more == days;
    }
  }

  // ---- the loops as the script runs them ----

  /** One iteration of the `for blob` loop against the live services;
      `failure` is the exception it raises. */
  method ProcessOne(svc: Services, env: Env, name: string) returns (failure: Option<Failure>)
    requires Checked(env)
    modifies svc
    ensures Outcome(svc.Value(), failure) == Step(old(svc.Value()), env, name)
  {
    var prepared := Prepare(env, name);
    if prepared.Err? {
      return Some(prepared.error);
    }
    var staged := prepared.value;
    if env.queryFails(name) {
      return Some(LedgerQueryFailed);
    }
    var status := IsLoadedRecord(svc.ledger, staged.fileName, staged.businessDate);
    if status == Processed {
      svc.MoveBlob(name);
      return None;
    }
    var uri := "gs://" + env.source + "/" + name;
    svc.SubmitLoad(LoadJob(staged.table, uri));
    var outcome := env.job(uri);
    match outcome {
      case Loaded(rows) =>
        if !env.insertFails(name) {
          svc.InsertRow(Row(staged.metadata, Some(true), Some(LoadedDetail(rows))));
        }
        svc.MoveBlob(name);
      case Failed(message) =>
        if !env.insertFails(name) {
          svc.InsertRow(Row(staged.metadata, Some(false), Some(ErrorDetail(message))));
        }
    }
    return None;
  }

  /** `processor(source, destination, run_date)`: the blobs listed under
      the day's prefix, in listing order, until one raises. */
  method Processor(svc: Services, env: Env, prefix: string) returns (failure: Option<Failure>)
    requires Checked(env)
    modifies svc
    ensures Outcome(svc.Value(), failure) == Process(old(svc.Value()), env, env.listing(prefix))
  {
    var names := env.listing(prefix);
    failure := None;
    var i := 0;
    while i < |names| && failure.None?
      invariant 0 <= i <= |names|
      invariant Outcome(svc.Value(), failure) == Process(old(svc.Value()), env, names[..i])
    {
      ghost var before := Outcome(svc.Value(), failure);
      failure := ProcessOne(svc, env, names[i]);
      ProcessAdvance(old(svc.Value()), env, names, i, before, Outcome(svc.Value(), failure));
      i := i + 1;
    }
    if i < |names| {
      AbortStops(old(svc.Value()), env, names[..i], names[i..]);
      assert names[..i] + names[i..] == names;
    } else {
      assert names[..i] == names;
    }
  }

  /** The `__main__` loop of the load script over the window. */
  method RunLoad(svc: Services, env: Env, runDate: int, daysAgo: int) returns (failure: Option<Failure>)
    requires Checked(env)
    modifies svc
    ensures Outcome(svc.Value(), failure) == LoadDays(old(svc.Value()), env, DateRange(runDate, daysAgo))
  {
    var days := DateRange(runDate, daysAgo);
    failure := None;
    var d := 0;
    while d < |days| && failure.None?
      invariant 0 <= d <= |days|
      invariant Outcome(svc.Value(), failure) == LoadDays(old(svc.Value()), env, days[..d])
    {
      ghost var before := Outcome(svc.Value(), failure);
      failure := Processor(svc, env, env.datePath(days[d]));
      LoadDaysAdvance(old(svc.Value()), env, days, d, before, Outcome(svc.Value(), failure));
      d := d + 1;
    }
    if d < |days| {
      LoadDaysAbortStops(old(svc.Value()), env, days[..d], days[d..]);
      assert days[..d] + days[d..] == days;
    } else {
      assert days[..d] == days;
    }
  }
}
