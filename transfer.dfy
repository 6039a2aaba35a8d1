/** The transfer stage, the `__main__` loop of gs_files_to_gcs.py: for each
    day of the window and each expected file name, validate the local file,
    and stage and register it unless the ledger already has its key. */
module Transfer {
  import opened Common
  import opened Text
  import opened Metadata
  import opened Integrity
  import opened Ledger
  import opened Cloud
  import opened Dates

  /** The report files expected every day (`FILES`). */
  const Files: seq<string> := [
    "SRTCS_209751_1200357639_tdact_GOG_111.dat",
    "SRTCS_221646_1200623495_tdact_GOG_111.dat",
    "SRTCS_209751_1200357628_poapacc_01323945_116.dat",
    "SRTCS_209751_1200357627_poapacc_01323944_116.dat",
    "SRTCS_221646_1200623465_poapacc_03530714_116.dat",
    "SRTCS_221646_1200623469_poapacc_06424423_116.dat",
    "SRTCS_209751_1200467928_poapacc_04954564CURACAOHOUSE_116.dat",
    "SRTCS_209751_1200467928_tdact_04954564CURACAOHOUSE_111.dat",
    "SRTCS_221646_1200623466_poapacc_03530715_116.dat",
    "SRTCS_221646_1200623466_tdact_03530715_111.dat"
  ]

  /** Which cloud call, if any, raises while a file is transferred. */
  datatype Fault = Healthy | QueryError | UploadError | InsertError

  /** The inputs of a transfer run: the share's base path, the day-folder
      formatter (`strftime("%Y/%m/%d/")`), the share's files, and the fault
      each cloud call meets for a given day and file. */
  datatype Env = Env(basePath: string, datePath: int -> string, fs: FileSystem, fault: (int, string) -> Fault)

  /** A day folder as `strftime("%Y/%m/%d/")` writes it: ending in `/`. */
  predicate FolderPath(folder: string) {
    |folder| > 0 && Last(folder) == '/'
  }

  /** `base_path + report_date.strftime("%Y/%m/%d/") + file`. */
  function LocalPath(env: Env, day: int, file: string): string {
    env.basePath + env.datePath(day) + file
  }

  /** When the day folder ends in `/` and the name holds none, the name that
      `check_file_integrity` reads back from the path is the file's own. */
  lemma LocalPathLastComponent(env: Env, day: int, file: string)
    requires FolderPath(env.datePath(day)) && !Contains(file, "/")
    ensures LastComponent(LocalPath(env, day, file)) == file
  {
    var folder := env.basePath + env.datePath(day);
    assert LocalPath(env, day, file) == folder[..|folder| - 1] + "/" + file;
    SplitLast(folder[..|folder| - 1], "/", file);
  }

  /** `destination_blob_name`: the staging object `YYYY/MM/DD/<file>`,
      the local path without the share's base. */
  function StagedName(env: Env, day: int, file: string): (name: string)
    ensures LocalPath(env, day, file) == env.basePath + name
  {
    env.datePath(day) + file
  }

  /** The metadata tuple a valid file yields, if it has a business date
      (`metadata_to_insert[0]`, which needs a field 5). */
  function ValidMetadata(env: Env, day: int, file: string): Option<Tuple> {
    match FileIntegrity(LocalPath(env, day, file), env.fs)
    case Err(_) => None
    case Ok(metadata) => if |metadata[0]| > BusinessDateColumn then Some(metadata[0]) else None
  }

  /** One iteration of the inner loop, inside its `try`: any exception
      leaves the stores as they were at that point and the loop goes on. */
  function TransferFile(s: State, env: Env, day: int, file: string): (r: State)
    ensures s.ledger <= r.ledger && s.staging <= r.staging
    ensures r.archive == s.archive && r.loads == s.loads
  {
    match ValidMetadata(env, day, file)
    case None => s
    case Some(t) =>
      var fault := env.fault(day, file);
      if fault == QueryError || IsPreviouslyMoved(s.ledger, file, t[BusinessDateColumn]) then s
      else if fault == UploadError then s
      else
        var uploaded := s.(staging := s.staging + {StagedName(env, day, file)});
        if fault == InsertError then uploaded
        else uploaded.(ledger := s.ledger + [Row(t, None, None)])
  }

  /** The inner loop over `files` for one day. */
  function TransferDay(s: State, env: Env, day: int, files: seq<string>): (r: State)
    ensures s.ledger <= r.ledger && s.staging <= r.staging
    ensures r.archive == s.archive && r.loads == s.loads
    decreases |files|
  {
    if |files| == 0 then s
    else TransferFile(TransferDay(s, env, day, files[..|files| - 1]), env, day, Last(files))
  }

  /** The outer loop over the days of the window, each day over `files`. */
  function TransferDays(s: State, env: Env, days: seq<int>, files: seq<string>): (r: State)
    ensures s.ledger <= r.ledger && s.staging <= r.staging
    ensures r.archive == s.archive && r.loads == s.loads
    decreases |days|
  {
    if |days| == 0 then s
    else TransferDay(TransferDays(s, env, days[..|days| - 1], files), env, Last(days), files)
  }

  // ---- what one file does ----

  /** A file that fails validation, whose ledger query raises, or whose key
      the ledger already holds, is neither uploaded nor registered. For a
      valid, unregistered file: a raising upload changes nothing, a raising
      insert leaves the staged object without a ledger row, and a file
      meeting no fault adds exactly its staging object and one ledger row
      with `is_loaded` and `log_detail` left NULL. */
  lemma TransferFileOutcome(s: State, env: Env, day: int, file: string)
    ensures ValidMetadata(env, day, file).None? ==> TransferFile(s, env, day, file) == s
    ensures (ValidMetadata(env, day, file).Some? && env.fault(day, file) == QueryError) ==>
      TransferFile(s, env, day, file) == s
    ensures (ValidMetadata(env, day, file).Some? &&
      IsPreviouslyMoved(s.ledger, file, ValidMetadata(env, day, file).value[BusinessDateColumn])) ==>
      TransferFile(s, env, day, file) == s
    ensures (ValidMetadata(env, day, file).Some? && env.fault(day, file) == UploadError) ==>
      TransferFile(s, env, day, file) == s
    ensures (ValidMetadata(env, day, file).Some? && env.fault(day, file) == InsertError &&
      !IsPreviouslyMoved(s.ledger, file, ValidMetadata(env, day, file).value[BusinessDateColumn])) ==>
      TransferFile(s, env, day, file) == s.(staging := s.staging + {StagedName(env, day, file)})
    ensures (ValidMetadata(env, day, file).Some? && env.fault(day, file) == Healthy &&
      !IsPreviouslyMoved(s.ledger, file, ValidMetadata(env, day, file).value[BusinessDateColumn])) ==>
      TransferFile(s, env, day, file) ==
        s.(staging := s.staging + {StagedName(env, day, file)},
           ledger := s.ledger + [Row(ValidMetadata(env, day, file).value, None, None)])
  {
  }

  // ---- idempotence ----

  /** The row the stage writes for a valid file is found again by the
      ledger lookup: its `file_name` column holds the file's name. This
      holds when header and footer carry exactly seven distinct keys, none
      of them `file_name` (see `Keyable7`). */
  predicate Keyable(env: Env, day: int, file: string) {
    match ValidMetadata(env, day, file)
    case None => true
    case Some(t) => |t| > FileNameColumn && t[FileNameColumn] == file
  }

  /** A later iteration for this day and file will skip it: it fails
      validation or its key is in the ledger. */
  predicate Settled(ledger: seq<Row>, env: Env, day: int, file: string) {
    match ValidMetadata(env, day, file)
    case None => true
    case Some(t) => IsPreviouslyMoved(ledger, file, t[BusinessDateColumn])
  }

  ghost predicate FaultFree(env: Env) {
    forall day, file :: env.fault(day, file) == Healthy
  }

  lemma SettledGrows(ledger: seq<Row>, later: seq<Row>, env: Env, day: int, file: string)
    requires ledger <= later && Settled(ledger, env, day, file)
    ensures Settled(later, env, day, file)
  {
    if ValidMetadata(env, day, file).Some? {
      var t := ValidMetadata(env, day, file).value;
      var i :| 0 <= i < |ledger| && Matches(ledger[i], file, t[BusinessDateColumn]);
      assert later[i] == ledger[i];
    }
  }

  lemma TransferFileSettles(s: State, env: Env, day: int, file: string)
    requires FaultFree(env) && Keyable(env, day, file)
    ensures Settled(TransferFile(s, env, day, file).ledger, env, day, file)
  {
    var r := TransferFile(s, env, day, file);
    if ValidMetadata(env, day, file).Some? {
      var t := ValidMetadata(env, day, file).value;
      if !IsPreviouslyMoved(s.ledger, file, t[BusinessDateColumn]) {
        assert env.fault(day, file) == Healthy;
        assert Matches(r.ledger[|s.ledger|], file, t[BusinessDateColumn]);
      }
    }
  }

  lemma {:induction false} TransferDaySettles(s: State, env: Env, day: int, files: seq<string>)
    requires FaultFree(env)
    requires forall k :: 0 <= k < |files| ==> Keyable(env, day, files[k])
    ensures forall k :: 0 <= k < |files| ==> Settled(TransferDay(s, env, day, files).ledger, env, day, files[k])
    decreases |files|
  {
    if |files| > 0 {
      var prefix := files[..|files| - 1];
      var mid := TransferDay(s, env, day, prefix);
      var r := TransferDay(s, env, day, files);
      TransferDaySettles(s, env, day, prefix);
      TransferFileSettles(mid, env, day, Last(files));
      forall k | 0 <= k < |files| - 1 ensures Settled(r.ledger, env, day, files[k]) {
        assert files[k] == prefix[k];
        SettledGrows(mid.ledger, r.ledger, env, day, files[k]);
      }
    }
  }

  /** Every expected file of `day` is settled. */
  ghost predicate DaySettled(ledger: seq<Row>, env: Env, day: int, files: seq<string>) {
    forall k :: 0 <= k < |files| ==> Settled(ledger, env, day, files[k])
  }

  /** Every expected file of `day` is keyable. */
  ghost predicate DayKeyable(env: Env, day: int, files: seq<string>) {
    forall k :: 0 <= k < |files| ==> Keyable(env, day, files[k])
  }

  lemma DaySettledGrows(ledger: seq<Row>, later: seq<Row>, env: Env, day: int, files: seq<string>)
    requires ledger <= later && DaySettled(ledger, env, day, files)
    ensures DaySettled(later, env, day, files)
  {
    forall k | 0 <= k < |files| ensures Settled(later, env, day, files[k]) {
      SettledGrows(ledger, later, env, day, files[k]);
    }
  }

  lemma {:induction false} TransferDaysSettle(s: State, env: Env, days: seq<int>, files: seq<string>)
    requires FaultFree(env)
    requires forall i :: 0 <= i < |days| ==> DayKeyable(env, days[i], files)
    ensures forall i :: 0 <= i < |days| ==> DaySettled(TransferDays(s, env, days, files).ledger, env, days[i], files)
    decreases |days|
  {
    if |days| > 0 {
      var prefix := days[..|days| - 1];
      var mid := TransferDays(s, env, prefix, files);
      var r := TransferDays(s, env, days, files);
      TransferDaysSettle(s, env, prefix, files);
      assert forall i :: 0 <= i < |prefix| ==> prefix[i] == days[i];
      TransferDaySettles(mid, env, Last(days), files);
      WindowSettled(mid.ledger, r.ledger, env, days, files);
    }
  }

  lemma WindowSettled(ledger: seq<Row>, later: seq<Row>, env: Env, days: seq<int>, files: seq<string>)
    requires |days| > 0 && ledger <= later
    requires forall i :: 0 <= i < |days| - 1 ==> DaySettled(ledger, env, days[i], files)
    requires DaySettled(later, env, Last(days), files)
    ensures forall i :: 0 <= i < |days| ==> DaySettled(later, env, days[i], files)
  {
    forall i | 0 <= i < |days| ensures DaySettled(later, env, days[i], files) {
      if i < |days| - 1 {
        DaySettledGrows(ledger, later, env, days[i], files);
      } else {
        assert days[i] == Last(days);
      }
    }
  }

  lemma {:induction false} SettledDayUnchanged(s: State, env: Env, day: int, files: seq<string>)
    requires DaySettled(s.ledger, env, day, files)
    ensures TransferDay(s, env, day, files) == s
    decreases |files|
  {
    if |files| > 0 {
      var prefix := files[..|files| - 1];
      assert forall k :: 0 <= k < |prefix| ==> prefix[k] == files[k];
      SettledDayUnchanged(s, env, day, prefix);
    }
  }

  lemma {:induction false} SettledDaysUnchanged(s: State, env: Env, days: seq<int>, files: seq<string>)
    requires forall i :: 0 <= i < |days| ==> DaySettled(s.ledger, env, days[i], files)
    ensures TransferDays(s, env, days, files) == s
    decreases |days|
  {
    if |days| > 0 {
      var prefix := days[..|days| - 1];
      assert forall i :: 0 <= i < |prefix| ==> prefix[i] == days[i];
      SettledDaysUnchanged(s, env, prefix, files);
      SettledDayUnchanged(s, env, Last(days), files);
    }
  }

  /** Idempotence: after a run that met no fault, running the stage again
      over the same window and the same files changes nothing, whatever
      faults the second run meets. */
  lemma TransferIdempotent(s: State, env: Env, days: seq<int>, files: seq<string>, laterFault: (int, string) -> Fault)
    requires FaultFree(env)
    requires forall i :: 0 <= i < |days| ==> DayKeyable(env, days[i], files)
    ensures var once := TransferDays(s, env, days, files);
      TransferDays(once, env.(fault := laterFault), days, files) == once
  {
    var once := TransferDays(s, env, days, files);
    var again := env.(fault := laterFault);
    TransferDaysSettle(s, env, days, files);
    forall i | 0 <= i < |days| ensures DaySettled(once.ledger, again, days[i], files) {
      forall k | 0 <= k < |files| ensures Settled(once.ledger, again, days[i], files[k]) {
        assert ValidMetadata(again, days[i], files[k]) == ValidMetadata(env, days[i], files[k]);
        assert Settled(once.ledger, env, days[i], files[k]);
      }
    }
    SettledDaysUnchanged(once, again, days, files);
  }

  /** Header and footer with exactly seven distinct keys, none `file_name`,
      in a day folder ending in `/`, for a file name without `/`, make the
      file's row findable by the ledger lookup. */
  lemma Keyable7(env: Env, day: int, file: string)
    requires FolderPath(env.datePath(day)) && !Contains(file, "/")
    requires var path := LocalPath(env, day, file);
      path in env.fs && FileIntegrity(path, env.fs).Ok? &&
      var lines := env.fs[path];
      |HeaderPairs(lines[0], Last(lines))| == 7 &&
      Records.DistinctKeys(HeaderPairs(lines[0], Last(lines))) &&
      FileNameKey !in Records.Keys(HeaderPairs(lines[0], Last(lines)))
    ensures Keyable(env, day, file)
  {
    var path := LocalPath(env, day, file);
    var lines := env.fs[path];
    LocalPathLastComponent(env, day, file);
    WellFormedMetadata(file, lines[0], Last(lines));
  }

  // ---- the loops as the script runs them ----

  /** One pass of the inner loop body, with its `try`/`except`. */
  method TransferOne(svc: Services, env: Env, day: int, file: string)
    modifies svc
    ensures svc.Value() == TransferFile(old(svc.Value()), env, day, file)
  {
    TransferFileOutcome(svc.Value(), env, day, file);
    var path := LocalPath(env, day, file);
    var metadata := CheckFileIntegrity(path, env.fs);
    assert metadata.Ok? && |metadata.value[0]| > BusinessDateColumn <==> ValidMetadata(env, day, file).Some?;
    if metadata.Err? {
      return;
    }
    var t := metadata.value[0];
    if |t| <= BusinessDateColumn {
      return;
    }
    assert t == ValidMetadata(env, day, file).value;
    var fault := env.fault(day, file);
    if fault == QueryError {
      return;
    }
    if IsPreviouslyMoved(svc.ledger, file, t[BusinessDateColumn]) {
      return;
    }
    if fault == UploadError {
      return;
    }
    svc.Upload(env.datePath(day) + file);
    if fault == InsertError {
      return;
    }
    svc.InsertRow(Row(t, None, None));
  }

  /** Each pass of the inner loop extends the day by one file. */
  lemma TransferDayAdvance(s: State, env: Env, day: int, files: seq<string>, f: nat)
    requires f < |files|
    ensures TransferFile(TransferDay(s, env, day, files[..f]), env, day, files[f]) ==
      TransferDay(s, env, day, files[..f + 1])
  {
    var longer := files[..f + 1];
    assert longer[..|longer| - 1] == files[..f] && Last(longer) == files[f];
  }

  /** Each pass of the outer loop extends the window by one day. */
  lemma TransferDaysAdvance(s: State, env: Env, days: seq<int>, files: seq<string>, d: nat)
    requires d < |days|
    ensures TransferDay(TransferDays(s, env, days[..d], files), env, days[d], files) ==
      TransferDays(s, env, days[..d + 1], files)
  {
    var longer := days[..d + 1];
    assert longer[..|longer| - 1] == days[..d] && Last(longer) == days[d];
  }

  /** The nested loops of `__main__` over the days and `FILES`. */
  method RunTransfer(svc: Services, env: Env, days: seq<int>, files: seq<string>)
    modifies svc
    ensures svc.Value() == TransferDays(old(svc.Value()), env, days, files)
  {
    var d := 0;
    while d < |days|
      invariant 0 <= d <= |days|
      invariant svc.Value() == TransferDays(old(svc.Value()), env, days[..d], files)
    {
      ghost var dayStart := svc.Value();
      var f := 0;
      while f < |files|
        invariant 0 <= f <= |files|
        invariant svc.Value() == TransferDay(dayStart, env, days[d], files[..f])
      {
        TransferOne(svc, env, days[d], files[f]);
        TransferDayAdvance(dayStart, env, days[d], files, f);
        f := f + 1;
      }
      assert files[..f] == files;
      TransferDaysAdvance(old(svc.Value()), env, days, files, d);
      d := d + 1;
    }
    assert days[..d] == days;
  }

  /** The whole transfer script: the window ending at `runDate`, `daysAgo` days back. */
  method TransferMain(svc: Services, env: Env, runDate: int, daysAgo: int)
    modifies svc
    ensures svc.Value() == TransferDays(old(svc.Value()), env, DateRange(runDate, daysAgo), Files)
  {
    RunTransfer(svc, env, DateRange(runDate, daysAgo), Files);
  }
}
