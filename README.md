# GS report ingester: a verified model

This project models the two-stage ingester for the daily GS report files.

- **Transfer stage** (`gs_files_to_gcs.py`). For every day of a window and each of the ten expected file names:
  - checks the local file's structure (`check_file_integrity`);
  - reads its header/footer metadata (`get_file_metadata`);
  - asks the load-log ledger whether the file's key (file name, business date) is already registered (`is_previously_moved`);
  - if not, uploads the file to the staging bucket as `YYYY/MM/DD/<file>` and appends the metadata row to the ledger.
- **Load stage** (`gs_files_to_big_query.py`). For every day of the window (`processor`), each staged blob under the day's prefix:
  - is classified into the `poapacc` or `tdact` table;
  - has its metadata read again;
  - then, depending on `is_loaded_record`, is either archived straight away (already loaded), or submitted as a load job, logged in the ledger, and archived when the job loaded rows (`gcs_move_blob`).
  - Any exception ends the whole run.

The model is split into modules:

| module | what it holds |
|---|---|
| `Common` | Option, Result and the exceptions. |
| `Text` | Python's `split`, `join`, `replace(p, "")`, `find`, `int()` and `str()` on strings, with their defining lemmas. |
| `Records` | A `dict[str, str]` as an insertion-ordered list of pairs. |
| `Metadata` | `get_file_metadata`. |
| `Integrity` | `check_file_integrity`, as a function and as the method with the footer loop. |
| `Ledger` | Ledger rows, and the two ledger queries. |
| `Cloud` | The stores, as a `State` value and as the `Services` class whose methods change them. |
| `Dates` | The run window. |
| `Transfer` | The transfer stage. |
| `Load` | The load stage. |

The cloud stores change in place, so they are a class (`Cloud.Services`) whose fields the script loops update. Each loop is a method proved equal to a recursive function over the `State` value (`Transfer.TransferDays`, `Load.Process`, `Load.LoadDays`). The properties are proved about those functions.

## Where the code and its description differ

Where they disagree, the model follows the code.

- **The transfer stage leaves `is_loaded` NULL.** It inserts the bare metadata tuple, so `is_loaded` and `log_detail` are NULL, not `false` (gs_files_to_gcs.py:154). The `is_loaded = TRUE` query of `is_loaded_record` therefore answers "not loaded" for a registered file. The load stage then appends a second row rather than updating the first (gs_files_to_big_query.py:108-131). The model's ledger only ever grows.
- **`is_loaded_record` never returns "not processed".** Its query keeps only rows with `is_loaded = TRUE`, and such a row is truthy (`Ledger.NeverNotProcessed`). So the `UPDATE` branch (lines 97-107) is dead code and is modelled as unreachable.
- **Classification looks at each token's first occurrence.** It uses `find(...) > 0`, and `find` gives the first occurrence, so a token counts only when its first occurrence is not at index 0. A name that starts with `poapacc` and holds no `tdact` is rejected (`Load.LeadingTokenRejected`). Staged names start with `YYYY/`, so this does not arise for them.
- **The record-count rule is the code's.** It compares `int(Record Count)` with `len(lines) - 3` exactly. It accepts any sign that `int()` accepts, and it uses the last `Record Count` in the footer when the key repeats.

## Model

| member | source | states |
|---|---|---|
| Text.Split | gs_files_to_gcs.py:32 | `str.split` with a non-empty separator always yields at least one piece |
| Text.JoinSplit | gs_files_to_gcs.py:30-32 | joining the pieces of a split with the same separator gives back the string |
| Text.SplitPiecesFree | gs_files_to_gcs.py:32 | no piece of a split contains the separator |
| Text.SplitSingle | gs_files_to_gcs.py:74 | a split has exactly one piece iff the separator does not occur |
| Text.SplitPair | gs_files_to_gcs.py:74 | a two-piece split is `key + sep + value` with neither part holding `sep` |
| Text.SplitLast | gs_files_to_gcs.py:61 | `(p + "/" + f).split("/")[-1] == f` when `f` holds no `/` |
| Text.JoinEnds | gs_files_to_gcs.py:30 | `sep.join(parts)` begins with the first part and ends with the last |
| Text.LastComponent | gs_files_to_gcs.py:61 | `path.split("/")[-1]` holds no `/`, is a suffix of the path, and is either the whole path or preceded by a `/`: the part after the last `/` |
| Text.SplitFirst | gs_files_to_big_query.py:90 | a leading separator-free part is split off as the first piece |
| Text.RemoveAll | gs_files_to_gcs.py:28-29 | `replace(pat, "")` never lengthens the string |
| Text.RemoveAllIsJoinOfSplit | gs_files_to_gcs.py:28-29 | `s.replace(pat, "")` equals `"".join(s.split(pat))` |
| Text.RemoveAbsent | gs_files_to_gcs.py:28-29 | removing a tag that does not occur leaves the line unchanged |
| Text.Find | gs_files_to_big_query.py:80-82 | `find` is -1 iff the pattern is absent; otherwise it is the lowest index of an occurrence |
| Text.FindPositive | gs_files_to_big_query.py:80-82 | `find(...) > 0` iff the token occurs and not at index 0 |
| Text.TrimStartSuffix | gs_files_to_gcs.py:76 | stripping leading white space before `int()` leaves a suffix of the text |
| Text.ParseInt | gs_files_to_gcs.py:76 | `int()` reads a run of digits as its decimal value and `-` followed by digits as its negation; the empty string raises |
| Text.NatToString | gs_files_to_big_query.py:122 | `str(n)` of a row count is a non-empty run of digits |
| Text.ParseIntOfNatToString | gs_files_to_big_query.py:122 | `int(str(n)) == n` for every natural `n`: the model's `int()` and `str()` agree with each other |
| Records.Put | gs_files_to_gcs.py:33 | `d[k] = v` keeps keys distinct; an existing key keeps its place with the new value, and a new key goes last |
| Records.Lookup | gs_files_to_gcs.py:76 | `d[k]` is missing iff `k` is not a key; otherwise it is the value of an item with that key |
| Records.Values | gs_files_to_gcs.py:37 | `record.values()` lists the value of each item, in the dict's order |
| Records.FromPairs | gs_files_to_gcs.py:32 | `dict(pairs)` has distinct keys |
| Records.LookupPut | gs_files_to_gcs.py:75 | after `update({k: v})`, `k` reads `v` and every other key reads as before |
| Records.FromPairsKeys | gs_files_to_gcs.py:32 | the keys of `dict(pairs)` are exactly the keys among the pairs |
| Records.FromPairsLookup | gs_files_to_gcs.py:32 | `dict(pairs)[k]` is the value of the last pair with key `k` |
| Records.FromPairsOrder | gs_files_to_gcs.py:32-37 | `dict(pairs)` lists its keys in the order of their first occurrence |
| Records.FromDistinctPairs | gs_files_to_gcs.py:32 | pairs with distinct keys make a dict that lists them unchanged |
| Records.LookupAt | gs_files_to_gcs.py:76 | looking up an item's key gives that item's value |
| Metadata.StripHeader | gs_files_to_gcs.py:28 | removing the `HEADER` and `DATA:` tags never lengthens the header |
| Metadata.StripHeaderUntagged | gs_files_to_gcs.py:28 | a header without either tag is unchanged |
| Metadata.StripFooter | gs_files_to_gcs.py:29 | removing the `TRAILER` tag never lengthens the footer |
| Metadata.StripFooterUntagged | gs_files_to_gcs.py:29 | a footer without the tag is unchanged |
| Metadata.SegmentsRejoin | gs_files_to_gcs.py:30-32 | the segments rejoined with the field separator are the stripped header and footer joined by it, and no segment holds the separator |
| Metadata.ParsePairs | gs_files_to_gcs.py:32 | succeeds iff every segment splits on `": "` into two; on success, one pair per segment, in order; on failure, the error names the first bad segment |
| Metadata.ParsePairsErrExtends | gs_files_to_gcs.py:32-36 | once a segment fails, later segments do not change the error |
| Metadata.ParsedPairShape | gs_files_to_gcs.py:32 | each parsed segment is `key + ": " + value` |
| Metadata.SplitAroundPairSeparator | gs_files_to_gcs.py:32 | conversely, `key + ": " + value` with neither part holding `": "` parses as that pair |
| Metadata.GetFileMetadata | gs_files_to_gcs.py:27-37 | succeeds iff every stripped and joined segment is a `key: value` pair; the result is one tuple; failure is the malformed-field error |
| Metadata.MetadataValues | gs_files_to_gcs.py:27-37 | the tuple has one value per distinct key, in first-occurrence order. Each value is the key's last value, and `file_name` holds the file name: last when it is new, in place otherwise |
| Metadata.WellFormedMetadata | gs_files_to_gcs.py:27-37 | with distinct keys and no `file_name` key, the tuple is the segment values followed by the file name |
| Integrity.FooterDict | gs_files_to_gcs.py:72-75 | the footer loop succeeds iff every field is one `key: value`; the dict it builds has distinct keys; a failure is the malformed-field error |
| Integrity.FooterDictSnoc | gs_files_to_gcs.py:73-75 | one more footer field either stores its pair with `update` or raises naming that field |
| Integrity.FooterDictErrExtends | gs_files_to_gcs.py:73-75 | after a field raises, later fields do not matter |
| Integrity.FileIntegrity | gs_files_to_gcs.py:40-83 | a missing path raises missing-file for its last component; success means the file exists, is non-empty, and returns `get_file_metadata` of its first and last lines |
| Integrity.MissingFooterFails | gs_files_to_gcs.py:66-71 | a last line whose first field is not `TRAILER` raises missing-footer |
| Integrity.MalformedFooterFails | gs_files_to_gcs.py:73-74 | the first footer field that is not one `key: value` is the one reported |
| Integrity.MissingRecordCountFails | gs_files_to_gcs.py:76 | a footer without `Record Count` raises the missing-key error |
| Integrity.RecordCountRule | gs_files_to_gcs.py:76-83 | with declared count `n`, exactly `n + 3` lines pass on to metadata extraction; any other length raises the mismatch with both counts |
| Integrity.ReadFooterDict | gs_files_to_gcs.py:72-75 | the footer loop yields the dict of the footer pairs, or raises at the first malformed field |
| Integrity.CheckFileIntegrity | gs_files_to_gcs.py:61-83 | the checks in source order return what `FileIntegrity` specifies |
| Ledger.SelectIsLoaded | gs_files_to_big_query.py:35-38 | the query returns a row iff the ledger has a matching row (a loaded one, when filtered); each result row has one column |
| Ledger.IsPreviouslyMoved | gs_files_to_gcs.py:86-97 | true iff some ledger row has the file's name and business date |
| Ledger.IsLoadedRecord | gs_files_to_big_query.py:33-49 | "processed" iff a row with the key is marked loaded, and "not loaded" iff none is |
| Ledger.NeverNotProcessed | gs_files_to_big_query.py:35-43 | "not processed" is never returned |
| Ledger.ProcessedIsTerminal | gs_files_to_big_query.py:33-45 | once "processed", a key stays "processed" as the ledger grows |
| Ledger.AppendKeepsAtMostOneLoaded | gs_files_to_big_query.py:121-125 | appending a row keeps at most one loaded row per key, when the row is not loaded or its key had none |
| Cloud.Move | gs_files_to_big_query.py:67-71 | the blob ends up in the archive and not in staging; every other blob, the ledger and the loads are unchanged |
| Cloud.Services.MoveBlob | gs_files_to_big_query.py:67-71 | the stores after the copy-then-delete are `Move` of the stores before |
| Cloud.Services.Upload | gs_files_to_gcs.py:151-153 | the staging bucket gains the object, and nothing else changes |
| Cloud.Services.InsertRow | gs_files_to_big_query.py:25-30 | the ledger gains the row at its end, and nothing else changes |
| Cloud.Services.SubmitLoad | gs_files_to_big_query.py:52-64 | the load job is recorded, and nothing else changes |
| Dates.DateRange | gs_files_to_gcs.py:125-128 | the window has `days_ago + 1` consecutive days ending at the run date, and none when `days_ago` is negative |
| Dates.DateRangeCovers | gs_files_to_big_query.py:153-156 | a day is in the window iff it lies between `run_date - days_ago` and `run_date` |
| Transfer.LocalPathLastComponent | gs_files_to_gcs.py:145 | with a day folder ending in `/` and a file name without `/`, the path's last component is the file name |
| Transfer.StagedName | gs_files_to_gcs.py:151 | the staged object name is the local path without the base path |
| Transfer.TransferFile | gs_files_to_gcs.py:145-161 | one file only appends to the ledger and adds to staging; archive and loads are untouched |
| Transfer.TransferDay | gs_files_to_gcs.py:144-161 | the same for one day's files |
| Transfer.TransferDays | gs_files_to_gcs.py:142-161 | the same for the window |
| Transfer.TransferFileOutcome | gs_files_to_gcs.py:146-161 | an invalid or already registered file changes nothing, and neither does a raising ledger query or upload. An insert that raises after the upload leaves the staged object without a row. A valid new file meeting no fault adds its staging object and exactly one row with NULL status |
| Transfer.SettledGrows | gs_files_to_gcs.py:149-150 | a file whose key is registered stays skipped as the ledger grows |
| Transfer.TransferFileSettles | gs_files_to_gcs.py:149-155 | after a fault-free transfer of a keyable file, a rerun would skip it |
| Transfer.TransferDaySettles | gs_files_to_gcs.py:144-155 | after a fault-free day, every file of that day is skipped by a rerun |
| Transfer.DaySettledGrows | gs_files_to_gcs.py:149-150 | a settled day stays settled as the ledger grows |
| Transfer.TransferDaysSettle | gs_files_to_gcs.py:142-155 | after a fault-free window, every day of it is settled |
| Transfer.WindowSettled | gs_files_to_gcs.py:142-155 | earlier settled days and a settled last day make the whole window settled |
| Transfer.SettledDayUnchanged | gs_files_to_gcs.py:144-158 | a day whose files are all settled changes nothing |
| Transfer.SettledDaysUnchanged | gs_files_to_gcs.py:142-158 | a window whose days are all settled changes nothing |
| Transfer.TransferIdempotent | gs_files_to_gcs.py:142-161 | after a fault-free run, a second run over the same window and files changes nothing, whatever faults it meets |
| Transfer.Keyable7 | gs_files_to_gcs.py:27-37 | seven distinct header/footer keys, none `file_name`, put the file name in ledger column 7, so the ledger lookup finds the row |
| Transfer.TransferOne | gs_files_to_gcs.py:145-161 | one pass of the inner loop body leaves the stores as `TransferFile` specifies |
| Transfer.TransferDayAdvance | gs_files_to_gcs.py:144-161 | each pass of the file loop extends the day by one `TransferFile` |
| Transfer.TransferDaysAdvance | gs_files_to_gcs.py:142-161 | each pass of the day loop extends the window by one day |
| Transfer.RunTransfer | gs_files_to_gcs.py:142-161 | the nested loops leave the stores as `TransferDays` specifies |
| Transfer.TransferMain | gs_files_to_gcs.py:125-161 | the script over the window ending at the run date leaves the stores as `TransferDays` over `DateRange` and `FILES` |
| Load.Classify | gs_files_to_big_query.py:80-85 | a name of neither type raises unknown-file-type naming the blob |
| Load.ClassifyByOccurrence | gs_files_to_big_query.py:80-85 | `poapacc` iff that token's first occurrence exists and is not at index 0; `tdact` iff not `poapacc` and the first occurrence of `tdact` exists and is not at index 0 |
| Load.LeadingTokenRejected | gs_files_to_big_query.py:80-85 | a name that starts with `poapacc` and holds no `tdact` is rejected |
| Load.Prepare | gs_files_to_big_query.py:80-95 | a passing blob's business date is field 5 of its metadata; a failing one raises one of the five exceptions of those lines |
| Load.PrepareSteps | gs_files_to_big_query.py:80-95 | a blob passes iff every step succeeds, and the failing step decides the exception: an unknown type, a path without segment 3, an empty download, the metadata's own error, or a tuple without field 5. A passing blob carries its table, path segment 3 as file name, its lines' metadata and field 5 |
| Load.Uri | gs_files_to_big_query.py:87 | the URI is `gs://`, the bucket name, `/` and the blob name |
| Load.LoadedDetail | gs_files_to_big_query.py:122 | the detail is `loaded `, the row count in decimal, and ` rows`; the count reads back as the same number |
| Load.ErrorDetail | gs_files_to_big_query.py:128 | the detail is `Error: ` followed by the job's error message |
| Load.StagedFileName | gs_files_to_big_query.py:90 | path segment 3 of an object staged as `YYYY/MM/DD/<file>` is `<file>` |
| Load.Log | gs_files_to_big_query.py:124-131 | the ledger gains the row unless the insert reports errors; nothing else changes |
| Load.ProcessBlob | gs_files_to_big_query.py:80-137 | a blob only appends to the ledger and the loads; no blob leaves the two buckets |
| Load.Step | gs_files_to_big_query.py:80-137 | a blob that raises leaves the stores unchanged and reports the exception |
| Load.Process | gs_files_to_big_query.py:79-137 | the loop over a listing only appends to the ledger and the loads |
| Load.LoadDays | gs_files_to_big_query.py:157-160 | the same for the whole window |
| Load.ProcessBlobOutcome | gs_files_to_big_query.py:97-135 | an already loaded key is only archived. Otherwise one load job is submitted. A success moves exactly this blob from staging to the archive, and a failure leaves both buckets as they were. Either way the ledger gains the logged row (loaded with its row count, or not loaded with its error), or stays as it was when the insert reports errors |
| Load.ProcessBlobFailure | gs_files_to_big_query.py:80-98 | a blob failing its checks or its ledger query raises that exception |
| Load.ProcessSnoc | gs_files_to_big_query.py:79 | the loop one blob further is one more `Step` unless it already raised |
| Load.ProcessAdvance | gs_files_to_big_query.py:79 | each iteration of the blob loop extends the run by one `Step` |
| Load.AbortStops | gs_files_to_big_query.py:79-85 | after an exception no later blob is processed |
| Load.NoReloadWhenProcessed | gs_files_to_big_query.py:132-135 | a listing whose valid blobs are all already loaded submits no load job |
| Load.LoadedBecomesProcessed | gs_files_to_big_query.py:121-126 | a blob whose job loads and whose insert succeeds leaves its key "processed" |
| Load.LoadsAllStep | gs_files_to_big_query.py:79-126 | one more cleanly loaded blob keeps the earlier blobs processed and adds itself |
| Load.ProcessLoadsAll | gs_files_to_big_query.py:79-137 | a listing run without exception, where every job loads and every insert succeeds, leaves every blob of it "processed" |
| Load.NoReloadAfterLoad | gs_files_to_big_query.py:79-137 | after such a run, running the same listing again submits no load job |
| Load.ProcessBlobKeepsAtMostOneLoaded | gs_files_to_big_query.py:108-135 | one blob keeps at most one loaded row per key |
| Load.ProcessKeepsAtMostOneLoaded | gs_files_to_big_query.py:79-137 | a whole listing keeps at most one loaded row per key |
| Load.LoadDaysKeepsAtMostOneLoaded | gs_files_to_big_query.py:157-160 | a whole run keeps at most one loaded row per key |
| Load.LoadDaysSnoc | gs_files_to_big_query.py:157-160 | the run one day further is one more `processor` unless it already raised |
| Load.LoadDaysAdvance | gs_files_to_big_query.py:157-160 | each iteration of the day loop extends the run by one `processor` call |
| Load.LoadDaysAbortStops | gs_files_to_big_query.py:157-160 | after an exception no later day is processed |
| Load.ProcessOne | gs_files_to_big_query.py:80-137 | one loop iteration leaves the stores and the exception as `Step` specifies |
| Load.Processor | gs_files_to_big_query.py:74-137 | `processor` leaves the stores and the exception as `Process` over the day's listing specifies |
| Load.RunLoad | gs_files_to_big_query.py:153-160 | the script over the window leaves the stores and the exception as `LoadDays` over `DateRange` specifies |

## Left out

- **Cloud clients.** BigQuery and Cloud Storage clients, credentials, table ids and SQL text are out of scope. The stores are the fields of `Cloud.Services`. Whether a call raises is an input: `Transfer.Env.fault`, which covers the ledger query, the upload and the insert, and `Load.Env.queryFails`, which covers the ledger query. `Load.Env.job` is the outcome of a load job. `Load.Env.insertFails` is an insert that reports errors, which the load stage only prints.
- **Load jobs.** Their internals are reduced to an outcome per URI: rows loaded, or an error message. Two cases are not modelled: a job whose creation raises, which leaves `load_job` unbound, and a failed job without `error_result`.
- **Ledger inserts.** Schema typing is not modelled: the `file_name` column is declared `INTEGER` while the value is a string. A rejected insert appears only as a reported insert error. In the transfer stage, a raising insert is a fault after the upload.
- **`upload_to_bucket`.** It is never called by either stage.
- **Host and command-line details.** Base-path selection by operating system, argparse defaults, `print`/logging, and the timestamp printed per blob are out of scope. The date formatting `strftime("%Y/%m/%d/")` is an abstract `datePath` function on day numbers.
- **File reading.** The file share is a map from path to the lines `splitlines()` yields. Reading, encodings and `open` errors other than a missing path are not modelled.
- **`int()` details.** `Text.ParseInt` strips the characters `str.isspace` accepts below 128: space, `\t` to `\r`, and `\x1c` to `\x1f`. It then reads a sign and decimal digits. It does not model underscores between digits, Unicode digits, or white space above 127.
- **Blob listing.** The listing under a prefix is an input snapshot. Pagination and listings that change during the run are not modelled.
- **The dead "not processed" branch.** Its `UPDATE` statements are modelled as unreachable; their un-interpolated query strings are never run.
- **Repeated ledger queries.** `processor` calls `is_loaded_record` up to three times for one blob. The model asks once: the ledger does not change between those calls, and any of them raising is the single `queryFails` outcome.
- Load.Log: models an insert that reports errors, not one that raises. In the load stage, `get_table` or `insert_rows` can raise (gs_files_to_big_query.py:25-28), and no `try` surrounds the inserts at lines 124 and 130. Such an exception would end the run after the load job was submitted, leaving the blob in staging with no ledger row. The model has no such outcome.
- **`gcs_move_blob` failures.** A copy or delete that fails is not modelled: the move always completes.
- Load.ProcessBlob: reads the outcome of the checks from `env.check`, not from `Prepare` directly. The methods that run the stage require `Checked(env)`, which states `env.check(name) == Prepare(env, name)` for every name. So a run against real blob text follows `Prepare`, and the lemmas hold for any recorded checks.
- Transfer.TransferIdempotent: assumes `Keyable` for every file of the window: column 7 of the metadata tuple is the file name. The ledger lookup depends on the tuple's position, and `Transfer.Keyable7` gives the usual file shape for which this holds. Without it, a file's own row may not be found, and the stage registers it again.
- Load.LoadDaysKeepsAtMostOneLoaded: assumes the same of every listed blob (`ListingKeyable`), for the same reason.
