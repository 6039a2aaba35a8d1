/** The load-log table both stages consult (`gs_file_load_log`), and the two
    queries run against it: `is_previously_moved` (gs_files_to_gcs.py) and
    `is_loaded_record` (gs_files_to_big_query.py). */
module Ledger {
  import opened Common
  import opened Text
  import opened Metadata

  /** One row of the log table: the metadata values as inserted, column by
      column in schema order, then `is_loaded` and `log_detail`, which stay
      NULL (`None`) when an insert leaves them out. */
  datatype Row = Row(columns: Tuple, isLoaded: Option<bool>, logDetail: Option<string>)

  /** Positions of `file_business_date` and `file_name` in the schema. */
  const BusinessDateColumn := 5
  const FileNameColumn := 7

  /** `WHERE file_name = "<f>" AND file_business_date = "<d>"`. */
  predicate Matches(row: Row, fileName: string, businessDate: string) {
    |row.columns| > FileNameColumn &&
    row.columns[FileNameColumn] == fileName && row.columns[BusinessDateColumn] == businessDate
  }

  /** Some ledger row has the key, and, when `onlyLoaded`, is marked loaded. */
  predicate HasRow(ledger: seq<Row>, fileName: string, businessDate: string, onlyLoaded: bool) {
    exists i :: 0 <= i < |ledger| && Matches(ledger[i], fileName, businessDate) &&
      (onlyLoaded ==> ledger[i].isLoaded == Some(true))
  }

  /** `SELECT is_loaded ... WHERE <key matches> [AND is_loaded = TRUE]`
      without its `LIMIT 1`: one single-column row per matching ledger row,
      in ledger order. Both callers only ask whether it is empty and read
      its first row, which is what `LIMIT 1` keeps. */
  function SelectIsLoaded(ledger: seq<Row>, fileName: string, businessDate: string, onlyLoaded: bool)
    : (result: seq<seq<Option<bool>>>)
    ensures |result| > 0 <==> HasRow(ledger, fileName, businessDate, onlyLoaded)
    ensures forall k :: 0 <= k < |result| ==> |result[k]| == 1
    decreases |ledger|
  {
    if |ledger| == 0 then []
    else
      var earlier := SelectIsLoaded(ledger[..|ledger| - 1], fileName, businessDate, onlyLoaded);
      assert forall i :: 0 <= i < |ledger| - 1 ==> ledger[..|ledger| - 1][i] == ledger[i];
      var row := Last(ledger);
      if Matches(row, fileName, businessDate) && (onlyLoaded ==> row.isLoaded == Some(true))
      then earlier + [[row.isLoaded]]
      else earlier
  }

  /** `is_previously_moved`: the key has a ledger row, whatever its `is_loaded`. */
  function IsPreviouslyMoved(ledger: seq<Row>, fileName: string, businessDate: string): (moved: bool)
    ensures moved <==> HasRow(ledger, fileName, businessDate, false)
  {
    |SelectIsLoaded(ledger, fileName, businessDate, false)| >= 1
  }

  /** The strings `is_loaded_record` returns. */
  datatype Status = Processed | NotProcessed | NotLoaded

  /** A BigQuery result row is truthy when it has a column. */
  predicate Truthy(resultRow: seq<Option<bool>>) {
    |resultRow| > 0
  }

  /** `is_loaded_record`: "processed" when the first row of the
      `is_loaded = TRUE` query is truthy, "not processed" when it is not,
      "not loaded" when the query returns nothing. */
  function IsLoadedRecord(ledger: seq<Row>, fileName: string, businessDate: string): (status: Status)
    ensures status == Processed <==> HasRow(ledger, fileName, businessDate, true)
    ensures status == NotLoaded <==> !HasRow(ledger, fileName, businessDate, true)
  {
    var result := SelectIsLoaded(ledger, fileName, businessDate, true);
    if |result| >= 1 then
      if Truthy(result[0]) then Processed else NotProcessed
    else NotLoaded
  }

  /** The query filters on `is_loaded = TRUE`, so its first row always has
      a column and "not processed" is never returned. */
  lemma NeverNotProcessed(ledger: seq<Row>, fileName: string, businessDate: string)
    ensures IsLoadedRecord(ledger, fileName, businessDate) != NotProcessed
  {
  }

  /** Rows are only ever appended, so "processed" is terminal. */
  lemma ProcessedIsTerminal(ledger: seq<Row>, later: seq<Row>, fileName: string, businessDate: string)
    requires ledger <= later
    requires IsLoadedRecord(ledger, fileName, businessDate) == Processed
    ensures IsLoadedRecord(later, fileName, businessDate) == Processed
  {
    var i :| 0 <= i < |ledger| && Matches(ledger[i], fileName, businessDate) && ledger[i].isLoaded == Some(true);
    assert later[i] == ledger[i];
  }

  /** A row marked loaded. */
  predicate IsLoadedRow(row: Row) {
    row.isLoaded == Some(true)
  }

  /** The ledger invariant: no two rows marked loaded share a key. */
  predicate AtMostOneLoaded(ledger: seq<Row>) {
    forall i, j ::
      (0 <= i < j < |ledger| && IsLoadedRow(ledger[i]) && IsLoadedRow(ledger[j]) &&
       |ledger[i].columns| > FileNameColumn) ==>
      !Matches(ledger[j], ledger[i].columns[FileNameColumn], ledger[i].columns[BusinessDateColumn])
  }

  /** Appending a row keeps the invariant when the row is not marked
      loaded, or when its key had no loaded row yet. */
  lemma AppendKeepsAtMostOneLoaded(ledger: seq<Row>, row: Row)
    requires AtMostOneLoaded(ledger)
    requires IsLoadedRow(row) ==> (|row.columns| > FileNameColumn &&
      IsLoadedRecord(ledger, row.columns[FileNameColumn], row.columns[BusinessDateColumn]) == NotLoaded)
    ensures AtMostOneLoaded(ledger + [row])
  {
    var all := ledger + [row];
    forall i, j | 0 <= i < j < |all| && IsLoadedRow(all[i]) && IsLoadedRow(all[j]) &&
      |all[i].columns| > FileNameColumn
      ensures !Matches(all[j], all[i].columns[FileNameColumn], all[i].columns[BusinessDateColumn])
    {
      if j == |ledger| {
        assert all[i] == ledger[i] && all[j] == row;
        var key := (ledger[i].columns[FileNameColumn], ledger[i].columns[BusinessDateColumn]);
        assert Matches(ledger[i], key.0, key.1);
        assert HasRow(ledger, key.0, key.1, true);
      }
    }
  }
}
