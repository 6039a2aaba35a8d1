/** The external stores both scripts act on: the ledger table, the staging
    bucket (`gs-incoming-files`), the archive bucket (`gs-loaded-files`)
    and the warehouse tables, seen through the load jobs submitted to them. */
module Cloud {
  import opened Common
  import opened Ledger

  /** The warehouse table a staged file is loaded into. */
  datatype Table = Poapacc | Tdact

  /** A bulk-load job: its target table and the `gs://` URI it reads. */
  datatype LoadJob = LoadJob(table: Table, uri: string)

  /** Everything the two stages change: ledger rows, object names in the
      two buckets, and the load jobs submitted so far. */
  datatype State = State(ledger: seq<Row>, staging: set<string>, archive: set<string>, loads: seq<LoadJob>)

  /** `gcs_move_blob`: the object is copied into the archive bucket, then
      deleted from staging; nothing else changes. */
  function Move(s: State, name: string): (r: State)
    ensures name in r.archive && name !in r.staging
    ensures forall other :: other != name ==>
      (other in r.staging <==> other in s.staging) && (other in r.archive <==> other in s.archive)
    ensures r.ledger == s.ledger && r.loads == s.loads
  {
    var copied := s.(archive := s.archive + {name});
    copied.(staging := copied.staging - {name})
  }

  /** The service handles the scripts share, with the stores' contents as fields. */
  class Services {
    var ledger: seq<Row>
    var staging: set<string>
    var archive: set<string>
    var loads: seq<LoadJob>

    function Value(): State
      reads this
    {
      State(ledger, staging, archive, loads)
    }

    constructor (s: State)
      ensures Value() == s
    {
      ledger, staging, archive, loads := s.ledger, s.staging, s.archive, s.loads;
    }

    /** `blob.upload_from_filename(...)` into the staging bucket. */
    method Upload(name: string)
      modifies this
      ensures Value() == old(Value()).(staging := old(staging) + {name})
    {
      staging := staging + {name};
    }

    /** `bq_insert_row_into_table(log_table_id, [row], schema)`. */
    method InsertRow(row: Row)
      modifies this
      ensures Value() == old(Value()).(ledger := old(ledger) + [row])
    {
      ledger := ledger + [row];
    }

    /** `load_table_from_uri(uri, table_id, ...)`. */
    method SubmitLoad(job: LoadJob)
      modifies this
      ensures Value() == old(Value()).(loads := old(loads) + [job])
    {
      loads := loads + [job];
    }

    /** `gcs_move_blob`: `copy_blob` into the archive, then `delete` from staging. */
    method MoveBlob(name: string)
      modifies this
      ensures Value() == Move(old(Value()), name)
    {
      archive := archive + {name};
      staging := staging - {name};
    }
  }
}
