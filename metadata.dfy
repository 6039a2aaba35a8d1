/** `get_file_metadata` (gs_files_to_gcs.py): the header and footer lines of
    a report file turned into the tuple of metadata values the ledger stores. */
module Metadata {
  import opened Common
  import opened Text
  import opened Records

  /** `tuple(record.values())`: one file's metadata values, in column order. */
  type Tuple = seq<string>

  const HeaderTag := "HEADER|"
  const DataTag := "DATA:"
  const TrailerTag := "TRAILER|"
  const FieldSeparator := "|"
  const PairSeparator := ": "
  const FileNameKey := "file_name"

  /** `header.replace("HEADER|", "").replace("DATA:", "")`. */
  function StripHeader(header: string): (r: string)
    ensures |r| <= |header|
  {
    RemoveAll(RemoveAll(header, HeaderTag), DataTag)
  }

  /** A header without either tag passes unchanged. */
  lemma StripHeaderUntagged(header: string)
    requires !Contains(header, HeaderTag) && !Contains(header, DataTag)
    ensures StripHeader(header) == header
  {
    RemoveAbsent(header, HeaderTag);
    RemoveAbsent(header, DataTag);
  }

  /** `footer.replace("TRAILER|", "")`. */
  function StripFooter(footer: string): (r: string)
    ensures |r| <= |footer|
  {
    RemoveAll(footer, TrailerTag)
  }

  /** A footer without the tag passes unchanged. */
  lemma StripFooterUntagged(footer: string)
    requires !Contains(footer, TrailerTag)
    ensures StripFooter(footer) == footer
  {
    RemoveAbsent(footer, TrailerTag);
  }

  /** `"|".join([header, footer]).split("|")` on the stripped lines. */
  function Segments(header: string, footer: string): seq<string> {
    Split(StripHeader(header) + FieldSeparator + StripFooter(footer), FieldSeparator)
  }

  /** The segments are pieces without `|` that join back into the
      stripped header and footer. */
  lemma SegmentsRejoin(header: string, footer: string)
    ensures Join(Segments(header, footer), FieldSeparator) ==
      StripHeader(header) + FieldSeparator + StripFooter(footer)
    ensures forall i :: 0 <= i < |Segments(header, footer)| ==>
      !Contains(Segments(header, footer)[i], FieldSeparator)
  {
    var joined := StripHeader(header) + FieldSeparator + StripFooter(footer);
    JoinSplit(joined, FieldSeparator);
    SplitPiecesFree(joined, FieldSeparator);
  }

  /** `item.split(": ")` has exactly the two parts a `k, v` unpacking or `dict()` accepts. */
  predicate IsPair(item: string) {
    |Split(item, PairSeparator)| == 2
  }

  /** The pairs `item.split(": ")` of the items in order; the first item that
      does not split in two raises `ValueError`. */
  function ParsePairs(items: seq<string>): (r: Result<seq<Pair>>)
    ensures r.Ok? <==> forall i :: 0 <= i < |items| ==> IsPair(items[i])
    ensures r.Ok? ==> |r.value| == |items|
    ensures r.Ok? ==> forall i :: 0 <= i < |items| ==>
      r.value[i] == (Split(items[i], PairSeparator)[0], Split(items[i], PairSeparator)[1])
    ensures r.Err? ==> exists i :: (0 <= i < |items| && !IsPair(items[i]) &&
      r.error == MalformedField(items[i]) && forall j :: 0 <= j < i ==> IsPair(items[j]))
    decreases |items|
  {
    if |items| == 0 then Ok([])
    else
      var prefix := items[..|items| - 1];
      assert forall i :: 0 <= i < |prefix| ==> prefix[i] == items[i];
      match ParsePairs(prefix)
      case Err(e) => Err(e)
      case Ok(ps) =>
        var parts := Split(Last(items), PairSeparator);
        if |parts| == 2 then Ok(ps + [(parts[0], parts[1])])
        else Err(MalformedField(Last(items)))
  }

  /** Once an item fails to parse, items after it do not change the outcome. */
  lemma {:induction false} ParsePairsErrExtends(items: seq<string>, more: seq<string>)
    requires ParsePairs(items).Err?
    ensures ParsePairs(items + more) == ParsePairs(items)
    decreases |more|
  {
    if |more| == 0 {
      assert items + more == items;
    } else {
      var shorter := more[..|more| - 1];
      ParsePairsErrExtends(items, shorter);
      assert (items + more)[..|items + more| - 1] == items + shorter;
    }
  }

  /** Each parsed item is `key + ": " + value`, and neither part holds another `": "`. */
  lemma ParsedPairShape(items: seq<string>)
    requires ParsePairs(items).Ok?
    ensures var ps := ParsePairs(items).value;
      forall i :: 0 <= i < |items| ==>
        items[i] == ps[i].0 + PairSeparator + ps[i].1 &&
        !Contains(ps[i].0, PairSeparator) && !Contains(ps[i].1, PairSeparator)
  {
    forall i | 0 <= i < |items| {
      SplitPair(items[i], PairSeparator);
    }
  }

  /** Conversely, `key + ": " + value` with neither part holding `": "` is a pair. */
  lemma {:induction false} SplitAroundPairSeparator(k: string, v: string)
    requires !Contains(k, PairSeparator) && !Contains(v, PairSeparator)
    ensures Split(k + PairSeparator + v, PairSeparator) == [k, v]
    decreases |k|
  {
    var s := k + PairSeparator + v;
    if |k| == 0 {
      assert s[..2] == PairSeparator && s[2..] == v;
      SplitWithoutSeparator(v, PairSeparator);
    } else {
      if |k| >= 2 {
        assert !OccursAt(k, PairSeparator, 0);
        assert s[..2] == k[..2];
      } else {
        assert s[1] == ':';
      }
      assert s[..2] != PairSeparator;
      NotContainsTail(k, PairSeparator);
      SplitAroundPairSeparator(k[1..], v);
      assert s[1..] == k[1..] + PairSeparator + v;
      var rest := Split(s[1..], PairSeparator);
      assert rest == [k[1..], v];
      assert Split(s, PairSeparator) == [[s[0]] + rest[0]] + rest[1..];
      assert [s[0]] + k[1..] == k;
    }
  }

  /** `get_file_metadata(file_name, header, footer)`: strip the tags, join
      header and footer with `|`, read each segment as `key: value` into a
      dict, set `file_name` last, and return `[tuple(record.values())]`. */
  function GetFileMetadata(fileName: string, header: string, footer: string): (r: Result<seq<Tuple>>)
    ensures r.Ok? <==> forall i :: 0 <= i < |Segments(header, footer)| ==> IsPair(Segments(header, footer)[i])
    ensures r.Ok? ==> |r.value| == 1
    ensures r.Err? ==> r.error.MalformedField?
  {
    match ParsePairs(Segments(header, footer))
    case Err(e) => Err(e)
    case Ok(ps) => Ok([Values(Put(FromPairs(ps), FileNameKey, fileName))])
  }

  /** The pairs read from a well-formed header and footer. */
  function HeaderPairs(header: string, footer: string): seq<Pair>
    requires ParsePairs(Segments(header, footer)).Ok?
  {
    ParsePairs(Segments(header, footer)).value
  }

  /** What the returned tuple holds: one value per distinct key, in the
      order the keys first occur, each the LAST value given for that key;
      `file_name` is the last value unless a segment already used that key,
      in which case it takes that key's place. */
  lemma MetadataValues(fileName: string, header: string, footer: string)
    requires GetFileMetadata(fileName, header, footer).Ok?
    ensures var ps := HeaderPairs(header, footer);
      var d := FromPairs(ps);
      var t := GetFileMetadata(fileName, header, footer).value[0];
      (forall k :: k in Keys(d) <==> k in Keys(ps)) &&
      InFirstOccurrenceOrder(Keys(d), Keys(ps)) &&
      (forall i :: 0 <= i < |d| ==>
        Some(t[i]) == if d[i].0 == FileNameKey then Some(fileName) else LastValue(ps, d[i].0)) &&
      (FileNameKey !in Keys(ps) ==> |t| == |d| + 1 && Last(t) == fileName) &&
      (FileNameKey in Keys(ps) ==> |t| == |d|)
  {
    var ps := HeaderPairs(header, footer);
    var d := FromPairs(ps);
    FromPairsKeys(ps);
    FromPairsOrder(ps);
    forall i | 0 <= i < |d| ensures d[i].0 != FileNameKey ==> Some(d[i].1) == LastValue(ps, d[i].0) {
      LookupAt(d, i);
      FromPairsLookup(ps, d[i].0);
    }
  }

  /** The usual file: segments with distinct keys, none of them `file_name`,
      give their values in order followed by the file name. */
  lemma WellFormedMetadata(fileName: string, header: string, footer: string)
    requires GetFileMetadata(fileName, header, footer).Ok?
    requires DistinctKeys(HeaderPairs(header, footer))
    requires FileNameKey !in Keys(HeaderPairs(header, footer))
    ensures GetFileMetadata(fileName, header, footer).value[0] == Values(HeaderPairs(header, footer)) + [fileName]
  {
    var ps := HeaderPairs(header, footer);
    assert GetFileMetadata(fileName, header, footer) == Ok([Values(Put(FromPairs(ps), FileNameKey, fileName))]);
    PutNewKeyValues(ps, FileNameKey, fileName);
  }
}
