/** `check_file_integrity` (gs_files_to_gcs.py): the structural checks on a
    local report file before it is staged. */
module Integrity {
  import opened Common
  import opened Text
  import opened Records
  import opened Metadata

  /** The local file share: each existing path with the lines that
      `f.read().splitlines()` yields for it. */
  type FileSystem = map<string, seq<string>>

  const TrailerToken := "TRAILER"
  const RecordCountKey := "Record Count"
  /** Lines that are not records: the header, the footer and one more
      structural line of this format. */
  const FramingLines := 3

  /** `lines[-1].split("|")`. */
  function FooterFields(lines: seq<string>): seq<string>
    requires |lines| > 0
  {
    Split(Last(lines), FieldSeparator)
  }

  /** `footer_dict` after reading every footer field as `k, v = f.split(": ")`:
      a dict exactly when every field is one `key: value`. */
  function FooterDict(fields: seq<string>): (r: Result<seq<Pair>>)
    ensures r.Ok? <==> forall i :: 0 <= i < |fields| ==> IsPair(fields[i])
    ensures r.Ok? ==> DistinctKeys(r.value)
    ensures r.Err? ==> r.error.MalformedField?
  {
    match ParsePairs(fields)
    case Err(e) => Err(e)
    case Ok(ps) => Ok(FromPairs(ps))
  }

  /** Reading one more field: a pair is stored, anything else raises. */
  lemma FooterDictSnoc(fields: seq<string>, x: string)
    requires FooterDict(fields).Ok?
    ensures var parts := Split(x, PairSeparator);
      FooterDict(fields + [x]) ==
        if |parts| == 2 then Ok(Put(FooterDict(fields).value, parts[0], parts[1]))
        else Err(MalformedField(x))
  {
    var all := fields + [x];
    assert all[..|all| - 1] == fields;
    if IsPair(x) {
      var ps := ParsePairs(all).value;
      assert ps[..|ps| - 1] == ParsePairs(fields).value;
    }
  }

  lemma FooterDictErrExtends(fields: seq<string>, more: seq<string>)
    requires FooterDict(fields).Err?
    ensures FooterDict(fields + more) == FooterDict(fields)
  {
    ParsePairsErrExtends(fields, more);
  }

  /** What `check_file_integrity(path)` returns or raises, checking in order:
      the path exists, the file has a last line, that line's first `|` field
      is `TRAILER`, every further footer field is one `key: value`, the
      footer has a `Record Count`, `int()` accepts it, and it equals the
      number of lines minus three. */
  function FileIntegrity(path: string, fs: FileSystem): (r: Result<seq<Tuple>>)
    ensures path !in fs ==> r == Err(MissingFile(LastComponent(path)))
    ensures r.Ok? ==> (path in fs && |fs[path]| > 0 &&
      r == GetFileMetadata(LastComponent(path), fs[path][0], Last(fs[path])))
  {
    var file := LastComponent(path);
    if path !in fs then Err(MissingFile(file))
    else
      var lines := fs[path];
      if |lines| == 0 then Err(EmptyFile(file))
      else
        var footer := FooterFields(lines);
        if footer[0] != TrailerToken then Err(MissingFooter(file))
        else
          match FooterDict(footer[1..])
          case Err(e) => Err(e)
          case Ok(footerDict) =>
            match Lookup(footerDict, RecordCountKey)
            case None => Err(MissingRecordCount(file))
            case Some(text) =>
              match ParseInt(text)
              case None => Err(BadRecordCount(text))
              case Some(expected) =>
                var counted := |lines| - FramingLines;
                if expected != counted then Err(RecordCountMismatch(counted, expected))
                else GetFileMetadata(file, lines[0], Last(lines))
  }

  /** A file whose last line does not start with the field `TRAILER` fails
      with a missing-footer error. */
  lemma MissingFooterFails(path: string, fs: FileSystem)
    requires path in fs && |fs[path]| > 0 && FooterFields(fs[path])[0] != TrailerToken
    ensures FileIntegrity(path, fs) == Err(MissingFooter(LastComponent(path)))
  {
  }

  /** A footer field after `TRAILER` that is not one `key: value` makes the
      check raise, naming the first such field. */
  lemma MalformedFooterFails(path: string, fs: FileSystem, i: nat)
    requires path in fs && |fs[path]| > 0
    requires var footer := FooterFields(fs[path]);
      footer[0] == TrailerToken && 1 <= i < |footer| && !IsPair(footer[i]) &&
      forall j :: 1 <= j < i ==> IsPair(footer[j])
    ensures FileIntegrity(path, fs) == Err(MalformedField(FooterFields(fs[path])[i]))
  {
    var footer := FooterFields(fs[path]);
    var items := footer[1..];
    assert items[..i] == footer[1..i + 1];
    assert forall j :: 0 <= j < i - 1 ==> items[..i][j] == footer[j + 1];
    ParsePairsErrExtends(items[..i], items[i..]);
    assert items[..i] + items[i..] == items;
  }

  /** A well-formed footer without a `Record Count` key fails with a
      missing-count error. */
  lemma MissingRecordCountFails(path: string, fs: FileSystem)
    requires path in fs && |fs[path]| > 0
    requires var footer := FooterFields(fs[path]);
      footer[0] == TrailerToken && ParsePairs(footer[1..]).Ok? &&
      RecordCountKey !in Keys(ParsePairs(footer[1..]).value)
    ensures FileIntegrity(path, fs) == Err(MissingRecordCount(LastComponent(path)))
  {
    FromPairsKeys(ParsePairs(FooterFields(fs[path])[1..]).value);
  }

  /** The record-count rule: when the footer's (last) `Record Count` reads
      as `n`, a file of `n + 3` lines passes on to metadata extraction and
      any other length fails with a count mismatch. */
  lemma RecordCountRule(path: string, fs: FileSystem, n: int)
    requires path in fs && |fs[path]| > 0
    requires var footer := FooterFields(fs[path]);
      footer[0] == TrailerToken && ParsePairs(footer[1..]).Ok? &&
      exists text :: LastValue(ParsePairs(footer[1..]).value, RecordCountKey) == Some(text) &&
        ParseInt(text) == Some(n)
    ensures var lines := fs[path];
      FileIntegrity(path, fs) ==
        if |lines| == n + FramingLines then GetFileMetadata(LastComponent(path), lines[0], Last(lines))
        else Err(RecordCountMismatch(|lines| - FramingLines, n))
  {
    FromPairsLookup(ParsePairs(FooterFields(fs[path])[1..]).value, RecordCountKey);
  }

  /** The loop of `check_file_integrity` that fills `footer_dict`: each
      field is unpacked as `k, v = f.split(": ")`, raising on any other
      number of parts, and stored with `footer_dict.update({k: v})`. */
  method ReadFooterDict(fields: seq<string>) returns (r: Result<seq<Pair>>)
    ensures r == FooterDict(fields)
  {
    var footerDict: seq<Pair> := [];
    var i := 0;
    while i < |fields|
      invariant 0 <= i <= |fields|
      invariant FooterDict(fields[..i]) == Ok(footerDict)
    {
      var parts := Split(fields[i], PairSeparator);
      assert fields[..i + 1] == fields[..i] + [fields[i]];
      FooterDictSnoc(fields[..i], fields[i]);
      if |parts| != 2 {
        FooterDictErrExtends(fields[..i + 1], fields[i + 1..]);
        assert fields[..i + 1] + fields[i + 1..] == fields;
        return Err(MalformedField(fields[i]));
      }
      footerDict := Put(footerDict, parts[0], parts[1]);
      i := i + 1;
    }
    assert fields[..i] == fields;
    return Ok(footerDict);
  }

  /** `check_file_integrity` as the source runs it. */
  method CheckFileIntegrity(path: string, fs: FileSystem) returns (r: Result<seq<Tuple>>)
    ensures r == FileIntegrity(path, fs)
  {
    var file := LastComponent(path);
    if path !in fs {
      return Err(MissingFile(file));
    }
    var lines := fs[path];
    if |lines| == 0 {
      return Err(EmptyFile(file));
    }
    var footer := Split(lines[|lines| - 1], FieldSeparator);
    if footer[0] != TrailerToken {
      return Err(MissingFooter(file));
    }
    var footerDict := ReadFooterDict(footer[1..]);
    if footerDict.Err? {
      return Err(footerDict.error);
    }
    match Lookup(footerDict.value, RecordCountKey)
    case None =>
      return Err(MissingRecordCount(file));
    case Some(text) =>
      match ParseInt(text)
      case None =>
        return Err(BadRecordCount(text));
      case Some(expected) =>
        var counted := |lines| - FramingLines;
        if expected != counted {
          return Err(RecordCountMismatch(counted, expected));
        }
        r := GetFileMetadata(file, lines[0], lines[|lines| - 1]);
  }
}
