/**
 * The imported data set: a row-major grid of cells built from what the
 * CSV reader delivers.  The reader itself is outside the model; its
 * output for the file at `path` is the `CsvReading` passed to `LoadCsv`.
 */
module CsvHandler {
  import opened Wrappers
  import Schema

  /** Why a cell failed validation; the validator's `Message` gives the text it stores. */
  datatype CellError =
    | UnknownType(typeName: string)
    | TooLong
    | TooManyNumbers
    | NotANumber
    | NumberTooBig
    | InvalidDate

  /** The outcome of validating one cell. */
  datatype ParseOutcome = Parsed | Failed(error: CellError)

  /** One cell: its raw text, the field it is assigned to, and its last validation outcome. */
  datatype DataEntry = DataEntry(
    data: string,
    currFieldDescription: Option<Schema.FieldDescription>,
    isParsed: Option<ParseOutcome>)

  /** A cell as the loader creates it: only text, no field and no outcome. */
  function NewEntry(text: string): (e: DataEntry)
    ensures e.data == text && e.currFieldDescription.None? && e.isParsed.None?
  {
    DataEntry(text, None, None)
  }

  type Grid = seq<seq<DataEntry>>

  /** What the CSV reader delivers: it could not open the file, or a header record (if readable) and every record, read or failed. */
  datatype CsvReading =
    | CannotOpen
    | Opened(headers: Option<seq<string>>, records: seq<Option<seq<string>>>)

  datatype ImportError = CannotOpenFile

  /** The row of new cells holding `fields`, in order. */
  function EntryRow(fields: seq<string>): (row: seq<DataEntry>)
    ensures |row| == |fields|
    ensures forall k :: 0 <= k < |row| ==> row[k] == NewEntry(fields[k])
  {
    seq(|fields|, k requires 0 <= k < |fields| => NewEntry(fields[k]))
  }

  /** The records that were read, in input order; failed ones are skipped. */
  function ReadRecords(records: seq<Option<seq<string>>>): (r: seq<seq<string>>)
    ensures |r| <= |records|
  {
    if |records| == 0 then []
    else
      var front := ReadRecords(records[..|records| - 1]);
      match records[|records| - 1]
      case None => front
      case Some(fields) => front + [fields]
  }

  /** The number of records that were read. */
  function CountRead(records: seq<Option<seq<string>>>): nat {
    if |records| == 0 then 0
    else CountRead(records[..|records| - 1]) + (if records[|records| - 1].Some? then 1 else 0)
  }

  /** The grid `LoadCsv` leaves when the file opens, starting from the grid `before`. */
  function LoadedGrid(before: Grid, headers: Option<seq<string>>, records: seq<Option<seq<string>>>): (g: Grid)
    ensures |g| == (if headers.Some? then 1 else |before| + 1) + CountRead(records)
    ensures var kept := ReadRecords(records);
      |kept| <= |g| && forall k :: 0 <= k < |kept| ==> g[|g| - |kept| + k] == EntryRow(kept[k])
  {
    ReadRecordsCount(records);
    var base := match headers
      case Some(h) => [EntryRow(h)]
      case None => before + [[]];
    base + seq(|ReadRecords(records)|, k requires 0 <= k < |ReadRecords(records)| => EntryRow(ReadRecords(records)[k]))
  }

  /** The records kept are exactly as many as the records read. */
  lemma {:induction false} ReadRecordsCount(records: seq<Option<seq<string>>>)
    ensures |ReadRecords(records)| == CountRead(records)
  {
    if |records| > 0 {
      ReadRecordsCount(records[..|records| - 1]);
    }
  }

  /** When no record fails, every record is kept, in order. */
  lemma {:induction false} ReadRecordsAllRead(records: seq<Option<seq<string>>>)
    requires forall k :: 0 <= k < |records| ==> records[k].Some?
    ensures |ReadRecords(records)| == |records|
    ensures forall k :: 0 <= k < |records| ==> ReadRecords(records)[k] == records[k].value
  {
    if |records| > 0 {
      ReadRecordsAllRead(records[..|records| - 1]);
    }
  }

  /** A failed record adds nothing; a read one adds itself at the end. */
  lemma ReadRecordsSnoc(records: seq<Option<seq<string>>>, next: Option<seq<string>>)
    ensures ReadRecords(records + [next]) ==
      ReadRecords(records) + (if next.Some? then [next.value] else [])
  {
  }

  /**
   * With a header record, the grid is the header row followed by one row
   * per record read: one more row than records read, every cell new.
   */
  lemma {:induction false} LoadedGridWithHeaders(before: Grid, h: seq<string>, records: seq<Option<seq<string>>>)
    ensures var g := LoadedGrid(before, Some(h), records);
      && |g| == 1 + CountRead(records)
      && g[0] == EntryRow(h)
      && (forall r, k :: 0 <= r < |g| && 0 <= k < |g[r]| ==>
            g[r][k].currFieldDescription.None? && g[r][k].isParsed.None?)
  {
    ReadRecordsCount(records);
  }

  /** Without a header record, the old grid stays, followed by an empty row and the records read. */
  lemma {:induction false} LoadedGridWithoutHeaders(before: Grid, records: seq<Option<seq<string>>>)
    ensures var g := LoadedGrid(before, None, records);
      && |g| == |before| + 1 + CountRead(records)
      && g[..|before|] == before
      && g[|before|] == []
  {
    ReadRecordsCount(records);
  }

  class ImportedData {
    var data: Grid
    var path: string
    var areHeaders: bool

    /** The default: an empty grid, an empty path, no headers. */
    constructor ()
      ensures data == [] && path == "" && !areHeaders
    {
      data := [];
      path := "";
      areHeaders := false;
    }

    /**
     * Builds the grid from the reader's output for `path`.  If the file
     * cannot be opened nothing changes.  A readable header record replaces
     * the grid with a single header row; otherwise an empty row is pushed
     * onto the existing grid.  Each record read then becomes one row.
     */
    method LoadCsv(reading: CsvReading) returns (r: Result<(), ImportError>)
      modifies this
      ensures path == old(path)
      ensures reading.CannotOpen? ==>
        r == Failure(CannotOpenFile) && data == old(data) && areHeaders == old(areHeaders)
      ensures reading.Opened? ==>
        && r == Success(())
        && areHeaders == reading.headers.Some?
        && data == LoadedGrid(old(data), reading.headers, reading.records)
    {
      if reading.CannotOpen? {
        return Failure(CannotOpenFile);
      }
      if reading.headers.Some? {
        data := [];
        var row := MakeRow(reading.headers.value);
        data := data + [row];
        areHeaders := true;
      } else {
        data := data + [[]];
        areHeaders := false;
      }
      ghost var base := data;
      var records := reading.records;
      var i := 0;
      while i < |records|
        invariant 0 <= i <= |records|
        invariant path == old(path) && areHeaders == reading.headers.Some?
        invariant data == base + seq(|ReadRecords(records[..i])|,
          k requires 0 <= k < |ReadRecords(records[..i])| => EntryRow(ReadRecords(records[..i])[k]))
      {
        ReadRecordsSnoc(records[..i], records[i]);
        assert records[..i + 1] == records[..i] + [records[i]];
        if records[i].Some? {
          var row := MakeRow(records[i].value);
          data := data + [row];
        }
        i := i + 1;
      }
      assert records[..i] == records;
      r := Success(());
    }
  }

  /** The row of new cells for `fields`, built one cell at a time. */
  method MakeRow(fields: seq<string>) returns (row: seq<DataEntry>)
    ensures row == EntryRow(fields)
  {
    row := [];
    var i := 0;
    while i < |fields|
      invariant 0 <= i <= |fields|
      invariant row == EntryRow(fields[..i])
    {
      row := row + [NewEntry(fields[i])];
      i := i + 1;
    }
    assert fields[..i] == fields;
  }
}
