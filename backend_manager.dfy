/**
 * The backend's command processor.  Each call handles one command to
 * completion; what the outside world answers (whether the server accepts
 * the connection, the `SHOW TABLES` and `DESCRIBE` replies, what the CSV
 * reader delivers) is passed in.  `csvData` and `dbTableData` are the
 * state the user interface reads.
 */
module Backend {
  import opened Wrappers
  import Numbers
  import opened Schema
  import opened CsvHandler
  import Parser

  /** Every cell of column `col` that has a field can be validated without a panic. */
  ghost predicate ColumnParsable(g: Grid, col: nat) {
    forall r :: 0 <= r < |g| && col < |g[r]| && g[r][col].currFieldDescription.Some? ==> Parser.Parsable(g[r][col])
  }

  /** The cell at column `col` of `row` after `TryParseCol(col)`. */
  function ParseCellAt(row: seq<DataEntry>, col: nat): (r: seq<DataEntry>)
    requires col < |row| && row[col].currFieldDescription.Some? ==> Parser.Parsable(row[col])
    ensures |r| == |row|
    ensures forall k :: 0 <= k < |row| && k != col ==> r[k] == row[k]
    ensures col < |row| ==>
      r[col] == if row[col].currFieldDescription.Some? then Parser.Parse(row[col]) else row[col]
  {
    if col < |row| && row[col].currFieldDescription.Some? then row[col := Parser.Parse(row[col])] else row
  }

  /**
   * The grid after validating column `col`: the cells of that column that
   * have a field are validated, every other cell stays as it was.
   */
  function ParseColumn(g: Grid, col: nat): (r: Grid)
    requires ColumnParsable(g, col)
    ensures |r| == |g|
    ensures forall i :: 0 <= i < |g| ==> |r[i]| == |g[i]|
    ensures forall i, k :: 0 <= i < |g| && 0 <= k < |g[i]| && (k != col || g[i][k].currFieldDescription.None?) ==>
      r[i][k] == g[i][k]
    ensures forall i :: 0 <= i < |g| && col < |g[i]| && g[i][col].currFieldDescription.Some? ==>
      r[i][col] == Parser.Parse(g[i][col])
  {
    seq(|g|, i requires 0 <= i < |g| => ParseCellAt(g[i], col))
  }

  /** Validating a column keeps every cell's text and field, and it can be validated again. */
  lemma ParseColumnKeepsTextAndFields(g: Grid, col: nat)
    requires ColumnParsable(g, col)
    ensures var r := ParseColumn(g, col);
      && ColumnParsable(r, col)
      && (forall i, k :: 0 <= i < |g| && 0 <= k < |g[i]| ==>
            r[i][k].data == g[i][k].data && r[i][k].currFieldDescription == g[i][k].currFieldDescription)
  {
  }

  /** Validating the same column twice gives the same grid as validating it once. */
  lemma ParseColumnIdempotent(g: Grid, col: nat)
    requires ColumnParsable(g, col)
    ensures ColumnParsable(ParseColumn(g, col), col)
    ensures ParseColumn(ParseColumn(g, col), col) == ParseColumn(g, col)
  {
    var once := ParseColumn(g, col);
    ParseColumnKeepsTextAndFields(g, col);
    var twice := ParseColumn(once, col);
    forall i | 0 <= i < |g| ensures twice[i] == once[i] {
      if col < |g[i]| && g[i][col].currFieldDescription.Some? {
        Parser.ParseIdempotent(g[i][col]);
      }
    }
  }

  /** A command from the user interface. */
  datatype Communication =
    | ValidateCreditentials(login: DBLoginData)
    | AreCreditentialsValidated
    | LoadImportFilePath(path: string)
    | GetTableDescription(tableIndex: nat)
    | TryParseCol(colIndex: nat)

  /** What the database and the file system answer while a command runs. */
  datatype Environment = Environment(
    connects: bool,
    tableNames: seq<string>,
    reading: CsvReading,
    columns: seq<FieldDescription>)

  /** What the command sends back on its reply channel, if it has one. */
  datatype Reply =
    | NoReply
    | CredentialsReply(result: Result<(), LoginError>)
    | VerifiedReply(verified: bool)
    | LoadedReply(loaded: bool)

  class BackendManager {
    var dbLoginData: DBLoginData
    var importedData: ImportedData
    var csvData: ImportedData
    var dbConnection: Option<Connection>
    var dbTableData: Tables

    /** The private and the shared import are different objects, and the table list is valid. */
    ghost predicate Valid()
      reads this, dbTableData
    {
      importedData != csvData && dbTableData.Valid()
    }

    /** The manager as started: default credentials and import, no connection, sharing `csvData` and `dbTableData`. */
    constructor (csvData: ImportedData, dbTableData: Tables)
      requires dbTableData.Valid()
      ensures Valid()
      ensures this.csvData == csvData && this.dbTableData == dbTableData && dbConnection.None?
      ensures fresh(importedData) && importedData.data == [] && importedData.path == "" && !importedData.areHeaders
      ensures fresh(dbLoginData) && !dbLoginData.isVerified && !dbLoginData.shouldRemember
      ensures dbLoginData.userName == "" && dbLoginData.database == "" && dbLoginData.host == ""
      ensures dbLoginData.port == "" && dbLoginData.password == ""
    {
      dbLoginData := new DBLoginData("", "", "", "", "", false);
      importedData := new ImportedData();
      this.csvData := csvData;
      dbConnection := None;
      this.dbTableData := dbTableData;
    }

    /**
     * Adopts `login` as the credentials and validates them.  On success the
     * connection is kept and the tables of `SHOW TABLES` (`tableNames`)
     * are appended to the shared table list; on failure neither changes.
     */
    method ValidateCreditentials(login: DBLoginData, connects: bool, tableNames: seq<string>)
      returns (reply: Result<(), LoginError>)
      requires Valid()
      modifies this, login, dbTableData
      ensures Valid()
      ensures dbLoginData == login
      ensures importedData == old(importedData) && csvData == old(csvData) && dbTableData == old(dbTableData)
      ensures login.port == old(login.port) && login.host == old(login.host)
      ensures login.userName == old(login.userName) && login.database == old(login.database)
      ensures login.password == old(login.password) && login.shouldRemember == old(login.shouldRemember)
      ensures reply.Success? <==> Numbers.ParseU16(login.port).Some? && connects
      ensures Numbers.ParseU16(login.port).Some? ==> login.isVerified == connects
      ensures Numbers.ParseU16(login.port).None? ==> login.isVerified == old(login.isVerified) && reply == Failure(PortNotANumber)
      ensures Numbers.ParseU16(login.port).Some? && !connects ==> reply == Failure(ConnectFailed)
      ensures reply.Success? ==>
        && dbConnection == Some(Connection(login.host, Numbers.ParseU16(login.port).value as nat, login.userName, login.database))
        && |dbTableData.tables| == |old(dbTableData.tables)| + |tableNames|
        && dbTableData.tables[..|old(dbTableData.tables)|] == old(dbTableData.tables)
        && (forall k :: |old(dbTableData.tables)| <= k < |dbTableData.tables| ==> fresh(dbTableData.tables[k]))
        && (forall k :: |old(dbTableData.tables)| <= k < |dbTableData.tables| ==>
              dbTableData.tables[k].name == tableNames[k - |old(dbTableData.tables)|]
              && dbTableData.tables[k].fields.None?)
      ensures reply.Failure? ==> dbConnection == old(dbConnection) && dbTableData.tables == old(dbTableData.tables)
    {
      dbLoginData := login;
      var result := dbLoginData.ValidateCreditentials(connects);
      match result
      case Success(connection) =>
        dbConnection := Some(connection);
        reply := Success(());
        var _ := dbTableData.QueryForTables(tableNames);
      case Failure(e) =>
        reply := Failure(e);
    }

    /** Answers whether the current credentials are verified; nothing changes. */
    method AreCreditentialsValidated() returns (verified: bool)
      ensures verified <==> dbLoginData.isVerified
    {
      verified := dbLoginData.isVerified;
    }

    /**
     * Sets the import path and loads the file there (the reader delivers
     * `reading`).  Only a successful load is copied into the shared
     * import; the reply says whether the load succeeded.
     */
    method LoadImportFilePath(path: string, reading: CsvReading) returns (loaded: bool)
      requires Valid()
      modifies importedData, csvData
      ensures Valid()
      ensures importedData.path == path
      ensures loaded <==> reading.Opened?
      ensures loaded ==>
        && importedData.areHeaders == reading.headers.Some?
        && importedData.data == LoadedGrid(old(importedData.data), reading.headers, reading.records)
        && csvData.data == importedData.data && csvData.path == path && csvData.areHeaders == importedData.areHeaders
      ensures !loaded ==>
        && importedData.data == old(importedData.data) && importedData.areHeaders == old(importedData.areHeaders)
        && unchanged(csvData)
    {
      importedData.path := path;
      var result := importedData.LoadCsv(reading);
      if result.Success? {
        csvData.areHeaders := importedData.areHeaders;
        csvData.data := importedData.data;
        csvData.path := importedData.path;
        loaded := true;
      } else {
        loaded := false;
      }
    }

    /** Describes table `tableIndex` with the `DESCRIBE` reply `columns`; no other table changes. */
    method GetTableDescription(tableIndex: nat, columns: seq<FieldDescription>)
      requires Valid()
      requires tableIndex < |dbTableData.tables| && dbConnection.Some?
      modifies dbTableData.tables[tableIndex]
      ensures Valid()
      ensures var t := dbTableData.tables[tableIndex];
        t.name == old(t.name) && t.fields == Some(FieldsOrEmpty(old(t.fields)) + Unmapped(columns))
      ensures forall j :: 0 <= j < |dbTableData.tables| && j != tableIndex ==>
        var t := dbTableData.tables[j];
        t.name == old(t.name) && t.fields == old(t.fields)
    {
      dbTableData.tables[tableIndex].DescribeTable(columns);
    }

    /** Validates, in place, every cell of column `colIndex` of the shared grid that has a field. */
    method TryParseCol(colIndex: nat)
      requires Valid()
      requires ColumnParsable(csvData.data, colIndex)
      modifies csvData
      ensures Valid()
      ensures csvData.data == ParseColumn(old(csvData.data), colIndex)
      ensures csvData.path == old(csvData.path) && csvData.areHeaders == old(csvData.areHeaders)
    {
      ghost var before := csvData.data;
      var r := 0;
      while r < |csvData.data|
        invariant 0 <= r <= |csvData.data| == |before|
        invariant ColumnParsable(before, colIndex)
        invariant forall i :: 0 <= i < r ==> csvData.data[i] == ParseCellAt(before[i], colIndex)
        invariant forall i :: r <= i < |before| ==> csvData.data[i] == before[i]
        invariant csvData.path == old(csvData.path) && csvData.areHeaders == old(csvData.areHeaders)
      {
        var row := csvData.data[r];
        assert row == before[r];
        if colIndex < |row| && row[colIndex].currFieldDescription.Some? {
          var cell := Parser.Parse(row[colIndex]);
          csvData.data := csvData.data[r := row[colIndex := cell]];
        }
        assert csvData.data[r] == ParseCellAt(before[r], colIndex);
        r := r + 1;
      }
      assert csvData.data == ParseColumn(before, colIndex);
    }

    /**
     * Handles one command, if the channel delivered one (`None`: the
     * channel is closed and nothing happens), answering on its reply
     * channel where it has one.
     */
    method Listen(command: Option<Communication>, env: Environment) returns (reply: Reply)
      requires Valid()
      requires command.Some? && command.value.GetTableDescription? ==>
        command.value.tableIndex < |dbTableData.tables| && dbConnection.Some?
      requires command.Some? && command.value.TryParseCol? ==> ColumnParsable(csvData.data, command.value.colIndex)
      modifies if command.Some? && command.value.ValidateCreditentials? then {this, dbTableData, command.value.login} else {}
      modifies if command.Some? && command.value.LoadImportFilePath? then {importedData, csvData} else {}
      modifies if command.Some? && command.value.GetTableDescription? && command.value.tableIndex < |dbTableData.tables|
        then {dbTableData.tables[command.value.tableIndex]} else {}
      modifies if command.Some? && command.value.TryParseCol? then {csvData} else {}
      ensures Valid()
      ensures importedData == old(importedData) && csvData == old(csvData) && dbTableData == old(dbTableData)
      ensures command.None? ==>
        && reply == NoReply
        && unchanged(this, dbLoginData, dbTableData, importedData, csvData)
        && (forall j :: 0 <= j < |dbTableData.tables| ==> unchanged(dbTableData.tables[j]))
      ensures command.Some? && command.value.AreCreditentialsValidated? ==>
        && reply == VerifiedReply(old(dbLoginData.isVerified))
        && unchanged(this, dbLoginData, dbTableData, importedData, csvData)
        && (forall j :: 0 <= j < |dbTableData.tables| ==> unchanged(dbTableData.tables[j]))
      ensures command.Some? && command.value.ValidateCreditentials? ==>
        var login := command.value.login;
        var port := Numbers.ParseU16(login.port);
        && reply.CredentialsReply?
        && dbLoginData == login
        && login.port == old(login.port) && login.host == old(login.host)
        && login.userName == old(login.userName) && login.database == old(login.database)
        && login.password == old(login.password) && login.shouldRemember == old(login.shouldRemember)
        && (reply.result.Success? <==> port.Some? && env.connects)
        && (port.Some? ==> login.isVerified == env.connects)
        && (port.None? ==> reply.result == Failure(PortNotANumber) && login.isVerified == old(login.isVerified))
        && (port.Some? && !env.connects ==> reply.result == Failure(ConnectFailed))
        && (reply.result.Success? ==>
              && dbConnection == Some(Connection(login.host, port.value as nat, login.userName, login.database))
              && |dbTableData.tables| == |old(dbTableData.tables)| + |env.tableNames|
              && dbTableData.tables[..|old(dbTableData.tables)|] == old(dbTableData.tables)
              && (forall k :: |old(dbTableData.tables)| <= k < |dbTableData.tables| ==> fresh(dbTableData.tables[k]))
              && (forall k :: |old(dbTableData.tables)| <= k < |dbTableData.tables| ==>
                    dbTableData.tables[k].name == env.tableNames[k - |old(dbTableData.tables)|]
                    && dbTableData.tables[k].fields.None?))
        && (reply.result.Failure? ==> dbConnection == old(dbConnection) && dbTableData.tables == old(dbTableData.tables))
        && (forall j :: 0 <= j < |old(dbTableData.tables)| ==> unchanged(old(dbTableData.tables)[j]))
        && unchanged(importedData, csvData)
      ensures command.Some? && command.value.LoadImportFilePath? ==>
        && reply == LoadedReply(env.reading.Opened?)
        && importedData.path == command.value.path
        && (env.reading.Opened? ==>
              && importedData.areHeaders == env.reading.headers.Some?
              && importedData.data == LoadedGrid(old(importedData.data), env.reading.headers, env.reading.records)
              && csvData.data == importedData.data && csvData.path == command.value.path
              && csvData.areHeaders == importedData.areHeaders)
        && (env.reading.CannotOpen? ==>
              && importedData.data == old(importedData.data) && importedData.areHeaders == old(importedData.areHeaders)
              && unchanged(csvData))
        && unchanged(this, dbLoginData, dbTableData)
        && (forall j :: 0 <= j < |dbTableData.tables| ==> unchanged(dbTableData.tables[j]))
      ensures command.Some? && command.value.GetTableDescription? ==>
        var i := command.value.tableIndex;
        && reply == NoReply
        && dbTableData.tables[i].name == old(dbTableData.tables[i].name)
        && dbTableData.tables[i].fields == Some(FieldsOrEmpty(old(dbTableData.tables[i].fields)) + Unmapped(env.columns))
        && (forall j :: 0 <= j < |dbTableData.tables| && j != i ==> unchanged(dbTableData.tables[j]))
        && unchanged(this, dbLoginData, dbTableData, importedData, csvData)
      ensures command.Some? && command.value.TryParseCol? ==>
        && reply == NoReply
        && csvData.data == ParseColumn(old(csvData.data), command.value.colIndex)
        && csvData.path == old(csvData.path) && csvData.areHeaders == old(csvData.areHeaders)
        && unchanged(this, dbLoginData, dbTableData, importedData)
        && (forall j :: 0 <= j < |dbTableData.tables| ==> unchanged(dbTableData.tables[j]))
    {
      if command.None? {
        return NoReply;
      }
      match command.value
      case ValidateCreditentials(login) =>
        var result := ValidateCreditentials(login, env.connects, env.tableNames);
        reply := CredentialsReply(result);
      case AreCreditentialsValidated =>
        var verified := AreCreditentialsValidated();
        reply := VerifiedReply(verified);
      case LoadImportFilePath(path) =>
        var loaded := LoadImportFilePath(path, env.reading);
        reply := LoadedReply(loaded);
      case GetTableDescription(i) =>
        GetTableDescription(i, env.columns);
        reply := NoReply;
      case TryParseCol(c) =>
        TryParseCol(c);
        reply := NoReply;
    }
  }
}
