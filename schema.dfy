/**
 * The schema catalog and the login data of the database handler: the
 * tables listed by `SHOW TABLES`, the fields listed by `DESCRIBE`, and the
 * credentials with their verified flag.  What the database answers is
 * given to each operation as an input.
 */
module Schema {
  import opened Wrappers
  import Numbers

  /** One row of `DESCRIBE <table>`. */
  datatype FieldDescription = FieldDescription(
    field: string,
    fieldType: string,
    nullable: string,
    key: string,
    defaultValue: Option<string>,
    extra: string)

  /** A field of a target table and the grid column it is mapped to, if any. */
  datatype TableField = TableField(description: FieldDescription, mappedToCol: Option<nat>)

  /** The fields `describe_table` adds for the columns of one `DESCRIBE` reply. */
  function Unmapped(columns: seq<FieldDescription>): (r: seq<TableField>)
    ensures |r| == |columns|
    ensures forall k :: 0 <= k < |r| ==> r[k].description == columns[k] && r[k].mappedToCol.None?
  {
    seq(|columns|, k requires 0 <= k < |columns| => TableField(columns[k], None))
  }

  /** The field list before appending: `None` counts as empty. */
  function FieldsOrEmpty(fields: Option<seq<TableField>>): seq<TableField> {
    match fields
    case None => []
    case Some(fs) => fs
  }

  class Table {
    var name: string
    var fields: Option<seq<TableField>>

    /** A table as listed by `SHOW TABLES`: a name and no fields yet. */
    constructor (name: string)
      ensures this.name == name && fields.None?
    {
      this.name := name;
      fields := None;
    }

    /**
     * Appends one unmapped field per column of the `DESCRIBE` reply
     * `columns`, after the fields already there.  Nothing stops a second
     * call from appending the same columns again.
     */
    method DescribeTable(columns: seq<FieldDescription>)
      modifies this
      ensures name == old(name)
      ensures fields == Some(FieldsOrEmpty(old(fields)) + Unmapped(columns))
    {
      ghost var start := FieldsOrEmpty(fields);
      if fields.None? {
        fields := Some([]);
      }
      var i := 0;
      assert start + Unmapped(columns[..0]) == start;
      while i < |columns|
        invariant 0 <= i <= |columns|
        invariant name == old(name)
        invariant fields == Some(start + Unmapped(columns[..i]))
      {
        assert Unmapped(columns[..i + 1]) == Unmapped(columns[..i]) + [TableField(columns[i], None)];
        fields := Some(fields.value + [TableField(columns[i], None)]);
        assert fields.value == start + Unmapped(columns[..i + 1]);
        i := i + 1;
      }
      assert columns[..i] == columns;
    }
  }

  /**
   * Describing a table twice with the same reply: as nothing guards
   * against it, every column ends up listed twice, once in each copy.
   */
  method DescribeTwice(t: Table, columns: seq<FieldDescription>)
    modifies t
    ensures t.name == old(t.name)
    ensures t.fields == Some(FieldsOrEmpty(old(t.fields)) + Unmapped(columns) + Unmapped(columns))
    ensures var n := |FieldsOrEmpty(old(t.fields))|;
      && |t.fields.value| == n + 2 * |columns|
      && forall k :: 0 <= k < |columns| ==>
           t.fields.value[n + k].description == columns[k]
           && t.fields.value[n + |columns| + k].description == columns[k]
  {
    ghost var before := FieldsOrEmpty(t.fields);
    t.DescribeTable(columns);
    t.DescribeTable(columns);
    assert t.fields.value == before + Unmapped(columns) + Unmapped(columns);
  }

  class Tables {
    var tables: seq<Table>

    /** Every listed table is its own object, so describing one leaves the others alone. */
    ghost predicate Valid()
      reads this
    {
      forall i, j :: 0 <= i < j < |tables| ==> tables[i] != tables[j]
    }

    constructor ()
      ensures Valid() && tables == []
    {
      tables := [];
    }

    /**
     * Appends one name-only table per row of the `SHOW TABLES` reply
     * `names`, in reply order, after the tables already listed.
     */
    method QueryForTables(names: seq<string>) returns (r: Result<(), string>)
      requires Valid()
      modifies this
      ensures Valid() && r.Success?
      ensures |tables| == |old(tables)| + |names|
      ensures tables[..|old(tables)|] == old(tables)
      ensures forall k :: |old(tables)| <= k < |tables| ==> fresh(tables[k])
      ensures forall k :: |old(tables)| <= k < |tables| ==>
        tables[k].name == names[k - |old(tables)|] && tables[k].fields.None?
    {
      ghost var before := tables;
      var i := 0;
      while i < |names|
        invariant 0 <= i <= |names|
        invariant Valid()
        invariant |tables| == |before| + i && tables[..|before|] == before
        invariant forall k :: |before| <= k < |tables| ==> fresh(tables[k])
        invariant forall k :: |before| <= k < |tables| ==>
          tables[k].name == names[k - |before|] && tables[k].fields.None?
      {
        var t := new Table(names[i]);
        tables := tables + [t];
        i := i + 1;
      }
      r := Success(());
    }
  }

  /** The live connection, standing for the driver's connection object. */
  datatype Connection = Connection(host: string, port: nat, userName: string, database: string)

  datatype LoginError = PortNotANumber | ConnectFailed

  class DBLoginData {
    var userName: string
    var database: string
    var host: string
    var port: string
    var password: string
    var shouldRemember: bool
    var isVerified: bool

    /** The credentials as entered, not yet verified. */
    constructor (userName: string, database: string, host: string, port: string, password: string, shouldRemember: bool)
      ensures this.userName == userName && this.database == database && this.host == host
      ensures this.port == port && this.password == password && this.shouldRemember == shouldRemember
      ensures !isVerified
    {
      this.userName := userName;
      this.database := database;
      this.host := host;
      this.port := port;
      this.password := password;
      this.shouldRemember := shouldRemember;
      isVerified := false;
    }

    /**
     * Parses the port as a `u16`, then connects; `connects` is whether the
     * server accepted the connection.  A port that is not a `u16` fails
     * before connecting and leaves the verified flag as it was.
     */
    method ValidateCreditentials(connects: bool) returns (r: Result<Connection, LoginError>)
      modifies this
      ensures userName == old(userName) && database == old(database) && host == old(host)
      ensures port == old(port) && password == old(password) && shouldRemember == old(shouldRemember)
      ensures Numbers.ParseU16(port).None? ==> r == Failure(PortNotANumber) && isVerified == old(isVerified)
      ensures Numbers.ParseU16(port).Some? ==> isVerified == connects
      ensures Numbers.ParseU16(port).Some? && connects ==>
        r == Success(Connection(host, Numbers.ParseU16(port).value as nat, userName, database))
      ensures Numbers.ParseU16(port).Some? && !connects ==> r == Failure(ConnectFailed)
    {
      var parsed := Numbers.ParseU16(port);
      if parsed.None? {
        return Failure(PortNotANumber);
      }
      if connects {
        isVerified := true;
        r := Success(Connection(host, parsed.value as nat, userName, database));
      } else {
        isVerified := false;
        r := Failure(ConnectFailed);
      }
    }
  }
}
