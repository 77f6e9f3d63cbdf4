/** The in-memory store of database.hpp: Table objects, whose columns and rows addColumn, addRow
    and the UPDATE command change in place, and the Database object that owns them. Each method
    is specified by a function over TableData values; what those functions keep (one cell per
    column, unique primary keys, distinct table names) is proved about the functions. */
module Store {
  import opened Wrappers
  import opened Text
  import opened Schema
  import opened Codec

  // ================================================================ tables as values

  /** The table addColumn leaves: the column appended to the schema and its default value
      appended to every row. */
  function WithColumn(t: TableData, c: Column): (u: TableData)
    ensures u.name == t.name && u.columns == t.columns + [c] && |u.rows| == |t.rows|
    ensures forall k :: 0 <= k < |t.rows| ==> u.rows[k].values == t.rows[k].values + [DefaultValue(c.dtype)]
  {
    TableData(t.name, t.columns + [c],
      seq(|t.rows|, k requires 0 <= k < |t.rows| => Row(t.rows[k].values + [DefaultValue(c.dtype)])))
  }

  /** addColumn keeps a table rectangular and well typed, and keeps every cell it had. */
  lemma WithColumnKeepsShape(t: TableData, c: Column)
    ensures var u := WithColumn(t, c);
      u.name == t.name && |u.rows| == |t.rows| &&
      (forall k :: 0 <= k < |t.rows| ==>
        |u.rows[k].values| == |t.rows[k].values| + 1 &&
        u.rows[k].values[..|t.rows[k].values|] == t.rows[k].values &&
        u.rows[k].values[|t.rows[k].values|] == DefaultValue(c.dtype)) &&
      (Rectangular(t) ==> Rectangular(u)) &&
      (WellTyped(t) ==> WellTyped(u))
  {
    var u := WithColumn(t, c);
    forall k | 0 <= k < |t.rows|
      ensures u.rows[k].values[..|t.rows[k].values|] == t.rows[k].values
    {
      assert u.rows[k].values == t.rows[k].values + [DefaultValue(c.dtype)];
    }
    if WellTyped(t) {
      forall k, j | 0 <= k < |u.rows| && 0 <= j < |u.columns|
        ensures TypeOf(u.rows[k].values[j]) == u.columns[j].dtype
      {
        if j < |t.columns| {
          assert u.rows[k].values[j] == t.rows[k].values[j];
        }
      }
    }
  }

  /** Some row already holds v in column k (addRow's guard `row.values.size() > pkIndex`
      included). */
  predicate KeyTaken(rows: seq<Row>, k: nat, v: Value) {
    exists i :: 0 <= i < |rows| && k < |rows[i].values| && rows[i].values[k] == v
  }

  /** Why addRow refuses a row, in the order it checks: the number of values, the presence of
      the "ID" column (the first column of that name), then a row that already holds the new
      key. The cells' types are not checked. */
  function RowRejection(t: TableData, values: seq<Value>): (r: Option<Error>)
    ensures r == Some(ArityMismatch) <==> |values| != |t.columns|
    ensures r == Some(PrimaryKeyMissing) <==>
      |values| == |t.columns| && ColumnIndex(t.columns, PrimaryKey).None?
    ensures r == Some(PrimaryKeyViolation(PrimaryKey)) <==>
      |values| == |t.columns| && ColumnIndex(t.columns, PrimaryKey).Some? &&
      KeyTaken(t.rows, ColumnIndex(t.columns, PrimaryKey).value, values[ColumnIndex(t.columns, PrimaryKey).value])
    ensures r.None? <==>
      |values| == |t.columns| && ColumnIndex(t.columns, PrimaryKey).Some? &&
      !KeyTaken(t.rows, ColumnIndex(t.columns, PrimaryKey).value, values[ColumnIndex(t.columns, PrimaryKey).value])
    ensures r.None? ==> var k := ColumnIndex(t.columns, PrimaryKey).value;
      forall i :: 0 <= i < |t.rows| && k < |t.rows[i].values| ==> t.rows[i].values[k] != values[k]
  {
    if |values| != |t.columns| then Some(ArityMismatch)
    else match ColumnIndex(t.columns, PrimaryKey)
      case None => Some(PrimaryKeyMissing)
      case Some(k) =>
        if KeyTaken(t.rows, k, values[k]) then Some(PrimaryKeyViolation(PrimaryKey)) else None
  }

  /** No two rows hold the same value in the primary-key column. */
  predicate KeysUnique(t: TableData) {
    match ColumnIndex(t.columns, PrimaryKey)
    case None => true
    case Some(k) =>
      forall i, j :: 0 <= i < j < |t.rows| && k < |t.rows[i].values| && k < |t.rows[j].values| ==>
        t.rows[i].values[k] != t.rows[j].values[k]
  }

  /** A row addRow accepts has one value per column and a key no row holds yet; appending it
      keeps the table rectangular and its keys unique. */
  lemma AcceptedRowKeepsInvariants(t: TableData, values: seq<Value>)
    requires RowRejection(t, values).None?
    ensures |values| == |t.columns|
    ensures ColumnIndex(t.columns, PrimaryKey).Some?
    ensures Rectangular(t) ==> Rectangular(t.(rows := t.rows + [Row(values)]))
    ensures KeysUnique(t) ==> KeysUnique(t.(rows := t.rows + [Row(values)]))
  {
    var u := t.(rows := t.rows + [Row(values)]);
    var k := ColumnIndex(t.columns, PrimaryKey).value;
    if KeysUnique(t) {
      forall i, j | 0 <= i < j < |u.rows| && k < |u.rows[i].values| && k < |u.rows[j].values|
        ensures u.rows[i].values[k] != u.rows[j].values[k]
      {
        if j == |t.rows| {
          assert u.rows[i] == t.rows[i];
          assert !(k < |t.rows[i].values| && t.rows[i].values[k] == values[k]);
        } else {
          assert u.rows[i] == t.rows[i] && u.rows[j] == t.rows[j];
        }
      }
    }
  }

  /** A row whose key is already held is refused, and so is every row of the wrong width. */
  lemma DuplicateKeyRejected(t: TableData, values: seq<Value>, i: nat)
    requires |values| == |t.columns|
    requires ColumnIndex(t.columns, PrimaryKey).Some?
    requires var k := ColumnIndex(t.columns, PrimaryKey).value;
      i < |t.rows| && k < |t.rows[i].values| && t.rows[i].values[k] == values[k]
    ensures RowRejection(t, values) == Some(PrimaryKeyViolation(PrimaryKey))
  {
  }

  // ================================================================ Table

  /** struct Table. */
  class Table {
    var name: string
    var columns: seq<Column>
    var rows: seq<Row>
    /** primaryKeyColumn: every table's key column is "ID". */
    const primaryKeyColumn: string := PrimaryKey

    /** A table with the given contents (`Table newTable` and its fields assigned). */
    constructor (name: string, columns: seq<Column>, rows: seq<Row>)
      ensures Data() == TableData(name, columns, rows)
    {
      this.name := name;
      this.columns := columns;
      this.rows := rows;
    }

    /** The contents of the object. */
    function Data(): TableData
      reads this
    {
      TableData(name, columns, rows)
    }

    /** Table::addColumn: the column is appended and every existing row receives the column
        type's default value. */
    method AddColumn(columnName: string, t: DataType)
      modifies this
      ensures Data() == WithColumn(old(Data()), Column(columnName, t))
    {
      columns := columns + [Column(columnName, t)];
      var i := 0;
      while i < |rows|
        invariant 0 <= i <= |rows| == |old(rows)|
        invariant name == old(name) && columns == old(columns) + [Column(columnName, t)]
        invariant forall k :: 0 <= k < i ==> rows[k] == Row(old(rows)[k].values + [DefaultValue(t)])
        invariant forall k :: i <= k < |rows| ==> rows[k] == old(rows)[k]
      {
        rows := rows[i := Row(rows[i].values + [DefaultValue(t)])];
        i := i + 1;
      }
    }

    /** Table::addRow: the row is appended unless RowRejection names a reason; the reason is
        the exception addRow throws. */
    method AddRow(values: seq<Value>) returns (err: Option<Error>)
      modifies this
      ensures err == RowRejection(old(Data()), values)
      ensures Data() == if err.None? then old(Data()).(rows := old(rows) + [Row(values)]) else old(Data())
    {
      if |values| != |columns| {
        return Some(ArityMismatch);
      }
      var pkIndex := -1;
      var i := 0;
      while i < |columns|
        invariant 0 <= i <= |columns|
        invariant forall j :: 0 <= j < i ==> columns[j].name != primaryKeyColumn
      {
        if columns[i].name == primaryKeyColumn {
          pkIndex := i;
          break;
        }
        i := i + 1;
      }
      if pkIndex == -1 {
        return Some(PrimaryKeyMissing);
      }
      assert ColumnIndex(columns, PrimaryKey) == Some(pkIndex);
      var newKey := values[pkIndex];
      var r := 0;
      while r < |rows|
        invariant 0 <= r <= |rows|
        invariant forall q :: 0 <= q < r ==> !(pkIndex < |rows[q].values| && rows[q].values[pkIndex] == newKey)
      {
        if pkIndex < |rows[r].values| && rows[r].values[pkIndex] == newKey {
          return Some(PrimaryKeyViolation(primaryKeyColumn));
        }
        r := r + 1;
      }
      rows := rows + [Row(values)];
      return None;
    }
  }

  // ================================================================ the database as a value

  /** The names of the tables, in database order. */
  function TableNames(ts: seq<TableData>): (ns: seq<string>)
    ensures |ns| == |ts| && forall j :: 0 <= j < |ts| ==> ns[j] == ts[j].name
  {
    seq(|ts|, j requires 0 <= j < |ts| => ts[j].name)
  }

  /** The index of the first table with this name (getTable's and dropTable's search). */
  function TableIndex(ts: seq<TableData>, name: string): (r: Option<nat>)
    ensures r.Some? ==> r.value < |ts| && ts[r.value].name == name
    ensures r.Some? ==> forall j :: 0 <= j < r.value ==> ts[j].name != name
    ensures r.None? ==> forall j :: 0 <= j < |ts| ==> ts[j].name != name
  {
    FirstIndex(TableNames(ts), name)
  }

  /** The first table of that name is the one TableIndex finds. */
  lemma TableIndexAt(ts: seq<TableData>, name: string, i: nat)
    requires i < |ts| && ts[i].name == name
    requires forall j :: 0 <= j < i ==> ts[j].name != name
    ensures TableIndex(ts, name) == Some(i)
  {
  }

  /** createTable: a table of that name already present is an error, otherwise an empty table
      with the given schema is appended. */
  function Created(ts: seq<TableData>, name: string, columns: seq<Column>): (r: Result<seq<TableData>, Error>)
    ensures r.Err? <==> exists j :: 0 <= j < |ts| && ts[j].name == name
    ensures r.Err? ==> r.error == TableExists(name)
    ensures r.Ok? ==> |r.value| == |ts| + 1 && r.value[..|ts|] == ts && r.value[|ts|] == TableData(name, columns, [])
  {
    if TableIndex(ts, name).Some? then Err(TableExists(name))
    else Ok(ts + [TableData(name, columns, [])])
  }

  /** dropTable: the first table of that name is removed; none is an error. */
  function Dropped(ts: seq<TableData>, name: string): (r: Result<seq<TableData>, Error>)
    ensures r.Err? <==> forall j :: 0 <= j < |ts| ==> ts[j].name != name
    ensures r.Err? ==> r.error == TableNotFound(name)
    ensures r.Ok? ==> |r.value| == |ts| - 1
  {
    match TableIndex(ts, name)
    case None => Err(TableNotFound(name))
    case Some(i) => Ok(ts[..i] + ts[i + 1..])
  }

  /** No two tables share a name. */
  predicate NamesDistinct(ts: seq<TableData>) {
    forall i, j :: 0 <= i < j < |ts| ==> ts[i].name != ts[j].name
  }

  /** createTable keeps table names distinct, and the new table is then the one found by its
      name. */
  lemma CreatedKeepsNamesDistinct(ts: seq<TableData>, name: string, columns: seq<Column>)
    requires NamesDistinct(ts)
    requires Created(ts, name, columns).Ok?
    ensures NamesDistinct(Created(ts, name, columns).value)
    ensures TableIndex(Created(ts, name, columns).value, name) == Some(|ts|)
  {
    var us := Created(ts, name, columns).value;
    assert forall j :: 0 <= j < |ts| ==> us[j] == ts[j];
    TableIndexAt(us, name, |ts|);
  }

  /** Dropping a table just created gives back the tables there were. */
  lemma DropUndoesCreate(ts: seq<TableData>, name: string, columns: seq<Column>)
    requires Created(ts, name, columns).Ok?
    ensures Dropped(Created(ts, name, columns).value, name) == Ok(ts)
  {
    var us := Created(ts, name, columns).value;
    assert forall j :: 0 <= j < |ts| ==> us[j] == ts[j];
    TableIndexAt(us, name, |ts|);
    assert us[..|ts|] == ts;
    assert us[|ts| + 1..] == [];
    assert ts + [] == ts;
  }

  /** With distinct names, a dropped table can no longer be found and the others keep their
      order. */
  lemma DroppedIsGone(ts: seq<TableData>, name: string)
    requires NamesDistinct(ts)
    requires Dropped(ts, name).Ok?
    ensures TableIndex(Dropped(ts, name).value, name).None?
    ensures |Dropped(ts, name).value| == |ts| - 1
    ensures NamesDistinct(Dropped(ts, name).value)
  {
    var i := TableIndex(ts, name).value;
    var us := Dropped(ts, name).value;
    assert forall j :: 0 <= j < i ==> us[j] == ts[j];
    assert forall j :: i <= j < |us| ==> us[j] == ts[j + 1];
  }

  // ================================================================ Database

  /** The contents of a sequence of table objects. */
  function Snapshot(ts: seq<Table>): (r: seq<TableData>)
    reads ts
    ensures |r| == |ts|
    ensures forall i :: 0 <= i < |ts| ==> r[i] == ts[i].Data()
  {
    seq(|ts|, i reads ts requires 0 <= i < |ts| => ts[i].Data())
  }

  /** Removing an object removes its contents. */
  lemma SnapshotRemove(ts: seq<Table>, i: nat)
    requires i < |ts|
    ensures Snapshot(ts[..i] + ts[i + 1..]) == Snapshot(ts)[..i] + Snapshot(ts)[i + 1..]
  {
    var us := ts[..i] + ts[i + 1..];
    assert forall j :: 0 <= j < i ==> us[j] == ts[j];
    assert forall j :: i <= j < |us| ==> us[j] == ts[j + 1];
  }

  /** struct Database: the table objects in creation order. */
  class Database {
    var tables: seq<Table>

    constructor ()
      ensures Model() == [] && Valid()
    {
      tables := [];
    }

    /** The contents of every table, in order. */
    function Model(): seq<TableData>
      reads this, tables
    {
      Snapshot(tables)
    }

    /** Each table is its own object: a change to one table object changes no other table. */
    ghost predicate Valid()
      reads this
    {
      forall i, j :: 0 <= i < j < |tables| ==> tables[i] != tables[j]
    }

    /** Database::createTable. */
    method CreateTable(tableName: string, columns: seq<Column>) returns (err: Option<Error>)
      requires Valid()
      modifies this
      ensures Valid()
      ensures var r := Created(old(Model()), tableName, columns);
        (r.Ok? ==> err.None? && Model() == r.value) &&
        (r.Err? ==> err == Some(r.error) && Model() == old(Model()))
    {
      var i := 0;
      while i < |tables|
        invariant 0 <= i <= |tables|
        invariant forall j :: 0 <= j < i ==> tables[j].name != tableName
      {
        if tables[i].name == tableName {
          assert TableIndex(Model(), tableName).Some?;
          return Some(TableExists(tableName));
        }
        i := i + 1;
      }
      assert TableIndex(Model(), tableName).None?;
      PushTable(TableData(tableName, columns, []));
      return None;
    }

    /** tables.erase: the i-th table object is removed, the others keep their order. */
    method EraseTable(i: nat)
      requires Valid() && i < |tables|
      modifies this
      ensures Valid()
      ensures Model() == old(Model())[..i] + old(Model())[i + 1..]
    {
      SnapshotRemove(tables, i);
      tables := tables[..i] + tables[i + 1..];
    }

    /** tables.push_back: a new Table object holding these contents is appended. */
    method PushTable(data: TableData)
      requires Valid()
      modifies this
      ensures Valid()
      ensures Model() == old(Model()) + [data]
    {
      ghost var prev := Model();
      var t := new Table(data.name, data.columns, data.rows);
      tables := tables + [t];
      assert forall j :: 0 <= j < |prev| ==> Model()[j] == prev[j];
    }

    /** Database::dropTable. */
    method DropTable(tableName: string) returns (err: Option<Error>)
      requires Valid()
      modifies this
      ensures Valid()
      ensures var r := Dropped(old(Model()), tableName);
        (r.Ok? ==> err.None? && Model() == r.value) &&
        (r.Err? ==> err == Some(r.error) && Model() == old(Model()))
    {
      var i := 0;
      while i < |tables|
        invariant 0 <= i <= |tables|
        invariant forall j :: 0 <= j < i ==> tables[j].name != tableName
      {
        if tables[i].name == tableName {
          assert TableIndex(Model(), tableName) == Some(i);
          EraseTable(i);
          return None;
        }
        i := i + 1;
      }
      return Some(TableNotFound(tableName));
    }

    /** Database::getTable: the first table of that name, or null. */
    method GetTable(tableName: string) returns (t: Table?)
      ensures t == null <==> TableIndex(Model(), tableName).None?
      ensures t != null ==> t == tables[TableIndex(Model(), tableName).value]
    {
      var i := 0;
      while i < |tables|
        invariant 0 <= i <= |tables|
        invariant forall j :: 0 <= j < i ==> tables[j].name != tableName
      {
        if tables[i].name == tableName {
          assert TableIndex(Model(), tableName) == Some(i);
          return tables[i];
        }
        i := i + 1;
      }
      return null;
    }

    /** Database::saveToFile: the lines written, one block per table (Codec.Serialize). */
    method SaveToFile() returns (lines: seq<string>)
      ensures lines == Serialize(Model())
    {
      lines := [];
      var i := 0;
      while i < |tables|
        invariant 0 <= i <= |tables|
        invariant lines == Serialize(Model()[..i])
      {
        var block := TableText(tables[i]);
        lines := lines + block;
        SerializeStep(Model(), i);
        i := i + 1;
      }
      assert Model()[..i] == Model();
    }

    /** Database::loadFromFile from `tables.clear()` on, over the lines of the file: the tables
        committed and the error that stopped the loop, as Codec.Load describes them. */
    method LoadFromFile(lines: seq<string>) returns (err: Option<Error>)
      modifies this
      ensures Valid()
      ensures Model() == Load(lines).state.committed
      ensures err == Load(lines).error
    {
      tables := [];
      var current := EmptyTable;
      var i := 0;
      while i < |lines|
        invariant 0 <= i <= |lines|
        invariant Valid()
        invariant Run(false, Loader(Model(), current), lines[i..]) == Load(lines)
      {
        ghost var st := Loader(Model(), current);
        ghost var prev := Model();
        RunStep(st, lines, i);
        if Classify(lines[i]) == End {
          PushTable(current);
        } else {
          var r := ReadLine(prev, current, lines[i]);
          if r.Err? {
            return Some(r.error);
          }
          current := r.value;
        }
        assert Feed(false, st, lines[i]) == Ok(Loader(Model(), current));
        i := i + 1;
      }
      assert lines[i..] == [];
      return None;
    }

    /** One line of the file other than END_TABLE, applied to `currentTable`: a TABLE line
        starts a fresh table, a COLUMNS: line clears and refills the schema whatever rows were
        read before it, a ROW: line appends a row, any other line is skipped. */
    static method ReadLine(ghost committed: seq<TableData>, current: TableData, line: string)
      returns (r: Result<TableData, Error>)
      requires Classify(line) != End
      ensures r.Err? ==> Feed(false, Loader(committed, current), line) == Err(r.error)
      ensures r.Ok? ==> Feed(false, Loader(committed, current), line) == Ok(Loader(committed, r.value))
    {
      match Classify(line) {
        case Header(tableName) =>
          r := Ok(TableData(tableName, [], []));
        case Definitions(text) =>
          match ParseColumns(GetlineFields(text)) {
            case Err(e) =>
              r := Err(e);
            case Ok(columns) =>
              r := Ok(current.(columns := columns));
          }
        case Cells(text) =>
          match ParseCells(GetlineFields(text), current.columns) {
            case Err(e) =>
              r := Err(e);
            case Ok(values) =>
              r := Ok(current.(rows := current.rows + [Row(values)]));
          }
        case Other =>
          r := Ok(current);
      }
    }

    /** The block written for one table: its TABLE line, its COLUMNS: line, one ROW: line per
        row and END_TABLE. */
    static method TableText(t: Table) returns (block: seq<string>)
      ensures block == TableLines(t.Data())
    {
      var header := ColumnsText(t.columns);
      var rowLines := [];
      var k := 0;
      while k < |t.rows|
        invariant 0 <= k <= |t.rows|
        invariant rowLines == RowLines(t.rows[..k])
      {
        var line := RowText(t.rows[k]);
        assert t.rows[..k + 1][..k] == t.rows[..k];
        rowLines := rowLines + [line];
        k := k + 1;
      }
      assert t.rows[..k] == t.rows;
      block := ["TABLE " + t.name, header] + (rowLines + ["END_TABLE"]);
    }

    /** The text of the COLUMNS: line: each column written after " ", a ',' after every column
        but the last. */
    static method ColumnsText(columns: seq<Column>) returns (line: string)
      ensures line == ColumnsLine(columns)
    {
      ghost var fs := ColumnFields(columns);
      line := "COLUMNS:";
      var i := 0;
      while i < |columns|
        invariant 0 <= i <= |columns|
        invariant line == "COLUMNS:" + CommaList(fs[..i]) + (if 0 < i < |columns| then "," else "")
      {
        var field := " " + columns[i].name + " " + DataTypeToString(columns[i].dtype);
        var sep := if i < |columns| - 1 then "," else "";
        JoinStep("COLUMNS:", fs, i);
        line := line + field + sep;
        i := i + 1;
      }
      assert fs[..i] == fs;
    }

    /** The text of a ROW: line: each cell written after " ", a ',' after every cell but the
        last. */
    static method RowText(r: Row) returns (line: string)
      ensures line == RowLine(r)
    {
      ghost var fs := CellFields(r.values);
      line := "ROW:";
      var i := 0;
      while i < |r.values|
        invariant 0 <= i <= |r.values|
        invariant line == "ROW:" + CommaList(fs[..i]) + (if 0 < i < |r.values| then "," else "")
      {
        var field := " " + CellText(r.values[i]);
        var sep := if i < |r.values| - 1 then "," else "";
        JoinStep("ROW:", fs, i);
        line := line + field + sep;
        i := i + 1;
      }
      assert fs[..i] == fs;
    }
  }

  /** Writing one more piece, followed by ',' unless it is the last. */
  lemma JoinStep(head: string, ps: seq<string>, i: nat)
    requires i < |ps|
    ensures head + CommaList(ps[..i]) + (if 0 < i < |ps| then "," else "") + ps[i] +
      (if i < |ps| - 1 then "," else "") ==
      head + CommaList(ps[..i + 1]) + (if 0 < i + 1 < |ps| then "," else "")
  {
    assert ps[..i + 1][..i] == ps[..i];
    var tail := if i < |ps| - 1 then "," else "";
    if i == 0 {
      assert CommaList(ps[..1]) == ps[0];
      assert CommaList(ps[..0]) == "";
    } else {
      var c := CommaList(ps[..i]);
      assert CommaList(ps[..i + 1]) == c + "," + ps[i];
      assert head + c + "," + ps[i] + tail == head + (c + "," + ps[i]) + tail;
    }
  }

  /** The loop over the lines after line i: stopped by that line, or continued from the state
      it produces. */
  lemma RunStep(st: Loader, lines: seq<string>, i: nat)
    requires i < |lines|
    ensures Feed(false, st, lines[i]).Err? ==> Run(false, st, lines[i..]) == Progress(st, Some(Feed(false, st, lines[i]).error))
    ensures Feed(false, st, lines[i]).Ok? ==> Run(false, st, lines[i..]) == Run(false, Feed(false, st, lines[i]).value, lines[i + 1..])
  {
    assert lines[i..][0] == lines[i] && lines[i..][1..] == lines[i + 1..];
  }

  /** One more table block of the saved file. */
  lemma SerializeStep(ts: seq<TableData>, i: nat)
    requires i < |ts|
    ensures Serialize(ts[..i + 1]) == Serialize(ts[..i]) + TableLines(ts[i])
  {
    assert ts[..i + 1][..i] == ts[..i];
  }
}
