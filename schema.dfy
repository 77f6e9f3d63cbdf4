/** The value types of database.hpp: DataType, the Value variant, Column, Row, and TableData,
    the value a Table object holds at one moment (the Table and Database objects themselves are
    classes in module Store). */
module Schema {
  import opened Wrappers
  import opened Numbers

  /** enum class DataType: exactly these four members. */
  datatype DataType = INT | FLOAT | STRING | BOOL

  /** std::variant<int, float, std::string, bool>: exactly one alternative is held. The float
      alternative carries the Decimal stand-in of module Numbers. */
  datatype Value = Int(i: int32) | Float(f: Decimal) | Str(s: string) | Bool(b: bool)

  /** The alternative a value holds, named by its DataType. */
  function TypeOf(v: Value): DataType {
    match v
    case Int(_) => INT
    case Float(_) => FLOAT
    case Str(_) => STRING
    case Bool(_) => BOOL
  }

  /** Variant equality: equal alternatives with equal payloads. */
  lemma ValueEquality(a: Value, b: Value)
    ensures a == b <==> (TypeOf(a) == TypeOf(b) &&
      match a
      case Int(x) => b.Int? && b.i == x
      case Float(x) => b.Float? && b.f == x
      case Str(x) => b.Str? && b.s == x
      case Bool(x) => b.Bool? && b.b == x)
  {
  }

  datatype Column = Column(name: string, dtype: DataType)

  /** A row: one value per column of its table. */
  datatype Row = Row(values: seq<Value>)

  /** The contents of a Table: its name, its schema and its rows. */
  datatype TableData = TableData(name: string, columns: seq<Column>, rows: seq<Row>)

  /** The name of the primary-key column every Table is given. */
  const PrimaryKey: string := "ID"

  /** Every row has exactly one cell per column. */
  predicate Rectangular(t: TableData) {
    forall k :: 0 <= k < |t.rows| ==> |t.rows[k].values| == |t.columns|
  }

  /** Every table of the database is rectangular. */
  predicate AllRectangular(tables: seq<TableData>) {
    forall k :: 0 <= k < |tables| ==> Rectangular(tables[k])
  }

  /** Every cell holds the alternative its column declares. */
  predicate WellTyped(t: TableData) {
    Rectangular(t) &&
    forall k, j :: 0 <= k < |t.rows| && 0 <= j < |t.columns| ==>
      TypeOf(t.rows[k].values[j]) == t.columns[j].dtype
  }

  /** dataTypeToString: the name saveToFile writes for a type. */
  function DataTypeToString(t: DataType): (name: string)
    ensures |name| >= 3 && forall i :: 0 <= i < |name| ==> 'A' <= name[i] <= 'Z'
  {
    match t
    case INT => "INT"
    case FLOAT => "FLOAT"
    case STRING => "STRING"
    case BOOL => "BOOLEAN"
  }

  /** The type names loadFromFile accepts, matched exactly. The command parser upper-cases the
      word first and then applies the same table. */
  function ParseTypeName(s: string): (r: Option<DataType>)
    ensures r.Some? <==> s in {"INT", "FLOAT", "STRING", "BOOL", "BOOLEAN"}
    ensures r.Some? ==> DataTypeToString(r.value) == s || s == "BOOL"
  {
    if s == "INT" then Some(INT)
    else if s == "FLOAT" then Some(FLOAT)
    else if s == "STRING" then Some(STRING)
    else if s == "BOOL" || s == "BOOLEAN" then Some(BOOL)
    else None
  }

  /** Every name dataTypeToString writes is read back as its type, BOOL included as "BOOLEAN";
      so the name never has a space or a comma in it. */
  lemma TypeNameRoundTrip(t: DataType)
    ensures ParseTypeName(DataTypeToString(t)) == Some(t)
    ensures forall i :: 0 <= i < |DataTypeToString(t)| ==> 'A' <= DataTypeToString(t)[i] <= 'Z'
  {
  }

  /** The default fill addColumn gives existing rows: 0, 0.0f, "" or false. */
  function DefaultValue(t: DataType): (v: Value)
    ensures TypeOf(v) == t
  {
    match t
    case INT => Int(0)
    case FLOAT => Float(Decimal(0, 0))
    case STRING => Str("")
    case BOOL => Bool(false)
  }

  /** The position of the first name equal to `name`, or none: the search loop with `break`
      that addRow and SELECT run over the columns and getTable and dropTable over the tables. */
  function FirstIndex(names: seq<string>, name: string): (r: Option<nat>)
    ensures r.Some? ==> r.value < |names| && names[r.value] == name
    ensures r.Some? ==> forall j :: 0 <= j < r.value ==> names[j] != name
    ensures r.None? ==> forall j :: 0 <= j < |names| ==> names[j] != name
  {
    if names == [] then None
    else if names[0] == name then Some(0)
    else match FirstIndex(names[1..], name)
      case None => None
      case Some(k) => Some(k + 1)
  }

  /** The names of the columns, in schema order. */
  function ColumnNames(columns: seq<Column>): (ns: seq<string>)
    ensures |ns| == |columns| && forall j :: 0 <= j < |columns| ==> ns[j] == columns[j].name
  {
    seq(|columns|, j requires 0 <= j < |columns| => columns[j].name)
  }

  /** The index of the first column with this name (addRow's and SELECT's loops). */
  function ColumnIndex(columns: seq<Column>, name: string): (r: Option<nat>)
    ensures r.Some? ==> r.value < |columns| && columns[r.value].name == name
    ensures r.Some? ==> forall j :: 0 <= j < r.value ==> columns[j].name != name
    ensures r.None? ==> forall j :: 0 <= j < |columns| ==> columns[j].name != name
  {
    FirstIndex(ColumnNames(columns), name)
  }

  /** The index of the last column with this name: UPDATE's loop, which has no `break`. */
  function LastColumnIndex(columns: seq<Column>, name: string): (r: Option<nat>)
    ensures r.Some? ==> r.value < |columns| && columns[r.value].name == name
    ensures r.Some? ==> forall j :: r.value < j < |columns| ==> columns[j].name != name
    ensures r.None? ==> forall j :: 0 <= j < |columns| ==> columns[j].name != name
  {
    if columns == [] then None
    else if columns[|columns| - 1].name == name then Some(|columns| - 1)
    else LastColumnIndex(columns[..|columns| - 1], name)
  }

  /** The failures of the system. In a reply they appear either as a diagnostic the command
      prints before returning (Reply.Failed) or as an exception that leaves executeCommand
      (Reply.Aborted). RowTooShort stands for `row.values[i]` read or written past the end of a
      row: undefined behaviour in C++, which the model takes as ending the command. */
  datatype Error =
    | SyntaxError(what: string)
    | TableNotFound(name: string)
    | ColumnNotFound(name: string)
    | TableExists(name: string)
    | ArityMismatch
    | PrimaryKeyMissing
    | PrimaryKeyViolation(column: string)
    | TypeMismatch(token: string)
    | InvalidNumber(token: string)
    | UnknownType(name: string)
    | ConversionFailed(token: string)
    | TooManyValues
    | TooFewValues
    | SchemaMismatch
    | OutOfRange
    | RowTooShort
    | IoError(path: string)
}
