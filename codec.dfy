/** The text format of Database::saveToFile and Database::loadFromFile, over the sequence of
    lines of the file:

      TABLE <name>
      COLUMNS: <c1> <T1>, ..., <cn> <Tn>
      ROW: <v1>, ..., <vn>
      END_TABLE

    saveToFile's `if constexpr` tests compare decltype(val), a const reference, with std::string
    and bool, so neither branch is ever taken: strings are written without quotes and bools as
    1 and 0. loadFromFile reads 1 and 0 as bools and strips quotes only when both are there. */
module Codec {
  import opened Wrappers
  import opened Text
  import opened Numbers
  import opened Schema

  // ================================================================ saving

  /** What `file << " " << val` writes for a cell after the ' '. */
  function CellText(v: Value): (r: string)
    ensures v.Int? ==> Stoi(r) == Some(v.i)
    ensures v.Float? && Normalized(v.f) ==> ParseDecimal(r) == Some(v.f)
    ensures v.Str? ==> r == v.s
    ensures v.Bool? ==> (r == "1" <==> v.b) && (r == "0" <==> !v.b)
  {
    match v
    case Int(i) => ParseRenderInt(i); RenderInt(i)
    case Float(d) => (if Normalized(d) then ParseRenderDecimal(d); RenderDecimal(d) else RenderDecimal(d))
    case Str(s) => s
    case Bool(b) => if b then "1" else "0"
  }

  function ColumnField(c: Column): string {
    " " + c.name + " " + DataTypeToString(c.dtype)
  }

  function ColumnFields(columns: seq<Column>): (fs: seq<string>)
    ensures |fs| == |columns|
    ensures forall i :: 0 <= i < |columns| ==> fs[i] == ColumnField(columns[i])
  {
    seq(|columns|, i requires 0 <= i < |columns| => ColumnField(columns[i]))
  }

  function CellFields(values: seq<Value>): (fs: seq<string>)
    ensures |fs| == |values|
    ensures forall i :: 0 <= i < |values| ==> fs[i] == " " + CellText(values[i])
  {
    seq(|values|, i requires 0 <= i < |values| => " " + CellText(values[i]))
  }

  function ColumnsLine(columns: seq<Column>): string {
    "COLUMNS:" + CommaList(ColumnFields(columns))
  }

  function RowLine(r: Row): string {
    "ROW:" + CommaList(CellFields(r.values))
  }

  function RowLines(rows: seq<Row>): (lines: seq<string>)
    ensures |lines| == |rows|
  {
    if rows == [] then [] else RowLines(rows[..|rows| - 1]) + [RowLine(rows[|rows| - 1])]
  }

  /** The block saveToFile writes for one table. */
  function TableLines(t: TableData): seq<string> {
    ["TABLE " + t.name, ColumnsLine(t.columns)] + (RowLines(t.rows) + ["END_TABLE"])
  }

  /** The whole file, one block per table in database order. */
  function Serialize(tables: seq<TableData>): (lines: seq<string>)
    ensures |lines| >= 3 * |tables|
    ensures tables == [] <==> lines == []
    ensures tables != [] ==> lines[|lines| - 1] == "END_TABLE"
  {
    if tables == [] then []
    else Serialize(tables[..|tables| - 1]) + TableLines(tables[|tables| - 1])
  }

  // ================================================================ loading

  /** One `name type` definition of a COLUMNS: line; loadFromFile matches the type exactly and
      throws on any other type word. */
  function ParseColumnDef(piece: string): (r: Result<Column, Error>)
    ensures r.Err? <==> WordAt(piece, 1) !in {"INT", "FLOAT", "STRING", "BOOL", "BOOLEAN"}
    ensures r.Err? ==> r.error == UnknownType(WordAt(piece, 1))
    ensures r.Ok? ==> r.value.name == WordAt(piece, 0)
  {
    var name := WordAt(piece, 0);
    var typeName := WordAt(piece, 1);
    match ParseTypeName(typeName)
    case None => Err(UnknownType(typeName))
    case Some(t) => Ok(Column(name, t))
  }

  function ParseColumns(pieces: seq<string>): (r: Result<seq<Column>, Error>)
    ensures r.Ok? ==> |r.value| == |pieces|
  {
    if pieces == [] then Ok([])
    else match ParseColumnDef(pieces[0])
      case Err(e) => Err(e)
      case Ok(c) =>
        match ParseColumns(pieces[1..])
        case Err(e) => Err(e)
        case Ok(cs) => Ok([c] + cs)
  }

  /** One trimmed cell token read by the declared type of its column. */
  function ParseCell(token: string, t: DataType): (r: Result<Value, Error>)
    ensures r.Ok? ==> TypeOf(r.value) == t
    ensures t == STRING ==> r.Ok?
    ensures t == BOOL ==> (r.Err? <==> token !in {"true", "1", "false", "0"})
    ensures t == INT ==> (r.Err? <==> Stoi(token).None?)
  {
    match t
    case INT =>
      (match Stoi(token)
       case Some(i) => Ok(Int(i))
       case None => Err(ConversionFailed(token)))
    case FLOAT =>
      (match ParseDecimal(token)
       case Some(d) => Ok(Float(d))
       case None => Err(ConversionFailed(token)))
    case STRING => Ok(Str(Unquote(token)))
    case BOOL =>
      if token == "true" || token == "1" then Ok(Bool(true))
      else if token == "false" || token == "0" then Ok(Bool(false))
      else Err(ConversionFailed(token))
  }

  /** The cells of a ROW: line, token by token against the current columns (the colIndex
      loop): too many tokens, too few, or a token that does not convert is an error. */
  function ParseCells(tokens: seq<string>, columns: seq<Column>): (r: Result<seq<Value>, Error>)
    ensures r.Ok? ==> |r.value| == |columns| == |tokens|
  {
    if tokens == [] then
      if columns == [] then Ok([]) else Err(TooFewValues)
    else if columns == [] then Err(TooManyValues)
    else match ParseCell(Trim(tokens[0]), columns[0].dtype)
      case Err(e) => Err(e)
      case Ok(v) =>
        match ParseCells(tokens[1..], columns[1..])
        case Err(e) => Err(e)
        case Ok(vs) => Ok([v] + vs)
  }

  /** Every cell read from a ROW: line holds the alternative its column declares. */
  lemma {:induction false} ParseCellsWellTyped(tokens: seq<string>, columns: seq<Column>)
    requires ParseCells(tokens, columns).Ok?
    ensures forall j :: 0 <= j < |columns| ==>
      TypeOf(ParseCells(tokens, columns).value[j]) == columns[j].dtype
  {
    if tokens != [] {
      var r := ParseCells(tokens, columns).value;
      var v := ParseCell(Trim(tokens[0]), columns[0].dtype);
      var vs := ParseCells(tokens[1..], columns[1..]);
      assert v.Ok? && vs.Ok? && r == [v.value] + vs.value;
      ParseCellsWellTyped(tokens[1..], columns[1..]);
      forall j | 0 <= j < |columns| ensures TypeOf(r[j]) == columns[j].dtype {
        if j == 0 {
          assert r[0] == v.value;
        } else {
          assert r[j] == vs.value[j - 1];
          assert columns[1..][j - 1] == columns[j];
        }
      }
    }
  }

  /** The loader's state: the tables committed so far and the `currentTable` accumulator. */
  datatype Loader = Loader(committed: seq<TableData>, current: TableData)

  /** A default-constructed Table. */
  const EmptyTable: TableData := TableData("", [], [])

  /** After `tables.clear()`, before the first line. */
  const Start: Loader := Loader([], EmptyTable)

  /** The COLUMNS: branch with the check loadFromFile lacks: a block that already holds rows
      of another width is rejected. As written, the branch clears and refills the schema
      whatever the rows already read hold. */
  function CheckedColumns(current: TableData, columns: seq<Column>): (r: Result<TableData, Error>)
    ensures r.Ok? ==> r.value == current.(columns := columns)
    ensures r.Ok? <==> forall k :: 0 <= k < |current.rows| ==> |current.rows[k].values| == |columns|
  {
    if forall k :: 0 <= k < |current.rows| ==> |current.rows[k].values| == |columns| then
      Ok(current.(columns := columns))
    else Err(SchemaMismatch)
  }

  /** The kinds of line loadFromFile tells apart, recognised in this order: a line starting with
      "TABLE ", one starting with "COLUMNS:", one starting with "ROW:", exactly "END_TABLE", and
      any other line, which is skipped. Each kind carries the text after its keyword. */
  datatype LineKind = Header(name: string) | Definitions(text: string) | Cells(text: string) | End | Other

  function Classify(line: string): (k: LineKind)
    ensures k.Header? <==> StartsWith(line, "TABLE ")
    ensures k.Definitions? <==> StartsWith(line, "COLUMNS:")
    ensures k.Cells? <==> StartsWith(line, "ROW:")
    ensures k == End <==> line == "END_TABLE"
    ensures k.Header? ==> line == "TABLE " + k.name
    ensures k.Definitions? ==> line == "COLUMNS:" + k.text
    ensures k.Cells? ==> line == "ROW:" + k.text
  {
    if StartsWith(line, "TABLE ") then
      assert line[0] == 'T';
      Header(line[6..])
    else if StartsWith(line, "COLUMNS:") then
      assert line[0] == 'C';
      Definitions(line[8..])
    else if StartsWith(line, "ROW:") then Cells(line[4..])
    else if line == "END_TABLE" then End
    else Other
  }

  /** A COLUMNS: line: the schema is cleared and refilled. With checkWidth the corrected branch
      (CheckedColumns) runs instead. */
  function FeedColumns(checkWidth: bool, st: Loader, text: string): Result<Loader, Error> {
    match ParseColumns(GetlineFields(text))
    case Err(e) => Err(e)
    case Ok(columns) =>
      if !checkWidth then Ok(st.(current := st.current.(columns := columns)))
      else match CheckedColumns(st.current, columns)
        case Err(e) => Err(e)
        case Ok(t) => Ok(st.(current := t))
  }

  /** A ROW: line: its cells, read by the current schema, become one more row. */
  function FeedRow(st: Loader, text: string): Result<Loader, Error> {
    match ParseCells(GetlineFields(text), st.current.columns)
    case Err(e) => Err(e)
    case Ok(values) => Ok(st.(current := st.current.(rows := st.current.rows + [Row(values)])))
  }

  /** One line of the file: the body of loadFromFile's loop when checkWidth is false, the same
      with the corrected COLUMNS: branch when it is true. Only END_TABLE commits a table, and it
      commits the accumulator after those already committed; only a COLUMNS: or a ROW: line can
      throw. */
  function Feed(checkWidth: bool, st: Loader, line: string): (r: Result<Loader, Error>)
    ensures r.Ok? && Classify(line) == End ==> r.value == st.(committed := st.committed + [st.current])
    ensures r.Ok? && Classify(line) != End ==> r.value.committed == st.committed
    ensures r.Err? ==> Classify(line).Definitions? || Classify(line).Cells?
  {
    match Classify(line)
    case Header(name) => Ok(st.(current := TableData(name, [], [])))
    case Definitions(text) => FeedColumns(checkWidth, st, text)
    case Cells(text) => FeedRow(st, text)
    case End => Ok(st.(committed := st.committed + [st.current]))
    case Other => Ok(st)
  }

  /** Where the loop over the lines stopped: the state reached and the error, if one ended it. */
  datatype Progress = Progress(state: Loader, error: Option<Error>)

  /** The loop over the lines from a state: the tables committed before are kept, in front of
      at most one more table per line. */
  function Run(checkWidth: bool, st: Loader, lines: seq<string>): (p: Progress)
    ensures st.committed <= p.state.committed
    ensures |p.state.committed| <= |st.committed| + |lines|
    decreases |lines|
  {
    if lines == [] then Progress(st, None)
    else match Feed(checkWidth, st, lines[0])
      case Err(e) => Progress(st, Some(e))
      case Ok(next) => Run(checkWidth, next, lines[1..])
  }

  /** loadFromFile over the lines of the file. On an error the database keeps the tables
      committed before the failing line (the exception leaves after `tables` was cleared and
      partly refilled). */
  function Load(lines: seq<string>): (p: Progress)
    ensures |p.state.committed| <= |lines|
  {
    Run(false, Start, lines)
  }

  /** loadFromFile with the corrected COLUMNS: branch. */
  function LoadChecked(lines: seq<string>): (p: Progress)
    ensures |p.state.committed| <= |lines|
  {
    Run(true, Start, lines)
  }

  // ================================================================ properties of the loader

  /** Feeding two stretches of lines one after the other is feeding them together. */
  lemma {:induction false} RunAppend(checkWidth: bool, st: Loader, a: seq<string>, b: seq<string>)
    requires Run(checkWidth, st, a).error.None?
    ensures Run(checkWidth, st, a + b) == Run(checkWidth, Run(checkWidth, st, a).state, b)
    decreases |a|
  {
    if a == [] {
      assert a + b == b;
    } else {
      assert (a + b)[0] == a[0];
      assert (a + b)[1..] == a[1..] + b;
      RunAppend(checkWidth, Feed(checkWidth, st, a[0]).value, a[1..], b);
    }
  }

  /** A single line that is accepted leaves the loop with the state it produces. */
  lemma RunSingle(checkWidth: bool, st: Loader, line: string)
    requires Feed(checkWidth, st, line).Ok?
    ensures Run(checkWidth, st, [line]) == Progress(Feed(checkWidth, st, line).value, None)
  {
    assert [line][1..] == [];
  }

  predicate LoaderRectangular(st: Loader) {
    Rectangular(st.current) &&
    forall k :: 0 <= k < |st.committed| ==> Rectangular(st.committed[k])
  }

  lemma FeedKeepsRectangular(st: Loader, line: string)
    requires LoaderRectangular(st)
    requires Feed(true, st, line).Ok?
    ensures LoaderRectangular(Feed(true, st, line).value)
  {
    var next := Feed(true, st, line).value;
    match Classify(line)
    case Header(_) =>
    case Definitions(text) =>
    case Cells(text) =>
      var values := ParseCells(GetlineFields(text), st.current.columns).value;
      assert next.current.rows == st.current.rows + [Row(values)];
    case End =>
    case Other =>
  }

  /** Every table the corrected loader commits, in full or up to an error, has one cell per
      column in every row. */
  lemma {:induction false} RunKeepsRectangular(st: Loader, lines: seq<string>)
    requires LoaderRectangular(st)
    ensures LoaderRectangular(Run(true, st, lines).state)
    decreases |lines|
  {
    if lines != [] && Feed(true, st, lines[0]).Ok? {
      FeedKeepsRectangular(st, lines[0]);
      RunKeepsRectangular(Feed(true, st, lines[0]).value, lines[1..]);
    }
  }

  lemma CheckedLoadIsRectangular(lines: seq<string>)
    ensures forall k :: 0 <= k < |LoadChecked(lines).state.committed| ==>
      Rectangular(LoadChecked(lines).state.committed[k])
  {
    RunKeepsRectangular(Start, lines);
  }

  // ================================================================ save then load

  /** A column name that survives the COLUMNS: line: one word, no comma. */
  predicate SaveableName(n: string) {
    n != [] && NoSpace(n) && ',' !in n
  }

  /** A string cell that survives a ROW: line: not empty, no comma, no line break (which would
      end the line early), no blank at either end and not wrapped in quotes. */
  predicate SaveableString(s: string) {
    s != [] && ',' !in s && '\n' !in s && !IsBlank(s[0]) && !IsBlank(s[|s| - 1]) && !IsQuoted(s)
  }

  predicate SaveableCell(v: Value) {
    match v
    case Int(_) => true
    case Float(_) => false
    case Str(s) => SaveableString(s)
    case Bool(_) => true
  }

  /** The tables whose contents saveToFile and loadFromFile carry across unchanged. */
  predicate Saveable(t: TableData) {
    WellTyped(t) && '\n' !in t.name &&
    (forall j :: 0 <= j < |t.columns| ==> SaveableName(t.columns[j].name)) &&
    (forall k, j :: 0 <= k < |t.rows| && 0 <= j < |t.rows[k].values| ==>
      SaveableCell(t.rows[k].values[j]))
  }

  lemma ColumnDefParses(c: Column)
    requires SaveableName(c.name)
    ensures ParseColumnDef(ColumnField(c)) == Ok(c)
    ensures ',' !in ColumnField(c)
    ensures Words(ColumnField(c)) == [c.name, DataTypeToString(c.dtype)]
  {
    var tn := DataTypeToString(c.dtype);
    var f := ColumnField(c);
    assert Words(f) == [c.name, tn] by {
      var rest := c.name + [' '] + tn;
      assert f == [' '] + rest;
      assert Words(f) == Words(rest) by {
        assert f[0] == ' ' && f[1..] == rest;
      }
      WordsOfWord(tn);
      WordsOfWordThen(c.name, ' ', tn);
    }
    assert ',' !in f by {
      assert f == " " + c.name + " " + tn;
    }
    assert WordAt(f, 0) == c.name && WordAt(f, 1) == tn;
    assert ParseTypeName(tn) == Some(c.dtype) by {
      TypeNameRoundTrip(c.dtype);
    }
  }

  lemma {:induction false} ColumnFieldsParse(columns: seq<Column>)
    requires forall j :: 0 <= j < |columns| ==> SaveableName(columns[j].name)
    ensures ParseColumns(ColumnFields(columns)) == Ok(columns)
  {
    if columns != [] {
      var fs := ColumnFields(columns);
      ColumnDefParses(columns[0]);
      ColumnFieldsParse(columns[1..]);
      assert fs[1..] == ColumnFields(columns[1..]);
      assert fs[0] == ColumnField(columns[0]);
      assert ParseColumns(fs) == Ok([columns[0]] + columns[1..]);
      assert [columns[0]] + columns[1..] == columns;
    }
  }

  /** A saved COLUMNS: line is read back as the schema it was written from. */
  lemma ColumnsLineParses(columns: seq<Column>)
    requires forall j :: 0 <= j < |columns| ==> SaveableName(columns[j].name)
    ensures Classify(ColumnsLine(columns)) == Definitions(CommaList(ColumnFields(columns)))
    ensures ParseColumns(GetlineFields(CommaList(ColumnFields(columns)))) == Ok(columns)
  {
    var fs := ColumnFields(columns);
    var line := ColumnsLine(columns);
    assert line[0] == 'C' && line[..8] == "COLUMNS:";
    assert !StartsWith(line, "TABLE ");
    forall k | 0 <= k < |fs| ensures ',' !in fs[k] {
      ColumnDefParses(columns[k]);
    }
    assert ColumnsLine(columns)[8..] == CommaList(fs);
    GetlineFieldsOfList(fs);
    ColumnFieldsParse(columns);
  }

  lemma CellParses(v: Value)
    requires SaveableCell(v)
    ensures ',' !in " " + CellText(v)
    ensures ParseCell(Trim(" " + CellText(v)), TypeOf(v)) == Ok(v)
  {
    match v
    case Int(i) => IntCellParses(i);
    case Str(s) => StrCellParses(s);
    case Bool(b) => BoolCellParses(b);
  }

  lemma IntCellParses(i: int32)
    ensures ',' !in " " + RenderInt(i)
    ensures ParseCell(Trim(" " + RenderInt(i)), INT) == Ok(Int(i))
  {
    RenderIntShape(i);
    TrimAfterSpace(RenderInt(i));
    ParseRenderInt(i);
  }

  lemma StrCellParses(s: string)
    requires SaveableString(s)
    ensures ',' !in " " + s
    ensures ParseCell(Trim(" " + s), STRING) == Ok(Str(s))
  {
    TrimAfterSpace(s);
  }

  lemma BoolCellParses(b: bool)
    ensures ',' !in " " + (if b then "1" else "0")
    ensures ParseCell(Trim(" " + (if b then "1" else "0")), BOOL) == Ok(Bool(b))
  {
    var t := if b then "1" else "0";
    assert |t| == 1 && t[0] != ' ' && t[0] != '\t';
    TrimAfterSpace(t);
    assert t != "true" && t != "false";
    assert " " + t == [' ', t[0]];
  }

  lemma {:induction false} CellFieldsParse(values: seq<Value>, columns: seq<Column>)
    requires |values| == |columns|
    requires forall j :: 0 <= j < |values| ==> SaveableCell(values[j])
    requires forall j :: 0 <= j < |values| ==> TypeOf(values[j]) == columns[j].dtype
    ensures ParseCells(CellFields(values), columns) == Ok(values)
  {
    if values != [] {
      var fs := CellFields(values);
      CellParses(values[0]);
      CellFieldsParse(values[1..], columns[1..]);
      assert fs[1..] == CellFields(values[1..]);
      assert fs[0] == " " + CellText(values[0]);
      assert ParseCells(fs, columns) == Ok([values[0]] + values[1..]);
      assert [values[0]] + values[1..] == values;
    }
  }

  /** A row the ROW: line carries across: one saveable cell of the declared type per column. */
  predicate RowFits(r: Row, columns: seq<Column>) {
    |r.values| == |columns| &&
    forall j :: 0 <= j < |columns| ==>
      SaveableCell(r.values[j]) && TypeOf(r.values[j]) == columns[j].dtype
  }

  /** A saved ROW: line is classified as one and read back as the row it was written from. */
  lemma RowLineParses(r: Row, columns: seq<Column>)
    requires RowFits(r, columns)
    ensures Classify(RowLine(r)) == Cells(CommaList(CellFields(r.values)))
    ensures ParseCells(GetlineFields(CommaList(CellFields(r.values))), columns) == Ok(r.values)
  {
    var fs := CellFields(r.values);
    var line := RowLine(r);
    assert Classify(line) == Cells(CommaList(fs)) by {
      assert line[..4] == "ROW:" && line[4..] == CommaList(fs);
      ClassifyPrefixed(line, "ROW:");
    }
    assert GetlineFields(CommaList(fs)) == fs by {
      forall k | 0 <= k < |fs| ensures ',' !in fs[k] {
        CellParses(r.values[k]);
      }
      GetlineFieldsOfList(fs);
    }
    CellFieldsParse(r.values, columns);
  }

  /** A line that starts with one of the loader's keywords is classified by that keyword, and
      carries the rest of the line. */
  lemma ClassifyPrefixed(line: string, keyword: string)
    requires keyword in {"TABLE ", "COLUMNS:", "ROW:"} && StartsWith(line, keyword)
    ensures Classify(line) == (if keyword == "TABLE " then Header(line[6..])
      else if keyword == "COLUMNS:" then Definitions(line[8..]) else Cells(line[4..]))
  {
  }

  /** A saved ROW: line appends its row to the accumulator. */
  lemma RowLoad(checkWidth: bool, st: Loader, r: Row)
    requires RowFits(r, st.current.columns)
    ensures Run(checkWidth, st, [RowLine(r)]) ==
      Progress(st.(current := st.current.(rows := st.current.rows + [r])), None)
  {
    RowLineParses(r, st.current.columns);
    RunSingle(checkWidth, st, RowLine(r));
  }

  /** One more ROW: line after a stretch of them appends one more row. */
  lemma RowLinesStep(c: seq<TableData>, name: string, columns: seq<Column>, before: seq<Row>,
                     rows: seq<Row>)
    requires rows != [] && RowFits(rows[|rows| - 1], columns)
    requires Run(false, Loader(c, TableData(name, columns, before)), RowLines(rows[..|rows| - 1])) ==
      Progress(Loader(c, TableData(name, columns, before + rows[..|rows| - 1])), None)
    ensures Run(false, Loader(c, TableData(name, columns, before)), RowLines(rows)) ==
      Progress(Loader(c, TableData(name, columns, before + rows)), None)
  {
    var init := rows[..|rows| - 1];
    var last := rows[|rows| - 1];
    var st0 := Loader(c, TableData(name, columns, before));
    var st := Loader(c, TableData(name, columns, before + init));
    assert Run(false, st0, RowLines(rows)) == Run(false, st, [RowLine(last)]) by {
      assert RowLines(rows) == RowLines(init) + [RowLine(last)];
      RunAppend(false, st0, RowLines(init), [RowLine(last)]);
    }
    RowLoad(false, st, last);
    AppendLast(before, rows);
  }

  lemma AppendLast<T>(a: seq<T>, s: seq<T>)
    requires s != []
    ensures a + s[..|s| - 1] + [s[|s| - 1]] == a + s
  {
    assert s[..|s| - 1] + [s[|s| - 1]] == s;
  }

  /** The ROW: lines of a block append their rows to the accumulator. */
  lemma {:induction false} RowLinesLoad(c: seq<TableData>, name: string, columns: seq<Column>, before: seq<Row>, rows: seq<Row>)
    requires forall k :: 0 <= k < |rows| ==> RowFits(rows[k], columns)
    ensures Run(false, Loader(c, TableData(name, columns, before)), RowLines(rows)) ==
      Progress(Loader(c, TableData(name, columns, before + rows)), None)
    decreases |rows|
  {
    if rows == [] {
      assert before + rows == before;
    } else {
      var init := rows[..|rows| - 1];
      assert forall k :: 0 <= k < |init| ==> init[k] == rows[k];
      RowLinesLoad(c, name, columns, before, init);
      RowLinesStep(c, name, columns, before, rows);
    }
  }

  /** The first two lines of a saved block open the table with its schema and no rows. */
  lemma HeadLoad(checkWidth: bool, st: Loader, t: TableData)
    requires forall j :: 0 <= j < |t.columns| ==> SaveableName(t.columns[j].name)
    ensures Run(checkWidth, st, ["TABLE " + t.name, ColumnsLine(t.columns)]) ==
      Progress(Loader(st.committed, TableData(t.name, t.columns, [])), None)
  {
    var h0 := "TABLE " + t.name;
    var h1 := ColumnsLine(t.columns);
    var s1 := st.(current := TableData(t.name, [], []));
    assert h0[..6] == "TABLE " && h0[6..] == t.name;
    assert Classify(h0) == Header(t.name);
    RunSingle(checkWidth, st, h0);
    ColumnsLineParses(t.columns);
    var s2 := Loader(st.committed, TableData(t.name, t.columns, []));
    assert FeedColumns(checkWidth, s1, CommaList(ColumnFields(t.columns))) == Ok(s2);
    RunSingle(checkWidth, s1, h1);
    RunAppend(checkWidth, st, [h0], [h1]);
    assert [h0] + [h1] == [h0, h1];
  }

  /** END_TABLE commits the accumulator. */
  lemma EndLoad(st: Loader)
    ensures Run(false, st, ["END_TABLE"]) == Progress(st.(committed := st.committed + [st.current]), None)
    ensures Run(true, st, ["END_TABLE"]) == Run(false, st, ["END_TABLE"])
  {
    FeedEnd(false, st);
    FeedEnd(true, st);
    RunSingle(false, st, "END_TABLE");
    RunSingle(true, st, "END_TABLE");
  }

  /** The END_TABLE line commits the accumulator, whichever COLUMNS: branch is in use. */
  lemma FeedEnd(checkWidth: bool, st: Loader)
    ensures Feed(checkWidth, st, "END_TABLE") == Ok(st.(committed := st.committed + [st.current]))
  {
    var line := "END_TABLE";
    assert line[0] == 'E';
    assert !StartsWith(line, "TABLE ") && !StartsWith(line, "COLUMNS:") && !StartsWith(line, "ROW:");
    assert Classify(line) == End;
  }

  /** One saved block is read back as its table and committed. */
  lemma TableLinesLoad(st: Loader, t: TableData)
    requires Saveable(t)
    ensures Run(false, st, TableLines(t)) == Progress(Loader(st.committed + [t], t), None)
  {
    var head := ["TABLE " + t.name, ColumnsLine(t.columns)];
    HeadLoad(false, st, t);
    RunAppend(false, st, head, RowLines(t.rows) + ["END_TABLE"]);
    BodyLoad(st.committed, t);
  }

  /** The ROW: lines and END_TABLE of a saved block, after its head, commit the table. */
  lemma BodyLoad(c: seq<TableData>, t: TableData)
    requires Saveable(t)
    ensures Run(false, Loader(c, TableData(t.name, t.columns, [])), RowLines(t.rows) + ["END_TABLE"]) ==
      Progress(Loader(c + [t], t), None)
  {
    var s2 := Loader(c, TableData(t.name, t.columns, []));
    assert forall k :: 0 <= k < |t.rows| ==> RowFits(t.rows[k], t.columns);
    RowLinesLoad(c, t.name, t.columns, [], t.rows);
    assert [] + t.rows == t.rows;
    var s3 := Loader(c, t);
    assert Run(false, s2, RowLines(t.rows)) == Progress(s3, None);
    RunAppend(false, s2, RowLines(t.rows), ["END_TABLE"]);
    EndLoad(s3);
  }

  /** Saving a database and loading the file gives back the same tables in the same order:
      names, schemas, row order and cells, for tables whose names, string cells and column
      names the format can carry and which hold no float cell. */
  lemma {:induction false} SaveLoadRoundTrip(tables: seq<TableData>)
    requires forall k :: 0 <= k < |tables| ==> Saveable(tables[k])
    ensures Load(Serialize(tables)).error.None?
    ensures Load(Serialize(tables)).state.committed == tables
  {
    if tables != [] {
      var init := tables[..|tables| - 1];
      var t := tables[|tables| - 1];
      SaveLoadRoundTrip(init);
      assert Serialize(tables) == Serialize(init) + TableLines(t);
      BlockAfterLines(Start, Serialize(init), t);
      AppendLast([], tables);
      assert [] + init == init;
    }
  }

  /** A saved block after lines the loader accepted commits one more table. */
  lemma BlockAfterLines(st: Loader, before: seq<string>, t: TableData)
    requires Run(false, st, before).error.None?
    requires Saveable(t)
    ensures Run(false, st, before + TableLines(t)) ==
      Progress(Loader(Run(false, st, before).state.committed + [t], t), None)
  {
    RunAppend(false, st, before, TableLines(t));
    TableLinesLoad(Run(false, st, before).state, t);
  }

  // ================================================================ the ragged-table finding

  /** A block that declares a schema, reads a row of that width, then declares a schema of
      another width before END_TABLE. */
  function RaggedFile(name: string, first: seq<Column>, r: Row, second: seq<Column>): seq<string> {
    RaggedHead(name, first, r) + RaggedTail(second)
  }

  function RaggedHead(name: string, first: seq<Column>, r: Row): seq<string> {
    ["TABLE " + name, ColumnsLine(first)] + [RowLine(r)]
  }

  function RaggedTail(second: seq<Column>): seq<string> {
    [ColumnsLine(second), "END_TABLE"]
  }

  predicate RaggedInput(first: seq<Column>, r: Row, second: seq<Column>) {
    (forall j :: 0 <= j < |first| ==> SaveableName(first[j].name)) &&
    (forall j :: 0 <= j < |second| ==> SaveableName(second[j].name)) &&
    RowFits(r, first) && |second| != |first|
  }

  /** The first three lines of a RaggedFile are a well-formed table with one row, for both
      loaders. */
  lemma RaggedPrefix(checkWidth: bool, name: string, first: seq<Column>, r: Row)
    requires forall j :: 0 <= j < |first| ==> SaveableName(first[j].name)
    requires RowFits(r, first)
    ensures Run(checkWidth, Start, RaggedHead(name, first, r)) ==
      Progress(Loader([], TableData(name, first, [r])), None)
  {
    var t := TableData(name, first, []);
    HeadLoad(checkWidth, Start, t);
    RowLoad(checkWidth, Loader([], t), r);
    RunAppend(checkWidth, Start, ["TABLE " + name, ColumnsLine(first)], [RowLine(r)]);
    assert [] + [r] == [r];
  }

  /** loadFromFile as written reads a RaggedFile without complaint and commits a table whose
      only row is narrower or wider than its schema. */
  lemma AsWrittenCommitsRaggedTable(name: string, first: seq<Column>, r: Row, second: seq<Column>)
    requires RaggedInput(first, r, second)
    ensures Load(RaggedFile(name, first, r, second)).error.None?
    ensures Load(RaggedFile(name, first, r, second)).state.committed == [TableData(name, second, [r])]
    ensures !Rectangular(TableData(name, second, [r]))
  {
    RaggedPrefix(false, name, first, r);
    RunAppend(false, Start, RaggedHead(name, first, r), RaggedTail(second));
    RaggedTailAsWritten(TableData(name, first, [r]), second);
    assert TableData(name, first, [r]).(columns := second) == TableData(name, second, [r]);
    assert |TableData(name, second, [r]).rows[0].values| != |second|;
  }

  lemma RaggedTailAsWritten(t: TableData, second: seq<Column>)
    requires forall j :: 0 <= j < |second| ==> SaveableName(second[j].name)
    ensures Run(false, Loader([], t), RaggedTail(second)) ==
      Progress(Loader([t.(columns := second)], t.(columns := second)), None)
  {
    var lines := RaggedTail(second);
    ColumnsLineParses(second);
    var s4 := Loader([], t.(columns := second));
    assert Feed(false, Loader([], t), lines[0]) == Ok(s4);
    assert lines[1..] == ["END_TABLE"];
    EndLoad(s4);
  }

  /** The corrected loader stops at the second COLUMNS: line with nothing committed. */
  lemma CorrectedRejectsRaggedTable(name: string, first: seq<Column>, r: Row, second: seq<Column>)
    requires RaggedInput(first, r, second)
    ensures LoadChecked(RaggedFile(name, first, r, second)).error.Some?
    ensures LoadChecked(RaggedFile(name, first, r, second)).state.committed == []
  {
    RaggedPrefix(true, name, first, r);
    RunAppend(true, Start, RaggedHead(name, first, r), RaggedTail(second));
    assert |TableData(name, first, [r]).rows[0].values| != |second|;
    RaggedTailRejected(TableData(name, first, [r]), second);
  }

  lemma RaggedTailRejected(t: TableData, second: seq<Column>)
    requires forall j :: 0 <= j < |second| ==> SaveableName(second[j].name)
    requires CheckedColumns(t, second).Err?
    ensures Run(true, Loader([], t), RaggedTail(second)) ==
      Progress(Loader([], t), Some(CheckedColumns(t, second).error))
  {
    ColumnsLineParses(second);
    assert Feed(true, Loader([], t), ColumnsLine(second)) == Err(CheckedColumns(t, second).error);
  }
}
