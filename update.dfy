/** The UPDATE branch of executeCommand:
      UPDATE <table> SET <column> = <literal> WHERE <column> <op> <literal>
    The clauses are cut out of the line by position, the new value is converted by the type of
    the target column, and one pass over the rows overwrites the target cell of every row whose
    condition cell equals the literal. The operator word is read and never consulted. */
module UpdateCommand {
  import opened Wrappers
  import opened Text
  import opened Numbers
  import opened Schema
  import opened Store
  import opened Command
  import opened SelectCommand

  // ================================================================ clauses

  /** What an UPDATE line names, each piece with its whitespace removed. */
  datatype Assignment = Assignment(tableName: string, target: string, newText: string, column: string, literal: string)

  /** The SET clause read by getline up to '=' and then by getline up to the end of the line:
      the column name, and the text after the first '=' up to a newline ("" when there is no
      '='). */
  function SetParts(setClause: string): (r: (string, string))
    ensures '=' !in r.0 && '\n' !in r.1
    ensures '=' !in setClause ==> r == (setClause, "")
    ensures '=' in setClause ==> r.0 + "=" <= setClause && r.1 <= setClause[|r.0| + 1..]
    ensures '=' in setClause ==> |r.0| + 1 + |r.1| == |setClause| || setClause[|r.0| + 1 + |r.1|] == '\n'
  {
    var (target, rest) := SplitOnce(setClause, '=');
    var (value, _) := SplitOnce(rest, '\n');
    (target, value)
  }

  /** The clauses of an UPDATE line: after one trailing ';' is dropped, "SET" and "WHERE" must
      both occur (case-sensitively); the table name runs from position 7 to "SET", the SET
      clause from 4 past "SET" to "WHERE", the WHERE clause from 6 past "WHERE" to the end. A
      start beyond the end of the line is substr's out_of_range. */
  function UpdateClauses(input: string): (r: Result<Assignment, Reply>)
    ensures r.Ok? ==> NoSpace(r.value.tableName) && NoSpace(r.value.target) && NoSpace(r.value.newText)
    ensures r.Ok? ==> NoSpace(r.value.column) && NoSpace(r.value.literal)
    ensures r == Err(Failed(SyntaxError("UPDATE"))) <==>
      Find(DropSemicolon(input), "SET").None? || Find(DropSemicolon(input), "WHERE").None?
    ensures r.Err? ==> r.error == Failed(SyntaxError("UPDATE")) || r.error == Aborted(OutOfRange)
  {
    var clean := DropSemicolon(input);
    match (Find(clean, "SET"), Find(clean, "WHERE"))
    case (Some(setPos), Some(wherePos)) =>
      (match (Substr(clean, 7, setPos - 7), Substr(clean, setPos + 4, wherePos - setPos - 4), Substr(clean, wherePos + 6, -1))
       case (Some(tableText), Some(setClause), Some(whereClause)) =>
         var (target, newText) := SetParts(setClause);
         Ok(Assignment(RemoveSpaces(tableText), RemoveSpaces(target), RemoveSpaces(newText),
           WhereParts(whereClause).0, WhereParts(whereClause).1))
       case _ => Err(Aborted(OutOfRange)))
    case _ => Err(Failed(SyntaxError("UPDATE")))
  }

  /** The first and third words of the WHERE clause (`condStream >> condCol >> op >>
      condValueStr`); the second, the operator, is dropped. Words hold no whitespace, so
      erasing it changes nothing. */
  function WhereParts(whereClause: string): (r: (string, string))
    ensures NoSpace(r.0) && NoSpace(r.1)
  {
    (WordAt(whereClause, 0), WordAt(whereClause, 2))
  }

  // ================================================================ values

  /** The SET value converted by the type of the target column: stoi for INT, stof for FLOAT
      (either failing is the "Type mismatch" diagnostic), the text with one pair of outer quotes
      stripped for STRING, and `== "true"` for BOOL. */
  function NewValue(t: DataType, text: string): (r: Result<Value, Error>)
    ensures r.Ok? ==> TypeOf(r.value) == t
    ensures r.Err? <==> (t == INT && Stoi(text).None?) || (t == FLOAT && ParseDecimal(text).None?)
    ensures r.Err? ==> r.error == TypeMismatch(text)
  {
    match t
    case INT => (match Stoi(text) case None => Err(TypeMismatch(text)) case Some(i) => Ok(Int(i)))
    case FLOAT => (match ParseDecimal(text) case None => Err(TypeMismatch(text)) case Some(d) => Ok(Float(d)))
    case STRING => Ok(Str(Unquote(text)))
    case BOOL => Ok(Bool(text == "true"))
  }

  /** Whether a condition cell equals the literal, read by the cell's own type: stoi or stof of
      the literal (a literal that does not convert is the exception that ends the command), the
      literal without its outer quotes for a STRING cell, `== "true"` for a BOOL cell. */
  function Matches(cell: Value, literal: string): (r: Result<bool, Error>)
    ensures r.Err? ==> r == Err(InvalidNumber(literal))
    ensures r.Err? <==> (cell.Int? && Stoi(literal).None?) || (cell.Float? && ParseDecimal(literal).None?)
    ensures cell.Str? ==> r == Ok(cell.s == Unquote(literal))
  {
    match cell
    case Int(i) =>
      (match Stoi(literal) case None => Err(InvalidNumber(literal)) case Some(c) => Ok(i == c))
    case Float(d) =>
      (match ParseDecimal(literal) case None => Err(InvalidNumber(literal)) case Some(c) => Ok(CompareDecimal(d, c) == 0))
    case Str(s) => Ok(s == Unquote(literal))
    case Bool(b) => Ok(b == (literal == "true"))
  }

  /** UPDATE's test is SELECT's "==" test, whatever operator the UPDATE line wrote. */
  lemma MatchesIsSelectEquality(cell: Value, column: string, literal: string)
    ensures Matches(cell, literal) == Shown(cell, Condition(column, "==", literal))
  {
    match cell {
      case Int(i) =>
        if Stoi(literal).Some? {
          CompareIntMeaning(i as int, Stoi(literal).value as int);
        }
      case Float(d) =>
      case Str(s) =>
      case Bool(b) =>
    }
  }

  // ================================================================ the pass over the rows

  /** One outcome per row, and every row whose test holds has a cell at index target. */
  predicate Fits(rows: seq<Row>, target: nat, ds: seq<Result<bool, Error>>) {
    |ds| == |rows| && forall j :: 0 <= j < |rows| && ds[j] == Ok(true) ==> target < |rows[j].values|
  }

  /** The row with its cell k replaced by v. */
  function Assigned(row: Row, k: nat, v: Value): (r: Row)
    requires k < |row.values|
    ensures |r.values| == |row.values| && r.values[k] == v
    ensures forall j :: 0 <= j < |row.values| && j != k ==> r.values[j] == row.values[j]
  {
    Row(row.values[k := v])
  }

  /** The state of the pass: the rows, the count of updated rows and the exception that ended
      the pass, if one did. */
  datatype Sweep = Sweep(rows: seq<Row>, count: nat, error: Option<Error>)

  /** The pass over the first n rows, given the test's outcome for each row: a row that matches
      gets cell `target` replaced and is counted; the first failing test ends the pass, keeping
      what was already written. */
  function SweepRows(rows: seq<Row>, target: nat, v: Value, ds: seq<Result<bool, Error>>, n: nat): (s: Sweep)
    requires Fits(rows, target, ds) && n <= |rows|
    ensures |s.rows| == |rows|
    ensures forall k :: n <= k < |rows| ==> s.rows[k] == rows[k]
  {
    if n == 0 then Sweep(rows, 0, None)
    else
      var s := SweepRows(rows, target, v, ds, n - 1);
      if s.error.Some? then s
      else match ds[n - 1]
        case Err(e) => s.(error := Some(e))
        case Ok(hit) =>
          if hit then Sweep(s.rows[n - 1 := Assigned(rows[n - 1], target, v)], s.count + 1, None)
          else s
  }

  /** How many of the first n tests the pass gets through: the index of the first failing
      test, or n. */
  function Reached(ds: seq<Result<bool, Error>>, n: nat): (m: nat)
    requires n <= |ds|
    ensures m <= n
    ensures forall k :: 0 <= k < m ==> ds[k].Ok?
    ensures m < n ==> ds[m].Err?
  {
    if n == 0 then 0
    else
      var m := Reached(ds, n - 1);
      if m < n - 1 then m else if ds[n - 1].Err? then n - 1 else n
  }

  /** The rows among the first m whose test came out true. */
  function Hits(ds: seq<Result<bool, Error>>, m: nat): set<nat>
    requires m <= |ds|
  {
    set k: nat | k < m && ds[k] == Ok(true)
  }

  /** The pass over the first n rows reports the first failing test, if any, and counts the
      true tests before it. */
  lemma {:induction false} SweepOutcome(rows: seq<Row>, target: nat, v: Value, ds: seq<Result<bool, Error>>, n: nat)
    requires Fits(rows, target, ds) && n <= |rows|
    ensures var s := SweepRows(rows, target, v, ds, n); var m := Reached(ds, n);
      s.error == (if m < n then Some(ds[m].error) else None) && s.count == |Hits(ds, m)|
  {
    if n > 0 {
      SweepOutcome(rows, target, v, ds, n - 1);
      if Reached(ds, n - 1) == n - 1 && ds[n - 1].Ok? {
        HitsStep(ds, n - 1);
      }
    }
  }

  /** One more test that converted. */
  lemma HitsStep(ds: seq<Result<bool, Error>>, m: nat)
    requires m < |ds| && ds[m].Ok?
    ensures |Hits(ds, m + 1)| == |Hits(ds, m)| + (if ds[m].value then 1 else 0)
  {
    if ds[m].value {
      assert Hits(ds, m + 1) == Hits(ds, m) + {m};
    } else {
      assert Hits(ds, m + 1) == Hits(ds, m);
    }
  }

  /** The tests before the first failure decide each row (replaced when true, untouched when
      false); every later row is untouched. */
  lemma {:induction false} SweepDecides(rows: seq<Row>, target: nat, v: Value, ds: seq<Result<bool, Error>>, n: nat)
    requires Fits(rows, target, ds) && n <= |rows|
    ensures var s := SweepRows(rows, target, v, ds, n); var m := Reached(ds, n);
      (forall k :: 0 <= k < m ==> s.rows[k] == if ds[k] == Ok(true) then Assigned(rows[k], target, v) else rows[k]) &&
      (forall k :: m <= k < |rows| ==> s.rows[k] == rows[k])
  {
    if n > 0 {
      SweepDecides(rows, target, v, ds, n - 1);
      SweepOutcome(rows, target, v, ds, n - 1);
      var prev := SweepRows(rows, target, v, ds, n - 1);
      var m := Reached(ds, n - 1);
      if m < n - 1 {
        assert SweepRows(rows, target, v, ds, n) == prev && Reached(ds, n) == m;
      } else if ds[n - 1].Err? {
        assert SweepRows(rows, target, v, ds, n).rows == prev.rows && Reached(ds, n) == n - 1;
      } else {
        assert Reached(ds, n) == n;
        var next := SweepRows(rows, target, v, ds, n).rows;
        assert next == if ds[n - 1].value then prev.rows[n - 1 := Assigned(rows[n - 1], target, v)] else prev.rows;
        DecidedExtend(rows, target, v, ds, n, prev.rows, next);
      }
    }
  }

  /** A row whose test passed or failed without an error extends the decided prefix by one. */
  lemma DecidedExtend(rows: seq<Row>, target: nat, v: Value, ds: seq<Result<bool, Error>>, n: nat,
                      prev: seq<Row>, next: seq<Row>)
    requires Fits(rows, target, ds) && 0 < n <= |rows| && |prev| == |rows| && ds[n - 1].Ok?
    requires forall k :: 0 <= k < n - 1 ==>
      prev[k] == if ds[k] == Ok(true) then Assigned(rows[k], target, v) else rows[k]
    requires forall k :: n - 1 <= k < |rows| ==> prev[k] == rows[k]
    requires next == if ds[n - 1].value then prev[n - 1 := Assigned(rows[n - 1], target, v)] else prev
    ensures forall k :: 0 <= k < n ==>
      next[k] == if ds[k] == Ok(true) then Assigned(rows[k], target, v) else rows[k]
    ensures forall k :: n <= k < |rows| ==> next[k] == rows[k]
  {
  }

  /** The pass over the first n rows, both halves. */
  lemma SweepMeaning(rows: seq<Row>, target: nat, v: Value, ds: seq<Result<bool, Error>>, n: nat)
    requires Fits(rows, target, ds) && n <= |rows|
    ensures var s := SweepRows(rows, target, v, ds, n); var m := Reached(ds, n);
      s.error == (if m < n then Some(ds[m].error) else None) &&
      s.count == |Hits(ds, m)| &&
      (forall k :: 0 <= k < m ==> s.rows[k] == if ds[k] == Ok(true) then Assigned(rows[k], target, v) else rows[k]) &&
      (forall k :: m <= k < |rows| ==> s.rows[k] == rows[k])
  {
    SweepOutcome(rows, target, v, ds, n);
    SweepDecides(rows, target, v, ds, n);
  }

  /** One more row: a failing test records the error, a true test replaces the row's target
      cell and counts it, a false test changes nothing. */
  lemma SweepStep(rows: seq<Row>, target: nat, v: Value, ds: seq<Result<bool, Error>>, n: nat)
    requires Fits(rows, target, ds) && n < |rows|
    requires SweepRows(rows, target, v, ds, n).error.None?
    ensures var s := SweepRows(rows, target, v, ds, n);
      SweepRows(rows, target, v, ds, n + 1) ==
        if ds[n].Err? then s.(error := Some(ds[n].error))
        else if ds[n].value then Sweep(s.rows[n := Assigned(rows[n], target, v)], s.count + 1, None)
        else s
  {
  }

  /** One step of the row loop, in terms of the rows as they stand before it: the test of row n
      is the one recorded for it, and the rows after the step are those of the pass over n + 1. */
  lemma SweepAdvance(rows: seq<Row>, target: nat, v: Value, ds: seq<Result<bool, Error>>, n: nat,
                     now: seq<Row>, count: nat, test: Result<bool, Error>, next: seq<Row>)
    requires Fits(rows, target, ds) && n < |rows|
    requires SweepRows(rows, target, v, ds, n) == Sweep(now, count, None)
    requires test == ds[n]
    requires test == Ok(true) ==> target < |now[n].values|
    requires next == if test == Ok(true) then now[n := Assigned(now[n], target, v)] else now
    ensures SweepRows(rows, target, v, ds, n + 1) ==
      Sweep(next, if test == Ok(true) then count + 1 else count, if test.Err? then Some(test.error) else None)
  {
    SweepStep(rows, target, v, ds, n);
    assert now[n] == rows[n];
  }

  /** Once a test has failed, the further rows change nothing. */
  lemma {:induction false} SweepStops(rows: seq<Row>, target: nat, v: Value, ds: seq<Result<bool, Error>>, n: nat, m: nat)
    requires Fits(rows, target, ds) && n <= m <= |rows|
    requires SweepRows(rows, target, v, ds, n).error.Some?
    ensures SweepRows(rows, target, v, ds, m) == SweepRows(rows, target, v, ds, n)
  {
    if m > n {
      SweepStops(rows, target, v, ds, n, m - 1);
    }
  }

  // ================================================================ the command over values

  /** The resolved SET: the target column, the condition column (each the last column of that
      name, as the loop without `break` leaves them) and the converted new value. */
  datatype Plan = Plan(target: nat, column: nat, value: Value)

  /** Both columns looked up (either missing is the "Column not found" diagnostic, which names
      neither; the model names the target when it is missing, else the condition column), then
      the new value converted by the target column's type. */
  function Prepare(columns: seq<Column>, a: Assignment): (r: Result<Plan, Error>)
    ensures r.Ok? ==> Some(r.value.target) == LastColumnIndex(columns, a.target)
    ensures r.Ok? ==> Some(r.value.column) == LastColumnIndex(columns, a.column)
    ensures r.Ok? ==> NewValue(columns[r.value.target].dtype, a.newText) == Ok(r.value.value)
    ensures r.Err? <==> (
      LastColumnIndex(columns, a.target).None? || LastColumnIndex(columns, a.column).None? ||
      NewValue(columns[LastColumnIndex(columns, a.target).value].dtype, a.newText).Err?)
  {
    match (LastColumnIndex(columns, a.target), LastColumnIndex(columns, a.column))
    case (None, _) => Err(ColumnNotFound(a.target))
    case (_, None) => Err(ColumnNotFound(a.column))
    case (Some(target), Some(column)) =>
      match NewValue(columns[target].dtype, a.newText)
      case Err(e) => Err(e)
      case Ok(v) => Ok(Plan(target, column, v))
  }

  /** The test the loop makes on one row: its cell in the condition column against the
      literal, and, when that matches, the write to its target cell. A row without the
      condition cell, or a matching row without the target cell, is the read or write past the
      end of the row that C++ leaves undefined, RowTooShort here. */
  function Test(row: Row, p: Plan, literal: string): (r: Result<bool, Error>)
    ensures r == Ok(true) ==> p.target < |row.values|
    ensures |row.values| <= p.column ==> r == Err(RowTooShort)
    ensures p.column < |row.values| && p.target < |row.values| ==> r == Matches(row.values[p.column], literal)
  {
    if |row.values| <= p.column then Err(RowTooShort)
    else
      match Matches(row.values[p.column], literal)
      case Err(e) => Err(e)
      case Ok(hit) => if hit && |row.values| <= p.target then Err(RowTooShort) else Ok(hit)
  }

  /** The outcome of the test on each row. */
  function Tests(rows: seq<Row>, p: Plan, literal: string): (ds: seq<Result<bool, Error>>)
    ensures Fits(rows, p.target, ds)
    ensures forall k :: 0 <= k < |rows| ==> ds[k] == Test(rows[k], p, literal)
    decreases |rows|
  {
    if rows == [] then [] else [Test(rows[0], p, literal)] + Tests(rows[1..], p, literal)
  }

  /** The pass over every row of a table. */
  function Apply(t: TableData, p: Plan, literal: string): (s: Sweep)
    ensures |s.rows| == |t.rows|
  {
    SweepRows(t.rows, p.target, p.value, Tests(t.rows, p, literal), |t.rows|)
  }

  /** The UPDATE branch over the contents of the database: the reply and the tables after it.
      Only the pass over the rows writes anything; an exception from it leaves the rows before
      the failing one already written. */
  function Update(tables: seq<TableData>, input: string): (r: (Reply, seq<TableData>))
    ensures |r.1| == |tables|
    ensures r.0.Failed? ==> r.1 == tables
    ensures r.0.Failed? || r.0.Aborted? || r.0.RowsUpdated?
  {
    match UpdateClauses(input)
    case Err(reply) => (reply, tables)
    case Ok(a) => Assign(tables, a)
  }

  /** The UPDATE branch from getTable on, for the clauses already cut out. */
  function Assign(tables: seq<TableData>, a: Assignment): (r: (Reply, seq<TableData>))
    ensures |r.1| == |tables|
    ensures r.0.Failed? ==> r.1 == tables
    ensures r.0.RowsUpdated? ==> r.0.table == a.tableName && TableIndex(tables, a.tableName).Some?
  {
    match TableIndex(tables, a.tableName)
    case None => (Failed(TableNotFound(a.tableName)), tables)
    case Some(i) =>
      match Prepare(tables[i].columns, a)
      case Err(e) => (Failed(e), tables)
      case Ok(p) =>
        var s := Apply(tables[i], p, a.literal);
        var after := tables[i := tables[i].(rows := s.rows)];
        if s.error.Some? then (Aborted(s.error.value), after)
        else (RowsUpdated(a.tableName, s.count), after)
  }

  /** A pass that completes replaces the target cell of exactly the rows whose condition cell
      equals the literal, and of no other row, and counts those rows; a pass that fails does so
      at the first row whose literal does not convert, having written only the rows before it. */
  lemma ApplyMeaning(t: TableData, p: Plan, literal: string)
    ensures var s := Apply(t, p, literal);
      |s.rows| == |t.rows| &&
      (s.error.None? <==> forall k :: 0 <= k < |t.rows| ==> Test(t.rows[k], p, literal).Ok?)
    ensures var s := Apply(t, p, literal);
      s.error.None? ==>
        s.count == |set k: nat | k < |t.rows| && Test(t.rows[k], p, literal) == Ok(true)| &&
        forall k :: 0 <= k < |t.rows| ==>
          s.rows[k] == if Test(t.rows[k], p, literal) == Ok(true)
            then Assigned(t.rows[k], p.target, p.value) else t.rows[k]
    ensures var s := Apply(t, p, literal);
      s.error.Some? ==> exists m :: 0 <= m < |t.rows| && FailsAt(t, p, literal, m, s)
  {
    var ds := Tests(t.rows, p, literal);
    var n := |t.rows|;
    SweepMeaning(t.rows, p.target, p.value, ds, n);
    var s := Apply(t, p, literal);
    var m := Reached(ds, n);
    if s.error.None? {
      assert m == n;
      assert Hits(ds, n) == set k: nat | k < |t.rows| && Test(t.rows[k], p, literal) == Ok(true);
    } else {
      assert FailsAt(t, p, literal, m, s);
    }
  }

  /** The pass stopped at row m: every test before it converted, the test of row m threw the
      error reported, the rows before m are decided by their tests and the rows from m on are
      untouched. */
  predicate FailsAt(t: TableData, p: Plan, literal: string, m: nat, s: Sweep)
    requires m < |t.rows| && |s.rows| == |t.rows|
  {
    Test(t.rows[m], p, literal).Err? &&
    s.error == Some(Test(t.rows[m], p, literal).error) &&
    (forall k :: 0 <= k < m ==> Test(t.rows[k], p, literal).Ok?) &&
    (forall k :: 0 <= k < m ==>
      s.rows[k] == if Test(t.rows[k], p, literal) == Ok(true)
        then Assigned(t.rows[k], p.target, p.value) else t.rows[k]) &&
    (forall k :: m <= k < |t.rows| ==> s.rows[k] == t.rows[k])
  }

  /** Two tables of the same name and columns whose rows are as many and as wide. */
  predicate SameShape(t: TableData, u: TableData) {
    u.name == t.name && u.columns == t.columns && |u.rows| == |t.rows| &&
    forall k :: 0 <= k < |t.rows| ==> |u.rows[k].values| == |t.rows[k].values|
  }

  /** The pass leaves every row as it was or with its target cell replaced, so every row keeps
      its width, a rectangular table stays rectangular, and the cells stay typed by their
      columns when the new value has the target column's type. */
  lemma ApplyKeepsShape(t: TableData, p: Plan, literal: string)
    ensures var s := Apply(t, p, literal);
      forall k :: 0 <= k < |t.rows| ==>
        s.rows[k] == t.rows[k] || (p.target < |t.rows[k].values| && s.rows[k] == Assigned(t.rows[k], p.target, p.value))
    ensures SameShape(t, t.(rows := Apply(t, p, literal).rows))
    ensures Rectangular(t) ==> Rectangular(t.(rows := Apply(t, p, literal).rows))
    ensures WellTyped(t) && p.target < |t.columns| && TypeOf(p.value) == t.columns[p.target].dtype ==>
      WellTyped(t.(rows := Apply(t, p, literal).rows))
  {
    ApplyRowwise(t, p, literal);
    var u := t.(rows := Apply(t, p, literal).rows);
    assert SameShape(t, u);
    if WellTyped(t) && p.target < |t.columns| && TypeOf(p.value) == t.columns[p.target].dtype {
      forall k, j | 0 <= k < |u.rows| && 0 <= j < |u.columns|
        ensures TypeOf(u.rows[k].values[j]) == u.columns[j].dtype
      {
        assert u.rows[k] == t.rows[k] || u.rows[k] == Assigned(t.rows[k], p.target, p.value);
      }
    }
  }

  /** Row by row, the pass keeps the row or replaces its target cell. */
  lemma ApplyRowwise(t: TableData, p: Plan, literal: string)
    ensures var s := Apply(t, p, literal);
      forall k :: 0 <= k < |t.rows| ==>
        s.rows[k] == t.rows[k] || (p.target < |t.rows[k].values| && s.rows[k] == Assigned(t.rows[k], p.target, p.value))
  {
    var ds := Tests(t.rows, p, literal);
    SweepMeaning(t.rows, p.target, p.value, ds, |t.rows|);
  }

  /** An UPDATE changes at most the table its name finds, and in it only cells: every table
      keeps its name, its columns, its number of rows and the width of each row, so a
      rectangular table stays rectangular, and a well-typed one stays well typed. A diagnostic
      changes nothing. */
  lemma UpdateKeepsInvariants(tables: seq<TableData>, input: string)
    ensures var (reply, after) := Update(tables, input);
      |after| == |tables| && (reply.Failed? ==> after == tables) &&
      (AllRectangular(tables) ==> AllRectangular(after))
    ensures var after := Update(tables, input).1;
      forall k :: 0 <= k < |tables| ==>
        SameShape(tables[k], after[k]) &&
        (Rectangular(tables[k]) ==> Rectangular(after[k])) &&
        (WellTyped(tables[k]) ==> WellTyped(after[k])) &&
        (after[k] != tables[k] ==> TableIndex(tables, tables[k].name) == Some(k))
  {
    if UpdateClauses(input).Ok? {
      AssignKeepsInvariants(tables, UpdateClauses(input).value);
    }
  }

  /** The same, once the clauses are cut out. */
  lemma AssignKeepsInvariants(tables: seq<TableData>, a: Assignment)
    ensures var (reply, after) := Assign(tables, a);
      |after| == |tables| && (reply.Failed? ==> after == tables) &&
      (AllRectangular(tables) ==> AllRectangular(after))
    ensures var after := Assign(tables, a).1;
      forall k :: 0 <= k < |tables| ==>
        SameShape(tables[k], after[k]) &&
        (Rectangular(tables[k]) ==> Rectangular(after[k])) &&
        (WellTyped(tables[k]) ==> WellTyped(after[k])) &&
        (after[k] != tables[k] ==> TableIndex(tables, tables[k].name) == Some(k))
  {
    match TableIndex(tables, a.tableName)
    case None =>
    case Some(i) =>
      match Prepare(tables[i].columns, a)
      case Err(_) =>
      case Ok(p) =>
        var u := tables[i].(rows := Apply(tables[i], p, a.literal).rows);
        ApplyKeepsShape(tables[i], p, a.literal);
        assert Assign(tables, a).1 == tables[i := u];
        ReplacedTable(tables, i, u);
  }

  /** One table replaced by another of the same shape, well typed when the first one was. */
  lemma ReplacedTable(tables: seq<TableData>, i: nat, u: TableData)
    requires i < |tables| && TableIndex(tables, tables[i].name) == Some(i)
    requires SameShape(tables[i], u) && (Rectangular(tables[i]) ==> Rectangular(u))
    requires WellTyped(tables[i]) ==> WellTyped(u)
    ensures AllRectangular(tables) ==> AllRectangular(tables[i := u])
    ensures var after := tables[i := u];
      forall k :: 0 <= k < |tables| ==>
        SameShape(tables[k], after[k]) &&
        (Rectangular(tables[k]) ==> Rectangular(after[k])) &&
        (WellTyped(tables[k]) ==> WellTyped(after[k])) &&
        (after[k] != tables[k] ==> TableIndex(tables, tables[k].name) == Some(k))
  {
  }

  /** A second pass over the rows a completed pass left changes none of them, when it
      completes too. */
  lemma ApplyTwice(t: TableData, p: Plan, literal: string)
    requires Apply(t, p, literal).error.None?
    ensures var u := t.(rows := Apply(t, p, literal).rows);
      Apply(u, p, literal).error.None? ==> Apply(u, p, literal).rows == u.rows
  {
    ApplyKeepsShape(t, p, literal);
    var u := t.(rows := Apply(t, p, literal).rows);
    ApplyMeaning(t, p, literal);
    ApplyMeaning(u, p, literal);
    var s2 := Apply(u, p, literal);
    if s2.error.None? {
      forall k | 0 <= k < |u.rows|
        ensures s2.rows[k] == u.rows[k]
      {
        if Test(t.rows[k], p, literal) == Ok(true) {
          assert u.rows[k] == Assigned(t.rows[k], p.target, p.value);
          if Test(u.rows[k], p, literal) == Ok(true) {
            assert Assigned(u.rows[k], p.target, p.value).values == u.rows[k].values;
          }
        } else {
          assert u.rows[k] == t.rows[k];
        }
      }
    }
  }

  /** Running the same UPDATE twice leaves the tables as running it once, when neither run
      throws: the rows that matched already hold the new value, and those that did not still
      do not match. */
  lemma UpdateIdempotent(tables: seq<TableData>, input: string)
    requires Update(tables, input).0.RowsUpdated?
    ensures Update(Update(tables, input).1, input).0.RowsUpdated? ==>
      Update(Update(tables, input).1, input).1 == Update(tables, input).1
  {
    UpdateKeepsInvariants(tables, input);
    AssignIdempotent(tables, UpdateClauses(input).value);
  }

  /** The same, once the clauses are cut out. */
  lemma AssignIdempotent(tables: seq<TableData>, a: Assignment)
    requires Assign(tables, a).0.RowsUpdated?
    ensures Assign(Assign(tables, a).1, a).0.RowsUpdated? ==> Assign(Assign(tables, a).1, a).1 == Assign(tables, a).1
  {
    var i := TableIndex(tables, a.tableName).value;
    var p := Prepare(tables[i].columns, a).value;
    var t := tables[i];
    var after := Assign(tables, a).1;
    var u := after[i];
    assert u == t.(rows := Apply(t, p, a.literal).rows);
    TableIndexAt(after, a.tableName, i);
    ApplyTwice(t, p, a.literal);
    if Assign(after, a).0.RowsUpdated? {
      assert after[i := u.(rows := Apply(u, p, a.literal).rows)] == after;
    }
  }

  // ================================================================ the command over the objects

  /** The column loop: one pass that remembers the last column of each name. */
  method FindColumns(columns: seq<Column>, target: string, column: string) returns (targetIndex: Option<nat>, condIndex: Option<nat>)
    ensures targetIndex == LastColumnIndex(columns, target)
    ensures condIndex == LastColumnIndex(columns, column)
  {
    targetIndex, condIndex := None, None;
    var i := 0;
    while i < |columns|
      invariant 0 <= i <= |columns|
      invariant targetIndex == LastColumnIndex(columns[..i], target)
      invariant condIndex == LastColumnIndex(columns[..i], column)
    {
      assert columns[..i + 1][..i] == columns[..i];
      if columns[i].name == target {
        targetIndex := Some(i);
      }
      if columns[i].name == column {
        condIndex := Some(i);
      }
      i := i + 1;
    }
    assert columns[..i] == columns;
  }

  /** The row loop: each row's condition cell is compared in turn, a match has its target cell
      overwritten in place and is counted, and a test that throws ends the loop with the rows
      before it already written. */
  method UpdateRows(table: Table, p: Plan, literal: string) returns (count: nat, err: Option<Error>)
    modifies table
    ensures table.name == old(table.name) && table.columns == old(table.columns)
    ensures Sweep(table.rows, count, err) ==
      SweepRows(old(table.rows), p.target, p.value, Tests(old(table.rows), p, literal), |old(table.rows)|)
  {
    ghost var rows0 := table.rows;
    ghost var ds := Tests(rows0, p, literal);
    count, err := 0, None;
    var i := 0;
    while i < |table.rows|
      invariant 0 <= i <= |table.rows| == |rows0|
      invariant table.name == old(table.name) && table.columns == old(table.columns)
      invariant SweepRows(rows0, p.target, p.value, ds, i) == Sweep(table.rows, count, None)
    {
      var test := StepRow(table, i, p, literal, rows0, count);
      if test.Err? {
        SweepStops(rows0, p.target, p.value, ds, i + 1, |rows0|);
        return count, Some(test.error);
      }
      if test.value {
        count := count + 1;
      }
      i := i + 1;
    }
  }

  /** One turn of the row loop, seen from the whole pass: after row i the rows and the count are
      those of the pass over the first i + 1 rows. */
  method StepRow(table: Table, i: nat, p: Plan, literal: string, ghost rows0: seq<Row>, ghost count: nat)
    returns (test: Result<bool, Error>)
    requires i < |rows0| == |table.rows|
    requires SweepRows(rows0, p.target, p.value, Tests(rows0, p, literal), i) == Sweep(table.rows, count, None)
    modifies table
    ensures table.name == old(table.name) && table.columns == old(table.columns)
    ensures SweepRows(rows0, p.target, p.value, Tests(rows0, p, literal), i + 1) ==
      Sweep(table.rows, if test == Ok(true) then count + 1 else count, if test.Err? then Some(test.error) else None)
  {
    ghost var before := table.rows;
    test := VisitRow(table, i, p, literal);
    SweepAdvance(rows0, p.target, p.value, Tests(rows0, p, literal), i, before, count, test, table.rows);
  }

  /** The body of the row loop: row i's condition cell is compared and, on a match, its target
      cell overwritten. */
  method VisitRow(table: Table, i: nat, p: Plan, literal: string) returns (test: Result<bool, Error>)
    requires i < |table.rows|
    modifies table
    ensures test == Test(old(table.rows[i]), p, literal)
    ensures table.name == old(table.name) && table.columns == old(table.columns)
    ensures table.rows == if test == Ok(true) then old(table.rows)[i := Assigned(old(table.rows[i]), p.target, p.value)]
      else old(table.rows)
  {
    var row := table.rows[i];
    if |row.values| <= p.column {
      return Err(RowTooShort);
    }
    test := Matches(row.values[p.column], literal);
    if test == Ok(true) {
      if |row.values| <= p.target {
        return Err(RowTooShort);
      }
      table.rows := table.rows[i := Assigned(table.rows[i], p.target, p.value)];
    }
  }

  /** executeCommand's UPDATE branch on the database: the reply and the new contents are those
      of Update, and the database stays valid. */
  method ExecUpdate(db: Database, input: string) returns (reply: Reply)
    requires db.Valid()
    modifies db.tables
    ensures db.Valid()
    ensures (reply, db.Model()) == Update(old(db.Model()), input)
  {
    var clauses := UpdateClauses(input);
    if clauses.Err? {
      return clauses.error;
    }
    reply := UpdateIn(db, clauses.value);
  }

  /** The UPDATE branch from getTable on. */
  method UpdateIn(db: Database, a: Assignment) returns (reply: Reply)
    requires db.Valid()
    modifies db.tables
    ensures db.Valid()
    ensures (reply, db.Model()) == Assign(old(db.Model()), a)
  {
    var table := db.GetTable(a.tableName);
    if table == null {
      return Failed(TableNotFound(a.tableName));
    }
    var plan := PlanFor(table.columns, a);
    if plan.Err? {
      return Failed(plan.error);
    }
    reply := UpdateTable(db, table, a, plan.value);
  }

  /** The column loop, then the conversion of the SET value. */
  method PlanFor(columns: seq<Column>, a: Assignment) returns (r: Result<Plan, Error>)
    ensures r == Prepare(columns, a)
  {
    var targetIndex, condIndex := FindColumns(columns, a.target, a.column);
    if targetIndex.None? {
      return Err(ColumnNotFound(a.target));
    }
    if condIndex.None? {
      return Err(ColumnNotFound(a.column));
    }
    var newValue := NewValue(columns[targetIndex.value].dtype, a.newText);
    if newValue.Err? {
      return Err(newValue.error);
    }
    return Ok(Plan(targetIndex.value, condIndex.value, newValue.value));
  }

  /** The row loop run on the table getTable found, and the reply it leads to. */
  method UpdateTable(db: Database, table: Table, a: Assignment, p: Plan) returns (reply: Reply)
    requires db.Valid() && TableIndex(db.Model(), a.tableName).Some?
    requires table == db.tables[TableIndex(db.Model(), a.tableName).value]
    requires Prepare(table.columns, a) == Ok(p)
    modifies db.tables
    ensures db.Valid()
    ensures (reply, db.Model()) == Assign(old(db.Model()), a)
  {
    ghost var tables := db.Model();
    ghost var i := TableIndex(tables, a.tableName).value;
    assert tables[i].columns == table.columns;
    var count, err := SweepTable(db, table, i, p, a.literal);
    AssignAt(tables, a, i, p);
    if err.Some? {
      return Aborted(err.value);
    }
    return RowsUpdated(a.tableName, count);
  }

  /** What Assign does once the table and the plan are known. */
  lemma AssignAt(tables: seq<TableData>, a: Assignment, i: nat, p: Plan)
    requires TableIndex(tables, a.tableName) == Some(i)
    requires Prepare(tables[i].columns, a) == Ok(p)
    ensures var s := Apply(tables[i], p, a.literal);
      Assign(tables, a) ==
        (if s.error.Some? then Aborted(s.error.value) else RowsUpdated(a.tableName, s.count),
         tables[i := tables[i].(rows := s.rows)])
  {
  }

  /** The row loop on the i-th table object: only that table's rows change. */
  method SweepTable(db: Database, table: Table, ghost i: nat, p: Plan, literal: string) returns (count: nat, err: Option<Error>)
    requires db.Valid() && i < |db.tables| && table == db.tables[i]
    requires p.target < |table.columns| && p.column < |table.columns|
    modifies db.tables
    ensures db.Valid()
    ensures var s := Apply(old(db.Model())[i], p, literal);
      count == s.count && err == s.error &&
      db.Model() == old(db.Model())[i := old(db.Model())[i].(rows := s.rows)]
  {
    ghost var before := db.Model()[i];
    assert before == table.Data();
    count, err := UpdateRows(table, p, literal);
    assert Sweep(table.rows, count, err) == Apply(before, p, literal);
    assert forall j :: 0 <= j < |db.tables| && j != i ==> db.tables[j] != table;
    assert db.Model() == old(db.Model())[i := before.(rows := table.rows)];
  }
}
