/** SELECT <columns> FROM <table> [WHERE <column> <op> <literal>]: the clauses cut out of the
    query, the columns resolved against the table, and the rows the WHERE test lets through,
    projected on those columns. */
module SelectCommand {
  import opened Wrappers
  import opened Text
  import opened Numbers
  import opened Schema
  import opened Store
  import opened Command

  // ================================================================ clauses

  /** The three clauses of a SELECT: the column list, the table name (without whitespace) and
      the WHERE condition ("" when there is none). */
  datatype Query = Query(columnText: string, tableName: string, condition: string)

  /** Cuts a SELECT into its clauses: one trailing ';' dropped, FROM and WHERE searched for in
      the upper-cased query, the column list from offset 7 to FROM, the table name after
      "FROM " up to the WHERE keyword, the condition after "WHERE ". A missing FROM is a
      diagnostic; a substr past the end is the out_of_range exception (Err carries the reply
      that ends the command). */
  function SelectClauses(input: string): (r: Result<Query, Reply>)
    ensures r.Ok? ==> NoSpace(r.value.tableName)
    ensures r.Err? ==> r.error == Failed(SyntaxError("SELECT")) || r.error == Aborted(OutOfRange)
  {
    var query := DropSemicolon(input);
    var upper := ToUpper(query);
    match Find(upper, "FROM")
    case None => Err(Failed(SyntaxError("SELECT")))
    case Some(fromPos) => ClausesAt(query, fromPos, Find(upper, "WHERE"))
  }

  /** The clauses cut at the FROM found at fromPos and at the WHERE found, if any. */
  function ClausesAt(query: string, fromPos: nat, where: Option<nat>): (r: Result<Query, Reply>)
    ensures r.Ok? ==> NoSpace(r.value.tableName)
    ensures r.Err? ==> r.error == Aborted(OutOfRange)
  {
    match (Substr(query, 7, fromPos - 7), Substr(query, fromPos + 5, -1))
    case (Some(columnText), Some(afterFrom)) =>
      (match where
       case None => Ok(Query(columnText, RemoveSpaces(afterFrom), ""))
       case Some(wherePos) =>
         var tableName := Substr(afterFrom, 0, wherePos - fromPos - 6).value;
         match Substr(query, wherePos + 6, -1)
         case None => Err(Aborted(OutOfRange))
         case Some(condition) => Ok(Query(columnText, RemoveSpaces(tableName), condition)))
    case _ => Err(Aborted(OutOfRange))
  }

  /** The SELECT line with a WHERE clause, without its ';'. */
  function SelectQuery(columnText: string, tableName: string, condition: string): string {
    ("SELECT " + columnText + " ") + ("FROM " + tableName + " ") + ("WHERE " + condition)
  }

  /** The keywords found first in a SELECT line are the ones written, when the column list
      holds no F or W and the table name no W, in either case. */
  predicate KeywordFree(columnText: string, tableName: string) {
    (forall i :: 0 <= i < |columnText| ==> Upper(columnText[i]) != 'F' && Upper(columnText[i]) != 'W') &&
    (forall i :: 0 <= i < |tableName| ==> Upper(tableName[i]) != 'W')
  }

  /** A SELECT line is cut back into the clauses it was written from, as long as the keywords
      found first are the ones written. The column text keeps the blank before FROM. */
  lemma SelectClausesRoundTrip(columnText: string, tableName: string, condition: string)
    requires KeywordFree(columnText, tableName) && NoSpace(tableName)
    ensures SelectClauses(SelectQuery(columnText, tableName, condition) + ";") ==
      Ok(Query(columnText + " ", tableName, condition))
  {
    var query := SelectQuery(columnText, tableName, condition);
    var fromPos := |columnText| + 8;
    var wherePos := fromPos + |tableName| + 6;
    assert Find(ToUpper(query), "FROM") == Some(fromPos) by {
      FindFromKeyword(columnText, tableName, condition);
    }
    assert Find(ToUpper(query), "WHERE") == Some(wherePos) by {
      FindWhereKeyword(columnText, tableName, condition);
    }
    SelectPieces(columnText, tableName, condition);
    assert DropSemicolon(query + ";") == query;
  }

  /** With FROM found at fromPos and WHERE after it, the clauses are the text between the
      keywords. */
  lemma SelectClausesAt(query: string, fromPos: nat, wherePos: nat)
    requires 7 <= fromPos && fromPos + 6 <= wherePos && wherePos + 6 <= |query|
    ensures ClausesAt(query, fromPos, Some(wherePos)) ==
      Ok(Query(query[7..fromPos], RemoveSpaces(query[fromPos + 5..wherePos - 1]), query[wherePos + 6..]))
  {
    var afterFrom := query[fromPos + 5..];
    assert afterFrom[0..wherePos - fromPos - 6] == query[fromPos + 5..wherePos - 1];
  }

  lemma FindFromKeyword(columnText: string, tableName: string, condition: string)
    requires KeywordFree(columnText, tableName)
    ensures Find(ToUpper(SelectQuery(columnText, tableName, condition)), "FROM") == Some(|columnText| + 8)
  {
    var head := "SELECT " + columnText + " ";
    var query := SelectQuery(columnText, tableName, condition);
    var upper := ToUpper(query);
    var k := |head|;
    assert query[k..k + 4] == "FROM";
    assert upper[k..k + 4] == "FROM";
    forall j | 0 <= j < k ensures upper[j] != 'F' {
      assert query[j] == head[j];
      if 7 <= j < k - 1 {
        assert head[j] == columnText[j - 7];
      }
    }
    FindAt(upper, "FROM", k);
  }

  lemma FindWhereKeyword(columnText: string, tableName: string, condition: string)
    requires KeywordFree(columnText, tableName)
    ensures Find(ToUpper(SelectQuery(columnText, tableName, condition)), "WHERE") ==
      Some(|columnText| + |tableName| + 14)
  {
    var head := "SELECT " + columnText + " ";
    var middle := "FROM " + tableName + " ";
    var query := SelectQuery(columnText, tableName, condition);
    var upper := ToUpper(query);
    var k := |head| + |middle|;
    assert query[k..k + 5] == "WHERE";
    assert upper[k..k + 5] == "WHERE";
    forall j | 0 <= j < k ensures upper[j] != 'W' {
      if j < |head| {
        assert query[j] == head[j];
        if 7 <= j < |head| - 1 {
          assert head[j] == columnText[j - 7];
        }
      } else {
        assert query[j] == middle[j - |head|];
        if 5 <= j - |head| < |middle| - 1 {
          assert middle[j - |head|] == tableName[j - |head| - 5];
        }
      }
    }
    FindAt(upper, "WHERE", k);
  }

  /** Where the SELECT branch cuts the line, the pieces written are found. */
  lemma SelectPieces(columnText: string, tableName: string, condition: string)
    requires NoSpace(tableName)
    ensures var query := SelectQuery(columnText, tableName, condition);
      var fromPos := |columnText| + 8;
      ClausesAt(query, fromPos, Some(fromPos + |tableName| + 6)) == Ok(Query(columnText + " ", tableName, condition))
  {
    var query := SelectQuery(columnText, tableName, condition);
    var fromPos := |columnText| + 8;
    var wherePos := fromPos + |tableName| + 6;
    assert query[7..fromPos] == columnText + " ";
    assert query[fromPos + 5..wherePos - 1] == tableName;
    assert query[wherePos + 6..] == condition;
    RemoveSpacesNoop(tableName);
    SelectClausesAt(query, fromPos, wherePos);
  }

  // ================================================================ columns  // ================================================================ columns

  /** The column indices a SELECT shows: every column, in order, when the list has a '*'
      anywhere; otherwise each comma-separated name (whitespace removed) resolved to its first
      column, and the first unknown name is a diagnostic. */
  function ResolveColumns(columns: seq<Column>, columnText: string): (r: Result<seq<nat>, Error>)
    ensures r.Ok? ==> forall k :: 0 <= k < |r.value| ==> r.value[k] < |columns|
    ensures '*' in columnText ==> r.Ok? && |r.value| == |columns| && forall k :: 0 <= k < |columns| ==> r.value[k] == k
    ensures '*' !in columnText && r.Ok? ==> |r.value| == |GetlineFields(columnText)|
  {
    if '*' in columnText then Ok(seq(|columns|, k => k))
    else ResolveNames(columns, GetlineFields(columnText))
  }

  /** The pieces of an explicit column list resolved in order. */
  function ResolveNames(columns: seq<Column>, pieces: seq<string>): (r: Result<seq<nat>, Error>)
    ensures r.Ok? ==> |r.value| == |pieces|
    ensures r.Ok? ==> forall k :: 0 <= k < |r.value| ==>
      ColumnIndex(columns, RemoveSpaces(pieces[k])) == Some(r.value[k])
    ensures r.Err? ==> exists k :: 0 <= k < |pieces| && Unresolved(columns, pieces[k], r.error)
  {
    if pieces == [] then Ok([])
    else
      var init := pieces[..|pieces| - 1];
      var name := RemoveSpaces(pieces[|pieces| - 1]);
      match ResolveNames(columns, init)
      case Err(e) => Err(e)
      case Ok(ix) =>
        match ColumnIndex(columns, name)
        case None => Err(ColumnNotFound(name))
        case Some(k) => Ok(ix + [k])
  }

  /** The diagnostic for a piece of the column list that names no column. */
  predicate Unresolved(columns: seq<Column>, piece: string, e: Error) {
    ColumnIndex(columns, RemoveSpaces(piece)).None? && e == ColumnNotFound(RemoveSpaces(piece))
  }

  /** The header line: the names of the selected columns. */
  function Header(columns: seq<Column>, ix: seq<nat>): (h: seq<string>)
    requires forall k :: 0 <= k < |ix| ==> ix[k] < |columns|
    ensures |h| == |ix|
  {
    seq(|ix|, k requires 0 <= k < |ix| => columns[ix[k]].name)
  }

  /** A '*' anywhere selects every column in table order, whatever else the list says. */
  lemma StarSelectsAll(columns: seq<Column>, columnText: string)
    requires '*' in columnText
    ensures ResolveColumns(columns, columnText).Ok?
    ensures Header(columns, ResolveColumns(columns, columnText).value) ==
      seq(|columns|, k requires 0 <= k < |columns| => columns[k].name)
  {
  }

  /** An explicit list is shown under the names written (whitespace removed), in the order
      written, each the first column of that name. */
  lemma ExplicitHeader(columns: seq<Column>, columnText: string)
    requires '*' !in columnText
    requires ResolveColumns(columns, columnText).Ok?
    ensures var pieces := GetlineFields(columnText);
      Header(columns, ResolveColumns(columns, columnText).value) ==
        seq(|pieces|, k requires 0 <= k < |pieces| => RemoveSpaces(pieces[k]))
  {
  }

  /** std::find over the columns by name, with `break` at the first match. */
  method FindColumn(columns: seq<Column>, name: string) returns (r: Option<nat>)
    ensures r == ColumnIndex(columns, name)
  {
    var i := 0;
    while i < |columns|
      invariant 0 <= i <= |columns|
      invariant forall j :: 0 <= j < i ==> columns[j].name != name
    {
      if columns[i].name == name {
        ColumnIndexAt(columns, name, i);
        return Some(i);
      }
      i := i + 1;
    }
    return None;
  }

  /** The first column of a name is the one ColumnIndex finds. */
  lemma {:induction false} ColumnIndexAt(columns: seq<Column>, name: string, i: nat)
    requires i < |columns| && columns[i].name == name
    requires forall j :: 0 <= j < i ==> columns[j].name != name
    ensures ColumnIndex(columns, name) == Some(i)
    decreases i
  {
    if i > 0 {
      ColumnIndexAt(columns[1..], name, i - 1);
    }
  }

  /** The column loop of the SELECT branch. */
  method SelectColumns(columns: seq<Column>, columnText: string) returns (r: Result<seq<nat>, Error>)
    ensures r == ResolveColumns(columns, columnText)
  {
    var star := FindChar(columnText, '*');
    if star.Some? {
      var ix := AllColumns(|columns|);
      return Ok(ix);
    }
    r := NamedColumns(columns, GetlineFields(columnText));
  }

  /** The '*' loop: every index in order. */
  method AllColumns(n: nat) returns (ix: seq<nat>)
    ensures ix == seq(n, k => k)
  {
    ix := [];
    var i := 0;
    while i < n
      invariant 0 <= i <= n
      invariant ix == seq(i, k => k)
    {
      ix := ix + [i];
      i := i + 1;
    }
  }

  /** The getline loop over an explicit column list. */
  method NamedColumns(columns: seq<Column>, pieces: seq<string>) returns (r: Result<seq<nat>, Error>)
    ensures r == ResolveNames(columns, pieces)
  {
    var ix: seq<nat> := [];
    var p := 0;
    while p < |pieces|
      invariant 0 <= p <= |pieces|
      invariant ResolveNames(columns, pieces[..p]) == Ok(ix)
    {
      var col := RemoveSpaces(pieces[p]);
      assert pieces[..p + 1][..p] == pieces[..p];
      var found := FindColumn(columns, col);
      if found.None? {
        ResolveNamesStop(columns, pieces, p + 1);
        return Err(ColumnNotFound(col));
      }
      ix := ix + [found.value];
      p := p + 1;
    }
    assert pieces[..p] == pieces;
    return Ok(ix);
  }

  /** A name that does not resolve decides the result, whatever follows it. */
  lemma {:induction false} ResolveNamesStop(columns: seq<Column>, pieces: seq<string>, n: nat)
    requires n <= |pieces|
    requires ResolveNames(columns, pieces[..n]).Err?
    ensures ResolveNames(columns, pieces) == ResolveNames(columns, pieces[..n])
    decreases |pieces| - n
  {
    if n < |pieces| {
      assert pieces[..n + 1][..n] == pieces[..n];
      ResolveNamesStop(columns, pieces, n + 1);
    } else {
      assert pieces[..n] == pieces;
    }
  }

  // ================================================================ the WHERE test

  /** The three words of a WHERE condition; the operator without whitespace. */
  datatype Condition = Condition(column: string, op: string, literal: string)

  function ParseCondition(condition: string): Condition {
    Condition(WordAt(condition, 0), RemoveSpaces(WordAt(condition, 1)), WordAt(condition, 2))
  }

  /** The six comparison operators applied to the sign of cell - literal. An operator outside
      the six leaves the row shown (a diagnostic is printed and show stays true). */
  function CompareOp(op: string, sign: int): bool {
    if op == "==" then sign == 0
    else if op == "!=" then sign != 0
    else if op == ">" then sign > 0
    else if op == "<" then sign < 0
    else if op == ">=" then sign >= 0
    else if op == "<=" then sign <= 0
    else true
  }

  predicate KnownOp(op: string) {
    op == "==" || op == "!=" || op == ">" || op == "<" || op == ">=" || op == "<="
  }

  /** The WHERE test on one cell, by the alternative the cell holds: an INT cell compares with
      stoi of the literal and a FLOAT cell with stof (either throws when the literal is not a
      number); a STRING cell equals the literal with one pair of outer quotes removed, whatever
      the operator; a BOOL cell equals whether the literal is exactly true. */
  function Shown(cell: Value, cond: Condition): (r: Result<bool, Error>)
    ensures r.Err? ==> r == Err(InvalidNumber(cond.literal))
    ensures r.Err? <==>
      (cell.Int? && Stoi(cond.literal).None?) || (cell.Float? && ParseDecimal(cond.literal).None?)
  {
    match cell
    case Int(i) =>
      (match Stoi(cond.literal)
       case None => Err(InvalidNumber(cond.literal))
       case Some(c) => Ok(CompareOp(cond.op, CompareInt(i as int, c as int))))
    case Float(d) =>
      (match ParseDecimal(cond.literal)
       case None => Err(InvalidNumber(cond.literal))
       case Some(c) => Ok(CompareOp(cond.op, CompareDecimal(d, c))))
    case Str(s) => Ok(s == Unquote(cond.literal))
    case Bool(b) => Ok(b == (cond.literal == "true"))
  }

  /** On integers the six operators mean what they say. */
  lemma CompareIntMeaning(a: int, b: int)
    ensures CompareOp("==", CompareInt(a, b)) == (a == b)
    ensures CompareOp("!=", CompareInt(a, b)) == (a != b)
    ensures CompareOp(">", CompareInt(a, b)) == (a > b)
    ensures CompareOp("<", CompareInt(a, b)) == (a < b)
    ensures CompareOp(">=", CompareInt(a, b)) == (a >= b)
    ensures CompareOp("<=", CompareInt(a, b)) == (a <= b)
  {
  }

  /** A string cell ignores the operator: "Name != Ann" shows the rows whose Name is Ann. */
  lemma StringIgnoresOperator(s: string, column: string, op1: string, op2: string, lit: string)
    ensures Shown(Str(s), Condition(column, op1, lit)) == Shown(Str(s), Condition(column, op2, lit))
    ensures Shown(Str(s), Condition(column, op1, lit)) == Ok(s == Unquote(lit))
  {
  }

  /** An operator outside the six shows every row whose literal converts. */
  lemma UnknownOperatorShows(cell: Value, cond: Condition)
    requires !KnownOp(cond.op) && !cell.Str? && !cell.Bool?
    ensures Shown(cell, cond).Ok? ==> Shown(cell, cond) == Ok(true)
  {
  }

  // ================================================================ rows

  /** Every selected index is a cell of the row. */
  predicate Covers(row: Row, ix: seq<nat>) {
    forall k :: 0 <= k < |ix| ==> ix[k] < |row.values|
  }

  /** The selected cells of a row, in the order of the column list. */
  function Project(row: Row, ix: seq<nat>): (r: seq<Value>)
    requires Covers(row, ix)
    ensures |r| == |ix|
    ensures forall k :: 0 <= k < |ix| ==> r[k] == row.values[ix[k]]
  {
    seq(|ix|, k requires 0 <= k < |ix| => row.values[ix[k]])
  }

  /** The print loop over a shown row: its selected cells, or RowTooShort when an index is
      past the end of the row. */
  function Projected(row: Row, ix: seq<nat>): (r: Result<seq<Value>, Error>)
    ensures r.Ok? <==> Covers(row, ix)
    ensures r.Err? ==> r.error == RowTooShort
  {
    if Covers(row, ix) then Ok(Project(row, ix)) else Err(RowTooShort)
  }

  /** Whether one row is printed: always without a condition; never when the WHERE column does
      not exist (the loop continues past every row); otherwise the test on the row's cell in
      the first column of that name, and RowTooShort when the row has no such cell. */
  function Decide(columns: seq<Column>, row: Row, condition: string): (r: Result<bool, Error>)
    ensures condition == [] ==> r == Ok(true)
    ensures condition != [] && ColumnIndex(columns, ParseCondition(condition).column).None? ==> r == Ok(false)
    ensures r == Err(RowTooShort) ==>
      condition != [] && ColumnIndex(columns, ParseCondition(condition).column).Some? &&
      |row.values| <= ColumnIndex(columns, ParseCondition(condition).column).value
  {
    if condition == [] then Ok(true)
    else
      var cond := ParseCondition(condition);
      match ColumnIndex(columns, cond.column)
      case None => Ok(false)
      case Some(ci) =>
        if ci < |row.values| then Shown(row.values[ci], cond) else Err(RowTooShort)
  }

  /** What the row loop makes of one row: nothing when it is not shown, its selected cells when
      it is, or the exception that ends the command. */
  function Visit(columns: seq<Column>, row: Row, ix: seq<nat>, condition: string): Result<Option<seq<Value>>, Error> {
    match Decide(columns, row, condition)
    case Err(e) => Err(e)
    case Ok(show) =>
      if !show then Ok(None)
      else match Projected(row, ix)
        case Err(e) => Err(e)
        case Ok(cells) => Ok(Some(cells))
  }

  /** What the loop makes of each row of the table, in order. */
  function Visits(t: TableData, ix: seq<nat>, condition: string): (vs: seq<Result<Option<seq<Value>>, Error>>)
    ensures |vs| == |t.rows|
    ensures forall k :: 0 <= k < |t.rows| ==> vs[k] == Visit(t.columns, t.rows[k], ix, condition)
  {
    seq(|t.rows|, k requires 0 <= k < |t.rows| => Visit(t.columns, t.rows[k], ix, condition))
  }

  /** The printed rows of the first n visits, in order; the first exception ends the command. */
  function Collect<T>(vs: seq<Result<Option<T>, Error>>, n: nat): (r: Result<seq<T>, Error>)
    requires n <= |vs|
    ensures r.Ok? ==> |r.value| <= n
  {
    if n == 0 then Ok([])
    else
      match Collect(vs, n - 1)
      case Err(e) => Err(e)
      case Ok(rs) =>
        match vs[n - 1]
        case Err(e) => Err(e)
        case Ok(None) => Ok(rs)
        case Ok(Some(x)) => Ok(rs + [x])
  }

  /** The rows a SELECT prints. */
  function SelectRows(t: TableData, ix: seq<nat>, condition: string): (r: Result<seq<seq<Value>>, Error>)
    ensures r.Ok? ==> |r.value| <= |t.rows|
  {
    Collect(Visits(t, ix, condition), |t.rows|)
  }

  /** The next visit extends a result that has no exception. */
  lemma CollectStep<T>(vs: seq<Result<Option<T>, Error>>, i: nat)
    requires i < |vs| && Collect(vs, i).Ok?
    ensures vs[i].Err? ==> Collect(vs, i + 1) == Err(vs[i].error)
    ensures vs[i] == Ok(None) ==> Collect(vs, i + 1) == Collect(vs, i)
    ensures vs[i].Ok? && vs[i].value.Some? ==> Collect(vs, i + 1) == Ok(Collect(vs, i).value + [vs[i].value.value])
  {
  }

  /** An exception among the first n visits is the result, whatever follows. */
  lemma {:induction false} CollectStop<T>(vs: seq<Result<Option<T>, Error>>, n: nat, m: nat)
    requires n <= m <= |vs|
    requires Collect(vs, n).Err?
    ensures Collect(vs, m) == Collect(vs, n)
    decreases m - n
  {
    if n < m {
      assert Collect(vs, n + 1) == Collect(vs, n);
      CollectStop(vs, n + 1, m);
    }
  }

  /** A result without exception means no visit before it had one. */
  lemma {:induction false} CollectOkPrefix<T>(vs: seq<Result<Option<T>, Error>>, n: nat, k: nat)
    requires k < n <= |vs|
    requires Collect(vs, n).Ok?
    ensures Collect(vs, k).Ok? && vs[k].Ok?
    decreases n - k
  {
    if k < n - 1 {
      CollectOkPrefix(vs, n - 1, k);
    }
  }

  /** The positions among the first n whose visit prints something, in increasing order. */
  function Printed<T>(vs: seq<Result<Option<T>, Error>>, n: nat): (ks: seq<nat>)
    requires n <= |vs|
    ensures forall m :: 0 <= m < |ks| ==> ks[m] < n
    ensures forall a, b :: 0 <= a < b < |ks| ==> ks[a] < ks[b]
    ensures forall k :: 0 <= k < n ==> (k in ks <==> vs[k].Ok? && vs[k].value.Some?)
  {
    if n == 0 then []
    else Printed(vs, n - 1) + (if vs[n - 1].Ok? && vs[n - 1].value.Some? then [n - 1] else [])
  }

  /** Without exception, the result is the printed values of those positions, in order. */
  lemma {:induction false} CollectIsPrinted<T>(vs: seq<Result<Option<T>, Error>>, n: nat)
    requires n <= |vs| && Collect(vs, n).Ok?
    ensures var ks := Printed(vs, n); var rs := Collect(vs, n).value;
      |rs| == |ks| &&
      forall m :: 0 <= m < |ks| ==> vs[ks[m]].Ok? && vs[ks[m]].value.Some? && rs[m] == vs[ks[m]].value.value
  {
    if n > 0 {
      CollectOkPrefix(vs, n, n - 1);
      CollectIsPrinted(vs, n - 1);
      CollectStep(vs, n - 1);
    }
  }

  /** Without WHERE every row is shown, in table order, when every row has the selected
      cells. */
  lemma {:induction false} NoConditionShowsAll(t: TableData, ix: seq<nat>)
    requires forall k :: 0 <= k < |t.rows| ==> Covers(t.rows[k], ix)
    ensures SelectRows(t, ix, "").Ok?
    ensures |SelectRows(t, ix, "").value| == |t.rows|
    ensures forall k :: 0 <= k < |t.rows| ==> SelectRows(t, ix, "").value[k] == Project(t.rows[k], ix)
  {
    var vs := Visits(t, ix, "");
    assert forall k :: 0 <= k < |t.rows| ==> vs[k] == Ok(Some(Project(t.rows[k], ix)));
    AllPrinted(vs, |t.rows|);
  }

  /** When every visit prints, the result is every printed value, in order. */
  lemma {:induction false} AllPrinted<T>(vs: seq<Result<Option<T>, Error>>, n: nat)
    requires n <= |vs|
    requires forall k :: 0 <= k < |vs| ==> vs[k].Ok? && vs[k].value.Some?
    ensures Collect(vs, n).Ok? && |Collect(vs, n).value| == n
    ensures forall k :: 0 <= k < n ==> Collect(vs, n).value[k] == vs[k].value.value
  {
    if n > 0 {
      AllPrinted(vs, n - 1);
    }
  }

  /** A WHERE on a column the table does not have shows nothing and throws nothing. */
  lemma {:induction false} MissingWhereColumnShowsNothing(t: TableData, ix: seq<nat>, condition: string)
    requires condition != [] && ColumnIndex(t.columns, ParseCondition(condition).column).None?
    ensures SelectRows(t, ix, condition) == Ok([])
  {
    var vs := Visits(t, ix, condition);
    assert forall k :: 0 <= k < |t.rows| ==> vs[k] == Ok(None);
    NonePrinted(vs, |t.rows|);
  }

  /** When no visit prints or throws, the result is empty. */
  lemma {:induction false} NonePrinted<T>(vs: seq<Result<Option<T>, Error>>, n: nat)
    requires n <= |vs|
    requires forall k :: 0 <= k < |vs| ==> vs[k] == Ok(None)
    ensures Collect(vs, n) == Ok([])
  {
    if n > 0 {
      NonePrinted(vs, n - 1);
    }
  }

  /** The rows a SELECT prints are the projections of exactly the rows whose WHERE test
      passes, each once and in table order. */
  lemma SelectedRowsPass(t: TableData, ix: seq<nat>, condition: string)
    requires SelectRows(t, ix, condition).Ok?
    ensures var ks := Printed(Visits(t, ix, condition), |t.rows|); var rs := SelectRows(t, ix, condition).value;
      (forall a, b :: 0 <= a < b < |ks| ==> ks[a] < ks[b]) &&
      (forall k :: 0 <= k < |t.rows| ==> (k in ks <==> Decide(t.columns, t.rows[k], condition) == Ok(true))) &&
      |rs| == |ks| &&
      forall m :: 0 <= m < |ks| ==> ks[m] < |t.rows| && Covers(t.rows[ks[m]], ix) && rs[m] == Project(t.rows[ks[m]], ix)
  {
    var vs := Visits(t, ix, condition);
    var n := |t.rows|;
    CollectIsPrinted(vs, n);
    forall k | 0 <= k < n
      ensures vs[k].Ok? && vs[k].value.Some? <==> Decide(t.columns, t.rows[k], condition) == Ok(true)
    {
      CollectOkPrefix(vs, n, k);
    }
  }

  /** A shown row that lacks one of the selected cells ends the command: the reading past the
      end of the row that C++ leaves undefined. */
  lemma ShortRowAborts(t: TableData, ix: seq<nat>, condition: string, k: nat)
    requires k < |t.rows| && Decide(t.columns, t.rows[k], condition) == Ok(true)
    requires !Covers(t.rows[k], ix)
    ensures SelectRows(t, ix, condition).Err?
  {
    var vs := Visits(t, ix, condition);
    assert vs[k] == Err(RowTooShort);
    if Collect(vs, k).Ok? {
      CollectStep(vs, k);
    }
    CollectStop(vs, k + 1, |t.rows|);
  }

  // ================================================================ the command

  /** The SELECT branch over the contents of the database. A SELECT changes nothing. */
  function Select(tables: seq<TableData>, input: string): (r: Reply)
    ensures r.Failed? || r.Aborted? || r.Rows?
    ensures r.Rows? ==>
      SelectClauses(input).Ok? && TableIndex(tables, SelectClauses(input).value.tableName).Some?
  {
    match SelectClauses(input)
    case Err(r) => r
    case Ok(q) =>
      match TableIndex(tables, q.tableName)
      case None => Failed(TableNotFound(q.tableName))
      case Some(i) =>
        var t := tables[i];
        match ResolveColumns(t.columns, q.columnText)
        case Err(e) => Failed(e)
        case Ok(ix) =>
          match SelectRows(t, ix, q.condition)
          case Err(e) => Aborted(e)
          case Ok(rows) => Rows(Header(t.columns, ix), rows)
  }

  /** The WHERE block for one row of the loop. */
  method DecideRow(columns: seq<Column>, row: Row, condition: string) returns (d: Result<bool, Error>)
    ensures d == Decide(columns, row, condition)
  {
    if condition == [] {
      return Ok(true);
    }
    var cond := ParseCondition(condition);
    var condIndex := FindColumn(columns, cond.column);
    if condIndex.None? {
      return Ok(false);
    }
    if |row.values| <= condIndex.value {
      return Err(RowTooShort);
    }
    return Shown(row.values[condIndex.value], cond);
  }

  /** The print loop over a shown row, one selected index at a time. */
  method ProjectRow(row: Row, ix: seq<nat>) returns (r: Result<seq<Value>, Error>)
    ensures r == Projected(row, ix)
  {
    var cells: seq<Value> := [];
    var k := 0;
    while k < |ix|
      invariant 0 <= k <= |ix|
      invariant |cells| == k && forall j :: 0 <= j < k ==> ix[j] < |row.values| && cells[j] == row.values[ix[j]]
    {
      if |row.values| <= ix[k] {
        return Err(RowTooShort);
      }
      cells := cells + [row.values[ix[k]]];
      k := k + 1;
    }
    assert Covers(row, ix);
    assert cells == Project(row, ix);
    return Ok(cells);
  }

  /** The row loop of the SELECT branch. */
  method SelectFrom(table: Table, ix: seq<nat>, condition: string) returns (r: Result<seq<seq<Value>>, Error>)
    ensures r == SelectRows(table.Data(), ix, condition)
  {
    var t := table.Data();
    ghost var vs := Visits(t, ix, condition);
    var shown: seq<seq<Value>> := [];
    var i := 0;
    while i < |t.rows|
      invariant 0 <= i <= |t.rows|
      invariant Collect(vs, i) == Ok(shown)
    {
      var row := t.rows[i];
      CollectStep(vs, i);
      var show := DecideRow(t.columns, row, condition);
      if show.Err? {
        CollectStop(vs, i + 1, |t.rows|);
        return Err(show.error);
      }
      if show.value {
        var cells := ProjectRow(row, ix);
        if cells.Err? {
          CollectStop(vs, i + 1, |t.rows|);
          return Err(cells.error);
        }
        shown := shown + [cells.value];
      }
      i := i + 1;
    }
    return Ok(shown);
  }

  /** The SELECT branch of CommandParser::executeCommand. */
  method ExecSelect(db: Database, input: string) returns (reply: Reply)
    ensures reply == Select(db.Model(), input)
  {
    var clauses := SelectClauses(input);
    if clauses.Err? {
      return clauses.error;
    }
    var q := clauses.value;
    var table := db.GetTable(q.tableName);
    if table == null {
      return Failed(TableNotFound(q.tableName));
    }
    ghost var i := TableIndex(db.Model(), q.tableName).value;
    assert db.Model()[i] == table.Data();
    var selected := SelectColumns(table.columns, q.columnText);
    if selected.Err? {
      return Failed(selected.error);
    }
    var rows := SelectFrom(table, selected.value, q.condition);
    if rows.Err? {
      return Aborted(rows.error);
    }
    return Rows(Header(table.columns, selected.value), rows.value);
  }
}
