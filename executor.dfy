/** CommandParser::executeCommand: identifyCommand picks the branch, and the branch runs over
    the database and, for SAVE TO and LOAD_FROM, over the files. */
module Executor {
  import opened Wrappers
  import opened Text
  import opened Schema
  import opened Store
  import opened Command
  import opened InsertCommand
  import opened SelectCommand
  import opened UpdateCommand
  import opened DefinitionCommands
  import opened FileCommands

  /** One command over the contents of the database and the files: the reply, the tables
      after it and the files after it. */
  function Execute(tables: seq<TableData>, fs: Files, input: string): (r: (Reply, seq<TableData>, Files))
    ensures IdentifyCommand(input) != SAVE_TO ==> r.2 == fs
    ensures IdentifyCommand(input) in {SELECT, SAVE_TO, UNKNOWN} ==> r.1 == tables
    ensures IdentifyCommand(input) == UNKNOWN ==> r == (UnknownCommand, tables, fs)
  {
    match IdentifyCommand(input)
    case CREATE_TABLE =>
      var (reply, after) := Create(tables, input);
      (reply, after, fs)
    case INSERT =>
      var (reply, after) := Insert(tables, input);
      (reply, after, fs)
    case SELECT => (Select(tables, input), tables, fs)
    case DROP_TABLE =>
      var (reply, after) := Drop(tables, input);
      (reply, after, fs)
    case ALTER_TABLE =>
      var (reply, after) := Alter(tables, input);
      (reply, after, fs)
    case UPDATE =>
      var (reply, after) := Update(tables, input);
      (reply, after, fs)
    case SAVE_TO =>
      var (reply, files) := Save(tables, fs, input);
      (reply, tables, files)
    case LOAD_FROM =>
      var (reply, after) := LoadFrom(tables, fs, input);
      (reply, after, fs)
    case UNKNOWN => (UnknownCommand, tables, fs)
  }

  /** Every command other than LOAD_FROM keeps rectangular tables rectangular: each row keeps
      one cell per column. LOAD_FROM takes its tables from the file, which can hold a row of
      another width than its schema (LoadFromRaggedFile). */
  lemma ExecuteKeepsShape(tables: seq<TableData>, fs: Files, input: string)
    ensures AllRectangular(tables) && IdentifyCommand(input) != LOAD_FROM ==> AllRectangular(Execute(tables, fs, input).1)
  {
    if !AllRectangular(tables) {
      return;
    }
    match IdentifyCommand(input)
    case CREATE_TABLE => CreateShape(tables, input);
    case INSERT => InsertFailureChangesNothing(tables, input);
    case SELECT =>
    case DROP_TABLE => DropShape(tables, input);
    case ALTER_TABLE => AlterShape(tables, input);
    case UPDATE => UpdateKeepsInvariants(tables, input);
    case SAVE_TO =>
    case LOAD_FROM =>
    case UNKNOWN =>
  }

  /** A command that ends in a diagnostic leaves the tables as they were, except LOAD_FROM,
      whose error in the file comes after the old tables were cleared. Only SAVE TO writes a
      file. */
  lemma FailureChangesNothing(tables: seq<TableData>, fs: Files, input: string)
    ensures var (reply, after, files) := Execute(tables, fs, input);
      (reply.Failed? && IdentifyCommand(input) != LOAD_FROM ==> after == tables) &&
      (IdentifyCommand(input) != SAVE_TO ==> files == fs)
  {
    match IdentifyCommand(input)
    case CREATE_TABLE => CreateOutcome(tables, input);
    case INSERT => InsertFailureChangesNothing(tables, input);
    case SELECT =>
    case DROP_TABLE =>
    case ALTER_TABLE =>
    case UPDATE => UpdateKeepsInvariants(tables, input);
    case SAVE_TO =>
    case LOAD_FROM =>
    case UNKNOWN =>
  }

  /** SELECT, SAVE TO and an unknown command change no table. */
  lemma ReadOnlyCommands(tables: seq<TableData>, fs: Files, input: string)
    requires IdentifyCommand(input) in {SELECT, SAVE_TO, UNKNOWN}
    ensures Execute(tables, fs, input).1 == tables
    ensures IdentifyCommand(input) == UNKNOWN ==> Execute(tables, fs, input) == (UnknownCommand, tables, fs)
  {
  }

  lemma CreateShape(tables: seq<TableData>, input: string)
    requires AllRectangular(tables)
    ensures AllRectangular(Create(tables, input).1)
  {
    var (reply, after) := Create(tables, input);
    CreateOutcome(tables, input);
    if reply.TableCreated? {
      assert forall k :: 0 <= k < |tables| ==> after[k] == tables[k];
      assert after[|tables|].rows == [];
    }
  }

  lemma DropShape(tables: seq<TableData>, input: string)
    requires AllRectangular(tables)
    ensures AllRectangular(Drop(tables, input).1)
  {
    match TableIndex(tables, DropName(input))
    case None =>
    case Some(i) => RemovedKeepsShape(tables, i);
  }

  lemma AlterShape(tables: seq<TableData>, input: string)
    requires AllRectangular(tables)
    ensures AllRectangular(Alter(tables, input).1)
  {
    var w := AlterWordsOf(ReplaceUnderscores(input));
    match TableIndex(tables, w.tableName)
    case None =>
    case Some(i) =>
      if TypeWord(w.typeWord).Some? {
        var c := Column(w.columnName, TypeWord(w.typeWord).value);
        WithColumnKeepsShape(tables[i], c);
        ReplacedKeepsShape(tables, i, WithColumn(tables[i], c));
      }
  }

  /** Replacing one table by a rectangular one keeps all of them rectangular. */
  lemma ReplacedKeepsShape(tables: seq<TableData>, i: nat, t: TableData)
    requires AllRectangular(tables) && i < |tables| && Rectangular(t)
    ensures AllRectangular(tables[i := t])
  {
  }

  lemma InsertRowKeepsShape(tables: seq<TableData>, tableName: string, values: seq<Value>)
    ensures AllRectangular(tables) ==> AllRectangular(InsertRow(tables, tableName, values).1)
    ensures !InsertRow(tables, tableName, values).0.RowInserted? ==> InsertRow(tables, tableName, values).1 == tables
  {
    match TableIndex(tables, tableName)
    case None =>
    case Some(i) =>
      if RowRejection(tables[i], values).None? && AllRectangular(tables) {
        AcceptedRowKeepsInvariants(tables[i], values);
        ReplacedKeepsShape(tables, i, tables[i].(rows := tables[i].rows + [Row(values)]));
      }
  }

  /** An INSERT that adds no row changes nothing, and one that adds a row keeps the tables
      rectangular. */
  lemma InsertFailureChangesNothing(tables: seq<TableData>, input: string)
    ensures AllRectangular(tables) ==> AllRectangular(Insert(tables, input).1)
    ensures !Insert(tables, input).0.RowInserted? ==> Insert(tables, input).1 == tables
  {
    var openParen := FindChar(input, '(');
    var closeParen := FindChar(input, ')');
    if openParen.Some? && closeParen.Some? {
      var open, close := openParen.value, closeParen.value;
      InsertOutcome(tables, input, open, close);
      var values := InsertValues(Substr(input, open + 1, close as int - open - 1).value);
      if values.Ok? {
        InsertRowKeepsShape(tables, WordAt(input, 2), values.value);
      }
    } else {
      assert Insert(tables, input) == (Failed(SyntaxError("INSERT")), tables);
    }
  }

  /** executeCommand run on the Database object, with the files as a value. */
  method ExecuteCommand(db: Database, fs: Files, input: string) returns (reply: Reply, files: Files)
    requires db.Valid()
    modifies db, db.tables
    ensures db.Valid()
    ensures (reply, db.Model(), files) == Execute(old(db.Model()), fs, input)
  {
    files := fs;
    match IdentifyCommand(input) {
      case CREATE_TABLE => reply := ExecCreate(db, input);
      case INSERT => reply := ExecInsert(db, input);
      case SELECT => reply := ExecSelect(db, input);
      case DROP_TABLE => reply := ExecDrop(db, input);
      case ALTER_TABLE => reply := ExecAlter(db, input);
      case UPDATE => reply := ExecUpdate(db, input);
      case SAVE_TO => reply, files := ExecSave(db, fs, input);
      case LOAD_FROM => reply := ExecLoad(db, fs, input);
      case UNKNOWN => reply := UnknownCommand;
    }
  }
}
