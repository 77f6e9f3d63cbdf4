/** The branches of executeCommand that change the schema: CREATE_TABLE, DROP_TABLE and
    ALTER TABLE ... ADD. Each is a function over the contents of the database, a method that
    runs it on the Database object, and the lemmas that say what it keeps. */
module DefinitionCommands {
  import opened Wrappers
  import opened Text
  import opened Schema
  import opened Codec
  import opened Store
  import opened Command
  import opened SelectCommand

  // ================================================================ CREATE_TABLE

  /** One piece of the definition list: its first word names the column and its second, read
      in any letter case, types it. A piece whose type is unknown defines nothing: the branch
      prints a diagnostic and goes on with the next piece. */
  function Definition(piece: string): (r: Option<Column>)
    ensures r.Some? <==> ToUpper(WordAt(piece, 1)) in {"INT", "FLOAT", "STRING", "BOOL", "BOOLEAN"}
    ensures r.Some? ==> r.value.name == WordAt(piece, 0)
  {
    match TypeWord(WordAt(piece, 1))
    case None => None
    case Some(t) => Some(Column(WordAt(piece, 0), t))
  }

  /** What each piece defines. */
  function Definitions(pieces: seq<string>): (ds: seq<Option<Column>>)
    ensures |ds| == |pieces|
    ensures forall k :: 0 <= k < |pieces| ==> ds[k] == Definition(pieces[k])
  {
    MapSeq(Definition, pieces)
  }

  /** f applied to every element. */
  function MapSeq<A, B>(f: A -> B, s: seq<A>): (r: seq<B>)
    ensures |r| == |s|
    ensures forall k :: 0 <= k < |s| ==> r[k] == f(s[k])
  {
    seq(|s|, k requires 0 <= k < |s| => f(s[k]))
  }

  /** Leaving out an element leaves out its image. */
  lemma MapSkip<A, B>(f: A -> B, s: seq<A>, k: nat)
    requires k < |s|
    ensures MapSeq(f, s[..k] + s[k + 1..]) == MapSeq(f, s)[..k] + MapSeq(f, s)[k + 1..]
  {
    var rest := s[..k] + s[k + 1..];
    assert forall j :: 0 <= j < |rest| ==> rest[j] == (if j < k then s[j] else s[j + 1]);
  }

  /** The columns the pieces define, in order. */
  function DefinedColumns(pieces: seq<string>): (cs: seq<Column>)
    ensures |cs| <= |pieces|
  {
    Present(Definitions(pieces))
  }

  /** The values present, in order. */
  function Present<T>(os: seq<Option<T>>): (r: seq<T>)
    ensures |r| <= |os|
  {
    if os == [] then []
    else
      var init := Present(os[..|os| - 1]);
      match os[|os| - 1]
      case None => init
      case Some(x) => init + [x]
  }

  /** The options can be read in two stretches. */
  lemma {:induction false} PresentAppend<T>(a: seq<Option<T>>, b: seq<Option<T>>)
    ensures Present(a + b) == Present(a) + Present(b)
    decreases |b|
  {
    if b == [] {
      assert a + b == a;
    } else {
      var init := b[..|b| - 1];
      PresentAppend(a, init);
      assert (a + b)[..|a + b| - 1] == a + init;
      assert (a + b)[|a + b| - 1] == b[|b| - 1];
    }
  }

  /** When every option holds a value, those are all the values. */
  lemma {:induction false} AllPresent<T>(os: seq<Option<T>>)
    requires forall k :: 0 <= k < |os| ==> os[k].Some?
    ensures |Present(os)| == |os|
    ensures forall k :: 0 <= k < |os| ==> Present(os)[k] == os[k].value
  {
    if os != [] {
      AllPresent(os[..|os| - 1]);
    }
  }

  /** A piece with an unknown type is skipped: the columns are those of the other pieces, in
      their order. */
  lemma UnknownTypeSkipped(pieces: seq<string>, k: nat)
    requires k < |pieces| && Definition(pieces[k]).None?
    ensures DefinedColumns(pieces) == DefinedColumns(pieces[..k] + pieces[k + 1..])
  {
    var ds := Definitions(pieces);
    AbsentSkipped(ds, k);
    MapSkip(Definition, pieces, k);
  }

  /** An empty option contributes no value. */
  lemma AbsentSkipped<T>(os: seq<Option<T>>, k: nat)
    requires k < |os| && os[k].None?
    ensures Present(os) == Present(os[..k] + os[k + 1..])
  {
    var a, b := os[..k], os[k + 1..];
    assert os == a + [os[k]] + b;
    PresentAppend(a + [os[k]], b);
    PresentAppend(a, [os[k]]);
    assert [os[k]][..0] == [];
    PresentAppend(a, b);
  }

  /** When every piece has a known type, the k-th column is the k-th piece's. */
  lemma AllDefined(pieces: seq<string>)
    requires forall k :: 0 <= k < |pieces| ==> Definition(pieces[k]).Some?
    ensures |DefinedColumns(pieces)| == |pieces|
    ensures forall k :: 0 <= k < |pieces| ==> DefinedColumns(pieces)[k] == Definition(pieces[k]).value
  {
    AllPresent(Definitions(pieces));
  }

  /** The type names dataTypeToString writes are upper case already. */
  lemma TypeNameUpper(t: DataType)
    ensures forall i :: 0 <= i < |DataTypeToString(t)| ==> 'A' <= DataTypeToString(t)[i] <= 'Z'
    ensures NoSpace(DataTypeToString(t))
    ensures ToUpper(DataTypeToString(t)) == DataTypeToString(t)
  {
    var n := DataTypeToString(t);
    match t
    case INT => assert n == "INT";
    case FLOAT => assert n == "FLOAT";
    case STRING => assert n == "STRING";
    case BOOL => assert n == "BOOLEAN";
  }

  /** A column written as saveToFile writes it defines that column. */
  lemma DefinitionOfField(c: Column)
    requires SaveableName(c.name)
    ensures Definition(ColumnField(c)) == Some(c)
  {
    ColumnDefParses(c);
    TypeNameUpper(c.dtype);
    TypeNameRoundTrip(c.dtype);
    var f := ColumnField(c);
    assert WordAt(f, 0) == c.name && WordAt(f, 1) == DataTypeToString(c.dtype);
  }

  /** A definition list written as a COLUMNS: line writes it (" name TYPE" pieces joined by
      ',') defines exactly those columns again. */
  lemma DefinitionsRoundTrip(columns: seq<Column>)
    requires forall j :: 0 <= j < |columns| ==> SaveableName(columns[j].name)
    ensures DefinedColumns(GetlineFields(CommaList(ColumnFields(columns)))) == columns
  {
    var fs := ColumnFields(columns);
    ColumnsLineParses(columns);
    forall k | 0 <= k < |fs| ensures Definition(fs[k]) == Some(columns[k]) {
      DefinitionOfField(columns[k]);
    }
    forall k | 0 <= k < |fs| ensures ',' !in fs[k] {
      ColumnDefParses(columns[k]);
    }
    if fs != [] {
      assert fs[|fs| - 1][0] == ' ';
    }
    GetlineFieldsOfList(fs);
    AllDefined(fs);
  }

  /** The CREATE_TABLE branch over the contents of the database. The table name is the second
      word before the first '('; the definitions run from there to the first ')' (to the end
      of the line when that comes first). A name already taken is createTable's exception,
      which nothing catches. */
  function Create(tables: seq<TableData>, input: string): (r: (Reply, seq<TableData>))
    ensures !r.0.TableCreated? ==> r.1 == tables
    ensures r.0.TableCreated? ==> |r.1| == |tables| + 1 && TableIndex(tables, r.0.name).None?
  {
    match FindChar(input, '(')
    case None => (Failed(SyntaxError("CREATE_TABLE")), tables)
    case Some(open) =>
      var tableName := WordAt(input[..open], 1);
      match FindChar(input, ')')
      case None => (Failed(SyntaxError("CREATE_TABLE")), tables)
      case Some(close) =>
        var columns := DefinedColumns(GetlineFields(Substr(input, open + 1, close as int - open - 1).value));
        match Created(tables, tableName, columns)
        case Err(e) => (Aborted(e), tables)
        case Ok(after) => (TableCreated(tableName, columns), after)
  }

  /** CREATE_TABLE appends one empty table under a new name, or changes nothing: rectangular
      tables stay rectangular and distinct names stay distinct. */
  lemma CreateKeepsInvariants(tables: seq<TableData>, input: string)
    ensures var (reply, after) := Create(tables, input);
      (AllRectangular(tables) ==> AllRectangular(after)) &&
      (NamesDistinct(tables) ==> NamesDistinct(after)) &&
      (reply.TableCreated? ==> after == tables + [TableData(reply.name, reply.columns, [])]) &&
      (!reply.TableCreated? ==> after == tables)
  {
    var (reply, after) := Create(tables, input);
    CreateOutcome(tables, input);
    if reply.TableCreated? && NamesDistinct(tables) {
      CreatedKeepsNamesDistinct(tables, reply.name, reply.columns);
      assert forall k :: 0 <= k < |tables| ==> after[k] == tables[k];
    }
  }

  /** CREATE_TABLE either appends one table without rows or leaves the tables as they were. */
  lemma CreateOutcome(tables: seq<TableData>, input: string)
    ensures var (reply, after) := Create(tables, input);
      (reply.TableCreated? ==>
        Created(tables, reply.name, reply.columns) == Ok(after) &&
        after == tables + [TableData(reply.name, reply.columns, [])]) &&
      (!reply.TableCreated? ==> after == tables)
  {
  }

  const CreateKeyword: string := "CREATE_TABLE"

  /** The line a CREATE_TABLE is written as. */
  function CreateLine(name: string, columns: seq<Column>): string {
    CreateKeyword + " " + name + "(" + CommaList(ColumnFields(columns)) + ");"
  }

  /** A CREATE_TABLE line written from a name and its columns creates that table with those
      columns, when the name is free. */
  lemma CreateRoundTrip(tables: seq<TableData>, name: string, columns: seq<Column>)
    requires name != [] && NoSpace(name) && '(' !in name && ')' !in name
    requires forall j :: 0 <= j < |columns| ==> SaveableName(columns[j].name)
    requires forall j :: 0 <= j < |columns| ==> '(' !in columns[j].name && ')' !in columns[j].name
    requires TableIndex(tables, name).None?
    ensures Create(tables, CreateLine(name, columns)) == (TableCreated(name, columns), tables + [TableData(name, columns, [])])
  {
    CreateLineParts(name, columns);
    DefinitionsRoundTrip(columns);
    assert Created(tables, name, columns) == Ok(tables + [TableData(name, columns, [])]);
  }

  /** createTable's reading of a CREATE_TABLE line finds the name before the '(' and the
      column definitions between the parentheses. */
  lemma CreateLineParts(name: string, columns: seq<Column>)
    requires name != [] && NoSpace(name) && '(' !in name && ')' !in name
    requires forall j :: 0 <= j < |columns| ==> SaveableName(columns[j].name)
    requires forall j :: 0 <= j < |columns| ==> '(' !in columns[j].name && ')' !in columns[j].name
    ensures var line := CreateLine(name, columns);
      var open := |CreateKeyword| + 1 + |name|;
      var close := open + 1 + |CommaList(ColumnFields(columns))|;
      FindChar(line, '(') == Some(open) && WordAt(line[..open], 1) == name &&
      FindChar(line, ')') == Some(close) &&
      Substr(line, open + 1, close - open - 1) == Some(CommaList(ColumnFields(columns)))
  {
    var defs := CommaList(ColumnFields(columns));
    var head := CreateKeyword + " " + name;
    var line := CreateLine(name, columns);
    assert line == head + "(" + defs + ");";
    CreateHead(name);
    DefinitionsNoParens(columns);
    Parenthesised(head, defs);
  }

  /** The part of a CREATE_TABLE line before '(' has the table name as its second word and no
      parenthesis. */
  lemma CreateHead(name: string)
    requires name != [] && NoSpace(name) && '(' !in name && ')' !in name
    ensures var head := CreateKeyword + " " + name;
      WordAt(head, 1) == name && '(' !in head && ')' !in head
  {
    assert CreateKeyword != [] && Plain(CreateKeyword);
    KeywordThenName(CreateKeyword, name);
  }

  /** In head + "(" + defs + ");", with no parenthesis in head or defs, the first '(' and the
      first ')' enclose defs. */
  lemma Parenthesised(head: string, defs: string)
    requires '(' !in head && ')' !in head && '(' !in defs && ')' !in defs
    ensures var line := head + "(" + defs + ");";
      FindChar(line, '(') == Some(|head|) && line[..|head|] == head &&
      FindChar(line, ')') == Some(|head| + 1 + |defs|) &&
      Substr(line, |head| + 1, |defs|) == Some(defs)
  {
    var line := head + "(" + defs + ");";
    var open, close := |head|, |head| + 1 + |defs|;
    assert forall i :: 0 <= i < open ==> line[i] == head[i];
    assert forall i :: 0 <= i < |defs| ==> line[open + 1 + i] == defs[i];
    FindCharAt(line, '(', open);
    FindCharAt(line, ')', close);
    assert line[open + 1..close] == defs;
  }

  /** The definition list holds neither parenthesis when the names do not. */
  lemma DefinitionsNoParens(columns: seq<Column>)
    requires forall j :: 0 <= j < |columns| ==> '(' !in columns[j].name && ')' !in columns[j].name
    ensures '(' !in CommaList(ColumnFields(columns)) && ')' !in CommaList(ColumnFields(columns))
  {
    var fs := ColumnFields(columns);
    forall k | 0 <= k < |fs| ensures '(' !in fs[k] && ')' !in fs[k] {
      var n := DataTypeToString(columns[k].dtype);
      TypeNameUpper(columns[k].dtype);
      assert fs[k] == " " + columns[k].name + " " + n;
    }
    CommaListAvoids(fs, '(');
    CommaListAvoids(fs, ')');
  }

  /** Joining pieces with ',' adds no character but ','. */
  lemma {:induction false} CommaListAvoids(ps: seq<string>, c: char)
    requires c != ','
    requires forall k :: 0 <= k < |ps| ==> c !in ps[k]
    ensures c !in CommaList(ps)
  {
    if |ps| > 1 {
      CommaListAvoids(ps[..|ps| - 1], c);
    }
  }

  /** One step of a map over a prefix. */
  lemma MapStep<A, B>(f: A -> B, s: seq<A>, i: nat)
    requires i < |s|
    ensures MapSeq(f, s[..i + 1]) == MapSeq(f, s[..i]) + [f(s[i])]
  {
  }

  /** One more option read. */
  lemma PresentStep<T>(os: seq<Option<T>>, o: Option<T>)
    ensures Present(os + [o]) == if o.Some? then Present(os) + [o.value] else Present(os)
  {
    assert (os + [o])[..|os|] == os;
  }

  /** The getline loop of the CREATE_TABLE branch: each piece whose type word is known adds
      its column, in order; the others add nothing. */
  method ColumnsOf(pieces: seq<string>) returns (columns: seq<Column>)
    ensures columns == DefinedColumns(pieces)
  {
    columns := [];
    var i := 0;
    while i < |pieces|
      invariant 0 <= i <= |pieces|
      invariant columns == Present(MapSeq(Definition, pieces[..i]))
    {
      MapStep(Definition, pieces, i);
      PresentStep(MapSeq(Definition, pieces[..i]), Definition(pieces[i]));
      var d := Definition(pieces[i]);
      if d.Some? {
        columns := columns + [d.value];
      }
      i := i + 1;
    }
    assert pieces[..i] == pieces;
  }

  /** The CREATE_TABLE branch run on the Database object. */
  method ExecCreate(db: Database, input: string) returns (reply: Reply)
    requires db.Valid()
    modifies db
    ensures db.Valid()
    ensures (reply, db.Model()) == Create(old(db.Model()), input)
  {
    var open := FindChar(input, '(');
    if open.None? {
      return Failed(SyntaxError("CREATE_TABLE"));
    }
    var tableName := WordAt(input[..open.value], 1);
    var close := FindChar(input, ')');
    if close.None? {
      return Failed(SyntaxError("CREATE_TABLE"));
    }
    var defs := Substr(input, open.value + 1, close.value as int - open.value - 1).value;
    var columns := ColumnsOf(GetlineFields(defs));
    var err := db.CreateTable(tableName, columns);
    if err.Some? {
      return Aborted(err.value);
    }
    return TableCreated(tableName, columns);
  }

  // ================================================================ DROP_TABLE

  /** The table DROP_TABLE names: the second word, less one trailing ';'. */
  function DropName(input: string): string {
    DropSemicolon(WordAt(input, 1))
  }

  /** The DROP_TABLE branch over the contents of the database: dropTable's exception is
      caught and reported. */
  function Drop(tables: seq<TableData>, input: string): (r: (Reply, seq<TableData>))
    ensures r.0.TableDropped? <==> TableIndex(tables, DropName(input)).Some?
    ensures r.0.TableDropped? ==> |r.1| == |tables| - 1
    ensures !r.0.TableDropped? ==> r == (Failed(TableNotFound(DropName(input))), tables)
  {
    var name := DropName(input);
    match Dropped(tables, name)
    case Err(e) => (Failed(e), tables)
    case Ok(after) => (TableDropped(name), after)
  }

  /** DROP_TABLE removes the first table of the name when there is one and changes nothing
      otherwise; rectangular tables stay rectangular, and distinct names stay distinct, the
      dropped name then being free. */
  lemma DropKeepsInvariants(tables: seq<TableData>, input: string)
    ensures var (reply, after) := Drop(tables, input);
      (AllRectangular(tables) ==> AllRectangular(after)) &&
      (NamesDistinct(tables) ==> NamesDistinct(after)) &&
      (reply.TableDropped? <==> TableIndex(tables, DropName(input)).Some?) &&
      (reply.TableDropped? ==> |after| == |tables| - 1) &&
      (reply.TableDropped? && NamesDistinct(tables) ==> TableIndex(after, DropName(input)).None?) &&
      (!reply.TableDropped? ==> after == tables && reply == Failed(TableNotFound(DropName(input))))
  {
    var name := DropName(input);
    match TableIndex(tables, name)
    case None =>
      assert Drop(tables, input) == (Failed(TableNotFound(name)), tables);
    case Some(i) =>
      if NamesDistinct(tables) {
        DroppedIsGone(tables, name);
      }
      if AllRectangular(tables) {
        RemovedKeepsShape(tables, i);
      }
      assert Drop(tables, input) == (TableDropped(name), tables[..i] + tables[i + 1..]);
  }

  /** Removing a table keeps the others rectangular. */
  lemma RemovedKeepsShape(tables: seq<TableData>, i: nat)
    requires AllRectangular(tables) && i < |tables|
    ensures AllRectangular(tables[..i] + tables[i + 1..])
  {
    var after := tables[..i] + tables[i + 1..];
    forall j | 0 <= j < |after|
      ensures Rectangular(after[j])
    {
      if j < i {
        assert after[j] == tables[j];
      } else {
        assert after[j] == tables[j + 1];
      }
    }
  }

  const DropKeyword: string := "DROP_TABLE"

  /** The line a DROP_TABLE is written as. */
  function DropLine(name: string): string {
    DropKeyword + " " + (name + ";")
  }

  /** DROP_TABLE written for the table CREATE_TABLE just appended gives back the tables there
      were. */
  lemma DropRoundTrip(tables: seq<TableData>, name: string, columns: seq<Column>)
    requires name != [] && NoSpace(name)
    requires TableIndex(tables, name).None?
    ensures Drop(tables + [TableData(name, columns, [])], DropLine(name)) == (TableDropped(name), tables)
  {
    assert DropKeyword != [] && Plain(DropKeyword);
    KeywordThenName(DropKeyword, name + ";");
    assert (name + ";")[..|name|] == name;
    assert DropName(DropLine(name)) == name;
    DropUndoesCreate(tables, name, columns);
  }

  /** A CREATE_TABLE line followed by the DROP_TABLE line for the same name leaves the
      database as it was. */
  lemma CreateThenDrop(tables: seq<TableData>, name: string, columns: seq<Column>)
    requires name != [] && NoSpace(name) && '(' !in name && ')' !in name
    requires forall j :: 0 <= j < |columns| ==> SaveableName(columns[j].name)
    requires forall j :: 0 <= j < |columns| ==> '(' !in columns[j].name && ')' !in columns[j].name
    requires TableIndex(tables, name).None?
    ensures Drop(Create(tables, CreateLine(name, columns)).1, DropLine(name)) == (TableDropped(name), tables)
  {
    CreateRoundTrip(tables, name, columns);
    DropRoundTrip(tables, name, columns);
  }

  /** The DROP_TABLE branch run on the Database object. */
  method ExecDrop(db: Database, input: string) returns (reply: Reply)
    requires db.Valid()
    modifies db
    ensures db.Valid()
    ensures (reply, db.Model()) == Drop(old(db.Model()), input)
  {
    var tableName := DropName(input);
    var err := db.DropTable(tableName);
    if err.Some? {
      return Failed(err.value);
    }
    return TableDropped(tableName);
  }

  // ================================================================ ALTER TABLE ... ADD

  /** The words the ALTER TABLE branch reads from the cleaned line: the first, second, third,
      fifth and sixth (the fourth, meant to be ADD, is read and never looked at). A missing word
      is empty. */
  datatype AlterWords = AlterWords(alter: string, tableKeyword: string, tableName: string, columnName: string, typeWord: string)

  function AlterWordsOf(clean: string): AlterWords {
    AlterWords(WordAt(clean, 0), WordAt(clean, 1), WordAt(clean, 2), WordAt(clean, 4), WordAt(clean, 5))
  }

  /** The line as the branch cleans it: one trailing ';' dropped, then every '_' replaced by
      a space. The replacement is meant for the ALTER_TABLE spelling that identifyCommand
      accepts; it also splits any name holding '_'. */
  function ReplaceUnderscores(input: string): (r: string)
    ensures |r| == |DropSemicolon(input)| && '_' !in r
    ensures forall i :: 0 <= i < |r| && DropSemicolon(input)[i] != '_' ==> r[i] == DropSemicolon(input)[i]
  {
    ReplaceChar(DropSemicolon(input), '_', ' ')
  }

  /** The cleaning the replacement is meant to do: one trailing ';' dropped, and the '_' of
      ALTER_TABLE (the sixth character) turned into a space; every other character is kept. */
  function SplitKeyword(input: string): (r: string)
    ensures |r| == |DropSemicolon(input)|
    ensures forall i :: 0 <= i < |r| ==>
      r[i] == (if i == 5 && DropSemicolon(input)[i] == '_' then ' ' else DropSemicolon(input)[i])
  {
    var s := DropSemicolon(input);
    if |s| > 5 && s[5] == '_' then s[..5] + " " + s[6..] else s
  }

  /** The two cleanings differ only on a line holding '_' somewhere else than in the keyword. */
  lemma SplitKeywordAgrees(input: string)
    requires forall i :: 0 <= i < |DropSemicolon(input)| && i != 5 ==> DropSemicolon(input)[i] != '_'
    ensures SplitKeyword(input) == ReplaceUnderscores(input)
  {
  }

  /** The ALTER TABLE branch once the line is cleaned and read. A first or second word other
      than ALTER / alter and TABLE / table makes the branch return silently. */
  function AlterWith(tables: seq<TableData>, w: AlterWords): (r: (Reply, seq<TableData>))
    ensures |r.1| == |tables|
    ensures !r.0.ColumnAdded? ==> r.1 == tables
    ensures r.0.Ignored? <==> w.alter !in {"ALTER", "alter"} || w.tableKeyword !in {"TABLE", "table"}
    ensures r.0.ColumnAdded? ==> r.0.table == w.tableName && r.0.column == w.columnName
  {
    if w.alter != "ALTER" && w.alter != "alter" then (Ignored, tables)
    else if w.tableKeyword != "TABLE" && w.tableKeyword != "table" then (Ignored, tables)
    else match TableIndex(tables, w.tableName)
      case None => (Failed(TableNotFound(w.tableName)), tables)
      case Some(i) =>
        match TypeWord(w.typeWord)
        case None => (Failed(UnknownType(ToUpper(w.typeWord))), tables)
        case Some(t) =>
          (ColumnAdded(w.tableName, w.columnName), tables[i := WithColumn(tables[i], Column(w.columnName, t))])
  }

  /** The ALTER TABLE branch over the contents of the database, as written: every '_' of the
      line is replaced before the words are read. */
  function Alter(tables: seq<TableData>, input: string): (r: (Reply, seq<TableData>))
    ensures |r.1| == |tables|
    ensures !r.0.ColumnAdded? ==> r.1 == tables
    ensures r.0.ColumnAdded? ==> '_' !in r.0.table && '_' !in r.0.column
  {
    WordsWithout(ReplaceUnderscores(input), '_');
    AlterWith(tables, AlterWordsOf(ReplaceUnderscores(input)))
  }

  /** The ALTER TABLE branch with only the keyword's '_' replaced, as the replacement is meant. */
  function AlterCorrected(tables: seq<TableData>, input: string): (r: (Reply, seq<TableData>))
    ensures |r.1| == |tables|
    ensures !r.0.ColumnAdded? ==> r.1 == tables
    ensures r.0.ColumnAdded? ==>
      r.0.table == WordAt(SplitKeyword(input), 2) && r.0.column == WordAt(SplitKeyword(input), 4)
  {
    AlterWith(tables, AlterWordsOf(SplitKeyword(input)))
  }

  /** ALTER TABLE adds one column to the named table, or changes nothing: the tables keep
      their names and number, rectangular tables stay rectangular, and every other table is
      untouched. */
  lemma AlterKeepsInvariants(tables: seq<TableData>, w: AlterWords)
    ensures var (reply, after) := AlterWith(tables, w);
      (AllRectangular(tables) ==> AllRectangular(after)) &&
      (NamesDistinct(tables) ==> NamesDistinct(after)) && |after| == |tables| &&
      (forall j :: 0 <= j < |tables| ==> after[j].name == tables[j].name) &&
      (reply.ColumnAdded? <==>
        (w.alter == "ALTER" || w.alter == "alter") && (w.tableKeyword == "TABLE" || w.tableKeyword == "table") &&
        TableIndex(tables, w.tableName).Some? && TypeWord(w.typeWord).Some?) &&
      (reply.ColumnAdded? ==>
        var i := TableIndex(tables, w.tableName).value;
        after[i].columns == tables[i].columns + [Column(w.columnName, TypeWord(w.typeWord).value)] &&
        |after[i].rows| == |tables[i].rows| &&
        forall j :: 0 <= j < |tables| && j != i ==> after[j] == tables[j]) &&
      (!reply.ColumnAdded? ==> after == tables)
  {
    var (reply, after) := AlterWith(tables, w);
    if reply.ColumnAdded? {
      var i := TableIndex(tables, w.tableName).value;
      WithColumnKeepsShape(tables[i], Column(w.columnName, TypeWord(w.typeWord).value));
      assert forall j :: 0 <= j < |tables| && j != i ==> after[j] == tables[j];
    }
  }

  const AlterKeyword: string := "ALTER"
  const TableKeyword: string := "TABLE"
  const AddKeyword: string := "ADD"

  /** An ALTER TABLE line: the keyword ALTER, then a space or '_', then TABLE, the table name,
      ADD, the column name and its type word, separated by single spaces, then ';'. */
  function AlterLine(sep: char, name: string, column: string, typeWord: string): string {
    AlterKeyword + [sep] + Spaced([TableKeyword, name, AddKeyword, column, typeWord]) + ";"
  }

  /** Both spellings of an ALTER TABLE line, cleaned as intended, read back the words they were
      written from, whatever the names hold besides white space. */
  lemma CorrectedLineRead(sep: char, name: string, column: string, typeWord: string)
    requires sep == ' ' || sep == '_'
    requires name != [] && NoSpace(name) && column != [] && NoSpace(column) && typeWord != [] && NoSpace(typeWord)
    ensures AlterWordsOf(SplitKeyword(AlterLine(sep, name, column, typeWord))) == AlterWords(AlterKeyword, TableKeyword, name, column, typeWord)
  {
    var rest := [TableKeyword, name, AddKeyword, column, typeWord];
    var ws := [AlterKeyword] + rest;
    var x := AlterKeyword + [sep] + Spaced(rest);
    assert (x + ";")[..|x|] == x;
    assert Plain(AlterKeyword) && Plain(TableKeyword) && Plain(AddKeyword);
    assert |AlterKeyword| == 5 && '_' !in AlterKeyword && '_' !in TableKeyword && '_' !in AddKeyword;
    assert ws[1..] == rest;
    assert Spaced(ws) == AlterKeyword + " " + Spaced(rest);
    assert SplitKeyword(AlterLine(sep, name, column, typeWord)) == Spaced(ws) by {
      assert x[..5] == AlterKeyword && x[6..] == Spaced(rest);
    }
    PlainNoSpace(AlterKeyword);
    PlainNoSpace(TableKeyword);
    PlainNoSpace(AddKeyword);
    WordsOfSpaced(ws);
  }

  /** Both spellings of an ALTER TABLE line read back, as written, the words they were written
      from, when the names hold neither white space nor '_'. */
  lemma AlterLineRead(sep: char, name: string, column: string, typeWord: string)
    requires sep == ' ' || sep == '_'
    requires name != [] && NoSpace(name) && '_' !in name
    requires column != [] && NoSpace(column) && '_' !in column
    requires typeWord != [] && NoSpace(typeWord) && '_' !in typeWord
    ensures AlterWordsOf(ReplaceUnderscores(AlterLine(sep, name, column, typeWord))) == AlterWords(AlterKeyword, TableKeyword, name, column, typeWord)
  {
    CorrectedLineRead(sep, name, column, typeWord);
    var rest := [TableKeyword, name, AddKeyword, column, typeWord];
    assert '_' !in AlterKeyword && '_' !in TableKeyword && '_' !in AddKeyword;
    SpacedWithout(rest, '_');
    var x := AlterKeyword + [sep] + Spaced(rest);
    assert (x + ";")[..|x|] == x;
    assert forall i :: 0 <= i < |x| && i != 5 ==> x[i] != '_' by {
      forall i | 0 <= i < |x| && i != 5
        ensures x[i] != '_'
      {
        if i < 5 {
          assert x[i] == AlterKeyword[i];
        } else {
          assert x[i] == Spaced(rest)[i - 6];
        }
      }
    }
    SplitKeywordAgrees(AlterLine(sep, name, column, typeWord));
  }

  /** An ALTER TABLE line adds the column to the named table when the table exists and the
      names hold neither white space nor '_'. */
  lemma AlterRoundTrip(tables: seq<TableData>, sep: char, name: string, column: string, t: DataType)
    requires sep == ' ' || sep == '_'
    requires name != [] && NoSpace(name) && '_' !in name
    requires column != [] && NoSpace(column) && '_' !in column
    requires TableIndex(tables, name).Some?
    ensures var i := TableIndex(tables, name).value;
      Alter(tables, AlterLine(sep, name, column, DataTypeToString(t))) ==
        (ColumnAdded(name, column), tables[i := WithColumn(tables[i], Column(column, t))])
  {
    var n := DataTypeToString(t);
    TypeNameUpper(t);
    AlterLineRead(sep, name, column, n);
    TypeWordAnyCase(n, t);
    AlterWithAdds(tables, AlterWords(AlterKeyword, TableKeyword, name, column, n), t);
  }

  /** Well-formed words whose table exists and whose type is known add the column. */
  lemma AlterWithAdds(tables: seq<TableData>, w: AlterWords, t: DataType)
    requires w.alter == AlterKeyword && w.tableKeyword == TableKeyword
    requires TableIndex(tables, w.tableName).Some? && TypeWord(w.typeWord) == Some(t)
    ensures var i := TableIndex(tables, w.tableName).value;
      AlterWith(tables, w) == (ColumnAdded(w.tableName, w.columnName), tables[i := WithColumn(tables[i], Column(w.columnName, t))])
  {
  }

  /** Read as written, an ALTER TABLE line whose table name is a + "_" + b looks up the table
      a: the replacement has split the name in two. */
  lemma AsWrittenSplitsTableName(sep: char, a: string, b: string, column: string, typeWord: string)
    requires sep == ' ' || sep == '_'
    requires a != [] && NoSpace(a) && '_' !in a
    ensures AlterWordsOf(ReplaceUnderscores(AlterLine(sep, a + "_" + b, column, typeWord))).tableName == a
  {
    var z := ReplaceChar(b + " " + Spaced([AddKeyword, column, typeWord]), '_', ' ');
    AsWrittenLine(sep, a, b, column, typeWord);
    assert AlterKeyword != [] && NoSpace(AlterKeyword) && TableKeyword != [] && NoSpace(TableKeyword);
    ThirdWord(AlterKeyword, TableKeyword, a, z);
  }

  /** The third of three words followed by any text. */
  lemma ThirdWord(k: string, t: string, a: string, z: string)
    requires k != [] && NoSpace(k) && t != [] && NoSpace(t) && a != [] && NoSpace(a)
    ensures WordAt(k + [' '] + (t + [' '] + (a + [' '] + z)), 2) == a
  {
    WordsOfWordThen(a, ' ', z);
    WordsOfWordThen(t, ' ', a + [' '] + z);
    WordsOfWordThen(k, ' ', t + [' '] + (a + [' '] + z));
  }

  /** The as-written cleaning of such a line: the '_' in the name has become a space. */
  lemma AsWrittenLine(sep: char, a: string, b: string, column: string, typeWord: string)
    requires sep == ' ' || sep == '_'
    requires '_' !in a
    ensures ReplaceUnderscores(AlterLine(sep, a + "_" + b, column, typeWord)) ==
      AlterKeyword + [' '] + (TableKeyword + [' '] + (a + [' '] + ReplaceChar(b + " " + Spaced([AddKeyword, column, typeWord]), '_', ' ')))
  {
    assert '_' !in AlterKeyword && '_' !in TableKeyword;
    var r := Spaced([AddKeyword, column, typeWord]);
    var x := AlterKeyword + [sep] + (TableKeyword + " " + ((a + "_" + b) + " " + r));
    AlterLineParts(sep, a + "_" + b, column, typeWord);
    assert (x + ";")[..|x|] == x;
    assert ReplaceUnderscores(AlterLine(sep, a + "_" + b, column, typeWord)) == ReplaceChar(x, '_', ' ');
    var head := AlterKeyword + [sep] + (TableKeyword + " " + (a + "_"));
    var tail := b + " " + r;
    assert x == head + tail;
    ReplaceAppend(head, tail, '_', ' ');
    ReplaceHead(AlterKeyword, sep, TableKeyword, a);
    var z := ReplaceChar(tail, '_', ' ');
    assert AlterKeyword + [' '] + (TableKeyword + [' '] + (a + [' '])) + z ==
      AlterKeyword + [' '] + (TableKeyword + [' '] + (a + [' '] + z));
  }

  /** Cleaned as intended, the same line keeps the whole table name. */
  lemma CorrectedKeepsTableName(sep: char, a: string, b: string, column: string, typeWord: string)
    requires sep == ' ' || sep == '_'
    requires a != [] && NoSpace(a) && b != [] && NoSpace(b) && column != [] && NoSpace(column) && typeWord != [] && NoSpace(typeWord)
    ensures AlterWordsOf(SplitKeyword(AlterLine(sep, a + "_" + b, column, typeWord))).tableName == a + "_" + b
  {
    CorrectedLineRead(sep, a + "_" + b, column, typeWord);
  }

  /** The line with its words spelled out to the table name. */
  lemma AlterLineParts(sep: char, name: string, column: string, typeWord: string)
    ensures AlterLine(sep, name, column, typeWord) ==
      AlterKeyword + [sep] + (TableKeyword + " " + (name + " " + Spaced([AddKeyword, column, typeWord]))) + ";"
  {
    var ws := [TableKeyword, name, AddKeyword, column, typeWord];
    assert ws[1..] == [name, AddKeyword, column, typeWord];
    assert ws[1..][1..] == [AddKeyword, column, typeWord];
    assert Spaced(ws) == TableKeyword + " " + Spaced(ws[1..]);
    assert Spaced(ws[1..]) == name + " " + Spaced(ws[1..][1..]);
  }

  /** Replacing '_' in "K?T a_" where only the separator and the last character can be '_'. */
  lemma ReplaceHead(k: string, sep: char, t: string, a: string)
    requires sep == ' ' || sep == '_'
    requires '_' !in k && '_' !in t && '_' !in a
    ensures ReplaceChar(k + [sep] + (t + " " + (a + "_")), '_', ' ') == k + [' '] + (t + [' '] + (a + [' ']))
  {
    var x := k + [sep] + (t + " " + (a + "_"));
    var y := k + [' '] + (t + [' '] + (a + [' ']));
    forall i | 0 <= i < |x|
      ensures (if x[i] == '_' then ' ' else x[i]) == y[i]
    {
      if i < |k| {
        assert x[i] == k[i] && y[i] == k[i];
      } else if i == |k| {
      } else if i < |k| + 1 + |t| {
        assert x[i] == t[i - |k| - 1] && y[i] == t[i - |k| - 1];
      } else if i == |k| + 1 + |t| {
      } else if i < |x| - 1 {
        assert x[i] == a[i - |k| - 2 - |t|] && y[i] == a[i - |k| - 2 - |t|];
      }
    }
  }

  /** The ALTER TABLE branch run on the Database object. */
  method ExecAlter(db: Database, input: string) returns (reply: Reply)
    requires db.Valid()
    modifies db.tables
    ensures db.Valid()
    ensures (reply, db.Model()) == Alter(old(db.Model()), input)
  {
    var w := AlterWordsOf(ReplaceChar(DropSemicolon(input), '_', ' '));
    if w.alter != "ALTER" && w.alter != "alter" {
      return Ignored;
    }
    if w.tableKeyword != "TABLE" && w.tableKeyword != "table" {
      return Ignored;
    }
    var table := db.GetTable(w.tableName);
    if table == null {
      return Failed(TableNotFound(w.tableName));
    }
    var t := TypeWord(w.typeWord);
    if t.None? {
      return Failed(UnknownType(ToUpper(w.typeWord)));
    }
    AddColumnIn(db, table, w.tableName, Column(w.columnName, t.value));
    return ColumnAdded(w.tableName, w.columnName);
  }

  /** addColumn on the table getTable found: only that table changes. */
  method AddColumnIn(db: Database, table: Table, name: string, c: Column)
    requires db.Valid() && TableIndex(db.Model(), name).Some?
    requires table == db.tables[TableIndex(db.Model(), name).value]
    modifies db.tables
    ensures db.Valid()
    ensures var i := TableIndex(old(db.Model()), name).value;
      db.Model() == old(db.Model())[i := WithColumn(old(db.Model())[i], c)]
  {
    ghost var i := TableIndex(db.Model(), name).value;
    ghost var before := db.Model()[i];
    table.AddColumn(c.name, c.dtype);
    assert forall j :: 0 <= j < |db.tables| && j != i ==> db.tables[j] != table;
    assert db.Model() == old(db.Model())[i := WithColumn(before, c)];
  }
}
