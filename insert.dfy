/** INSERT INTO <table> VALUES (<v1>, ..., <vn>): the quote-aware splitting of the text between
    the parentheses, the reading of each piece by its shape, and Table::addRow. */
module InsertCommand {
  import opened Wrappers
  import opened Text
  import opened Numbers
  import opened Schema
  import opened Store
  import opened Command

  // ================================================================ splitting

  /** The pieces the character loop cuts s into, starting inside quotes or not and with the
      text gathered so far: a '"' flips inQuotes (and is kept), a ',' outside quotes ends the
      piece, any other character is gathered. The last piece is what is gathered at the end. */
  function PiecesFrom(s: string, inQuotes: bool, current: string): (ps: seq<string>)
    ensures |ps| >= 1
    decreases |s|
  {
    if s == [] then [current]
    else
      var q := if s[0] == '"' then !inQuotes else inQuotes;
      if s[0] == ',' && !q then [current] + PiecesFrom(s[1..], q, "")
      else PiecesFrom(s[1..], q, current + [s[0]])
  }

  /** The pieces of the whole text between the parentheses. */
  function Pieces(raw: string): (ps: seq<string>)
    ensures |ps| >= 1
  {
    PiecesFrom(raw, false, "")
  }

  /** The pieces whose literals are read: every piece ended by a comma, and the last piece only
      when it is not empty (`if (!current.empty())`). */
  function Fields(raw: string): seq<string> {
    var ps := Pieces(raw);
    if ps[|ps| - 1] == "" then ps[..|ps| - 1] else ps
  }

  /** One piece read by its shape once every whitespace character is removed: quoted is a
      STRING without the outer quotes, exactly true or false is a BOOL, one with a '.' is a
      FLOAT (stof), anything else an INT (stoi). A number that does not convert is the exception
      stoi or stof throws. */
  function Literal(piece: string): (r: Result<Value, Error>)
    ensures r.Ok? && r.value.Str? <==> IsQuoted(RemoveSpaces(piece))
    ensures r.Ok? && r.value.Bool? <==>
      !IsQuoted(RemoveSpaces(piece)) && (RemoveSpaces(piece) == "true" || RemoveSpaces(piece) == "false")
    ensures r.Ok? && r.value.Float? ==> '.' in RemoveSpaces(piece)
    ensures r.Ok? && r.value.Int? ==> '.' !in RemoveSpaces(piece)
    ensures r.Err? ==> r == Err(InvalidNumber(RemoveSpaces(piece)))
  {
    var trimmed := RemoveSpaces(piece);
    if IsQuoted(trimmed) then Ok(Str(Unquote(trimmed)))
    else if trimmed == "true" || trimmed == "false" then Ok(Bool(trimmed == "true"))
    else if '.' in trimmed then
      match ParseDecimal(trimmed)
      case Some(d) => Ok(Float(d))
      case None => Err(InvalidNumber(trimmed))
    else
      match Stoi(trimmed)
      case Some(i) => Ok(Int(i))
      case None => Err(InvalidNumber(trimmed))
  }

  /** The literals of the pieces in order; the first piece that does not convert stops the
      command. */
  function Literals(pieces: seq<string>): (r: Result<seq<Value>, Error>)
    ensures r.Ok? ==> |r.value| == |pieces|
  {
    if pieces == [] then Ok([])
    else match Literal(pieces[0])
      case Err(e) => Err(e)
      case Ok(v) =>
        match Literals(pieces[1..])
        case Err(e) => Err(e)
        case Ok(vs) => Ok([v] + vs)
  }

  /** The row values of an INSERT. */
  function InsertValues(raw: string): (r: Result<seq<Value>, Error>)
    ensures r.Ok? ==> |r.value| == |Fields(raw)|
  {
    Literals(Fields(raw))
  }

  // ================================================================ properties of the splitter

  lemma {:induction false} CommaListCons(a: string, ps: seq<string>)
    requires ps != []
    ensures CommaList([a] + ps) == a + "," + CommaList(ps)
    decreases |ps|
  {
    var qs := [a] + ps;
    if |ps| == 1 {
      assert qs[..1] == [a];
    } else {
      var init := ps[..|ps| - 1];
      assert qs[..|qs| - 1] == [a] + init;
      CommaListCons(a, init);
    }
  }

  /** Joining the pieces with commas gives back the text: the splitter loses nothing but the
      commas it splits at. */
  lemma {:induction false} PiecesJoin(s: string, inQuotes: bool, current: string)
    ensures CommaList(PiecesFrom(s, inQuotes, current)) == current + s
    decreases |s|
  {
    if s == [] {
      assert current + s == current;
    } else {
      var q := if s[0] == '"' then !inQuotes else inQuotes;
      if s[0] == ',' && !q {
        PiecesJoin(s[1..], q, "");
        CommaListCons(current, PiecesFrom(s[1..], q, ""));
        assert current + s == current + "," + ("" + s[1..]);
      } else {
        PiecesJoin(s[1..], q, current + [s[0]]);
        assert current + s == current + [s[0]] + s[1..];
      }
    }
  }

  /** Without any quote the splitter cuts at every comma, as std::getline on ',' does. */
  lemma {:induction false} PiecesWithoutQuotes(s: string, current: string)
    requires '"' !in s
    ensures PiecesFrom(s, false, current) == [current + SplitCommas(s)[0]] + SplitCommas(s)[1..]
    decreases |s|
  {
    if s == [] {
      assert current + "" == current;
    } else if s[0] == ',' {
      PiecesWithoutQuotes(s[1..], "");
      var rest := SplitCommas(s[1..]);
      assert "" + rest[0] == rest[0];
      assert SplitCommas(s) == [""] + rest;
      assert current + "" == current;
      assert [current] + ([rest[0]] + rest[1..]) == [current + SplitCommas(s)[0]] + SplitCommas(s)[1..];
    } else {
      PiecesWithoutQuotes(s[1..], current + [s[0]]);
      var rest := SplitCommas(s[1..]);
      assert current + [s[0]] + rest[0] == current + ([s[0]] + rest[0]);
    }
  }

  /** So an INSERT without quotes reads the same fields as a getline loop on ','. */
  lemma FieldsWithoutQuotes(raw: string)
    requires '"' !in raw
    ensures Fields(raw) == GetlineFields(raw)
  {
    PiecesWithoutQuotes(raw, "");
    assert "" + SplitCommas(raw)[0] == SplitCommas(raw)[0];
    assert [SplitCommas(raw)[0]] + SplitCommas(raw)[1..] == SplitCommas(raw);
  }

  /** Inside quotes nothing splits: the closing quote ends the quoted stretch. */
  lemma {:induction false} QuotedStretch(s: string, current: string, rest: string)
    requires '"' !in s
    ensures PiecesFrom(s + "\"" + rest, true, current) == PiecesFrom(rest, false, current + s + "\"")
    decreases |s|
  {
    if s == [] {
      assert s + "\"" + rest == ['"'] + rest;
      assert (['"'] + rest)[1..] == rest;
      assert current + s + "\"" == current + ['"'];
    } else {
      assert (s + "\"" + rest)[0] == s[0];
      assert (s + "\"" + rest)[1..] == s[1..] + "\"" + rest;
      QuotedStretch(s[1..], current + [s[0]], rest);
      assert current + [s[0]] + s[1..] + "\"" == current + s + "\"";
    }
  }

  /** A stretch without quote or comma is gathered whole. */
  lemma {:induction false} PlainStretch(s: string, current: string, rest: string)
    requires '"' !in s && ',' !in s
    ensures PiecesFrom(s + rest, false, current) == PiecesFrom(rest, false, current + s)
    decreases |s|
  {
    if s == [] {
      assert s + rest == rest;
      assert current + s == current;
    } else {
      assert (s + rest)[0] == s[0];
      assert (s + rest)[1..] == s[1..] + rest;
      PlainStretch(s[1..], current + [s[0]], rest);
      assert current + [s[0]] + s[1..] == current + s;
    }
  }

  // ================================================================ literals written back

  /** A value an INSERT can spell: not a float, and a string without whitespace or quotes (the
      splitter removes the one and the other ends the quoted stretch). Commas are allowed. */
  predicate Spellable(v: Value) {
    match v
    case Int(_) => true
    case Float(_) => false
    case Str(s) => NoSpace(s) && '"' !in s
    case Bool(_) => true
  }

  /** How a value is written in an INSERT: a number, true or false, or a quoted string. */
  function LiteralText(v: Value): string {
    match v
    case Int(i) => RenderInt(i)
    case Float(d) => RenderDecimal(d)
    case Str(s) => "\"" + s + "\""
    case Bool(b) => if b then "true" else "false"
  }

  /** A spelt value reads back as itself. */
  lemma LiteralRoundTrip(v: Value)
    requires Spellable(v)
    ensures Literal(LiteralText(v)) == Ok(v)
  {
    match v
    case Int(i) => IntLiteralRoundTrip(i);
    case Str(s) => StrLiteralRoundTrip(s);
    case Bool(b) => BoolLiteralRoundTrip(b);
  }

  lemma IntLiteralRoundTrip(i: int32)
    ensures Literal(RenderInt(i)) == Ok(Int(i))
  {
    RenderIntShape(i);
    RenderIntNoSpace(i);
    RemoveSpacesNoop(RenderInt(i));
    ParseRenderInt(i);
  }

  lemma StrLiteralRoundTrip(s: string)
    requires NoSpace(s) && '"' !in s
    ensures Literal("\"" + s + "\"") == Ok(Str(s))
  {
    QuoteKeepsNoSpace(s);
    QuoteKeepsNoSpace("\"" + s);
    RemoveSpacesNoop("\"" + s + "\"");
    UnquoteOfQuoted(s);
  }

  lemma BoolLiteralRoundTrip(b: bool)
    ensures Literal(LiteralText(Bool(b))) == Ok(Bool(b))
  {
    assert NoSpace(LiteralText(Bool(b)));
    RemoveSpacesNoop(LiteralText(Bool(b)));
  }

  lemma RenderIntNoSpace(i: int32)
    ensures NoSpace(RenderInt(i))
  {
    RenderIntChars(i);
  }

  /** The text of a spelt value is a whole piece: followed by anything, the splitter ends it
      exactly where it ends. */
  lemma LiteralIsStretch(v: Value, rest: string)
    requires Spellable(v)
    ensures PiecesFrom(LiteralText(v) + rest, false, "") == PiecesFrom(rest, false, LiteralText(v))
  {
    match v
    case Str(s) => QuotedIsStretch(s, rest);
    case Int(i) =>
      RenderIntShape(i);
      RenderIntChars(i);
      PlainStretch(RenderInt(i), "", rest);
      assert "" + RenderInt(i) == RenderInt(i);
    case Bool(b) =>
      PlainStretch(LiteralText(v), "", rest);
      assert "" + LiteralText(v) == LiteralText(v);
  }

  lemma QuotedIsStretch(s: string, rest: string)
    requires '"' !in s
    ensures PiecesFrom("\"" + s + "\"" + rest, false, "") == PiecesFrom(rest, false, "\"" + s + "\"")
  {
    var t := "\"" + s + "\"" + rest;
    assert t[0] == '"';
    assert t[1..] == s + "\"" + rest;
    assert PiecesFrom(t, false, "") == PiecesFrom(t[1..], true, "" + ['"']);
    assert "" + ['"'] == "\"";
    QuotedStretch(s, "\"", rest);
  }

  /** The literals of a row, in order. */
  function Texts(vs: seq<Value>): (ts: seq<string>)
    ensures |ts| == |vs|
    ensures forall k :: 0 <= k < |vs| ==> ts[k] == LiteralText(vs[k])
  {
    if vs == [] then [] else [LiteralText(vs[0])] + Texts(vs[1..])
  }

  /** The literals of a row, written one after the other with commas between them. */
  function ValuesText(vs: seq<Value>): string {
    CommaList(Texts(vs))
  }

  lemma ConcatAssoc<T>(a: seq<T>, b: seq<T>, c: seq<T>)
    ensures a + b + c == a + (b + c)
  {
  }

  /** A comma outside quotes ends the piece gathered so far. */
  lemma CommaEndsPiece(current: string, rest: string)
    ensures PiecesFrom("," + rest, false, current) == [current] + PiecesFrom(rest, false, "")
  {
    assert ("," + rest)[0] == ',';
    assert ("," + rest)[1..] == rest;
  }

  /** The pieces of a row written as literals are those literals. */
  lemma {:induction false} PiecesOfValuesText(vs: seq<Value>)
    requires vs != []
    requires forall k :: 0 <= k < |vs| ==> Spellable(vs[k])
    ensures Pieces(ValuesText(vs)) == Texts(vs)
    decreases |vs|
  {
    var ts := Texts(vs);
    if |vs| == 1 {
      LiteralIsStretch(vs[0], "");
      assert ts[0] + "" == ts[0];
    } else {
      var tail := vs[1..];
      var rest := ValuesText(tail);
      assert ts == [ts[0]] + Texts(tail);
      CommaListCons(ts[0], Texts(tail));
      assert ValuesText(vs) == ts[0] + "," + rest;
      ConcatAssoc(ts[0], ",", rest);
      LiteralIsStretch(vs[0], "," + rest);
      CommaEndsPiece(ts[0], rest);
      PiecesOfValuesText(tail);
    }
  }

  lemma {:induction false} LiteralsOfTexts(vs: seq<Value>)
    requires forall k :: 0 <= k < |vs| ==> Spellable(vs[k])
    ensures Literals(Texts(vs)) == Ok(vs)
    decreases |vs|
  {
    if vs != [] {
      HeadLiteral(vs);
      LiteralsOfTexts(vs[1..]);
      LiteralsCons(Texts(vs), vs[0], vs[1..]);
      assert [vs[0]] + vs[1..] == vs;
    }
  }

  /** The first literal of a row reads back as its first value, and the rest are the rest. */
  lemma HeadLiteral(vs: seq<Value>)
    requires vs != [] && Spellable(vs[0])
    ensures Literal(Texts(vs)[0]) == Ok(vs[0])
    ensures Texts(vs)[1..] == Texts(vs[1..])
  {
    LiteralRoundTrip(vs[0]);
  }

  /** The first piece converted, then the rest. */
  lemma LiteralsStep(ps: seq<string>)
    requires ps != [] && Literal(ps[0]).Ok? && Literals(ps[1..]).Ok?
    ensures Literals(ps) == Ok([Literal(ps[0]).value] + Literals(ps[1..]).value)
  {
  }

  /** The same step, for known values. */
  lemma LiteralsCons(ps: seq<string>, v: Value, vs: seq<Value>)
    requires ps != [] && Literal(ps[0]) == Ok(v) && Literals(ps[1..]) == Ok(vs)
    ensures Literals(ps) == Ok([v] + vs)
  {
    LiteralsStep(ps);
  }

  /** A row written as INSERT literals is read back as that row, string cells with commas in
      them included. */
  lemma InsertRoundTrip(vs: seq<Value>)
    requires vs != []
    requires forall k :: 0 <= k < |vs| ==> Spellable(vs[k])
    ensures InsertValues(ValuesText(vs)) == Ok(vs)
  {
    SpeltNotEmpty(vs[|vs| - 1]);
    PiecesOfValuesText(vs);
    assert Fields(ValuesText(vs)) == Texts(vs);
    LiteralsOfTexts(vs);
  }

  /** No literal is written as the empty text. */
  lemma SpeltNotEmpty(v: Value)
    requires Spellable(v)
    ensures LiteralText(v) != ""
  {
    if v.Int? {
      RenderIntShape(v.i);
    }
  }

  /** Whitespace is removed inside quotes too: "Ann Lee" is stored as AnnLee. */
  lemma SpacesRemovedInsideQuotes(a: string, b: string)
    requires NoSpace(a) && NoSpace(b) && '"' !in a && '"' !in b
    ensures Literal("\"" + a + " " + b + "\"") == Ok(Str(a + b))
  {
    RemoveSpacesOfPair(a, b);
    UnquoteOfQuoted(a + b);
  }

  lemma RemoveSpacesOfPair(a: string, b: string)
    requires NoSpace(a) && NoSpace(b)
    ensures RemoveSpaces("\"" + a + " " + b + "\"") == "\"" + (a + b) + "\""
  {
    var p := "\"" + a;
    var q := b + "\"";
    QuoteKeepsNoSpace(a);
    QuoteKeepsNoSpace(b);
    ConcatAssoc(p + " ", b, "\"");
    RemoveSpacesJoin(p, q);
    ConcatAssoc("\"", a, b);
    ConcatAssoc(p, b, "\"");
  }

  lemma QuoteKeepsNoSpace(a: string)
    requires NoSpace(a)
    ensures NoSpace("\"" + a) && NoSpace(a + "\"")
  {
    var p := "\"" + a;
    var q := a + "\"";
    assert forall i :: 1 <= i < |p| ==> p[i] == a[i - 1];
    assert forall i :: 0 <= i < |q| - 1 ==> q[i] == a[i];
  }

  /** The one blank between two words without whitespace is removed. */
  lemma {:induction false} RemoveSpacesJoin(x: string, y: string)
    requires NoSpace(x) && NoSpace(y)
    ensures RemoveSpaces(x + " " + y) == x + y
    decreases |x|
  {
    if x == [] {
      assert x + " " + y == [' '] + y;
      assert ([' '] + y)[1..] == y;
      RemoveSpacesNoop(y);
    } else {
      assert (x + " " + y)[0] == x[0];
      assert (x + " " + y)[1..] == x[1..] + " " + y;
      RemoveSpacesJoin(x[1..], y);
      assert [x[0]] + (x[1..] + y) == x + y;
    }
  }


  // ================================================================ the command

  /** The INSERT branch over the contents of the database: the table name is the third word;
      without '(' or ')' it is a syntax error; the values are read before the table is looked
      up, and a literal that does not convert aborts the command. */
  function Insert(tables: seq<TableData>, input: string): (r: (Reply, seq<TableData>))
    ensures !r.0.RowInserted? ==> r.1 == tables
    ensures r.0.RowInserted? ==> |r.1| == |tables| && r.0.table == WordAt(input, 2)
  {
    var tableName := WordAt(input, 2);
    match (FindChar(input, '('), FindChar(input, ')'))
    case (Some(open), Some(close)) =>
      (match InsertValues(Substr(input, open + 1, close as int - open - 1).value)
       case Err(e) => (Aborted(e), tables)
       case Ok(values) => InsertRow(tables, tableName, values))
    case _ => (Failed(SyntaxError("INSERT")), tables)
  }

  /** getTable, then Table::addRow: a missing table or a refused row changes nothing; an
      accepted row is appended to the first table of that name. */
  function InsertRow(tables: seq<TableData>, tableName: string, values: seq<Value>): (r: (Reply, seq<TableData>))
    ensures !r.0.RowInserted? ==> r.1 == tables
    ensures r.0.RowInserted? ==> |r.1| == |tables| && r.0.table == tableName
  {
    match TableIndex(tables, tableName)
    case None => (Failed(TableNotFound(tableName)), tables)
    case Some(i) =>
      match RowRejection(tables[i], values)
      case Some(e) => (Failed(e), tables)
      case None => (RowInserted(tableName), tables[i := tables[i].(rows := tables[i].rows + [Row(values)])])
  }

  /** Every table is rectangular with unique primary keys. */
  predicate AllSound(tables: seq<TableData>) {
    forall k :: 0 <= k < |tables| ==> Rectangular(tables[k]) && KeysUnique(tables[k])
  }

  /** Adding a row keeps the tables sound; only an accepted row changes anything, and then one
      table of that name gains exactly that row at its end. */
  lemma InsertRowKeepsInvariants(tables: seq<TableData>, tableName: string, values: seq<Value>)
    ensures AllSound(tables) ==> AllSound(InsertRow(tables, tableName, values).1)
    ensures InsertRow(tables, tableName, values).0.RowInserted? <==>
      TableIndex(tables, tableName).Some? && RowRejection(tables[TableIndex(tables, tableName).value], values).None?
    ensures !InsertRow(tables, tableName, values).0.RowInserted? ==> InsertRow(tables, tableName, values).1 == tables
    ensures InsertRow(tables, tableName, values).0.RowInserted? ==>
      exists i :: 0 <= i < |tables| && tables[i].name == tableName &&
        InsertRow(tables, tableName, values).1 ==
          tables[i := TableData(tableName, tables[i].columns, tables[i].rows + [Row(values)])]
  {
    var (reply, after) := InsertRow(tables, tableName, values);
    if reply.RowInserted? {
      var i := TableIndex(tables, tableName).value;
      AcceptedRowKeepsInvariants(tables[i], values);
      assert after[i] == TableData(tableName, tables[i].columns, tables[i].rows + [Row(values)]);
    }
  }

  /** So a whole INSERT keeps the tables sound, and changes them only when a row is inserted. */
  lemma InsertKeepsInvariants(tables: seq<TableData>, input: string)
    ensures AllSound(tables) ==> AllSound(Insert(tables, input).1)
    ensures !Insert(tables, input).0.RowInserted? ==> Insert(tables, input).1 == tables
  {
    var openParen := FindChar(input, '(');
    var closeParen := FindChar(input, ')');
    if openParen.Some? && closeParen.Some? {
      var open, close := openParen.value, closeParen.value;
      InsertOutcome(tables, input, open, close);
      var values := InsertValues(Substr(input, open + 1, close as int - open - 1).value);
      if values.Ok? {
        InsertRowKeepsInvariants(tables, WordAt(input, 2), values.value);
      }
    } else {
      assert Insert(tables, input) == (Failed(SyntaxError("INSERT")), tables);
    }
  }

  /** The character loop of the INSERT branch, with the literal of each piece read as soon as
      the piece ends. */
  method SplitValues(raw: string) returns (r: Result<seq<Value>, Error>)
    ensures r == InsertValues(raw)
  {
    var values: seq<Value> := [];
    var current := "";
    var inQuotes := false;
    ghost var done: seq<string> := [];
    var i := 0;
    while i < |raw|
      invariant 0 <= i <= |raw|
      invariant done + PiecesFrom(raw[i..], inQuotes, current) == Pieces(raw)
      invariant Literals(done) == Ok(values)
    {
      var c := raw[i];
      PiecesStep(raw, i, inQuotes, current);
      if c == '"' {
        inQuotes := !inQuotes;
      }
      if c == ',' && !inQuotes {
        var v := Literal(current);
        LiteralsAppend(done, current);
        ConcatAssoc(done, [current], PiecesFrom(raw[i + 1..], inQuotes, ""));
        if v.Err? {
          PieceFails(raw, done + [current], PiecesFrom(raw[i + 1..], inQuotes, ""));
          return Err(v.error);
        }
        values := values + [v.value];
        done := done + [current];
        current := "";
      } else {
        current := current + [c];
      }
      i := i + 1;
    }
    assert done + [current] == Pieces(raw);
    if current != [] {
      var v := Literal(current);
      LiteralsAppend(done, current);
      if v.Err? {
        return Err(v.error);
      }
      values := values + [v.value];
      return Ok(values);
    }
    assert Fields(raw) == done;
    return Ok(values);
  }

  /** One character of the loop: a comma outside quotes ends the piece, anything else is
      gathered. */
  lemma PiecesStep(raw: string, i: nat, inQuotes: bool, current: string)
    requires i < |raw|
    ensures var q := if raw[i] == '"' then !inQuotes else inQuotes;
      PiecesFrom(raw[i..], inQuotes, current) ==
        if raw[i] == ',' && !q then [current] + PiecesFrom(raw[i + 1..], q, "")
        else PiecesFrom(raw[i + 1..], q, current + [raw[i]])
  {
    assert raw[i..][0] == raw[i] && raw[i..][1..] == raw[i + 1..];
  }

  /** A piece ended by a comma whose literal fails decides the whole INSERT. */
  lemma PieceFails(raw: string, ended: seq<string>, later: seq<string>)
    requires later != [] && Pieces(raw) == ended + later
    requires Literals(ended).Err?
    ensures InsertValues(raw) == Literals(ended)
  {
    FieldsKeepsPrefix(raw, ended, later);
    var fs := Fields(raw);
    assert fs == ended + fs[|ended|..];
    LiteralsStop(ended, fs[|ended|..]);
  }

  lemma {:induction false} LiteralsAppend(ps: seq<string>, p: string)
    requires Literals(ps).Ok?
    ensures Literal(p).Err? ==> Literals(ps + [p]) == Err(Literal(p).error)
    ensures Literal(p).Ok? ==> Literals(ps + [p]) == Ok(Literals(ps).value + [Literal(p).value])
    decreases |ps|
  {
    if ps == [] {
      assert ps + [p] == [p];
      if Literal(p).Ok? {
        assert [Literal(p).value] + [] == Literals(ps).value + [Literal(p).value];
      }
    } else {
      var q := ps + [p];
      assert q[0] == ps[0] && q[1..] == ps[1..] + [p];
      var head := Literal(ps[0]).value;
      assert Literals(ps).value == [head] + Literals(ps[1..]).value by {
        LiteralsStep(ps);
      }
      LiteralsAppend(ps[1..], p);
      if Literal(p).Ok? {
        LiteralsStep(q);
        assert [head] + (Literals(ps[1..]).value + [Literal(p).value]) ==
          Literals(ps).value + [Literal(p).value];
      }
    }
  }

  /** A failing piece stops the reading whatever follows it. */
  lemma {:induction false} LiteralsStop(ps: seq<string>, more: seq<string>)
    requires Literals(ps).Err?
    ensures Literals(ps + more) == Literals(ps)
    decreases |ps|
  {
    assert ps != [];
    assert (ps + more)[0] == ps[0];
    assert (ps + more)[1..] == ps[1..] + more;
    if Literal(ps[0]).Ok? {
      LiteralsStop(ps[1..], more);
    }
  }

  /** Pieces ended by a comma are all fields; only the last piece may be dropped. */
  lemma FieldsKeepsPrefix(raw: string, ended: seq<string>, later: seq<string>)
    requires later != []
    requires Pieces(raw) == ended + later
    ensures |ended| <= |Fields(raw)| && Fields(raw)[..|ended|] == ended
  {
    var ps := Pieces(raw);
    if ps[|ps| - 1] == "" {
      assert ps[..|ps| - 1] == ended + later[..|later| - 1];
    } else {
      assert Fields(raw) == ended + later;
    }
  }

  /** The INSERT branch case by case: no parentheses, a literal that does not convert, or the
      values handed to getTable and addRow. */
  lemma InsertOutcome(tables: seq<TableData>, input: string, open: nat, close: nat)
    requires FindChar(input, '(') == Some(open) && FindChar(input, ')') == Some(close)
    ensures var values := InsertValues(Substr(input, open + 1, close as int - open - 1).value);
      Insert(tables, input) ==
        if values.Err? then (Aborted(values.error), tables) else InsertRow(tables, WordAt(input, 2), values.value)
  {
    var raw := Substr(input, open + 1, close as int - open - 1).value;
    match InsertValues(raw)
    case Err(e) =>
      assert Insert(tables, input) == (Aborted(e), tables);
    case Ok(values) =>
      assert Insert(tables, input) == InsertRow(tables, WordAt(input, 2), values);
  }

  /** The INSERT branch of CommandParser::executeCommand. */
  method ExecInsert(db: Database, input: string) returns (reply: Reply)
    requires db.Valid()
    modifies db.tables
    ensures db.Valid()
    ensures (reply, db.Model()) == Insert(old(db.Model()), input)
  {
    var tableName := WordAt(input, 2);
    var openParen := FindChar(input, '(');
    var closeParen := FindChar(input, ')');
    if openParen.None? || closeParen.None? {
      return Failed(SyntaxError("INSERT"));
    }
    var open := openParen.value;
    var close := closeParen.value;
    var raw := Substr(input, open + 1, close as int - open - 1).value;
    var values := SplitValues(raw);
    InsertOutcome(db.Model(), input, open, close);
    if values.Err? {
      return Aborted(values.error);
    }
    reply := AddRowTo(db, tableName, values.value);
  }

  /** The end of the INSERT branch: getTable, then addRow with its error caught. */
  method AddRowTo(db: Database, tableName: string, values: seq<Value>) returns (reply: Reply)
    requires db.Valid()
    modifies db.tables
    ensures db.Valid()
    ensures (reply, db.Model()) == InsertRow(old(db.Model()), tableName, values)
  {
    var table := db.GetTable(tableName);
    if table == null {
      return Failed(TableNotFound(tableName));
    }
    ghost var i := TableIndex(db.Model(), tableName).value;
    ghost var before := db.Model()[i];
    var err := table.AddRow(values);
    assert forall j :: 0 <= j < |db.tables| && j != i ==> db.tables[j] != table;
    assert db.Model() == old(db.Model())[i := table.Data()];
    if err.Some? {
      assert table.Data() == before;
      assert db.Model() == old(db.Model());
      return Failed(err.value);
    }
    return RowInserted(tableName);
  }
}
