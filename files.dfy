/** The SAVE TO and LOAD_FROM branches of executeCommand. The file system is a map from a path
    to the lines of the file at that path: saveToFile writes Serialize's lines there, and
    loadFromFile reads the lines back when the path is present. */
module FileCommands {
  import opened Wrappers
  import opened Text
  import opened Schema
  import opened Codec
  import opened Store
  import opened Command
  import opened SelectCommand

  /** Files by path, each as its lines. */
  type Files = map<string, seq<string>>

  /** The SAVE TO branch: the path between the first and the last '"', then saveToFile. */
  function Save(tables: seq<TableData>, fs: Files, input: string): (r: (Reply, Files))
    ensures r.0.SavedTo? <==> QuotedPath(input).Some?
    ensures r.0.SavedTo? ==> r.0.path in r.1 && r.1[r.0.path] == Serialize(tables)
    ensures !r.0.SavedTo? ==> r == (Failed(SyntaxError("SAVE TO")), fs)
  {
    match QuotedPath(input)
    case None => (Failed(SyntaxError("SAVE TO")), fs)
    case Some(path) => (SavedTo(path), fs[path := Serialize(tables)])
  }

  /** The LOAD_FROM branch: the quoted path, then loadFromFile. A missing file is the exception
      thrown before anything is cleared; an error in the file is the exception thrown from the
      read loop, after the tables read so far have replaced the old ones. Both are caught and
      reported. */
  function LoadFrom(tables: seq<TableData>, fs: Files, input: string): (r: (Reply, seq<TableData>))
    ensures r.0.Failed? || r.0.LoadedFrom?
    ensures r.0.LoadedFrom? ==> QuotedPath(input) == Some(r.0.path) && r.0.path in fs
    ensures QuotedPath(input).None? ==> r == (Failed(SyntaxError("LOAD_FROM")), tables)
  {
    match QuotedPath(input)
    case None => (Failed(SyntaxError("LOAD_FROM")), tables)
    case Some(path) =>
      if path !in fs then (Failed(IoError(path)), tables)
      else
        var p := Load(fs[path]);
        match p.error
        case Some(e) => (Failed(e), p.state.committed)
        case None => (LoadedFrom(path), p.state.committed)
  }

  /** SAVE TO changes no table and writes only the file it names. */
  lemma SaveWritesOneFile(tables: seq<TableData>, fs: Files, input: string)
    ensures var (reply, after) := Save(tables, fs, input);
      (reply.SavedTo? <==> QuotedPath(input).Some?) &&
      (reply.SavedTo? ==> reply.path == QuotedPath(input).value && after[reply.path] == Serialize(tables)) &&
      (forall p :: p in fs && !(reply.SavedTo? && p == reply.path) ==> p in after && after[p] == fs[p]) &&
      (!reply.SavedTo? ==> after == fs)
  {
  }

  /** A LOAD_FROM that does not reach the file changes nothing; one that reaches it replaces
      every table by those the read loop committed, at most one per line, and fails exactly
      when the loop stopped on an error. */
  lemma LoadReplacesTables(tables: seq<TableData>, fs: Files, input: string)
    ensures var (reply, after) := LoadFrom(tables, fs, input);
      ((QuotedPath(input).None? || QuotedPath(input).value !in fs) ==> after == tables && reply.Failed?) &&
      (QuotedPath(input).Some? && QuotedPath(input).value in fs ==>
        var p := Load(fs[QuotedPath(input).value]);
        after == p.state.committed && |after| <= |fs[QuotedPath(input).value]| &&
        (reply.Failed? <==> p.error.Some?) && (reply.LoadedFrom? <==> p.error.None?))
  {
    match QuotedPath(input)
    case None =>
    case Some(path) =>
  }

  /** LOAD_FROM of a file whose block declares its schema twice, with widths that differ,
      succeeds and leaves a table whose row does not have one cell per column. */
  lemma LoadFromRaggedFile(tables: seq<TableData>, fs: Files, path: string, name: string, first: seq<Column>, r: Row, second: seq<Column>)
    requires RaggedInput(first, r, second) && '"' !in path
    requires path in fs && fs[path] == RaggedFile(name, first, r, second)
    ensures LoadFrom(tables, fs, LoadLine(path)) == (LoadedFrom(path), [TableData(name, second, [r])])
    ensures !AllRectangular(LoadFrom(tables, fs, LoadLine(path)).1)
  {
    QuotedPathOf("LOAD_FROM ", path, ";");
    assert QuotedPath(LoadLine(path)) == Some(path);
    var lines := RaggedFile(name, first, r, second);
    AsWrittenCommitsRaggedTable(name, first, r, second);
    var t := TableData(name, second, [r]);
    assert Load(lines).state.committed == [t] && Load(lines).error.None?;
    assert LoadFrom(tables, fs, LoadLine(path)) == (LoadedFrom(path), [t]);
    assert !Rectangular([t][0]);
  }

  /** A SAVE TO line and a LOAD_FROM line naming the same path give back the tables that were
      saved, whatever the tables were in between, when the format can carry them. */
  lemma SaveThenLoad(tables: seq<TableData>, fs: Files, path: string, between: seq<TableData>)
    requires forall k :: 0 <= k < |tables| ==> Saveable(tables[k])
    requires '"' !in path
    ensures var saved := Save(tables, fs, SaveLine(path));
      saved.0 == SavedTo(path) &&
      LoadFrom(between, saved.1, LoadLine(path)) == (LoadedFrom(path), tables)
  {
    QuotedPathOf("SAVE TO ", path, ";");
    QuotedPathOf("LOAD_FROM ", path, ";");
    SaveLoadRoundTrip(tables);
  }

  /** The lines the two commands are written as. */
  function SaveLine(path: string): string {
    "SAVE TO " + "\"" + path + "\"" + ";"
  }

  function LoadLine(path: string): string {
    "LOAD_FROM " + "\"" + path + "\"" + ";"
  }

  /** The SAVE TO branch run on the Database object. */
  method ExecSave(db: Database, fs: Files, input: string) returns (reply: Reply, after: Files)
    ensures (reply, after) == Save(db.Model(), fs, input)
  {
    var path := QuotedPath(input);
    if path.None? {
      return Failed(SyntaxError("SAVE TO")), fs;
    }
    var lines := db.SaveToFile();
    return SavedTo(path.value), fs[path.value := lines];
  }

  /** The LOAD_FROM branch run on the Database object. */
  method ExecLoad(db: Database, fs: Files, input: string) returns (reply: Reply)
    requires db.Valid()
    modifies db
    ensures db.Valid()
    ensures (reply, db.Model()) == LoadFrom(old(db.Model()), fs, input)
  {
    var path := QuotedPath(input);
    if path.None? {
      return Failed(SyntaxError("LOAD_FROM"));
    }
    if path.value !in fs {
      return Failed(IoError(path.value));
    }
    var err := db.LoadFromFile(fs[path.value]);
    if err.Some? {
      return Failed(err.value);
    }
    return LoadedFrom(path.value);
  }
}
