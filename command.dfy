/** What CommandParser.cpp shares between its command branches: the CommandType classifier, the
    outcome of a command, the case-insensitive type names and the quoted file path. */
module Command {
  import opened Wrappers
  import opened Text
  import opened Schema

  /** enum class CommandType. */
  datatype CommandType =
    | CREATE_TABLE | INSERT | SELECT | DROP_TABLE | ALTER_TABLE | UPDATE | SAVE_TO | LOAD_FROM | UNKNOWN

  /** CommandParser::identifyCommand: the input upper-cased, then the first keyword it starts
      with, in this order. */
  function IdentifyCommand(input: string): (c: CommandType)
    ensures c == UNKNOWN <==> forall p :: p in CommandPrefixes ==> !StartsWith(ToUpper(input), p)
    ensures c == CREATE_TABLE <==> StartsWith(ToUpper(input), "CREATE_TABLE")
    ensures c == INSERT <==> StartsWith(ToUpper(input), "INSERT INTO")
    ensures c == SELECT <==> StartsWith(ToUpper(input), "SELECT")
    ensures c == DROP_TABLE <==> StartsWith(ToUpper(input), "DROP_TABLE")
    ensures c == ALTER_TABLE <==> StartsWith(ToUpper(input), "ALTER TABLE") || StartsWith(ToUpper(input), "ALTER_TABLE")
    ensures c == UPDATE <==> StartsWith(ToUpper(input), "UPDATE")
    ensures c == SAVE_TO <==> StartsWith(ToUpper(input), "SAVE TO")
    ensures c == LOAD_FROM <==> StartsWith(ToUpper(input), "LOAD_FROM")
  {
    var upper := ToUpper(input);
    PrefixesExclusive(upper);
    if StartsWith(upper, "CREATE_TABLE") then CREATE_TABLE
    else if StartsWith(upper, "INSERT INTO") then INSERT
    else if StartsWith(upper, "SELECT") then SELECT
    else if StartsWith(upper, "DROP_TABLE") then DROP_TABLE
    else if StartsWith(upper, "ALTER TABLE") || StartsWith(upper, "ALTER_TABLE") then ALTER_TABLE
    else if StartsWith(upper, "UPDATE") then UPDATE
    else if StartsWith(upper, "SAVE TO") then SAVE_TO
    else if StartsWith(upper, "LOAD_FROM") then LOAD_FROM
    else UNKNOWN
  }

  /** The prefixes identifyCommand recognises, upper-cased. */
  const CommandPrefixes: set<string> :=
    {"CREATE_TABLE", "INSERT INTO", "SELECT", "DROP_TABLE", "ALTER TABLE", "ALTER_TABLE", "UPDATE", "SAVE TO", "LOAD_FROM"}

  /** No input starts with two different prefixes, so the order in which identifyCommand tries
      them decides nothing, and each kind is named by its own prefix alone. */
  lemma PrefixesExclusive(u: string)
    ensures forall p, q :: p in CommandPrefixes && q in CommandPrefixes && StartsWith(u, p) && StartsWith(u, q) ==> p == q
  {
    forall p, q | p in CommandPrefixes && q in CommandPrefixes && StartsWith(u, p) && StartsWith(u, q)
      ensures p == q
    {
      assert p[0] == u[0] == q[0];
      assert p[1] == u[1] == q[1];
      assert p[5] == u[5] == q[5];
    }
  }

  /** Letter case does not matter: two inputs that upper-case alike are the same command. */
  lemma IdentifyIgnoresCase(a: string, b: string)
    requires ToUpper(a) == ToUpper(b)
    ensures IdentifyCommand(a) == IdentifyCommand(b)
    ensures IdentifyCommand(ToUpper(a)) == IdentifyCommand(a)
  {
    ToUpperIdempotent(a);
  }

  /** A keyword is recognised only at the very start: an input whose first character is not a
      letter of any keyword is UNKNOWN. */
  lemma IdentifyNeedsKeywordStart(input: string)
    requires input != [] && Upper(input[0]) !in "CISDAUL"
    ensures IdentifyCommand(input) == UNKNOWN
  {
    var upper := ToUpper(input);
    assert upper[0] == Upper(input[0]);
  }

  /** What a command leaves behind instead of its printed text. Failed is a diagnostic after
      which the command returned; Aborted is an exception that leaves executeCommand, which
      nothing in the program catches. */
  datatype Reply =
    | TableCreated(name: string, columns: seq<Column>)
    | RowInserted(table: string)
    | TableDropped(name: string)
    | Rows(header: seq<string>, rows: seq<seq<Value>>)
    | ColumnAdded(table: string, column: string)
    | RowsUpdated(table: string, count: nat)
    | SavedTo(path: string)
    | LoadedFrom(path: string)
    | Ignored
    | UnknownCommand
    | Failed(error: Error)
    | Aborted(error: Error)

  /** The type names CREATE_TABLE and ALTER TABLE accept: the word upper-cased, then INT, FLOAT,
      STRING, BOOL or BOOLEAN. */
  function TypeWord(word: string): (r: Option<DataType>)
    ensures r.Some? <==> ToUpper(word) in {"INT", "FLOAT", "STRING", "BOOL", "BOOLEAN"}
  {
    ParseTypeName(ToUpper(word))
  }

  /** The type words are read in any letter case, and every name dataTypeToString writes is one
      of them. */
  lemma TypeWordAnyCase(word: string, t: DataType)
    requires ToUpper(word) == DataTypeToString(t) || (t == BOOL && ToUpper(word) == "BOOL")
    ensures TypeWord(word) == Some(t)
    ensures TypeWord(ToUpper(word)) == Some(t)
  {
    ToUpperIdempotent(word);
  }

  /** A word whose upper-case form is none of the five type names is refused, whatever its
      case. */
  lemma TypeWordRefused(word: string)
    requires ToUpper(word) !in {"INT", "FLOAT", "STRING", "BOOL", "BOOLEAN"}
    ensures TypeWord(word).None? && TypeWord(ToUpper(word)).None?
  {
    ToUpperIdempotent(word);
  }

  /** SAVE TO and LOAD_FROM: the text strictly between the first and the last '"'; none when the
      input has fewer than two. */
  function QuotedPath(input: string): (r: Option<string>)
    ensures r.Some? ==>
      exists i, j :: 0 <= i < j < |input| && input[i] == '"' && input[j] == '"' &&
        '"' !in input[..i] && '"' !in input[j + 1..] && r.value == input[i + 1..j]
    ensures r.None? ==> forall i, j :: 0 <= i < j < |input| ==> !(input[i] == '"' && input[j] == '"')
  {
    match (FindChar(input, '"'), RFindChar(input, '"'))
    case (Some(first), Some(last)) =>
      if last <= first then None
      else
        assert '"' !in input[..first] && '"' !in input[last + 1..];
        Some(input[first + 1..last])
    case _ => None
  }

  /** A path written between two quotes, with no quote anywhere else, is the path read. */
  lemma QuotedPathOf(before: string, path: string, after: string)
    requires '"' !in before && '"' !in path && '"' !in after
    ensures QuotedPath(before + "\"" + path + "\"" + after) == Some(path)
  {
    var s := before + "\"" + path + "\"" + after;
    var i := |before|;
    var j := |before| + 1 + |path|;
    assert s[i] == '"' && s[j] == '"';
    assert forall k :: 0 <= k < i ==> s[k] == before[k];
    assert forall k :: i < k < j ==> s[k] == path[k - i - 1];
    assert forall k :: j < k < |s| ==> s[k] == after[k - j - 1];
    var first := FindChar(s, '"');
    var last := RFindChar(s, '"');
    assert first.Some? && last.Some?;
    assert first == Some(i);
    assert last == Some(j);
    assert forall k :: 0 <= k < |path| ==> s[i + 1..j][k] == s[i + 1 + k] == path[k];
    assert s[i + 1..j] == path;
  }
}
