/** Character and string helpers with the meaning the C++ standard library gives them:
    std::string::find/rfind/substr, ::isspace and ::toupper in the "C" locale, extraction of
    whitespace-separated words with operator>>, and std::getline on a ',' delimiter. */
module Text {
  import opened Wrappers

  // ---------------------------------------------------------------- characters

  /** ::isspace in the "C" locale: space, \t, \n, \v, \f and \r. */
  predicate IsSpace(c: char) {
    c == ' ' || ('\t' <= c <= '\r')
  }

  /** The two characters loadFromFile trims from a cell token (" \t"). */
  predicate IsBlank(c: char) {
    c == ' ' || c == '\t'
  }

  /** ::toupper in the "C" locale: only 'a'..'z' change. */
  function Upper(c: char): char {
    if 'a' <= c <= 'z' then (c as int - 32) as char else c
  }

  function ToUpper(s: string): (r: string)
    ensures |r| == |s|
    ensures forall i :: 0 <= i < |s| ==> r[i] == Upper(s[i])
  {
    seq(|s|, i requires 0 <= i < |s| => Upper(s[i]))
  }

  lemma UpperIdempotent(c: char)
    ensures Upper(Upper(c)) == Upper(c)
  {
  }

  /** Upper-casing twice is upper-casing once. */
  lemma ToUpperIdempotent(s: string)
    ensures ToUpper(ToUpper(s)) == ToUpper(s)
  {
    forall i | 0 <= i < |s| ensures ToUpper(ToUpper(s))[i] == ToUpper(s)[i] {
      UpperIdempotent(s[i]);
    }
  }

  // ---------------------------------------------------------------- searching

  predicate StartsWith(s: string, prefix: string) {
    |prefix| <= |s| && s[..|prefix|] == prefix
  }

  predicate OccursAt(s: string, pat: string, k: nat) {
    k + |pat| <= |s| && s[k..k + |pat|] == pat
  }

  function FindFrom(s: string, pat: string, k: nat): (r: Option<nat>)
    requires k <= |s|
    decreases |s| - k
    ensures r.Some? ==> k <= r.value && OccursAt(s, pat, r.value)
    ensures r.Some? ==> forall j :: k <= j < r.value ==> !OccursAt(s, pat, j)
    ensures r.None? ==> forall j :: k <= j <= |s| ==> !OccursAt(s, pat, j)
  {
    if OccursAt(s, pat, k) then Some(k)
    else if k == |s| then None
    else FindFrom(s, pat, k + 1)
  }

  /** std::string::find: the first position where pat occurs, None standing for npos. */
  function Find(s: string, pat: string): (r: Option<nat>)
    ensures r.Some? ==> OccursAt(s, pat, r.value)
    ensures r.Some? ==> forall j :: 0 <= j < r.value ==> !OccursAt(s, pat, j)
    ensures r.None? ==> forall j :: 0 <= j <= |s| ==> !OccursAt(s, pat, j)
  {
    FindFrom(s, pat, 0)
  }

  /** std::string::find of one character. */
  function FindChar(s: string, c: char): (r: Option<nat>)
    ensures r.Some? ==> r.value < |s| && s[r.value] == c
    ensures r.Some? ==> forall j :: 0 <= j < r.value ==> s[j] != c
    ensures r.None? ==> c !in s
  {
    if s == [] then None
    else if s[0] == c then Some(0)
    else match FindChar(s[1..], c)
      case None => None
      case Some(k) => Some(k + 1)
  }

  /** The first position holding c is the one before which c does not occur. */
  lemma FindCharAt(s: string, c: char, k: nat)
    requires k < |s| && s[k] == c
    requires forall j :: 0 <= j < k ==> s[j] != c
    ensures FindChar(s, c) == Some(k)
  {
  }

  /** A pattern found where none of the earlier characters is its first one is found there. */
  lemma FindAt(s: string, pat: string, k: nat)
    requires pat != [] && OccursAt(s, pat, k)
    requires forall j :: 0 <= j < k ==> s[j] != pat[0]
    ensures Find(s, pat) == Some(k)
  {
    if Find(s, pat).Some? {
      var v := Find(s, pat).value;
      assert s[v] == s[v..v + |pat|][0] == pat[0];
    }
  }

  /** std::string::rfind of one character: the last position holding c. */
  function RFindChar(s: string, c: char): (r: Option<nat>)
    ensures r.Some? ==> r.value < |s| && s[r.value] == c
    ensures r.Some? ==> forall j :: r.value < j < |s| ==> s[j] != c
    ensures r.None? ==> c !in s
  {
    if s == [] then None
    else if s[|s| - 1] == c then Some(|s| - 1)
    else
      assert s == s[..|s| - 1] + [s[|s| - 1]];
      RFindChar(s[..|s| - 1], c)
  }

  /** std::string::substr(pos, count). It throws out_of_range when pos is past the end; the
      count is clamped to what remains. The callers compute count as a size_t difference, so a
      negative count stands for one that wrapped around: it reaches the end of the string. */
  function Substr(s: string, pos: nat, count: int): (r: Option<string>)
    ensures r.Some? <==> pos <= |s|
    ensures r.Some? ==> pos + |r.value| <= |s| && r.value == s[pos..pos + |r.value|]
    ensures r.Some? && 0 <= count <= |s| - pos ==> |r.value| == count
    ensures r.Some? && !(0 <= count <= |s| - pos) ==> pos + |r.value| == |s|
  {
    if pos > |s| then None
    else if 0 <= count <= |s| - pos then Some(s[pos..pos + count])
    else Some(s[pos..])
  }

  // ---------------------------------------------------------------- rewriting

  /** The erase/remove_if idiom with ::isspace: every whitespace character removed. */
  function RemoveSpaces(s: string): (r: string)
    ensures |r| <= |s| && NoSpace(r)
  {
    if s == [] then []
    else
      var rest := RemoveSpaces(s[1..]);
      var r := (if IsSpace(s[0]) then [] else [s[0]]) + rest;
      assert forall i :: 1 <= i < |r| && !IsSpace(s[0]) ==> r[i] == rest[i - 1];
      r
  }

  /** Exactly the characters of s that are not whitespace remain. */
  lemma {:induction false} RemoveSpacesKeeps(s: string)
    ensures forall c :: c in RemoveSpaces(s) <==> c in s && !IsSpace(c)
  {
    if s != [] {
      RemoveSpacesKeeps(s[1..]);
      assert s == [s[0]] + s[1..];
    }
  }

  /** A string without whitespace is left as it is. */
  lemma {:induction false} RemoveSpacesNoop(s: string)
    requires NoSpace(s)
    ensures RemoveSpaces(s) == s
  {
    if s != [] {
      RemoveSpacesNoop(s[1..]);
    }
  }

  function TrimStart(s: string): string {
    if s != [] && IsBlank(s[0]) then TrimStart(s[1..]) else s
  }

  function TrimEnd(s: string): string {
    if s != [] && IsBlank(s[|s| - 1]) then TrimEnd(s[..|s| - 1]) else s
  }

  /** find_first_not_of(" \t") / find_last_not_of(" \t") trimming; an all-blank token becomes "". */
  function Trim(s: string): string {
    TrimEnd(TrimStart(s))
  }

  /** TrimStart drops exactly the leading blanks. */
  lemma {:induction false} TrimStartShape(s: string)
    ensures var r := TrimStart(s);
      |r| <= |s| && r == s[|s| - |r|..] && (r == [] || !IsBlank(r[0])) &&
      forall i :: 0 <= i < |s| - |r| ==> IsBlank(s[i])
  {
    if s != [] && IsBlank(s[0]) {
      var r := TrimStart(s[1..]);
      TrimStartShape(s[1..]);
      assert TrimStart(s) == r;
      assert s[1..][|s| - 1 - |r|..] == s[|s| - |r|..];
      forall i | 0 <= i < |s| - |r| ensures IsBlank(s[i]) {
        if i > 0 {
          assert s[i] == s[1..][i - 1];
        }
      }
    }
  }

  /** TrimEnd drops exactly the trailing blanks. */
  lemma {:induction false} TrimEndShape(s: string)
    ensures var r := TrimEnd(s);
      |r| <= |s| && r == s[..|r|] && (r == [] || !IsBlank(r[|r| - 1])) &&
      forall i :: |r| <= i < |s| ==> IsBlank(s[i])
  {
    if s != [] && IsBlank(s[|s| - 1]) {
      var r := TrimEnd(s[..|s| - 1]);
      TrimEndShape(s[..|s| - 1]);
      assert TrimEnd(s) == r;
      assert s[..|s| - 1][..|r|] == s[..|r|];
      forall i | |r| <= i < |s| ensures IsBlank(s[i]) {
        if i < |s| - 1 {
          assert s[i] == s[..|s| - 1][i];
        }
      }
    }
  }

  /** The token " " + t trims back to t when t has no blank at either end. */
  lemma TrimAfterSpace(t: string)
    requires t == [] || (!IsBlank(t[0]) && !IsBlank(t[|t| - 1]))
    ensures Trim(" " + t) == t
  {
    assert (" " + t)[1..] == t;
    assert TrimStart(t) == t;
    assert TrimStart(" " + t) == t;
    assert TrimEnd(t) == t;
  }

  /** Drops one trailing ';' (the `back() == ';'` / `pop_back()` idiom). */
  function DropSemicolon(s: string): (r: string)
    ensures s == r || s == r + ";"
    ensures |s| > 0 && s[|s| - 1] == ';' ==> |r| == |s| - 1
  {
    if |s| > 0 && s[|s| - 1] == ';' then s[..|s| - 1] else s
  }

  /** std::replace of every a by b. */
  function ReplaceChar(s: string, a: char, b: char): (r: string)
    ensures |r| == |s|
    ensures forall i :: 0 <= i < |s| ==> r[i] == (if s[i] == a then b else s[i])
  {
    seq(|s|, i requires 0 <= i < |s| => if s[i] == a then b else s[i])
  }

  /** std::replace works character by character, so it can be applied piece by piece. */
  lemma ReplaceAppend(x: string, y: string, a: char, b: char)
    ensures ReplaceChar(x + y, a, b) == ReplaceChar(x, a, b) + ReplaceChar(y, a, b)
  {
    var l := ReplaceChar(x + y, a, b);
    var r := ReplaceChar(x, a, b) + ReplaceChar(y, a, b);
    assert forall i :: 0 <= i < |l| ==> l[i] == r[i];
  }

  /** Text without the character is left as it is. */
  lemma ReplaceAbsent(x: string, a: char, b: char)
    requires a !in x
    ensures ReplaceChar(x, a, b) == x
  {
  }

  // ---------------------------------------------------------------- quotes

  /** front() == '"' && back() == '"'. An empty token counts as not quoted: calling front() on
      it is undefined, and the library in practice reads the terminating NUL. */
  predicate IsQuoted(t: string) {
    |t| > 0 && t[0] == '"' && t[|t| - 1] == '"'
  }

  /** substr(1, size() - 2) applied to a quoted token, the token itself otherwise. The lone
      token "\"" becomes "" because size() - 2 wraps around. */
  function Unquote(t: string): (r: string)
    ensures !IsQuoted(t) ==> r == t
    ensures IsQuoted(t) ==> |r| == (if |t| == 1 then 0 else |t| - 2)
    ensures IsQuoted(t) && |t| >= 2 ==> t == "\"" + r + "\""
  {
    if !IsQuoted(t) then t
    else if |t| == 1 then ""
    else t[1..|t| - 1]
  }

  lemma UnquoteOfQuoted(s: string)
    ensures Unquote("\"" + s + "\"") == s
  {
  }

  function QuoteCount(s: string): nat {
    if s == [] then 0
    else QuoteCount(s[..|s| - 1]) + (if s[|s| - 1] == '"' then 1 else 0)
  }

  // ---------------------------------------------------------------- words (operator>>)

  /** The longest prefix of s without whitespace. */
  function TakeWord(s: string): (w: string)
    ensures |w| <= |s| && w == s[..|w|]
    ensures forall i :: 0 <= i < |w| ==> !IsSpace(w[i])
    ensures |w| < |s| ==> IsSpace(s[|w|])
  {
    if s == [] || IsSpace(s[0]) then [] else [s[0]] + TakeWord(s[1..])
  }

  /** The words an istringstream yields to repeated operator>> on a std::string. */
  function Words(s: string): (ws: seq<string>)
    decreases |s|
    ensures forall k :: 0 <= k < |ws| ==> ws[k] != []
    ensures forall k, i :: 0 <= k < |ws| && 0 <= i < |ws[k]| ==> !IsSpace(ws[k][i])
  {
    if s == [] then []
    else if IsSpace(s[0]) then Words(s[1..])
    else
      var w := TakeWord(s);
      [w] + Words(s[|w|..])
  }

  /** The k-th extracted word, or "" when the stream ran dry first (the string keeps its
      initial empty value). */
  function WordAt(s: string, k: nat): string {
    var ws := Words(s);
    if k < |ws| then ws[k] else ""
  }

  /** A character the text does not hold is in none of its words. */
  lemma {:induction false} WordsWithout(s: string, c: char)
    requires c !in s
    ensures forall k :: 0 <= k < |Words(s)| ==> c !in Words(s)[k]
    decreases |s|
  {
    if s != [] {
      if IsSpace(s[0]) {
        WordsWithout(s[1..], c);
      } else {
        var w := TakeWord(s);
        assert w == s[..|w|];
        WordsWithout(s[|w|..], c);
        assert Words(s) == [w] + Words(s[|w|..]);
      }
    }
  }

  predicate NoSpace(w: string) {
    forall i :: 0 <= i < |w| ==> !IsSpace(w[i])
  }

  lemma {:induction false} TakeWordOf(w: string, rest: string)
    requires NoSpace(w)
    requires rest == [] || IsSpace(rest[0])
    ensures TakeWord(w + rest) == w
  {
    if w != [] {
      assert (w + rest)[1..] == w[1..] + rest;
      TakeWordOf(w[1..], rest);
    }
  }

  /** A word followed by whitespace is extracted first. */
  lemma WordsOfWordThen(w: string, c: char, rest: string)
    requires w != [] && NoSpace(w) && IsSpace(c)
    ensures Words(w + [c] + rest) == [w] + Words(rest)
  {
    var s := w + [c] + rest;
    TakeWordOf(w, [c] + rest);
    assert s == w + ([c] + rest);
    assert s[|w|..] == [c] + rest;
    assert ([c] + rest)[1..] == rest;
  }

  /** A lone word is the only word. */
  lemma WordsOfWord(w: string)
    requires w != [] && NoSpace(w)
    ensures Words(w) == [w]
  {
    TakeWordOf(w, []);
    assert w + [] == w;
  }

  /** Words written one after the other with a single space between them. */
  function Spaced(ws: seq<string>): string {
    if ws == [] then "" else if |ws| == 1 then ws[0] else ws[0] + " " + Spaced(ws[1..])
  }

  /** Words written with single spaces are read back one by one. */
  lemma {:induction false} WordsOfSpaced(ws: seq<string>)
    requires forall k :: 0 <= k < |ws| ==> ws[k] != [] && NoSpace(ws[k])
    ensures Words(Spaced(ws)) == ws
  {
    if |ws| == 1 {
      WordsOfWord(ws[0]);
    } else if |ws| > 1 {
      var rest := Spaced(ws[1..]);
      WordsOfSpaced(ws[1..]);
      WordsOfWordThen(ws[0], ' ', rest);
      assert ws[0] + " " + rest == ws[0] + [' '] + rest;
      assert [ws[0]] + ws[1..] == ws;
    }
  }

  /** Words without a character other than the space, written with single spaces, do not
      hold it either. */
  lemma {:induction false} SpacedWithout(ws: seq<string>, c: char)
    requires c != ' ' && forall k :: 0 <= k < |ws| ==> c !in ws[k]
    ensures c !in Spaced(ws)
  {
    if |ws| > 1 {
      SpacedWithout(ws[1..], c);
      assert c !in ws[0];
    }
  }

  /** A keyword of the command language: capital letters and underscores. */
  predicate Plain(w: string) {
    forall i :: 0 <= i < |w| ==> 'A' <= w[i] <= 'Z' || w[i] == '_'
  }

  /** A keyword holds no white space. */
  lemma PlainNoSpace(w: string)
    requires Plain(w)
    ensures NoSpace(w)
  {
  }

  /** A keyword, a space and a name read as those two words, and hold a character only when
      the name does. */
  lemma {:induction false} KeywordThenName(keyword: string, name: string)
    requires keyword != [] && Plain(keyword) && name != [] && NoSpace(name)
    ensures Words(keyword + " " + name) == [keyword, name]
    ensures forall c :: c in keyword + " " + name && c != ' ' && !('A' <= c <= 'Z') && c != '_' ==> c in name
  {
    WordsOfWordThen(keyword, ' ', name);
    WordsOfWord(name);
    assert keyword + " " + name == keyword + [' '] + name;
  }

  // ---------------------------------------------------------------- commas (std::getline)

  /** The pieces between the commas of s; a string with k commas has k + 1 pieces. */
  function SplitCommas(s: string): (ps: seq<string>)
    ensures |ps| >= 1
  {
    if s == [] then [""]
    else
      var rest := SplitCommas(s[1..]);
      if s[0] == ',' then [""] + rest else [[s[0]] + rest[0]] + rest[1..]
  }

  /** What `while (std::getline(stream, token, ','))` yields: the pieces between commas, except
      that an empty final piece is never produced (the stream is then at its end). */
  function GetlineFields(s: string): (ps: seq<string>)
    ensures forall k :: 0 <= k < |ps| ==> ',' !in ps[k]
  {
    SplitCommasNoComma(s);
    var ps := SplitCommas(s);
    if ps[|ps| - 1] == "" then ps[..|ps| - 1] else ps
  }

  lemma {:induction false} SplitCommasNoComma(s: string)
    ensures forall k :: 0 <= k < |SplitCommas(s)| ==> ',' !in SplitCommas(s)[k]
  {
    if s != [] {
      SplitCommasNoComma(s[1..]);
    }
  }

  /** Pieces joined with ',' (the shape saveToFile writes: item, then ',' unless last). */
  function CommaList(ps: seq<string>): string {
    if ps == [] then ""
    else if |ps| == 1 then ps[0]
    else CommaList(ps[..|ps| - 1]) + "," + ps[|ps| - 1]
  }

  lemma {:induction false} SplitCommasOfPiece(b: string)
    requires ',' !in b
    ensures SplitCommas(b) == [b]
  {
    if b != [] {
      SplitCommasOfPiece(b[1..]);
      assert [b[0]] + b[1..] == b;
    }
  }

  lemma {:induction false} SplitCommasAppend(a: string, b: string)
    requires ',' !in b
    ensures SplitCommas(a + "," + b) == SplitCommas(a) + [b]
  {
    if a == [] {
      assert a + "," + b == [','] + b;
      assert ([','] + b)[1..] == b;
      SplitCommasOfPiece(b);
    } else {
      assert (a + "," + b)[1..] == a[1..] + "," + b;
      SplitCommasAppend(a[1..], b);
    }
  }

  /** Splitting a comma list at its commas gives back its pieces. */
  lemma {:induction false} SplitCommasOfList(ps: seq<string>)
    requires |ps| >= 1
    requires forall k :: 0 <= k < |ps| ==> ',' !in ps[k]
    ensures SplitCommas(CommaList(ps)) == ps
  {
    if |ps| == 1 {
      SplitCommasOfPiece(ps[0]);
    } else {
      var init := ps[..|ps| - 1];
      SplitCommasOfList(init);
      SplitCommasAppend(CommaList(init), ps[|ps| - 1]);
      assert init + [ps[|ps| - 1]] == ps;
    }
  }

  /** std::getline on ',' over a comma list whose last piece is not empty yields its pieces. */
  lemma GetlineFieldsOfList(ps: seq<string>)
    requires forall k :: 0 <= k < |ps| ==> ',' !in ps[k]
    requires ps == [] || ps[|ps| - 1] != ""
    ensures GetlineFields(CommaList(ps)) == ps
  {
    if ps != [] {
      SplitCommasOfList(ps);
    }
  }

  /** getline(stream, first, d) followed by getline(stream, rest): the text before the first d
      and the text after it; without d the whole text and "". */
  function SplitOnce(s: string, d: char): (r: (string, string))
    ensures d !in s ==> r == (s, "")
    ensures d in s ==> s == r.0 + [d] + r.1 && d !in r.0
  {
    match FindChar(s, d)
    case None => (s, "")
    case Some(k) =>
      assert s == s[..k] + [d] + s[k + 1..];
      (s[..k], s[k + 1..])
  }
}
