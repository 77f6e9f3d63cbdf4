# CQL in Dafny

CQL is a small in-memory database that is driven by one line of a SQL-like language at a time.
Its data lives in a `Database`, an ordered vector of `Table`s. Each table has a name, a schema of
typed columns (INT, FLOAT, STRING, BOOL) and rows of tagged values, and its primary key is the
column named `ID`. `CommandParser::executeCommand` picks a branch with `identifyCommand` and then runs
it:

- `CREATE_TABLE`, `INSERT INTO`, `SELECT`, `DROP_TABLE`;
- `ALTER TABLE ... ADD`, `UPDATE ... SET ... WHERE`;
- `SAVE TO "path"` and `LOAD_FROM "path"`.

`Database::saveToFile` and `Database::loadFromFile` store the tables in a line-based text format.

The model is in these modules:

- **Wrappers, Text and Numbers:** the standard-library behaviour the program depends on.
  - `find`, `rfind` and `substr`, including its `out_of_range` exception.
  - Word extraction with `>>` and splitting with `getline` on `,`.
  - `::toupper` and `::isspace`.
  - `std::stoi`, which reads a numeric prefix and fails on overflow of a 32-bit `int`.
  - A decimal stand-in for `std::stof`.
- **Schema:** the data model of `database.hpp` (`DataType`, `Value`, `Column`, `Row`), plus the
  contents of a table as a value.
- **Codec:** the file format.
  - `Serialize` is what `saveToFile` writes.
  - `Load` is the line-by-line fold of `loadFromFile` as written, and LOAD_FROM uses it.
  - `LoadChecked` is the same fold with a corrected `COLUMNS:` branch (see Findings).
- **Store:** the mutable objects.
  - The `Table` class with `AddColumn` and `AddRow`.
  - The `Database` class with `CreateTable`, `DropTable`, `GetTable`, `SaveToFile` and
    `LoadFromFile`.
  - Each method is specified by a function over table values.
- **Command:** `identifyCommand`, the type-name match shared by CREATE and ALTER, and the quoted-path
  extraction shared by SAVE TO and LOAD_FROM.
- **InsertCommand, SelectCommand, UpdateCommand, DefinitionCommands and FileCommands:** one branch of
  `executeCommand` each (DefinitionCommands holds CREATE, DROP and ALTER).
  - ALTER is modelled as written (`Alter`); `AlterCorrected` is the corrected form (see Findings).
  - A pure function gives the reply and the new contents.
  - A method runs the branch on the `Database` object and is proved equal to that function.
- **Executor:** the dispatcher, as the function `Execute` and the method `ExecuteCommand`.

Every branch's printed text is replaced by a `Reply` value:

- `Failed(e)` stands for a diagnostic printed to `std::cerr` before the branch returns, or for an
  exception that the branch catches.
- `Aborted(e)` stands for an exception that leaves `executeCommand`. `main.cpp:41` calls
  `executeCommand` outside any `try`, so such an exception ends the program.
- The file system is a map from a path to the lines of the file.

The model follows what the code does in several places where a reader might expect otherwise:

- **Strings and bools in a saved file.** In `saveToFile` (database.cpp:174-177), `decltype(val)` is
  a const reference, so neither `if constexpr` branch is taken. Strings are therefore written
  without quotes, and bools are written as `1`/`0`.
- **The UPDATE operator.** UPDATE ignores its operator and compares for equality.
- **Column lookup.** UPDATE takes the last column with a given name, while SELECT and `addRow` take
  the first.
- **A failed UPDATE.** An UPDATE whose WHERE literal does not convert throws in the middle of the
  row loop, after the rows before the failing one were already written.
- **`std::stoi`.** It reads the longest numeric prefix (`"12abc"` gives 12) rather than insisting on
  a whole number, which is what the library does.
- **Rows shorter than their schema.** The loader as written can commit such rows. SELECT
  (CommandParser.cpp:260, 301) and UPDATE (CommandParser.cpp:423, 439) index `row.values`
  without a bounds check. Reading past the end is undefined behaviour in C++, and the model
  reports it as the uncaught error `RowTooShort`.
- **`front()`/`back()` on an empty token.** Such a token is read as "not quoted", so every input has
  an outcome and no precondition excludes it.

## Model

| member | source | states |
|---|---|---|
| Schema.ValueEquality | database.hpp:22 | two values are equal exactly when they hold the same alternative with equal payloads |
| Schema.DataTypeToString | database.cpp:15-25 | the name of every type is at least three upper-case letters |
| Schema.TypeNameRoundTrip | database.cpp:15-25 | the name `dataTypeToString` writes for each of the four types is read back as that type by the loader's type match (BOOL written as BOOLEAN), and is upper-case letters only |
| Schema.ColumnIndex | database.cpp:86-92 | the first column with that name, or none when no column has it |
| Schema.LastColumnIndex | CommandParser.cpp:393-397 | the last column with that name, as the UPDATE loop without `break` finds it, or none |
| Text.ToUpper | CommandParser.cpp:11-12 | each character upper-cased by `::toupper`, length kept |
| Text.ToUpperIdempotent | CommandParser.cpp:11-12 | upper-casing twice is upper-casing once |
| Text.Find | CommandParser.cpp:177 | the first position where the pattern occurs, or none when it occurs nowhere |
| Text.FindChar | CommandParser.cpp:33 | the first position of the character, or none when it does not occur |
| Text.RFindChar | CommandParser.cpp:450 | the last position of the character, or none when it does not occur |
| Text.Substr | CommandParser.cpp:51 | `substr` fails exactly when the position is past the end; otherwise a slice of the count asked for, cut at the end of the string |
| Text.RemoveSpacesKeeps | CommandParser.cpp:197 | the result holds exactly the input's non-whitespace characters |
| Text.TrimStartShape | database.cpp:241 | the leading spaces and tabs are removed, and nothing else |
| Text.TrimEndShape | database.cpp:242 | the trailing spaces and tabs are removed, and nothing else |
| Text.DropSemicolon | CommandParser.cpp:156-158 | one trailing `;` is removed when present, and nothing else |
| Text.ReplaceChar | CommandParser.cpp:313 | every occurrence of one character is replaced and every other character kept |
| Text.Unquote | CommandParser.cpp:288-290 | the outer quotes are removed exactly when the text starts and ends with `"` |
| Text.UnquoteOfQuoted | CommandParser.cpp:288-290 | unquoting a quoted text gives the text back |
| Text.TakeWord | CommandParser.cpp:42 | the leading run of non-whitespace characters, stopping at whitespace |
| Text.Words | CommandParser.cpp:81 | the words that `>>` extracts are non-empty and contain no whitespace |
| Text.WordsOfSpaced | CommandParser.cpp:154 | words joined by single spaces are extracted back as the same words |
| Text.SplitCommasOfList | database.cpp:216 | splitting a comma-joined list of comma-free pieces gives the pieces back |
| Text.GetlineFieldsOfList | database.cpp:240 | `getline` on `,` over a comma-joined list gives the pieces back when the last one is not empty |
| Text.SplitOnce | CommandParser.cpp:372-373 | the text before the first delimiter and the text after it, or the whole text when there is no delimiter |
| Numbers.NatDigitsValue | database.cpp:179 | a number written in decimal reads back as the same number |
| Numbers.Stoi | CommandParser.cpp:110 | `stoi` yields a number only when the text holds a digit |
| Numbers.StoiIgnoresTail | CommandParser.cpp:110 | `stoi` reads the leading digits and ignores what follows a non-digit |
| Numbers.StoiNeedsDigit | CommandParser.cpp:110 | `stoi` fails when no digit follows the optional sign |
| Numbers.ParseRenderInt | database.cpp:252 | every 32-bit integer written out reads back as itself |
| Numbers.StoiOverflows | CommandParser.cpp:110 | `stoi` fails (out of range) on a digit string of value 2^31 or more, and on its negation when the value exceeds 2^31 |
| Numbers.Normalize | CommandParser.cpp:108 | a decimal with no trailing zero after the point, of no greater scale, and equal in value to the one given |
| Numbers.ParseDecimal | CommandParser.cpp:108 | `stof` (decimal forms) yields a normalised number, and fails exactly when, after leading blanks and an optional sign, neither a digit nor a point followed by a digit comes first |
| Numbers.ParseMagnitude | CommandParser.cpp:108 | the unsigned part of `stof`: a normalised number, and none exactly when the text starts with neither a digit nor a point and a digit |
| Numbers.ParseRenderDecimal | database.cpp:254 | every normalised decimal written out exactly reads back through `stof` as itself |
| Codec.Serialize | database.cpp:149-191 | at least three lines per table; no lines exactly when there are no tables; otherwise the last line is `END_TABLE` |
| Codec.CellText | database.cpp:173-180 | the text a cell is written as: an INT reads back through `stoi` as itself, a normalised FLOAT through `stof` as itself, a STRING is its own text, and a BOOL is `1` exactly when true and `0` exactly when false |
| Codec.Classify | database.cpp:205-281 | a line is a header exactly when it starts with `TABLE ` (line 205), a schema line exactly when it starts with `COLUMNS:` (209), a row exactly when it starts with `ROW:` (231), the end exactly when it is `END_TABLE` (279); each kind carries the text after its keyword |
| Codec.ClassifyPrefixed | database.cpp:205-231 | a line starting with `TABLE `, `COLUMNS:` or `ROW:` is classified with the rest of the line as its text |
| Codec.Run | database.cpp:204-282 | the read loop only adds tables after the ones already committed, at most one per line |
| Codec.ParseColumnDef | database.cpp:218-227 | a definition fails exactly when its second word is not a type name, and then names that word; otherwise the column is named by the first word |
| Codec.ParseCell | database.cpp:248-264 | a successful conversion yields a value of the column's type; a STRING cell always converts; a BOOL cell fails exactly when it is not `true`, `1`, `false` or `0`; an INT cell fails exactly when `stoi` fails |
| Codec.ParseCells | database.cpp:240-275 | a successful row read has exactly one value per column |
| Codec.ParseCellsWellTyped | database.cpp:248-264 | every cell of a row that was read has its column's type |
| Codec.ColumnDefParses | database.cpp:216-228 | a column definition as saved reads back as the same column |
| Codec.CellParses | database.cpp:250-264 | each savable INT, STRING and BOOL cell as saved reads back as the same value |
| Codec.Feed | database.cpp:205-281 | only an `END_TABLE` line commits, and it commits the block being read after the tables already committed; any other line leaves the committed tables alone; only a `COLUMNS:` or a `ROW:` line can throw |
| Codec.Load | database.cpp:194-285 | the loader as written commits at most one table per line |
| Codec.LoadChecked | database.cpp:194-285 | the corrected loader commits at most one table per line |
| Codec.EndLoad | database.cpp:279-281 | `END_TABLE` commits the block read so far, at the end |
| Codec.TableLinesLoad | database.cpp:155-187 | the lines one table is saved as are read back as that table, committed after the earlier ones, for a table that is *saveable*: well-typed (every row has one cell per column and each cell has its column's type); a name without a line break; column names that are non-empty and hold no blank and no comma; no FLOAT cell; and string cells that are non-empty, hold no comma and no line break, have no blank at either end and are not wrapped in quotes |
| Codec.SaveLoadRoundTrip | database.cpp:149-285 | loading what was saved gives back the same tables (names, schemas, row order, cells) without error, when every table is saveable: well-typed (every row has one cell per column and each cell has its column's type); a name without a line break; column names that are non-empty and hold no blank and no comma; no FLOAT cell; and string cells that are non-empty, hold no comma and no line break, have no blank at either end and are not wrapped in quotes |
| Codec.CheckedLoadIsRectangular | database.cpp:200-281 | every table the corrected loader commits has one cell per column in every row |
| Codec.CheckedColumns | database.cpp:209-211 | the corrected schema line is accepted exactly when every row read so far in the block has as many cells as the new schema has columns, and then only the schema changes |
| Codec.AsWrittenCommitsRaggedTable | database.cpp:209-230 | the loader as written commits a table whose rows are wider or narrower than its schema |
| Codec.CorrectedRejectsRaggedTable | database.cpp:209-230 | the corrected loader reports an error for that file and commits nothing |
| Store.WithColumn | database.cpp:28-50 | the table keeps its name and row count, gains the column at the end, and every row gains exactly the type's zero at its end |
| Store.RowRejection | database.cpp:80-109 | each outcome exactly when its case holds: arity mismatch exactly when the length differs from the schema's; key missing exactly when the length fits and no column is named `ID`; key violation exactly when the length fits, the key column exists and some row long enough holds the same key; accepted exactly when none of these holds |
| Store.WithColumnKeepsShape | database.cpp:28-50 | one column appended; every row gets exactly one cell, the type's zero, at the end; row count and earlier cells kept |
| Store.AcceptedRowKeepsInvariants | database.cpp:81-108 | an accepted row has one value per column and the key column exists; primary keys that were distinct stay distinct |
| Store.DuplicateKeyRejected | database.cpp:99-106 | a row whose key equals an existing row's key is refused with a primary-key violation |
| Store.Table.constructor | database.hpp:41-45 | a table holds the given name, columns and rows |
| Store.Table.AddColumn | database.cpp:28-50 | the table becomes the table with the column appended and every row default-filled |
| Store.Table.AddRow | database.cpp:80-109 | the row is refused (rows unchanged) for a wrong arity, a missing key column or a duplicate key, and otherwise appended at the end |
| Store.TableIndex | database.cpp:138-145 | the first table with that exact name, or none |
| Store.Created | database.cpp:114-124 | the new table list: an error naming the table exactly when some table has that name; otherwise the old tables followed by the new table with no rows |
| Store.Dropped | database.cpp:127-135 | the table list after a drop: an error naming the table exactly when no table has that name; otherwise one table fewer |
| Store.CreatedKeepsNamesDistinct | database.cpp:114-124 | creating a table keeps names distinct and puts the new table last |
| Store.DropUndoesCreate | database.cpp:114-135 | dropping a table just created gives back the tables before it |
| Store.DroppedIsGone | database.cpp:127-135 | after a drop the name is gone, one table fewer, names still distinct |
| Store.Database.constructor | database.hpp:55-56 | a new database has no tables |
| Store.Database.CreateTable | database.cpp:114-124 | throws on an existing name with nothing changed; otherwise appends a table with no rows |
| Store.Database.EraseTable | database.cpp:130 | the table at that position is removed and the others keep their order |
| Store.Database.PushTable | database.cpp:280 | the table is appended at the end |
| Store.Database.DropTable | database.cpp:127-135 | removes the first table of that name and keeps the rest in order; throws with nothing changed when there is none |
| Store.Database.GetTable | database.cpp:138-145 | the object of the first table with that name, or null exactly when there is none |
| Store.Database.SaveToFile | database.cpp:149-191 | writes exactly the serialised lines of the current tables |
| Store.Database.LoadFromFile | database.cpp:194-285 | the tables become those the loader commits from the lines, and the error is the loader's |
| Store.Database.ReadLine | database.cpp:205-278 | one line of the read loop applied to the block being read, as the loader function does |
| Store.Database.TableText | database.cpp:155-187 | the lines written for one table |
| Store.Database.ColumnsText | database.cpp:159-165 | the `COLUMNS:` line written for a schema |
| Store.Database.RowText | database.cpp:168-184 | the `ROW:` line written for a row |
| Command.IdentifyCommand | CommandParser.cpp:10-24 | each kind exactly when the upper-cased input starts with its prefix (ALTER_TABLE for `ALTER TABLE` or `ALTER_TABLE`); UNKNOWN exactly when it starts with none of the nine |
| Command.PrefixesExclusive | CommandParser.cpp:14-21 | no input starts with two different command prefixes, so the order of the tests does not change the result |
| Command.IdentifyIgnoresCase | CommandParser.cpp:10-24 | inputs equal up to letter case are classified alike |
| Command.IdentifyNeedsKeywordStart | CommandParser.cpp:10-24 | an input whose first letter starts no keyword is UNKNOWN |
| Command.TypeWord | CommandParser.cpp:62-68 | a word names a type exactly when, upper-cased, it is INT, FLOAT, STRING, BOOL or BOOLEAN |
| Command.TypeWordAnyCase | CommandParser.cpp:62-67 | INT, FLOAT, STRING, BOOL and BOOLEAN are recognised in any letter case |
| Command.TypeWordRefused | CommandParser.cpp:68 | any other word, as written or upper-cased, names no type |
| Command.QuotedPath | CommandParser.cpp:449-456 | a path is the text between the first and the last `"` of the input, two different quotes; there is none when the input does not hold two quotes |
| Command.QuotedPathOf | CommandParser.cpp:466-473 | the path is the text between the first and the last `"` |
| Schema.ParseTypeName | database.cpp:222-226 | a type name is read exactly when it is INT, FLOAT, STRING, BOOL or BOOLEAN, and every name but BOOL is the one that type is saved as |
| Schema.DefaultValue | database.cpp:31-47 | the value `addColumn` fills rows with has the column's type |
| Text.FindAt | CommandParser.cpp:177-189 | `find` returns a position where the pattern occurs when no earlier position starts with its first character |
| InsertCommand.PiecesJoin | CommandParser.cpp:97-116 | the pieces joined by commas are the raw text, so splitting loses nothing |
| InsertCommand.Literal | CommandParser.cpp:100-110 | a piece, with whitespace removed, is a STRING exactly when quoted, a BOOL exactly when it is `true` or `false` unquoted, a FLOAT only when it holds a point and an INT only when it does not; a failed conversion names the piece |
| InsertCommand.FieldsWithoutQuotes | CommandParser.cpp:97-131 | without quotes the splitter is `getline` on `,`, the empty last piece dropped |
| InsertCommand.SpacesRemovedInsideQuotes | CommandParser.cpp:101 | whitespace is removed even inside quotes |
| InsertCommand.Literals | CommandParser.cpp:103-110 | one value per piece when every piece converts |
| InsertCommand.LiteralRoundTrip | CommandParser.cpp:103-110 | a quoted text is a STRING, `true`/`false` a BOOL, a number an INT, each read back as the value it spells |
| InsertCommand.InsertValues | CommandParser.cpp:91-131 | a successful conversion gives one value per piece of the split list |
| InsertCommand.InsertRoundTrip | CommandParser.cpp:94-131 | a comma list of spelled-out values is split and coerced back into those values in order |
| InsertCommand.SplitValues | CommandParser.cpp:91-131 | the loop with its quote flag computes the values of the splitting and coercion functions |
| InsertCommand.Insert | CommandParser.cpp:78-149 | a reply other than "row inserted" leaves the tables as they were; an inserted row keeps the number of tables and names the third word of the line |
| InsertCommand.InsertRow | CommandParser.cpp:133-146 | a reply other than "row inserted" leaves the tables as they were; an inserted row keeps the number of tables and names the table asked for |
| InsertCommand.InsertRowKeepsInvariants | CommandParser.cpp:133-146 | a row is added exactly when the table exists and `addRow` accepts it, only to that table; otherwise nothing changes |
| InsertCommand.InsertKeepsInvariants | CommandParser.cpp:78-149 | INSERT keeps every table rectangular with unique keys, and changes nothing when no row is added |
| InsertCommand.ExecInsert | CommandParser.cpp:78-149 | the INSERT branch on the database object has the reply and contents of the INSERT function |
| InsertCommand.AddRowTo | CommandParser.cpp:133-146 | looking up the table and calling `addRow` gives the reply and contents of the row-adding function |
| SelectCommand.SelectClauses | CommandParser.cpp:171-197 | the table name has no whitespace; the only failures are a missing FROM and `substr` out of range |
| SelectCommand.ClausesAt | CommandParser.cpp:183-197 | the clauses once FROM is found: the table name has no whitespace, and the only failure is `substr` out of range |
| SelectCommand.SelectClausesAt | CommandParser.cpp:183-194 | with FROM and WHERE found in range, the columns are the text between `SELECT ` and FROM, the table the text between FROM and WHERE without whitespace, and the condition the text after `WHERE ` |
| SelectCommand.SelectClausesRoundTrip | CommandParser.cpp:171-197 | `SELECT c FROM t WHERE cond;` is split back into the column list, the table name and the condition, when the column list holds no letter F or W and the table name no W and no whitespace |
| SelectCommand.ResolveColumns | CommandParser.cpp:205-232 | every index resolved is a column of the table; a list with `*` resolves to every column in schema order; otherwise one index per listed name |
| SelectCommand.Shown | CommandParser.cpp:262-294 | the WHERE test of one cell fails exactly when an INT cell meets a literal `stoi` cannot read or a FLOAT cell one `stof` cannot read, and the failure names the literal |
| SelectCommand.SelectRows | CommandParser.cpp:239-305 | no more rows are shown than the table has |
| SelectCommand.ResolveNames | CommandParser.cpp:214-231 | each listed name resolves, in list order, to its first column; a failure names a listed column that does not exist |
| SelectCommand.StarSelectsAll | CommandParser.cpp:208-212 | `*` selects every column in schema order |
| SelectCommand.ExplicitHeader | CommandParser.cpp:213-231 | the header is the listed names with whitespace removed |
| SelectCommand.FindColumn | CommandParser.cpp:219-226 | the loop finds the first column with the name |
| SelectCommand.SelectColumns | CommandParser.cpp:205-232 | the column loop computes the column resolution function |
| SelectCommand.AllColumns | CommandParser.cpp:209-212 | every index in schema order |
| SelectCommand.NamedColumns | CommandParser.cpp:214-231 | the `getline` loop computes the name resolution and stops at the first unknown name |
| SelectCommand.CompareIntMeaning | CommandParser.cpp:262-270 | the six operators compare INT cells as written |
| SelectCommand.StringIgnoresOperator | CommandParser.cpp:286-291 | a STRING cell is compared by equality with the unquoted literal, whatever the operator |
| SelectCommand.UnknownOperatorShows | CommandParser.cpp:271-273 | an unrecognised operator on a numeric cell leaves the row shown |
| SelectCommand.Decide | CommandParser.cpp:239-295 | without WHERE every row is shown; a WHERE column that does not exist shows no row; `RowTooShort` only when the row has no cell at the WHERE column |
| SelectCommand.Visits | CommandParser.cpp:239-305 | one visit per row, in table order, each the WHERE decision and the projection of that row |
| SelectCommand.Collect | CommandParser.cpp:239-305 | the loop's output has at most one printed row per visit |
| SelectCommand.Printed | CommandParser.cpp:239-305 | the indexes of the printed visits, increasing, and holding exactly the visits that print |
| SelectCommand.CollectIsPrinted | CommandParser.cpp:239-305 | when no visit throws, the output is the printed visits' rows in order, one for each |
| SelectCommand.NoConditionShowsAll | CommandParser.cpp:239-242 | without WHERE every row is shown, projected, in order |
| SelectCommand.MissingWhereColumnShowsNothing | CommandParser.cpp:247-258 | a WHERE column that does not exist skips every row |
| SelectCommand.SelectedRowsPass | CommandParser.cpp:239-305 | the rows shown are, in table order, exactly the projections of the rows whose condition holds, and each of those rows has every selected cell |
| SelectCommand.ShortRowAborts | CommandParser.cpp:297-302 | a row that passes the condition but lacks a selected cell makes the SELECT throw |
| SelectCommand.Select | CommandParser.cpp:170-308 | the reply is a diagnostic, an exception or the printed rows; rows are printed only when the clauses parse and the table exists |
| SelectCommand.DecideRow | CommandParser.cpp:240-295 | the WHERE block for one row gives the decision function's result |
| SelectCommand.SelectFrom | CommandParser.cpp:239-305 | the row loop yields the selected rows, or the first conversion failure |
| SelectCommand.ExecSelect | CommandParser.cpp:170-308 | the SELECT branch on the database object gives the SELECT function's reply and changes nothing |
| UpdateCommand.SetParts | CommandParser.cpp:370-376 | the target is the text before the first `=`, the value the rest of that line |
| UpdateCommand.UpdateClauses | CommandParser.cpp:349-385 | a syntax error exactly when the case-sensitive SET or WHERE is missing; the names extracted have no whitespace |
| UpdateCommand.WhereParts | CommandParser.cpp:379-385 | the WHERE column and literal have no whitespace |
| UpdateCommand.NewValue | CommandParser.cpp:404-418 | the SET value converts to the target column's type, and fails exactly for a non-number in an INT or FLOAT column |
| UpdateCommand.MatchesIsSelectEquality | CommandParser.cpp:427-436 | the row test of UPDATE is SELECT's `==`, whatever operator was written |
| UpdateCommand.Matches | CommandParser.cpp:427-436 | the UPDATE row test fails exactly when an INT cell meets a literal `stoi` cannot read or a FLOAT cell one `stof` cannot read, naming the literal; a STRING cell matches exactly when it equals the unquoted literal |
| UpdateCommand.Prepare | CommandParser.cpp:393-418 | the plan exists exactly when both columns exist and the SET value converts |
| UpdateCommand.Test | CommandParser.cpp:423-439 | a row without the condition cell throws `RowTooShort`; with both cells the test is the equality comparison; a match implies the target cell exists |
| UpdateCommand.Tests | CommandParser.cpp:423-436 | one test per row, each that row's test, and every match has a target cell |
| UpdateCommand.Apply | CommandParser.cpp:420-442 | the pass keeps the number of rows |
| UpdateCommand.Update | CommandParser.cpp:347-446 | the number of tables is kept; a diagnostic changes nothing; the reply is a diagnostic, an exception or a count of updated rows |
| UpdateCommand.Assign | CommandParser.cpp:387-444 | the number of tables is kept; a diagnostic changes nothing; a count of updated rows names the table asked for, which exists |
| UpdateCommand.SweepMeaning | CommandParser.cpp:421-442 | the pass stops at the first test that throws, replaces the target cell of exactly the matching rows before it, and counts them |
| UpdateCommand.ApplyMeaning | CommandParser.cpp:420-442 | a complete pass replaces the target cell of exactly the matching rows, counts them, and changes no other cell or row |
| UpdateCommand.ApplyKeepsShape | CommandParser.cpp:438-441 | each row is kept or has only its target cell replaced; shapes and types are kept |
| UpdateCommand.UpdateKeepsInvariants | CommandParser.cpp:347-446 | UPDATE keeps names, schemas, row counts and cell types; only the first table of that name can change; a diagnostic changes nothing |
| UpdateCommand.AssignKeepsInvariants | CommandParser.cpp:387-444 | the same, from the table lookup on |
| UpdateCommand.UpdateIdempotent | CommandParser.cpp:347-446 | repeating a successful UPDATE, when the repeat also succeeds, changes nothing more |
| UpdateCommand.FindColumns | CommandParser.cpp:393-397 | the loop finds the last target column and the last condition column |
| UpdateCommand.UpdateRows | CommandParser.cpp:421-442 | the in-place row loop leaves the rows, count and error of the pass function |
| UpdateCommand.StepRow | CommandParser.cpp:421-442 | one turn of the row loop takes the rows and count to those of the pass over one more row |
| UpdateCommand.VisitRow | CommandParser.cpp:423-441 | one row: the test, and the cell written only when it holds |
| UpdateCommand.ExecUpdate | CommandParser.cpp:347-446 | the UPDATE branch on the database object has the reply and contents of the UPDATE function |
| UpdateCommand.UpdateIn | CommandParser.cpp:387-444 | the branch from the table lookup on, on the database object |
| UpdateCommand.PlanFor | CommandParser.cpp:393-418 | column lookup and SET conversion compute the plan function |
| UpdateCommand.UpdateTable | CommandParser.cpp:420-444 | the row pass on the found table gives the reply and contents of the UPDATE function |
| UpdateCommand.AssignAt | CommandParser.cpp:420-444 | the UPDATE outcome in terms of the pass over the found table |
| UpdateCommand.SweepTable | CommandParser.cpp:421-442 | the pass writes only the found table's rows, to those of the pass function |
| DefinitionCommands.UnknownTypeSkipped | CommandParser.cpp:64-68 | a definition with an unknown type is skipped and the others are kept in order |
| DefinitionCommands.AllDefined | CommandParser.cpp:56-69 | when every definition has a known type, the columns are those definitions in order |
| DefinitionCommands.TypeNameUpper | CommandParser.cpp:62 | type names are upper-case words that upper-casing leaves alone |
| DefinitionCommands.Definition | CommandParser.cpp:57-68 | a definition gives a column exactly when its second word, upper-cased, is INT, FLOAT, STRING, BOOL or BOOLEAN, and the column is named by its first word |
| DefinitionCommands.DefinitionsRoundTrip | CommandParser.cpp:51-69 | the definitions of a schema, as saved, are read back as that schema |
| DefinitionCommands.Create | CommandParser.cpp:32-76 | any reply other than "table created" changes nothing; a created table adds one table under a name that was free |
| DefinitionCommands.CreateKeepsInvariants | CommandParser.cpp:32-76 | CREATE appends one table without rows and keeps names distinct, or changes nothing |
| DefinitionCommands.CreateRoundTrip | CommandParser.cpp:33-71 | a well-formed CREATE_TABLE line for a new name creates exactly that table with exactly those columns |
| DefinitionCommands.ColumnsOf | CommandParser.cpp:56-69 | the definition loop computes the column list function |
| DefinitionCommands.ExecCreate | CommandParser.cpp:32-76 | the CREATE branch on the database object has the reply and contents of the CREATE function |
| DefinitionCommands.Drop | CommandParser.cpp:151-167 | a table is dropped exactly when its name is found, leaving one table fewer; otherwise the reply is "table not found" for that name and nothing changes |
| DefinitionCommands.DropKeepsInvariants | CommandParser.cpp:151-167 | DROP removes the table exactly when it exists (one table fewer, name gone); otherwise it reports it and changes nothing |
| DefinitionCommands.DropRoundTrip | CommandParser.cpp:152-161 | `DROP_TABLE name;` removes the table of that name, the `;` not being part of it |
| DefinitionCommands.CreateThenDrop | CommandParser.cpp:32-167 | creating a table and then dropping it gives back the tables before |
| DefinitionCommands.ExecDrop | CommandParser.cpp:151-167 | the DROP branch on the database object has the reply and contents of the DROP function |
| DefinitionCommands.SplitKeyword | CommandParser.cpp:311-313 | only the `_` of `ALTER_TABLE` becomes a space (corrected form) |
| DefinitionCommands.SplitKeywordAgrees | CommandParser.cpp:311-313 | on input with no other `_`, the corrected form is the code's |
| DefinitionCommands.ReplaceUnderscores | CommandParser.cpp:311-313 | as written: the line without its `;`, of the same length, every `_` replaced and every other character kept |
| DefinitionCommands.AlterCorrected | CommandParser.cpp:310-344 | the ALTER command with only the keyword's `_` replaced: the number of tables is kept, nothing changes unless a column is added, and an added column's table and column are the third and fifth words of the line |
| DefinitionCommands.AlterWith | CommandParser.cpp:315-342 | the number of tables is kept and nothing changes unless a column is added; the line is ignored exactly when a keyword is wrong; an added column is the one the words name, in the table they name |
| DefinitionCommands.Alter | CommandParser.cpp:310-344 | as written: the number of tables is kept, nothing changes unless a column is added, and an added column's table and column names never hold `_` |
| DefinitionCommands.AlterKeepsInvariants | CommandParser.cpp:319-342 | a column is added exactly when both keywords, the table and the type are good, only to that table; otherwise nothing changes |
| DefinitionCommands.CorrectedLineRead | CommandParser.cpp:311-317 | with the corrected replacement, the five words of an ALTER line are read back for any names |
| DefinitionCommands.AlterLineRead | CommandParser.cpp:311-317 | as written, the five words of an ALTER line are read back when no name holds `_` |
| DefinitionCommands.AlterRoundTrip | CommandParser.cpp:310-344 | as written, `ALTER TABLE name ADD column TYPE` with names free of `_` adds that column, default-filled, to that table |
| DefinitionCommands.AsWrittenSplitsTableName | CommandParser.cpp:313 | as written, a table name `a_b` is read as `a` |
| DefinitionCommands.CorrectedKeepsTableName | CommandParser.cpp:313 | corrected, a table name `a_b` is read whole |
| DefinitionCommands.ExecAlter | CommandParser.cpp:310-344 | the ALTER branch on the database object has the reply and contents of the ALTER function |
| DefinitionCommands.AddColumnIn | CommandParser.cpp:341 | `addColumn` on the found table changes only that table |
| FileCommands.Save | CommandParser.cpp:448-464 | a file is written exactly when a quoted path is found, and it holds the serialised tables; otherwise the syntax diagnostic and no file change |
| FileCommands.LoadFrom | CommandParser.cpp:465-481 | the reply is a diagnostic or "loaded"; "loaded" names a quoted path that exists; without a path, the syntax diagnostic and nothing changed |
| FileCommands.SaveWritesOneFile | CommandParser.cpp:448-464 | SAVE TO writes exactly the serialised tables at the quoted path and no other file, or nothing without a path |
| FileCommands.LoadReplacesTables | CommandParser.cpp:465-481 | without a path or file, a diagnostic and nothing changed; otherwise the tables become exactly those the loader as written commits from the file, and the reply is a diagnostic exactly when the loader stopped on an error |
| FileCommands.LoadFromRaggedFile | CommandParser.cpp:465-481 | loading the file of the loader finding loads a table whose row does not fit its schema |
| FileCommands.SaveThenLoad | CommandParser.cpp:448-481 | saving to a path without `"` and loading from it gives back the saved tables, whatever came between, when every table is saveable: well-typed (every row has one cell per column and each cell has its column's type); a name without a line break; column names that are non-empty and hold no blank and no comma; no FLOAT cell; and string cells that are non-empty, hold no comma and no line break, have no blank at either end and are not wrapped in quotes |
| FileCommands.ExecSave | CommandParser.cpp:448-464 | the SAVE TO branch on the database object |
| FileCommands.ExecLoad | CommandParser.cpp:465-481 | the LOAD_FROM branch on the database object |
| Executor.Execute | CommandParser.cpp:28-490 | only SAVE TO writes files; SELECT, SAVE TO and an unknown command change no table; an unknown command is reported and changes nothing |
| Executor.ExecuteKeepsShape | CommandParser.cpp:28-489 | every command other than LOAD_FROM keeps every table rectangular |
| Executor.FailureChangesNothing | CommandParser.cpp:28-489 | a diagnostic leaves the tables unchanged (except after LOAD_FROM has cleared them), and only SAVE TO writes a file |
| Executor.ReadOnlyCommands | CommandParser.cpp:168-308 | SELECT, SAVE TO and an unknown command change no table |
| Executor.InsertFailureChangesNothing | CommandParser.cpp:133-146 | an INSERT that adds no row changes nothing |
| Executor.ExecuteCommand | CommandParser.cpp:28-490 | the dispatcher on the database object has the reply, contents and files of the dispatch function |

## Left out

- `main.cpp`: the read loop, the `.exit` prompt and the save-on-exit dialogue. These are terminal
  I/O.
- `Table::showTable` and every line printed by `fmt` or `std::cerr`. SELECT yields its header and
  its rows as values instead.
- File streams. A file is a list of lines in a map.
  - Failing to open a file for writing is not modelled, so SAVE TO always writes.
  - Failing to open a file for reading is an absent path.
- Floating point. FLOAT cells are exact decimals. `std::stof` is modelled only on plain decimal
  forms (no exponents, `inf` or `nan`), and float comparisons and 6-digit rendering are left out.
- Codec.SaveLoadRoundTrip, Codec.TableLinesLoad and FileCommands.SaveThenLoad promise the round
  trip only for saveable tables, and say nothing about the others:
  - Ill-typed rows. `addRow` does not check cell types, so INSERT can store them: a table
    `(ID INT, Price FLOAT)` holding the row `1, 80000` has an INT cell in a FLOAT column, and it is
    saved as text that `stof` reads back as a FLOAT.
  - String cells that are empty, hold a comma or a line break, start or end with a blank, or are
    wrapped in quotes. `INSERT INTO t VALUES (1, "a,b")` stores `a,b`, which is saved on one
    `ROW:` line and read back as two cells.
  - Column names that are empty or hold a blank or a comma, and table names that hold a line break.
    A file here is a list of lines read one by one, so such names are split or misread.
  - FLOAT cells. `saveToFile` renders floats with 6 significant digits, so they do not come back
    unchanged.
- After an `Aborted` reply the program ends. The model returns the reply and the state at the time
  of the throw, and does not model the end of the process.
- `CommandParser.hpp` declares only the `CommandType` enum, which `Command.CommandType` mirrors.
- UPDATE does not re-check primary keys. An UPDATE of the `ID` column can make keys collide, so
  UpdateCommand.UpdateKeepsInvariants keeps shapes and types but not key uniqueness.
- LOAD_FROM can create two tables with the same name, and, through the loader finding, tables whose
  rows do not fit their schema. FileCommands.LoadReplacesTables therefore promises neither distinct
  names nor rectangular tables, and Executor.ExecuteKeepsShape excludes LOAD_FROM.
- DefinitionCommands.AlterLineRead and DefinitionCommands.AlterRoundTrip hold only for names without
  `_`, since the code as written splits such names (see Findings).
- UpdateCommand.UpdateIdempotent: a second run of a successful UPDATE changes nothing more when it
  succeeds; when it throws `RowTooShort` on a row too short for the condition column, the second
  run is not promised to succeed.

## Findings

| source | as written | input that shows it | evidently intended | confidence | as-written member | corrected member |
|---|---|---|---|---|---|---|
| database.cpp:209-230 | a `COLUMNS:` line replaces the schema of the block even after `ROW:` lines were read, so the block is committed with rows that do not have one cell per column | the lines `TABLE t`, `COLUMNS: ID INT`, `ROW: 1`, `COLUMNS: ID INT, x INT`, `END_TABLE` | a schema line that disagrees with the rows already read is an error, like a row of the wrong width | not executed | Codec.AsWrittenCommitsRaggedTable | Codec.CorrectedRejectsRaggedTable |
| CommandParser.cpp:311-313 | every `_` in an ALTER line becomes a space, including those inside the table and column names | `ALTER TABLE my_table ADD age INT;` looks up a table named `my` | only the `_` of the `ALTER_TABLE` keyword becomes a space | not executed | DefinitionCommands.AsWrittenSplitsTableName | DefinitionCommands.CorrectedKeepsTableName |
