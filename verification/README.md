# Verified model of the JSON, table-engine, arithmetic and text code

This project models the hand-written algorithms of the repository and proves what they promise:

- the two JSON parsers, the JSON printer, and the pair decycle and retrocycle that turn a cyclic graph into a
  tree and back;
- the in-memory SQL engine: tables with nested transactions, a database that keeps all tables at one transaction
  level and rolls back after a failure, joins, and the parser of SQL expressions;
- modular exponentiation, the extended Euclidean algorithm, gcd and lcm of arrays, and the prime searches;
- wildcard matching, and Base64 over UTF-8.

Code that changes state is modelled by classes and methods with loops, and each is tied to a specification
function; the theorems are lemmas about these functions. `dafny verify dfyconfig.toml` checks everything.

Each file holds one module.

| modules | what they model |
|---|---|
| Options, Texts, JsonValues, TokenLexer, JsonGrammar | options, UTF-16 texts, values, tokens, the token expression, the grammar of RFC 8259 on tokens |
| JsonTexts, StringMeaning, NumberMeaning, TokenMeaning, GrammarMeaning | JSON texts character by character, and that lexer and grammar accept exactly those |
| StateMachine, DescentSpec, DescentParser, LexerFacts, ParserEquivalence | the state machine, the recursive descent, and the two against each other |
| PrinterSpec, PrintedTexts, PrinterMeaning, Printer | the printer and the layout of what it prints |
| QuoteFacts, RoundTrip | printing and parsing one after the other |
| PathTexts, PxMeaning, Graphs | path texts and the expression `px`, object graphs |
| DecycleSpec, DecycleFacts, DecycleOrder, Decycling | decycle |
| RetrocycleSpec, RetrocycleFacts, Retrocycling, CycleRoundTrip | retrocycle, and one after the other |
| UndoLog, TableModel, StackFacts | undo logs and nested transactions on values |
| StoredRowRollback, StoredRowsDistinct, CopiedRowRollback, TransactionRuns | what each reading of the cursor keeps, and whole runs |
| Selectors, PlainEffects, ConcreteTables | selectors, what they do to rows, the table object |
| Databases | the database object |
| Products, Joins | joins |
| SqlSyntax, SqlRoundTrip, SqlGrammar, SqlParsing | SQL expressions and their parser |
| Arithmetic, Maths | arithmetic |
| Wildcards, SimpleMatching | wildcards |
| Bits, Base64Codes, Base64Meaning, Base64 | Base64 over UTF-8 |

Two switches choose between readings of the table engine. `copying` is true for the code as it is, where
`Results.advance` copies the row it goes to (ConcreteTable.java:199-210); it is false for what Cursor.java:77-84
promises, that `update` and `delete` work on the current row itself. `asserting` says whether the assertions of
Database.java are enabled.

## Model

| member | source | states |
|---|---|---|
| `StateMachine.MachineIsGrammar` | my_pojo/1.0/war/js/douglascrockford-JSON-js-633fe5a/json_parse_state.js:126-371 | on every token sequence, and whatever an earlier call left in the fields, the action tables accept exactly what the JSON grammar accepts and build the same value; duplicate keys and trailing commas are rejected |
| `StateMachine.StackDepth` | my_pojo/1.0/war/js/douglascrockford-JSON-js-633fe5a/json_parse_state.js:126-283 | in every run the stack grows by exactly the number of brackets left open |
| `StateMachine.Step` | my_pojo/1.0/war/js/douglascrockford-JSON-js-633fe5a/json_parse_state.js:89-283 | every legal action keeps the configuration invariant: the stack is empty exactly in the first and the last state, each frame returns to a state that fits the kind of its container, and a pending key is not yet in its object |
| `StateMachine.AcceptIsRun` | my_pojo/1.0/war/js/douglascrockford-JSON-js-633fe5a/json_parse_state.js:315-371 | acceptance, defined token by token, is the run of all tokens ending in the state `ok` |
| `StateMachine.RunTextIsAccept` | my_pojo/1.0/war/js/douglascrockford-JSON-js-633fe5a/json_parse_state.js:315-371 | taking one token off the text at a time comes to the same as cutting the whole text into tokens first |
| `StateMachine.StateParser.Act` | my_pojo/1.0/war/js/douglascrockford-JSON-js-633fe5a/json_parse_state.js:89-283 | an action on the mutable fields is one step of the machine, or throws where the table has no entry |
| `StateMachine.StateParser.Parse` | my_pojo/1.0/war/js/douglascrockford-JSON-js-633fe5a/json_parse_state.js:294-371 | the token loop accepts exactly the texts that spell a JSON value, character by character as RFC 8259 has it (with leading zeros and an empty fraction allowed in numbers), and returns that value |
| `GrammarMeaning.JsonExact` | my_pojo/1.0/war/js/douglascrockford-JSON-js-633fe5a/json_parse_state.js:294-371 | cutting a text into tokens and parsing them succeeds with a value if and only if the text spells that value: strings with every way to write a code unit, numbers, words and brackets as code points, white space between tokens, distinct keys |
| `TokenMeaning.TokenizeExact` | my_pojo/1.0/war/js/douglascrockford-JSON-js-633fe5a/json_parse_state.js:300-371 | the tokens of a text are these if and only if the text splits into texts of these tokens with white space around them, no number torn apart |
| `GrammarMeaning.ParseExact` | my_pojo/1.0/war/js/douglascrockford-JSON-js-633fe5a/json_parse_state.js:126-283 | a token sequence parses to a value if and only if JSON can express the value and these are its tokens |
| `GrammarMeaning.TokensParse` | my_pojo/1.0/war/js/douglascrockford-JSON-js-633fe5a/json_parse_state.js:126-283 | the tokens of a value, with anything after them, parse to that value and leave the rest |
| `StringMeaning.UnitsAreRaw` | my_pojo/1.0/war/js/douglascrockford-JSON-js-633fe5a/json_parse_state.js:80-88 | every sequence of spellings (plain, the eight short escapes, four hexadecimal digits in either case), without raw breaks, is matched whole and stands for those code units |
| `StringMeaning.RawSpells` | my_pojo/1.0/war/js/douglascrockford-JSON-js-633fe5a/json_parse_state.js:285-300 | whatever the token expression matches as a string is such a sequence of spellings of the units that replacing the escapes gives |
| `NumberMeaning.NumberRead` | my_pojo/1.0/war/js/douglascrockford-JSON-js-633fe5a/json_parse_state.js:300-300 | every number is matched whole where no number goes on |
| `NumberMeaning.NumberTaken` | my_pojo/1.0/war/js/douglascrockford-JSON-js-633fe5a/json_parse_state.js:300-300 | whatever the token expression matches as a number is one, and no digit follows it |
| `DescentParser.Parser.Value` | my_pojo/1.0/war/js/douglascrockford-JSON-js-633fe5a/json_parse.js:287-305 | moving the shared cursor, `value` reads the same value as the specification on the unread text and leaves the cursor behind it; what that value is by the text is `ParserEquivalence.DescentExact` |
| `DescentParser.Parser.String` | my_pojo/1.0/war/js/douglascrockford-JSON-js-633fe5a/json_parse.js:146-185 | every sequence of spellings of code units between quotes, raw breaks included, is read as those units, and the cursor is behind the closing quote |
| `StringMeaning.UnitsAreBody` | my_pojo/1.0/war/js/douglascrockford-JSON-js-633fe5a/json_parse.js:146-185 | the same for the specification, with the characters collected so far |
| `DescentParser.Parser.Parse` | my_pojo/1.0/war/js/douglascrockford-JSON-js-633fe5a/json_parse.js:310-320 | the parser over `at` and `ch` returns the value that a text spells, character by character as RFC 8259 has it, for every such text, and accepts no other text that falls into tokens |
| `LexerFacts.StringsAgree` | my_pojo/1.0/war/js/douglascrockford-JSON-js-633fe5a/json_parse.js:146-185 | scanning a string and replacing its escapes in one pass, or matching it first and replacing afterwards, gives the same text and the same rest |
| `LexerFacts.NumbersAgree` | my_pojo/1.0/war/js/douglascrockford-JSON-js-633fe5a/json_parse.js:105-144 | where the token expression finds a number and more tokens follow, `number` reads the same characters and accepts them |
| `ParserEquivalence.ParsersAgree` | my_pojo/1.0/war/js/douglascrockford-JSON-js-633fe5a/json_parse_state.js:294-371 | for every text, the state machine accepts exactly when the text falls into tokens and the recursive-descent parser accepts it, and both build the same value |
| `ParserEquivalence.DescentExact` | my_pojo/1.0/war/js/douglascrockford-JSON-js-633fe5a/json_parse.js:105-320 | the recursive descent reads every text that spells a value as that value, and accepts no other text that falls into tokens |
| `ParserEquivalence.RawTab` | my_pojo/1.0/war/js/douglascrockford-JSON-js-633fe5a/json_parse.js:146-185 | a string with a raw tab is read by the recursive-descent parser and refused by the state machine, so the condition about tokens is needed |
| `Printer.Stringifier.Str` | my_pojo/1.0/war/js/douglascrockford-JSON-js-633fe5a/json2.js:227-350 | `str` prints what the specification prints, which where n brackets are open is the tokens of the value in the layout of that depth, and gives `gap` back as it was on every return |
| `Printer.Stringifier.Stringify` | my_pojo/1.0/war/js/douglascrockford-JSON-js-633fe5a/json2.js:354-395 | `stringify` with a string for `space` prints the tokens of the value that JSON keeps with exactly this white space between them: none without an indent; otherwise a new line after an opening bracket and before its closing one unless the brackets are empty, a new line after a comma, a space after a colon, each line indented once for every bracket open on it |
| `Printer.Stringifier.StringifyNumber` | my_pojo/1.0/war/js/douglascrockford-JSON-js-633fe5a/json2.js:354-378 | a number for `space` lays the same tokens out with so many spaces, and with none when it is negative |
| `PrinterMeaning.PrintMeans` | my_pojo/1.0/war/js/douglascrockford-JSON-js-633fe5a/json2.js:227-350 | the printed text of every value at every depth is its tokens in that layout |
| `PrinterMeaning.QuoteMeans` | my_pojo/1.0/war/js/douglascrockford-JSON-js-633fe5a/json2.js:196-224 | a string is printed unit by unit: the seven short escapes, \u and four lower-case hexadecimal digits for control and format characters, and every other unit as itself |
| `PrinterMeaning.CleanMeans` | my_pojo/1.0/war/js/douglascrockford-JSON-js-633fe5a/json2.js:243-350 | what JSON keeps: null for what is not finite and for undefined elements, no member for an undefined value, everything else in its place |
| `QuoteFacts.QuoteRoundTrip` | my_pojo/1.0/war/js/douglascrockford-JSON-js-633fe5a/json2.js:211-224 | on every sequence of UTF-16 code units, reading a quoted string gives the string back and leaves what follows |
| `RoundTrip.LaidSplits` | my_pojo/1.0/war/js/douglascrockford-JSON-js-633fe5a/json2.js:227-350 | the laid out tokens split into the same tokens again, whatever the blank indent |
| `RoundTrip.PrintThenParse` | my_pojo/1.0/war/js/douglascrockford-JSON-js-633fe5a/json2.js:227-395 | for every finite value with distinct keys and every white-space indent, both parsers read the printed text as the value, without the members and elements that JSON cannot express |
| `RoundTrip.ParseThenPrint` | my_pojo/1.0/war/js/douglascrockford-JSON-js-633fe5a/json2.js:227-395 | what the parsers accept prints again in any layout to a text that both read as the same value, provided every number in it is finite: 1e999, which the program reads as Infinity and prints as null, is taken here as a lexeme like any other |
| `PathTexts.PxReadsPath` | my_pojo/1.0/war/js/douglascrockford-JSON-js-633fe5a/cycle.js:116-117 | `px` accepts a path written by decycle exactly when every array index on it has one digit, and `eval` then follows that path |
| `PxMeaning.PxExact` | my_pojo/1.0/war/js/douglascrockford-JSON-js-633fe5a/cycle.js:116-117 | `px` accepts exactly a dollar followed by brackets around nothing, around one digit, or around a name in quotes whose characters and escapes are those of the expression |
| `PathTexts.StepTextMeans` | my_pojo/1.0/war/js/douglascrockford-JSON-js-633fe5a/cycle.js:67-84 | a step is written as its index in decimal digits, or its name as a quoted string, in brackets |
| `PathTexts.DecimalMeans` | my_pojo/1.0/war/js/douglascrockford-JSON-js-633fe5a/cycle.js:67-69 | the decimal digits of an index denote it, without a leading zero |
| `Graphs.RefTreeExample` | my_pojo/1.0/war/js/douglascrockford-JSON-js-633fe5a/cycle.js:50-54 | the reference to the fourth element of the member a, as code points |
| `DecycleFacts.DecycleRecords` | my_pojo/1.0/war/js/douglascrockford-JSON-js-633fe5a/cycle.js:32-89 | on every finite graph, cycles included, decycle records exactly the reachable objects, each at one path of its own that leads to it in the graph and to its copy in the tree |
| `DecycleFacts.DerezGood` | my_pojo/1.0/war/js/douglascrockford-JSON-js-633fe5a/cycle.js:32-89 | one call of `derez` keeps what is recorded, records only below its path, and returns a copy in which every later occurrence is a reference |
| `DecycleOrder.ReferencesPointBack` | my_pojo/1.0/war/js/douglascrockford-JSON-js-633fe5a/cycle.js:50-85 | every reference in the copy comes after the place it refers to, in the order of the fields: an object is copied at the first place at which the walk meets it |
| `Decycling.Decycler.Decycle` | my_pojo/1.0/war/js/douglascrockford-JSON-js-633fe5a/cycle.js:11-89 | the method with its two growing lists builds the tree and the records of the specification |
| `RetrocycleFacts.RetrocycleAt` | my_pojo/1.0/war/js/douglascrockford-JSON-js-633fe5a/cycle.js:119-157 | at every place that `rez` visits stands the node of the tree with its references resolved |
| `Retrocycling.Retrocycler.Retrocycle` | my_pojo/1.0/war/js/douglascrockford-JSON-js-633fe5a/cycle.js:95-157 | overwriting members in place, in the order of the walk, ends in the structure of the specification |
| `CycleRoundTrip.DecycleThenRetrocycle` | my_pojo/1.0/war/js/douglascrockford-JSON-js-633fe5a/cycle.js:95-157 | when no object looks like a reference, the result is isomorphic to the original, sharing and cycles included, if and only if the paths of the objects that occur again have only one-digit indices |
| `CycleRoundTrip.ModestGraphComesBack` | my_pojo/1.0/war/js/douglascrockford-JSON-js-633fe5a/cycle.js:95-157 | a graph without `$ref` members and without arrays of more than ten elements always comes back |
| `CycleRoundTrip.ComesBackExactly` | my_pojo/1.0/war/js/douglascrockford-JSON-js-633fe5a/cycle.js:95-157 | wherever every reference in the copy leads to a place that `rez` visits, the result is isomorphic to the original if and only if no reachable object below the root has a `$ref` member that `px` accepts and the paths of the objects that occur again have only one-digit indices |
| `CycleRoundTrip.FakeBreaks` | my_pojo/1.0/war/js/douglascrockford-JSON-js-633fe5a/cycle.js:119-157 | an object that looks like a reference to any visited place leaves no matching of the objects |
| `CycleRoundTrip.LongArray` | my_pojo/1.0/war/js/douglascrockford-JSON-js-633fe5a/cycle.js:116-117 | ten nulls and twice the same object in an array: no matching of the objects exists |
| `CycleRoundTrip.RoundTrip` | my_pojo/1.0/war/js/douglascrockford-JSON-js-633fe5a/cycle.js:11-157 | the two methods run one after the other on any value, plain ones included, give that result |
| `CycleRoundTrip.FakeReference` | my_pojo/1.0/war/js/douglascrockford-JSON-js-633fe5a/cycle.js:119-157 | an object with a member `{"$ref": "$"}` of its own does not come back: no matching of the objects exists |
| `StoredRowRollback.StepRestorable` | javaUtil/1.0/src/erwins/database/ConcreteTable.java:242-358 | with the stored row in the cursor, every operation keeps that undoing the open logs down to any level gives what the table held at its `begin` |
| `TransactionRuns.StoredRollbackAfterRun` | javaUtil/1.0/src/erwins/database/ConcreteTable.java:317-358 | with the stored row in the cursor, after any run a rollback of the innermost level or of all levels gives back the contents at the matching `begin` |
| `CopiedRowRollback.StepBalanced` | javaUtil/1.0/src/erwins/database/ConcreteTable.java:191-358 | with the copying cursor, every operation keeps the balance of contents, deletions, insertions and leftovers at every open level |
| `CopiedRowRollback.RollbackTopExact` | javaUtil/1.0/src/erwins/database/ConcreteTable.java:349-358 | with the copying cursor, a rollback leaves what was there at the `begin`, the leftovers of inner rollbacks, and the inserted rows that are gone from the list |
| `CopiedRowRollback.RollbackRestoresIff` | javaUtil/1.0/src/erwins/database/ConcreteTable.java:349-358 | with the copying cursor, the innermost rollback restores the contents exactly when no inserted row is gone and no inner rollback left a row behind |
| `CopiedRowRollback.RollbackAllRestoresIff` | javaUtil/1.0/src/erwins/database/ConcreteTable.java:349-358 | the same for a rollback of all levels: exactly when no row inserted on any level is gone and nothing was left behind |
| `StoredRowsDistinct.StepDistinct` | javaUtil/1.0/src/erwins/database/ConcreteTable.java:242-358 | with the stored row in the cursor, no row is ever in the list twice, however much is undone |
| `TransactionRuns.ReachedSound` | javaUtil/1.0/src/erwins/database/ConcreteTable.java:317-358 | every table that operations can lead to keeps these invariants, under either reading of the cursor |
| `TransactionRuns.CopiedRollbackAfterRun` | javaUtil/1.0/src/erwins/database/ConcreteTable.java:199-210 | with the copying cursor, after any run, the exact condition under which a rollback of one level or of all levels restores the contents |
| `TransactionRuns.CopiedUpdateChangesNothing` | javaUtil/1.0/src/erwins/database/ConcreteTable.java:242-255 | with the copying cursor an update never changes a row of the table |
| `TransactionRuns.DeletedInsertSurvives` | javaUtil/1.0/src/erwins/database/ConcreteTable.java:199-210 | begin, insert, delete, rollback: the row stays in the table |
| `ConcreteTables.RollbackContent` | javaUtil/1.0/src/erwins/database/ConcreteTable.java:349-358 | for every reachable table, a rollback restores the contents at the matching `begin` if and only if the cursor holds the stored row or the copying condition is met |
| `ConcreteTables.ConcreteTable.Insert` | javaUtil/1.0/src/erwins/database/ConcreteTable.java:162-183 | a new row at the end, its undo entry on the innermost level, and nothing else |
| `ConcreteTables.ConcreteTable.InsertInto` | javaUtil/1.0/src/erwins/database/ConcreteTable.java:124-135 | a column gets the last value that is listed for it, and null when none is listed or an earlier column has its name; an unknown column throws before anything changes |
| `ConcreteTables.SpreadMeans` | javaUtil/1.0/src/erwins/database/ConcreteTable.java:124-135 | the same for the row that the specification spreads the values to |
| `ConcreteTables.ConcreteTable.Commit` | javaUtil/1.0/src/erwins/database/ConcreteTable.java:339-346 | the innermost log goes to the level below, or with `all` one level after the other until none is left; the rows stay; without a `begin` it throws |
| `ConcreteTables.ConcreteTable.Rollback` | javaUtil/1.0/src/erwins/database/ConcreteTable.java:349-358 | the logs undone in reverse are the rollback of the model, of one level or of all, and exactly when the contents at the `begin` are back |
| `ConcreteTables.ConcreteTable.Update` | javaUtil/1.0/src/erwins/database/ConcreteTable.java:363-377 | up to the first row at which the approval, the value or the replacement throws, every approved row has the new value in the cell of the column (with the stored row in the cursor; with a copy none has), the others are as they were, and the count is that of the approved rows |
| `ConcreteTables.ConcreteTable.Delete` | javaUtil/1.0/src/erwins/database/ConcreteTable.java:379-393 | up to the first row that the selector refuses, the rows that are left are exactly those it does not approve, in order, then all from that row on; the count is that of the approved rows; the logs only grow |
| `Selectors.UpdateMeans` | javaUtil/1.0/src/erwins/database/ConcreteTable.java:363-377 | the loop of update comes to judging every row by what it held before, up to the first that throws |
| `Selectors.DeleteMeans` | javaUtil/1.0/src/erwins/database/ConcreteTable.java:379-393 | the loop of delete, which removes while it walks, judges every row once and keeps the others in order |
| `PlainEffects.UpdatePlainly` | javaUtil/1.0/src/erwins/database/ConcreteTable.java:363-377 | what the loop of update does to the rows, by the answers of the selector alone |
| `PlainEffects.DeletePlainly` | javaUtil/1.0/src/erwins/database/ConcreteTable.java:379-393 | what the loop of delete leaves, by the answers of the selector alone |
| `Databases.Database.Put` | javaUtil/1.0/src/erwins/database/Database.java:328-336 | a table that is added opens as many transactions as the database has, and the database stays in step |
| `Databases.Database.Begin` | javaUtil/1.0/src/erwins/database/Database.java:628-634 | every table makes one begin step and the level rises by one, in step |
| `Databases.Database.Commit` | javaUtil/1.0/src/erwins/database/Database.java:640-653 | with the level above zero no table finds its stack empty; every table makes one commit step, in step |
| `Databases.Database.Rollback` | javaUtil/1.0/src/erwins/database/Database.java:658-671 | with the level above zero every table makes one rollback step, in step, with the exact condition for its contents |
| `Databases.Database.DoTransaction` | javaUtil/1.0/src/erwins/database/Database.java:640-671 | tables and level stay in step exactly when COMMIT and ROLLBACK run above level 0 or the assertion is enabled; otherwise the level becomes -1 and no table changes |
| `Databases.Database.PutNew` | javaUtil/1.0/src/erwins/database/Database.java:567-577 | CREATE TABLE and SELECT INTO add a table with its rows to every open transaction |
| `Databases.Database.Get` | javaUtil/1.0/src/erwins/database/Database.java:306-326 | the table in the map or the one on the disk, loaded into the open transactions; otherwise an exception and no change |
| `Databases.Database.DoStatement` | javaUtil/1.0/src/erwins/database/Database.java:729-815 | what every statement comes to: a ParseFailure exactly when it does not parse, an expression throws one, or an INSERT lists the wrong number of columns; a runtime exception exactly when a table, file or column is missing or an expression throws one; what the tables hold afterwards, completed or not; the tables stay in step, and after a failure each has the open transactions it had or was added by the statement |
| `Databases.Database.Execute` | javaUtil/1.0/src/erwins/database/Database.java:689-703 | at level above zero, a statement whose first throwing row or expression throws a ParseFailure, or that comes to one otherwise, or to an IOException, lowers the level by one and takes every mapped table back to what it held at the latest `begin`, or when it was added, always with the stored row and under the copying cursor exactly when that condition is met; after any other statement, and after a runtime exception, the level and the open transactions stay and the tables hold what the statement made of them: CREATE adds an empty table, DROP removes one, SELECT INTO adds the rows found, the others change one table |
| `Databases.VerdictMeans` | javaUtil/1.0/src/erwins/database/Database.java:689-815 | the result of every kind of statement in plain terms: each kind of failure if and only if its cause, and the number of rows affected |
| `Databases.FilesAfterMean` | javaUtil/1.0/src/erwins/database/Database.java:729-815 | what every kind of statement makes of the tables in plain terms, completed or not |
| `Databases.UpdateFailsAtSecondRow` | javaUtil/1.0/src/erwins/database/Database.java:1435-1465 | BEGIN and an UPDATE whose value throws a ParseFailure at the second row: a ParseFailure, level zero, and with the stored row in the cursor the two rows are back as they were |
| `Databases.Database.Change` | javaUtil/1.0/src/erwins/database/Database.java:1418-1490 | INSERT, UPDATE and DELETE on a table fail with the first row that throws: a ParseFailure if and only if it throws one or an INSERT lists the wrong number of columns, a runtime exception if and only if it throws one or a column is missing; what they have done to the rows by then stays |
| `Databases.RuntimeErrorIsNotCaught` | javaUtil/1.0/src/erwins/database/Database.java:689-703 | BEGIN, INSERT, and an INSERT for a column that does not exist: a runtime error, the level still one, the transaction open and the first row still there |
| `Databases.DeletedInsertComesBack` | javaUtil/1.0/src/erwins/database/Database.java:689-703 | BEGIN, INSERT, DELETE and a statement that does not parse: the table was empty and is not empty afterwards |
| `Products.ProductMeans` | javaUtil/1.0/src/erwins/database/ConcreteTable.java:460-491 | the product has every combination of rows once, at its place in the lexicographic order of the row numbers |
| `Joins.LookupMeans` | javaUtil/1.0/src/erwins/database/ConcreteTable.java:507-523 | a requested column is taken from the first table that has it, and is null when none has |
| `Joins.JoinMeans` | javaUtil/1.0/src/erwins/database/ConcreteTable.java:472-491 | the selected rows are the projections of exactly the approved combinations, in lexicographic order, unless the selector throws for one of them |
| `Joins.SelectFromCartesianProduct` | javaUtil/1.0/src/erwins/database/ConcreteTable.java:472-491 | the recursive walk of the cursors adds, for the rows fixed so far, exactly what selecting from the product of the other tables gives |
| `Joins.InsertApprovedRow` | javaUtil/1.0/src/erwins/database/ConcreteTable.java:507-523 | the row that is added is the projection of the current rows |
| `Joins.Join` | javaUtil/1.0/src/erwins/database/ConcreteTable.java:432-455 | for any number of tables and rows, the result is the projections of the approved combinations in lexicographic order |
| `SqlRoundTrip.ParsePrinted` | javaUtil/1.0/src/erwins/database/Database.java:915-1049 | for every expression tree, parsing its tokens printed with the needed parentheses returns the tree and stops at its end |
| `SqlRoundTrip.ReadsPrint` | javaUtil/1.0/src/erwins/database/Database.java:915-1049 | the same inside any context and at any precedence level, with NOT taking the whole expression after it |
| `SqlGrammar.ParseExact` | javaUtil/1.0/src/erwins/database/Database.java:915-1049 | the parser succeeds with a tree and an end if and only if the tokens up to there are that expression in the grammar of the comments (expr, andExpr, relationalExpr, additiveExpr, multiplicativeExpr, term, factor, each operator by its token, equal levels grouped to the left, a NOT taking every operator that follows) and it goes no further |
| `SqlGrammar.ExprExact` | javaUtil/1.0/src/erwins/database/Database.java:915-1049 | the same for `expr` from any token on |
| `SqlParsing.ExpressionParser.Expr` | javaUtil/1.0/src/erwins/database/Database.java:915-924 | on every token sequence the recursion ends, with the tree and the position of the specification, whose language is `SqlGrammar.ExprExact`, or a failure |
| `SqlParsing.ExpressionParser.ParseExpression` | javaUtil/1.0/src/erwins/database/Database.java:915-1049 | the parser over the shared scanner returns the expression that the tokens begin with in the grammar of the comments, as far as it goes, and fails exactly when they begin with none |
| `Maths.FastExp` | javaUtil/1.0/src/erwins/util/lib/Maths.java:256-270 | the loops come to the value function for all arguments but modulus zero; with a modulus up to 3037000500 and a base below that bound, no product leaves the longs and the result is the power |
| `Maths.FastExpExact` | javaUtil/1.0/src/erwins/util/lib/Maths.java:256-270 | for every modulus that is a long: the result is the power for all bases below it and all exponents if and only if the modulus is at most 3037000500, and exactly then no product overflows |
| `Maths.SquareIsWrong` | javaUtil/1.0/src/erwins/util/lib/Maths.java:256-270 | for every larger modulus, the square of 3037000500 comes out wrong |
| `Maths.SquaresFit` | javaUtil/1.0/src/erwins/util/lib/Maths.java:256-270 | squares of residues fit into a long if and only if the modulus is at most 3037000500 |
| `Maths.GcdReturns` | javaUtil/1.0/src/erwins/util/lib/Maths.java:310-326 | on longs the recursion of `gcd` ends if and only if neither argument is negative |
| `Maths.GcdMeans` | javaUtil/1.0/src/erwins/util/lib/Maths.java:310-326 | the divisors of the result are the common divisors |
| `Maths.GcdArray` | javaUtil/1.0/src/erwins/util/lib/Maths.java:346-364 | on any longs: the greatest common divisor of all numbers, a stack overflow exactly when one is negative, an index error exactly when there are fewer than two |
| `Maths.LcmMeans` | javaUtil/1.0/src/erwins/util/lib/Maths.java:373-380 | the multiples of the result are the common multiples |
| `Maths.LcmArray` | javaUtil/1.0/src/erwins/util/lib/Maths.java:400-419 | on any longs, the loop and the recursion come to the outcome that the lemmas below describe |
| `Maths.LcmExact` | javaUtil/1.0/src/erwins/util/lib/Maths.java:400-419 | on two or more positive longs the result is the least common multiple if and only if that is a long |
| `Maths.LcmFits` | javaUtil/1.0/src/erwins/util/lib/Maths.java:400-419 | with zeros allowed: when the other numbers have a common multiple that is a long, the result is the least common multiple, or a division by zero exactly when two numbers are zero |
| `Maths.LcmWithZero` | javaUtil/1.0/src/erwins/util/lib/Maths.java:400-419 | with a zero among the numbers no result is wrong: if there is one it is zero, and there is none when two numbers are zero |
| `Maths.ZeroHidesOverflow` | javaUtil/1.0/src/erwins/util/lib/Maths.java:400-419 | on [0, 3037000500, 3037000501, 1] the result is right although the other numbers have no common multiple that is a long |
| `Maths.LcmOfNegative` | javaUtil/1.0/src/erwins/util/lib/Maths.java:400-419 | with a negative number there is no result |
| `Maths.LcmOverflows` | javaUtil/1.0/src/erwins/util/lib/Maths.java:373-380 | the least common multiple of 3037000500 and 3037000501 comes out negative |
| `Maths.IsPrimeNumber` | javaUtil/1.0/src/erwins/util/lib/Maths.java:441-454 | true exactly for the primes, and an exception below two |
| `Maths.GetDivisor` | javaUtil/1.0/src/erwins/util/lib/Maths.java:554-562 | the least divisor above one, which is the least prime divisor |
| `Maths.PrimeAbove` | javaUtil/1.0/src/erwins/util/lib/Maths.java:462-475 | there is a prime above every number, by which the search ends |
| `Maths.GetPrimeNumber` | javaUtil/1.0/src/erwins/util/lib/Maths.java:462-475 | over integers without bound, the search ends for every number from two on and returns the least prime that is not below it |
| `Maths.ExEuclid` | javaUtil/1.0/src/erwins/util/lib/Maths.java:282-300 | in 64-bit arithmetic: an inverse between 0 and p exactly when the arguments have no common divisor, and a division by zero otherwise |
| `Maths.EuclidStep` | javaUtil/1.0/src/erwins/util/lib/Maths.java:285-295 | one round keeps the Bezout relation and leaves the longs in no operation |
| `SimpleMatching.SimpleMatch` | javaUtil/1.0/src/erwins/util/lib/RegEx.java:195-224 | yes, no, or a search without end, exactly as the pattern and the text decide; every search that ends is proved to end |
| `SimpleMatching.OutcomeMeans` | javaUtil/1.0/src/erwins/util/lib/RegEx.java:195-224 | yes exactly when some replacement of the stars gives the text; without two stars in a row the search always ends |
| `SimpleMatching.TwoStarsDiverge` | javaUtil/1.0/src/erwins/util/lib/RegEx.java:211-218 | the pattern `**a` on any text that does not end in `a`: the search never ends |
| `SimpleMatching.LaterFails` | javaUtil/1.0/src/erwins/util/lib/RegEx.java:211-218 | when the rest of the pattern does not match after one occurrence it does not after a later one |
| `Wildcards.GlobIsFill` | javaUtil/1.0/src/erwins/util/lib/RegEx.java:194-224 | matching by stars is the same as replacing each star by a text |
| `Base64Codes.DecodeEncode` | erwinsJs/1.0/WebContent/base64.js:8-129 | for every string of UTF-16 code units, decoding the encoding gives the string with CR LF replaced by LF, and the length is four for every three bytes, rounded up |
| `Base64Codes.Base64RoundTrip` | erwinsJs/1.0/WebContent/base64.js:8-76 | decoding takes encoding back on every byte string |
| `Base64Codes.Utf8RoundTrip` | erwinsJs/1.0/WebContent/base64.js:78-129 | UTF-8 is undone, lone surrogates included |
| `Base64Codes.EncodedLength` | erwinsJs/1.0/WebContent/base64.js:8-39 | four characters for every three bytes, rounded up |
| `Base64Meaning.EncodeMeans` | erwinsJs/1.0/WebContent/base64.js:5-39 | each character of the encoding is the letter of Table 1 of RFC 4648 for the next six bits of the bytes, missing bits zero, and `=` where a group of three bytes has run out |
| `Base64Meaning.DecodeMeans` | erwinsJs/1.0/WebContent/base64.js:41-76 | whatever is the Base64 of the UTF-8 of a string, with other characters in between, is decoded to that string |
| `Base64Meaning.KeyOnlyMeans` | erwinsJs/1.0/WebContent/base64.js:47-47 | a character is kept if and only if it is a letter of the alphabet or `=`, wherever it stands |
| `Base64Meaning.Utf8Means` | erwinsJs/1.0/WebContent/base64.js:78-101 | the bytes of every unit are those of section 3 of RFC 3629: lead byte by size, tail bytes from 0x80 to 0xBF, and the bits of the unit in them |
| `Base64Meaning.NewlinesMean` | erwinsJs/1.0/WebContent/base64.js:79-79 | every CR LF becomes LF |
| `Base64.Encode` | erwinsJs/1.0/WebContent/base64.js:8-39 | the loop with its shifts and masks gives the Base64 of RFC 4648 of the UTF-8 of RFC 3629 of the string with CR LF replaced by LF |
| `Base64.Decode` | erwinsJs/1.0/WebContent/base64.js:41-76 | the loop with its shifts and masks gives, for every text that is the Base64 of the UTF-8 of a string once characters outside the key are dropped, that string, and on any other text what the arithmetic says |
| `Base64.Utf8Encode` | erwinsJs/1.0/WebContent/base64.js:78-101 | the loop over the code units gives their bytes by section 3 of RFC 3629 |
| `Base64.Utf8Decode` | erwinsJs/1.0/WebContent/base64.js:103-129 | the loop over the bytes gives the code units |

## Findings

Properties that the code does not have, each with an input and with the condition under which it has them.

| property | where it fails | condition |
|---|---|---|
| rollback restores the contents | begin, insert, delete, rollback (`TransactionRuns.DeletedInsertSurvives`; through the database, `Databases.DeletedInsertComesBack`), because `Results.advance` copies the row and the copy is what the undo log puts back (ConcreteTable.java:199-210) | `CopiedRowRollback.RollbackRestoresIff` and `RollbackAllRestoresIff`: exactly when no inserted row is gone and no earlier rollback left a row behind |
| an update changes the table | every update, for the same reason (`TransactionRuns.CopiedUpdateChangesNothing`) | never with the copying cursor |
| retrocycle undoes decycle | an object that occurs again below an array index of 10 or more (cycle.js:116-117 takes one digit): ten nulls and twice the same object (`CycleRoundTrip.LongArray`) | `CycleRoundTrip.ComesBackExactly`: exactly when those indices have one digit and no object looks like a reference, wherever every reference leads to a visited place |
| retrocycle undoes decycle | an object that has a `$ref` member of its own, as {"k": {"$ref": "$"}} (`CycleRoundTrip.FakeReference`; in general `CycleRoundTrip.FakeBreaks`) | the same theorem; `CycleRoundTrip.ModestGraphComesBack` for a condition on the graph alone |
| fastExp gives the power | base 3037000500, exponent 2, any larger modulus that is a long (`Maths.SquareIsWrong`) | `Maths.FastExpExact`: for all bases and exponents exactly up to the modulus 3037000500 |
| lcm gives the least common multiple | 3037000500 and 3037000501 (`Maths.LcmOverflows`) | `Maths.LcmExact`: on positive numbers exactly when the least common multiple is a long |
| gcd returns | any negative argument | `Maths.GcdReturns`: exactly when neither argument is negative |
| the two JSON parsers accept the same texts | a raw tab in a string (`ParserEquivalence.RawTab`) | `ParserEquivalence.ParsersAgree`: they agree on every text that falls into tokens, and on any other text the state machine refuses |
| simpleMatch returns | `**a` on any text that does not end in `a` (`SimpleMatching.TwoStarsDiverge`) | `SimpleMatching.SimpleMatch` with `Wildcards.Expected` gives it exactly; without two stars in a row it always returns |
| tables and transaction level stay in step | COMMIT or ROLLBACK at level 0 with assertions disabled | `Databases.Database.DoTransaction`: exactly above level 0, or with the assertion |
| any exception rolls an open transaction back (the comment of `execute`, Database.java:675-677) | BEGIN, INSERT, and an INSERT for a column that does not exist (`Databases.RuntimeErrorIsNotCaught`): only ParseFailure and IOException are caught (Database.java:695-702) | `Databases.Database.Execute`: exactly when the statement comes to one of these two, which for a ParseFailure is `Databases.FailsToParse` |

## Left out

- Revivers, replacers, `toJSON`, `__proto__` keys, `JSON.parse` of json2.js with its `eval`, dates and functions as values.
- Conversion between numbers and text: a number is the text that denotes it, which must denote a finite number and is taken to come back as it was.
- RoundTrip.ParseThenPrint: does not cover a lexeme such as 1e999, which the programs read as Infinity and print as null, because a lexeme stands for a finite number.
- Engines for regular expressions: the token expression and `px` are modelled by readers written for them.
- The order of a for-in loop is the order of the members as they are listed.
- CycleRoundTrip.ComesBackExactly: takes graphs whose references, true or fake, all lead to places that `rez` visits; where a fake reference names its own place, or leads nowhere so that `eval` throws or finds nothing, is not covered.
- CycleRoundTrip.DecycleThenRetrocycle: takes graphs in which nothing looks like a reference; CycleRoundTrip.ComesBackExactly says what happens otherwise.
- Retrocycling.Retrocycler.Retrocycle: takes structures that decycle could have made, no object shared and every reference to a place that is visited. An object of the tree is named by the path at which it was created.
- ConcreteTables.ConcreteTable.Update: the selector sees the number of the row and its contents, and one update of one row for each visit; a caller that keeps the cursor and updates the same row twice is not modelled.
- Databases.Database.Execute: the expressions of a statement are functions of the rows; a table that is loaded while a WHERE clause is evaluated is not modelled. Statements are given after parsing, with a parse error as a statement of its own.
- Assertions outside Database.java are taken as enabled, and the assertion that a SELECT names a table is not modelled.
- Files, CSV, DUMP, USE DATABASE, CREATE DATABASE, and tables handed to the constructor of Database: a table on the disk is its columns and rows.
- The evaluation of SQL expressions, which works on doubles and has `<` and `>` exchanged (Database.java:1167-1168).
- `clone` of a table, which shares rows; select of a single table; SELECT * over a join, which dereferences null.
- Joins.Join: takes the tables as the columns and rows they have, since a join changes none of them.
- SqlGrammar.ParseExact: takes tokens whose lexemes are among those that the patterns of RELOP and ADDITIVE match (Database.java:417-419).
- Base64.Decode: what a text that is no encoding decodes to is said by the arithmetic alone.
- DescentParser.Parser.Parse: on texts that do not fall into tokens, such as a string with a raw tab or an incomplete \u, what it accepts is said by its specification.
- SQL string literals stay as their lexemes; what the regular expressions of the scanner match is not part of this model.
- Maths.LcmFits: with a zero among the numbers its condition is not needed for a right result; whether there is a result then depends on the signs of the wrapped products of the other numbers.
- Maths.GetPrimeNumber: over integers without bound; above the largest prime that is a long the program's counter would wrap around.
- `eulerPhi`, `millerRabin`, `getFastPrimeNumber`, and gcd and lcm of three numbers.
