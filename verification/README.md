# Verification of SecSeer's JSON library, violation log, vector and command splitter

This project models the hardest parts of the repository in Dafny and proves what they promise.

- **The JSON object** (`Probing`, `CellLinks`, `Tables`, `AssocLists`, `JsonObjects`, `Clients`). The
  insertion-ordered open-addressing table of `include/parson.c` as a class over its five arrays. The hash function is
  arbitrary, so the build in which every hash is 0 is covered. Every operation keeps the invariant (cells and cell
  indices inverse to each other, stored hashes right, probe chains without gaps, names distinct) and does to the
  ordered list of members what one step of that list does. Deletion breaks the invariant at a moving hole and restores
  it.
- **Strings** (`Utf8`, `Strings`, `StringLaws`, `StringReads`, `StringSpelling`, `TextUtf8`). Escaping, the quote
  scan, unescaping with UTF-16 surrogates, the UTF-8 check against an independent encoder, which spelled strings are
  read as which bytes, and UTF-8 in whole texts and logs.
- **Printing and parsing** (`JsonTrees`, `JsonText`, `JsonParser`, `Buffers`, `JsonSerializer`). Trees as values, the
  text as functions, the recursive-descent parser as methods that move a cursor and fill real tables, and the one
  serializer that measures without a buffer and writes into one.
- **What the texts are** (`JsonSyntax`, `ParserSteps`, `SyntaxReads`, `SyntaxFound`, `JsonLayout`, `LayoutSize`,
  `JsonRoundTrip`, `JsonLaws`, `Integers`, `IntegerLaws`). The grammar of RFC 8259 and the two layouts of the
  serializer, spelled with character literals and without reference to the parser or the printer; what is read and
  what is written in those terms; and round trips, which follow from the two.
- **Comments** (`Comments`, `CommentLaws`, `CommentTexts`, `ParseLocality`, `CommentExtension`). The in-place comment
  stripper, its agreement with the tokenizer about strings, what becomes of a text with comments, and what allowing
  comments changes.
- **The violation log** (`LogFormat`, `Logger`, `Observer`, `LogContents`). A step machine that streams a JSON array
  into a file, and the theorem about whole runs, which uses the printing and parsing laws; and what records and files
  hold, name by name and character by character.
- **The vector and its user** (`Vectors`, `SplitCommand`). Contents, capacities and the amortised cost of
  reallocation; the tokenizer of command lines built on it.
- **Trees compared, copied and reached by path** (`JsonEquality`, `EqualityRange`, `DotPaths`, `DotPlaces`,
  `Pigeonhole`).

`Options` holds optional values, and `Bytes` holds bytes, C strings and NUL-terminated buffers. A C text is a byte
sequence that ends with a NUL; reading stops at the first one.

## Assumptions that are stated, not built in

- Number text belongs to the C library, so `sprintf` and `strtod` are parameters (`JsonTrees.Libc`). All that is built
  in is that formatting gives a C string and reading never takes the NUL. Round trips ask that the numbers at hand
  read back (`ReadsBack`); `CommentsExtend` asks that where the parser calls `strtod`, that is at a minus sign or a
  digit, it reads the same after bytes behind the number were blanked out (`OrdinaryStrtod`). `Integers` proves that
  decimal integers of any size, with a reader that skips leading white space, meet both; `IntegerLaws` states the main
  laws for them with no such assumption left.
- Conversion of a system call number to `double` is a parameter, and so are the outcomes of `fopen` and of the kernel.

## Where the code does not do what its comments or its design suggest

- Unescaping is not confined to the text between the quotes: the four NUL tests at include/parson.c:321 come before
  the digits are checked, so a hex escape cut short by the closing quote makes it look up to three bytes further.
  `OverreadsExactly` says when, `NeverPastNul` says how far, and `NoCutNoOverread` gives a test on the bytes alone.
- The UTF-8 check is not confined to the length it is given (include/parson.c:392-402): a length that cuts an encoding
  in two is accepted when the bytes behind complete it (`CutExample`), and `json_value_init_string_with_len` then
  copies the cut text. `WellFormedExactly` says for which lengths the check is exact.
- `VECTOR_SHRINK_THRESHOLD` (include/vector.h:31) is an integer quotient, hence 0: popping shrinks only when the last
  element goes (`PopShrinksOnlyAtZero`), and only erasing shrinks at a quarter (`PopKeepsWhereEraseShrinks`,
  `PopEraseExample`).
- `is_decimal` (include/parson.c:404-417) refuses a zero with an exponent and without a fraction, such as `0e1`, which
  section 6 of RFC 8259 allows; `NumeralReadsExactly` says that no other number of that section is refused.
- A quote in a line comment hides the block comments behind it, because the pass over block comments comes first
  (`HiddenCommentRefused`).
- A log without any violation holds only the closing bracket and does not parse; `RunReadsBack` makes this exact.
- Text with a byte order mark is accepted without comments and refused with them (`CommentsExtend`, `MarkExample`).
- Equality of trees is not transitive, because numbers are compared with a tolerance (`EqualsNotTransitive`).
  `TransitiveExactly` says for which pairs it carries over; on trees with integer numbers, such as logged records, it
  always does (`IntegralEquivalence`, `RecordsEqualTransitively`).

## Model

| member | source | states |
|---|---|---|
| `Probing.MaskIsRemainder` | include/parson.c:556-567 | masking with a power of two less one, bit by bit, is the remainder: every probe and every wrap stays inside the cell array |
| `Probing.ShiftTestMeaning` | include/parson.c:688-691 | the four comparisons of the backward shift ask exactly whether the probe path from the item's home to its cell goes through the hole |
| `Probing.HoleMoves` | include/parson.c:692-694 | pulling an item into the hole leaves chains broken at most at the new hole |
| `Probing.HoleStays` | include/parson.c:688-695 | an item whose path does not cross the hole can stay, and the scan may go on |
| `Probing.HoleCloses` | include/parson.c:685-697 | when the scan meets an empty cell, no chain is broken any more, so the hole may become an empty cell |
| `Probing.ScanStep` | include/parson.c:683-684 | the scan meets an empty cell before it wraps around to the hole, within the loop bound |
| `CellLinks.TakeOut` | include/parson.c:672-679 | swap-with-last keeps cells and cell indices inverse to each other, with one cell turned into the hole |
| `CellLinks.PullBack` | include/parson.c:692-694 | the two writes of a shift keep cells and cell indices inverse to each other |
| `CellLinks.SomeCellEmpty` | include/parson.c:463-467 | with fewer items than cells there is an empty cell |
| `Tables.AlwaysAnEmptyCell` | include/parson.c:463-467 | under the load limit a valid table always has an empty cell |
| `Tables.AbsentWhenEmpty` | include/parson.c:566-571 | a probe that meets an empty cell proves the name is nowhere in the object |
| `Tables.FoundByScan` | include/parson.c:572-581 | a match by hash and name is the position that a linear scan finds |
| `Tables.PutAtGood` | include/parson.c:611-618 | the five writes of an insertion keep the whole table invariant and append one member |
| `Tables.SwapOutGood` | include/parson.c:670-679 | taking an item out leaves the members as swap-with-last says, and the invariant broken only at the hole |
| `Tables.PullBackGood` | include/parson.c:688-695 | one shift keeps everything but the moving hole in order and changes no member |
| `Tables.CloseGood` | include/parson.c:685-697 | closing the hole restores the whole invariant |
| `JsonObjects.JsonObject.constructor` | include/parson.c:455-495 | a new object is valid and empty, for capacity 0 or a power of two |
| `JsonObjects.JsonObject.GetCellIx` | include/parson.c:555-584 | probing finds a name exactly when a linear scan does, at the same position; otherwise it ends at the empty cell where the name belongs, and the invalid index is returned only by a table without cells |
| `JsonObjects.JsonObject.Add` | include/parson.c:586-620 | refuses a name that is present, appends otherwise; never grows when there is room |
| `JsonObjects.JsonObject.SetValue` | include/parson.c:2084-2125 | replaces in place or appends |
| `JsonObjects.JsonObject.GrowAndRehash` | include/parson.c:525-553 | same members in the same order in a table of twice the cells, or of 16 where there were none, with item slots for seven tenths of them and room for one more |
| `JsonObjects.JsonObject.CopyInto` | include/parson.c:540-549 | the mutual recursion of adding and rehashing does not grow a second time |
| `JsonObjects.RoomAfterGrowth` | include/parson.c:526-531 | the old count is strictly below the new item capacity |
| `JsonObjects.JsonObject.Remove` | include/parson.c:640-698 | exactly that member goes, the last member takes its place, and the invariant holds again |
| `JsonObjects.JsonObject.RemoveAt` | include/parson.c:670-697 | the same for the cell that was found |
| `JsonObjects.JsonObject.ShiftBack` | include/parson.c:681-697 | the whole backward shift, with its moving hole and wraparound, restores the invariant |
| `JsonObjects.JsonObject.ShiftOne` | include/parson.c:684-695 | one turn of the shift |
| `JsonObjects.JsonObject.Clear` | include/parson.c:2291-2308 | no members, all cells empty, same capacity |
| `JsonObjects.JsonObject.GetValue` | include/parson.c:622-638 | the value of the list lookup |
| `JsonObjects.JsonObject.GetName` | include/parson.c:1478-1483 | the name at a position |
| `JsonObjects.JsonObject.GetValueAt` | include/parson.c:1485-1490 | the value at a position |
| `AssocLists.SetLookup` | include/parson.c:2095-2125 | after setting a name, that name answers the new value and every other name as before |
| `AssocLists.SwapRemoveRepresents` | include/parson.c:671-680 | swap-with-last removes exactly one binding |
| `AssocLists.StepRepresents` | include/parson.c:586-698 | each call on the ordered list does to its bindings what the call on a finite map does, and answers the same |
| `AssocLists.RunRepresents` | include/parson.c:555-698 | over every run of calls the ordered list answers as a finite map |
| `Clients.AnyRun` | include/parson.c:555-698 | any run of add, set, remove, clear and get on a real table, for any hash function, ends in the state of the ordered list and answers as a finite map |
| `Utf8.IsValidUtf8` | include/parson.c:392-402 | for any length inside a NUL-terminated buffer: accepts exactly when some concatenation of encodings of scalar values (sections 3 and 4 of RFC 3629) starts the buffer and ends at the length or behind it |
| `Utf8.WellFormedExactly` | include/parson.c:392-402 | what is accepted is well-formed up to the length if and only if the length cuts no encoding in two |
| `Utf8.NothingCut` | include/parson.c:392-402 | a length at which no continuation byte stands, such as that of a whole C string, cuts nothing, so there the check is exact |
| `Utf8.CutExample` | include/parson.c:1653-1661 | one byte of a three-byte encoding is accepted when the other two stand behind it |
| `Utf8.VerifyFindsEncoding` | include/parson.c:350-390 | an accepted sequence is the shortest encoding of a scalar value |
| `Utf8.EncodingVerifies` | include/parson.c:350-390 | every encoding of a scalar value is accepted, with its length |
| `Strings.SkipQuotes` | include/parson.c:787-805 | the scan stops right behind the closing quote that the specification names, or fails |
| `Strings.ProcessString` | include/parson.c:856-909 | the loop over an output buffer of length + 1 decodes what the specification says and ends exactly at the closing quote; every write is in bounds |
| `Strings.TurnStaysInside` | include/parson.c:866-894 | no successful turn of the decoder crosses the closing quote or stops inside an escape |
| `StringLaws.EscapeRoundTrip` | include/parson.c:1290-1355 | decoding escaped text gives the original bytes, NULs included, and the quote scan passes over all of it |
| `StringLaws.QuotedRoundTrip` | include/parson.c:1290-1355 | for every byte string and either slash setting, the quoted text reads back as the string, with the cursor right behind it |
| `StringLaws.ConsumesExactly` | include/parson.c:856-909 | success consumes exactly the delimited length and writes no more bytes than that |
| `StringLaws.GetQuotedString` | include/parson.c:913-922 | the quoted string as a cursor-moving method |
| `StringLaws.EscapeNamesCodePoint` | include/parson.c:807-851 | a `\u` escape or a surrogate pair contributes the encoding of the code point it names (section 7 of RFC 8259, section 2.2 of RFC 2781) |
| `StringSpelling.UnitDecodes` | include/parson.c:309-333 | for every code unit outside the surrogate range and every way to spell its four hex digits with small and capital letters, a `\u` escape is read as the encoding of that code point |
| `StringSpelling.PairDecodes` | include/parson.c:807-851 | the same for every pair of escapes that spell a lead and a trail surrogate (section 2.2 of RFC 2781) |
| `StringSpelling.StringReads` | include/parson.c:856-922 | every string spelled after section 7 of RFC 8259 is read, as the bytes that its characters and escapes stand for, with the cursor right behind it |
| `StringSpelling.StringFound` | include/parson.c:856-922 | and no other text is read as a string |
| `StringLaws.ProcessKeepsUtf8` | include/parson.c:856-909 | decoding well-formed UTF-8 gives well-formed UTF-8 |
| `StringReads.NeverPastNul` | include/parson.c:320-323 | unescaping reads no byte behind the first NUL |
| `StringReads.OverreadsExactly` | include/parson.c:320-323 | unescaping looks behind the closing quote if and only if it gets as far as a hex escape that the quote cuts short |
| `StringReads.NoCutNoOverread` | include/parson.c:320-323 | without a `\u` that has at most two bytes before the closing quote, nothing behind the quote is read |
| `StringReads.OverreadExample` | include/parson.c:320-323 | a text for which it does look behind the closing quote |
| `JsonLaws.ParseInvertsPrint` | include/parson.c:924-1288 | in every style and with any text behind that does not go on with a number, parsing gives the printed tree back, members in order and the cursor right behind the text, if and only if no value lies deeper than 2048 |
| `JsonRoundTrip.ValueReads` | include/parson.c:924-947 | the same for a value anywhere in a text and at any nesting |
| `SyntaxReads.ItemsRead` | include/parson.c:1037-1068 | the element loop reads every element of a text of the grammar, with white space anywhere, and the closing bracket |
| `SyntaxReads.MembersRead` | include/parson.c:970-1019 | the member loop reads every name and value of a text of the grammar, with white space anywhere, and the closing brace |
| `SyntaxReads.SyntaxReads` | include/parson.c:924-1121 | wherever a text stands that denotes a value by the grammar of RFC 8259, spelled with character literals, it is read as that value with the cursor right behind it, if and only if the value fits the nesting limit |
| `SyntaxReads.TextParses` | include/parson.c:1383-1391 | the same for whole texts, with or without a byte order mark, behind any white space and with anything behind the value |
| `SyntaxReads.NumeralReadsExactly` | include/parson.c:404-417 | a number of section 6 of RFC 8259 is accepted if and only if it is no zero with an exponent and without a fraction |
| `SyntaxReads.NumbersTaken` | include/parson.c:404-417 | whatever `strtod` reads from a sign or a digit on is accepted, but for a leading zero with no point behind it and for hexadecimal markers |
| `SyntaxFound.TextFound` | include/parson.c:924-1121 | whatever is accepted is a text of the grammar that denotes the value returned, where numbers are taken as `strtod` takes them |
| `SyntaxFound.ParsesExactly` | include/parson.c:924-1121 | a text is read as a value without numbers, with the cursor at a given place, if and only if a byte order mark or none, white space and a text of the grammar that denotes this value stand before that place, and the value lies no deeper than 2048 |
| `JsonRoundTrip.PrintDenotes` | include/parson.c:1146-1288 | printed text is a text of the grammar that denotes the value it was printed from |
| `JsonLaws.PrintIsCString` | include/parson.c:1146-1355 | printed text has no NUL in it, whatever bytes the strings hold |
| `JsonLaws.ParseGivesValid` | include/parson.c:924-947 | every parsed value nests at most 2048 deep, and its objects have distinct names without NUL |
| `JsonLaws.ParseMembersValid` | include/parson.c:970-1019 | the member loop keeps names distinct |
| `JsonLaws.ReparseGivesSame` | include/parson.c:924-1288 | what was parsed from any text prints to a text that parses to it again |
| `TextUtf8.ParseGivesWellText` | include/parson.c:924-1069 | parsing well-formed UTF-8 gives well-formed names and strings only |
| `TextUtf8.PrintWell` | include/parson.c:1146-1355 | a tree of well-formed names and strings, whose numbers read back, prints as well-formed UTF-8 in every style |
| `JsonParser.ParseValue` | include/parson.c:924-947 | the cursor-moving parser terminates on every byte string and returns what the parsing function says, for which `SyntaxReads` and `SyntaxFound` say which texts are read as which values |
| `JsonParser.ParseArray` | include/parson.c:1022-1069 | the same for arrays, with its trailing comma |
| `JsonParser.ParseObject` | include/parson.c:949-1020 | the same for objects, which are filled through the real hash table |
| `JsonParser.MemberTurn` | include/parson.c:970-1013 | one turn of the member loop on a real table |
| `JsonParser.FillObject` | include/parson.c:970-1019 | the member loop on a real table |
| `JsonParser.ParseString` | include/parson.c:1383-1391 | the same for whole texts with their byte order mark, for which `TextParses` and `TextFound` say what is read |
| `Buffers.Output.Append` | include/parson.c:1129-1138 | the bytes and the NUL go where the cursor stands, or are only counted |
| `JsonSerializer.SerializeString` | include/parson.c:1290-1355 | puts out the quoted text, measuring or writing |
| `JsonSerializer.SerializeValue` | include/parson.c:1146-1288 | the one recursive serializer puts out the printed form and a NUL, measuring or writing, and never leaves the room it was given |
| `JsonSerializer.SerializationSize` | include/parson.c:1799-1803 | the measuring run gives the length of the printed form and one more |
| `JsonSerializer.SerializeToBuffer` | include/parson.c:1805-1816 | succeeds exactly when the text and its NUL fit, then writes just these; otherwise changes nothing |
| `JsonSerializer.SerializeToString` | include/parson.c:1859-1876 | a new buffer of exactly the text and its NUL |
| `JsonLayout.PrintsCompact` | include/parson.c:1146-1288 | the compact form, spelled with character literals: no byte between the tokens, a comma between any two elements |
| `JsonLayout.PrintsPretty` | include/parson.c:1146-1288 | the pretty form, spelled with character literals: every element on a line of its own behind four blanks a level, the closing bracket on a line at its level, a blank behind each colon, and empty lists closed at once |
| `LayoutSize.CompactCounted` | include/parson.c:1357-1363 | the length of the compact form, counted token by token and escape by escape |
| `LayoutSize.PrettyCounted` | include/parson.c:1357-1363 | the length of the pretty form, line ends and blanks included |
| `LayoutSize.MeasuredSize` | include/parson.c:1799-1803 | the measuring run gives these lengths and one more |
| `Integers.IntegersReadBack` | include/parson.c:1099-1112 | decimal integers of any size, read by a reader that skips leading white space as `strtod` does, meet the assumption on number text |
| `Integers.IntegersOrdinary` | include/parson.c:1099-1112 | that reader meets the assumption on blanking out what stands behind a number |
| `Integers.IntegralReadsBack` | include/parson.c:1099-1112 | so does every tree whose numbers are integers |
| `IntegerLaws.IntegralRoundTrip` | include/parson.c:924-1288 | printing and parsing any valid tree with integer numbers, with no assumption on number text left |
| `IntegerLaws.IntegralCommentsExtend` | include/parson.c:1383-1406 | what allowing comments changes, with no assumption on number text left |
| `Comments.RemoveComments` | include/parson.c:239-272 | the in-place pass does what the stripping function says |
| `Comments.StripOnlyBlanks` | include/parson.c:239-272 | a pass keeps the length and every NUL, and turns bytes into spaces only |
| `CommentLaws.CommentIsSpace` | include/parson.c:255-267 | outside strings, a comment is worth as many spaces as it has bytes, up to the first end token and no further |
| `CommentLaws.InStringAgrees` | include/parson.c:248-271 | for any text, the pass leaves a string exactly where the quote scan of the tokenizer does, and changes nothing in it |
| `CommentLaws.PrintClean` | include/parson.c:239-272 | nowhere in the printed form of a value does a comment begin |
| `CommentLaws.PrintedHasNoComments` | include/parson.c:1393-1406 | both passes are the identity on serializer output, and both ways of parsing agree on it |
| `CommentLaws.ParseStringWithComments` | include/parson.c:1393-1406 | two passes over a copy, then the parser, without byte order mark |
| `CommentTexts.CommentsGone` | include/parson.c:1400-1401 | in a text made of strings, block comments, line comments and other bytes, both passes turn every comment into as many blanks and change nothing else |
| `CommentTexts.CommentedTextParses` | include/parson.c:1393-1406 | such a text is read as the value that it denotes with blanks in place of its comments |
| `CommentTexts.UnclosedComment` | include/parson.c:255-263 | a comment without an end loses its start token and nothing else, and the pass ends there |
| `CommentTexts.HiddenCommentRefused` | include/parson.c:1400-1401 | a text that is refused because the pass over block comments takes a quote in a line comment for the start of a string |
| `ParseLocality.ValueLocal` | include/parson.c:924-1121 | the parsed value does not depend on what stands behind it: blanking that out changes nothing |
| `ParseLocality.ProcessLocal` | include/parson.c:856-909 | the same for the contents of a string |
| `CommentExtension.ValuePasses` | include/parson.c:239-272 | whatever the parser takes for a value, the stripper passes over unchanged |
| `CommentExtension.CommentsExtend` | include/parson.c:1383-1406 | every text that is accepted without comments gives the same value and end when comments are allowed, if and only if it has no byte order mark |
| `CommentExtension.MarkExample` | include/parson.c:1383-1406 | a byte order mark and `null`: accepted without comments, refused with them |
| `LogFormat.EntriesRead` | src/logger/logger.c:74-82 | the element loop of the parser reads the streamed entries, in order |
| `LogFormat.FileReadsBack` | src/logger/logger.c:74-100 | the file parses to the array of exactly the logged values if and only if it was closed and has at least one |
| `Logger.RegisterTextComplete` | src/logger/logger.c:9-13 | the register text fits its buffer and names the register's value |
| `Logger.SetString` | include/parson.c:2127-2134 | text that is not UTF-8 is refused and leaves the object as it was |
| `Logger.BuildRegisters` | src/logger/logger.c:37-49 | the registers object |
| `Logger.BuildRecord` | src/logger/logger.c:20-56 | the record built by successive sets is the record specified, fields in order |
| `Logger.RecordAnswers` | src/logger/logger.c:26-56 | a record answers for each field name with what was put there, and with nothing for a field that was left out |
| `Logger.RegistersAnswer` | src/logger/logger.c:37-49 | each register is found under its name |
| `LogContents.RegisterSpelled` | src/logger/logger.c:9-13 | a register is written as `0x` and its small hex digits, without leading zeros |
| `LogContents.RegisterMembers` | src/logger/logger.c:37-49 | the eight registers under their literal names, each with its own value, in the order of the calls |
| `LogContents.RecordMembers` | src/logger/logger.c:26-57 | the members of a record under their literal names, in the order of the calls; a text that is missing or not UTF-8 leaves its member out |
| `LogContents.RecordLookups` | src/logger/logger.c:26-57 | what a record answers for each of the seven literal names |
| `LogContents.RegisterLookups` | src/logger/logger.c:40-47 | what the registers object answers for each of the eight literal names |
| `Logger.RecordReadable` | src/logger/logger.c:20-62 | a record is a valid tree of depth at most 2 |
| `Logger.LogSeccompViolation` | src/logger/logger.c:15-86 | appends one entry and clears the flag, or fails and changes neither |
| `Logger.LoggerClose` | src/logger/logger.c:88-100 | appends the closing bracket and a line end, or fails and changes nothing |
| `Observer.ObserverLoop` | src/observer/observer.c:110-183 | the loop logs the violations specified, in order, and ends as specified |
| `Observer.StopDecides` | src/observer/observer.c:110-183 | what one stop does to a run wherever it comes: a violation that could be written is logged in its place, an unrelated stop does nothing, and nothing is logged behind a stop that ends the loop |
| `LogContents.RunLaidOut` | src/logger/logger.c:59-100 | what a run adds to the file, spelled with character literals: the pretty text of each logged record and a line end, a bracket in front of the first and a comma in front of every other, and the closing bracket on a line of its own if the file was closed |
| `Observer.RunReadsBack` | src/observer/observer.c:110-183 | a file that was empty before the run parses to the array of exactly the logged records, in order, if and only if the loop was left by `break`, the closing call could open the file and at least one record was logged |
| `Observer.AlwaysCompletable` | src/logger/logger.h:33-44 | at every moment after the first record, closing the file would make it parse to all records so far |
| `IntegerLaws.IntegralRunReadsBack` | src/observer/observer.c:110-183 | the same with decimal integers as number text and no assumption left but that the conversion to `double` gives integers |
| `TextUtf8.RecordWell` | src/logger/logger.c:20-62 | whatever bytes the names and places have, all text in a record is well-formed UTF-8 |
| `TextUtf8.RunTextWell` | src/logger/logger.c:62-100 | all that a run adds to the log file is well-formed UTF-8, however the run ends, given that the logged numbers read back |
| `Vectors.Vector.constructor` | include/vector.c:29-40 | an empty vector with at least the minimum capacity |
| `Vectors.Vector.Reallocate` | include/vector.c:495-535 | same contents, the new capacity, or no change when there is nothing to gain |
| `Vectors.Vector.PushBack` | include/vector.c:137-152 | contents and capacity after a push |
| `Vectors.Vector.Insert` | include/vector.c:158-187 | contents and capacity after an insert, or a refusal |
| `Vectors.Vector.MoveRight` | include/vector.c:448-477 | the elements behind the index move up by one |
| `Vectors.Vector.PopBack` | include/vector.c:205-221 | the last element goes; the capacity shrinks at size 0 only |
| `Vectors.Vector.Erase` | include/vector.c:227-245 | contents and capacity after an erase, or a refusal |
| `Vectors.Vector.MoveLeft` | include/vector.c:479-489 | the elements behind the index move down by one |
| `Vectors.Vector.Resize` | include/vector.c:301-316 | size, kept elements and capacity |
| `Vectors.Vector.Reserve` | include/vector.c:318-326 | same contents, at least the capacity asked for |
| `Vectors.Vector.ShrinkToFit` | include/vector.c:328-330 | same contents, the smallest capacity allowed |
| `Vectors.RunCost` | include/vector.c:491-535 | over a run, twice the copied elements is paid for by four a call and the potential |
| `Vectors.AmortizedReallocation` | include/vector.c:491-535 | from a new vector, n pushes, inserts, pops and erases copy at most 2n elements and half the initial capacity |
| `Vectors.GrowsOnlyWhenFull` | include/vector.c:137-187 | a push or an insert changes the capacity if and only if the vector is full, to twice its size |
| `Vectors.PopShrinksOnlyAtZero` | include/vector.c:205-221 | for every reachable size and capacity, a pop changes the capacity if and only if it takes the last element of a vector above the minimum capacity |
| `Vectors.PopKeepsWhereEraseShrinks` | include/vector.c:205-245 | wherever the size comes down to a quarter of the capacity and not to 0, a pop keeps the capacity and an erase shrinks it to twice the new size |
| `Vectors.PopEraseExample` | include/vector.c:205-245 | three elements in a capacity of eight are such a case |
| `Clients.AnyVectorRun` | include/vector.c:137-245 | the same bound and the contents, for any run of calls on a real vector |
| `SplitCommand.SplitCommand` | src/main.c:171-231 | the argument array holds the words of the text in order and a NULL behind them; more than 1024 bytes and a text without words are refused |
| `SplitCommand.SplitAfterWeave` | src/main.c:184-211 | joining words by any white space and splitting gives the words back |
| `SplitCommand.WeaveAfterSplit` | src/main.c:184-211 | every text is its words woven with white space, some of it wherever two words meet |
| `SplitCommand.SplitWoven` | src/main.c:171-231 | for any words between any white space, within the limit, entry k of the argument array is word k, and NULL stands behind the last |
| `JsonEquality.EqualsMeansAlike` | include/parson.c:2370-2433 | on valid trees the one-sided check holds exactly when both sides bind the same names to alike values, all the way down |
| `JsonEquality.EqualsReflexive` | include/parson.c:2370-2433 | every valid tree equals itself |
| `JsonEquality.EqualsSymmetric` | include/parson.c:2400-2412 | equality is symmetric, although only the names of one side are looked for |
| `JsonEquality.OrderIgnored` | include/parson.c:2400-2412 | the order of members matters on neither side |
| `EqualityRange.JoinedExactly` | include/parson.c:2423-2424 | for valid `a` and `c`, some valid `b` equals both if and only if `a` and `c` are equal with twice the tolerance |
| `EqualityRange.TransitiveExactly` | include/parson.c:2423-2424 | equality carries over from `a` to `c` through every valid tree in the middle if and only if they are equal, or not even equal with twice the tolerance |
| `EqualityRange.Chain` | include/parson.c:2370-2433 | two steps of equality make one with the sum of the tolerances, all the way down |
| `EqualityRange.MiddleEqualsBoth` | include/parson.c:2370-2433 | trees that are equal with twice a tolerance have a valid tree half way between them that equals both with it |
| `EqualityRange.IntegralEquivalence` | include/parson.c:2370-2433 | on valid trees with integer numbers equality is an equivalence |
| `IntegerLaws.RecordsEqualTransitively` | include/parson.c:2370-2433 | among logged records equality carries over |
| `EqualityRange.EqualsNotTransitive` | include/parson.c:2423-2424 | three numbers for which equality does not carry over |
| `JsonEquality.DeepCopy` | include/parson.c:1709-1797 | the copy is the same tree with the same member order |
| `DotPaths.GetAfterSet` | include/parson.c:2172-2221 | after a successful set the path answers the value |
| `DotPaths.OthersUnchanged` | include/parson.c:2172-2221 | every path that is neither above nor below the one set answers as before |
| `DotPaths.SucceedsWhenPassable` | include/parson.c:2184-2195 | a set succeeds if and only if nothing on the way is anything but an object |
| `DotPaths.FailureChangesNothing` | include/parson.c:2184-2195 | a failed set leaves all members as they were |
| `DotPaths.DotGetComposes` | include/parson.c:1441-1448 | a path below a path: go to the one, then on from the object there |
| `DotPlaces.SetPutsAlong` | include/parson.c:2172-2221 | a successful set writes along its path alone: on every level the other members keep their place, name and value, a member that was there keeps its place and one that was missing goes to the end |

## Left out

- Number text: the text that `sprintf` and `strtod` produce and accept beyond decimal integers, and the size of the
  number buffer.
- JsonParser.ParseValue: `errno` and infinite results are part of the `strtod` parameter, which answers no value then.
- `malloc` failures, `free`, leaks, user-set allocators, number callbacks and the float format.
- The widths of `int`, `size_t` and loop counters; sizes are unbounded. Registers are 64 bits wide.
- Parent pointers, and with them inserting a value that already has a parent; trees are values.
- DotPaths.GetAfterSet: nested objects are values here, so that a nested object is changed in place shows only in the
  answers; the removal that follows a failed allocation is not modelled.
- JsonParser.FillObject: on an error the half-filled object is dropped, so nothing is said about its members.
- Arrays of values grow as sequences; the doubling of their buffers is that of an ordinary growing array.
- SyntaxFound.TextFound: of a number in an accepted text it says only how it starts, because which texts `strtod`
  takes is the library's. The grammar is that of RFC 8259 with what the code takes beyond it: trailing commas, any
  white space byte of the C locale, raw bytes that are not UTF-8 in strings, and text behind the value.
- CommentTexts.CommentsGone: line comments in which a quote, a backslash or the start of a block comment stands are
  not covered, because the pass over block comments acts on these.
- Utf8.IsValidUtf8: a NUL must stand somewhere at or behind the checked length, because the last sequence may
  otherwise be read beyond the end of the buffer.
- `json_validate`, files (`json_parse_file`, `json_serialize_to_file`), dotted removal and the typed getters and
  setters.
- Logger.LogSeccompViolation: writes to an opened file succeed; NULL arguments other than the file path are not
  representable.
- Observer.ObserverLoop: what ptrace, waitpid, the clock, /proc and addr2line deliver is given as the stops of a run;
  console output is left out. A run is a finite sequence of stops, and a run that goes on is one that has not ended
  yet.
- `vector_copy` from an empty source, which creates a vector of capacity 0, the build without shrinking, copying,
  moving and swapping of vectors, and raw-pointer iterators.
- Vectors.Vector.PopBack: demands an element, as the assertion in the code does.
- Error texts and `exit` of `split_command`; its two refusals are results.
- The policy translator, option parsing, process setup and the containers for tests.
