# Tabular parsing and puzzle kernels of aoc2024, in Dafny

This project models the pure core of an Advent-of-Code 2024 repository.
The repository is written in C++ and Rust. The model covers:

- **The generic C++ table parser** (`table/table.h`):
  - `parseValue<T>` for `int`, `string` and `char`;
  - `parseRow<T>`, which splits a line with `std::getline` on a delimiter and drops empty tokens;
  - `parseRow<char>`, which keeps every byte except `'\r'` and `'\n'`;
  - `parseTable<T>`, which makes one row per non-empty line;
  - the read-only `Row<T>` / `Table<T>` wrappers, with both constructors, indexing, `size()` and iteration.
- **The older integer tables** (`table_read/table.h`, `table_read/table_read.h`). They split on `' '`, convert with `std::stoi`, and keep one row per line, empty lines included.
- **The Rust container** (`table/table.rs`):
  - `TableRow` / `Table` with checked `get`, `push`, `add_row`, `pop_row`, `insert_row`, `remove_row`, `clear` and `column_count`;
  - `parse_line` / `parse_line_with`, which split on whitespace;
  - `from_string` / `from_string_with`, which drop all-whitespace lines.
- **Four puzzle kernels**, with their I/O stripped:
  - the day-1 similarity score (`1/1.cc`);
  - the day-3 `mul`/`do()`/`don't()` scanner (`3/3.cc`);
  - the day-4 X-MAS count (`4/4.cc`);
  - the day-5 page-ordering rules (`5/5.rs`).

Input streams are strings. A C++ `std::string` is modelled with one Dafny `char` per byte, so a `parseRow<char>` cell (`CppTable.CharGrid`, `Xmas.XmasCount`) is one byte of the line and `isspace` tests one byte, as in the source. A stream read with `std::getline` is modelled by `Delimited.Getline`:
- each delimiter ends a piece;
- a last piece without a delimiter is still delivered;
- a trailing delimiter adds no piece.

Rust's `str::lines` is `Delimited.Lines`: the same split on `'\n'`, plus the `"\r\n"` rule. Rust's `str::split` is `Delimited.SplitAll`, which keeps every piece.

Exceptions and panics become `Failure` values:
- `std::stoi` throws `invalid_argument` or `out_of_range` (`NumParse.ParseError`);
- day 5 panics on a bad number (`ParseFailed`) or on a rule line without `'|'` (`IndexOutOfBounds`).

The first failure in reading order decides the result.

Modules:
- `wrappers.dfy`: Option, Result, and the first-failure map `MapResult`.
- `chars.dfy`: character classes.
- `decimal.dfy`: digit strings and their values.
- `delimited.dfy`: getline and split.
- `whitespace.dfy`: `split_whitespace`.
- `numparse.dfy`: `std::stoi` and Rust's `i32` parser.
- `container.dfy`: the C++ `Row`/`Table` wrappers.
- `read_loop.dfy`: the getline loop that skips empty pieces, shared by `parseTable`, the `Table(istream)` constructor and the older `Row` constructors.
- `cpp_table.dfy`, `table_read.dfy` and `rust_table.dfy`: the three table libraries.
- `similarity.dfy`, `mul_scanner.dfy`, `xmas.dfy` and `page_order.dfy`: the puzzle kernels.

Three behaviours of the code worth noting:
- **Integer tokens.** `std::stoi` skips leading whitespace and reads a numeric prefix, so `"12ab"` reads as 12. It is not rejected (`NumParse.StoI`, `NumParse.StoISkipsSpace`).
- **Empty lines.** The `table_read` tables keep empty lines as zero-length rows; they do not skip them (`TableRead.EmptyLineKept`).
- **Indexing.** Out-of-range indexing is unchecked in the C++ source. It is a precondition of `Container.Cell` / `Container.RowAt`, not an index error.

## Model

| member | source | states |
|---|---|---|
| Wrappers.MapResult | table/table.h:48-52 | converting each element stops at the first failure: the result succeeds iff every element converts, its values are the converted elements in order, and a failure carries the error of the first element that fails |
| Wrappers.MapResultAppend | table/table.h:74-78 | converting a concatenation is converting the two parts in turn, the first part's failure taking precedence |
| Wrappers.MapResultFailurePrefix | 5/5.rs:14-35 | once a prefix of the input fails, nothing read afterwards changes the outcome |
| NumParse.StoI | table/table.h:19-22 | `std::stoi` never yields a value outside the 32-bit `int` range: such a value is `out_of_range` instead |
| NumParse.StoIRoundTrip | table_read/table.h:27-31 | any rendered integer followed by a non-digit reads back as itself when it fits an `int`, and as `out_of_range` otherwise |
| NumParse.StoISkipsSpace | table/table.h:19-22 | leading whitespace, tabs and carriage returns included, never changes what `std::stoi` reads |
| NumParse.StoIWithoutDigits | table/table.h:19-22 | text with no digit at all is rejected with `invalid_argument` |
| NumParse.ParseI32 | 5/5.rs:24-25 | Rust's `i32` parser accepts only an optional sign followed by digits, and only values in the `i32` range |
| NumParse.ParseI32RoundTrip | 5/5.rs:29-32 | a rendered integer parses back to itself exactly when it is in the `i32` range |
| NumParse.ParseI32AgreesWithStoI | table/table.h:19-22 | every string Rust's parser accepts is read to the same value by `std::stoi` |
| Delimited.Getline | table/table.h:74-78 | getline pieces contain no delimiter, and there are none exactly when the text is empty |
| Delimited.UnsplitGetline | table/table.h:74-78 | getline reads all of the text: the pieces, each followed by the delimiter, rebuild it, with one delimiter appended if it lacked a final one |
| Delimited.GetlineUnsplit | table_read/table.h:57-65 | getline on delimiter-terminated pieces returns exactly those pieces, empty ones included |
| Delimited.GetlineAround | table_read/table.h:60-64 | a delimiter after an unterminated text joins the pieces of both sides |
| Delimited.GetlineIsSplitAllLessTrailingPiece | 5/5.rs:22 | getline and `str::split` agree, except for the empty last piece `split` adds after a final delimiter or on empty text |
| Delimited.SplitAllJoinWith | 5/5.rs:22 | `str::split` of delimiter-free pieces joined by the delimiter gives the pieces back |
| Delimited.Lines | 5/5.rs:14-15 | `str::lines` yields one line per getline piece on `'\n'` |
| Delimited.LinesCons | 5/5.rs:14-15 | a line ended by a line feed is delivered without one carriage return before it (`"\r\n"` endings), and the later lines are those of the rest of the text |
| Delimited.LinesLast | table/table.rs:318-325 | a last line without a line feed is delivered whole, a trailing carriage return included |
| Delimited.LinesCrExample | 5/5.rs:14-15 | `"a\r\nb\r"` reads as the lines `"a"` and `"b\r"` |
| Delimited.DropEmptyAppend | table/table.h:49-51 | dropping empty tokens commutes with concatenation |
| Delimited.DropEmptyMembers | table/table.h:49-51 | every kept token is one of the original tokens |
| Delimited.Fields | table/table.h:48-52 | the tokens a row parser keeps are non-empty and free of the delimiter |
| Delimited.FieldsAround | table/table.h:48-52 | a delimiter separates tokens: the fields of `a + d + b` are those of `a` followed by those of `b`, so runs of delimiters never produce a token |
| Delimited.FieldsJoinWith | table/table.h:48-52 | non-empty delimiter-free tokens joined by the delimiter tokenize back to themselves |
| Delimited.FieldsOfDelimiters | table/table.h:48-52 | a line made only of delimiters has no tokens |
| Whitespace.Words | table/table.rs:312-315 | `split_whitespace` yields non-empty runs without whitespace |
| Whitespace.WordsEmptyIffBlank | table/table.rs:318-325 | a line yields no words exactly when it is all whitespace, the line filter `trim().is_empty()` |
| Whitespace.WordsAround | table/table.rs:312-315 | a whitespace character separates the words of both sides |
| Whitespace.WordsJoinWith | table/table.rs:312-315 | words joined by single spaces split back into the same words |
| Whitespace.WordsIgnorePadding | table/table.rs:312-315 | leading and trailing whitespace never changes the words |
| Whitespace.WordsAgreeWithFields | table/table.h:42-55 | when the only whitespace is the space character, `split_whitespace` and the space-delimited C++ tokenizer give the same tokens |
| Container.RowSize | table/table.h:105-108 | `Row::size()`, the number of cells; with `FromData` it is the length of the vector the row was built from |
| Container.Cell | table/table.h:100-103 | `Row::operator[]`, unchecked in the source, so the index must be below `size()`; `FromData` and `ToData` tie it to the underlying cells |
| Container.TableSize | table/table.h:143-146 | `Table::size()`, the number of rows; `FromData` ties it to the number of inner vectors |
| Container.RowAt | table/table.h:138-141 | `Table::operator[]`, unchecked in the source, so the index must be below `size()`; `FromData` ties it to the inner vector of that index |
| Container.ToData | table/table.h:100-108 | reading a table back through `size()` and both `operator[]` gives every row's length and every cell |
| Container.FromData | table/table.h:132-136 | the pre-parsed constructor keeps the row count, each row's length and every cell |
| Container.FromDataRoundTrip | table/table.h:132-136 | wrapping pre-parsed data and reading it back are mutually inverse |
| Container.TraverseRow | table/table.h:110-111 | iterating a row from `begin()` to `end()` takes `size()` steps, the `c`-th reading `operator[](c)` |
| Container.TraverseTable | table/table.h:148-156 | iterating a table from `begin()` to `end()` takes `size()` steps, the `i`-th reading `operator[](i)`, whose cells are row `i` of the table's data |
| CppTable.ParseValueString | table/table.h:31-34 | `parseValue<std::string>` returns the token unchanged and never fails; `ParseStringRowIsFields` gives the resulting row |
| CppTable.ParseValueChar | table/table.h:37-40 | the first byte of the token, or `'\0'` for an empty token |
| CppTable.ParseValueCharOfToken | table/table.h:37-67 | for every line and every byte `c` in it, the specialized `parseRow<char>` gives the cells before `c`, then `parseValue<char>` of the one-byte token `[c]` (no cell when `c` is `'\r'` or `'\n'`), then the cells after `c` |
| CppTable.ParseRow | table/table.h:42-55 | a row succeeds iff each non-empty getline token converts; its cells are the converted tokens in order, one per token |
| CppTable.ParseStringRowIsFields | table/table.h:31-34 | with the identity `parseValue<string>`, a row is exactly the non-empty tokens, unchanged and in order |
| CppTable.ParseRowAround | table/table.h:48-52 | a delimiter splits a row into the cells of both sides; a failure on the left comes first |
| CppTable.ParseIntRowRoundTrip | table/table.h:42-55 | rendering `int` values and joining them with the delimiter parses back to the same values |
| CppTable.ParseRowChar | table/table.h:58-67 | the character row keeps exactly the line's bytes other than `'\r'`/`'\n'`: a single line-end byte gives no cell, any other byte gives itself, and a line without line ends is kept whole |
| CppTable.ParseRowCharAppend | table/table.h:61-65 | the character filter works byte by byte: filtering a concatenation is filtering the parts |
| CppTable.IntRow | table/table.h:95 | `Row<int>(const std::string&)`: `parseRow<int>` with the space delimiter; `ParseRow` and `ParseIntRowRoundTrip` state its cells |
| CppTable.StringRow | table/table.h:95 | `Row<std::string>(const std::string&)`: `parseRow<std::string>` with the space delimiter; `ParseStringRowIsFields` shows it never fails and holds exactly the non-empty tokens |
| CppTable.CharRow | table/table.h:95 | `Row<char>(const std::string&)`: the specialized `parseRow<char>`, which never fails; `ParseRowChar` states its cells |
| CppTable.ParseTable | table/table.h:69-81 | one row per non-empty line in input order, or the first failing line's error |
| CppTable.EmptyLineSkipped | table/table.h:75 | an extra empty line changes nothing |
| CppTable.CharGrid | table/table.h:58-81 | a character table has one row per non-empty line, each that line without line-end bytes |
| ReadLoop.ReadRows | table/table.h:74-78 | the stream loop yields exactly the table the line-by-line definition gives, failure included |
| CppTable.TableFromStream | table/table.h:122-129 | `Table(istream)` succeeds iff `parseTable` does, and is then the pre-parsed `Table` of its result |
| CppTable.RaggedExample | table/table.h:122-129 | `"1 2\n3 4 5\n1"` gives the ragged rows `[1,2]`, `[3,4,5]`, `[1]` |
| TableRead.ReadRow | table_read/table.h:23-33 | the row succeeds iff each non-empty space-separated token converts with `stoi`; the cells are those values in order |
| TableRead.RowFromLine | table_read/table_read.h:21-31 | the row constructor's getline loop, skipping empty tokens and stopping at the first token `stoi` rejects, builds the row `ReadRow` describes |
| TableRead.BlankLineIsEmptyRow | table_read/table.h:27-31 | a line that is empty or all spaces is a row with no cells |
| TableRead.ReadTable | table_read/table.h:57-65 | one row per getline line, empty lines included, in order; it succeeds iff every line's row does |
| TableRead.TableFromStream | table_read/table_read.h:56-64 | the stream constructor's loop builds exactly that table |
| TableRead.EmptyLineKept | table_read/table.h:61-64 | a doubled line feed adds one zero-length row at that position, unlike `parseTable` |
| TableRead.AgreesWithParseTable | table_read/table_read.h:56-64 | without empty lines the older table and `parseTable<int>` agree row for row |
| TableRead.RaggedExample | table_read/table_read.h:21-31 | `"1 2\n3 4 5\n1"` gives rows `[1,2]`, `[3,4,5]`, `[1]` |
| RustTable.RowLen | table/table.rs:23-25 | `TableRow::len`; `RowGet` is `Some` exactly below it and `RowPush` raises it by one |
| RustTable.RowGet | table/table.rs:38-40 | `get` returns `Some` exactly for an index below `len`, holding that element |
| RustTable.RowIndex | table/table.rs:63-69 | indexing an in-range position gives what `get` returns |
| RustTable.RowPush | table/table.rs:33-35 | `push` grows the row by one, puts the item last and leaves earlier elements unchanged |
| RustTable.RowIsEmpty | table/table.rs:28-30 | `TableRow::is_empty`, a length of zero; `RowPush` makes a row non-empty, `ParseLine` gives an empty row exactly for a blank line, and `FromString` never yields an empty row |
| RustTable.RowCount | table/table.rs:151-153 | `Table::row_count`; `GetRow` is `Some` exactly below it and every row operation states its effect on it |
| RustTable.IsEmpty | table/table.rs:166-168 | `Table::is_empty`; `PopRow` returns `None` exactly for such a table |
| RustTable.ColumnCount | table/table.rs:156-158 | the first row's length, or 0 for a table without rows |
| RustTable.ColumnCountAfterAdd | table/table.rs:146-158 | `add_row` changes `column_count` only on an empty table, where it becomes the new row's length |
| RustTable.ColumnCountAfterInsert | table/table.rs:211-213 | inserting at index 0 makes `column_count` the new row's length; inserting elsewhere leaves it |
| RustTable.ColumnCountAfterRemove | table/table.rs:216-218 | removing row 0 hands `column_count` to the next row, or 0 when none is left; removing another row leaves it |
| RustTable.ColumnCountAfterPop | table/table.rs:206-208 | popping leaves `column_count` unless it removes the only row, which makes it 0 |
| RustTable.ColumnCountExample | table/table.rs:394-402 | 0 for a new table and 3 after adding the row `["a", "b", "c"]`, as the column-count test asserts |
| RustTable.GetRow | table/table.rs:171-173 | `Some` exactly for an in-range row index, holding that row |
| RustTable.TableIndex | table/table.rs:226-232 | indexing an in-range row gives what `get_row` returns |
| RustTable.Get | table/table.rs:181-183 | `Some` exactly when both indices are in range, holding that cell |
| RustTable.AddRow | table/table.rs:146-148 | one more row, placed last; earlier rows unchanged |
| RustTable.PopRow | table/table.rs:206-208 | removes and returns the last row, or `None` with the table unchanged when it is empty |
| RustTable.InsertRow | table/table.rs:211-213 | the row lands at the index, earlier rows stay and later rows shift right by one |
| RustTable.RemoveRow | table/table.rs:216-218 | returns the row at the index, earlier rows stay and later rows shift left by one |
| RustTable.Clear | table/table.rs:221-223 | leaves a table without rows, whose column count is 0 |
| RustTable.RemoveAfterInsert | table/table.rs:684-692 | removing at the index just inserted at returns the row and restores the table |
| RustTable.InsertAfterRemove | table/table.rs:211-218 | putting a removed row back at its index restores the table |
| RustTable.PopAfterAdd | table/table.rs:675-681 | popping right after adding returns that row and restores the table |
| RustTable.AddAfterPop | table/table.rs:206-208 | adding the popped row back restores a non-empty table |
| RustTable.InsertAtEndIsAdd | table/table.rs:211-213 | inserting at index `len` is `add_row` |
| RustTable.ModificationExample | table/table.rs:671-698 | the add/pop/insert/remove/clear sequence of the modification test ends in the states it asserts |
| RustTable.ParseLine | table/table.rs:312-315 | every token is a non-empty whitespace-free word, and the row is empty exactly for an all-whitespace line |
| RustTable.ParseLineWith | table/table.rs:328-334 | one cell per whitespace-separated word, each the parser applied to that word |
| RustTable.ParseLineRoundTrip | table/table.rs:405-413 | words joined by spaces, padded with whitespace, parse back to the same words |
| RustTable.FromString | table/table.rs:318-325 | one row per line that is not all whitespace, in order, each row the line's words and never empty |
| RustTable.FromStringWith | table/table.rs:337-347 | the same filter, each kept line parsed with the parser |
| RustTable.FromStringIsWithIdentity | table/table.rs:318-347 | `from_string` is `from_string_with` the identity parser |
| RustTable.FromStringOfBlank | table/table.rs:426-432 | all-whitespace input, `""` and `"   \n  \n  "` among it, gives a table without rows |
| RustTable.FromStringRoundTrip | table/table.rs:416-423 | rows of words rendered one line each read back as the same rows |
| Similarity.ReadColumns | 1/1.cc:51-56 | values are dealt two at a time into two columns of equal length, the first of each pair to column 1; an unpaired last value is dropped |
| Similarity.Count | 1/1.cc:70-77 | the count is the multiplicity of the value in column 2 |
| Similarity.SimilarityScore | 1/1.cc:66-79 | the nested loops compute the score: each column-1 value, duplicates included, times its count in column 2 |
| Similarity.ScoreWithoutCommonValues | 1/1.cc:73-78 | values absent from column 2 add nothing, so empty input or disjoint columns score 0 |
| Similarity.ScoreAppendSecond | 1/1.cc:68-79 | one more column-2 value adds it once per occurrence in column 1 |
| Similarity.ScoreSymmetric | 1/1.cc:68-79 | the score is symmetric in the two columns |
| MulScanner.Recognize | 3/3.cc:12 | a match starts with `m` or `d`, is non-empty and fits the text, and `mul` operands are at most 999 |
| MulScanner.LongOperandRejected | 3/3.cc:12 | an operand of four or more digits is not matched by `\d{1,3}` |
| MulScanner.Scan | 3/3.cc:15-21 | the matches the `sregex_iterator` loop delivers over the whole content, in order; `ScanFaithful`, `ScanOrdered`, `ScanCovers` and `ScanProgramText` state what they are |
| MulScanner.ScanFaithful | 3/3.cc:15-21 | every match the scan reports is the pattern recognized at its position |
| MulScanner.ScanOrdered | 3/3.cc:15-21 | matches come left to right and do not overlap |
| MulScanner.ScanCovers | 3/3.cc:15-21 | every position where the pattern matches lies inside some reported match, so no match is missed |
| MulScanner.SkipNoise | 3/3.cc:15-21 | a character that cannot start a match is skipped |
| MulScanner.RecognizeText | 3/3.cc:12 | the pattern reads an instruction's text back, whatever follows it |
| MulScanner.ScanProgramText | 3/3.cc:15-21 | instructions written out one after another scan back to the same instructions |
| MulScanner.CollectPairs | 3/3.cc:18-35 | the flag loop collects exactly the `mul` pairs that are enabled |
| MulScanner.SumOfProducts | 3/3.cc:37-40 | the sum of the products of the collected pairs, in order |
| MulScanner.Process | 3/3.cc:6-43 | `process` computes the sum of the products of the enabled `mul` matches of its input |
| MulScanner.TogglesAddNothing | 3/3.cc:25-28 | `do()` sets the flag and `don't()` clears it; neither adds a pair |
| MulScanner.DisabledUntilDo | 3/3.cc:27-34 | after `don't()` no `mul` counts until a `do()` |
| MulScanner.AllEnabledWithoutDont | 3/3.cc:18 | the flag starts set, so without `don't()` every `mul` counts |
| Xmas.XmasCount | 4/4.cc:37-68 | the two loops count exactly the interior cells holding `'A'` whose two diagonals each read MAS or SAM |
| Xmas.RowStep | 4/4.cc:42-66 | one more examined cell adds one exactly when it is an X-MAS centre |
| Xmas.FewRows | 4/4.cc:41 | a grid with fewer than three rows counts none |
| Xmas.CountBound | 4/4.cc:41-42 | the count never exceeds the number of examined cells |
| Xmas.NoCentreWithoutA | 4/4.cc:44-46 | only a cell holding `'A'` can be counted |
| PageOrder.ParseNumber | 5/5.rs:24-25 | `parse().expect(..)`: the `i32` value when Rust's parser accepts the text, a `ParseFailed` panic exactly when it does not |
| PageOrder.ParseRule | 5/5.rs:21-27 | a rule line parses to two `i32`s and contains `'|'`; a line without `'|'` whose first field is a valid number is an index panic |
| PageOrder.RuleRoundTrip | 5/5.rs:22-26 | `a|b` (with any extra `|` fields) parses back to `(a, b)` |
| PageOrder.ParseUpdate | 5/5.rs:29-32 | an update line parses to one `i32` per comma-separated field, or to a parse panic |
| PageOrder.UpdateRoundTrip | 5/5.rs:29-32 | comma-joined `i32`s parse back to the same update |
| PageOrder.SplitAllSingle | 5/5.rs:22 | splitting yields a single part exactly when the separator is absent |
| PageOrder.FirstBlankIsFirst | 5/5.rs:16-19 | every line before the section break is non-empty, and the break is an empty line |
| PageOrder.FirstBlankSnoc | 5/5.rs:16-19 | the rules section ends at the first empty line and never resumes |
| PageOrder.SnocAfterBlank | 5/5.rs:28-34 | after the break every further non-empty line is an update, and empty lines are skipped |
| PageOrder.SnocInRules | 5/5.rs:21-27 | before the break a non-empty line is a rule |
| PageOrder.ReadSectionsFailureExtends | 5/5.rs:24-25 | the first panic ends reading: later lines do not change the outcome |
| PageOrder.ReadLines | 5/5.rs:14-35 | the reading loop produces the rules before the first empty line and the later non-empty update lines, or the first panic |
| PageOrder.ReadInput | 5/5.rs:11-35 | reading the file's lines gives the sections of those lines |
| PageOrder.SplitInput | 5/5.rs:14-35 | the number of rules is the number of lines before the first empty one |
| PageOrder.ReadSectionsOfLayout | 5/5.rs:14-35 | rule lines, an empty line and update lines read back as the rules and updates they encode |
| PageOrder.InputRoundTrip | 5/5.rs:14-35 | writing rules and updates in the file layout and reading them gives them back |
| PageOrder.FindPair | 5/5.rs:49-54 | the inner search finds the pair exactly when it is one of the rules |
| PageOrder.IsValid | 5/5.rs:41-61 | the check says valid exactly when the update has at least two pages and each adjacent pair is a rule |
| PageOrder.ShortNeverValid | 5/5.rs:43-44 | updates of length 0 or 1 are never valid |
| PageOrder.PairValid | 5/5.rs:46-59 | a two-page update is valid iff that ordered pair is a rule; direction matters |
| PageOrder.ValidConcat | 5/5.rs:46-59 | two valid updates joined are valid iff the pair at the seam is a rule |
| PageOrder.ValidMonotone | 5/5.rs:49-54 | adding rules never invalidates an update |
| PageOrder.KeepValid | 5/5.rs:40-66 | the filter loop keeps the valid updates, in input order |
| PageOrder.ValidUpdatesMembers | 5/5.rs:63-65 | an update is kept exactly when it is one of the inputs and valid |
| PageOrder.ValidUpdatesAppend | 5/5.rs:41-66 | each update is kept or dropped on its own: filtering a concatenation filters both parts and joins the results in order |
| PageOrder.ValidUpdatesIdempotent | 5/5.rs:40-66 | filtering again keeps everything |
| PageOrder.SumMiddles | 5/5.rs:70-79 | the sum loop adds the element at `len/2` of each non-empty update |
| PageOrder.MiddleSumAppend | 5/5.rs:72-79 | the middle sum of joined lists is the sum of their middle sums |
| PageOrder.MiddleIsCentred | 5/5.rs:74-75 | for an odd-length update the element at `len/2` has as many pages before it as after |
| PageOrder.Solve | 5/5.rs:4-82 | the program panics exactly when reading does, with the same panic, and otherwise totals the middles of the valid updates |

## Left out

- File opening, command-line flags, the working-directory lookup and all console output. The kernels return the count or sum that `process` / `main` print; `process` itself always returns 0.
- A read error from a stream or from `BufRead::lines` (the `expect` on each line) is not modelled: every stream is a complete string.
- `parseValue<double>` / `std::stod`: floating-point parsing.
- `parseValue<char>` is modelled (`CppTable.ParseValueChar`), but `parseRow<char>` is specialized and never calls it, so no table path uses it.
- Mutable access is not modelled: `get_mut`, `get_row_mut`, `iter_mut`, `IndexMut` and the `&mut` iterators. Updates are modelled as functional operations.
- The `From`/`Into`/`IntoIterator`/`FromIterator` conversions, `new`, `from_vec`, `from_rows`, `Default`, `into_vec`/`into_rows`, and the free `new_table`/`add_row`/`row_count`/`column_count` wrappers are left out. Each only wraps or unwraps the same data.
- Unicode whitespace in `split_whitespace` and `trim` is not modelled. Only ASCII whitespace counts, and `std::stoi` skips the C `isspace` characters.
- The `std::regex` engine is replaced by an explicit left-to-right scanner for the pattern `mul\((\d{1,3}),(\d{1,3})\)|do\(\)|don't\(\)`. No two alternatives match at the same position, so leftmost-first search is the same as trying each position in turn.
- Similarity.SimilarityScore: sums use unbounded integers, not 32-bit `int`. Overflow of the C++ sum is not modelled.
- MulScanner.Process: sums use unbounded integers, not 32-bit `int`. Overflow of the C++ sum is not modelled.
- PageOrder.Solve: sums use unbounded integers, not 32-bit `i32`. Overflow of `total_sum`, which panics in a debug build, is not modelled.
- Xmas.XmasCount: the source reads the rows above and below each examined `'A'` one column to the right without a check. The model requires those rows to be long enough (`Readable`) instead of modelling the out-of-bounds read.
- The C++ `operator[]` of `Row` and `Table` is unchecked, so an in-range index is a precondition. Rust's panicking `Index`, `insert_row` and `remove_row` are likewise preconditions.
- Iteration over `Row` and `Table` shares one walk over the underlying vector (`Container.Walk`). Only the `const` iterators are modelled.
- Similarity.ReadColumns: the stream `>>` reads are given as the sequence of integers the stream delivers. Whitespace skipping and a non-numeric token ending the loop early are not modelled.
- `table/parsing_demo.cc`, `2/2.cc`, `1/1.rs` and the `flags/` helpers are not part of this model: they print tables or handle flags and paths.
