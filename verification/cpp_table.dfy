/** The generic tabular parser of table/table.h: value conversion per element
    type, row tokenizing, table parsing, and the two ways of building a
    `Table<T>`. Element types are modelled by the conversion passed in:
    `StoI` for `int`, `ParseValueString` for `std::string`, and the
    character path (`ParseRowChar`) for `char`. */
module CppTable {
  import opened Wrappers
  import opened Chars
  import opened Delimited
  import opened NumParse
  import opened Container
  import opened ReadLoop

  /** The delimiter `parseRow` and `parseTable` use unless given another; the
      `Row(const std::string&)` constructor always uses it. */
  const DefaultDelimiter: char := ' '

  /** `parseValue<std::string>`: the token itself, the empty one included. */
  function ParseValueString(token: string): Result<string, ParseError> {
    Success(token)
  }

  /** `parseValue<char>`: the first byte of the token, or the NUL character
      for an empty token; it never fails. `parseRow<char>` is specialized
      and does not call it. */
  function ParseValueChar(token: string): (c: char)
    ensures |token| == 0 ==> c == '\0'
    ensures |token| > 0 ==> c == token[0]
  {
    if |token| == 0 then '\0' else token[0]
  }

  /** The specialized `parseRow<char>` works byte by byte: around any byte
      `c` of the line, the row holds the cells of the text before it, then
      the cell `parseValue<char>` gives for the one-byte token `[c]` (or no
      cell when `c` is a line end), then the cells of the text after it. */
  lemma {:induction false} ParseValueCharOfToken(a: string, c: char, b: string)
    ensures CharRow(a + [c] + b) == Success(CharRow(a).value + (if IsLineEnd(c) then [] else [ParseValueChar([c])]) + CharRow(b).value)
  {
    ParseRowCharAppend(a + [c], b);
    ParseRowCharAppend(a, [c]);
    assert ParseRowChar([c]) == if IsLineEnd(c) then [] else [c];
  }

  /** `parseRow<T>(rowData, delimiter)`: the non-empty tokens between
      delimiters, each converted in order; the first conversion that throws
      ends the row with that error. */
  function ParseRow<T>(line: string, delim: char, parse: string -> Result<T, ParseError>): (r: Result<seq<T>, ParseError>)
    ensures var ts := Fields(line, delim);
      && (r.Success? <==> forall i :: 0 <= i < |ts| ==> parse(ts[i]).Success?)
      && (r.Success? ==> |r.value| == |ts| && forall i :: 0 <= i < |ts| ==> r.value[i] == parse(ts[i]).value)
  {
    MapResult(Fields(line, delim), parse)
  }

  predicate IsLineEnd(c: char) {
    c == '\r' || c == '\n'
  }

  /** `parseRow<char>`: every byte of the line except carriage returns and
      line feeds, in order, one cell each. The delimiter is ignored, so it is
      not a parameter here, and the conversion cannot fail. */
  function ParseRowChar(line: string): (r: seq<char>)
    ensures forall k :: 0 <= k < |r| ==> !IsLineEnd(r[k])
    ensures (forall k :: 0 <= k < |line| ==> !IsLineEnd(line[k])) ==> r == line
    ensures |r| <= |line|
    ensures |line| == 1 ==> r == (if IsLineEnd(line[0]) then [] else line)
  {
    if |line| == 0 then []
    else
      var rest := ParseRowChar(line[1..]);
      assert (forall k :: 0 <= k < |line| ==> !IsLineEnd(line[k])) ==>
             (forall k :: 0 <= k < |line[1..]| ==> !IsLineEnd(line[1..][k]));
      assert line == [line[0]] + line[1..];
      (if IsLineEnd(line[0]) then [] else [line[0]]) + rest
  }

  /** The character row of a concatenation is the concatenation of the
      character rows: each byte is kept or dropped on its own. */
  lemma {:induction false} ParseRowCharAppend(a: string, b: string)
    ensures ParseRowChar(a + b) == ParseRowChar(a) + ParseRowChar(b)
  {
    if |a| == 0 {
      assert a + b == b;
    } else {
      assert (a + b)[0] == a[0];
      assert (a + b)[1..] == a[1..] + b;
      ParseRowCharAppend(a[1..], b);
    }
  }

  /** `Row<int>(const std::string&)`. */
  function IntRow(line: string): Result<seq<int>, ParseError> {
    ParseRow(line, DefaultDelimiter, StoI)
  }

  /** `Row<std::string>(const std::string&)`. */
  function StringRow(line: string): Result<seq<string>, ParseError> {
    ParseRow(line, DefaultDelimiter, ParseValueString)
  }

  /** `Row<char>(const std::string&)`. */
  function CharRow(line: string): Result<seq<char>, ParseError> {
    Success(ParseRowChar(line))
  }

  /** `parseTable<T>(input, delimiter)`: one row per non-empty line of the
      stream, in input order, empty lines contributing nothing; the first row
      that fails to parse fails the table. `rowParser` stands for
      `parseRow<T>` with the chosen delimiter. */
  function ParseTable<T>(input: string, rowParser: string -> Result<seq<T>, ParseError>): (r: Result<seq<seq<T>>, ParseError>)
    ensures var lines := NonEmptyLines(input);
      && (r.Success? <==> forall i :: 0 <= i < |lines| ==> rowParser(lines[i]).Success?)
      && (r.Success? ==> |r.value| == |lines| && forall i :: 0 <= i < |lines| ==> r.value[i] == rowParser(lines[i]).value)
  {
    MapResult(NonEmptyLines(input), rowParser)
  }

  /** `parseTable<char>`: it cannot fail; row `i` holds the bytes of the
      `i`-th non-empty line other than carriage returns. */
  function CharGrid(input: string): (g: seq<seq<char>>)
    ensures |g| == |NonEmptyLines(input)|
    ensures forall i :: 0 <= i < |g| ==> g[i] == ParseRowChar(NonEmptyLines(input)[i])
  {
    ParseTable(input, CharRow).value
  }

  /** `Table<T>(std::istream&)`: read lines with getline until the stream is
      exhausted, skip the empty ones and build a row from each other one.
      It builds the same table as wrapping what `parseTable` returns. The
      source always builds the row with `Row(const std::string&)`, that is
      `parseRow<T>` with the default delimiter ' ': `rowParser` is `IntRow`,
      `StringRow` or `CharRow` for the three element types. */
  method TableFromStream<T>(input: string, rowParser: string -> Result<seq<T>, ParseError>)
    returns (r: Result<Table<T>, ParseError>)
    ensures r.Success? <==> ParseTable(input, rowParser).Success?
    ensures r.Success? ==> r.value == FromData(ParseTable(input, rowParser).value)
    ensures r.Failure? ==> r.error == ParseTable(input, rowParser).error
  {
    ParseTableByLines(input, rowParser);
    var rows := ReadRows(Getline(input, '\n'), rowParser);
    match rows
    case Failure(e) => r := Failure(e);
    case Success(data) => r := Success(FromData(data));
  }

  /** `parseTable` is the stream constructor's loop in one step: getline
      pieces, empty ones dropped, each converted. */
  lemma ParseTableByLines<T>(input: string, rowParser: string -> Result<seq<T>, ParseError>)
    ensures ParseTable(input, rowParser) == MapResult(DropEmpty(Getline(input, '\n')), rowParser)
  {
  }

  /** Splitting a line at one delimiter: the row of `a + [delim] + b` is the
      row of `a` followed by the row of `b`, so runs of delimiters, and
      delimiters at either end, add no cells. */
  lemma ParseRowAround<T>(a: string, delim: char, b: string, parse: string -> Result<T, ParseError>)
    ensures ParseRow(a + [delim] + b, delim, parse) ==
      match ParseRow(a, delim, parse)
      case Failure(e) => Failure(e)
      case Success(x) =>
        match ParseRow(b, delim, parse)
        case Failure(e) => Failure(e)
        case Success(y) => Success(x + y)
  {
    FieldsAround(a, delim, b);
    MapResultAppend(Fields(a, delim), Fields(b, delim), parse);
  }

  /** The characters of a rendered integer are digits and '-'. */
  lemma IntToStringChars(v: int)
    ensures forall k :: 0 <= k < |IntToString(v)| ==> IsDigit(IntToString(v)[k]) || IntToString(v)[k] == '-'
  {
    var s := IntToString(v);
    if v < 0 {
      forall k | 0 <= k < |s| ensures IsDigit(s[k]) || s[k] == '-' {
        if k > 0 { assert s[k] == Decimal.Digits(-v)[k - 1]; }
      }
    }
  }

  /** Round trip of an integer row: writing 32-bit values in decimal,
      separated by a delimiter that is neither a digit nor '-', and parsing
      the line again gives the values back. */
  lemma ParseIntRowRoundTrip(vals: seq<int>, delim: char)
    requires forall i :: 0 <= i < |vals| ==> InInt32(vals[i])
    requires !IsDigit(delim) && delim != '-'
    ensures ParseRow(JoinWith(DecimalStrings(vals), delim), delim, StoI) == Success(vals)
  {
    var ts := DecimalStrings(vals);
    forall k | 0 <= k < |ts| ensures |ts[k]| > 0 && delim !in ts[k] {
      IntToStringChars(vals[k]);
    }
    FieldsJoinWith(ts, delim);
    forall k | 0 <= k < |ts| ensures StoI(ts[k]) == Success(vals[k]) {
      StoIRoundTrip(vals[k], []);
      assert ts[k] + [] == ts[k];
    }
    var r := ParseRow(JoinWith(ts, delim), delim, StoI);
    assert r.Success?;
    assert r.value == vals;
  }

  /** `parseRow<std::string>` returns the non-empty fields unchanged, in
      order, for any delimiter. */
  lemma ParseStringRowIsFields(line: string, delim: char)
    ensures ParseRow(line, delim, ParseValueString) == Success(Fields(line, delim))
  {
    var r := ParseRow(line, delim, ParseValueString);
    assert r.Success?;
    assert r.value == Fields(line, delim);
  }

  /** An empty line adds no row: doubling a line feed changes nothing. */
  lemma EmptyLineSkipped<T>(a: string, b: string, rowParser: string -> Result<seq<T>, ParseError>)
    ensures ParseTable(a + "\n\n" + b, rowParser) == ParseTable(a + "\n" + b, rowParser)
  {
    var nb := [] + ['\n'] + b;
    assert a + "\n\n" + b == a + ['\n'] + nb;
    assert a + "\n" + b == a + ['\n'] + b;
    FieldsAround(a, '\n', nb);
    FieldsAround([], '\n', b);
    assert Fields([], '\n') == [];
    assert Fields(nb, '\n') == Fields(b, '\n');
    FieldsAround(a, '\n', b);
    assert NonEmptyLines(a + "\n\n" + b) == NonEmptyLines(a + "\n" + b);
  }

  /** A one-digit number is rendered as its digit. */
  lemma SmallIntToString(d: nat)
    requires d < 10
    ensures IntToString(d) == [DigitChar(d)]
  {
  }

  lemma RaggedLines()
    ensures NonEmptyLines("1 2\n3 4 5\n1") == ["1 2", "3 4 5", "1"]
  {
    var lines := ["1 2", "3 4 5", "1"];
    assert JoinWith(lines[2..], '\n') == "1";
    assert JoinWith(lines[1..], '\n') == "3 4 5\n1";
    assert JoinWith(lines, '\n') == "1 2\n3 4 5\n1";
    FieldsJoinWith(lines, '\n');
  }

  lemma RaggedRows()
    ensures IntRow("1 2") == Success([1, 2])
    ensures IntRow("3 4 5") == Success([3, 4, 5])
    ensures IntRow("1") == Success([1])
  {
    RaggedRow12();
    RaggedRow345();
    RaggedRow1();
  }

  lemma RaggedRow1()
    ensures IntRow("1") == Success([1])
  {
    SmallIntToString(1);
    assert JoinWith(DecimalStrings([1]), ' ') == "1";
    ParseIntRowRoundTrip([1], ' ');
  }

  lemma RaggedRow12()
    ensures IntRow("1 2") == Success([1, 2])
  {
    SmallIntToString(1);
    SmallIntToString(2);
    assert JoinWith(DecimalStrings([1, 2]), ' ') == "1 2";
    ParseIntRowRoundTrip([1, 2], ' ');
  }

  lemma RaggedRow345()
    ensures IntRow("3 4 5") == Success([3, 4, 5])
  {
    SmallIntToString(3);
    SmallIntToString(4);
    SmallIntToString(5);
    assert JoinWith(DecimalStrings([3, 4, 5]), ' ') == "3 4 5";
    ParseIntRowRoundTrip([3, 4, 5], ' ');
  }

  lemma ThreeRows<T>(l0: string, l1: string, l2: string, r0: seq<T>, r1: seq<T>, r2: seq<T>,
                    rowParser: string -> Result<seq<T>, ParseError>)
    requires rowParser(l0) == Success(r0) && rowParser(l1) == Success(r1) && rowParser(l2) == Success(r2)
    ensures MapResult([l0, l1, l2], rowParser) == Success([r0, r1, r2])
  {
    MapResultAllSucceed([l0, l1, l2], rowParser, [r0, r1, r2]);
  }

  /** The ragged example of the tests: "1 2\n3 4 5\n1" parses to three rows
      of 2, 3 and 1 cells, and row 1 holds 5 at position 2. */
  lemma RaggedExample()
    ensures ParseTable("1 2\n3 4 5\n1", IntRow) == Success([[1, 2], [3, 4, 5], [1]])
  {
    RaggedLines();
    RaggedRows();
    ThreeRows("1 2", "3 4 5", "1", [1, 2], [3, 4, 5], [1], IntRow);
  }
}
