/** The older integer tables of table_read/table.h (templated) and
    table_read/table_read.h (plain `int`). Both build a row by splitting a
    line on single spaces with getline, skipping empty tokens and reading
    each remaining token with `std::stoi`; both build a table with one row
    per getline line of the stream, empty lines included. The templated
    header stores each `int` into a `T`, which every use instantiates with
    `int`, so one model serves both. */
module TableRead {
  import opened Wrappers
  import opened Chars
  import opened Delimited
  import opened NumParse
  import opened Container
  import CppTable
  import ReadLoop

  /** `Row(const std::string&)`: the non-empty space-separated tokens, each
      read by `std::stoi`, in order; the first token `stoi` rejects throws. */
  function ReadRow(line: string): (r: Result<seq<int>, ParseError>)
    ensures var ts := Fields(line, ' ');
      && (r.Success? <==> forall i :: 0 <= i < |ts| ==> StoI(ts[i]).Success?)
      && (r.Success? ==> |r.value| == |ts| && forall i :: 0 <= i < |ts| ==> r.value[i] == StoI(ts[i]).value)
    ensures r.Success? ==> forall i :: 0 <= i < |r.value| ==> InInt32(r.value[i])
  {
    MapResult(Fields(line, ' '), StoI)
  }

  /** The row constructor: the shared read loop over the getline tokens of
      the line on ' ', skipping empty tokens and pushing `std::stoi` of every
      other one; the first token `stoi` rejects throws out of the
      constructor. It builds the row `ReadRow` describes. */
  method RowFromLine(line: string) returns (r: Result<seq<int>, ParseError>)
    ensures r == ReadRow(line)
  {
    var tokens := Getline(line, ' ');
    RowByTokens(line, tokens);
    r := ReadLoop.ReadRows(tokens, StoI);
  }

  /** The row is the getline tokens, empty ones dropped, each read by
      `std::stoi`. */
  lemma RowByTokens(line: string, tokens: seq<string>)
    requires tokens == Getline(line, ' ')
    ensures ReadRow(line) == MapResult(DropEmpty(tokens), StoI)
  {
  }

  /** `Table(std::istream&)`: one row per getline line, empty lines kept as
      rows with no cells, in input order. */
  function ReadTable(input: string): (r: Result<Table<int>, ParseError>)
    ensures var lines := Getline(input, '\n');
      && (r.Success? <==> forall i :: 0 <= i < |lines| ==> ReadRow(lines[i]).Success?)
      && (r.Success? ==> TableSize(r.value) == |lines|)
      && (r.Success? ==> forall i :: 0 <= i < |lines| ==> RowAt(r.value, i).data == ReadRow(lines[i]).value)
  {
    match MapResult(Getline(input, '\n'), ReadRow)
    case Failure(e) => Failure(e)
    case Success(d) => Success(FromData(d))
  }

  /** The constructor's loop: `emplace_back` a row for every line getline
      returns, until the stream is exhausted. */
  method TableFromStream(input: string) returns (r: Result<Table<int>, ParseError>)
    ensures r == ReadTable(input)
  {
    var lines := Getline(input, '\n');
    var data: seq<seq<int>> := [];
    var i := 0;
    while i < |lines|
      invariant 0 <= i <= |lines|
      invariant MapResult(lines[..i], ReadRow) == Success(data)
    {
      MapResultPrefix(lines, i, ReadRow);
      var row := RowFromLine(lines[i]);
      if row.Failure? {
        return Failure(row.error);
      }
      data := data + [row.value];
      i := i + 1;
    }
    if |lines| == 0 {
      assert lines[..i] == lines;
    } else {
      MapResultPrefix(lines, 0, ReadRow);
    }
    r := Success(FromData(data));
  }

  /** Both headers' rows read a line exactly as the generic `Row<int>` of
      table/table.h does. */
  lemma ReadRowIsIntRow(line: string)
    ensures ReadRow(line) == CppTable.IntRow(line)
  {
  }

  /** A line that is empty or holds only spaces becomes a row with no cells. */
  lemma BlankLineIsEmptyRow(line: string)
    requires forall k :: 0 <= k < |line| ==> line[k] == ' '
    ensures ReadRow(line) == Success([])
  {
    FieldsOfDelimiters(line, ' ');
  }

  /** Unlike `parseTable`, an empty line is a row: doubling a line feed after
      a non-empty line adds exactly one row, with no cells, at that
      position. */
  lemma EmptyLineKept(a: string, b: string)
    requires |a| > 0 && a[|a| - 1] != '\n'
    ensures Getline(a + "\n\n" + b, '\n') == Getline(a, '\n') + [[]] + Getline(b, '\n')
    ensures ReadTable(a + "\n\n" + b).Success? ==>
      TableSize(ReadTable(a + "\n\n" + b).value) == |Getline(a + "\n" + b, '\n')| + 1
    ensures ReadTable(a + "\n\n" + b).Success? ==>
      RowSize(RowAt(ReadTable(a + "\n\n" + b).value, |Getline(a, '\n')|)) == 0
  {
    var nb := ['\n'] + b;
    assert a + "\n\n" + b == a + ['\n'] + nb;
    GetlineAround(a, '\n', nb);
    GetlineLeadingDelimiter('\n', b);
    assert a + "\n" + b == a + ['\n'] + b;
    GetlineAround(a, '\n', b);
    BlankLineIsEmptyRow([]);
    var lines := Getline(a + "\n\n" + b, '\n');
    assert lines[|Getline(a, '\n')|] == [];
  }

  /** When no line is empty, the older table and the generic `parseTable`
      agree row for row. */
  lemma AgreesWithParseTable(input: string)
    requires forall i :: 0 <= i < |Getline(input, '\n')| ==> |Getline(input, '\n')[i]| > 0
    ensures ReadTable(input).Success? <==> CppTable.ParseTable(input, CppTable.IntRow).Success?
    ensures ReadTable(input).Success? ==> ReadTable(input).value == FromData(CppTable.ParseTable(input, CppTable.IntRow).value)
  {
    var lines := Getline(input, '\n');
    DropEmptyKeepsNonEmpty(lines);
    assert CppTable.ParseTable(input, CppTable.IntRow) == MapResult(lines, CppTable.IntRow);
    forall i | 0 <= i < |lines| ensures ReadRow(lines[i]) == CppTable.IntRow(lines[i]) {
      ReadRowIsIntRow(lines[i]);
    }
    MapResultCongruence(lines, ReadRow, CppTable.IntRow);
  }

  lemma RaggedLines()
    ensures Getline("1 2\n3 4 5\n1", '\n') == ["1 2", "3 4 5", "1"]
  {
    var lines := ["1 2", "3 4 5", "1"];
    assert JoinWith(lines[2..], '\n') == "1";
    assert JoinWith(lines[1..], '\n') == "3 4 5\n1";
    assert JoinWith(lines, '\n') == "1 2\n3 4 5\n1";
    SplitAllJoinWith(lines, '\n');
    GetlineIsSplitAllLessTrailingPiece("1 2\n3 4 5\n1", '\n');
  }

  /** The example of the tests: "1 2\n3 4 5\n1" reads as the rows [1, 2],
      [3, 4, 5] and [1]. */
  lemma RaggedExample()
    ensures ReadTable("1 2\n3 4 5\n1") == Success(FromData([[1, 2], [3, 4, 5], [1]]))
  {
    RaggedLines();
    CppTable.RaggedRows();
    ReadRowIsIntRow("1 2");
    ReadRowIsIntRow("3 4 5");
    ReadRowIsIntRow("1");
    CppTable.ThreeRows("1 2", "3 4 5", "1", [1, 2], [3, 4, 5], [1], ReadRow);
  }
}
