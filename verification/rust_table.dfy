/** The Rust table container of table/table.rs: `TableRow<T>` wraps a vector
    of cells and `Table<T>` a vector of rows. Mutating methods (`push`,
    `add_row`, `insert_row`, `remove_row`, `pop_row`, `clear`) are modelled
    as functions from the old value to the new one, paired with what the
    method returns. Indices are `usize`, hence `nat`. */
module RustTable {
  import opened Wrappers
  import opened Chars
  import opened Delimited
  import opened Whitespace

  datatype TableRow<T> = TableRow(data: seq<T>)

  datatype Table<T> = Table(rows: seq<TableRow<T>>)

  /** `TableRow::len`. */
  function RowLen<T>(r: TableRow<T>): nat {
    |r.data|
  }

  /** `TableRow::is_empty`. */
  predicate RowIsEmpty<T>(r: TableRow<T>) {
    RowLen(r) == 0
  }

  /** `TableRow::get`: the element when the index is in range, `None`
      otherwise. */
  function RowGet<T>(r: TableRow<T>, index: nat): (v: Option<T>)
    ensures v.Some? <==> index < RowLen(r)
    ensures v.Some? ==> v.value == r.data[index]
  {
    if index < |r.data| then Some(r.data[index]) else None
  }

  /** `TableRow` indexing (`row[i]`), which panics out of range. */
  function RowIndex<T>(r: TableRow<T>, index: nat): (v: T)
    requires index < RowLen(r)
    ensures RowGet(r, index) == Some(v)
  {
    r.data[index]
  }

  /** `TableRow::push`: one element longer, the new element last, earlier
      elements unchanged. */
  function RowPush<T>(r: TableRow<T>, item: T): (r': TableRow<T>)
    ensures RowLen(r') == RowLen(r) + 1
    ensures RowGet(r', RowLen(r)) == Some(item)
    ensures forall i :: 0 <= i < RowLen(r) ==> RowGet(r', i) == RowGet(r, i)
    ensures !RowIsEmpty(r')
  {
    TableRow(r.data + [item])
  }

  /** `Table::row_count` (and its alias `Table::len`). */
  function RowCount<T>(t: Table<T>): nat {
    |t.rows|
  }

  /** `Table::is_empty`. */
  predicate IsEmpty<T>(t: Table<T>) {
    RowCount(t) == 0
  }

  /** `Table::column_count`: the length of the first row, 0 for a table
      without rows; later rows are not looked at. */
  function ColumnCount<T>(t: Table<T>): (n: nat)
    ensures IsEmpty(t) ==> n == 0
    ensures !IsEmpty(t) ==> n == RowLen(t.rows[0])
  {
    if |t.rows| == 0 then 0 else |t.rows[0].data|
  }

  /** `Table::get_row`. */
  function GetRow<T>(t: Table<T>, index: nat): (r: Option<TableRow<T>>)
    ensures r.Some? <==> index < RowCount(t)
    ensures r.Some? ==> r.value == t.rows[index]
  {
    if index < |t.rows| then Some(t.rows[index]) else None
  }

  /** `Table` indexing (`table[i]`), which panics out of range. */
  function TableIndex<T>(t: Table<T>, index: nat): (r: TableRow<T>)
    requires index < RowCount(t)
    ensures GetRow(t, index) == Some(r)
  {
    t.rows[index]
  }

  /** `Table::get(row, col)`: `Some` exactly when both indices are in range. */
  function Get<T>(t: Table<T>, row: nat, col: nat): (v: Option<T>)
    ensures v.Some? <==> row < RowCount(t) && col < RowLen(t.rows[row])
    ensures v.Some? ==> v.value == t.rows[row].data[col]
  {
    match GetRow(t, row)
    case None => None
    case Some(r) => RowGet(r, col)
  }

  /** `Table::add_row`: one row more, the new row last, earlier rows
      unchanged. */
  function AddRow<T>(t: Table<T>, row: TableRow<T>): (t': Table<T>)
    ensures RowCount(t') == RowCount(t) + 1
    ensures GetRow(t', RowCount(t)) == Some(row)
    ensures forall i :: 0 <= i < RowCount(t) ==> GetRow(t', i) == GetRow(t, i)
  {
    Table(t.rows + [row])
  }

  /** `Table::pop_row`: the last row and the table without it, or `None` and
      the table unchanged when there are no rows. */
  function PopRow<T>(t: Table<T>): (p: (Table<T>, Option<TableRow<T>>))
    ensures IsEmpty(t) ==> p == (t, None)
    ensures !IsEmpty(t) ==> RowCount(p.0) == RowCount(t) - 1 && p.1 == Some(t.rows[RowCount(t) - 1])
    ensures forall i :: 0 <= i < RowCount(p.0) ==> p.0.rows[i] == t.rows[i]
  {
    if |t.rows| == 0 then (t, None)
    else (Table(t.rows[..|t.rows| - 1]), Some(t.rows[|t.rows| - 1]))
  }

  /** `Table::insert_row(index, row)`, which panics unless
      `index <= row_count()`: the row lands at `index` and the rows from
      there on move one place right. */
  function InsertRow<T>(t: Table<T>, index: nat, row: TableRow<T>): (t': Table<T>)
    requires index <= RowCount(t)
    ensures RowCount(t') == RowCount(t) + 1
    ensures t'.rows[index] == row
    ensures forall i :: 0 <= i < index ==> t'.rows[i] == t.rows[i]
    ensures forall i :: index < i < RowCount(t') ==> t'.rows[i] == t.rows[i - 1]
  {
    Table(t.rows[..index] + [row] + t.rows[index..])
  }

  /** `Table::remove_row(index)`, which panics unless `index < row_count()`:
      the row at `index` is returned and the rows after it move one place
      left. */
  function RemoveRow<T>(t: Table<T>, index: nat): (p: (Table<T>, TableRow<T>))
    requires index < RowCount(t)
    ensures RowCount(p.0) == RowCount(t) - 1
    ensures p.1 == t.rows[index]
    ensures forall i :: 0 <= i < index ==> p.0.rows[i] == t.rows[i]
    ensures forall i :: index <= i < RowCount(p.0) ==> p.0.rows[i] == t.rows[i + 1]
  {
    (Table(t.rows[..index] + t.rows[index + 1..]), t.rows[index])
  }

  /** `Table::clear`. */
  function Clear<T>(t: Table<T>): (t': Table<T>)
    ensures IsEmpty(t') && ColumnCount(t') == 0
    ensures GetRow(t', 0) == None
  {
    Table([])
  }

  /** Removing the row just inserted gives it back and restores the table. */
  lemma RemoveAfterInsert<T>(t: Table<T>, index: nat, row: TableRow<T>)
    requires index <= RowCount(t)
    ensures RemoveRow(InsertRow(t, index, row), index) == (t, row)
  {
    var t' := InsertRow(t, index, row);
    var (u, r) := RemoveRow(t', index);
    assert u.rows == t.rows;
  }

  /** Inserting a removed row at its old place restores the table. */
  lemma InsertAfterRemove<T>(t: Table<T>, index: nat)
    requires index < RowCount(t)
    ensures InsertRow(RemoveRow(t, index).0, index, RemoveRow(t, index).1) == t
  {
    var (u, r) := RemoveRow(t, index);
    assert InsertRow(u, index, r).rows == t.rows;
  }

  /** Popping right after adding gives back the added row and the table
      before it. */
  lemma PopAfterAdd<T>(t: Table<T>, row: TableRow<T>)
    ensures PopRow(AddRow(t, row)) == (t, Some(row))
  {
    assert (t.rows + [row])[..|t.rows|] == t.rows;
  }

  /** Adding the popped row back restores a table that had rows. */
  lemma AddAfterPop<T>(t: Table<T>)
    requires !IsEmpty(t)
    ensures AddRow(PopRow(t).0, PopRow(t).1.value) == t
  {
    assert t.rows[..|t.rows| - 1] + [t.rows[|t.rows| - 1]] == t.rows;
  }

  /** `insert_row` at the end is `add_row`. */
  lemma InsertAtEndIsAdd<T>(t: Table<T>, row: TableRow<T>)
    ensures InsertRow(t, RowCount(t), row) == AddRow(t, row)
  {
    assert t.rows[..|t.rows|] == t.rows;
  }

  /** `column_count` follows the first row only: adding a row changes it
      only when the table had none. */
  lemma ColumnCountAfterAdd<T>(t: Table<T>, row: TableRow<T>)
    ensures ColumnCount(AddRow(t, row)) == if IsEmpty(t) then RowLen(row) else ColumnCount(t)
  {
  }

  /** Inserting at the front sets `column_count` to the new row's length;
      inserting anywhere else leaves it. */
  lemma ColumnCountAfterInsert<T>(t: Table<T>, index: nat, row: TableRow<T>)
    requires index <= RowCount(t)
    ensures ColumnCount(InsertRow(t, index, row)) == if index == 0 then RowLen(row) else ColumnCount(t)
  {
  }

  /** Removing the first row hands `column_count` to the second row (or 0
      when none is left); removing any other row leaves it. */
  lemma ColumnCountAfterRemove<T>(t: Table<T>, index: nat)
    requires index < RowCount(t)
    ensures ColumnCount(RemoveRow(t, index).0) ==
      if index > 0 then ColumnCount(t) else if RowCount(t) > 1 then RowLen(t.rows[1]) else 0
  {
  }

  /** Popping leaves `column_count` unless it removes the only row. */
  lemma ColumnCountAfterPop<T>(t: Table<T>)
    ensures ColumnCount(PopRow(t).0) == if RowCount(t) > 1 then ColumnCount(t) else 0
  {
  }

  /** The column-count test: 0 for a new table, 3 after adding the row
      ["a", "b", "c"]. */
  lemma ColumnCountExample()
    ensures var empty: Table<string> := Table([]);
      && ColumnCount(empty) == 0
      && ColumnCount(AddRow(empty, TableRow(["a", "b", "c"]))) == 3
  {
    var empty: Table<string> := Table([]);
    ColumnCountAfterAdd(empty, TableRow(["a", "b", "c"]));
  }

  /** The modification test: add [1, 2] and [3, 4], pop [3, 4], insert
      [10, 11] at 0 in front of [1, 2], remove it again, clear. */
  lemma ModificationExample()
    ensures var t1 := AddRow(AddRow(Table([]), TableRow([1, 2])), TableRow([3, 4]));
      var (t2, popped) := PopRow(t1);
      var t3 := InsertRow(t2, 0, TableRow([10, 11]));
      var (t4, removed) := RemoveRow(t3, 0);
      && RowCount(t1) == 2
      && popped == Some(TableRow([3, 4])) && RowCount(t2) == 1
      && RowCount(t3) == 2 && t3.rows == [TableRow([10, 11]), TableRow([1, 2])]
      && removed == TableRow([10, 11]) && t4.rows == [TableRow([1, 2])]
      && IsEmpty(Clear(t4))
  {
    var t0: Table<int> := Table([]);
    PopAfterAdd(AddRow(t0, TableRow([1, 2])), TableRow([3, 4]));
    var t2 := AddRow(t0, TableRow([1, 2]));
    RemoveAfterInsert(t2, 0, TableRow([10, 11]));
  }

  /** `parse_line`: the whitespace-separated tokens of the line, in order;
      tokens are never empty and hold no whitespace, and a line yields none
      exactly when it is all whitespace. */
  function ParseLine(line: string): (r: TableRow<string>)
    ensures forall i :: 0 <= i < RowLen(r) ==> IsWord(r.data[i])
    ensures RowIsEmpty(r) <==> Blank(line)
  {
    WordsEmptyIffBlank(line);
    TableRow(Words(line))
  }

  /** `parse_line_with`: the same tokens, each passed through `parser`. */
  function ParseLineWith<T>(line: string, parser: string -> T): (r: TableRow<T>)
    ensures RowLen(r) == |Words(line)|
    ensures forall i :: 0 <= i < RowLen(r) ==> r.data[i] == parser(ParseLine(line).data[i])
  {
    var ws := Words(line);
    TableRow(seq(|ws|, i requires 0 <= i < |ws| => parser(ws[i])))
  }

  /** The lines of the input that are not all whitespace, in order (the
      filter `!line.trim().is_empty()`). */
  function KeepNonBlank(lines: seq<string>): (r: seq<string>)
    ensures |r| <= |lines|
    ensures forall k :: 0 <= k < |r| ==> !Blank(r[k])
  {
    if |lines| == 0 then []
    else (if Blank(lines[0]) then [] else [lines[0]]) + KeepNonBlank(lines[1..])
  }

  /** `from_string`: one row per line that is not all whitespace, in input
      order, each the line's tokens; no row is empty. */
  function FromString(input: string): (t: Table<string>)
    ensures var ls := KeepNonBlank(Lines(input));
      && RowCount(t) == |ls|
      && forall i :: 0 <= i < |ls| ==> t.rows[i].data == Words(ls[i]) && !RowIsEmpty(t.rows[i])
  {
    var ls := KeepNonBlank(Lines(input));
    Table(seq(|ls|, i requires 0 <= i < |ls| => ParseLine(ls[i])))
  }

  /** `from_string_with`: the same rows, every token passed through
      `parser`. */
  function FromStringWith<T>(input: string, parser: string -> T): (t: Table<T>)
    ensures var ls := KeepNonBlank(Lines(input));
      && RowCount(t) == |ls|
      && forall i :: 0 <= i < |ls| ==> t.rows[i] == ParseLineWith(ls[i], parser) && !RowIsEmpty(t.rows[i])
  {
    var ls := KeepNonBlank(Lines(input));
    forall i | 0 <= i < |ls| ensures |Words(ls[i])| > 0 {
      WordsEmptyIffBlank(ls[i]);
    }
    Table(seq(|ls|, i requires 0 <= i < |ls| => ParseLineWith(ls[i], parser)))
  }

  /** `parse_line` is `parse_line_with` with the identity conversion (the
      source's `to_string`), and so is `from_string`. */
  lemma FromStringIsWithIdentity(input: string)
    ensures FromString(input) == FromStringWith(input, (s: string) => s)
  {
    var ls := KeepNonBlank(Lines(input));
    var a := FromString(input);
    var b := FromStringWith(input, (s: string) => s);
    forall i | 0 <= i < |ls| ensures a.rows[i] == b.rows[i] {
      assert a.rows[i].data == b.rows[i].data;
    }
    assert a.rows == b.rows;
  }

  /** Tokens joined by single spaces tokenize back to themselves; padding
      on either side changes nothing. */
  lemma ParseLineRoundTrip(ws: seq<string>, p: string, q: string)
    requires forall k :: 0 <= k < |ws| ==> IsWord(ws[k])
    requires Blank(p) && Blank(q)
    ensures ParseLine(p + JoinWith(ws, ' ') + q).data == ws
  {
    WordsIgnorePadding(p, JoinWith(ws, ' '), q);
    WordsJoinWith(ws);
  }

  /** Every getline piece of all-whitespace text is all whitespace. */
  lemma {:induction false} GetlineOfBlank(s: string, d: char)
    requires Blank(s)
    ensures forall k :: 0 <= k < |Getline(s, d)| ==> Blank(Getline(s, d)[k])
    decreases |s|
  {
    if |s| > 0 {
      var i := IndexOf(s, d);
      if i < |s| {
        BlankSlices(s, i);
        GetlineOfBlank(s[i + 1..], d);
        BlankPieces(s, d, i, Getline(s[i + 1..], d));
      } else {
        assert s[..i] == s;
      }
    }
  }

  /** Both sides of a position of all-whitespace text are all whitespace. */
  lemma BlankSlices(s: string, i: nat)
    requires Blank(s) && i < |s|
    ensures Blank(s[..i]) && Blank(s[i + 1..])
  {
    var tail := s[i + 1..];
    forall k | 0 <= k < |tail| ensures IsSpace(tail[k]) {
      assert tail[k] == s[i + 1 + k];
    }
  }

  /** The inductive step of `GetlineOfBlank`: a blank first piece in front of
      blank pieces. */
  lemma BlankPieces(s: string, d: char, i: nat, rest: seq<string>)
    requires |s| > 0 && i == IndexOf(s, d) < |s|
    requires Blank(s[..i]) && rest == Getline(s[i + 1..], d)
    requires forall k :: 0 <= k < |rest| ==> Blank(rest[k])
    ensures forall k :: 0 <= k < |Getline(s, d)| ==> Blank(Getline(s, d)[k])
  {
    assert Getline(s, d) == [s[..i]] + rest;
    forall k | 0 <= k < |Getline(s, d)| ensures Blank(Getline(s, d)[k]) {
      if k > 0 {
        assert Getline(s, d)[k] == rest[k - 1];
      }
    }
  }

  lemma {:induction false} KeepNonBlankOfBlank(lines: seq<string>)
    requires forall k :: 0 <= k < |lines| ==> Blank(lines[k])
    ensures KeepNonBlank(lines) == []
  {
    if |lines| > 0 {
      KeepNonBlankOfBlank(lines[1..]);
    }
  }

  /** Text that is all whitespace, "" and "   \n  \n  " among it, gives a
      table without rows. */
  lemma FromStringOfBlank(input: string)
    requires Blank(input)
    ensures IsEmpty(FromString(input))
  {
    GetlineOfBlank(input, '\n');
    var ls := Lines(input);
    forall k | 0 <= k < |ls| ensures Blank(ls[k]) {
      var p := Getline(input, '\n')[k];
      assert Blank(p);
      assert ls[k] == p || ls[k] == p[..|p| - 1];
    }
    KeepNonBlankOfBlank(ls);
  }

  /** The text a table of tokens is written as: tokens joined by spaces,
      rows joined by line feeds. */
  function TableText(cells: seq<seq<string>>): string {
    JoinWith(seq(|cells|, i requires 0 <= i < |cells| => JoinWith(cells[i], ' ')), '\n')
  }

  /** A line of tokens joined by spaces is a space or a token character at
      every position, starts and ends with a token character. */
  lemma {:induction false} JoinedWordsShape(ws: seq<string>)
    requires |ws| >= 1
    requires forall k :: 0 <= k < |ws| ==> IsWord(ws[k])
    ensures var s := JoinWith(ws, ' ');
      && |s| > 0 && !IsSpace(s[0]) && !IsSpace(s[|s| - 1])
      && forall k :: 0 <= k < |s| ==> s[k] == ' ' || !IsSpace(s[k])
  {
    var s := JoinWith(ws, ' ');
    if |ws| > 1 {
      var rest := JoinWith(ws[1..], ' ');
      JoinedWordsShape(ws[1..]);
      assert s == ws[0] + [' '] + rest;
      forall k | 0 <= k < |s| ensures s[k] == ' ' || !IsSpace(s[k]) {
        if k < |ws[0]| {
          assert s[k] == ws[0][k];
        } else if k > |ws[0]| {
          assert s[k] == rest[k - |ws[0]| - 1];
        }
      }
    }
  }

  /** Writing a table of tokens out and reading it with `from_string` gives
      it back, provided every row holds at least one token (an empty row
      would be an empty line, which `from_string` skips). */
  lemma FromStringRoundTrip(cells: seq<seq<string>>)
    requires forall i :: 0 <= i < |cells| ==> |cells[i]| >= 1
    requires forall i, k :: 0 <= i < |cells| && 0 <= k < |cells[i]| ==> IsWord(cells[i][k])
    ensures RowCount(FromString(TableText(cells))) == |cells|
    ensures forall i :: 0 <= i < |cells| ==> FromString(TableText(cells)).rows[i].data == cells[i]
  {
    var ls := seq(|cells|, i requires 0 <= i < |cells| => JoinWith(cells[i], ' '));
    var s := JoinWith(ls, '\n');
    forall i | 0 <= i < |cells|
      ensures |ls[i]| > 0 && !Blank(ls[i]) && '\n' !in ls[i] && ls[i][|ls[i]| - 1] != '\r'
      ensures Words(ls[i]) == cells[i]
    {
      JoinedWordsShape(cells[i]);
      WordsJoinWith(cells[i]);
      assert !IsSpace(ls[i][0]);
    }
    if |cells| == 0 {
      assert Lines(s) == [];
    } else {
      LinesOfJoined(ls);
    }
    KeepNonBlankKeeps(ls);
  }

  /** Lines joined by line feeds, none of them empty or ending in a carriage
      return, read back as the same lines. */
  lemma LinesOfJoined(ls: seq<string>)
    requires |ls| >= 1
    requires forall i :: 0 <= i < |ls| ==> |ls[i]| > 0 && '\n' !in ls[i] && ls[i][|ls[i]| - 1] != '\r'
    ensures Lines(JoinWith(ls, '\n')) == ls
  {
    var s := JoinWith(ls, '\n');
    JoinWithLast(ls, '\n');
    SplitAllJoinWith(ls, '\n');
    GetlineIsSplitAllLessTrailingPiece(s, '\n');
    assert Getline(s, '\n') == ls;
    forall i | 0 <= i < |ls| ensures Lines(s)[i] == ls[i] {
      assert StripCr(ls[i]) == ls[i];
    }
  }

  /** The last character of joined text is that of the last piece, when the
      last piece is non-empty. */
  lemma {:induction false} JoinWithLast(ps: seq<string>, d: char)
    requires |ps| >= 1 && |ps[|ps| - 1]| > 0
    ensures var s := JoinWith(ps, d); |s| > 0 && s[|s| - 1] == ps[|ps| - 1][|ps[|ps| - 1]| - 1]
  {
    if |ps| > 1 {
      JoinWithLast(ps[1..], d);
    }
  }

  lemma {:induction false} KeepNonBlankKeeps(lines: seq<string>)
    requires forall k :: 0 <= k < |lines| ==> !Blank(lines[k])
    ensures KeepNonBlank(lines) == lines
  {
    if |lines| > 0 {
      KeepNonBlankKeeps(lines[1..]);
    }
  }
}
