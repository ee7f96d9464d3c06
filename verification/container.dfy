/** The read-only `Row<T>` and `Table<T>` wrappers of the C++ headers: a row
    is a vector of cells, a table a vector of rows, and rows may differ in
    length. Both are fixed once built. */
module Container {

  datatype Row<T> = Row(data: seq<T>)

  datatype Table<T> = Table(rows: seq<Row<T>>)

  /** `Row::size()`. */
  function RowSize<T>(r: Row<T>): nat {
    |r.data|
  }

  /** `Row::operator[]`; the source does not check the index, so a caller
      must pass one in range. */
  function Cell<T>(r: Row<T>, c: int): T
    requires 0 <= c < RowSize(r)
  {
    r.data[c]
  }

  /** `Table::size()`. */
  function TableSize<T>(t: Table<T>): nat {
    |t.rows|
  }

  /** `Table::operator[]`, unchecked in the source like `Cell`. */
  function RowAt<T>(t: Table<T>, r: int): Row<T>
    requires 0 <= r < TableSize(t)
  {
    t.rows[r]
  }

  /** The cells of every row, read back through the indexing operators. */
  function ToData<T>(t: Table<T>): (d: seq<seq<T>>)
    ensures |d| == TableSize(t)
    ensures forall i :: 0 <= i < |d| ==> |d[i]| == RowSize(RowAt(t, i))
    ensures forall i, j :: 0 <= i < |d| && 0 <= j < |d[i]| ==> d[i][j] == Cell(RowAt(t, i), j)
  {
    seq(|t.rows|, i requires 0 <= i < |t.rows| => t.rows[i].data)
  }

  /** `Table(const std::vector<std::vector<T>>&)`: every inner vector becomes
      one row as it is, so the row count, each row's length and every cell
      are preserved, ragged rows included. */
  function FromData<T>(d: seq<seq<T>>): (t: Table<T>)
    ensures TableSize(t) == |d|
    ensures forall i :: 0 <= i < |d| ==> RowSize(RowAt(t, i)) == |d[i]|
    ensures forall i, j :: 0 <= i < |d| && 0 <= j < |d[i]| ==> Cell(RowAt(t, i), j) == d[i][j]
  {
    Table(seq(|d|, i requires 0 <= i < |d| => Row(d[i])))
  }

  /** Wrapping data and reading it back are inverse. */
  lemma FromDataRoundTrip<T>(d: seq<seq<T>>, t: Table<T>)
    ensures ToData(FromData(d)) == d
    ensures FromData(ToData(t)) == t
  {
    var d' := ToData(FromData(d));
    assert |d'| == |d|;
    forall i | 0 <= i < |d| ensures d'[i] == d[i] { }
    var t' := FromData(ToData(t));
    assert |t'.rows| == |t.rows|;
    forall i | 0 <= i < |t.rows| ensures t'.rows[i] == t.rows[i] { }
  }

  /** Walking a `const_iterator` from `begin()` until it equals `end()`,
      dereferencing and incrementing it: the elements are visited in order,
      exactly as many as there are. A new walk starts again from position 0. */
  method Walk<T>(s: seq<T>) returns (visited: seq<T>, steps: nat)
    ensures visited == s
    ensures steps == |s|
  {
    var it := 0;
    visited := [];
    steps := 0;
    while it != |s|
      invariant 0 <= it <= |s|
      invariant visited == s[..it]
      invariant steps == it
    {
      visited := visited + [s[it]];
      it := it + 1;
      steps := steps + 1;
    }
  }

  /** `Row::begin()` to `Row::end()`: `size()` steps, the `c`-th of them
      reading `operator[](c)`. */
  method TraverseRow<T>(r: Row<T>) returns (visited: seq<T>, steps: nat)
    ensures steps == RowSize(r) && |visited| == steps
    ensures forall c :: 0 <= c < steps ==> visited[c] == Cell(r, c)
  {
    visited, steps := Walk(r.data);
  }

  /** `Table::begin()` to `Table::end()`: `size()` steps, the `i`-th of them
      reading `operator[](i)`, so a range-for over a table built from data
      meets that data's rows in order. */
  method TraverseTable<T>(t: Table<T>) returns (visited: seq<Row<T>>, steps: nat)
    ensures steps == TableSize(t) && |visited| == steps
    ensures forall i :: 0 <= i < steps ==> visited[i] == RowAt(t, i)
    ensures forall i :: 0 <= i < steps ==> visited[i].data == ToData(t)[i]
  {
    visited, steps := Walk(t.rows);
  }
}
