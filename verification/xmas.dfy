/** The day-4 X-MAS count of 4/4.cc: a cell of the character grid is the
    centre of an X-MAS when it holds 'A' and each of its two diagonals reads
    "MAS" one way or the other. The grid is the data of a `Table<char>`, so
    its rows may differ in length. */
module Xmas {

  /** The two ends of a diagonal through an 'A' spell "MAS" or "SAM". */
  predicate MasEnds(x: char, y: char) {
    (x == 'M' && y == 'S') || (x == 'S' && y == 'M')
  }

  /** The cells the two loops visit: at least one cell from every edge of
      the grid and of their own row. */
  predicate Interior(g: seq<seq<char>>, r: int, c: int) {
    1 <= r < |g| - 1 && 1 <= c < |g[r]| - 1
  }

  /** The source reads the four diagonal neighbours of every visited 'A'
      without checking them, so the rows above and below must reach one
      column further. */
  predicate Readable(g: seq<seq<char>>) {
    forall r, c :: 1 <= r < |g| - 1 && 1 <= c < |g[r]| - 1 && g[r][c] == 'A' ==> c + 1 < |g[r - 1]| && c + 1 < |g[r + 1]|
  }

  /** The cell at (r, c) is the centre of an X-MAS. */
  predicate IsXmas(g: seq<seq<char>>, r: int, c: int)
    requires Readable(g) && Interior(g, r, c)
  {
    g[r][c] == 'A' && MasEnds(g[r - 1][c - 1], g[r + 1][c + 1]) && MasEnds(g[r - 1][c + 1], g[r + 1][c - 1])
  }

  /** The X-MAS centres in rows before `rows`. */
  ghost function Centres(g: seq<seq<char>>, rows: int): set<(int, int)>
    requires Readable(g)
  {
    set r, c | 0 <= r < rows && r < |g| && 0 <= c < |g[r]| && Interior(g, r, c) && IsXmas(g, r, c) :: (r, c)
  }

  /** The X-MAS centres of row `r` in columns before `cols`. */
  ghost function RowCentres(g: seq<seq<char>>, r: int, cols: int): set<(int, int)>
    requires Readable(g)
  {
    set c | 0 <= c < cols && 0 <= r < |g| && c < |g[r]| && Interior(g, r, c) && IsXmas(g, r, c) :: (r, c)
  }

  /** All the cells the loops visit. */
  ghost function InteriorCells(g: seq<seq<char>>): set<(int, int)> {
    set r, c | 0 <= r < |g| && 0 <= c < |g[r]| && Interior(g, r, c) :: (r, c)
  }

  lemma RowStart(g: seq<seq<char>>, r: int)
    requires Readable(g)
    ensures RowCentres(g, r, 1) == {}
  {
  }

  /** One more column of a row adds its cell when it is a centre. */
  lemma RowStep(g: seq<seq<char>>, r: int, c: int)
    requires Readable(g) && Interior(g, r, c)
    ensures |RowCentres(g, r, c + 1)| == |RowCentres(g, r, c)| + if IsXmas(g, r, c) then 1 else 0
  {
    var before := RowCentres(g, r, c);
    assert (r, c) !in before;
    if IsXmas(g, r, c) {
      assert RowCentres(g, r, c + 1) == before + {(r, c)};
    } else {
      assert RowCentres(g, r, c + 1) == before;
    }
  }

  lemma FirstRows(g: seq<seq<char>>)
    requires Readable(g)
    ensures Centres(g, 1) == {}
  {
  }

  /** A finished row adds its centres to those of the rows above. */
  lemma RowsStep(g: seq<seq<char>>, r: int, cols: int)
    requires Readable(g)
    requires 1 <= r < |g| - 1 && cols >= |g[r]| - 1
    ensures |Centres(g, r + 1)| == |Centres(g, r)| + |RowCentres(g, r, cols)|
  {
    var above, row := Centres(g, r), RowCentres(g, r, cols);
    assert Centres(g, r + 1) == above + row;
    assert above * row == {};
  }

  /** Rows from the last one on hold no centre. */
  lemma LastRows(g: seq<seq<char>>, rows: int)
    requires Readable(g)
    requires rows >= |g| - 1
    ensures Centres(g, rows) == Centres(g, |g|)
  {
  }

  /** The two loops of `process`: each visited cell holding 'A' is checked
      for both diagonals, and the centres found are counted. */
  method XmasCount(g: seq<seq<char>>) returns (count: nat)
    requires Readable(g)
    ensures count == |Centres(g, |g|)|
  {
    count := 0;
    FirstRows(g);
    var row := 1;
    while row < |g| - 1
      invariant 1 <= row
      invariant count == |Centres(g, row)|
    {
      var col := 1;
      RowStart(g, row);
      while col < |g[row]| - 1
        invariant 1 <= col
        invariant count == |Centres(g, row)| + |RowCentres(g, row, col)|
      {
        RowStep(g, row, col);
        if g[row][col] == 'A' {
          var tl, br := g[row - 1][col - 1], g[row + 1][col + 1];
          var tr, bl := g[row - 1][col + 1], g[row + 1][col - 1];
          var diag1 := (tl == 'M' && br == 'S') || (tl == 'S' && br == 'M');
          var diag2 := (tr == 'M' && bl == 'S') || (tr == 'S' && bl == 'M');
          if diag1 && diag2 {
            count := count + 1;
          }
        }
        col := col + 1;
      }
      RowsStep(g, row, col);
      row := row + 1;
    }
    LastRows(g, row);
  }

  /** A grid of fewer than three rows has no interior and no centre. */
  lemma FewRows(g: seq<seq<char>>)
    requires Readable(g)
    requires |g| < 3
    ensures |Centres(g, |g|)| == 0
  {
    assert Centres(g, |g|) == {};
  }

  /** Every centre is a visited cell, so the count never exceeds their
      number. */
  lemma CountBound(g: seq<seq<char>>)
    requires Readable(g)
    ensures |Centres(g, |g|)| <= |InteriorCells(g)|
  {
    var found, all := Centres(g, |g|), InteriorCells(g);
    assert all == found + (all - found);
    assert found * (all - found) == {};
  }

  /** Only an 'A' can be a centre: a grid whose visited cells hold no 'A'
      counts none. */
  lemma NoCentreWithoutA(g: seq<seq<char>>)
    requires Readable(g)
    requires forall r, c :: 1 <= r < |g| - 1 && 1 <= c < |g[r]| - 1 ==> g[r][c] != 'A'
    ensures |Centres(g, |g|)| == 0
  {
    assert Centres(g, |g|) == {};
  }
}
