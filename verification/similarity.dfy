/** The day-1 similarity score of 1/1.cc: integers read from the input are
    dealt alternately into two columns, and the score adds, for every value
    of the first column, that value times the number of times it occurs in
    the second column. */
module Similarity {

  /** The stream loop `while (in >> val1 >> val2)`: the values the stream
      delivers are taken two at a time, the first of a pair into column 1
      and the second into column 2; an unpaired last value is dropped. */
  method ReadColumns(vals: seq<int>) returns (column1: seq<int>, column2: seq<int>)
    ensures |column1| == |column2| == |vals| / 2
    ensures forall i :: 0 <= i < |column1| ==> column1[i] == vals[2 * i] && column2[i] == vals[2 * i + 1]
  {
    column1, column2 := [], [];
    var pos := 0;
    while pos + 1 < |vals|
      invariant pos == 2 * |column1| && |column1| == |column2|
      invariant pos <= |vals|
      invariant forall i :: 0 <= i < |column1| ==> column1[i] == vals[2 * i] && column2[i] == vals[2 * i + 1]
    {
      column1 := column1 + [vals[pos]];
      column2 := column2 + [vals[pos + 1]];
      pos := pos + 2;
    }
  }

  /** Occurrences of `v` in `column`, counted from the front. */
  function Count(v: int, column: seq<int>): (n: nat)
    ensures n == multiset(column)[v]
  {
    if |column| == 0 then 0
    else
      assert column == [column[0]] + column[1..];
      (if column[0] == v then 1 else 0) + Count(v, column[1..])
  }

  /** The score: every value of `column1`, duplicates included, weighted by
      how often it occurs in `column2`. */
  function Score(column1: seq<int>, column2: seq<int>): int {
    if |column1| == 0 then 0
    else Score(column1[..|column1| - 1], column2) + Weighted(column1[|column1| - 1], column2)
  }

  /** One value's contribution: the value times its count. */
  function Weighted(v: int, column: seq<int>): int {
    v * Count(v, column)
  }

  /** The two nested loops of `main`: for each value of column 1 count its
      matches in column 2 and add the product to the sum. */
  method SimilarityScore(column1: seq<int>, column2: seq<int>) returns (sum: int)
    ensures sum == Score(column1, column2)
  {
    sum := 0;
    var i := 0;
    while i < |column1|
      invariant 0 <= i <= |column1|
      invariant sum == Score(column1[..i], column2)
    {
      var val := column1[i];
      var count := 0;
      var j := 0;
      while j < |column2|
        invariant 0 <= j <= |column2|
        invariant count == multiset(column2[..j])[val]
      {
        assert column2[..j + 1] == column2[..j] + [column2[j]];
        if val == column2[j] {
          count := count + 1;
        }
        j := j + 1;
      }
      assert column2[..j] == column2;
      assert column1[..i + 1][..i] == column1[..i];
      sum := sum + val * count;
      i := i + 1;
    }
    assert column1[..i] == column1;
  }

  /** A value absent from column 2 adds nothing: when no value is shared
      the score is 0. */
  lemma {:induction false} ScoreWithoutCommonValues(column1: seq<int>, column2: seq<int>)
    requires forall i :: 0 <= i < |column1| ==> column1[i] !in column2
    ensures Score(column1, column2) == 0
  {
    if |column1| > 0 {
      var init := column1[..|column1| - 1];
      assert forall i :: 0 <= i < |init| ==> init[i] == column1[i];
      ScoreWithoutCommonValues(init, column2);
      assert multiset(column2)[column1[|column1| - 1]] == 0;
    }
  }

  /** Appending to the second column adds the new value once for every
      time it occurs in the first. */
  lemma {:induction false} ScoreAppendSecond(column1: seq<int>, column2: seq<int>, x: int)
    ensures Score(column1, column2 + [x]) == Score(column1, column2) + Weighted(x, column1)
  {
    if |column1| > 0 {
      var init := column1[..|column1| - 1];
      var last := column1[|column1| - 1];
      ScoreAppendSecond(init, column2, x);
      assert column1 == init + [last];
      WeightedAppend(x, init, last);
      WeightedAppend(last, column2, x);
    }
  }

  /** A value's contribution grows by the value when it is appended. */
  lemma WeightedAppend(v: int, column: seq<int>, x: int)
    ensures Weighted(v, column + [x]) == Weighted(v, column) + if v == x then v else 0
  {
    CountAppend(v, column, x);
    var c := Count(v, column);
    if v == x {
      MulSucc(v, c);
    }
  }

  lemma MulSucc(v: int, c: int)
    ensures v * (c + 1) == v * c + v
  {
  }

  lemma CountAppend(v: int, column: seq<int>, x: int)
    ensures Count(v, column + [x]) == Count(v, column) + if v == x then 1 else 0
  {
    assert multiset(column + [x]) == multiset(column) + multiset{x};
  }

  /** The score is symmetric: Σ v·count₂(v) over column 1 equals
      Σ v·count₁(v) over column 2, both being Σ v·m₁(v)·m₂(v). */
  lemma {:induction false} ScoreSymmetric(column1: seq<int>, column2: seq<int>)
    ensures Score(column1, column2) == Score(column2, column1)
  {
    if |column1| > 0 {
      var init := column1[..|column1| - 1];
      var last := column1[|column1| - 1];
      ScoreSymmetric(init, column2);
      assert column1 == init + [last];
      ScoreAppendSecond(column2, init, last);
      assert Weighted(last, column2) == last * Count(last, column2);
    } else {
      ScoreWithoutCommonValues(column2, column1);
    }
  }
}
