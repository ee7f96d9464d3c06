/** Splitting text on a single delimiter character, in the two flavours the
    repository uses: C++ `std::getline(stream, piece, d)` called until it fails,
    and Rust `str::split(d)`. */
module Delimited {

  /** Position of the first `d` in `s`, or `|s|` when there is none. */
  function IndexOf(s: string, d: char): (i: nat)
    ensures i <= |s|
    ensures i < |s| ==> s[i] == d
    ensures d !in s[..i]
  {
    if |s| == 0 || s[0] == d then 0
    else
      var i := 1 + IndexOf(s[1..], d);
      assert s[..i] == [s[0]] + s[1..][..i - 1];
      i
  }

  /** Every piece followed by its delimiter: the text a sequence of getline
      pieces was read from, with its last piece terminated. */
  function Unsplit(ps: seq<string>, d: char): string {
    if |ps| == 0 then [] else ps[0] + [d] + Unsplit(ps[1..], d)
  }

  /** `s` with a delimiter appended unless it is empty or already ends in one. */
  function Terminated(s: string, d: char): string {
    if |s| == 0 || s[|s| - 1] == d then s else s + [d]
  }

  /** Pieces joined with one `d` between neighbours (nothing after the last). */
  function JoinWith(ps: seq<string>, d: char): string {
    if |ps| == 0 then []
    else if |ps| == 1 then ps[0]
    else ps[0] + [d] + JoinWith(ps[1..], d)
  }

  /** The pieces that successive `std::getline(stream, piece, d)` calls deliver
      from a stream holding `s`, up to the call that fails. Each delimiter ends
      a piece (so two adjacent delimiters give an empty piece), a last piece
      without a delimiter is still delivered, a trailing delimiter starts no
      further piece, and the empty stream delivers none. */
  function Getline(s: string, d: char): (r: seq<string>)
    ensures forall k :: 0 <= k < |r| ==> d !in r[k]
    ensures |r| == 0 <==> |s| == 0
    decreases |s|
  {
    if |s| == 0 then []
    else
      var i := IndexOf(s, d);
      if i == |s| then
        assert s[..i] == s;
        [s]
      else
        [s[..i]] + Getline(s[i + 1..], d)
  }

  /** What getline reads is all of the text: every piece followed by a
      delimiter rebuilds `s`, with a delimiter appended if `s` did not end in
      one. */
  lemma {:induction false} UnsplitGetline(s: string, d: char)
    ensures Unsplit(Getline(s, d), d) == Terminated(s, d)
    decreases |s|
  {
    if |s| > 0 {
      var i := IndexOf(s, d);
      if i == |s| {
        assert s[..i] == s;
      } else {
        var tail := s[i + 1..];
        UnsplitGetline(tail, d);
        UnsplitCons(s[..i], Getline(tail, d), d);
        TerminatedAfterDelimiter(s, i, d);
      }
    }
  }

  lemma UnsplitCons(p: string, ps: seq<string>, d: char)
    ensures Unsplit([p] + ps, d) == p + [d] + Unsplit(ps, d)
  {
    assert ([p] + ps)[1..] == ps;
  }

  lemma TerminatedAfterDelimiter(s: string, i: nat, d: char)
    requires i < |s| && s[i] == d
    ensures Terminated(s, d) == s[..i] + [d] + Terminated(s[i + 1..], d)
  {
    var tail := s[i + 1..];
    assert s == s[..i] + [d] + tail;
    if |tail| > 0 {
      assert tail[|tail| - 1] == s[|s| - 1];
    }
  }

  /** Rust `str::split(d)`: every delimiter separates two pieces, so there is
      always one piece more than there are delimiters, and joining the pieces
      back gives the text. */
  function SplitAll(s: string, d: char): (r: seq<string>)
    ensures |r| >= 1
    ensures forall k :: 0 <= k < |r| ==> d !in r[k]
    ensures JoinWith(r, d) == s
    decreases |s|
  {
    var i := IndexOf(s, d);
    if i == |s| then
      assert s[..i] == s;
      [s]
    else
      var tail := s[i + 1..];
      assert s == s[..i] + [d] + tail;
      [s[..i]] + SplitAll(tail, d)
  }

  /** Drops the empty strings, keeping the others in order. */
  function DropEmpty(ps: seq<string>): (r: seq<string>)
    ensures |r| <= |ps|
    ensures forall k :: 0 <= k < |r| ==> |r[k]| > 0
  {
    if |ps| == 0 then []
    else (if |ps[0]| == 0 then [] else [ps[0]]) + DropEmpty(ps[1..])
  }

  /** Every kept piece is one of the pieces. */
  lemma {:induction false} DropEmptyMembers(ps: seq<string>)
    ensures forall k :: 0 <= k < |DropEmpty(ps)| ==> DropEmpty(ps)[k] in ps
  {
    if |ps| > 0 {
      DropEmptyMembers(ps[1..]);
      var r, h := DropEmpty(ps), if |ps[0]| == 0 then [] else [ps[0]];
      forall k | 0 <= k < |r| ensures r[k] in ps {
        if k >= |h| {
          assert r[k] == DropEmpty(ps[1..])[k - |h|];
        }
      }
    }
  }

  /** The non-empty getline pieces of `s`: the tokens a delimiter-driven row
      parser keeps. */
  function Fields(s: string, d: char): (r: seq<string>)
    ensures forall k :: 0 <= k < |r| ==> |r[k]| > 0 && d !in r[k]
  {
    var ps := Getline(s, d);
    DropEmptyMembers(ps);
    var r := DropEmpty(ps);
    assert forall k :: 0 <= k < |r| ==> exists j :: 0 <= j < |ps| && ps[j] == r[k];
    r
  }

  /** One trailing carriage return removed, if there is one. */
  function StripCr(p: string): string {
    if |p| > 0 && p[|p| - 1] == '\r' then p[..|p| - 1] else p
  }

  /** Rust `str::lines` (and `BufRead::lines`): the getline pieces of `s` on
      line feeds, where a piece that was ended by a line feed also loses one
      carriage return before it ("\r\n" endings); a last piece without a line
      feed keeps a trailing carriage return. */
  function Lines(s: string): (r: seq<string>)
    ensures |r| == |Getline(s, '\n')|
  {
    var ps := Getline(s, '\n');
    seq(|ps|, i requires 0 <= i < |ps| =>
      if i + 1 < |ps| || s[|s| - 1] == '\n' then StripCr(ps[i]) else ps[i])
  }

  /** A line ended by a line feed loses one carriage return before it, and
      the lines after it are those of the rest of the text. */
  lemma LinesCons(a: string, b: string)
    requires '\n' !in a
    ensures Lines(a + "\n" + b) == [StripCr(a)] + Lines(b)
  {
    var s := a + "\n" + b;
    assert s == a + ['\n'] + b;
    GetlineCons(a, '\n', b);
    LinesShift(s, a, b, Getline(s, '\n'), Getline(b, '\n'));
  }

  /** The first getline piece of `a + [d] + b`, with `d` not in `a`, is `a`. */
  lemma GetlineCons(a: string, d: char, b: string)
    requires d !in a
    ensures Getline(a + [d] + b, d) == [a] + Getline(b, d)
  {
    IndexOfAfterPiece(a, d, b);
  }

  lemma LinesShift(s: string, a: string, b: string, ps: seq<string>, qs: seq<string>)
    requires s == a + ['\n'] + b
    requires ps == Getline(s, '\n') && qs == Getline(b, '\n')
    requires ps == [a] + qs
    ensures Lines(s) == [StripCr(a)] + Lines(b)
  {
    var l, r := Lines(s), [StripCr(a)] + Lines(b);
    forall k | 0 <= k < |l| ensures l[k] == r[k] {
      LinesAt(s, ps, k);
      if k > 0 {
        LinesAt(b, qs, k - 1);
        LastOfAppend(a + ['\n'], b);
      } else {
        LastOfAppend(a, ['\n'] + b);
      }
    }
  }

  /** The `i`-th line: its getline piece, less a carriage return unless it
      is a last piece without a line feed. */
  lemma LinesAt(s: string, ps: seq<string>, i: nat)
    requires ps == Getline(s, '\n') && i < |ps|
    ensures Lines(s)[i] == if i + 1 < |ps| || s[|s| - 1] == '\n' then StripCr(ps[i]) else ps[i]
  {
  }

  lemma LastOfAppend(a: string, b: string)
    requires |b| > 0
    ensures (a + b)[|a + b| - 1] == b[|b| - 1]
  {
  }

  /** A last line without a line feed is kept whole, a trailing carriage
      return included. */
  lemma LinesLast(a: string)
    requires |a| > 0 && '\n' !in a
    ensures Lines(a) == [a]
  {
    assert IndexOf(a, '\n') == |a|;
    assert a[..|a|] == a;
    assert a[|a| - 1] != '\n';
  }

  /** Both rules at once: "a\r\nb\r" reads as the lines "a" and "b\r". */
  lemma LinesCrExample()
    ensures Lines("a\r\nb\r") == ["a", "b\r"]
  {
    var a, b := "a\r", "b\r";
    LinesLast(b);
    LinesCons(a, b);
    assert a + "\n" + b == "a\r\nb\r";
    assert StripCr(a) == a[..1] == "a";
  }

  /** The non-empty lines of `s`, in order. */
  function NonEmptyLines(s: string): (r: seq<string>)
    ensures forall k :: 0 <= k < |r| ==> |r[k]| > 0 && '\n' !in r[k]
  {
    Fields(s, '\n')
  }

  lemma {:induction false} DropEmptyAppend(xs: seq<string>, ys: seq<string>)
    ensures DropEmpty(xs + ys) == DropEmpty(xs) + DropEmpty(ys)
  {
    if |xs| > 0 {
      DropEmptyAppend(xs[1..], ys);
      var h := if |xs[0]| == 0 then [] else [xs[0]];
      assert (xs + ys)[0] == xs[0];
      assert (xs + ys)[1..] == xs[1..] + ys;
      assert DropEmpty(xs) == h + DropEmpty(xs[1..]);
      calc {
        DropEmpty(xs + ys);
        h + DropEmpty(xs[1..] + ys);
        h + (DropEmpty(xs[1..]) + DropEmpty(ys));
        (h + DropEmpty(xs[1..])) + DropEmpty(ys);
      }
    } else {
      assert xs + ys == ys;
    }
  }

  /** One more piece: kept when non-empty, dropped otherwise. */
  lemma DropEmptySnoc(ps: seq<string>, p: string)
    ensures DropEmpty(ps + [p]) == DropEmpty(ps) + (if |p| == 0 then [] else [p])
  {
    DropEmptyAppend(ps, [p]);
    assert DropEmpty([p]) == (if |p| == 0 then [] else [p]);
  }

  /** Dropping empty pieces from a growing prefix. */
  lemma DropEmptyPrefix(ps: seq<string>, i: nat)
    requires i < |ps|
    ensures DropEmpty(ps[..i + 1]) == DropEmpty(ps[..i]) + (if |ps[i]| == 0 then [] else [ps[i]])
    ensures DropEmpty(ps) == DropEmpty(ps[..i + 1]) + DropEmpty(ps[i + 1..])
    ensures DropEmpty(ps[..|ps|]) == DropEmpty(ps)
  {
    assert ps[..i + 1] == ps[..i] + [ps[i]];
    DropEmptySnoc(ps[..i], ps[i]);
    assert ps == ps[..i + 1] + ps[i + 1..];
    DropEmptyAppend(ps[..i + 1], ps[i + 1..]);
    assert ps[..|ps|] == ps;
  }

  lemma DropEmptyKeepsNonEmpty(xs: seq<string>)
    requires forall k :: 0 <= k < |xs| ==> |xs[k]| > 0
    ensures DropEmpty(xs) == xs
  {
  }

  /** Reading a delimiter-free piece followed by the delimiter. */
  lemma {:induction false} IndexOfAfterPiece(p: string, d: char, rest: string)
    requires d !in p
    ensures IndexOf(p + [d] + rest, d) == |p|
    ensures (p + [d] + rest)[..|p|] == p
    ensures (p + [d] + rest)[|p| + 1..] == rest
    decreases |p|
  {
    var s := p + [d] + rest;
    if |p| > 0 {
      assert s[1..] == p[1..] + [d] + rest;
      IndexOfAfterPiece(p[1..], d, rest);
    }
  }

  /** Text appended after the first delimiter does not move it. */
  lemma {:induction false} IndexOfExtended(a: string, d: char, rest: string)
    requires IndexOf(a, d) < |a|
    ensures IndexOf(a + rest, d) == IndexOf(a, d)
    decreases |a|
  {
    if a[0] != d {
      assert (a + rest)[1..] == a[1..] + rest;
      IndexOfExtended(a[1..], d, rest);
    }
  }

  /** A delimiter right after text that does not end in one closes that
      text's last line: the lines of `a + [d] + b` are those of `a`, then
      those of `b`. */
  lemma {:induction false} GetlineAround(a: string, d: char, b: string)
    requires |a| > 0 && a[|a| - 1] != d
    ensures Getline(a + [d] + b, d) == Getline(a, d) + Getline(b, d)
    decreases |a|
  {
    var i := IndexOf(a, d);
    if i == |a| {
      assert a[..i] == a;
      IndexOfAfterPiece(a, d, b);
      GetlineAt(a + [d] + b, d, |a|);
    } else {
      var p, tail := a[..i], a[i + 1..];
      assert i < |a| - 1;
      assert tail[|tail| - 1] == a[|a| - 1];
      GetlineAtDelimiter(a, d, b, i);
      GetlineAround(tail, d, b);
      ConcatAssociates([p], Getline(tail, d), Getline(b, d));
    }
  }

  /** A leading delimiter ends an empty first piece. */
  lemma GetlineLeadingDelimiter(d: char, b: string)
    ensures Getline([d] + b, d) == [[]] + Getline(b, d)
  {
    var s := [d] + b;
    assert IndexOf(s, d) == 0;
    assert s[..0] == [] && s[1..] == b;
  }

  /** getline on the text rebuilt from delimiter-free pieces gives the pieces
      back, empty ones included. */
  lemma {:induction false} GetlineUnsplit(ps: seq<string>, d: char)
    requires forall k :: 0 <= k < |ps| ==> d !in ps[k]
    ensures Getline(Unsplit(ps, d), d) == ps
  {
    if |ps| > 0 {
      var rest := Unsplit(ps[1..], d);
      var s := ps[0] + [d] + rest;
      assert Unsplit(ps, d) == s;
      IndexOfAfterPiece(ps[0], d, rest);
      GetlineUnsplit(ps[1..], d);
      assert Getline(s, d) == [ps[0]] + Getline(rest, d);
    }
  }

  /** `str::split` on the text joined from delimiter-free pieces gives the
      pieces back. */
  lemma {:induction false} SplitAllJoinWith(ps: seq<string>, d: char)
    requires |ps| >= 1
    requires forall k :: 0 <= k < |ps| ==> d !in ps[k]
    ensures SplitAll(JoinWith(ps, d), d) == ps
  {
    if |ps| == 1 {
      assert IndexOf(ps[0], d) == |ps[0]|;
    } else {
      IndexOfAfterPiece(ps[0], d, JoinWith(ps[1..], d));
      SplitAllJoinWith(ps[1..], d);
    }
  }

  /** getline delivers exactly the pieces `str::split` produces, except the
      empty last piece `str::split` adds when the text is empty or ends with
      the delimiter. */
  lemma {:induction false} GetlineIsSplitAllLessTrailingPiece(s: string, d: char)
    ensures |s| == 0 || s[|s| - 1] == d ==> Getline(s, d) + [[]] == SplitAll(s, d)
    ensures |s| > 0 && s[|s| - 1] != d ==> Getline(s, d) == SplitAll(s, d)
    decreases |s|
  {
    if |s| > 0 {
      var i := IndexOf(s, d);
      if i < |s| {
        var tail := s[i + 1..];
        GetlineIsSplitAllLessTrailingPiece(tail, d);
        assert |tail| > 0 ==> tail[|tail| - 1] == s[|s| - 1];
      }
    }
  }

  /** A delimiter splits the fields: those of `a + [d] + b` are those of `a`
      followed by those of `b`. Hence runs of delimiters, and delimiters at
      either end, never produce a field. */
  lemma {:induction false} FieldsAround(a: string, d: char, b: string)
    ensures Fields(a + [d] + b, d) == Fields(a, d) + Fields(b, d)
    decreases |a|
  {
    var s := a + [d] + b;
    if |a| == 0 {
      FieldsAfterDelimiter(d, b);
    } else {
      var i := IndexOf(a, d);
      if i == |a| {
        FieldsAroundToken(a, d, b);
      } else {
        FieldsAround(a[i + 1..], d, b);
        FieldsAroundStep(a, d, b, i);
      }
    }
  }

  /** The inductive step of `FieldsAround`: past the first delimiter of `a`. */
  lemma FieldsAroundStep(a: string, d: char, b: string, i: nat)
    requires i == IndexOf(a, d) < |a|
    requires Fields(a[i + 1..] + [d] + b, d) == Fields(a[i + 1..], d) + Fields(b, d)
    ensures Fields(a + [d] + b, d) == Fields(a, d) + Fields(b, d)
  {
    var p, tail := a[..i], a[i + 1..];
    GetlineAtDelimiter(a, d, b, i);
    FieldsCons(p, Getline(tail + [d] + b, d));
    FieldsCons(p, Getline(tail, d));
    ConcatAssociates(DropEmpty([p]), Fields(tail, d), Fields(b, d));
    calc {
      Fields(a + [d] + b, d);
      DropEmpty([p]) + Fields(tail + [d] + b, d);
      DropEmpty([p]) + (Fields(tail, d) + Fields(b, d));
      (DropEmpty([p]) + Fields(tail, d)) + Fields(b, d);
      Fields(a, d) + Fields(b, d);
    }
  }

  lemma ConcatAssociates<T>(x: seq<T>, y: seq<T>, z: seq<T>)
    ensures x + (y + z) == (x + y) + z
  {
  }

  /** The first delimiter of `a` ends the first piece of `a` and of
      `a + [d] + b` alike. */
  lemma GetlineAtDelimiter(a: string, d: char, b: string, i: nat)
    requires i == IndexOf(a, d) < |a|
    ensures Getline(a + [d] + b, d) == [a[..i]] + Getline(a[i + 1..] + [d] + b, d)
    ensures Getline(a, d) == [a[..i]] + Getline(a[i + 1..], d)
  {
    var s := a + [d] + b;
    GetlineAt(a, d, i);
    AppendedAfterDelimiter(a, d, b, i);
    GetlineAt(s, d, i);
  }

  /** Getline takes the piece before the first delimiter, then reads on. */
  lemma GetlineAt(s: string, d: char, i: nat)
    requires i == IndexOf(s, d) < |s|
    ensures Getline(s, d) == [s[..i]] + Getline(s[i + 1..], d)
  {
  }

  /** Text appended after a delimiter leaves the first delimiter and the piece
      before it alone. */
  lemma AppendedAfterDelimiter(a: string, d: char, b: string, i: nat)
    requires i == IndexOf(a, d) < |a|
    ensures IndexOf(a + [d] + b, d) == i
    ensures (a + [d] + b)[..i] == a[..i]
    ensures (a + [d] + b)[i + 1..] == a[i + 1..] + [d] + b
  {
    IndexOfExtended(a, d, [d] + b);
    assert a + [d] + b == a + ([d] + b);
  }

  lemma FieldsCons(p: string, rest: seq<string>)
    ensures DropEmpty([p] + rest) == DropEmpty([p]) + DropEmpty(rest)
  {
    DropEmptyAppend([p], rest);
  }

  lemma FieldsAfterDelimiter(d: char, b: string)
    ensures Fields([] + [d] + b, d) == Fields([], d) + Fields(b, d)
  {
    var s := [] + [d] + b;
    assert IndexOf(s, d) == 0;
    assert s[1..] == b;
    assert Getline(s, d) == [[]] + Getline(b, d);
    FieldsCons([], Getline(b, d));
  }

  lemma FieldsAroundToken(a: string, d: char, b: string)
    requires |a| > 0 && d !in a
    ensures Fields(a + [d] + b, d) == Fields(a, d) + Fields(b, d)
  {
    IndexOfAfterPiece(a, d, b);
    assert IndexOf(a, d) == |a|;
    assert a[..|a|] == a;
    assert Getline(a + [d] + b, d) == [a] + Getline(b, d);
    FieldsCons(a, Getline(b, d));
  }

  /** A non-empty delimiter-free token is its own single field. */
  lemma FieldsOfToken(t: string, d: char)
    requires |t| > 0 && d !in t
    ensures Fields(t, d) == [t]
  {
    assert IndexOf(t, d) == |t|;
    assert t[..|t|] == t;
  }

  /** Re-serializing tokens with the delimiter and tokenizing again gives the
      same tokens. */
  lemma {:induction false} FieldsJoinWith(ts: seq<string>, d: char)
    requires forall k :: 0 <= k < |ts| ==> |ts[k]| > 0 && d !in ts[k]
    ensures Fields(JoinWith(ts, d), d) == ts
  {
    if |ts| == 1 {
      FieldsOfToken(ts[0], d);
    } else if |ts| > 1 {
      FieldsAround(ts[0], d, JoinWith(ts[1..], d));
      FieldsOfToken(ts[0], d);
      FieldsJoinWith(ts[1..], d);
    }
  }

  /** Text made only of delimiters has no fields. */
  lemma {:induction false} FieldsOfDelimiters(s: string, d: char)
    requires forall k :: 0 <= k < |s| ==> s[k] == d
    ensures Fields(s, d) == []
  {
    if |s| > 0 {
      assert s == [] + [d] + s[1..];
      FieldsAround([], d, s[1..]);
      FieldsOfDelimiters(s[1..], d);
    }
  }
}
