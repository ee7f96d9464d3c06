/** The day-3 kernel of 3/3.cc. The source walks `std::sregex_iterator`
    over the pattern `mul\((\d{1,3}),(\d{1,3})\)|do\(\)|don't\(\)`: it finds
    the leftmost match, resumes after its end, and so on. Here the pattern
    is an explicit recognizer tried at each position from left to right.
    The three alternatives begin "mul(", "do()" and "don't()", so at most
    one of them can match at a position, and ECMAScript's first-alternative
    rule never has to choose. A `\d{1,3}` group followed by a non-digit
    delimiter matches exactly when the maximal run of digits there is 1 to
    3 long: backtracking to a shorter run would leave a digit where the
    delimiter must be. */
module MulScanner {
  import opened Wrappers
  import opened Chars
  import opened Decimal

  datatype Instr = Mul(a: nat, b: nat) | Do | Dont

  /** One match of the iterator: the instruction and the text
      `content[start..end]` it was read from. */
  datatype Match = Match(instr: Instr, start: nat, end: nat)

  /** The text starts with "mul(". */
  predicate MulOpen(t: string) {
    |t| >= 4 && t[0] == 'm' && t[1] == 'u' && t[2] == 'l' && t[3] == '('
  }

  /** The text starts with "do()". */
  predicate DoText(t: string) {
    |t| >= 4 && t[0] == 'd' && t[1] == 'o' && t[2] == '(' && t[3] == ')'
  }

  /** The text starts with "don't()". */
  predicate DontText(t: string) {
    |t| >= 7 && t[0] == 'd' && t[1] == 'o' && t[2] == 'n' && t[3] == '\'' && t[4] == 't' && t[5] == '(' && t[6] == ')'
  }

  lemma {:induction false} SmallPow10(n: nat)
    requires n <= 3
    ensures Pow10(n) <= 1000
  {
    if n > 0 {
      SmallPow10(n - 1);
    }
  }

  /** A `(\d{1,3})` group followed by `stop`: the group's value and length. */
  function Operand(u: string, stop: char): (r: Option<(nat, nat)>)
    requires !IsDigit(stop)
    ensures r.Some? ==> 1 <= r.value.1 <= 3 && r.value.1 < |u| && u[r.value.1] == stop
    ensures r.Some? ==> r.value.0 <= 999
  {
    var n := DigitPrefix(u);
    if 1 <= n <= 3 && n < |u| && u[n] == stop then
      ValueBound(u[..n]);
      SmallPow10(n);
      Some((Value(u[..n]), n))
    else None
  }

  /** The rest of `mul\((\d{1,3}),(\d{1,3})\)` once "mul(" has been read:
      the instruction and the length of the text it read. */
  function MulArgs(u: string): (r: Option<(Instr, nat)>)
    ensures r.Some? ==> r.value.0.Mul? && 0 < r.value.1 <= |u|
    ensures r.Some? ==> r.value.0.a <= 999 && r.value.0.b <= 999
  {
    match Operand(u, ',')
    case None => None
    case Some((a, n1)) =>
      var v := u[n1 + 1..];
      match Operand(v, ')')
      case None => None
      case Some((b, n2)) => Some((Mul(a, b), n1 + 1 + n2 + 1))
  }

  /** The pattern tried at the start of `t`: the instruction matched and the
      length of its text, or `None`. Every match starts with 'm' or 'd', and
      `mul` operands are at most 999. */
  function Recognize(t: string): (r: Option<(Instr, nat)>)
    ensures r.Some? ==> 0 < r.value.1 <= |t|
    ensures r.Some? ==> t[0] == 'm' || t[0] == 'd'
    ensures r.Some? && r.value.0.Mul? ==> r.value.0.a <= 999 && r.value.0.b <= 999
  {
    if MulOpen(t) then
      match MulArgs(t[4..])
      case None => None
      case Some((ins, n)) => Some((ins, 4 + n))
    else if DoText(t) then Some((Do, 4))
    else if DontText(t) then Some((Dont, 7))
    else None
  }

  /** What the search needs of a pattern: at the start of a text it gives
      an instruction and the length of the text it read, which is neither
      empty nor longer than the text. */
  ghost predicate Recognizer(rec: string -> Option<(Instr, nat)>) {
    forall t :: rec(t).Some? ==> 0 < rec(t).value.1 <= |t|
  }

  /** Matches found in a suffix, moved to the positions of the whole text. */
  function Shift(ms: seq<Match>, d: nat): (r: seq<Match>)
    ensures |r| == |ms|
    ensures forall k :: 0 <= k < |ms| ==> r[k] == Match(ms[k].instr, ms[k].start + d, ms[k].end + d)
  {
    seq(|ms|, k requires 0 <= k < |ms| => Match(ms[k].instr, ms[k].start + d, ms[k].end + d))
  }

  /** The iterator over `t` with pattern `rec`: where the pattern matches,
      the match is delivered and the search resumes at its end; elsewhere
      the search moves on by one character. Positions count from the start
      of `t`. */
  function ScanWith(rec: string -> Option<(Instr, nat)>, t: string): seq<Match>
    requires Recognizer(rec)
    decreases |t|
  {
    if |t| == 0 then []
    else
      match rec(t)
      case Some((ins, n)) => [Match(ins, 0, n)] + Shift(ScanWith(rec, t[n..]), n)
      case None => Shift(ScanWith(rec, t[1..]), 1)
  }

  function Instrs(ms: seq<Match>): (r: seq<Instr>)
    ensures |r| == |ms|
  {
    seq(|ms|, k requires 0 <= k < |ms| => ms[k].instr)
  }

  lemma ShiftKeepsInstrs(ms: seq<Match>, d: nat)
    ensures Instrs(Shift(ms, d)) == Instrs(ms)
  {
    assert forall k :: 0 <= k < |ms| ==> Instrs(Shift(ms, d))[k] == Instrs(ms)[k];
  }

  /** Each match is the pattern's match at its start, inside `t`. */
  ghost predicate Faithful(rec: string -> Option<(Instr, nat)>, t: string, ms: seq<Match>) {
    forall k :: 0 <= k < |ms| ==>
      ms[k].start < ms[k].end <= |t| && rec(t[ms[k].start..]) == Some((ms[k].instr, ms[k].end - ms[k].start))
  }

  /** The matches come left to right and do not overlap. */
  predicate Ordered(ms: seq<Match>) {
    forall k :: 0 <= k < |ms| - 1 ==> ms[k].end <= ms[k + 1].start
  }

  lemma ShiftFaithful(rec: string -> Option<(Instr, nat)>, t: string, n: nat, ms: seq<Match>)
    requires n <= |t|
    requires Faithful(rec, t[n..], ms)
    ensures Faithful(rec, t, Shift(ms, n))
  {
    forall k | 0 <= k < |ms|
      ensures t[n..][ms[k].start..] == t[ms[k].start + n..]
    {
    }
  }

  /** One step of the search where the pattern does not match at the start. */
  lemma ScanMiss(rec: string -> Option<(Instr, nat)>, t: string)
    requires Recognizer(rec)
    requires |t| > 0 && rec(t).None?
    ensures ScanWith(rec, t) == Shift(ScanWith(rec, t[1..]), 1)
  {
  }

  /** One step of the search where the pattern matches at the start. */
  lemma ScanHitAt(rec: string -> Option<(Instr, nat)>, t: string, ins: Instr, n: nat)
    requires Recognizer(rec)
    requires rec(t) == Some((ins, n))
    ensures ScanWith(rec, t) == [Match(ins, 0, n)] + Shift(ScanWith(rec, t[n..]), n)
  {
  }

  lemma ConsFaithful(rec: string -> Option<(Instr, nat)>, t: string, m: Match, ms: seq<Match>)
    requires m.start < m.end <= |t| && rec(t[m.start..]) == Some((m.instr, m.end - m.start))
    requires Faithful(rec, t, ms)
    ensures Faithful(rec, t, [m] + ms)
  {
    assert forall k :: 1 <= k < |ms| + 1 ==> ([m] + ms)[k] == ms[k - 1];
  }

  /** Every match delivered is the pattern's match at its start, inside the
      text. */
  lemma {:induction false} ScanFaithful(rec: string -> Option<(Instr, nat)>, t: string)
    requires Recognizer(rec)
    ensures Faithful(rec, t, ScanWith(rec, t))
    decreases |t|
  {
    if |t| > 0 {
      var r := rec(t);
      if r.Some? {
        var n := r.value.1;
        ScanHitAt(rec, t, r.value.0, n);
        ScanFaithful(rec, t[n..]);
        ShiftFaithful(rec, t, n, ScanWith(rec, t[n..]));
        assert t[0..] == t;
        ConsFaithful(rec, t, Match(r.value.0, 0, n), Shift(ScanWith(rec, t[n..]), n));
      } else {
        ScanMiss(rec, t);
        ScanFaithful(rec, t[1..]);
        ShiftFaithful(rec, t, 1, ScanWith(rec, t[1..]));
      }
    }
  }

  lemma ConsOrdered(m: Match, ms: seq<Match>)
    requires Ordered(ms)
    requires |ms| > 0 ==> m.end <= ms[0].start
    ensures Ordered([m] + ms)
  {
    assert forall k :: 1 <= k < |ms| + 1 ==> ([m] + ms)[k] == ms[k - 1];
  }

  /** The matches come left to right without overlapping. */
  lemma {:induction false} ScanOrdered(rec: string -> Option<(Instr, nat)>, t: string)
    requires Recognizer(rec)
    ensures Ordered(ScanWith(rec, t))
    decreases |t|
  {
    if |t| > 0 {
      var r := rec(t);
      if r.Some? {
        var n := r.value.1;
        ScanHitAt(rec, t, r.value.0, n);
        ScanOrdered(rec, t[n..]);
        ConsOrdered(Match(r.value.0, 0, n), Shift(ScanWith(rec, t[n..]), n));
      } else {
        ScanMiss(rec, t);
        ScanOrdered(rec, t[1..]);
      }
    }
  }

  /** Some match spans position `p`. */
  predicate Covered(ms: seq<Match>, p: nat) {
    exists k :: 0 <= k < |ms| && ms[k].start <= p < ms[k].end
  }

  lemma ShiftCovered(ms: seq<Match>, d: nat, p: nat)
    requires Covered(ms, p)
    ensures Covered(Shift(ms, d), p + d)
  {
    var k :| 0 <= k < |ms| && ms[k].start <= p < ms[k].end;
    assert Shift(ms, d)[k].start <= p + d < Shift(ms, d)[k].end;
  }

  lemma ConsCovered(m: Match, ms: seq<Match>, p: nat)
    requires Covered(ms, p)
    ensures Covered([m] + ms, p)
  {
    var k :| 0 <= k < |ms| && ms[k].start <= p < ms[k].end;
    assert ([m] + ms)[k + 1] == ms[k];
  }

  /** Nothing is missed: every position where the pattern matches lies
      within a delivered match (it is a match's start, or it is hidden inside
      an earlier match, which the search steps over). */
  lemma {:induction false} ScanCovers(rec: string -> Option<(Instr, nat)>, t: string, p: nat)
    requires Recognizer(rec)
    requires p < |t| && rec(t[p..]).Some?
    ensures Covered(ScanWith(rec, t), p)
    decreases |t|
  {
    var r := rec(t);
    if r.Some? {
      var n := r.value.1;
      ScanHitAt(rec, t, r.value.0, n);
      var ms := ScanWith(rec, t);
      if p < n {
        assert ms[0].start <= p < ms[0].end;
      } else {
        assert t[n..][p - n..] == t[p..];
        ScanCovers(rec, t[n..], p - n);
        ShiftCovered(ScanWith(rec, t[n..]), n, p - n);
        ConsCovered(ms[0], Shift(ScanWith(rec, t[n..]), n), p);
      }
    } else {
      ScanMiss(rec, t);
      assert t[0..] == t;
      assert t[1..][p - 1..] == t[p..];
      ScanCovers(rec, t[1..], p - 1);
      ShiftCovered(ScanWith(rec, t[1..]), 1, p - 1);
    }
  }

  /** `Recognize` is a pattern the search can use. */
  lemma RecognizeIsRecognizer()
    ensures Recognizer(Recognize)
  {
  }

  /** The instructions the iterator of `process` delivers over the whole
      content, in order. */
  function Scan(content: string): seq<Instr> {
    Instrs(ScanWith(Recognize, content))
  }

  /** The enable flag after the instructions `p`: true at the start, set by
      `do()`, cleared by `don't()`, left alone by `mul`. */
  function EnabledAfter(p: seq<Instr>): bool {
    if |p| == 0 then true
    else
      match p[|p| - 1]
      case Do => true
      case Dont => false
      case Mul(_, _) => EnabledAfter(p[..|p| - 1])
  }

  /** The operand pairs of the `mul` instructions met while the flag is set,
      in order. */
  function EnabledPairs(p: seq<Instr>): seq<(nat, nat)> {
    if |p| == 0 then []
    else
      var init := p[..|p| - 1];
      match p[|p| - 1]
      case Mul(a, b) => EnabledPairs(init) + (if EnabledAfter(init) then [(a, b)] else [])
      case _ => EnabledPairs(init)
  }

  /** The sum of the products of the pairs. */
  function SumProducts(pairs: seq<(nat, nat)>): int {
    if |pairs| == 0 then 0
    else SumProducts(pairs[..|pairs| - 1]) + pairs[|pairs| - 1].0 * pairs[|pairs| - 1].1
  }

  /** The loop over the matches in `process`: `do()` sets the flag,
      `don't()` clears it, and a `mul` met while it is set contributes its
      operand pair. */
  method CollectPairs(instrs: seq<Instr>) returns (pairs: seq<(nat, nat)>)
    ensures pairs == EnabledPairs(instrs)
  {
    pairs := [];
    var enabled := true;
    var k := 0;
    while k < |instrs|
      invariant 0 <= k <= |instrs|
      invariant enabled == EnabledAfter(instrs[..k])
      invariant pairs == EnabledPairs(instrs[..k])
    {
      assert instrs[..k + 1][..k] == instrs[..k];
      match instrs[k] {
        case Do =>
          enabled := true;
        case Dont =>
          enabled := false;
        case Mul(a, b) =>
          if enabled {
            pairs := pairs + [(a, b)];
          }
      }
      k := k + 1;
    }
    assert instrs[..k] == instrs;
  }

  /** The final loop of `process`: the sum of the products of the pairs. */
  method SumOfProducts(pairs: seq<(nat, nat)>) returns (sum: int)
    ensures sum == SumProducts(pairs)
  {
    sum := 0;
    var j := 0;
    while j < |pairs|
      invariant 0 <= j <= |pairs|
      invariant sum == SumProducts(pairs[..j])
    {
      assert pairs[..j + 1][..j] == pairs[..j];
      sum := sum + pairs[j].0 * pairs[j].1;
      j := j + 1;
    }
    assert pairs[..j] == pairs;
  }

  /** `process`: scan the content, collect the enabled `mul` operand pairs,
      and add up their products. */
  method Process(content: string) returns (sum: int)
    ensures sum == SumProducts(EnabledPairs(Scan(content)))
  {
    RecognizeIsRecognizer();
    var matches := ScanWith(Recognize, content);
    var pairs := CollectPairs(Instrs(matches));
    sum := SumOfProducts(pairs);
  }

  /** `do()` and `don't()` add nothing to the sum themselves. */
  lemma TogglesAddNothing(p: seq<Instr>, t: Instr)
    requires !t.Mul?
    ensures EnabledPairs(p + [t]) == EnabledPairs(p)
    ensures EnabledAfter(p + [t]) == t.Do?
  {
    assert (p + [t])[..|p|] == p;
  }

  /** After `don't()`, no `mul` counts until the next `do()`. */
  lemma {:induction false} DisabledUntilDo(p: seq<Instr>, q: seq<Instr>)
    requires forall k :: 0 <= k < |q| ==> q[k] != Do
    ensures EnabledPairs(p + [Dont] + q) == EnabledPairs(p)
    ensures !EnabledAfter(p + [Dont] + q)
    decreases |q|
  {
    var s := p + [Dont] + q;
    if |q| == 0 {
      assert s[..|s| - 1] == p;
    } else {
      var init := q[..|q| - 1];
      assert s[..|s| - 1] == p + [Dont] + init;
      DisabledUntilDo(p, init);
    }
  }

  /** Without any `don't()`, every `mul` counts. */
  lemma {:induction false} AllEnabledWithoutDont(p: seq<Instr>)
    requires forall k :: 0 <= k < |p| ==> p[k] != Dont
    ensures EnabledAfter(p)
    ensures |EnabledPairs(p)| == |set k | 0 <= k < |p| && p[k].Mul?|
  {
    if |p| > 0 {
      var init := p[..|p| - 1];
      AllEnabledWithoutDont(init);
      var before := set k | 0 <= k < |init| && init[k].Mul?;
      var after := set k | 0 <= k < |p| && p[k].Mul?;
      if p[|p| - 1].Mul? {
        assert after == before + {|p| - 1};
      } else {
        assert after == before;
      }
    }
  }

  /** A `mul` with operands of 1 to 3 digits. */
  predicate Writable(x: Instr) {
    x.Mul? ==> x.a <= 999 && x.b <= 999
  }

  /** The text of an instruction, operands without leading zeros. */
  function Text(x: Instr): (t: string)
    requires Writable(x)
    ensures |t| > 0
  {
    match x
    case Mul(a, b) => "mul(" + ArgsText(a, b)
    case Do => "do()"
    case Dont => "don't()"
  }

  /** The arguments of a `mul` as written after "mul(". */
  function ArgsText(a: nat, b: nat): string {
    Digits(a) + "," + Digits(b) + ")"
  }

  /** A `\d{1,3}` group cannot take four digits or more: a `mul` whose first
      operand is longer is not matched. */
  lemma LongOperandRejected(u: string)
    requires DigitPrefix(u) > 3
    ensures MulArgs(u) == None
    ensures Recognize("mul(" + u) == None
  {
    var t := "mul(" + u;
    assert t[4..] == u;
    assert MulOpen(t);
  }

  lemma Pow10Three()
    ensures Pow10(3) == 1000
  {
  }

  /** An operand written without leading zeros is read back whole. */
  lemma OperandOfDigits(a: nat, stop: char, rest: string)
    requires a <= 999 && !IsDigit(stop)
    ensures Operand(Digits(a) + ([stop] + rest), stop) == Some((a, |Digits(a)|))
  {
    var d := Digits(a);
    Pow10Three();
    DigitsLength(a, 3);
    ValueOfDigits(a);
    DigitPrefixOfDigits(d, [stop] + rest);
    assert (d + ([stop] + rest))[|d|] == stop;
  }

  lemma ArgsShape(x: string, y: string, rest: string)
    ensures x + "," + y + ")" + rest == x + ([','] + (y + ([')'] + rest)))
  {
  }

  lemma AfterSeparator(d: string, c: char, v: string)
    ensures (d + ([c] + v))[|d| + 1..] == v
  {
  }

  /** The arguments of a `mul` are read as two operands in a row. */
  lemma MulArgsOfOperands(u: string, a: nat, n1: nat, v: string, b: nat, n2: nat)
    requires Operand(u, ',') == Some((a, n1))
    requires n1 < |u| && v == u[n1 + 1..] && Operand(v, ')') == Some((b, n2))
    ensures MulArgs(u) == Some((Mul(a, b), n1 + 1 + n2 + 1))
  {
  }

  lemma MulArgsOfDigits(a: nat, b: nat, rest: string)
    requires a <= 999 && b <= 999
    ensures MulArgs(ArgsText(a, b) + rest) == Some((Mul(a, b), |ArgsText(a, b)|))
  {
    var da, db := Digits(a), Digits(b);
    var v := db + ([')'] + rest);
    var u := da + ([','] + v);
    ArgsShape(da, db, rest);
    AfterSeparator(da, ',', v);
    OperandOfDigits(a, ',', v);
    OperandOfDigits(b, ')', rest);
    MulArgsOfOperands(u, a, |da|, v, b, |db|);
  }

  /** The text of a `mul` is "mul(" followed by its arguments. */
  lemma MulTextShape(a: nat, b: nat, rest: string)
    requires a <= 999 && b <= 999
    ensures Text(Mul(a, b)) + rest == "mul(" + (ArgsText(a, b) + rest)
    ensures |Text(Mul(a, b))| == 4 + |ArgsText(a, b)|
  {
  }

  lemma RecognizeOfMulArgs(u: string, ins: Instr, n: nat)
    requires MulArgs(u) == Some((ins, n))
    ensures Recognize("mul(" + u) == Some((ins, 4 + n))
  {
    var t := "mul(" + u;
    assert t[4..] == u;
    assert MulOpen(t);
  }

  lemma RecognizeMulText(a: nat, b: nat, rest: string)
    requires a <= 999 && b <= 999
    ensures Recognize(Text(Mul(a, b)) + rest) == Some((Mul(a, b), |Text(Mul(a, b))|))
  {
    MulArgsOfDigits(a, b, rest);
    MulTextShape(a, b, rest);
    RecognizeShifted(Text(Mul(a, b)), rest, ArgsText(a, b) + rest, Mul(a, b), |ArgsText(a, b)|);
  }

  /** Text that is "mul(" followed by matched arguments is recognized. */
  lemma RecognizeShifted(t: string, rest: string, u: string, ins: Instr, n: nat)
    requires t + rest == "mul(" + u && |t| == 4 + n
    requires MulArgs(u) == Some((ins, n))
    ensures Recognize(t + rest) == Some((ins, |t|))
  {
    RecognizeOfMulArgs(u, ins, n);
  }

  /** The pattern reads an instruction's text back, whatever follows it. */
  lemma RecognizeText(x: Instr, rest: string)
    requires Writable(x)
    ensures Recognize(Text(x) + rest) == Some((x, |Text(x)|))
  {
    var t := Text(x) + rest;
    match x
    case Mul(a, b) =>
      RecognizeMulText(a, b, rest);
    case Do =>
      assert !MulOpen(t) && DoText(t);
    case Dont =>
      assert !MulOpen(t) && !DoText(t) && DontText(t);
  }

  /** Instructions written out one after another, with nothing between. */
  function ProgramText(xs: seq<Instr>): string
    requires forall k :: 0 <= k < |xs| ==> Writable(xs[k])
  {
    if |xs| == 0 then [] else Text(xs[0]) + ProgramText(xs[1..])
  }

  lemma InstrsCons(m: Match, ms: seq<Match>)
    ensures Instrs([m] + ms) == [m.instr] + Instrs(ms)
  {
    assert forall k :: 1 <= k < |ms| + 1 ==> ([m] + ms)[k] == ms[k - 1];
  }

  /** An instruction's text is scanned as that instruction, and the scan
      carries on with whatever follows it. */
  lemma ScanTextThen(x: Instr, rest: string)
    requires Writable(x)
    ensures Scan(Text(x) + rest) == [x] + Scan(rest)
  {
    var t := Text(x);
    var s := t + rest;
    RecognizeText(x, rest);
    RecognizeIsRecognizer();
    ScanHitAt(Recognize, s, x, |t|);
    assert s[|t|..] == rest;
    ShiftKeepsInstrs(ScanWith(Recognize, rest), |t|);
    InstrsCons(Match(x, 0, |t|), Shift(ScanWith(Recognize, rest), |t|));
  }

  /** Writing instructions out and scanning the text gives them back. */
  lemma {:induction false} ScanProgramText(xs: seq<Instr>)
    requires forall k :: 0 <= k < |xs| ==> Writable(xs[k])
    ensures Scan(ProgramText(xs)) == xs
  {
    if |xs| > 0 {
      ScanTextThen(xs[0], ProgramText(xs[1..]));
      ScanProgramText(xs[1..]);
    }
  }

  /** A character that cannot begin any alternative is skipped. */
  lemma SkipNoise(c: char, s: string)
    requires c != 'm' && c != 'd'
    ensures Scan([c] + s) == Scan(s)
  {
    var t := [c] + s;
    assert t[1..] == s;
    RecognizeIsRecognizer();
    ScanMiss(Recognize, t);
    ShiftKeepsInstrs(ScanWith(Recognize, s), 1);
  }
}
