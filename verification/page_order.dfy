/** The day-5 solver of 5/5.rs: the input holds page-ordering rules `a|b`,
    then a blank line, then updates `p1,p2,...`. An update is valid when it has
    at least two pages and every two neighbouring pages form one of the rules;
    the answer adds up the middle page of every valid update. A line that does
    not parse makes the program panic. */
module PageOrder {
  import opened Wrappers
  import opened Chars
  import opened Decimal
  import opened Delimited
  import opened NumParse

  /** Why `main` panics: an `expect` on a failed parse, or `parts[1]` on a
      rule line without '|'. */
  datatype Panic = ParseFailed | IndexOutOfBounds

  /** What the reading loop collects: the rules before the blank line and
      the updates after it (`tuples` and `vectors` in `main`). */
  datatype Input<R, U> = Input(rules: seq<R>, updates: seq<U>)

  type PageInput = Input<(int, int), seq<int>>

  /** `s.parse::<i32>().expect(..)`. */
  function ParseNumber(s: string): (r: Result<int, Panic>)
    ensures r.Success? ==> ParseI32(s) == Some(r.value)
    ensures r.Failure? ==> ParseI32(s).None? && r.error == ParseFailed
  {
    match ParseI32(s)
    case Some(v) => Success(v)
    case None => Failure(ParseFailed)
  }

  /** A rule line: split on '|', then the pair `(parts[0], parts[1])`,
      evaluated left to right, so a bad first number panics before a missing
      second part does. Parts after the second are ignored. */
  function ParseRule(line: string): (r: Result<(int, int), Panic>)
    ensures r.Success? ==> InInt32(r.value.0) && InInt32(r.value.1) && '|' in line
    ensures r == Failure(IndexOutOfBounds) <==> '|' !in line && ParseI32(line).Some?
  {
    var parts := SplitAll(line, '|');
    SplitAllSingle(line, '|');
    match ParseNumber(parts[0])
    case Failure(e) => Failure(e)
    case Success(a) =>
      if |parts| < 2 then Failure(IndexOutOfBounds)
      else
        match ParseNumber(parts[1])
        case Failure(e) => Failure(e)
        case Success(b) => Success((a, b))
  }

  /** An update line: split on ',' and parse every part. */
  function ParseUpdate(line: string): (r: Result<seq<int>, Panic>)
    ensures r.Success? ==> |r.value| == |SplitAll(line, ',')|
    ensures r.Success? ==> forall k :: 0 <= k < |r.value| ==> InInt32(r.value[k])
    ensures r.Failure? ==> r.error == ParseFailed
  {
    MapResult(SplitAll(line, ','), ParseNumber)
  }

  /** `str::split` yields one piece exactly when the delimiter is absent. */
  lemma SplitAllSingle(s: string, d: char)
    ensures |SplitAll(s, d)| == 1 <==> d !in s
  {
    var ps := SplitAll(s, d);
    if |ps| >= 2 {
      assert s == ps[0] + [d] + JoinWith(ps[1..], d);
      assert s[|ps[0]|] == d;
    }
  }

  /** A rendered number holds neither separator. */
  lemma NoSeparatorIn(v: int, d: char)
    requires d != '-' && !IsDigit(d)
    ensures d !in IntToString(v)
  {
    var s := IntToString(v);
    if v < 0 {
      assert forall k :: 1 <= k < |s| ==> s[k] == Digits(-v)[k - 1];
    }
  }

  /** The text of a rule: the two numbers around '|', followed by any further
      '|'-separated parts. */
  function RuleText(a: int, b: int, more: seq<string>): string {
    JoinWith([IntToString(a), IntToString(b)] + more, '|')
  }

  /** A rule line renders and parses back, whatever follows its second
      number. */
  lemma RuleRoundTrip(a: int, b: int, more: seq<string>)
    requires InInt32(a) && InInt32(b)
    requires forall k :: 0 <= k < |more| ==> '|' !in more[k]
    ensures ParseRule(RuleText(a, b, more)) == Success((a, b))
  {
    var ps := [IntToString(a), IntToString(b)] + more;
    NoSeparatorIn(a, '|');
    NoSeparatorIn(b, '|');
    SplitAllJoinWith(ps, '|');
    ParseI32RoundTrip(a);
    ParseI32RoundTrip(b);
  }

  /** The text of an update. */
  function UpdateText(v: seq<int>): string {
    JoinWith(DecimalStrings(v), ',')
  }

  /** A non-empty update of `i32` pages renders and parses back. */
  lemma UpdateRoundTrip(v: seq<int>)
    requires |v| >= 1
    requires forall k :: 0 <= k < |v| ==> InInt32(v[k])
    ensures ParseUpdate(UpdateText(v)) == Success(v)
  {
    var ps := DecimalStrings(v);
    forall k | 0 <= k < |ps|
      ensures ',' !in ps[k] && ParseNumber(ps[k]) == Success(v[k])
    {
      NoSeparatorIn(v[k], ',');
      ParseI32RoundTrip(v[k]);
    }
    SplitAllJoinWith(ps, ',');
    var r := MapResult(ps, ParseNumber);
    assert r.Success?;
    assert r.value == v;
  }

  /** Index of the first blank line, or the number of lines when there is
      none: the line that ends the rules section. */
  function FirstBlank(ls: seq<string>): (k: nat)
    ensures k <= |ls|
  {
    if |ls| == 0 || |ls[0]| == 0 then 0 else 1 + FirstBlank(ls[1..])
  }

  /** The first blank line is blank, and no line before it is. */
  lemma {:induction false} FirstBlankIsFirst(ls: seq<string>)
    ensures forall j :: 0 <= j < FirstBlank(ls) ==> |ls[j]| > 0
    ensures FirstBlank(ls) < |ls| ==> |ls[FirstBlank(ls)]| == 0
  {
    if |ls| > 0 && |ls[0]| > 0 {
      FirstBlankIsFirst(ls[1..]);
      forall j | 0 <= j < FirstBlank(ls)
        ensures |ls[j]| > 0
      {
        if j > 0 {
          assert ls[j] == ls[1..][j - 1];
        }
      }
    }
  }

  /** Those two facts pin the first blank line down. */
  lemma {:induction false} FirstBlankIs(ls: seq<string>, k: nat)
    requires k <= |ls|
    requires forall j :: 0 <= j < k ==> |ls[j]| > 0
    requires k < |ls| ==> |ls[k]| == 0
    ensures FirstBlank(ls) == k
  {
    if k > 0 {
      FirstBlankIs(ls[1..], k - 1);
    }
  }

  /** The lines before the first blank one: the rule lines. */
  function RuleLines(ls: seq<string>): seq<string> {
    ls[..FirstBlank(ls)]
  }

  /** Where the updates section starts: after the first blank line, or at
      the end when there is none. */
  function UpdatesStart(ls: seq<string>): (j: nat)
    ensures j <= |ls|
  {
    var k := FirstBlank(ls);
    if k < |ls| then k + 1 else |ls|
  }

  /** The non-blank lines after the first blank one: the update lines. */
  function UpdateLines(ls: seq<string>): seq<string> {
    DropEmpty(ls[UpdatesStart(ls)..])
  }

  /** The reading loop with the line parsers left open: every rule line is
      converted by `rule`, then every update line by `update`; the first
      failure decides. */
  function ReadSections<R, U, E>(ls: seq<string>, rule: string -> Result<R, E>, update: string -> Result<U, E>)
    : Result<Input<R, U>, E>
  {
    Assemble(MapResult(RuleLines(ls), rule), MapResult(UpdateLines(ls), update))
  }

  /** The converted sections, or the first failure: the rules' before the
      updates'. */
  function Assemble<R, U, E>(rules: Result<seq<R>, E>, updates: Result<seq<U>, E>): Result<Input<R, U>, E> {
    match rules
    case Failure(e) => Failure(e)
    case Success(rs) =>
      match updates
      case Failure(e) => Failure(e)
      case Success(us) => Success(Input(rs, us))
  }

  /** One line of the reading loop, given whether it is still reading rules:
      a blank line adds nothing, any other line is converted as a rule or as
      an update and appended. */
  function ReadLine<R, U, E>(inRules: bool, input: Input<R, U>, line: string,
                             rule: string -> Result<R, E>, update: string -> Result<U, E>): Result<Input<R, U>, E>
  {
    if |line| == 0 then Success(input)
    else if inRules then
      match rule(line)
      case Failure(e) => Failure(e)
      case Success(x) => Success(input.(rules := input.rules + [x]))
    else
      match update(line)
      case Failure(e) => Failure(e)
      case Success(u) => Success(input.(updates := input.updates + [u]))
  }

  /** The three outcomes of one line, spelled out for the reading loop. */
  lemma ReadLineCases<R, U, E>(inRules: bool, rs: seq<R>, us: seq<U>, line: string,
                               rule: string -> Result<R, E>, update: string -> Result<U, E>)
    ensures |line| == 0 ==> ReadLine(inRules, Input(rs, us), line, rule, update) == Success(Input(rs, us))
    ensures |line| > 0 && inRules ==>
      ReadLine(inRules, Input(rs, us), line, rule, update) ==
      (if rule(line).Failure? then Failure(rule(line).error) else Success(Input(rs + [rule(line).value], us)))
    ensures |line| > 0 && !inRules ==>
      ReadLine(inRules, Input(rs, us), line, rule, update) ==
      (if update(line).Failure? then Failure(update(line).error) else Success(Input(rs, us + [update(line).value])))
  {
  }

  /** The rules section ends at the first blank line and never resumes. */
  lemma {:induction false} FirstBlankSnoc(ls: seq<string>, line: string)
    ensures FirstBlank(ls + [line]) ==
      if FirstBlank(ls) < |ls| then FirstBlank(ls)
      else if |line| == 0 then |ls| else |ls| + 1
  {
    if |ls| > 0 && |ls[0]| > 0 {
      assert (ls + [line])[1..] == ls[1..] + [line];
      FirstBlankSnoc(ls[1..], line);
    }
  }

  /** A line after the blank one is an update line. */
  lemma SnocAfterBlank(ls: seq<string>, line: string)
    requires FirstBlank(ls) < |ls|
    ensures RuleLines(ls + [line]) == RuleLines(ls)
    ensures UpdateLines(ls + [line]) == UpdateLines(ls) + (if |line| == 0 then [] else [line])
  {
    var k := FirstBlank(ls);
    FirstBlankSnoc(ls, line);
    SectionsAt(ls, k);
    SectionsAt(ls + [line], k);
    SnocAfterBlankRules(ls, k, line);
    SnocAfterBlankUpdates(ls, k, line);
  }

  /** The two sections either side of the first blank line `k`. */
  lemma SectionsAt(ls: seq<string>, k: nat)
    requires k == FirstBlank(ls) < |ls|
    ensures RuleLines(ls) == ls[..k]
    ensures UpdateLines(ls) == DropEmpty(ls[k + 1..])
  {
  }

  lemma SnocAfterBlankRules(ls: seq<string>, k: nat, line: string)
    requires k < |ls|
    ensures (ls + [line])[..k] == ls[..k]
  {
  }

  lemma SnocAfterBlankUpdates(ls: seq<string>, k: nat, line: string)
    requires k < |ls|
    ensures DropEmpty((ls + [line])[k + 1..]) == DropEmpty(ls[k + 1..]) + (if |line| == 0 then [] else [line])
  {
    assert (ls + [line])[k + 1..] == ls[k + 1..] + [line];
    DropEmptySnoc(ls[k + 1..], line);
  }

  /** A line while still reading rules is a rule line or the blank line. */
  lemma SnocInRules(ls: seq<string>, line: string)
    requires FirstBlank(ls) == |ls|
    ensures UpdateLines(ls) == [] && UpdateLines(ls + [line]) == []
    ensures RuleLines(ls) == ls
    ensures RuleLines(ls + [line]) == if |line| == 0 then ls else ls + [line]
  {
    var all := ls + [line];
    FirstBlankSnoc(ls, line);
    RulesOnly(ls);
    if |line| == 0 {
      SectionsAt(all, |ls|);
      assert all[..|ls|] == ls && all[|ls| + 1..] == [];
    } else {
      RulesOnly(all);
    }
  }

  /** Without a blank line every line is a rule line. */
  lemma RulesOnly(ls: seq<string>)
    requires FirstBlank(ls) == |ls|
    ensures RuleLines(ls) == ls && UpdateLines(ls) == []
  {
    assert ls[..|ls|] == ls && ls[|ls|..] == [];
  }

  /** Reading one more line is one step of the loop. */
  lemma ReadSectionsSnoc<R, U, E>(ls: seq<string>, line: string, rule: string -> Result<R, E>, update: string -> Result<U, E>)
    ensures ReadSections(ls + [line], rule, update) ==
      match ReadSections(ls, rule, update)
      case Failure(e) => Failure(e)
      case Success(input) => ReadLine(FirstBlank(ls) == |ls|, input, line, rule, update)
  {
    if FirstBlank(ls) < |ls| {
      SnocAfterBlank(ls, line);
      AssembleSnocUpdate(MapResult(RuleLines(ls), rule), UpdateLines(ls), line, rule, update);
    } else {
      SnocInRules(ls, line);
      AssembleSnocRule(ls, line, rule, update);
    }
  }

  /** An update line extends the updates, or fails them. */
  lemma AssembleSnocUpdate<R, U, E>(rules: Result<seq<R>, E>, ul: seq<string>, line: string,
                                    rule: string -> Result<R, E>, update: string -> Result<U, E>)
    ensures Assemble(rules, MapResult(ul + (if |line| == 0 then [] else [line]), update)) ==
      match Assemble(rules, MapResult(ul, update))
      case Failure(e) => Failure(e)
      case Success(input) => ReadLine(false, input, line, rule, update)
  {
    if |line| == 0 {
      assert ul + [] == ul;
    } else {
      MapResultSnoc(ul, line, update);
    }
  }

  /** While reading rules, a rule line extends the rules, or fails them,
      and the updates stay empty. */
  lemma AssembleSnocRule<R, U, E>(rl: seq<string>, line: string, rule: string -> Result<R, E>, update: string -> Result<U, E>)
    ensures Assemble(MapResult(if |line| == 0 then rl else rl + [line], rule), MapResult([], update)) ==
      match Assemble(MapResult(rl, rule), MapResult([], update))
      case Failure(e) => Failure(e)
      case Success(input) => ReadLine(true, input, line, rule, update)
  {
    if |line| > 0 {
      MapResultSnoc(rl, line, rule);
    }
  }

  /** Once a prefix of the lines fails, the rest is never read. */
  lemma {:induction false} ReadSectionsFailureExtends<R, U, E>(ls: seq<string>, more: seq<string>,
                                                             rule: string -> Result<R, E>, update: string -> Result<U, E>)
    requires ReadSections(ls, rule, update).Failure?
    ensures ReadSections(ls + more, rule, update) == ReadSections(ls, rule, update)
    decreases |more|
  {
    if |more| == 0 {
      assert ls + more == ls;
    } else {
      var init := more[..|more| - 1];
      ReadSectionsFailureExtends(ls, init, rule, update);
      assert ls + more == (ls + init) + [more[|more| - 1]];
      ReadSectionsSnoc(ls + init, more[|more| - 1], rule, update);
    }
  }

  /** One loop iteration over `ls[i]`, seen on prefixes. */
  lemma ReadSectionsStep<R, U, E>(ls: seq<string>, i: nat, inRules: bool, input: Input<R, U>,
                                  rule: string -> Result<R, E>, update: string -> Result<U, E>)
    requires i < |ls|
    requires ReadSections(ls[..i], rule, update) == Success(input)
    requires inRules == (FirstBlank(ls[..i]) == i)
    ensures ReadSections(ls[..i + 1], rule, update) == ReadLine(inRules, input, ls[i], rule, update)
    ensures (FirstBlank(ls[..i + 1]) == i + 1) == (inRules && |ls[i]| > 0)
    ensures ReadLine(inRules, input, ls[i], rule, update).Failure? ==>
      ReadSections(ls, rule, update) == ReadLine(inRules, input, ls[i], rule, update)
  {
    TakeFacts(ls, i);
    ReadSectionsSnoc(ls[..i], ls[i], rule, update);
    FirstBlankSnoc(ls[..i], ls[i]);
    if ReadSections(ls[..i + 1], rule, update).Failure? {
      ReadSectionsFailureExtends(ls[..i + 1], ls[i + 1..], rule, update);
    }
  }

  /** What the reading loop of `main` means: every line before the first
      blank one is a rule, every later non-blank line is an update, and the
      first line that does not parse decides the panic. */
  function SplitInput(ls: seq<string>): (r: Result<PageInput, Panic>)
    ensures r.Success? ==> |r.value.rules| == FirstBlank(ls)
  {
    ReadSections(ls, ParseRule, ParseUpdate)
  }

  /** The reading loop of `main` over `reader.lines()`. */
  method ReadInput(text: string) returns (r: Result<PageInput, Panic>)
    ensures r == SplitInput(Lines(text))
  {
    r := ReadLines(Lines(text), ParseRule, ParseUpdate);
  }

  /** The body of the reading loop, with the line parsers passed in: a blank
      line ends the rules section, other lines are converted as rules or
      updates, and the first line that fails to convert stops the loop. */
  method ReadLines<R, U, E>(ls: seq<string>, rule: string -> Result<R, E>, update: string -> Result<U, E>)
    returns (r: Result<Input<R, U>, E>)
    ensures r == ReadSections(ls, rule, update)
  {
    var tuples: seq<R> := [];
    var vectors: seq<U> := [];
    var processingTuples := true;
    var i := 0;
    assert ls[..0] == [];
    while i < |ls|
      invariant 0 <= i <= |ls|
      invariant ReadSections(ls[..i], rule, update) == Success(Input(tuples, vectors))
      invariant processingTuples == (FirstBlank(ls[..i]) == i)
    {
      var line := ls[i];
      ReadSectionsStep(ls, i, processingTuples, Input(tuples, vectors), rule, update);
      ReadLineCases(processingTuples, tuples, vectors, line, rule, update);
      if |line| == 0 {
        processingTuples := false;
      } else if processingTuples {
        var tuple := rule(line);
        if tuple.Failure? {
          return Failure(tuple.error);
        }
        tuples := tuples + [tuple.value];
      } else {
        var parts := update(line);
        if parts.Failure? {
          return Failure(parts.error);
        }
        vectors := vectors + [parts.value];
      }
      i := i + 1;
    }
    assert ls[..i] == ls;
    r := Success(Input(tuples, vectors));
  }

  /** Rule lines, a blank line and update lines read back as the sections
      they were written from. */
  lemma ReadSectionsOfLayout<R, U, E>(rl: seq<string>, ul: seq<string>, rule: string -> Result<R, E>, update: string -> Result<U, E>)
    requires forall k :: 0 <= k < |rl| ==> |rl[k]| > 0
    requires forall k :: 0 <= k < |ul| ==> |ul[k]| > 0
    requires MapResult(rl, rule).Success? && MapResult(ul, update).Success?
    ensures ReadSections(rl + [""] + ul, rule, update) ==
      Success(Input(MapResult(rl, rule).value, MapResult(ul, update).value))
  {
    var ls := rl + [""] + ul;
    FirstBlankIs(ls, |rl|);
    assert ls[..|rl|] == rl;
    assert ls[|rl| + 1..] == ul;
    DropEmptyKeepsNonEmpty(ul);
  }

  /** The lines of rules written as `a|b`. */
  function RuleTexts(rules: seq<(int, int)>): (r: seq<string>)
    ensures |r| == |rules|
  {
    seq(|rules|, k requires 0 <= k < |rules| => RuleText(rules[k].0, rules[k].1, []))
  }

  /** The lines of updates written as `p1,p2,...`. */
  function UpdateTexts(updates: seq<seq<int>>): (r: seq<string>)
    ensures |r| == |updates|
  {
    seq(|updates|, k requires 0 <= k < |updates| => UpdateText(updates[k]))
  }

  lemma RuleTextsParse(rules: seq<(int, int)>)
    requires forall k :: 0 <= k < |rules| ==> InInt32(rules[k].0) && InInt32(rules[k].1)
    ensures forall k :: 0 <= k < |rules| ==> |RuleTexts(rules)[k]| > 0
    ensures MapResult(RuleTexts(rules), ParseRule) == Success(rules)
  {
    var ls := RuleTexts(rules);
    forall k | 0 <= k < |rules|
      ensures |ls[k]| > 0 && ParseRule(ls[k]) == Success(rules[k])
    {
      RuleRoundTrip(rules[k].0, rules[k].1, []);
    }
    var r := MapResult(ls, ParseRule);
    assert r.Success? && r.value == rules;
  }

  lemma UpdateTextsParse(updates: seq<seq<int>>)
    requires forall k :: 0 <= k < |updates| ==> |updates[k]| >= 1
    requires forall k, j :: 0 <= k < |updates| && 0 <= j < |updates[k]| ==> InInt32(updates[k][j])
    ensures forall k :: 0 <= k < |updates| ==> |UpdateTexts(updates)[k]| > 0
    ensures MapResult(UpdateTexts(updates), ParseUpdate) == Success(updates)
  {
    var ls := UpdateTexts(updates);
    forall k | 0 <= k < |updates|
      ensures |ls[k]| > 0 && ParseUpdate(ls[k]) == Success(updates[k])
    {
      UpdateRoundTrip(updates[k]);
    }
    var r := MapResult(ls, ParseUpdate);
    assert r.Success? && r.value == updates;
  }

  /** The lines of an input: one line per rule, a blank line, one line per
      update. */
  function InputLines(input: PageInput): seq<string> {
    RuleTexts(input.rules) + [""] + UpdateTexts(input.updates)
  }

  /** The rules and updates an input can be written from: `i32` pages and
      no empty update. */
  predicate Writable(input: PageInput) {
    (forall k :: 0 <= k < |input.rules| ==> InInt32(input.rules[k].0) && InInt32(input.rules[k].1))
    && (forall k :: 0 <= k < |input.updates| ==> |input.updates[k]| >= 1)
    && (forall k, j :: 0 <= k < |input.updates| && 0 <= j < |input.updates[k]| ==> InInt32(input.updates[k][j]))
  }

  /** Writing an input out line by line and reading it back gives it back. */
  lemma InputRoundTrip(input: PageInput)
    requires Writable(input)
    ensures SplitInput(InputLines(input)) == Success(input)
  {
    RuleTextsParse(input.rules);
    UpdateTextsParse(input.updates);
    ReadSectionsOfLayout(RuleTexts(input.rules), UpdateTexts(input.updates), ParseRule, ParseUpdate);
  }

  /** The validity test of `main`: at least two pages, and every pair of
      neighbouring pages is one of the rules, in that order. */
  predicate Valid(rules: seq<(int, int)>, v: seq<int>) {
    |v| >= 2 && forall i :: 0 <= i < |v| - 1 ==> (v[i], v[i + 1]) in rules
  }

  /** The inner search of `main`: scan the rules until the pair is found. */
  method FindPair(rules: seq<(int, int)>, pair: (int, int)) returns (found: bool)
    ensures found <==> pair in rules
  {
    found := false;
    var j := 0;
    while j < |rules|
      invariant 0 <= j <= |rules|
      invariant pair !in rules[..j]
    {
      if rules[j] == pair {
        return true;
      }
      assert rules[..j + 1] == rules[..j] + [rules[j]];
      j := j + 1;
    }
    assert rules[..j] == rules;
  }

  /** The `'pair_loop` of `main`: too short is invalid, otherwise the first
      neighbouring pair missing from the rules makes it invalid. */
  method IsValid(rules: seq<(int, int)>, v: seq<int>) returns (valid: bool)
    ensures valid == Valid(rules, v)
  {
    valid := true;
    if |v| < 2 {
      valid := false;
    } else {
      var i := 0;
      while i < |v| - 1
        invariant 0 <= i <= |v| - 1
        invariant forall j :: 0 <= j < i ==> (v[j], v[j + 1]) in rules
      {
        var found := FindPair(rules, (v[i], v[i + 1]));
        if !found {
          return false;
        }
        i := i + 1;
      }
    }
  }

  /** A single page, or none, never makes a valid update. */
  lemma ShortNeverValid(rules: seq<(int, int)>, v: seq<int>)
    requires |v| < 2
    ensures !Valid(rules, v)
  {
  }

  /** A two-page update is valid exactly when it is a rule: the order of the
      pages matters. */
  lemma PairValid(rules: seq<(int, int)>, x: int, y: int)
    ensures Valid(rules, [x, y]) <==> (x, y) in rules
  {
    var v := [x, y];
    if (x, y) in rules {
      forall i | 0 <= i < |v| - 1
        ensures (v[i], v[i + 1]) in rules
      {
        assert i == 0;
      }
    }
    if Valid(rules, v) {
      assert (v[0], v[1]) in rules;
    }
  }

  /** Two updates of two pages or more join into a valid one exactly when
      both are valid and the joint is a rule. */
  lemma ValidConcat(rules: seq<(int, int)>, a: seq<int>, b: seq<int>)
    requires |a| >= 2 && |b| >= 2
    ensures Valid(rules, a + b) <==> Valid(rules, a) && Valid(rules, b) && (a[|a| - 1], b[0]) in rules
  {
    var ab := a + b;
    if Valid(rules, ab) {
      forall i | 0 <= i < |a| - 1
        ensures (a[i], a[i + 1]) in rules
      {
        assert ab[i] == a[i] && ab[i + 1] == a[i + 1];
      }
      forall i | 0 <= i < |b| - 1
        ensures (b[i], b[i + 1]) in rules
      {
        assert ab[|a| + i] == b[i] && ab[|a| + i + 1] == b[i + 1];
      }
      assert (ab[|a| - 1], ab[|a|]) in rules;
    }
    if Valid(rules, a) && Valid(rules, b) && (a[|a| - 1], b[0]) in rules {
      forall i | 0 <= i < |ab| - 1
        ensures (ab[i], ab[i + 1]) in rules
      {
        if i < |a| - 1 {
          assert ab[i] == a[i] && ab[i + 1] == a[i + 1];
        } else if i >= |a| {
          assert ab[i] == b[i - |a|] && ab[i + 1] == b[i - |a| + 1];
        }
      }
    }
  }

  /** More rules never invalidate an update. */
  lemma ValidMonotone(rules: seq<(int, int)>, more: seq<(int, int)>, v: seq<int>)
    requires forall k :: 0 <= k < |rules| ==> rules[k] in more
    requires Valid(rules, v)
    ensures Valid(more, v)
  {
  }

  /** The valid updates, in input order: `valid_vectors`. */
  function ValidUpdates(rules: seq<(int, int)>, updates: seq<seq<int>>): (r: seq<seq<int>>)
    ensures |r| <= |updates|
  {
    if |updates| == 0 then []
    else
      var last := updates[|updates| - 1];
      ValidUpdates(rules, updates[..|updates| - 1]) + if Valid(rules, last) then [last] else []
  }

  /** The filtering loop of `main`. */
  method KeepValid(rules: seq<(int, int)>, updates: seq<seq<int>>) returns (validVectors: seq<seq<int>>)
    ensures validVectors == ValidUpdates(rules, updates)
  {
    validVectors := [];
    var i := 0;
    while i < |updates|
      invariant 0 <= i <= |updates|
      invariant validVectors == ValidUpdates(rules, updates[..i])
    {
      var isValid := IsValid(rules, updates[i]);
      assert updates[..i + 1][..i] == updates[..i];
      if isValid {
        validVectors := validVectors + [updates[i]];
      }
      i := i + 1;
    }
    assert updates[..i] == updates;
  }

  /** The filter keeps exactly the valid updates. */
  lemma {:induction false} ValidUpdatesMembers(rules: seq<(int, int)>, updates: seq<seq<int>>, u: seq<int>)
    ensures u in ValidUpdates(rules, updates) <==> u in updates && Valid(rules, u)
    decreases |updates|
  {
    if |updates| > 0 {
      var init := updates[..|updates| - 1];
      ValidUpdatesMembers(rules, init, u);
      assert updates == init + [updates[|updates| - 1]];
    }
  }

  /** Filtering valid updates adds the filtered parts. */
  lemma {:induction false} ValidUpdatesAppend(rules: seq<(int, int)>, a: seq<seq<int>>, b: seq<seq<int>>)
    ensures ValidUpdates(rules, a + b) == ValidUpdates(rules, a) + ValidUpdates(rules, b)
    decreases |b|
  {
    if |b| == 0 {
      assert a + b == a;
    } else {
      var init, last := b[..|b| - 1], b[|b| - 1];
      ValidUpdatesAppend(rules, a, init);
      assert b == init + [last];
      assert a + b == (a + init) + [last];
      ValidUpdatesSnoc(rules, a + init, last);
      ValidUpdatesSnoc(rules, init, last);
      ConcatAssociates(ValidUpdates(rules, a), ValidUpdates(rules, init), if Valid(rules, last) then [last] else []);
    }
  }

  /** One more update is kept at the end exactly when it is valid. */
  lemma ValidUpdatesSnoc(rules: seq<(int, int)>, us: seq<seq<int>>, u: seq<int>)
    ensures ValidUpdates(rules, us + [u]) == ValidUpdates(rules, us) + if Valid(rules, u) then [u] else []
  {
    assert (us + [u])[..|us|] == us;
  }

  /** Filtering twice is filtering once. */
  lemma {:induction false} ValidUpdatesIdempotent(rules: seq<(int, int)>, updates: seq<seq<int>>)
    ensures ValidUpdates(rules, ValidUpdates(rules, updates)) == ValidUpdates(rules, updates)
    decreases |updates|
  {
    if |updates| > 0 {
      var init := updates[..|updates| - 1];
      var last := updates[|updates| - 1];
      var kept := ValidUpdates(rules, init);
      ValidUpdatesIdempotent(rules, init);
      var tail := if Valid(rules, last) then [last] else [];
      ValidUpdatesAppend(rules, kept, tail);
      if Valid(rules, last) {
        assert ValidUpdates(rules, [last]) == [last] by {
          assert [last][..0] == [];
        }
      }
    }
  }

  /** The middle page of every non-empty update, added up. */
  function MiddleSum(vs: seq<seq<int>>): int {
    if |vs| == 0 then 0
    else
      var last := vs[|vs| - 1];
      MiddleSum(vs[..|vs| - 1]) + if |last| > 0 then last[|last| / 2] else 0
  }

  /** The summing loop of `main`. */
  method SumMiddles(vs: seq<seq<int>>) returns (totalSum: int)
    ensures totalSum == MiddleSum(vs)
  {
    totalSum := 0;
    var i := 0;
    while i < |vs|
      invariant 0 <= i <= |vs|
      invariant totalSum == MiddleSum(vs[..i])
    {
      var vector := vs[i];
      assert vs[..i + 1][..i] == vs[..i];
      if |vector| > 0 {
        var centerIndex := |vector| / 2;
        totalSum := totalSum + vector[centerIndex];
      }
      i := i + 1;
    }
    assert vs[..i] == vs;
  }

  /** The sum over a concatenation is the sum of the sums. */
  lemma {:induction false} MiddleSumAppend(a: seq<seq<int>>, b: seq<seq<int>>)
    ensures MiddleSum(a + b) == MiddleSum(a) + MiddleSum(b)
    decreases |b|
  {
    if |b| == 0 {
      assert a + b == a;
    } else {
      var init := b[..|b| - 1];
      MiddleSumAppend(a, init);
      assert a + b == (a + init) + [b[|b| - 1]];
      assert (a + b)[..|a + b| - 1] == a + init;
    }
  }

  /** An odd-length update contributes the page with as many pages before
      it as after it. */
  lemma MiddleIsCentred(v: seq<int>)
    requires |v| % 2 == 1
    ensures |v[..|v| / 2]| == |v[|v| / 2 + 1..]|
    ensures MiddleSum([v]) == v[|v| / 2]
  {
    assert [v][..0] == [];
  }

  /** The whole program: read the input, keep the valid updates, add up
      their middle pages; a panic while reading is the result. */
  method Solve(text: string) returns (r: Result<int, Panic>)
    ensures r.Failure? <==> SplitInput(Lines(text)).Failure?
    ensures r.Failure? ==> r.error == SplitInput(Lines(text)).error
    ensures r.Success? ==>
      var input := SplitInput(Lines(text)).value;
      r.value == MiddleSum(ValidUpdates(input.rules, input.updates))
  {
    var input := ReadInput(text);
    if input.Failure? {
      return Failure(input.error);
    }
    var validVectors := KeepValid(input.value.rules, input.value.updates);
    var totalSum := SumMiddles(validVectors);
    r := Success(totalSum);
  }
}
