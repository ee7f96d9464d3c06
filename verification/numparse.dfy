/** The two integer readers the repository relies on: C++ `std::stoi` (used by
    every C++ table) and Rust `str::parse::<i32>` (used by the day-5 solver).
    Both produce a 32-bit `int`/`i32`. */
module NumParse {
  import opened Wrappers
  import opened Chars
  import opened Decimal

  /** Why `std::stoi` throws: `std::invalid_argument` when no digits could be
      converted, `std::out_of_range` when the number does not fit an `int`. */
  datatype ParseError = InvalidArgument | OutOfRange

  const IntMin: int := -0x8000_0000
  const IntMax: int := 0x7fff_ffff

  predicate InInt32(v: int) {
    IntMin <= v <= IntMax
  }

  /** Decimal rendering of `v`, with a leading '-' when negative. */
  function IntToString(v: int): (s: string)
    ensures |s| >= 1
  {
    if v < 0 then ['-'] + Digits(-v) else Digits(v)
  }

  /** Integers written in decimal, one string each. */
  function DecimalStrings(vals: seq<int>): (ts: seq<string>)
    ensures |ts| == |vals|
  {
    seq(|vals|, k requires 0 <= k < |vals| => IntToString(vals[k]))
  }

  /** Number of leading whitespace characters of `s`. */
  function LeadingSpace(s: string): (n: nat)
    ensures n <= |s| && Blank(s[..n])
    ensures n < |s| ==> !IsSpace(s[n])
  {
    if |s| == 0 || !IsSpace(s[0]) then 0
    else
      var n := 1 + LeadingSpace(s[1..]);
      assert s[..n] == [s[0]] + s[1..][..n - 1];
      n
  }

  /** `std::stoi(s)`, which reads like `strtol(s, &end, 10)`: skip leading
      whitespace, take an optional '+' or '-', then the longest run of
      digits. Whatever follows the digits is ignored, so "12ab" reads as 12. */
  function StoI(s: string): (r: Result<int, ParseError>)
    ensures r.Success? ==> InInt32(r.value)
  {
    var t := s[LeadingSpace(s)..];
    var signed := |t| > 0 && (t[0] == '-' || t[0] == '+');
    var u := if signed then t[1..] else t;
    var n := DigitPrefix(u);
    if n == 0 then Failure(InvalidArgument)
    else
      var m: int := Value(u[..n]);
      var v := if signed && t[0] == '-' then -m else m;
      if InInt32(v) then Success(v) else Failure(OutOfRange)
  }

  /** Reading back a rendered integer, whatever non-digit text follows it:
      the value when it fits an `int`, `out_of_range` otherwise. */
  lemma StoIRoundTrip(v: int, rest: string)
    requires |rest| == 0 || !IsDigit(rest[0])
    ensures StoI(IntToString(v) + rest) == if InInt32(v) then Success(v) else Failure(OutOfRange)
  {
    if v < 0 {
      StoIOfNegative(v, rest);
    } else {
      StoIOfDigits(v, rest);
    }
  }

  /** Digits, then text that does not continue them. */
  lemma StoIOfDigits(m: nat, rest: string)
    requires |rest| == 0 || !IsDigit(rest[0])
    ensures StoI(Digits(m) + rest) == if InInt32(m) then Success(m) else Failure(OutOfRange)
  {
    var s := Digits(m) + rest;
    ValueOfDigits(m);
    DigitPrefixOfDigits(Digits(m), rest);
    assert s[0] == Digits(m)[0];
    NoLeadingSpace(s);
  }

  /** A minus sign and digits, then text that does not continue them. */
  lemma StoIOfNegative(v: int, rest: string)
    requires v < 0
    requires |rest| == 0 || !IsDigit(rest[0])
    ensures StoI(['-'] + Digits(-v) + rest) == if InInt32(v) then Success(v) else Failure(OutOfRange)
  {
    var u := Digits(-v) + rest;
    var s := ['-'] + u;
    assert ['-'] + Digits(-v) + rest == s;
    ValueOfDigits(-v);
    DigitPrefixOfDigits(Digits(-v), rest);
    NoLeadingSpace(s);
    assert s[1..] == u;
  }

  lemma NoLeadingSpace(s: string)
    requires |s| > 0 && !IsSpace(s[0])
    ensures LeadingSpace(s) == 0 && s[LeadingSpace(s)..] == s
  {
  }

  /** `std::stoi` skips leading whitespace: a run of whitespace in front of
      the text, tabs and carriage returns included, never changes the result. */
  lemma StoISkipsSpace(w: string, s: string)
    requires Blank(w)
    ensures StoI(w + s) == StoI(s)
  {
    LeadingSpaceAfterBlank(w, s);
    assert (w + s)[|w| + LeadingSpace(s)..] == s[LeadingSpace(s)..];
  }

  lemma {:induction false} LeadingSpaceAfterBlank(w: string, s: string)
    requires Blank(w)
    ensures LeadingSpace(w + s) == |w| + LeadingSpace(s)
  {
    if |w| == 0 {
      assert w + s == s;
    } else {
      assert (w + s)[0] == w[0];
      assert (w + s)[1..] == w[1..] + s;
      LeadingSpaceAfterBlank(w[1..], s);
    }
  }

  /** Text without any digit is rejected with `invalid_argument`. */
  lemma StoIWithoutDigits(s: string)
    requires forall k :: 0 <= k < |s| ==> !IsDigit(s[k])
    ensures StoI(s) == Failure(InvalidArgument)
  {
    var t := s[LeadingSpace(s)..];
    if |t| > 1 {
      assert !IsDigit(t[1]);
    }
    if |t| > 0 {
      assert !IsDigit(t[0]);
    }
  }

  /** Rust `<i32 as FromStr>::from_str`: the whole string must be an optional
      sign followed by at least one digit, and the value must fit an `i32`;
      anything else is an error (`None`). */
  function ParseI32(s: string): (r: Option<int>)
    ensures r.Some? ==> InInt32(r.value)
    ensures r.Some? ==> forall k :: 0 <= k < |s| ==>
      IsDigit(s[k]) || (k == 0 && (s[0] == '+' || s[0] == '-'))
  {
    if |s| == 0 then None
    else
      var signed := s[0] == '+' || s[0] == '-';
      var u := if signed then s[1..] else s;
      if |u| == 0 || !AllDigits(u) then None
      else
        var m: int := Value(u);
        var v := if s[0] == '-' then -m else m;
        if InInt32(v) then
          assert forall k :: 0 <= k < |s| && (k > 0 || !signed) ==> IsDigit(s[k]) by {
            forall k | 0 <= k < |s| && (k > 0 || !signed) ensures IsDigit(s[k]) {
              if signed { assert s[k] == u[k - 1]; }
            }
          }
          Some(v)
        else None
  }

  /** A rendered `i32` parses back to itself; a rendered number outside the
      `i32` range is rejected. */
  lemma ParseI32RoundTrip(v: int)
    ensures ParseI32(IntToString(v)) == if InInt32(v) then Some(v) else None
  {
    var s := IntToString(v);
    ValueOfDigits(if v < 0 then -v else v);
    if v < 0 {
      assert s[1..] == Digits(-v);
    }
  }

  /** Whatever Rust's parser accepts, `std::stoi` reads the same way. */
  lemma ParseI32AgreesWithStoI(s: string)
    requires ParseI32(s).Some?
    ensures StoI(s) == Success(ParseI32(s).value)
  {
    var signed := s[0] == '+' || s[0] == '-';
    var u := if signed then s[1..] else s;
    assert LeadingSpace(s) == 0;
    assert s[0..] == s;
    DigitPrefixOfDigits(u, []);
    assert u + [] == u;
    assert u[..|u|] == u;
  }
}
