/** Whitespace tokenizing: Rust `str::split_whitespace`, over ASCII. */
module Whitespace {
  import opened Chars
  import opened Delimited

  /** A non-empty run of non-whitespace characters. */
  predicate IsWord(w: string) {
    |w| > 0 && forall k :: 0 <= k < |w| ==> !IsSpace(w[k])
  }

  /** Length of the longest whitespace-free prefix of `s`. */
  function WordLen(s: string): (n: nat)
    ensures n <= |s|
    ensures forall k :: 0 <= k < n ==> !IsSpace(s[k])
    ensures n < |s| ==> IsSpace(s[n])
  {
    if |s| == 0 || IsSpace(s[0]) then 0 else 1 + WordLen(s[1..])
  }

  /** The maximal runs of non-whitespace characters of `s`, left to right. */
  function Words(s: string): (r: seq<string>)
    ensures forall k :: 0 <= k < |r| ==> IsWord(r[k])
    decreases |s|
  {
    if |s| == 0 then []
    else if IsSpace(s[0]) then Words(s[1..])
    else
      var n := WordLen(s);
      [s[..n]] + Words(s[n..])
  }

  /** A line yields no words exactly when it is all whitespace. */
  lemma {:induction false} WordsEmptyIffBlank(s: string)
    ensures Words(s) == [] <==> Blank(s)
    decreases |s|
  {
    if |s| > 0 {
      WordsEmptyIffBlank(s[1..]);
      if IsSpace(s[0]) {
        assert Blank(s) <==> Blank(s[1..]) by {
          if Blank(s[1..]) {
            forall k | 0 <= k < |s| ensures IsSpace(s[k]) {
              if k > 0 { assert s[k] == s[1..][k - 1]; }
            }
          }
        }
      }
    }
  }

  /** The extent of the first word does not change when text is appended
      after a whitespace character. */
  lemma {:induction false} WordLenExtended(a: string, c: char, b: string)
    requires IsSpace(c)
    ensures WordLen(a + [c] + b) == WordLen(a)
    decreases |a|
  {
    var s := a + [c] + b;
    if |a| > 0 && !IsSpace(a[0]) {
      assert s[1..] == a[1..] + [c] + b;
      WordLenExtended(a[1..], c, b);
    }
  }

  /** Whitespace separates words: the words of `a + [c] + b` are those of `a`
      followed by those of `b`. */
  lemma {:induction false} WordsAround(a: string, c: char, b: string)
    requires IsSpace(c)
    ensures Words(a + [c] + b) == Words(a) + Words(b)
    decreases |a|
  {
    var s := a + [c] + b;
    if |a| == 0 {
      assert s[1..] == b;
    } else if IsSpace(a[0]) {
      assert s[1..] == a[1..] + [c] + b;
      WordsAround(a[1..], c, b);
    } else {
      var n := WordLen(a);
      WordLenExtended(a, c, b);
      assert s[..n] == a[..n];
      assert s[n..] == a[n..] + [c] + b;
      WordsAround(a[n..], c, b);
    }
  }

  /** A word on its own is its only word. */
  lemma WordsOfWord(w: string)
    requires IsWord(w)
    ensures Words(w) == [w]
  {
    assert WordLen(w) == |w|;
    assert w[..|w|] == w;
    assert w[|w|..] == [];
  }

  /** Joining words with single spaces and splitting again gives the words. */
  lemma {:induction false} WordsJoinWith(ws: seq<string>)
    requires forall k :: 0 <= k < |ws| ==> IsWord(ws[k])
    ensures Words(JoinWith(ws, ' ')) == ws
  {
    if |ws| == 1 {
      WordsOfWord(ws[0]);
    } else if |ws| > 1 {
      WordsAround(ws[0], ' ', JoinWith(ws[1..], ' '));
      WordsOfWord(ws[0]);
      WordsJoinWith(ws[1..]);
    }
  }

  /** Leading whitespace is skipped. */
  lemma {:induction false} WordsAfterBlank(p: string, s: string)
    requires Blank(p)
    ensures Words(p + s) == Words(s)
    decreases |p|
  {
    if |p| > 0 {
      assert (p + s)[0] == p[0];
      assert (p + s)[1..] == p[1..] + s;
      WordsAfterBlank(p[1..], s);
    } else {
      assert p + s == s;
    }
  }

  /** Leading and trailing whitespace never change the words. */
  lemma WordsIgnorePadding(p: string, s: string, q: string)
    requires Blank(p) && Blank(q)
    ensures Words(p + s + q) == Words(s)
  {
    WordsAfterBlank(p, s + q);
    assert p + s + q == p + (s + q);
    if |q| > 0 {
      assert s + q == s + [q[0]] + q[1..];
      WordsAround(s, q[0], q[1..]);
      WordsEmptyIffBlank(q[1..]);
    } else {
      assert s + q == s;
    }
  }

  /** The only whitespace of `s` is the space character. */
  predicate SpacesOnly(s: string) {
    forall k :: 0 <= k < |s| && IsSpace(s[k]) ==> s[k] == ' '
  }

  lemma SpacesOnlySuffix(s: string, i: nat)
    requires SpacesOnly(s) && i <= |s|
    ensures SpacesOnly(s[i..])
  {
    forall k | 0 <= k < |s| - i && IsSpace(s[i..][k]) ensures s[i..][k] == ' ' {
      assert s[i..][k] == s[i + k];
    }
  }

  /** On text whose only whitespace is the space character, splitting on
      whitespace and the space-delimited getline tokenizer agree. */
  lemma {:induction false} WordsAgreeWithFields(s: string)
    requires SpacesOnly(s)
    ensures Words(s) == Fields(s, ' ')
    decreases |s|
  {
    if |s| > 0 {
      if IsSpace(s[0]) {
        SpaceThenFields(s);
        SpacesOnlySuffix(s, 1);
        WordsAgreeWithFields(s[1..]);
      } else if WordLen(s) == |s| {
        WholeWordFields(s);
      } else {
        var n := WordLen(s);
        WordThenFields(s, n);
        SpacesOnlySuffix(s, n + 1);
        WordsAgreeWithFields(s[n + 1..]);
      }
    }
  }

  /** A leading space produces neither a word nor a field. */
  lemma SpaceThenFields(s: string)
    requires SpacesOnly(s) && |s| > 0 && IsSpace(s[0])
    ensures Words(s) == Words(s[1..])
    ensures Fields(s, ' ') == Fields(s[1..], ' ')
  {
    assert s[0] == ' ';
    assert s == [] + [' '] + s[1..];
    FieldsAround([], ' ', s[1..]);
  }

  /** Text without whitespace is one word and one field. */
  lemma WholeWordFields(s: string)
    requires |s| > 0 && !IsSpace(s[0]) && WordLen(s) == |s|
    ensures Words(s) == [s] == Fields(s, ' ')
  {
    assert ' ' !in s by {
      forall k | 0 <= k < |s| ensures s[k] != ' ' { }
    }
    FieldsOfToken(s, ' ');
    assert s[..|s|] == s;
    assert s[|s|..] == [];
  }

  /** A leading word ends at a space, where both tokenizers resume. */
  lemma WordThenFields(s: string, n: nat)
    requires SpacesOnly(s) && |s| > 0 && !IsSpace(s[0]) && n == WordLen(s) < |s|
    ensures Words(s) == [s[..n]] + Words(s[n + 1..])
    ensures Fields(s, ' ') == [s[..n]] + Fields(s[n + 1..], ' ')
  {
    WordThenWords(s, n);
    var w, tail := s[..n], s[n + 1..];
    assert s[n] == ' ';
    SplitAtSpace(s, n);
    WordHasNoSpace(s, n);
    FieldsAround(w, ' ', tail);
    FieldsOfToken(w, ' ');
  }

  lemma WordThenWords(s: string, n: nat)
    requires |s| > 0 && !IsSpace(s[0]) && n == WordLen(s) < |s|
    ensures Words(s) == [s[..n]] + Words(s[n + 1..])
  {
    assert s[n..][1..] == s[n + 1..];
  }

  lemma SplitAtSpace(s: string, n: nat)
    requires n < |s| && s[n] == ' '
    ensures s == s[..n] + [' '] + s[n + 1..]
  {
  }

  lemma WordHasNoSpace(s: string, n: nat)
    requires n == WordLen(s) < |s| && n > 0
    ensures |s[..n]| > 0 && ' ' !in s[..n]
  {
    var w := s[..n];
    forall k | 0 <= k < |w| ensures w[k] != ' ' {
      assert w[k] == s[k];
    }
  }
}
