/**
 * The parts of Python 2's `str` that the ServerQuery client builds on:
 * `str.replace`, `str.split`, `str.endswith`, `str(n)` on an int and
 * `int(s)` on a string.  Strings are sequences of characters; the UTF-8
 * encode/decode steps of the source are identities here.
 */
module Text {
  import opened Wrappers

  predicate IsDigit(c: char) { '0' <= c <= '9' }

  /** C's isspace in the C locale; also the `\s` class of a Python 2 byte-string regex. */
  predicate IsWhitespace(c: char) {
    c == ' ' || c == '\t' || c == '\n' || c == '\r' || c == '\U{B}' || c == '\U{C}'
  }

  predicate AllDigits(s: string) {
    forall i :: 0 <= i < |s| ==> IsDigit(s[i])
  }

  // ---------------------------------------------------------------------------
  // str.replace

  /** `s.replace(pat, rep)`: every non-overlapping occurrence of `pat`, found left to right. */
  function Replace(s: string, pat: string, rep: string): (r: string)
    requires |pat| > 0
    ensures |pat| <= |rep| ==> |s| <= |r|
    ensures |rep| <= |pat| ==> |r| <= |s|
    decreases |s|
  {
    if |s| < |pat| then s
    else if s[..|pat|] == pat then rep + Replace(s[|pat|..], pat, rep)
    else [s[0]] + Replace(s[1..], pat, rep)
  }

  lemma ReplaceHit(pat: string, t: string, rep: string)
    requires |pat| > 0
    ensures Replace(pat + t, pat, rep) == rep + Replace(t, pat, rep)
  {
    var s := pat + t;
    assert s[..|pat|] == pat;
    assert s[|pat|..] == t;
  }

  lemma ReplaceMiss(x: char, t: string, pat: string, rep: string)
    requires |pat| > 0 && x != pat[0]
    ensures Replace([x] + t, pat, rep) == [x] + Replace(t, pat, rep)
  {
    var s := [x] + t;
    assert s[1..] == t;
    if |s| >= |pat| {
      assert s[..|pat|][0] == x;
    }
  }

  /** Replacing a single character works character by character, so it distributes over `+`. */
  lemma {:induction false} ReplaceCharConcat(a: string, b: string, c: char, rep: string)
    ensures Replace(a + b, [c], rep) == Replace(a, [c], rep) + Replace(b, [c], rep)
    decreases |a|
  {
    if a == [] {
      assert a + b == b;
    } else {
      assert a + b == [a[0]] + (a[1..] + b);
      assert a == [a[0]] + a[1..];
      ReplaceCharConcat(a[1..], b, c, rep);
      if a[0] == c {
        ReplaceHit([c], a[1..] + b, rep);
        ReplaceHit([c], a[1..], rep);
      } else {
        ReplaceMiss(a[0], a[1..] + b, [c], rep);
        ReplaceMiss(a[0], a[1..], [c], rep);
      }
    }
  }

  /** A text in which the pattern's first character never occurs is left as it is. */
  lemma {:induction false} ReplaceAbsent(s: string, pat: string, rep: string)
    requires |pat| > 0 && pat[0] !in s
    ensures Replace(s, pat, rep) == s
    decreases |s|
  {
    if s != [] {
      assert s == [s[0]] + s[1..];
      ReplaceMiss(s[0], s[1..], pat, rep);
      ReplaceAbsent(s[1..], pat, rep);
    }
  }

  /** Every character of the output comes from the input or from the replacement. */
  lemma {:induction false} ReplaceChars(s: string, pat: string, rep: string, x: char)
    requires |pat| > 0 && x in Replace(s, pat, rep)
    ensures x in s || x in rep
    decreases |s|
  {
    if |s| >= |pat| {
      if s[..|pat|] == pat {
        if x !in rep {
          ReplaceChars(s[|pat|..], pat, rep, x);
        }
      } else if x != s[0] {
        ReplaceChars(s[1..], pat, rep, x);
      }
    }
  }

  /** Deleting or replacing a character removes it, unless the replacement brings it back. */
  lemma {:induction false} ReplaceRemovesChar(s: string, c: char, rep: string)
    requires c !in rep
    ensures c !in Replace(s, [c], rep)
    decreases |s|
  {
    if s != [] {
      assert s == [s[0]] + s[1..];
      ReplaceRemovesChar(s[1..], c, rep);
      if s[0] == c {
        ReplaceHit([c], s[1..], rep);
      } else {
        ReplaceMiss(s[0], s[1..], [c], rep);
      }
    }
  }

  // ---------------------------------------------------------------------------
  // str.split, str.endswith

  predicate OccursAt(s: string, sep: string, i: int) {
    0 <= i <= |s| - |sep| && s[i..i + |sep|] == sep
  }

  /** `sep in s` */
  predicate Contains(s: string, sep: string) {
    exists i :: 0 <= i <= |s| && OccursAt(s, sep, i)
  }

  predicate EndsWith(s: string, suffix: string) {
    |s| >= |suffix| && s[|s| - |suffix|..] == suffix
  }

  /** `s.split(sep)` for a non-empty separator: the pieces between the occurrences of `sep`. */
  function Split(s: string, sep: string): (pieces: seq<string>)
    requires |sep| > 0
    ensures |pieces| >= 1
    decreases |s|
  {
    if |s| < |sep| then [s]
    else if s[..|sep|] == sep then [""] + Split(s[|sep|..], sep)
    else
      var rest := Split(s[1..], sep);
      [[s[0]] + rest[0]] + rest[1..]
  }

  /** `sep.join(pieces)`. */
  function Join(pieces: seq<string>, sep: string): string
    decreases |pieces|
  {
    if |pieces| == 0 then ""
    else if |pieces| == 1 then pieces[0]
    else pieces[0] + sep + Join(pieces[1..], sep)
  }

  /** Joining a piece in front of at least one more puts the separator between them. */
  lemma JoinCons(p: string, rest: seq<string>, sep: string)
    requires |rest| >= 1
    ensures Join([p] + rest, sep) == p + sep + Join(rest, sep)
  {
    assert ([p] + rest)[1..] == rest;
  }

  /** Putting a character in front of the first piece puts it in front of the joined text. */
  lemma JoinPrepend(c: char, rest: seq<string>, sep: string)
    requires |rest| >= 1
    ensures Join([[c] + rest[0]] + rest[1..], sep) == [c] + Join(rest, sep)
  {
    if |rest| > 1 {
      JoinCons([c] + rest[0], rest[1..], sep);
      JoinCons(rest[0], rest[1..], sep);
      assert [rest[0]] + rest[1..] == rest;
    } else {
      assert [[c] + rest[0]] + rest[1..] == [[c] + rest[0]];
    }
  }

  /** Splitting loses nothing and keeps the order: joining the pieces gives the text back. */
  lemma {:induction false} SplitJoin(s: string, sep: string)
    requires |sep| > 0
    ensures Join(Split(s, sep), sep) == s
    decreases |s|
  {
    if |s| < |sep| {
    } else if s[..|sep|] == sep {
      var rest := Split(s[|sep|..], sep);
      assert Split(s, sep) == [""] + rest;
      assert Join(rest, sep) == s[|sep|..] by {
        SplitJoin(s[|sep|..], sep);
      }
      JoinCons("", rest, sep);
      assert s == sep + s[|sep|..];
    } else {
      var rest := Split(s[1..], sep);
      assert Split(s, sep) == [[s[0]] + rest[0]] + rest[1..];
      assert Join(rest, sep) == s[1..] by {
        SplitJoin(s[1..], sep);
      }
      JoinPrepend(s[0], rest, sep);
      assert s == [s[0]] + s[1..];
    }
  }

  /** There is more than one piece exactly when the separator occurs. */
  lemma {:induction false} SplitFindsSeparator(s: string, sep: string)
    requires |sep| > 0
    ensures |Split(s, sep)| > 1 <==> Contains(s, sep)
    decreases |s|
  {
    if |s| < |sep| {
    } else if s[..|sep|] == sep {
      assert OccursAt(s, sep, 0);
    } else {
      var t := s[1..];
      SplitFindsSeparator(t, sep);
      if Contains(s, sep) {
        var i :| 0 <= i <= |s| && OccursAt(s, sep, i);
        assert i != 0;
        assert s[i..i + |sep|] == sep;
        assert t[i - 1..i - 1 + |sep|] == s[i..i + |sep|];
        assert OccursAt(t, sep, i - 1);
      }
      if Contains(t, sep) {
        var i :| 0 <= i <= |t| && OccursAt(t, sep, i);
        assert 0 <= i <= |t| - |sep| && t[i..i + |sep|] == sep;
        assert s[i + 1..i + 1 + |sep|] == t[i..i + |sep|];
        assert OccursAt(s, sep, i + 1);
      }
    }
  }

  /** When the first occurrence of `sep` comes right after `a`, `a` is the first piece. */
  lemma {:induction false} SplitFirst(a: string, sep: string, b: string)
    requires |sep| > 0
    requires forall i :: 0 <= i < |a| ==> !OccursAt(a + sep, sep, i)
    ensures Split(a + sep + b, sep) == [a] + Split(b, sep)
    decreases |a|
  {
    var s := a + sep + b;
    if |a| == 0 {
      assert s == sep + b;
      assert s[..|sep|] == sep && s[|sep|..] == b;
    } else {
      assert s[..|sep|] != sep by {
        assert s[..|sep|] == (a + sep)[0..|sep|];
        assert !OccursAt(a + sep, sep, 0);
      }
      var t := a[1..];
      assert s[1..] == t + sep + b;
      var rest := Split(s[1..], sep);
      assert rest == [t] + Split(b, sep) by {
        forall i | 0 <= i < |t| ensures !OccursAt(t + sep, sep, i) {
          assert !OccursAt(a + sep, sep, i + 1);
          assert (t + sep)[i..i + |sep|] == (a + sep)[i + 1..i + 1 + |sep|];
        }
        SplitFirst(t, sep, b);
      }
      assert Split(s, sep) == [[s[0]] + rest[0]] + rest[1..];
      assert rest[0] == t && rest[1..] == Split(b, sep);
      assert [s[0]] + t == a;
    }
  }

  // ---------------------------------------------------------------------------
  // str(n) and int(s)

  function DigitChar(d: nat): (c: char)
    requires d < 10
    ensures IsDigit(c)
  {
    ('0' as int + d) as char
  }

  function DigitValue(c: char): nat
    requires IsDigit(c)
  {
    c as int - '0' as int
  }

  /** `str(n)` for n >= 0: decimal digits, without a leading zero unless n is 0. */
  function NatToString(n: nat): (r: string)
    ensures |r| > 0 && AllDigits(r)
    ensures r[0] == '0' <==> n == 0
    decreases n
  {
    if n < 10 then [DigitChar(n)] else NatToString(n / 10) + [DigitChar(n % 10)]
  }

  /** `str(n)` (and `'%d' % n`): an optional minus sign, then the digits of |n|. */
  function IntToString(n: int): (r: string)
    ensures |r| > 0
    ensures forall i :: 0 <= i < |r| ==> IsDigit(r[i]) || (i == 0 && r[i] == '-' && n < 0)
  {
    if n < 0 then "-" + NatToString(-n) else NatToString(n)
  }

  /** The number a run of decimal digits denotes. */
  function DigitsValue(s: string): nat
    requires AllDigits(s)
    decreases |s|
  {
    if |s| == 0 then 0 else 10 * DigitsValue(s[..|s| - 1]) + DigitValue(s[|s| - 1])
  }

  function TrimLeft(s: string): string
    decreases |s|
  {
    if |s| > 0 && IsWhitespace(s[0]) then TrimLeft(s[1..]) else s
  }

  function TrimRight(s: string): string
    decreases |s|
  {
    if |s| > 0 && IsWhitespace(s[|s| - 1]) then TrimRight(s[..|s| - 1]) else s
  }

  /**
   * Python's `int(s)` in base 10: surrounding whitespace is ignored, then an
   * optional sign and at least one digit; anything else is a ValueError (None).
   */
  function ParseInt(s: string): Option<int>
  {
    var t := TrimRight(TrimLeft(s));
    if |t| > 1 && (t[0] == '-' || t[0] == '+') && AllDigits(t[1..]) then
      var magnitude: int := DigitsValue(t[1..]);
      Some(if t[0] == '-' then -magnitude else magnitude)
    else if |t| > 0 && AllDigits(t) then
      Some(DigitsValue(t))
    else
      None
  }

  lemma {:induction false} NatToStringValue(n: nat)
    ensures DigitsValue(NatToString(n)) == n
    decreases n
  {
    if n >= 10 {
      NatToStringValue(n / 10);
      var s := NatToString(n);
      assert s[..|s| - 1] == NatToString(n / 10);
    }
  }

  /** `int(str(n)) == n`: the decimal text of an integer parses back to it. */
  lemma ParseIntToString(n: int)
    ensures ParseInt(IntToString(n)) == Some(n)
  {
    var s := IntToString(n);
    assert TrimLeft(s) == s;
    assert TrimRight(s) == s;
    if n < 0 {
      assert s[1..] == NatToString(-n);
      NatToStringValue(-n);
    } else {
      NatToStringValue(n);
    }
  }

  /** Text without a digit is never an int. */
  lemma ParseIntNeedsDigits(s: string)
    requires forall i :: 0 <= i < |s| ==> !IsDigit(s[i])
    ensures ParseInt(s) == None
  {
    TrimmedIsInfix(s);
    var t := TrimRight(TrimLeft(s));
    if |t| > 1 {
      assert t[1] in t;
    }
    if |t| > 0 {
      assert t[0] in t;
    }
  }

  /** Trimming keeps a contiguous part of the text. */
  lemma {:induction false} TrimmedIsInfix(s: string)
    ensures forall c :: c in TrimRight(TrimLeft(s)) ==> c in s
  {
    TrimLeftInfix(s);
    TrimRightInfix(TrimLeft(s));
  }

  lemma {:induction false} TrimLeftInfix(s: string)
    ensures forall c :: c in TrimLeft(s) ==> c in s
    decreases |s|
  {
    if |s| > 0 && IsWhitespace(s[0]) {
      TrimLeftInfix(s[1..]);
    }
  }

  lemma {:induction false} TrimRightInfix(s: string)
    ensures forall c :: c in TrimRight(s) ==> c in s
    decreases |s|
  {
    if |s| > 0 && IsWhitespace(s[|s| - 1]) {
      TrimRightInfix(s[..|s| - 1]);
    }
  }
}
