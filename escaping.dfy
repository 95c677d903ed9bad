/**
 * The value escaping of the TeamSpeak 3 ServerQuery text protocol as the
 * client implements it: `string2escaping` for what it writes and
 * `escaping2string` for what it reads back.
 */
module Escaping {
  import opened Wrappers
  import opened Text

  /** A field value: a Python int or a text. */
  datatype Value = Int(i: int) | Str(s: string)

  /**
   * The three substitutions of string2escaping, applied in the source's order:
   * '/' to "\/", space to "\s", '|' to "\p".  Backslash itself is not escaped.
   */
  function EscapeText(s: string): (r: string)
    ensures |s| <= |r|
  {
    Replace(Replace(Replace(s, "/", "\\/"), " ", "\\s"), "|", "\\p")
  }

  /** string2escaping: an int becomes its decimal text, a text is escaped. */
  function Escape(v: Value): (r: string)
    ensures ' ' !in r && '|' !in r
    ensures v.Int? ==> ParseInt(r) == Some(v.i)
  {
    if v.Int? then
      ParseIntToString(v.i);
      IntToString(v.i)
    else
      EscapeTextIsForm(v.s);
      FullFormHasNoSeparator(v.s);
      EscapeText(v.s)
  }

  /** Deleting '\n' and then '\r' leaves neither. */
  lemma DeleteLineBreaks(t: string)
    ensures var r := Replace(Replace(t, "\n", ""), "\r", ""); '\n' !in r && '\r' !in r
  {
    var u := Replace(t, "\n", "");
    ReplaceRemovesChar(t, '\n', "");
    ReplaceRemovesChar(u, '\r', "");
    if '\n' in Replace(u, "\r", "") {
      ReplaceChars(u, "\r", "", '\n');
    }
  }

  /** The replace chain of escaping2string: undo the three escapes, then delete line breaks. */
  function CleanText(s: string): (r: string)
    ensures '\n' !in r && '\r' !in r
    ensures |r| <= |s|
  {
    var t := Replace(Replace(Replace(s, "\\/", "/"), "\\s", " "), "\\p", "|");
    DeleteLineBreaks(t);
    Replace(Replace(t, "\n", ""), "\r", "")
  }

  /** escaping2string: the cleaned text, as an int when Python's int() accepts it. */
  function Unescape(s: string): Value
  {
    var t := CleanText(s);
    var n := ParseInt(t);
    if n.Some? then Int(n.value) else Str(t)
  }

  /** The values that survive string2escaping followed by escaping2string. */
  predicate RoundTrips(v: Value) {
    v.Int? || ('\\' !in v.s && '\n' !in v.s && '\r' !in v.s && ParseInt(v.s) == None)
  }

  // ---------------------------------------------------------------------------
  // A text with some of its special characters written as escape pairs.

  /** 0 for '/', 1 for space, 2 for '|', 3 for every character that is never escaped. */
  function Kind(c: char): nat
  {
    if c == '/' then 0 else if c == ' ' then 1 else if c == '|' then 2 else 3
  }

  /** The special character of kind k. */
  function Special(k: nat): char
    requires k < 3
  {
    if k == 0 then '/' else if k == 1 then ' ' else '|'
  }

  /** The letter that follows the backslash in the escape pair of kind k. */
  function Code(k: nat): char
    requires k < 3
  {
    if k == 0 then '/' else if k == 1 then 's' else 'p'
  }

  /** One character, written as its escape pair when its kind is in lo..hi-1. */
  function FormChar(c: char, lo: nat, hi: nat): string
  {
    if lo <= Kind(c) < hi && Kind(c) < 3 then ['\\', Code(Kind(c))] else [c]
  }

  /** The text with the special characters of the kinds lo..hi-1 escaped. */
  function Form(s: string, lo: nat, hi: nat): string
    decreases |s|
  {
    if s == [] then [] else FormChar(s[0], lo, hi) + Form(s[1..], lo, hi)
  }

  lemma {:induction false} FormNothing(s: string, k: nat)
    ensures Form(s, k, k) == s
    decreases |s|
  {
    if s != [] {
      FormNothing(s[1..], k);
      assert s == [s[0]] + s[1..];
    }
  }

  /** One pass of string2escaping escapes one more kind. */
  lemma {:induction false} EscapePass(s: string, k: nat)
    requires k < 3
    ensures Replace(Form(s, 0, k), [Special(k)], ['\\', Code(k)]) == Form(s, 0, k + 1)
    decreases |s|
  {
    if s != [] {
      var x := s[0];
      EscapePass(s[1..], k);
      ReplaceCharConcat(FormChar(x, 0, k), Form(s[1..], 0, k), Special(k), ['\\', Code(k)]);
      if Kind(x) < k {
        ReplaceAbsent(FormChar(x, 0, k), [Special(k)], ['\\', Code(k)]);
      } else if Kind(x) == k {
        ReplaceHit([Special(k)], [], ['\\', Code(k)]);
      } else {
        ReplaceMiss(x, [], [Special(k)], ['\\', Code(k)]);
      }
    }
  }

  /** One pass of escaping2string undoes one kind, provided the text had no backslash of its own. */
  lemma {:induction false} UnescapePass(s: string, k: nat)
    requires k < 3 && '\\' !in s
    ensures Replace(Form(s, k, 3), ['\\', Code(k)], [Special(k)]) == Form(s, k + 1, 3)
    decreases |s|
  {
    if s != [] {
      var x, t := s[0], s[1..];
      var pat, rep := ['\\', Code(k)], [Special(k)];
      assert x in s;
      UnescapePass(t, k);
      var rest := Form(t, k, 3);
      assert Form(s, k, 3) == FormChar(x, k, 3) + rest;
      assert Replace(FormChar(x, k, 3) + rest, pat, rep) == FormChar(x, k + 1, 3) + Replace(rest, pat, rep) by {
        if Kind(x) == k {
          ReplaceHit(pat, rest, rep);
        } else if k < Kind(x) < 3 {
          var c := Code(Kind(x));
          var w := ['\\', c] + rest;
          assert w[..2] != pat && w[1..] == [c] + rest;
          ReplaceMiss(c, rest, pat, rep);
        } else {
          ReplaceMiss(x, rest, pat, rep);
        }
      }
    }
  }

  /** string2escaping writes every special character as its escape pair, whatever the text. */
  lemma EscapeTextIsForm(s: string)
    ensures EscapeText(s) == Form(s, 0, 3)
  {
    FormNothing(s, 0);
    EscapePass(s, 0);
    EscapePass(s, 1);
    EscapePass(s, 2);
    assert "/" == [Special(0)] && "\\/" == ['\\', Code(0)];
    assert " " == [Special(1)] && "\\s" == ['\\', Code(1)];
    assert "|" == [Special(2)] && "\\p" == ['\\', Code(2)];
  }

  /** A character that is never escaped and never part of an escape pair is kept exactly where it was. */
  lemma {:induction false} FormKeeps(s: string, lo: nat, hi: nat, x: char)
    requires Kind(x) == 3 && x != '\\' && x != 's' && x != 'p'
    ensures x in Form(s, lo, hi) <==> x in s
    decreases |s|
  {
    if s != [] {
      FormKeeps(s[1..], lo, hi, x);
      assert s == [s[0]] + s[1..];
      assert x in FormChar(s[0], lo, hi) <==> x == s[0];
      assert Form(s, lo, hi) == FormChar(s[0], lo, hi) + Form(s[1..], lo, hi);
    }
  }

  lemma {:induction false} FullFormHasNoSeparator(s: string)
    ensures ' ' !in Form(s, 0, 3) && '|' !in Form(s, 0, 3)
    decreases |s|
  {
    if s != [] {
      FullFormHasNoSeparator(s[1..]);
    }
  }

  /**
   * string2escaping: an escaped text never contains a space or '|', so it
   * stays one token of the line; every other character, line breaks
   * included, passes through.
   */
  lemma EscapedText(s: string, x: char)
    requires Kind(x) == 3 && x != '\\' && x != 's' && x != 'p'
    ensures ' ' !in EscapeText(s) && '|' !in EscapeText(s)
    ensures x in EscapeText(s) <==> x in s
  {
    EscapeTextIsForm(s);
    FullFormHasNoSeparator(s);
    FormKeeps(s, 0, 3, x);
  }

  /** escaping2string undoes string2escaping on a text without backslashes or line breaks. */
  lemma CleanEscapedText(s: string)
    requires '\\' !in s && '\n' !in s && '\r' !in s
    ensures CleanText(EscapeText(s)) == s
  {
    EscapeTextIsForm(s);
    UnescapePass(s, 0);
    UnescapePass(s, 1);
    UnescapePass(s, 2);
    FormNothing(s, 3);
    assert "/" == [Special(0)] && "\\/" == ['\\', Code(0)];
    assert " " == [Special(1)] && "\\s" == ['\\', Code(1)];
    assert "|" == [Special(2)] && "\\p" == ['\\', Code(2)];
    ReplaceAbsent(s, "\n", "");
    ReplaceAbsent(s, "\r", "");
  }

  /** escaping2string leaves the decimal text of an int as it is. */
  lemma CleanIntText(n: int)
    ensures CleanText(IntToString(n)) == IntToString(n)
  {
    var s := IntToString(n);
    assert '\\' !in s && '\n' !in s && '\r' !in s;
    ReplaceAbsent(s, "\\/", "/");
    ReplaceAbsent(s, "\\s", " ");
    ReplaceAbsent(s, "\\p", "|");
    ReplaceAbsent(s, "\n", "");
    ReplaceAbsent(s, "\r", "");
  }

  /**
   * escaping2string(string2escaping(v)) == v for every int, and for every
   * text without backslash or line break that Python's int() rejects.
   */
  lemma EscapeRoundTrip(v: Value)
    requires RoundTrips(v)
    ensures Unescape(Escape(v)) == v
  {
    if v.Int? {
      CleanIntText(v.i);
      ParseIntToString(v.i);
    } else {
      CleanEscapedText(v.s);
    }
  }

  /** A backslash in the text makes two texts share one encoding. */
  lemma EscapeNotInjective()
    ensures Escape(Str("\\s")) == Escape(Str(" "))
  {
    ReplaceAbsent("\\s", "/", "\\/");
    ReplaceAbsent("\\s", " ", "\\s");
    ReplaceAbsent("\\s", "|", "\\p");
    ReplaceAbsent(" ", "/", "\\/");
    ReplaceHit(" ", "", "\\s");
    ReplaceAbsent("\\s", "|", "\\p");
  }

  lemma EscapeLineBreak()
    ensures EscapeText("a\nb") == "a\nb"
  {
    ReplaceAbsent("a\nb", "/", "\\/");
    ReplaceAbsent("a\nb", " ", "\\s");
    ReplaceAbsent("a\nb", "|", "\\p");
  }

  lemma CleanLineBreak()
    ensures CleanText("a\nb") == "ab"
  {
    var t := Replace(Replace(Replace("a\nb", "\\/", "/"), "\\s", " "), "\\p", "|");
    assert t == "a\nb" by {
      ReplaceAbsent("a\nb", "\\/", "/");
      ReplaceAbsent("a\nb", "\\s", " ");
      ReplaceAbsent("a\nb", "\\p", "|");
    }
    assert Replace(t, "\n", "") == "ab" by {
      assert t == ['a'] + ("\n" + "b");
      ReplaceMiss('a', "\nb", "\n", "");
      ReplaceHit("\n", "b", "");
      ReplaceMiss('b', "", "\n", "");
      assert "b" == ['b'] + "";
    }
    ReplaceAbsent("ab", "\r", "");
  }

  lemma UnescapeLineBreak()
    ensures Unescape("a\nb") == Str("ab")
  {
    CleanLineBreak();
    ParseIntNeedsDigits("ab");
  }

  /** Line breaks do not survive the round trip. */
  lemma RoundTripDropsLineBreak()
    ensures Unescape(Escape(Str("a\nb"))) == Str("ab")
  {
    EscapeLineBreak();
    UnescapeLineBreak();
  }

  lemma EscapeSpaceFive()
    ensures EscapeText(" 5") == "\\s5"
  {
    ReplaceAbsent(" 5", "/", "\\/");
    assert " 5" == " " + "5";
    ReplaceHit(" ", "5", "\\s");
    ReplaceMiss('5', "", " ", "\\s");
    assert "\\s" + "5" == "\\s5";
    ReplaceAbsent("\\s5", "|", "\\p");
  }

  lemma CleanSpaceFive()
    ensures CleanText("\\s5") == " 5"
  {
    var w := "\\s5";
    assert w[1] == 's' && "\\/"[1] == '/';
    assert w[..2] != "\\/";
    assert w[1..] == "s5";
    ReplaceAbsent("s5", "\\/", "/");
    assert Replace(w, "\\/", "/") == w;
    assert w == "\\s" + "5";
    ReplaceHit("\\s", "5", " ");
    ReplaceMiss('5', "", "\\s", " ");
    assert " " + "5" == " 5";
    ReplaceAbsent(" 5", "\\p", "|");
    ReplaceAbsent(" 5", "\n", "");
    ReplaceAbsent(" 5", "\r", "");
  }

  lemma ParseSpaceFive()
    ensures ParseInt(" 5") == Some(5)
  {
    var five := " 5";
    assert five[1..] == "5";
    assert TrimLeft(five) == "5";
    assert TrimRight("5") == "5";
    assert DigitsValue("5") == 5 by {
      assert "5"[..0] == [];
    }
  }

  /** An escaped text that int() accepts comes back as an int. */
  lemma RoundTripReadsInt()
    ensures Unescape(Escape(Str(" 5"))) == Int(5)
  {
    EscapeSpaceFive();
    CleanSpaceFive();
    ParseSpaceFive();
  }
}
