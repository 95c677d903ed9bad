/**
 * The field grammar of ServerQuery responses: the client's regular
 * expression `(\w+)=(.*?)(\s|$|\|)` applied with `findall`, and the dict it
 * fills from the matches.
 */
module Fields {
  import opened Text
  import opened Escaping

  /** `\w` of a Python 2 byte-string regex. */
  predicate IsWordChar(c: char) {
    'a' <= c <= 'z' || 'A' <= c <= 'Z' || IsDigit(c) || c == '_'
  }

  /** The characters that end a value: whitespace or '|'. */
  predicate EndsValue(c: char) {
    IsWhitespace(c) || c == '|'
  }

  /** A key the grammar can match: a non-empty run of word characters. */
  predicate IsKey(k: string) {
    |k| > 0 && forall i :: 0 <= i < |k| ==> IsWordChar(k[i])
  }

  /** A value the grammar can match: no whitespace and no '|'. */
  predicate IsPlainValue(v: string) {
    forall i :: 0 <= i < |v| ==> !EndsValue(v[i])
  }

  /** Length of the longest prefix made of word characters. */
  function WordRun(s: string): (n: nat)
    ensures n <= |s|
    ensures forall i :: 0 <= i < n ==> IsWordChar(s[i])
    ensures n < |s| ==> !IsWordChar(s[n])
    decreases |s|
  {
    if |s| > 0 && IsWordChar(s[0]) then 1 + WordRun(s[1..]) else 0
  }

  /** Length of the value at the start of s: everything before the first whitespace or '|'. */
  function ValueLen(s: string): (n: nat)
    ensures n <= |s|
    ensures forall i :: 0 <= i < n ==> !EndsValue(s[i])
    ensures n < |s| ==> EndsValue(s[n])
    decreases |s|
  {
    if |s| > 0 && !EndsValue(s[0]) then 1 + ValueLen(s[1..]) else 0
  }

  /**
   * `findall`: at the first position where a word run is directly followed
   * by '=', the run is the key and the value runs to the next whitespace,
   * '|' or the end; that one terminator is consumed and the scan resumes.
   * Positions where nothing matches are skipped one at a time.
   */
  function FindAll(s: string): seq<(string, string)>
    decreases |s|
  {
    if |s| == 0 then []
    else if StartsField(s) then [FieldAt(s)] + FindAll(AfterField(s))
    else FindAll(s[1..])
  }

  /** The text begins with a word run directly followed by '='. */
  predicate StartsField(s: string) {
    0 < WordRun(s) < |s| && s[WordRun(s)] == '='
  }

  /** The key and value of the field the text begins with. */
  function FieldAt(s: string): (string, string)
    requires StartsField(s)
  {
    var k := WordRun(s);
    (s[..k], s[k + 1..][..ValueLen(s[k + 1..])])
  }

  /** Where the scan resumes after the field the text begins with: past its one terminator, or at the end. */
  function AfterField(s: string): (r: string)
    requires StartsField(s)
    ensures |r| < |s| && r == s[|s| - |r|..]
  {
    var rest := s[WordRun(s) + 1..];
    var n := ValueLen(rest);
    if n < |rest| then rest[n + 1..] else []
  }

  /** The dict the client fills from the matches: values unescaped, a later key overwriting an earlier one. */
  function DictOf(matches: seq<(string, string)>): map<string, Value>
    decreases |matches|
  {
    if matches == [] then map[]
    else
      var last := matches[|matches| - 1];
      DictOf(matches[..|matches| - 1])[last.0 := Unescape(last.1)]
  }

  /** The fields of one record (or of the status text). */
  function Record(text: string): map<string, Value>
  {
    DictOf(FindAll(text))
  }

  /** One more match sets one more key. */
  lemma DictOfPrefix(matches: seq<(string, string)>, i: nat)
    requires i < |matches|
    ensures DictOf(matches[..i + 1]) == DictOf(matches[..i])[matches[i].0 := Unescape(matches[i].1)]
  {
    assert matches[..i + 1][..i] == matches[..i];
  }

  lemma DictOfWhole(matches: seq<(string, string)>)
    ensures DictOf(matches[..|matches|]) == DictOf(matches)
  {
    assert matches[..|matches|] == matches;
  }

  /** The loop that turns the matches of one text into a dict. */
  method ParseFields(text: string) returns (fields: map<string, Value>)
    ensures fields == Record(text)
  {
    var matches := FindAll(text);
    fields := map[];
    var i := 0;
    while i < |matches|
      invariant 0 <= i <= |matches|
      invariant fields == DictOf(matches[..i])
    {
      DictOfPrefix(matches, i);
      fields := fields[matches[i].0 := Unescape(matches[i].1)];
      i := i + 1;
    }
    DictOfWhole(matches);
  }

  // ---------------------------------------------------------------------------
  // What the grammar matches

  lemma ContainsInSuffix(s: string, m: nat, w: string)
    requires m <= |s| && Contains(s[m..], w)
    ensures Contains(s, w)
  {
    var i :| 0 <= i <= |s[m..]| && OccursAt(s[m..], w, i);
    assert s[m + i..m + i + |w|] == s[m..][i..i + |w|];
    assert OccursAt(s, w, m + i);
  }

  /** A text begins with its own key, '=' and the first `n` characters after it. */
  lemma PrefixOccurs(s: string, k: nat, n: nat)
    requires k < |s| && s[k] == '=' && n <= |s[k + 1..]|
    ensures OccursAt(s, s[..k] + "=" + s[k + 1..][..n], 0)
  {
    var rest := s[k + 1..];
    var w := s[..k] + "=" + rest[..n];
    assert |w| == k + 1 + n;
    forall i | 0 <= i < |w| ensures s[i] == w[i] {
      if i > k {
        assert w[i] == rest[..n][i - k - 1] == s[i];
      }
    }
    assert s[0..|w|] == w;
  }

  /** The match found at the start of a text that begins with `key=`. */
  lemma FirstMatch(s: string, key: string, value: string)
    requires StartsField(s) && (key, value) == FieldAt(s)
    ensures IsKey(key) && IsPlainValue(value) && OccursAt(s, key + "=" + value, 0)
  {
    var k := WordRun(s);
    var rest := s[k + 1..];
    var n := ValueLen(rest);
    assert IsKey(s[..k]) by {
      forall i | 0 <= i < k ensures IsWordChar(s[..k][i]) {
        assert s[..k][i] == s[i];
      }
    }
    assert IsPlainValue(rest[..n]) by {
      forall i | 0 <= i < n ensures !EndsValue(rest[..n][i]) {
        assert rest[..n][i] == rest[i];
      }
    }
    PrefixOccurs(s, k, n);
  }

  /** A match other than the first is a match of the text after the first field. */
  lemma LaterMatch(s: string, key: string, value: string)
    requires StartsField(s) && (key, value) in FindAll(s) && (key, value) != FieldAt(s)
    ensures (key, value) in FindAll(AfterField(s))
  {
    assert FindAll(s) == [FieldAt(s)] + FindAll(AfterField(s));
  }

  /** What occurs after the first field occurs in the text. */
  lemma ContainsAfterField(s: string, w: string)
    requires StartsField(s) && Contains(AfterField(s), w)
    ensures Contains(s, w)
  {
    ContainsInSuffix(s, |s| - |AfterField(s)|, w);
  }

  /**
   * Every match is a key of word characters directly followed by '=' and a
   * value that contains no whitespace and no '|', and it occurs in the text.
   */
  lemma {:induction false} FindAllSound(s: string, key: string, value: string)
    requires (key, value) in FindAll(s)
    ensures IsKey(key) && IsPlainValue(value)
    ensures Contains(s, key + "=" + value)
    decreases |s|
  {
    if StartsField(s) {
      if (key, value) == FieldAt(s) {
        FirstMatch(s, key, value);
      } else {
        LaterMatch(s, key, value);
        FindAllSound(AfterField(s), key, value);
        ContainsAfterField(s, key + "=" + value);
      }
    } else if |s| > 0 {
      FindAllSound(s[1..], key, value);
      ContainsInSuffix(s, 1, key + "=" + value);
    }
  }

  /** Text without '=' has no fields. */
  lemma {:induction false} FindAllNeedsEquals(s: string)
    requires '=' !in s
    ensures FindAll(s) == []
    decreases |s|
  {
    if |s| > 0 {
      assert s[WordRun(s)..] != [] ==> s[WordRun(s)] in s;
      FindAllNeedsEquals(s[1..]);
    }
  }

  lemma {:induction false} WordRunOfKey(k: string, t: string)
    requires IsKey(k) && |t| > 0 && !IsWordChar(t[0])
    ensures WordRun(k + t) == |k|
    decreases |k|
  {
    if |k| > 1 {
      assert (k + t)[1..] == k[1..] + t;
      WordRunOfKey(k[1..], t);
    } else {
      assert (k + t)[1..] == t;
    }
  }

  lemma {:induction false} ValueLenOfValue(v: string, t: string)
    requires IsPlainValue(v) && (t == [] || EndsValue(t[0]))
    ensures ValueLen(v + t) == |v|
    decreases |v|
  {
    if v == [] {
      assert v + t == t;
    } else {
      assert (v + t)[1..] == v[1..] + t;
      ValueLenOfValue(v[1..], t);
    }
  }

  /** One field `key=value` before a terminator (or the end) is matched whole, and the scan goes on after the terminator. */
  lemma FindAllField(k: string, v: string, t: string)
    requires IsKey(k) && IsPlainValue(v) && (t == [] || EndsValue(t[0]))
    ensures FindAll(k + "=" + v + t) == [(k, v)] + FindAll(if t == [] then [] else t[1..])
  {
    var s := k + "=" + v + t;
    var rest := v + t;
    assert s[..|k|] == k && s[|k|] == '=' && s[|k| + 1..] == rest by {
      assert s == k + ("=" + rest);
    }
    assert WordRun(s) == |k| by {
      assert s == k + ("=" + rest);
      WordRunOfKey(k, "=" + rest);
    }
    assert ValueLen(rest) == |v| by {
      ValueLenOfValue(v, t);
    }
    assert FieldAt(s) == (k, v) by {
      assert rest[..|v|] == v;
    }
    assert AfterField(s) == if t == [] then [] else t[1..] by {
      if t != [] {
        assert rest[|v| + 1..] == t[1..];
      }
    }
  }

  // ---------------------------------------------------------------------------
  // The dict

  /** The keys of the dict grow by the key of the last match. */
  lemma DictOfKeysStep(matches: seq<(string, string)>, k: string)
    requires matches != []
    ensures k in DictOf(matches) <==> k in DictOf(matches[..|matches| - 1]) || k == matches[|matches| - 1].0
  {
    var last := matches[|matches| - 1];
    assert DictOf(matches) == DictOf(matches[..|matches| - 1])[last.0 := Unescape(last.1)];
  }

  /** A key is in the dict exactly when some match has it. */
  lemma {:induction false} DictKeys(matches: seq<(string, string)>, k: string)
    ensures k in DictOf(matches) <==> exists i :: 0 <= i < |matches| && matches[i].0 == k
    decreases |matches|
  {
    if matches != [] {
      var init, last := matches[..|matches| - 1], matches[|matches| - 1];
      assert k in DictOf(matches) <==> k in DictOf(init) || k == last.0 by {
        DictOfKeysStep(matches, k);
      }
      assert k in DictOf(init) <==> exists i :: 0 <= i < |init| && init[i].0 == k by {
        DictKeys(init, k);
      }
      assert (exists i :: 0 <= i < |matches| && matches[i].0 == k) <==>
             (exists i :: 0 <= i < |init| && init[i].0 == k) || k == last.0 by {
        if exists i :: 0 <= i < |init| && init[i].0 == k {
          var i :| 0 <= i < |init| && init[i].0 == k;
          assert matches[i].0 == k;
        }
        if exists i :: 0 <= i < |matches| && matches[i].0 == k {
          var i :| 0 <= i < |matches| && matches[i].0 == k;
          if i < |init| {
            assert init[i].0 == k;
          }
        }
      }
    }
  }

  /** Duplicate keys: the dict holds the value of the last match with that key. */
  lemma {:induction false} DictLastWins(matches: seq<(string, string)>, j: nat)
    requires j < |matches|
    requires forall i :: j < i < |matches| ==> matches[i].0 != matches[j].0
    ensures matches[j].0 in DictOf(matches)
    ensures DictOf(matches)[matches[j].0] == Unescape(matches[j].1)
    decreases |matches|
  {
    var init := matches[..|matches| - 1];
    if j < |matches| - 1 {
      assert init[j] == matches[j];
      forall i | j < i < |init|
        ensures init[i].0 != init[j].0
      {
        assert init[i] == matches[i];
      }
      DictLastWins(init, j);
    }
  }

  /** An empty record (as between two adjacent '|') gives an empty dict. */
  lemma EmptyRecord()
    ensures Record("") == map[]
  {
  }
}
