/**
 * The TeamSpeak 3 ServerQuery client (`ServerQuery` in calladmin.py) with
 * the socket taken out: the command line it writes, and the parse of the
 * text it reads back up to the `msg=ok` marker, given here as a string.
 */
module ServerQuery {
  import opened Wrappers
  import opened Text
  import opened Escaping
  import opened Fields

  /** What a command returns: one dict, or a list of dicts (one per '|'-separated record). */
  datatype Info = Single(fields: map<string, Value>) | Records(records: seq<map<string, Value>>)

  /** The exceptions `command` raises: TS3Error(code, msg, msg2), and the KeyError of a status without `msg`. */
  datatype QueryError =
    | TS3Error(code: Value, msg: Value, status: map<string, Value>)
    | KeyError(key: string)

  /** The text that separates the body of a response from its status. */
  const ErrorMarker: string := "error id="

  /** Raised with code 12 when the response has no status part. */
  const BadResponse: QueryError := TS3Error(Int(12), Str("bad TS3 response"), map[])

  /** Raised with code 10 by connect when the TCP connection cannot be opened. */
  const CouldNotConnect: QueryError := TS3Error(Int(10), Str("could not connect to the teamspeak 3 server query"), map[])

  /** Raised with code 20 by connect when the greeting does not end with the banner. */
  const NotAQueryInterface: QueryError := TS3Error(Int(20), Str("this is not a teamspeak 3 server query interface"), map[])

  /**
   * What the query port does when connect() reaches for it: the TCP
   * connection is refused, or it opens and `arrived` is the text that comes
   * in before the timeout, with `closed` telling whether the server closed
   * the link in that time.
   */
  datatype Link = Unreachable | Open(arrived: string, closed: bool)

  /** What connect() raises: a TS3Error, or telnetlib's EOFError. */
  datatype ConnectError = Query(error: QueryError) | EndOfFile

  /** connect(): the text read until the banner (or the timeout) must end with "TS3". */
  function CheckBanner(greeting: string): Result<bool, QueryError>
  {
    if EndsWith(greeting, "TS3") then Success(true) else Failure(NotAQueryInterface)
  }

  /**
   * telnetlib's `read_until(marker)` over the text `arrived` that reaches the
   * socket before the timeout: everything up to and including the first
   * occurrence of the marker, or all of it when the marker never comes;
   * None for the EOFError raised when the link was closed with nothing read.
   */
  function ReadUntil(arrived: string, closed: bool, marker: string): Option<string>
  {
    if closed && arrived == [] && marker != [] then None
    else Some(ReadUntilFrom(arrived, marker, 0))
  }

  /** The scan of ReadUntil from prefix length k on. */
  function ReadUntilFrom(arrived: string, marker: string, k: nat): (r: string)
    requires k <= |arrived|
    ensures k <= |r| <= |arrived| && r == arrived[..|r|]
    ensures EndsWith(r, marker) || r == arrived
    decreases |arrived| - k
  {
    if EndsWith(arrived[..k], marker) then arrived[..k]
    else if k == |arrived| then arrived
    else ReadUntilFrom(arrived, marker, k + 1)
  }

  /** The scan's result ends with the marker exactly when some prefix of length k or more does. */
  lemma {:induction false} ReadUntilFromEnds(arrived: string, marker: string, k: nat)
    requires k <= |arrived|
    ensures EndsWith(ReadUntilFrom(arrived, marker, k), marker) <==>
      exists j :: k <= j <= |arrived| && EndsWith(arrived[..j], marker)
    decreases |arrived| - k
  {
    if !EndsWith(arrived[..k], marker) && k < |arrived| {
      ReadUntilFromEnds(arrived, marker, k + 1);
      if exists j :: k <= j <= |arrived| && EndsWith(arrived[..j], marker) {
        var j :| k <= j <= |arrived| && EndsWith(arrived[..j], marker);
        assert j != k;
      }
    } else if !EndsWith(arrived[..k], marker) {
      assert arrived[..k] == arrived;
    }
  }

  /** The scan stops at the first prefix of length k or more that ends with the marker. */
  lemma {:induction false} ReadUntilFromFirst(arrived: string, marker: string, k: nat)
    requires k <= |arrived|
    ensures forall j :: k <= j < |ReadUntilFrom(arrived, marker, k)| ==> !EndsWith(arrived[..j], marker)
    decreases |arrived| - k
  {
    if !EndsWith(arrived[..k], marker) && k < |arrived| {
      ReadUntilFromFirst(arrived, marker, k + 1);
    }
  }

  /** A marker occurs in a text exactly when some prefix of the text ends with it. */
  lemma ContainsAsPrefixEnd(arrived: string, m: string)
    ensures Contains(arrived, m) <==> exists j :: 0 <= j <= |arrived| && EndsWith(arrived[..j], m)
  {
    if Contains(arrived, m) {
      var i :| 0 <= i <= |arrived| && OccursAt(arrived, m, i);
      var j := i + |m|;
      assert arrived[..j][j - |m|..] == arrived[i..i + |m|];
      assert EndsWith(arrived[..j], m);
    }
    if exists j :: 0 <= j <= |arrived| && EndsWith(arrived[..j], m) {
      var j :| 0 <= j <= |arrived| && EndsWith(arrived[..j], m);
      assert arrived[j - |m|..j] == arrived[..j][j - |m|..];
      assert OccursAt(arrived, m, j - |m|);
    }
  }

  /**
   * read_until hands over a prefix of what arrived: the shortest one that
   * ends with the marker, or all of it when the marker does not occur; it
   * raises EOFError only on a closed link with nothing read.
   */
  lemma ReadUntilReads(arrived: string, closed: bool, marker: string)
    ensures ReadUntil(arrived, closed, marker).None? <==> closed && arrived == [] && marker != []
    ensures ReadUntil(arrived, closed, marker).Some? ==>
      var got := ReadUntil(arrived, closed, marker).value;
      && got == arrived[..|got|]
      && (forall j :: 0 <= j < |got| ==> !EndsWith(arrived[..j], marker))
      && (EndsWith(got, marker) <==> Contains(arrived, marker))
      && (!Contains(arrived, marker) ==> got == arrived)
  {
    ReadUntilFromEnds(arrived, marker, 0);
    ReadUntilFromFirst(arrived, marker, 0);
    ContainsAsPrefixEnd(arrived, marker);
  }

  /** connect(): open the link, read until the banner, and check that it came. */
  function Connect(link: Link): Result<bool, ConnectError>
  {
    match link
    case Unreachable => Failure(Query(CouldNotConnect))
    case Open(arrived, closed) =>
      match ReadUntil(arrived, closed, "TS3")
      case None => Failure(EndOfFile)
      case Some(output) =>
        match CheckBanner(output)
        case Success(b) => Success(b)
        case Failure(e) => Failure(Query(e))
  }

  /**
   * connect() succeeds exactly when the link opens and "TS3" arrives before
   * the timeout. Otherwise it raises code 10 for a refused connection,
   * EOFError for a link closed before anything arrived, and code 20 for
   * any other text without the banner.
   */
  lemma ConnectNeedsBanner(link: Link)
    ensures Connect(link).Success? <==> link.Open? && Contains(link.arrived, "TS3")
    ensures link.Unreachable? ==> Connect(link) == Failure(Query(CouldNotConnect))
    ensures link.Open? && !Contains(link.arrived, "TS3") ==>
      Connect(link) == Failure(if link.closed && link.arrived == [] then EndOfFile else Query(NotAQueryInterface))
  {
    if link.Open? {
      ReadUntilReads(link.arrived, link.closed, "TS3");
    }
  }

  // ---------------------------------------------------------------------------
  // The command line

  /** ` key=escaped(value)` */
  function ParamText(p: (string, Value)): (r: string)
    ensures |r| > |p.0| + 1 && r[0] == ' '
  {
    " " + p.0 + "=" + Escape(p.1)
  }

  function ParamsText(params: seq<(string, Value)>): (r: string)
    ensures params != [] ==> |r| > 0 && r[0] == ' '
    decreases |params|
  {
    if params == [] then "" else ParamText(params[0]) + ParamsText(params[1..])
  }

  /** ` -option` */
  function OptionText(option: string): string
  {
    " -" + option
  }

  function OptionsText(options: seq<string>): (r: string)
    ensures options != [] ==> |r| >= 2 && r[..2] == " -"
    decreases |options|
  {
    if options == [] then "" else OptionText(options[0]) + OptionsText(options[1..])
  }

  /** The line `command` writes: the command, its parameters, its options and one newline. */
  function CommandLine(cmd: string, params: seq<(string, Value)>, options: seq<string>): string
  {
    cmd + ParamsText(params) + OptionsText(options) + "\n"
  }

  lemma {:induction false} ParamsTextSnoc(params: seq<(string, Value)>, p: (string, Value))
    ensures ParamsText(params + [p]) == ParamsText(params) + ParamText(p)
    decreases |params|
  {
    if params == [] {
      assert params + [p] == [p];
    } else {
      assert (params + [p])[1..] == params[1..] + [p];
      ParamsTextSnoc(params[1..], p);
    }
  }

  lemma {:induction false} OptionsTextSnoc(options: seq<string>, o: string)
    ensures OptionsText(options + [o]) == OptionsText(options) + OptionText(o)
    decreases |options|
  {
    if options == [] {
      assert options + [o] == [o];
    } else {
      assert (options + [o])[1..] == options[1..] + [o];
      OptionsTextSnoc(options[1..], o);
    }
  }

  lemma ParamsTextPrefix(params: seq<(string, Value)>, i: nat)
    requires i < |params|
    ensures ParamsText(params[..i + 1]) == ParamsText(params[..i]) + ParamText(params[i])
  {
    assert params[..i + 1] == params[..i] + [params[i]];
    ParamsTextSnoc(params[..i], params[i]);
  }

  /** One turn of the parameter loop: appending the next ` key=value` extends the line by one parameter. */
  lemma ParamsTextStep(head: string, params: seq<(string, Value)>, i: nat, line: string)
    requires i < |params| && line == head + ParamsText(params[..i])
    ensures line + ParamText(params[i]) == head + ParamsText(params[..i + 1])
  {
    var done, piece, next := ParamsText(params[..i]), ParamText(params[i]), ParamsText(params[..i + 1]);
    assert next == done + piece by {
      ParamsTextPrefix(params, i);
    }
    assert line + piece == head + (done + piece) by {
      assert line == head + done;
      assert |line + piece| == |head + (done + piece)|;
      forall k | 0 <= k < |line + piece| ensures (line + piece)[k] == (head + (done + piece))[k] {
        if k >= |head| {
          assert (line + piece)[k] == (done + piece)[k - |head|];
        }
      }
    }
  }

  /** One turn of the option loop. */
  lemma OptionsTextStep(head: string, options: seq<string>, j: nat, line: string)
    requires j < |options| && line == head + OptionsText(options[..j])
    ensures line + OptionText(options[j]) == head + OptionsText(options[..j + 1])
  {
    assert options[..j + 1] == options[..j] + [options[j]];
    OptionsTextSnoc(options[..j], options[j]);
  }

  lemma ParamsTextWhole(params: seq<(string, Value)>)
    ensures ParamsText(params[..|params|]) == ParamsText(params)
  {
    assert params[..|params|] == params;
  }

  lemma OptionsTextWhole(options: seq<string>)
    ensures OptionsText(options[..|options|]) == OptionsText(options)
  {
    assert options[..|options|] == options;
  }

  /** The dict a caller hands to `command`, built from the pairs in order (a later key wins). */
  function ParamsMap(params: seq<(string, Value)>): map<string, Value>
    decreases |params|
  {
    if params == [] then map[]
    else
      var last := params[|params| - 1];
      ParamsMap(params[..|params| - 1])[last.0 := last.1]
  }

  // ---------------------------------------------------------------------------
  // The response

  /** The pieces of the response around `error id=`. */
  function Pieces(response: string): (pieces: seq<string>)
    ensures |pieces| >= 1
  {
    Split(response, ErrorMarker)
  }

  /** The status fields: `id=` followed by the text between the first and the second `error id=`. */
  function StatusFields(response: string): map<string, Value>
  {
    var pieces := Pieces(response);
    if |pieces| > 1 then Record("id=" + pieces[1]) else map[]
  }

  /** The records of the body: the text before `error id=`, split on '|'. */
  function BodyRecords(response: string): (records: seq<string>)
    ensures |records| >= 1
  {
    Split(Pieces(response)[0], "|")
  }

  /** The body as `command` returns it: a list when the command ends with "list" or there are several records. */
  function BodyInfo(cmd: string, records: seq<string>): (info: Info)
    requires |records| >= 1
    ensures info.Records? <==> EndsWith(cmd, "list") || |records| > 1
    ensures info.Records? ==>
      (|info.records| == |records| && forall i :: 0 <= i < |records| ==> info.records[i] == Record(records[i]))
    ensures info.Single? ==> info.fields == Record(records[0])
  {
    if EndsWith(cmd, "list") || |records| > 1 then
      Records(seq(|records|, i requires 0 <= i < |records| => Record(records[i])))
    else
      Single(Record(records[0]))
  }

  /** What `command` returns or raises for the text it read. */
  function Parse(cmd: string, response: string): Result<Info, QueryError>
  {
    if |Pieces(response)| < 2 then Failure(BadResponse)
    else
      var status := StatusFields(response);
      var info := BodyInfo(cmd, BodyRecords(response));
      if "id" !in status then Failure(KeyError("id"))
      else if status["id"] != Int(0) then
        if "msg" in status then Failure(TS3Error(status["id"], status["msg"], status))
        else Failure(KeyError("msg"))
      else Success(info)
  }

  /** The first loop of `command`: one ` key=escaped` per parameter, in order. */
  method AppendParams(cmd: string, params: seq<(string, Value)>) returns (line: string)
    ensures line == cmd + ParamsText(params)
  {
    line := cmd;
    var i := 0;
    while i < |params|
      invariant 0 <= i <= |params|
      invariant line == cmd + ParamsText(params[..i])
    {
      ParamsTextStep(cmd, params, i, line);
      line := line + ParamText(params[i]);
      i := i + 1;
    }
    ParamsTextWhole(params);
  }

  /** The second loop of `command`: one ` -option` per option, in order. */
  method AppendOptions(head: string, options: seq<string>) returns (line: string)
    ensures line == head + OptionsText(options)
  {
    line := head;
    var j := 0;
    while j < |options|
      invariant 0 <= j <= |options|
      invariant line == head + OptionsText(options[..j])
    {
      OptionsTextStep(head, options, j, line);
      line := line + OptionText(options[j]);
      j := j + 1;
    }
    OptionsTextWhole(options);
  }

  /** The line `command` writes. */
  method BuildLine(cmd: string, params: seq<(string, Value)>, options: seq<string>) returns (line: string)
    ensures line == CommandLine(cmd, params, options)
  {
    line := AppendParams(cmd, params);
    line := AppendOptions(line, options);
    line := line + "\n";
  }

  /** The body loops of `command`: one dict per record, or the single dict. */
  method ParseBody(cmd: string, records: seq<string>) returns (info: Info)
    requires |records| >= 1
    ensures info == BodyInfo(cmd, records)
  {
    if EndsWith(cmd, "list") || |records| > 1 {
      var list: seq<map<string, Value>> := [];
      var r := 0;
      while r < |records|
        invariant 0 <= r <= |records| && |list| == r
        invariant forall q :: 0 <= q < r ==> list[q] == Record(records[q])
      {
        var fields := ParseFields(records[r]);
        list := list + [fields];
        r := r + 1;
      }
      info := Records(list);
    } else {
      var fields := ParseFields(records[0]);
      info := Single(fields);
    }
  }

  /** The second half of `command`: split the text, fill the body and the status, then check the status. */
  method ParseResponse(cmd: string, response: string) returns (result: Result<Info, QueryError>)
    ensures result == Parse(cmd, response)
  {
    var pieces := Split(response, ErrorMarker);
    if |pieces| < 2 {
      return Failure(BadResponse);
    }
    var info := ParseBody(cmd, Split(pieces[0], "|"));
    var status := ParseFields("id=" + pieces[1]);
    if "id" !in status {
      result := Failure(KeyError("id"));
    } else if status["id"] != Int(0) {
      if "msg" in status {
        result := Failure(TS3Error(status["id"], status["msg"], status));
      } else {
        result := Failure(KeyError("msg"));
      }
    } else {
      result := Success(info);
    }
  }

  /** `ServerQuery.command` without the socket: the line it writes and what it makes of the text read back. */
  method Command(cmd: string, params: seq<(string, Value)>, options: seq<string>, response: string)
    returns (line: string, result: Result<Info, QueryError>)
    ensures line == CommandLine(cmd, params, options)
    ensures result == Parse(cmd, response)
  {
    line := BuildLine(cmd, params, options);
    result := ParseResponse(cmd, response);
  }

  // ---------------------------------------------------------------------------
  // What the command line promises

  /** A parameter whose key or text value holds a line break. */
  predicate ParamNewline(p: (string, Value)) {
    '\n' in p.0 || (p.1.Str? && '\n' in p.1.s)
  }

  /** string2escaping keeps a line break of a text and never makes one. */
  lemma EscapeNewline(v: Value)
    ensures '\n' in Escape(v) <==> v.Str? && '\n' in v.s
  {
    if v.Str? {
      EscapedText(v.s, '\n');
    }
  }

  lemma {:induction false} ParamsTextNewline(params: seq<(string, Value)>)
    ensures '\n' in ParamsText(params) <==> exists i :: 0 <= i < |params| && ParamNewline(params[i])
    decreases |params|
  {
    if params != [] {
      var p := params[0];
      ParamsTextNewline(params[1..]);
      EscapeNewline(p.1);
      assert ParamText(p) == " " + p.0 + "=" + Escape(p.1);
      if exists i :: 0 <= i < |params| && ParamNewline(params[i]) {
        var i :| 0 <= i < |params| && ParamNewline(params[i]);
        if i > 0 {
          assert params[1..][i - 1] == params[i];
        }
      }
      if exists i :: 0 <= i < |params[1..]| && ParamNewline(params[1..][i]) {
        var i :| 0 <= i < |params[1..]| && ParamNewline(params[1..][i]);
        assert ParamNewline(params[i + 1]);
      }
    }
  }

  lemma {:induction false} OptionsTextNewline(options: seq<string>)
    ensures '\n' in OptionsText(options) <==> exists j :: 0 <= j < |options| && '\n' in options[j]
    decreases |options|
  {
    if options != [] {
      OptionsTextNewline(options[1..]);
      assert OptionText(options[0]) == " -" + options[0];
      if exists j :: 0 <= j < |options| && '\n' in options[j] {
        var j :| 0 <= j < |options| && '\n' in options[j];
        if j > 0 {
          assert options[1..][j - 1] == options[j];
        }
      }
      if exists j :: 0 <= j < |options[1..]| && '\n' in options[1..][j] {
        var j :| 0 <= j < |options[1..]| && '\n' in options[1..][j];
        assert options[j + 1] == options[1..][j];
      }
    }
  }

  /**
   * The line ends in exactly one newline: it starts with the command, its
   * last character is '\n', and no other character is a newline unless the
   * command, a key, a text value or an option brought one in.
   */
  lemma CommandLineNewline(cmd: string, params: seq<(string, Value)>, options: seq<string>)
    ensures var line := CommandLine(cmd, params, options);
      |line| > |cmd| && line[..|cmd|] == cmd && line[|line| - 1] == '\n' &&
      ('\n' in line[..|line| - 1] <==>
        '\n' in cmd
        || (exists i :: 0 <= i < |params| && ParamNewline(params[i]))
        || (exists j :: 0 <= j < |options| && '\n' in options[j]))
  {
    var body := cmd + ParamsText(params) + OptionsText(options);
    var line := CommandLine(cmd, params, options);
    assert line == body + "\n";
    assert line[..|line| - 1] == body;
    assert line[..|cmd|] == cmd;
    ParamsTextNewline(params);
    OptionsTextNewline(options);
  }

  // ---------------------------------------------------------------------------
  // Reading the parameters back

  /**
   * A parameter the field grammar reads back as it was given: a word-character
   * key, a value that survives the escaping round trip, and no tab, vertical
   * tab or form feed in a text (these are not escaped and would end the value).
   */
  predicate Sendable(p: (string, Value)) {
    IsKey(p.0) && RoundTrips(p.1) &&
    (p.1.Str? ==> '\t' !in p.1.s && '\U{B}' !in p.1.s && '\U{C}' !in p.1.s)
  }

  /** The matches the grammar should find in the parameters: each key with its escaped value. */
  function EscapedPairs(params: seq<(string, Value)>): (pairs: seq<(string, string)>)
    ensures |pairs| == |params|
  {
    seq(|params|, i requires 0 <= i < |params| => (params[i].0, Escape(params[i].1)))
  }

  /** The escaped value of a sendable parameter is one token of the field grammar. */
  lemma EscapePlain(p: (string, Value))
    requires Sendable(p)
    ensures IsPlainValue(Escape(p.1))
  {
    var e := Escape(p.1);
    if p.1.Str? {
      EscapedText(p.1.s, '\t');
      EscapedText(p.1.s, '\n');
      EscapedText(p.1.s, '\r');
      EscapedText(p.1.s, '\U{B}');
      EscapedText(p.1.s, '\U{C}');
    }
    forall i | 0 <= i < |e| ensures !EndsValue(e[i]) {
      if p.1.Int? {
        assert IsDigit(e[i]) || e[i] == '-';
      } else {
        assert e[i] in e;
      }
    }
  }

  /** A leading space is skipped by the scan. */
  lemma FindAllSkipsSpace(s: string)
    requires |s| > 0 && s[0] == ' '
    ensures FindAll(s) == FindAll(s[1..])
  {
    assert WordRun(s) == 0;
  }

  /** Parameter text is empty or starts with the space before a key. */
  lemma ParamsTextStart(params: seq<(string, Value)>)
    ensures ParamsText(params) == [] || ParamsText(params)[0] == ' '
  {
    if params != [] {
      var head := ParamText(params[0]);
      assert ParamsText(params) == head + ParamsText(params[1..]);
      assert ParamsText(params)[0] == head[0];
    }
  }

  /** The space in front of a parameter is skipped. */
  lemma FindAllParamSpace(k: string, e: string, t: string)
    ensures FindAll(" " + k + "=" + e + t) == FindAll(k + "=" + e + t)
  {
    var s := " " + k + "=" + e + t;
    FindAllSkipsSpace(s);
    assert s[1..] == k + "=" + e + t;
  }

  /** `key=value` followed by more parameter text is one match, and the scan goes on with that text. */
  lemma FindAllParamField(k: string, e: string, t: string)
    requires IsKey(k) && IsPlainValue(e) && (t == [] || t[0] == ' ')
    ensures FindAll(k + "=" + e + t) == [(k, e)] + FindAll(t)
  {
    FindAllField(k, e, t);
    if t != [] {
      FindAllSkipsSpace(t);
    }
  }

  /** ` key=value` followed by more parameter text is read back as one match. */
  lemma FindAllParamText(k: string, e: string, t: string)
    requires IsKey(k) && IsPlainValue(e) && (t == [] || t[0] == ' ')
    ensures FindAll(" " + k + "=" + e + t) == [(k, e)] + FindAll(t)
  {
    assert FindAll(" " + k + "=" + e + t) == FindAll(k + "=" + e + t) by {
      FindAllParamSpace(k, e, t);
    }
    assert FindAll(k + "=" + e + t) == [(k, e)] + FindAll(t) by {
      FindAllParamField(k, e, t);
    }
  }

  /** One parameter, followed by more parameter text, is read back as one match. */
  lemma FindAllParam(p: (string, Value), t: string)
    requires Sendable(p) && (t == [] || t[0] == ' ')
    ensures FindAll(ParamText(p) + t) == [(p.0, Escape(p.1))] + FindAll(t)
  {
    EscapePlain(p);
    FindAllParamText(p.0, Escape(p.1), t);
  }

  /** The grammar finds exactly the parameters in the text the first loop of `command` builds. */
  lemma EscapedPairsCons(params: seq<(string, Value)>)
    requires params != []
    ensures EscapedPairs(params) == [(params[0].0, Escape(params[0].1))] + EscapedPairs(params[1..])
  {
    var whole, tail := EscapedPairs(params), EscapedPairs(params[1..]);
    var cons := [(params[0].0, Escape(params[0].1))] + tail;
    forall i | 0 <= i < |whole| ensures whole[i] == cons[i] {
      if i > 0 {
        assert cons[i] == tail[i - 1];
      }
    }
  }

  lemma {:induction false} FindAllParams(params: seq<(string, Value)>)
    requires forall i :: 0 <= i < |params| ==> Sendable(params[i])
    ensures FindAll(ParamsText(params)) == EscapedPairs(params)
    decreases |params|
  {
    if params != [] {
      var p := params[0];
      var rest := ParamsText(params[1..]);
      assert ParamsText(params) == ParamText(p) + rest;
      assert FindAll(ParamText(p) + rest) == [(p.0, Escape(p.1))] + FindAll(rest) by {
        assert Sendable(p);
        ParamsTextStart(params[1..]);
        FindAllParam(p, rest);
      }
      assert FindAll(rest) == EscapedPairs(params[1..]) by {
        FindAllParams(params[1..]);
      }
      EscapedPairsCons(params);
    }
  }

  lemma {:induction false} DictOfEscaped(params: seq<(string, Value)>)
    requires forall i :: 0 <= i < |params| ==> Sendable(params[i])
    ensures DictOf(EscapedPairs(params)) == ParamsMap(params)
    decreases |params|
  {
    if params != [] {
      var n := |params|;
      var pairs := EscapedPairs(params);
      assert pairs[..n - 1] == EscapedPairs(params[..n - 1]) by {
        var init := EscapedPairs(params[..n - 1]);
        forall i | 0 <= i < n - 1 ensures pairs[..n - 1][i] == init[i] {
          assert params[..n - 1][i] == params[i];
        }
      }
      DictOfEscaped(params[..n - 1]);
      assert Sendable(params[n - 1]);
      EscapeRoundTrip(params[n - 1].1);
    }
  }

  /**
   * Reading the parameter text back with the field grammar gives the dict the
   * parameters came from, for every sendable parameter list.
   */
  lemma ParamsRecord(params: seq<(string, Value)>)
    requires forall i :: 0 <= i < |params| ==> Sendable(params[i])
    ensures Record(ParamsText(params)) == ParamsMap(params)
  {
    FindAllParams(params);
    DictOfEscaped(params);
  }

  // ---------------------------------------------------------------------------
  // What the parse promises

  /** The status text always yields an `id`: its own `id=` is the first match. */
  lemma StatusHasId(x: string)
    ensures "id" in Record("id=" + x)
  {
    var s := "id=" + x;
    assert IsKey("id");
    WordRunOfKey("id", "=" + x);
    assert s == "id" + ("=" + x);
    assert s[2] == '=' && s[..2] == "id";
    var matches := FindAll(s);
    assert matches[0].0 == "id";
    DictKeys(matches, "id");
  }

  /** The parse fails with code 12 exactly when the response holds no `error id=`. */
  lemma ParseNeedsMarker(cmd: string, response: string)
    ensures Parse(cmd, response) == Failure(BadResponse) <==> !Contains(response, ErrorMarker)
  {
    SplitFindsSeparator(response, ErrorMarker);
    var pieces := Pieces(response);
    if |pieces| >= 2 {
      StatusHasId(pieces[1]);
    }
  }

  /**
   * The TS3Error values `command` raises: code 12 with the fixed message and
   * no status when the marker is missing; otherwise code, msg and msg2 are
   * the status's `id`, its `msg` and the whole status dict, and the code is
   * never the integer 0.
   */
  lemma QueryErrors(cmd: string, response: string)
    ensures var r := Parse(cmd, response);
      r.Failure? && r.error.TS3Error? ==>
        r.error == BadResponse ||
        (var status := StatusFields(response);
         Contains(response, ErrorMarker) && r.error.status == status && "id" in status && "msg" in status &&
         r.error.code == status["id"] && r.error.msg == status["msg"] && r.error.code != Int(0))
  {
    ParseNeedsMarker(cmd, response);
  }

  /**
   * Once the marker is there: the result is the body exactly when the status
   * id is the integer 0; otherwise the error carries the status id, its msg
   * and the whole status, or is the KeyError of a status without msg.  The
   * KeyError for a missing `id` never happens.
   */
  lemma ParseStatus(cmd: string, response: string)
    requires Contains(response, ErrorMarker)
    ensures var status := StatusFields(response);
      "id" in status &&
      (Parse(cmd, response).Success? <==> status["id"] == Int(0)) &&
      (Parse(cmd, response).Success? ==> Parse(cmd, response).value == BodyInfo(cmd, BodyRecords(response))) &&
      (Parse(cmd, response).Failure? ==>
        if "msg" in status then Parse(cmd, response).error == TS3Error(status["id"], status["msg"], status)
        else Parse(cmd, response).error == KeyError("msg"))
  {
    SplitFindsSeparator(response, ErrorMarker);
    StatusHasId(Pieces(response)[1]);
  }

  /**
   * The body keeps its records in order: joining them with '|' gives back the
   * text before the first `error id=`, and joining the pieces with the marker
   * gives back the whole response.
   */
  lemma BodyRecordsJoin(response: string)
    ensures Join(BodyRecords(response), "|") == Pieces(response)[0]
    ensures Join(Pieces(response), ErrorMarker) == response
  {
    SplitJoin(Pieces(response)[0], "|");
    SplitJoin(response, ErrorMarker);
  }

  /** An occurrence of the marker cannot straddle the end of a body: 'e' appears only at its start. */
  lemma MarkerNoStraddle(body: string, i: nat)
    requires i < |body| < i + |ErrorMarker|
    ensures !OccursAt(body + ErrorMarker, ErrorMarker, i)
  {
    var s := body + ErrorMarker;
    var j := |body| - i;
    assert s[|body|] == 'e';
    assert ErrorMarker[j] != 'e';
    assert s[i..i + |ErrorMarker|][j] == s[|body|];
  }

  /** No occurrence of the marker can start inside a body that does not contain it. */
  lemma MarkerFirst(body: string)
    requires !Contains(body, ErrorMarker)
    ensures forall i :: 0 <= i < |body| ==> !OccursAt(body + ErrorMarker, ErrorMarker, i)
  {
    var s := body + ErrorMarker;
    forall i | 0 <= i < |body| ensures !OccursAt(s, ErrorMarker, i) {
      if i + |ErrorMarker| <= |body| {
        assert body[i..i + |ErrorMarker|] == s[i..i + |ErrorMarker|];
        assert OccursAt(s, ErrorMarker, i) ==> OccursAt(body, ErrorMarker, i);
      } else {
        MarkerNoStraddle(body, i);
      }
    }
  }

  lemma StatusShape(code: string, msg: string)
    ensures "id=" + code + " msg=" + msg == "id" + "=" + code + (" msg=" + msg)
    ensures (" msg=" + msg)[1..] == "msg" + "=" + msg + ""
  {
    assert (" msg=" + msg)[1..] == "msg=" + msg;
  }

  /** The status line of a reply: `id` and `msg` are its two matches. */
  lemma StatusMatches(code: string, msg: string)
    requires IsPlainValue(code) && IsPlainValue(msg)
    ensures FindAll("id=" + code + " msg=" + msg) == [("id", code), ("msg", msg)]
  {
    var rest := " msg=" + msg;
    assert IsKey("id") && IsKey("msg");
    StatusShape(code, msg);
    assert FindAll("id" + "=" + code + rest) == [("id", code)] + FindAll(rest[1..]) by {
      FindAllField("id", code, rest);
    }
    assert FindAll(rest[1..]) == [("msg", msg)] by {
      FindAllField("msg", msg, "");
    }
  }

  lemma DictOfPair(a: (string, string), b: (string, string))
    ensures DictOf([a, b]) == map[a.0 := Unescape(a.1)][b.0 := Unescape(b.1)]
  {
    var matches := [a, b];
    assert matches[..1] == [a] && matches[1] == b;
    assert DictOf(matches) == DictOf([a])[b.0 := Unescape(b.1)];
    assert [a][..0] == [];
    assert DictOf([a]) == map[][a.0 := Unescape(a.1)];
  }

  /** The status dict of a reply holds the unescaped `id` and `msg`. */
  lemma StatusRecord(code: string, msg: string)
    requires IsPlainValue(code) && IsPlainValue(msg)
    ensures Record("id=" + code + " msg=" + msg) == map["id" := Unescape(code), "msg" := Unescape(msg)]
  {
    StatusMatches(code, msg);
    DictOfPair(("id", code), ("msg", msg));
  }

  /** The status text of a reply holds no second marker: the marker's space would have to be the one before `msg`. */
  lemma StatusHasNoMarker(code: string, msg: string)
    requires IsPlainValue(code) && IsPlainValue(msg)
    ensures !Contains(code + " msg=" + msg, ErrorMarker)
  {
    var s := code + " msg=" + msg;
    forall i | 0 <= i <= |s| ensures !OccursAt(s, ErrorMarker, i) {
      if i + |ErrorMarker| <= |s| {
        var w := s[i..i + |ErrorMarker|];
        assert w[5] == s[i + 5];
        assert w[6] == s[i + 6];
        if i + 5 < |code| {
          assert s[i + 5] == code[i + 5];
          assert !EndsValue(code[i + 5]);
        } else if i + 5 > |code| + 4 {
          assert s[i + 5] == msg[i + 5 - |code| - 5];
          assert !EndsValue(msg[i + 5 - |code| - 5]);
        }
        if i + 5 == |code| {
          assert s[i + 6] == 'm';
        }
      }
    }
  }

  /** The first piece of a split is the whole text when the separator does not occur. */
  lemma SplitWhole(x: string, sep: string)
    requires |sep| > 0 && !Contains(x, sep)
    ensures Split(x, sep) == [x]
  {
    SplitFindsSeparator(x, sep);
    SplitJoin(x, sep);
  }

  /**
   * Every reply of the form body, `error id=`, code, ` msg=`, message (body
   * without the marker, code and message without whitespace or '|'): the
   * body's records when the code reads as the integer 0, and otherwise the
   * TS3Error with that code, that message and the status dict.
   */
  lemma ParseReply(cmd: string, body: string, code: string, msg: string)
    requires !Contains(body, ErrorMarker) && IsPlainValue(code) && IsPlainValue(msg)
    ensures var status := map["id" := Unescape(code), "msg" := Unescape(msg)];
      Parse(cmd, body + ErrorMarker + code + " msg=" + msg) ==
        if Unescape(code) == Int(0) then Success(BodyInfo(cmd, Split(body, "|")))
        else Failure(TS3Error(Unescape(code), Unescape(msg), status))
  {
    var tail := code + " msg=" + msg;
    var response := body + ErrorMarker + code + " msg=" + msg;
    assert response == body + ErrorMarker + tail;
    assert Pieces(response) == [body, tail] by {
      MarkerFirst(body);
      SplitFirst(body, ErrorMarker, tail);
      StatusHasNoMarker(code, msg);
      SplitWhole(tail, ErrorMarker);
    }
    assert StatusFields(response) == map["id" := Unescape(code), "msg" := Unescape(msg)] by {
      assert "id=" + tail == "id=" + code + " msg=" + msg;
      StatusRecord(code, msg);
    }
  }

  /** int("0") as escaping2string reads it. */
  lemma ZeroCode()
    ensures Unescape("0") == Int(0)
  {
    assert IntToString(0) == "0";
    EscapeRoundTrip(Int(0));
  }

  lemma OkReplyShape(body: string)
    ensures IsPlainValue("0") && IsPlainValue("ok")
    ensures body + ErrorMarker + "0" + " msg=" + "ok" == body + "error id=0 msg=ok"
  {
    assert ErrorMarker + "0" + " msg=" + "ok" == "error id=0 msg=ok";
  }

  /** The usual success reply `error id=0 msg=ok` yields the body. */
  lemma ParseOk(cmd: string, body: string)
    requires !Contains(body, ErrorMarker)
    ensures Parse(cmd, body + "error id=0 msg=ok") == Success(BodyInfo(cmd, Split(body, "|")))
  {
    OkReplyShape(body);
    ParseReply(cmd, body, "0", "ok");
    ZeroCode();
  }
}
