# calladmin: the TeamSpeak 3 ServerQuery codec and the admin-request state

A Dafny model of the B3 plugin `extplugins/calladmin.py`: a game-server
player types `!calladmin <reason>`, and the plugin posts the request on a
TeamSpeak 3 server through its ServerQuery text interface. It then keeps one
pending request until an admin joins the game server or the requester
leaves.

The model has three parts:

- **The ServerQuery codec.** The socket is taken out.
  - `string2escaping` and `escaping2string` become `Escape` and `Unescape`.
  - The field regular expression and `findall` become `FindAll`, a scanner
    over strings.
  - `command` becomes two things: the line it writes (`CommandLine`, built by
    the methods `AppendParams`, `AppendOptions` and `BuildLine`), and what it
    makes of the text read back (`Parse`, computed by the loops of
    `ParseBody` and `ParseResponse`).
- **The pending admin request.** The class `CalladminPlugin` owns the
  `adminRequest` field. Its methods `CmdCalladmin`, `OnConnect` and
  `OnDisconnect` set and clear it, and each is proved against a transition
  function.
- **Two text helpers.** `TimeString` is `get_time_string`. `StripColours`
  deletes B3 colour codes.

Files:

- `wrappers.dfy`: `Option` and `Result`.
- `text.dfy`: the Python `str` operations the code uses: `replace`, `split`,
  `endswith`, `str(int)` and `int(str)`.
- `escaping.dfy`: values and their escaping.
- `fields.dfy`: the field grammar and the dict built from its matches.
- `server_query.dfy`: the command line and the response parse.
- `calladmin.dfy`: the plugin.

The model follows the code where descriptions of the plugin say otherwise.
There is no cooldown: a pending request blocks every new one until an admin
connects or the requester disconnects. The plugin is Python 2 code, so
`s/60` and `s/3600` floor, and `round` of the whole count changes nothing
below 2^53 hours: 90 seconds gives "1 minute".

## Model

| member | source | states |
|---|---|---|
| Text.Replace | extplugins/calladmin.py:402-406 | `str.replace`: every non-overlapping occurrence, found left to right, is replaced; a replacement no longer than the pattern never lengthens the text, and one no shorter never shortens it |
| Text.Split | extplugins/calladmin.py:453 | `str.split` on a non-empty separator: the pieces between its occurrences, always at least one, so the first piece at line 460 exists |
| Text.EndsWith | extplugins/calladmin.py:382 | `str.endswith`: the text is at least as long as the suffix and ends with it (a definition, used by `CheckBanner` and `BodyInfo`) |
| Text.IntToString | extplugins/calladmin.py:419-420 | `str(n)`: a non-empty text of decimal digits with a leading '-' only for a negative n |
| Text.ParseInt | extplugins/calladmin.py:407-409 | `int(s)` in base 10: surrounding whitespace ignored, an optional sign, at least one digit, otherwise None for the ValueError (a definition; `ParseIntToString` and `ParseIntNeedsDigits` state its properties) |
| Text.ParseIntToString | extplugins/calladmin.py:407-409 | `int()` reads the decimal text of every integer back as that integer |
| Text.ParseIntNeedsDigits | extplugins/calladmin.py:407-412 | text without a digit is never an int, so `escaping2string` returns it as text |
| Text.SplitJoin | extplugins/calladmin.py:453 | `split` loses nothing: joining the pieces with the separator gives the text back |
| Text.SplitFindsSeparator | extplugins/calladmin.py:453-458 | `split` gives more than one piece exactly when the separator occurs |
| Text.SplitFirst | extplugins/calladmin.py:453 | when the first occurrence of the separator follows `a`, `a` is the first piece and the rest is split on |
| Escaping.EscapeText | extplugins/calladmin.py:423-425 | the three `replace` calls of `string2escaping` in the code's order; escaping never shortens a text |
| Escaping.Escape | extplugins/calladmin.py:414-426 | `string2escaping`: the result never holds a space or '\|', and an int's text reads back as that int |
| Escaping.CleanText | extplugins/calladmin.py:401-406 | the replace chain of `escaping2string`: the result holds no '\n' and no '\r' and is never longer than the input |
| Escaping.Unescape | extplugins/calladmin.py:396-412 | `escaping2string`: the cleaned text, which holds no line break, as an int when `int()` accepts it and otherwise as text (a definition; `EscapeRoundTrip` states what it undoes) |
| Escaping.EscapeTextIsForm | extplugins/calladmin.py:423-425 | the three `replace` calls in the code's order write each '/', space and '\|' as its own escape pair and change nothing else |
| Escaping.EscapedText | extplugins/calladmin.py:414-426 | an escaped text holds no space and no '\|'; every character other than '/', space, '\|', backslash, 's' and 'p' (which the escape pairs produce), line breaks included, is there exactly when it was in the input |
| Escaping.CleanEscapedText | extplugins/calladmin.py:396-406 | the replace chain of `escaping2string` undoes the escaping of any text without backslash or line break |
| Escaping.CleanIntText | extplugins/calladmin.py:401-420 | the decimal text that lines 419-420 write for an int passes the replace chain of lines 402-406 unchanged |
| Escaping.EscapeRoundTrip | extplugins/calladmin.py:396-426 | `escaping2string(string2escaping(v)) == v` for every int and for every text without backslash or line break that `int()` rejects |
| Escaping.EscapeNotInjective | extplugins/calladmin.py:423-425 | a backslash is not escaped, so the texts `\s` and a space share one encoding |
| Escaping.RoundTripDropsLineBreak | extplugins/calladmin.py:405-406 | a line break does not survive the round trip: "a\nb" comes back as "ab" |
| Escaping.RoundTripReadsInt | extplugins/calladmin.py:407-409 | a text that `int()` accepts comes back as an int: " 5" comes back as 5 |
| Fields.FindAll | extplugins/calladmin.py:361 | `findall` with the field expression: at the first place a word run is followed by '=', one match of key and value, then the scan resumes after one terminator (a definition; `FindAllSound`, `FindAllNeedsEquals` and `FindAllField` state its properties) |
| Fields.DictOf | extplugins/calladmin.py:466-468 | the dict the loops of lines 466-468, 471-474 and 476-479 fill: each match's value unescaped, a later key overwriting an earlier one (a definition; `DictKeys` and `DictLastWins` state its properties) |
| Fields.Record | extplugins/calladmin.py:465-468 | the dict of one text's matches (a definition) |
| Fields.WordRun | extplugins/calladmin.py:361 | the longest prefix of word characters `[A-Za-z0-9_]` |
| Fields.ValueLen | extplugins/calladmin.py:361 | the value runs to the first whitespace or '\|', or to the end |
| Fields.FindAllSound | extplugins/calladmin.py:361 | every match has a word-character key and a value without whitespace or '\|', and `key=value` occurs in the text |
| Fields.FindAllNeedsEquals | extplugins/calladmin.py:361 | text without '=' has no matches |
| Fields.FindAllField | extplugins/calladmin.py:361 | `key=value` followed by a terminator is one match; the scan resumes after that one terminator |
| Fields.ParseFields | extplugins/calladmin.py:472-474 | the loop fills exactly the dict of the matches, each value unescaped, in order |
| Fields.DictKeys | extplugins/calladmin.py:466-468 | a key is in the dict exactly when some match has it |
| Fields.DictLastWins | extplugins/calladmin.py:467-468 | a duplicate key keeps the value of its last match |
| ServerQuery.CheckBanner | extplugins/calladmin.py:382-383 | the banner check of `connect`: success when the text read ends with "TS3", otherwise the code-20 error (a definition; `ConnectNeedsBanner` states its meaning) |
| ServerQuery.ReadUntil | extplugins/calladmin.py:381 | `read_until("TS3", self._timeout)` over the cooked text that arrives before the timeout: EOFError (None) on a link closed with nothing read, otherwise the text up to and including the first "TS3", or all of it (a definition; `ReadUntilReads` states its properties) |
| ServerQuery.ReadUntilReads | extplugins/calladmin.py:381 | `read_until` raises EOFError exactly on a closed link with nothing read; otherwise it returns a prefix of what arrived, no shorter prefix ends with the marker, the result ends with the marker exactly when the marker occurs, and without the marker it is all of the text |
| ServerQuery.Connect | extplugins/calladmin.py:372-385 | `connect`: code 10 when the TCP connection is refused, EOFError from `read_until`, code 20 when the text read does not end with "TS3", otherwise True (a definition; `ConnectNeedsBanner` states its meaning) |
| ServerQuery.ConnectNeedsBanner | extplugins/calladmin.py:377-385 | `connect` succeeds exactly when the link opens and "TS3" occurs in what the server sends before the timeout; a refused connection raises code 10; without the banner it raises EOFError when the link was closed with nothing sent and code 20 otherwise |
| ServerQuery.ParamsText | extplugins/calladmin.py:439-440 | the text the parameter loop appends; when there is a parameter it starts with a space, so the command stays a token of its own |
| ServerQuery.OptionsText | extplugins/calladmin.py:441-442 | the text the option loop appends; when there is an option it starts with " -" |
| ServerQuery.CommandLine | extplugins/calladmin.py:438-444 | the line `command` writes (a definition; `BuildLine` computes it and `CommandLineNewline` states its shape) |
| ServerQuery.AppendParams | extplugins/calladmin.py:438-440 | the first loop appends one ` key=escaped` per parameter, in order |
| ServerQuery.AppendOptions | extplugins/calladmin.py:441-442 | the second loop appends one ` -option` per option, in order |
| ServerQuery.BuildLine | extplugins/calladmin.py:438-444 | the line is the command, its parameters, its options and a newline |
| ServerQuery.EscapeNewline | extplugins/calladmin.py:414-426 | an escaped value holds a newline exactly when it is a text that holds one |
| ServerQuery.ParamsTextNewline | extplugins/calladmin.py:439-440 | the parameter text holds a newline exactly when some key or text value does |
| ServerQuery.OptionsTextNewline | extplugins/calladmin.py:441-442 | the option text holds a newline exactly when some option does |
| ServerQuery.CommandLineNewline | extplugins/calladmin.py:438-444 | the line starts with the command and ends with '\n'; it has no other newline unless the command, a key, a text value or an option brought one |
| ServerQuery.FindAllParams | extplugins/calladmin.py:439-440 | for sendable parameters (word-character keys, values that survive the round trip, no tab, vertical tab or form feed), the field grammar finds in the parameter text exactly each key with its escaped value, in order |
| ServerQuery.ParamsRecord | extplugins/calladmin.py:439-440 | reading the parameter text back with the field grammar gives the dict the parameters came from (word-character keys, values that survive escaping, no tab, vertical tab or form feed) |
| ServerQuery.Pieces | extplugins/calladmin.py:453 | the `split('error id=')` of the response: always at least one piece, so the body of line 460 exists (`SplitFindsSeparator` gives a second piece exactly when the marker occurs, `BodyRecordsJoin` that the pieces joined give the response back) |
| ServerQuery.BodyRecords | extplugins/calladmin.py:460 | the records of the body, the text before the first `error id=` split on '\|'; there is always at least one |
| ServerQuery.StatusFields | extplugins/calladmin.py:456-479 | the status dict read from `id=` and the text after the first `error id=` (a definition; `StatusHasId` and `StatusRecord` state its properties) |
| ServerQuery.Parse | extplugins/calladmin.py:453-484 | what `command` returns or raises for the text it read (a definition; `ParseNeedsMarker`, `ParseStatus`, `ParseReply` and `ParseOk` state its properties) |
| ServerQuery.BodyInfo | extplugins/calladmin.py:460-474 | the result is a list exactly when the command ends with "list" or there are several records; the list has one dict per record in order; a single dict is the one record's fields |
| ServerQuery.ParseBody | extplugins/calladmin.py:460-474 | the body loops compute exactly that list or dict |
| ServerQuery.ParseResponse | extplugins/calladmin.py:453-484 | the parse half of `command` computes exactly `Parse` |
| ServerQuery.Command | extplugins/calladmin.py:428-484 | `command` without the socket: the line it writes and what it returns or raises |
| ServerQuery.StatusHasId | extplugins/calladmin.py:456 | the status text always yields an `id`, so the `KeyError` for `id` never happens |
| ServerQuery.ParseNeedsMarker | extplugins/calladmin.py:453-458 | the parse fails with code 12 exactly when the response holds no `error id=` |
| ServerQuery.ParseStatus | extplugins/calladmin.py:476-484 | with the marker present, the result is the body exactly when the status id is the integer 0; otherwise the error is `TS3Error(id, msg, status)`, or the `KeyError` of a missing `msg` |
| ServerQuery.BodyRecordsJoin | extplugins/calladmin.py:453-460 | joining the records with '\|' gives the text before the first marker, and joining the pieces with the marker gives the response |
| ServerQuery.StatusRecord | extplugins/calladmin.py:476-479 | the status `id=code msg=message` yields exactly the unescaped `id` and `msg` |
| ServerQuery.ParseReply | extplugins/calladmin.py:453-484 | a reply of a body without the marker, then `error id=code msg=message`, gives the body's records when the code reads as 0, and otherwise `TS3Error` with that code, message and status |
| ServerQuery.ParseOk | extplugins/calladmin.py:453-484 | a body without `error id=` followed by `error id=0 msg=ok` parses to the body's records |
| ServerQuery.QueryErrors | extplugins/calladmin.py:334-345 | every `TS3Error` that `command` raises is either the code-12 error, or carries the status's `id` as code, its `msg` as msg and the whole status dict as msg2, with a code that is not the integer 0 |
| Calladmin.TimeParts | extplugins/calladmin.py:208-221 | under 60 the count is the seconds; from 60 to 3599 it is the whole minutes, always 1 to 59; from 3600 on it is the whole hours, at least 1 |
| Calladmin.TimeString | extplugins/calladmin.py:208-221 | `get_time_string`: the count, a space, the unit and an 's' unless the count is 1 (a definition; `TimeParts` and `TimeStringReads` state its properties) |
| Calladmin.TimeStringReads | extplugins/calladmin.py:213-221 | the text is the count, which `int()` reads back, then a space; it ends in 's' exactly when the count is not 1 |
| Calladmin.TimeStringMinute | extplugins/calladmin.py:216-218 | 90 seconds gives "1 minute" |
| Calladmin.TimeStringSeconds | extplugins/calladmin.py:213-214 | 5 gives "5 seconds" and 1 gives "1 second" |
| Calladmin.TimeStringHour | extplugins/calladmin.py:220-221 | 7199 seconds gives "1 hour" |
| Calladmin.StripColours | extplugins/calladmin.py:111 | the strip only shortens the text, by an even number of characters |
| Calladmin.StripKeepsOthers | extplugins/calladmin.py:295 | every character other than '^' and the digits stays, in order |
| Calladmin.StripOnlyDeletes | extplugins/calladmin.py:295 | the result is a sub-multiset of the text |
| Calladmin.StripWithoutCaret | extplugins/calladmin.py:295 | a text without '^' is unchanged |
| Calladmin.StripCleansWithoutDoubleCaret | extplugins/calladmin.py:295 | a text without "^^" has no colour code left after one pass |
| Calladmin.StripNotIdempotent | extplugins/calladmin.py:295 | one pass is not idempotent: "^^12" gives "^2", which strips to "" |
| Calladmin.CallAdmin | extplugins/calladmin.py:271-305 | an empty reason, an admin online or a pending request leaves the request as it is; otherwise a request is stored exactly when the send is delivered, the reply is "failed" exactly when the send is refused, and nothing is answered and nothing changes when the send raises past `send_teamspeak_message`; "already sent" carries the time since the pending request |
| Calladmin.AfterConnect | extplugins/calladmin.py:165-181 | the request is cleared exactly when a client of at least the admins level connects and the TeamSpeak notice of line 174 does not raise past the sender |
| Calladmin.AfterDisconnect | extplugins/calladmin.py:183-193 | the request is cleared exactly when its own client disconnects and the TeamSpeak notice of line 191 does not raise past the sender |
| Calladmin.CalladminPlugin.constructor | extplugins/calladmin.py:57 | no request is pending at first |
| Calladmin.CalladminPlugin.CmdCalladmin | extplugins/calladmin.py:271-305 | the field and the reply follow `CallAdmin` |
| Calladmin.CalladminPlugin.OnConnect | extplugins/calladmin.py:165-181 | the field follows `AfterConnect`; the requester is told exactly when the request is cleared |
| Calladmin.CalladminPlugin.OnDisconnect | extplugins/calladmin.py:183-193 | the field follows `AfterDisconnect`; it reports a drop exactly when the request is cleared |
| Calladmin.PendingExplained | extplugins/calladmin.py:165-305 | a pending request was stored by one successful `!calladmin` made while none was pending, and no event since would have cleared it |
| Calladmin.CallAdminAsWritten | extplugins/calladmin.py:271-305 | `cmd_calladmin` with the request the constructor really builds: a request it stores carries no data, and with one pending every `!calladmin` that reaches line 290 raises `TypeError` |
| Calladmin.ConnectAsWritten | extplugins/calladmin.py:165-181 | `onConnect` as written: it clears only a request whose client is set, so never one the constructor built |
| Calladmin.DisconnectAsWritten | extplugins/calladmin.py:183-193 | `onDisconnect` as written: it clears only a request whose client is the one that left, so never one the constructor built |
| Calladmin.NewRequestAsWritten | extplugins/calladmin.py:45-51 | the constructor as written: its arguments reach only local variables, so every field keeps None (a definition; `AsWrittenRequestSticks` states the consequence) |
| Calladmin.AsWrittenRequestSticks | extplugins/calladmin.py:45-51 | as written, a stored request is never cleared; see Findings |
| Calladmin.RequestCleared | extplugins/calladmin.py:178-193 | with the intended record, the requester leaving or an admin connecting clears the request whenever the notice does not raise |

## Left out

- The socket itself is left out: the telnet connection object,
  `disconnect`, the telnet `write`, and the 5-second timeout of `read_until`
  (lines 372-394 and 448-449). The text read back is a parameter of `Parse`. For `connect`, what the port
  does is the `Link` parameter of `Connect`: refused, or open with the text
  that arrives before the timeout and whether the server closed the link.
- ServerQuery.ReadUntil, ServerQuery.ConnectNeedsBanner: `arrived` is the
  cooked text, after telnetlib has stripped its IAC option negotiation, which
  is not modelled. The third argument of the code-10 error is the socket
  error object, modelled as an empty map. Text that follows the banner stays
  in telnetlib's buffer and is read at the start of the first command's
  response; `Parse` takes the response text as given.
- The `_lock` and `thread` (lines 362 and 445-451) are left out. Concurrency
  is not modelled.
- Plugin set-up is left out: `onLoadConfig`, `onStartup` and `getCmd`
  (lines 68-157 and 201-206). It is configuration parsing and B3
  registration. The stripped hostname of line 111 is the same `StripColours`.
- `teamspeak_connect` and `send_teamspeak_message` (lines 223-263) are left
  out. They run `command` over the socket. A send is its outcome, the `sent`
  parameter: delivered, refused (the `TS3Error` or socket error that line 261
  catches), or any other exception of `command`, which escapes the sender
  and ends the calling handler. `onConnect` and `onDisconnect` do not look
  at a delivered or refused outcome, but an escaping one stops them before
  they clear the request. Which exceptions `command` can raise, beyond the
  `KeyError` the parse model gives, is not modelled: the third outcome
  stands for all of them.
- Chat, TeamSpeak and log message texts are left out, with their colour
  markup. Also left out: the admin names listed when admins are online, and
  the swapped format arguments of line 285. The replies are the `Reply`
  cases.
- UTF-8 encoding and decoding (lines 411 and 422) are left out. Strings are
  sequences of characters.
- The parameter dict (line 439) is a sequence of pairs in the dict's
  iteration order. Python 2 does not fix that order.
- BadResponse: the code-12 message omits the `repr` of the split response
  that line 458 appends.
- TimeParts, TimeString and TimeStringReads: the hour count is the exact
  floor of s/3600. Python 2's `round` (line 220) turns it into a float, so
  from 2^53 + 1 hours on the source prints a rounded count, and past the
  range of a double `round` raises OverflowError. Neither is modelled.
- `TS3Error.__str__` (lines 347-351) formats an error for the log and is not
  modelled.
- Text.ParseInt: CPython 2 also accepts whitespace between the sign and the
  digits. This model does not.
- `int(console.time())` is the integer parameter `now`. Fractional seconds
  are not modelled.
- Escape: every integer value is written in decimal. In Python 2 a `long`
  is not an `int`, so line 422 would call `encode` on it and raise
  `AttributeError`; that path is not modelled.
- The test fixtures in `tests/__init__.py` have no logic to model.

## Findings

| source | as written | input that shows it | evidently intended | confidence | as-written member | corrected member |
|---|---|---|---|---|---|---|
| extplugins/calladmin.py:45-51 | `AdminRequest.__init__` assigns `client`, `reason` and `time` to local variables. The stored request keeps `None` in all three fields. | With no admin online, `!calladmin help` is sent successfully. Then: the requester disconnecting does not match `None` (line 189). An admin connecting raises `AttributeError` at line 178, before line 181 clears the request. A second `!calladmin` raises `TypeError` at line 290. | assign `self.client`, `self.reason` and `self.time = int(time)`, so the request is cleared by its requester or by an admin | not executed | Calladmin.AsWrittenRequestSticks | Calladmin.RequestCleared |
