/**
 * The call-admin plugin itself: the two text helpers it uses (the time
 * string and the colour-code strip) and the single pending admin request
 * that `!calladmin`, client connections and client disconnections set and
 * clear.  Sending a TeamSpeak message is reduced to its outcome, a bool.
 */
module Calladmin {
  import opened Wrappers
  import opened Text

  // ---------------------------------------------------------------------------
  // get_time_string

  /**
   * The count and unit get_time_string prints for s seconds.  The plugin is
   * Python 2 code, so `s/60` and `s/3600` floor: the count is the number of
   * whole minutes or hours.
   */
  function TimeParts(s: int): (r: (int, string))
    ensures s < 60 ==> r == (s, "second")
    ensures 60 <= s < 3600 ==> r.1 == "minute" && 1 <= r.0 <= 59 && r.0 * 60 <= s < (r.0 + 1) * 60
    ensures 3600 <= s ==> r.1 == "hour" && 1 <= r.0 && r.0 * 3600 <= s < (r.0 + 1) * 3600
  {
    if s < 60 then (s, "second")
    else if s < 3600 then (s / 60, "minute")
    else (s / 3600, "hour")
  }

  /** get_time_string: the count, a space, the unit, and an 's' unless the count is exactly 1. */
  function TimeString(s: int): string
  {
    var (count, unit) := TimeParts(s);
    IntToString(count) + " " + unit + (if count != 1 then "s" else "")
  }

  /**
   * The text starts with the count, which int() reads back, followed by a
   * space; it ends in 's' exactly when the count is not 1.
   */
  lemma TimeStringReads(s: int)
    ensures var count := TimeParts(s).0;
      var k := |IntToString(count)|;
      k < |TimeString(s)| && TimeString(s)[k] == ' ' &&
      ParseInt(TimeString(s)[..k]) == Some(count) &&
      (EndsWith(TimeString(s), "s") <==> count != 1)
  {
    var (count, unit) := TimeParts(s);
    var digits := IntToString(count);
    var t := TimeString(s);
    var k := |digits|;
    assert t == digits + " " + unit + (if count != 1 then "s" else "");
    assert t[..k] == digits;
    ParseIntToString(count);
    assert unit[|unit| - 1] != 's';
    if count == 1 {
      assert t[|t| - 1..] == [unit[|unit| - 1]];
    } else {
      assert t[|t| - 1..] == "s";
    }
  }

  lemma TimeStringMinute()
    ensures TimeString(90) == "1 minute"
  {
    assert TimeParts(90) == (1, "minute");
    assert IntToString(1) == "1";
  }

  lemma TimeStringSeconds()
    ensures TimeString(5) == "5 seconds" && TimeString(1) == "1 second"
  {
    assert IntToString(5) == "5";
    assert IntToString(1) == "1";
  }

  lemma TimeStringHour()
    ensures TimeString(7199) == "1 hour"
  {
    assert TimeParts(7199) == (1, "hour");
    assert IntToString(1) == "1";
  }

  // ---------------------------------------------------------------------------
  // The colour-code strip

  /** A B3 colour code is '^' followed by a digit. */
  predicate IsColourCode(a: char, b: char) {
    a == '^' && IsDigit(b)
  }

  /**
   * The colour-code substitution: one left-to-right pass that deletes each
   * colour code (a '^' followed by a digit) it meets, the scan resuming after the deleted pair.
   */
  function StripColours(s: string): (r: string)
    ensures |r| <= |s| && (|s| - |r|) % 2 == 0
    decreases |s|
  {
    if |s| < 2 then s
    else if IsColourCode(s[0], s[1]) then StripColours(s[2..])
    else [s[0]] + StripColours(s[1..])
  }

  /** The characters a colour code cannot consist of: neither '^' nor a digit. */
  function Others(s: string): string
    decreases |s|
  {
    if s == [] then []
    else (if s[0] != '^' && !IsDigit(s[0]) then [s[0]] else []) + Others(s[1..])
  }

  /** The strip only deletes: every other character stays, in order. */
  lemma {:induction false} StripKeepsOthers(s: string)
    ensures Others(StripColours(s)) == Others(s)
    decreases |s|
  {
    if |s| < 2 {
    } else if IsColourCode(s[0], s[1]) {
      StripKeepsOthers(s[2..]);
      assert s[1..][1..] == s[2..];
      assert Others(s[1..]) == Others(s[2..]);
    } else {
      StripKeepsOthers(s[1..]);
      var r := [s[0]] + StripColours(s[1..]);
      assert r[1..] == StripColours(s[1..]);
    }
  }

  /** The deleted characters come from the text: the result is a sub-multiset of it. */
  lemma {:induction false} StripOnlyDeletes(s: string)
    ensures multiset(StripColours(s)) <= multiset(s)
    decreases |s|
  {
    if |s| < 2 {
    } else if IsColourCode(s[0], s[1]) {
      StripOnlyDeletes(s[2..]);
      assert s == s[..2] + s[2..];
      assert multiset(s) == multiset(s[..2]) + multiset(s[2..]);
    } else {
      StripOnlyDeletes(s[1..]);
      assert s == [s[0]] + s[1..];
      assert multiset(s) == multiset([s[0]]) + multiset(s[1..]);
    }
  }

  /** A text without '^' is left as it is. */
  lemma {:induction false} StripWithoutCaret(s: string)
    requires '^' !in s
    ensures StripColours(s) == s
    decreases |s|
  {
    if |s| >= 2 {
      assert s[0] in s;
      assert forall c :: c in s[1..] ==> c in s;
      StripWithoutCaret(s[1..]);
    }
  }

  /** A text that does not start with '^' keeps its first character. */
  lemma StripKeepsHead(t: string)
    requires |t| > 0 && t[0] != '^'
    ensures |StripColours(t)| > 0 && StripColours(t)[0] == t[0]
  {
  }

  /** No colour code anywhere in the text. */
  predicate NoColourCode(s: string) {
    forall j :: 0 <= j < |s| - 1 ==> !IsColourCode(s[j], s[j + 1])
  }

  /** No "^^" anywhere in the text. */
  predicate NoDoubleCaret(s: string) {
    forall j :: 0 <= j < |s| - 1 ==> !(s[j] == '^' && s[j + 1] == '^')
  }

  /**
   * Without "^^" in the text one pass removes every colour code: a deletion
   * can only join a '^' to a digit when that '^' directly precedes the
   * deleted pair.
   */
  lemma {:induction false} StripCleansWithoutDoubleCaret(s: string)
    requires NoDoubleCaret(s)
    ensures NoColourCode(StripColours(s))
    decreases |s|
  {
    if |s| < 2 {
    } else if IsColourCode(s[0], s[1]) {
      assert NoDoubleCaret(s[2..]) by {
        forall j | 0 <= j < |s[2..]| - 1 ensures !(s[2..][j] == '^' && s[2..][j + 1] == '^') {
          assert s[2..][j] == s[j + 2] && s[2..][j + 1] == s[j + 3];
        }
      }
      StripCleansWithoutDoubleCaret(s[2..]);
    } else {
      var t := s[1..];
      assert NoDoubleCaret(t) by {
        forall j | 0 <= j < |t| - 1 ensures !(t[j] == '^' && t[j + 1] == '^') {
          assert t[j] == s[j + 1] && t[j + 1] == s[j + 2];
        }
      }
      StripCleansWithoutDoubleCaret(t);
      var rest := StripColours(t);
      var r := [s[0]] + rest;
      if s[0] == '^' {
        assert !IsDigit(s[1]) && s[1] != '^';
        StripKeepsHead(t);
      }
      forall j | 0 <= j < |r| - 1 ensures !IsColourCode(r[j], r[j + 1]) {
        if j > 0 {
          assert r[j] == rest[j - 1] && r[j + 1] == rest[j];
        }
      }
    }
  }

  /** One pass is not idempotent: deleting "^1" from "^^12" joins a new colour code. */
  lemma StripNotIdempotent()
    ensures StripColours("^^12") == "^2"
    ensures StripColours("^2") == ""
  {
    var s := "^^12";
    assert !IsColourCode(s[0], s[1]);
    assert s[1..] == "^12";
    assert IsColourCode('^', '1');
    assert "^12"[2..] == "2";
    assert "^2"[2..] == "";
  }

  // ---------------------------------------------------------------------------
  // The pending admin request

  /** A B3 client, as the plugin compares clients. */
  type ClientId = nat

  /**
   * The pending request with the fields its users read: the requesting
   * client, the stripped reason and `int(time)` of the request.  The
   * constructor at extplugins/calladmin.py:45-51 assigns its arguments to
   * local variables, so the object it builds keeps None in all three
   * fields; this record is what the call sites expect, and
   * AsWrittenRequest below is what the constructor really builds.
   */
  datatype AdminRequest = AdminRequest(client: ClientId, reason: string, time: int)

  /**
   * How a TeamSpeak message went: sent, refused (a TS3Error or a socket
   * error, which send_teamspeak_message catches and reports as False), or
   * aborted by any other exception `command` raises (a KeyError of the
   * status, an EOFError of a closed link), which the sender does not catch
   * and which ends the calling handler on the spot.
   */
  datatype SendOutcome = Delivered | Refused | Uncaught

  /** What `!calladmin` answers. */
  datatype Reply =
    | MissingData               // no reason was given
    | AdminsOnline(count: nat)  // admins are already on the server
    | AlreadySent(ago: string)  // a request is pending, sent this long ago
    | Sent                      // the TeamSpeak message went out
    | Failed                    // the TeamSpeak message could not be sent
    | NoAnswer                  // the send raised past the handler: nothing is said

  /**
   * cmd_calladmin: the pending request afterwards and the reply.  `admins` is
   * the number of admins online, `now` is the console clock in whole seconds and `sent`
   * the outcome of the TeamSpeak message, when one is sent.
   */
  function CallAdmin(pending: Option<AdminRequest>, data: string, client: ClientId, admins: nat, now: int, sent: SendOutcome)
    : (r: (Option<AdminRequest>, Reply))
    ensures data == [] || admins > 0 || pending.Some? ==> r.0 == pending
    ensures data != [] && admins == 0 && pending.None? ==> (r.0.Some? <==> sent == Delivered)
    ensures r.0 != pending ==> r.0 == Some(AdminRequest(client, StripColours(data), now))
    ensures r.1 == Sent <==> r.0 != pending
    ensures r.1.AlreadySent? <==> data != [] && admins == 0 && pending.Some?
    ensures r.1.AlreadySent? ==> r.1.ago == TimeString(now - pending.value.time)
    ensures r.1 == Failed <==> data != [] && admins == 0 && pending.None? && sent == Refused
    ensures r.1 == NoAnswer <==> data != [] && admins == 0 && pending.None? && sent == Uncaught
  {
    if data == [] then (pending, MissingData)
    else if admins > 0 then (pending, AdminsOnline(admins))
    else if pending.Some? then (pending, AlreadySent(TimeString(now - pending.value.time)))
    else
      match sent
      case Delivered => (Some(AdminRequest(client, StripColours(data), now)), Sent)
      case Refused => (None, Failed)
      case Uncaught => (pending, NoAnswer)
  }

  /**
   * onConnect: a client of at least the admins level clears the pending
   * request, unless the TeamSpeak notice sent first raises past the handler.
   */
  function AfterConnect(pending: Option<AdminRequest>, maxLevel: int, adminsLevel: int, sent: SendOutcome)
    : (r: Option<AdminRequest>)
    ensures r.None? <==> pending.None? || (maxLevel >= adminsLevel && sent != Uncaught)
    ensures r.Some? ==> r == pending
  {
    if pending.Some? && maxLevel >= adminsLevel && sent != Uncaught then None else pending
  }

  /**
   * onDisconnect: the requesting client leaving clears the pending request,
   * unless the TeamSpeak notice sent first raises past the handler.
   */
  function AfterDisconnect(pending: Option<AdminRequest>, client: ClientId, sent: SendOutcome)
    : (r: Option<AdminRequest>)
    ensures r.None? <==> pending.None? || (pending.value.client == client && sent != Uncaught)
    ensures r.Some? ==> r == pending
  {
    if pending.Some? && pending.value.client == client && sent != Uncaught then None else pending
  }

  /** The plugin object, reduced to the field these handlers share. */
  class CalladminPlugin {
    /** `_adminRequest`: the pending request, if any. */
    var adminRequest: Option<AdminRequest>
    /** `_adminPlugin._admins_level`: the level from which a client counts as an admin. */
    const adminsLevel: int

    constructor (adminsLevel: int)
      ensures this.adminsLevel == adminsLevel && adminRequest == None
    {
      this.adminsLevel := adminsLevel;
      adminRequest := None;
    }

    /** `!calladmin <reason>` */
    method CmdCalladmin(data: string, client: ClientId, admins: nat, now: int, sent: SendOutcome) returns (reply: Reply)
      modifies this
      ensures (adminRequest, reply) == CallAdmin(old(adminRequest), data, client, admins, now, sent)
    {
      if data == [] {
        return MissingData;
      }
      if admins > 0 {
        return AdminsOnline(admins);
      }
      if adminRequest.Some? {
        var when := now - adminRequest.value.time;
        return AlreadySent(TimeString(when));
      }
      var reason := StripColours(data);
      if sent == Uncaught {
        return NoAnswer;
      }
      if sent == Delivered {
        adminRequest := Some(AdminRequest(client, reason, now));
        return Sent;
      }
      adminRequest := None;
      reply := Failed;
    }

    /**
     * EVT_CLIENT_CONNECT.  Returns the requester who is told that an admin
     * is online.  The TeamSpeak notice goes out first; whether it is
     * delivered or refused does not matter, but an uncaught exception ends
     * the handler before the requester is told and the request cleared.
     */
    method OnConnect(maxLevel: int, sent: SendOutcome) returns (notified: Option<ClientId>)
      modifies this
      ensures adminRequest == AfterConnect(old(adminRequest), maxLevel, adminsLevel, sent)
      ensures notified.Some? <==> old(adminRequest).Some? && adminRequest.None?
      ensures notified.Some? ==> notified.value == old(adminRequest).value.client
    {
      notified := None;
      if adminRequest.Some? {
        if maxLevel >= adminsLevel {
          if sent == Uncaught {
            return;
          }
          notified := Some(adminRequest.value.client);
          adminRequest := None;
        }
      }
    }

    /**
     * EVT_CLIENT_DISCONNECT.  Returns whether the request is dropped after
     * its cancellation went to TeamSpeak; an uncaught exception of that
     * notice ends the handler with the request still pending.
     */
    method OnDisconnect(client: ClientId, sent: SendOutcome) returns (dropped: bool)
      modifies this
      ensures adminRequest == AfterDisconnect(old(adminRequest), client, sent)
      ensures dropped <==> old(adminRequest).Some? && adminRequest.None?
    {
      dropped := false;
      if adminRequest.Some? {
        if adminRequest.value.client == client {
          if sent == Uncaught {
            return;
          }
          dropped := true;
          adminRequest := None;
        }
      }
    }
  }

  // ---------------------------------------------------------------------------
  // The request over a sequence of events

  /** What reaches the plugin: a `!calladmin`, a connection, a disconnection. */
  datatype Event =
    | CallAdminEvent(data: string, client: ClientId, admins: nat, now: int, sent: SendOutcome)
    | ConnectEvent(maxLevel: int, sent: SendOutcome)
    | DisconnectEvent(client: ClientId, sent: SendOutcome)

  function Step(pending: Option<AdminRequest>, e: Event, adminsLevel: int): Option<AdminRequest>
  {
    match e
    case CallAdminEvent(data, client, admins, now, sent) => CallAdmin(pending, data, client, admins, now, sent).0
    case ConnectEvent(maxLevel, sent) => AfterConnect(pending, maxLevel, adminsLevel, sent)
    case DisconnectEvent(client, sent) => AfterDisconnect(pending, client, sent)
  }

  /** The pending request after the events, starting from none. */
  function Run(events: seq<Event>, adminsLevel: int): Option<AdminRequest>
    decreases |events|
  {
    if events == [] then None
    else Step(Run(events[..|events| - 1], adminsLevel), events[|events| - 1], adminsLevel)
  }

  /** The event that stores `req`: a `!calladmin` with a reason, no admin online and a message that went out. */
  predicate Creates(e: Event, req: AdminRequest) {
    e.CallAdminEvent? && e.data != [] && e.admins == 0 && e.sent == Delivered &&
    req == AdminRequest(e.client, StripColours(e.data), e.now)
  }

  /** The events that clear `req`: an admin connecting, or the requester leaving, with a notice that does not raise. */
  predicate Clears(e: Event, req: AdminRequest, adminsLevel: int) {
    ((e.ConnectEvent? && e.maxLevel >= adminsLevel) || (e.DisconnectEvent? && e.client == req.client)) &&
    e.sent != Uncaught
  }

  /** From nothing pending, an event that leaves a request pending is the event that created it. */
  lemma StepFromNone(e: Event, adminsLevel: int)
    requires Step(None, e, adminsLevel).Some?
    ensures Creates(e, Step(None, e, adminsLevel).value)
  {
  }

  /** An event that leaves a pending request pending keeps it as it was and is not one that clears it. */
  lemma StepKeeps(req: AdminRequest, e: Event, adminsLevel: int)
    requires Step(Some(req), e, adminsLevel).Some?
    ensures Step(Some(req), e, adminsLevel) == Some(req) && !Clears(e, req, adminsLevel)
  {
  }

  /**
   * A pending request was stored by one successful `!calladmin` made while
   * nothing was pending, and no event since then would have cleared it:
   * later requests are refused, not queued, and there is no expiry.
   */
  lemma {:induction false} PendingExplained(events: seq<Event>, adminsLevel: int)
    requires Run(events, adminsLevel).Some?
    ensures var req := Run(events, adminsLevel).value;
      exists i :: 0 <= i < |events| && Creates(events[i], req) && Run(events[..i], adminsLevel).None? &&
        forall j :: i < j < |events| ==> !Clears(events[j], req, adminsLevel)
    decreases |events|
  {
    var n := |events|;
    var init := events[..n - 1];
    var e := events[n - 1];
    var before := Run(init, adminsLevel);
    var req := Run(events, adminsLevel).value;
    assert Run(events, adminsLevel) == Step(before, e, adminsLevel);
    if before.None? {
      assert events[..n - 1] == init;
      StepFromNone(e, adminsLevel);
      assert Creates(events[n - 1], req) && Run(events[..n - 1], adminsLevel).None?;
    } else {
      StepKeeps(before.value, e, adminsLevel);
      assert before == Some(req);
      PendingExplained(init, adminsLevel);
      var i :| 0 <= i < |init| && Creates(init[i], req) && Run(init[..i], adminsLevel).None? &&
        forall j :: i < j < |init| ==> !Clears(init[j], req, adminsLevel);
      assert events[..i] == init[..i];
      assert forall j :: i < j < n ==> !Clears(events[j], req, adminsLevel) by {
        forall j | i < j < n ensures !Clears(events[j], req, adminsLevel) {
          if j < n - 1 {
            assert events[j] == init[j];
          }
        }
      }
      assert Creates(events[i], req) && Run(events[..i], adminsLevel).None? by {
        assert events[i] == init[i];
      }
    }
  }

  // ---------------------------------------------------------------------------
  // The request as the constructor really builds it

  /** The object `AdminRequest(client, reason, time)` builds: every field keeps the class attribute None. */
  datatype AsWrittenRequest = AsWrittenRequest(client: Option<ClientId>, reason: Option<string>, time: Option<int>)

  /** The exceptions the handlers then raise. */
  datatype Raised =
    | TypeError       // an int minus the stored None
    | AttributeError  // a message sent through the stored None
    | SendError       // whatever `command` raised past send_teamspeak_message

  /** The constructor as written: its arguments only reach local variables. */
  function NewRequestAsWritten(client: ClientId, reason: string, now: int): AsWrittenRequest
  {
    AsWrittenRequest(None, None, None)
  }

  /** cmd_calladmin as written, for the state it leaves or the exception it raises. */
  function CallAdminAsWritten(pending: Option<AsWrittenRequest>, data: string, client: ClientId, admins: nat, now: int,
                              sent: SendOutcome)
    : (r: Result<Option<AsWrittenRequest>, Raised>)
    ensures r.Success? && r.value != pending ==> r.value == None || r.value == Some(AsWrittenRequest(None, None, None))
    ensures pending.Some? && pending.value.time.None? && data != [] && admins == 0 ==> r == Failure(TypeError)
  {
    if data == [] || admins > 0 then Success(pending)
    else if pending.Some? then
      // the elapsed time subtracts the stored time, which is None here
      if pending.value.time.None? then Failure(TypeError) else Success(pending)
    else if sent == Delivered then Success(Some(NewRequestAsWritten(client, StripColours(data), now)))
    else if sent == Refused then Success(None)
    else Failure(SendError)
  }

  /**
   * onConnect as written: after the TeamSpeak notice, the requester is
   * messaged through `request.client` before the request is cleared.
   */
  function ConnectAsWritten(pending: Option<AsWrittenRequest>, maxLevel: int, adminsLevel: int, sent: SendOutcome)
    : (r: Result<Option<AsWrittenRequest>, Raised>)
    ensures r.Success? && r.value != pending ==> pending.Some? && pending.value.client.Some? && r.value.None?
  {
    if pending.Some? && maxLevel >= adminsLevel then
      if sent == Uncaught then Failure(SendError)
      else if pending.value.client.None? then Failure(AttributeError)
      else Success(None)
    else Success(pending)
  }

  /** onDisconnect as written: the request's client is compared with the client that left. */
  function DisconnectAsWritten(pending: Option<AsWrittenRequest>, client: ClientId, sent: SendOutcome)
    : (r: Result<Option<AsWrittenRequest>, Raised>)
    ensures r.Success? && r.value != pending ==> pending.Some? && pending.value.client == Some(client) && r.value.None?
  {
    if pending.Some? && pending.value.client == Some(client) then
      if sent == Uncaught then Failure(SendError) else Success(None)
    else Success(pending)
  }

  /**
   * As written, a request once stored is never cleared: the requester leaving
   * does not match it, an admin connecting raises AttributeError (or the
   * notice's own exception) before the request is dropped, and every later
   * `!calladmin` that reaches the check raises TypeError.
   */
  lemma AsWrittenRequestSticks(client: ClientId, data: string, now: int, other: ClientId, later: int, sent: SendOutcome,
                               maxLevel: int, adminsLevel: int, notice: SendOutcome)
    requires data != []
    ensures var stored := CallAdminAsWritten(None, data, client, 0, now, Delivered);
      stored.Success? && stored.value.Some? &&
      DisconnectAsWritten(stored.value, client, notice) == Success(stored.value) &&
      (maxLevel >= adminsLevel ==> ConnectAsWritten(stored.value, maxLevel, adminsLevel, notice).Failure?) &&
      (maxLevel >= adminsLevel && notice != Uncaught ==>
        ConnectAsWritten(stored.value, maxLevel, adminsLevel, notice) == Failure(AttributeError)) &&
      CallAdminAsWritten(stored.value, data, other, 0, later, sent) == Failure(TypeError)
  {
  }

  /**
   * With the record the call sites expect, the requester leaving or an admin
   * connecting clears the request, whenever the TeamSpeak notice does not raise.
   */
  lemma RequestCleared(client: ClientId, data: string, now: int, maxLevel: int, adminsLevel: int, notice: SendOutcome)
    requires data != [] && maxLevel >= adminsLevel
    ensures var stored := CallAdmin(None, data, client, 0, now, Delivered).0;
      stored.Some? && stored.value.client == client &&
      (notice != Uncaught ==> AfterDisconnect(stored, client, notice).None? && AfterConnect(stored, maxLevel, adminsLevel, notice).None?)
  {
  }
}
