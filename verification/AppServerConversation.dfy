/** Conservation over every conversation of the app-server client: no message is lost, duplicated or reordered, every
    server request is answered once, and what a wait returns. */
module AppServerConversation {
  import opened Prelude
  import opened AppServerClient

  datatype Call =
    | CallRequest(name: string, params: Option<string>)
    | CallWait(name: string, wanted: Option<string -> bool>, after: nat)
    | CallNotify(name: string)

  // one call of `request`, `wait_for_notification` or `notify` (AppServer.Request, WaitForNotification and Notify), and
  // the response it returned if it was a request that got one
  function Called(c: Client, call: Call): (Client, seq<Message>) {
    match call
    case CallRequest(name, params) =>
      var (d, r) := Requesting(c, name, params);
      (d, if r.Ok? then [r.value] else [])
    case CallWait(name, wanted, after) => (Waiting(c, name, wanted, after).0, [])
    case CallNotify(name) => (Sending(c, Notification(name)).0, [])
  }

  // a conversation, and the responses returned in order
  function Conversation(c: Client, calls: seq<Call>): (Client, seq<Message>) {
    if calls == [] then (c, [])
    else
      var (d, before) := Conversation(c, calls[..|calls| - 1]);
      var (e, last) := Called(d, calls[|calls| - 1]);
      (e, before + last)
  }

  // A conversation makes its calls one after the other, each on the client that the calls in front of it left.
  lemma ConversationRuns(c: Client, calls: seq<Call>, call: Call)
    ensures Conversation(c, []) == (c, [])
    ensures var (d, before) := Conversation(c, calls); var (e, after) := Conversation(c, calls + [call]);
      match call
      case CallRequest(name, params) =>
        var (next, r) := Requesting(d, name, params);
        e == next && after == if r.Ok? then before + [r.value] else before
      case CallWait(name, wanted, at) => e == Waiting(d, name, wanted, at).0 && after == before
      case CallNotify(name) => e == Sending(d, Notification(name)).0 && after == before
  {
    hide Requesting, Waiting, Sending;
    assert (calls + [call])[..|calls|] == calls;
  }

  // ---------------------------------------------------------------- conservation

  function Messages(arrivals: seq<Arrival>): seq<Message> {
    if arrivals == [] then []
    else (if arrivals[0].Delivered? then [arrivals[0].message] else []) + Messages(arrivals[1..])
  }

  // taken is a and b shuffled, each in its own order.
  predicate Interleaves(taken: seq<Message>, a: seq<Message>, b: seq<Message>) {
    if taken == [] then a == [] && b == []
    else
      || (a != [] && a[0] == taken[0] && Interleaves(taken[1..], a[1..], b))
      || (b != [] && b[0] == taken[0] && Interleaves(taken[1..], a, b[1..]))
  }

  lemma {:induction false} InterleavesConcat(t: seq<Message>, a: seq<Message>, b: seq<Message>,
                                             u: seq<Message>, x: seq<Message>, y: seq<Message>)
    requires Interleaves(t, a, b) && Interleaves(u, x, y)
    ensures Interleaves(t + u, a + x, b + y)
  {
    if t == [] {
      assert t + u == u && a + x == x && b + y == y;
    } else {
      assert (t + u)[1..] == t[1..] + u;
      if a != [] && a[0] == t[0] && Interleaves(t[1..], a[1..], b) {
        InterleavesConcat(t[1..], a[1..], b, u, x, y);
        assert (a + x)[1..] == a[1..] + x;
      } else {
        InterleavesConcat(t[1..], a, b[1..], u, x, y);
        assert (b + y)[1..] == b[1..] + y;
      }
    }
  }

  lemma {:induction false} InterleavesCount(t: seq<Message>, a: seq<Message>, b: seq<Message>)
    requires Interleaves(t, a, b)
    ensures multiset(t) == multiset(a) + multiset(b)
  {
    if t != [] {
      assert t == [t[0]] + t[1..];
      if a != [] && a[0] == t[0] && Interleaves(t[1..], a[1..], b) {
        InterleavesCount(t[1..], a[1..], b);
        assert a == [a[0]] + a[1..];
      } else {
        InterleavesCount(t[1..], a, b[1..]);
        assert b == [b[0]] + b[1..];
      }
    }
  }

  lemma {:induction false} MessagesConcat(a: seq<Arrival>, b: seq<Arrival>)
    ensures Messages(a + b) == Messages(a) + Messages(b)
  {
    if a == [] {
      assert a + b == b;
    } else {
      assert (a + b)[1..] == a[1..] + b && (a + b)[0] == a[0];
      MessagesConcat(a[1..], b);
      var first := if a[0].Delivered? then [a[0].message] else [];
      assert Messages(a + b) == first + Messages((a + b)[1..]);
      assert first + (Messages(a[1..]) + Messages(b)) == first + Messages(a[1..]) + Messages(b);
    }
  }

  // Between c and d some arrivals were consumed; their messages are the new events and the returned responses,
  // shuffled.
  ghost predicate Conserves(c: Client, d: Client, returned: seq<Message>) {
    && |d.inbox| <= |c.inbox| && d.inbox == c.inbox[|c.inbox| - |d.inbox|..]
    && |c.events| <= |d.events| && d.events[..|c.events|] == c.events
    && Interleaves(Messages(c.inbox[..|c.inbox| - |d.inbox|]), d.events[|c.events|..], returned)
  }

  lemma ConservesTrans(c: Client, d: Client, e: Client, first: seq<Message>, second: seq<Message>)
    requires Conserves(c, d, first) && Conserves(d, e, second)
    ensures Conserves(c, e, first + second)
  {
    var m, n := |c.inbox| - |d.inbox|, |c.inbox| - |e.inbox|;
    hide Interleaves, Messages;
    assert e.inbox == c.inbox[n..];
    assert c.inbox[..n] == c.inbox[..m] + d.inbox[..n - m];
    MessagesConcat(c.inbox[..m], d.inbox[..n - m]);
    assert e.events[..|c.events|] == e.events[..|d.events|][..|c.events|];
    assert e.events[|c.events|..] == d.events[|c.events|..] + e.events[|d.events|..];
    InterleavesConcat(Messages(c.inbox[..m]), d.events[|c.events|..], first,
                      Messages(d.inbox[..n - m]), e.events[|d.events|..], second);
  }

  lemma ConservesSame(c: Client, d: Client)
    requires d.inbox == c.inbox && d.events == c.events
    ensures Conserves(c, d, [])
  {
    assert c.inbox[..0] == [] && c.inbox[0..] == c.inbox;
    assert d.events[..|c.events|] == c.events && d.events[|c.events|..] == [];
  }

  // One arrival consumed.
  lemma ConservesPop(c: Client, d: Client, returned: seq<Message>)
    requires c.inbox != [] && d.inbox == c.inbox[1..]
    requires if c.inbox[0].Delivered? then
        (d.events == c.events + [c.inbox[0].message] && returned == [])
          || (d.events == c.events && returned == [c.inbox[0].message])
      else d.events == c.events && returned == []
    ensures Conserves(c, d, returned)
  {
    var first := c.inbox[..1];
    assert first == [c.inbox[0]] && first[1..] == [];
    assert Messages(first) == (if c.inbox[0].Delivered? then [c.inbox[0].message] else []) + Messages([]);
    assert d.events[..|c.events|] == c.events;
    if d.events == c.events { assert d.events[|c.events|..] == []; }
    else { assert d.events[|c.events|..] == [c.inbox[0].message]; }
    OneInterleaves(Messages(first), d.events[|c.events|..], returned);
  }

  lemma OneInterleaves(t: seq<Message>, a: seq<Message>, b: seq<Message>)
    requires |t| <= 1 && ((a == t && b == []) || (a == [] && b == t))
    ensures Interleaves(t, a, b)
  {
    if t != [] {
      assert t[1..] == [];
      assert Interleaves([], [], []);
      if a == t { assert a[1..] == []; } else { assert b[1..] == []; }
    }
  }

  lemma {:induction false} ReceivingConserves(c: Client, id: nat)
    ensures var (d, r) := Receiving(c, id); Conserves(c, d, if r.Ok? then [r.value] else [])
    decreases |c.inbox|
  {
    hide Conserves;
    var (d, r) := Receiving(c, id);
    var returned := if r.Ok? then [r.value] else [];
    if c.inbox == [] {
      ConservesSame(c, d);
    } else {
      var rest := c.(inbox := c.inbox[1..]);
      if c.inbox[0].Delivered? && !IsResponse(c.inbox[0].message, id) {
        var m := c.inbox[0].message;
        var next := if IsServerRequest(m) then Handling(rest, m).0 else rest.(events := rest.events + [m]);
        ConservesPop(c, next, []);
        if !IsServerRequest(m) || Handling(rest, m).1.None? {
          ReceivingConserves(next, id);
          ConservesTrans(c, next, d, [], returned);
          assert [] + returned == returned;
        }
      } else {
        ConservesPop(c, rest, returned);
      }
    }
  }

  lemma {:induction false} AwaitingConserves(c: Client, name: string, wanted: Option<string -> bool>)
    ensures Conserves(c, Awaiting(c, name, wanted).0, [])
    decreases |c.inbox|
  {
    hide Conserves, Matches;
    var d := Awaiting(c, name, wanted).0;
    if c.inbox == [] {
      ConservesSame(c, d);
    } else {
      var rest := c.(inbox := c.inbox[1..]);
      if c.inbox[0].Delivered? {
        var m := c.inbox[0].message;
        var next := if IsServerRequest(m) then Handling(rest, m).0 else rest.(events := rest.events + [m]);
        ConservesPop(c, next, []);
        if if IsServerRequest(m) then Handling(rest, m).1.None? else !Matches(m, name, wanted) {
          AwaitingConserves(next, name, wanted);
          ConservesTrans(c, next, d, [], []);
          var none: seq<Message> := [];
          assert none + none == none;
        }
      } else {
        ConservesPop(c, rest, []);
      }
    }
  }

  lemma RequestConserves(c: Client, name: string, params: Option<string>)
    ensures var (d, r) := Requesting(c, name, params); Conserves(c, d, if r.Ok? then [r.value] else [])
  {
    var (next, failure) := Sending(c.(nextId := c.nextId + 1), Request(c.nextId, name, params));
    var (d, r) := Requesting(c, name, params);
    var returned := if r.Ok? then [r.value] else [];
    hide Conserves, Receiving;
    ConservesSame(c, next);
    if failure.None? {
      ReceivingConserves(next, c.nextId);
      hide Requesting, Sending;
      ConservesTrans(c, next, d, [], returned);
      assert [] + returned == returned;
    }
  }

  lemma WaitConserves(c: Client, name: string, wanted: Option<string -> bool>, after: nat)
    ensures Conserves(c, Waiting(c, name, wanted, after).0, [])
  {
    hide Conserves, Awaiting, Earliest;
    ConservesSame(c, c);
    AwaitingConserves(c, name, wanted);
  }

  lemma CallConserves(c: Client, call: Call)
    ensures Conserves(c, Called(c, call).0, Called(c, call).1)
  {
    hide Conserves, Requesting, Waiting;
    match call
    case CallRequest(name, params) => RequestConserves(c, name, params);
    case CallWait(name, wanted, after) => WaitConserves(c, name, wanted, after);
    case CallNotify(name) => ConservesSame(c, Called(c, call).0);
  }

  // Over any calls, the consumed messages are the recorded events and the returned responses, shuffled: each message
  // is in exactly one of the two, once, in its order of arrival.
  lemma {:induction false} ConversationConserves(c: Client, calls: seq<Call>)
    ensures Conserves(c, Conversation(c, calls).0, Conversation(c, calls).1)
  {
    hide Conserves;
    if calls == [] {
      ConservesSame(c, c);
    } else {
      var before := Conversation(c, calls[..|calls| - 1]);
      ConversationConserves(c, calls[..|calls| - 1]);
      CallConserves(before.0, calls[|calls| - 1]);
      var last := Called(before.0, calls[|calls| - 1]);
      ConservesTrans(c, before.0, last.0, before.1, last.1);
    }
  }

  // ---------------------------------------------------------------- server requests are answered once

  function AnswersIn(sent: seq<Line>): seq<Line> {
    if sent == [] then []
    else AnswersIn(sent[..|sent| - 1]) + (if sent[|sent| - 1].Answer? then [sent[|sent| - 1]] else [])
  }

  // the answer due to each server request among the events, in order
  function Due(events: seq<Message>, answerer: Option<string -> string>): seq<Line> {
    if events == [] then []
    else
      var m := events[|events| - 1];
      Due(events[..|events| - 1], answerer) + (if IsServerRequest(m) then [Answer(m.id, ReplyTo(m, answerer))] else [])
  }

  function Elicited(events: seq<Message>): seq<string> {
    if events == [] then []
    else
      var m := events[|events| - 1];
      Elicited(events[..|events| - 1]) + (if IsServerRequest(m) && Elicits(m) then [m.params.content] else [])
  }

  ghost predicate IdsRise(c: Client) {
    && (forall i | 0 <= i < |c.sent| && c.sent[i].Request? :: c.sent[i].id < c.nextId)
    && (forall i, j | 0 <= i < j < |c.sent| && c.sent[i].Request? && c.sent[j].Request? :: c.sent[i].id < c.sent[j].id)
  }

  // The answers sent are those due, in order, save that the last are missing once the process has exited; the
  // elicitation parameters are recorded; request identifiers only rise.
  ghost predicate Settled(c: Client) {
    && AnswersIn(c.sent) <= Due(c.events, c.answerer)
    && (!HasExited(c) ==> AnswersIn(c.sent) == Due(c.events, c.answerer))
    && c.elicitations == Elicited(c.events)
    && IdsRise(c)
  }

  lemma AnswersNext(sent: seq<Line>, line: Line)
    ensures AnswersIn(sent + [line]) == AnswersIn(sent) + (if line.Answer? then [line] else [])
  {
    assert (sent + [line])[..|sent|] == sent;
  }

  lemma EventsNext(events: seq<Message>, m: Message, answerer: Option<string -> string>)
    ensures Due(events + [m], answerer)
      == Due(events, answerer) + (if IsServerRequest(m) then [Answer(m.id, ReplyTo(m, answerer))] else [])
    ensures Elicited(events + [m]) ==
      Elicited(events) + (if IsServerRequest(m) && Elicits(m) then [m.params.content] else [])
  {
    assert (events + [m])[..|events|] == events;
  }

  lemma SendSettled(c: Client, line: Line)
    requires Settled(c) && !line.Answer? && (line.Request? ==> line.id < c.nextId)
    requires line.Request? ==> forall i | 0 <= i < |c.sent| && c.sent[i].Request? :: c.sent[i].id < line.id
    ensures Settled(Sending(c, line).0)
  {
    AnswersNext(c.sent, line);
    hide AnswersIn, Due, Elicited;
    assert AnswersIn(c.sent) + [] == AnswersIn(c.sent);
  }

  lemma EventSettled(c: Client, m: Message)
    requires Settled(c) && !IsServerRequest(m)
    ensures Settled(c.(events := c.events + [m]))
  {
    EventsNext(c.events, m, c.answerer);
    hide AnswersIn, Due, Elicited, IsServerRequest;
    assert Due(c.events, c.answerer) + [] == Due(c.events, c.answerer);
    assert Elicited(c.events) + [] == Elicited(c.events);
  }

  lemma HandlingSettled(c: Client, m: Message)
    requires Settled(c) && IsServerRequest(m)
    ensures Settled(Handling(c, m).0)
  {
    var answer := Answer(m.id, ReplyTo(m, c.answerer));
    EventsNext(c.events, m, c.answerer);
    AnswersNext(c.sent, answer);
    hide AnswersIn, Due, Elicited, IsServerRequest, ReplyTo, Elicits;
    assert Elicited(c.events) + [] == Elicited(c.events);
    PrefixStays(AnswersIn(c.sent), Due(c.events, c.answerer), answer);
  }

  lemma PrefixStays<T>(a: seq<T>, b: seq<T>, x: T)
    requires a <= b
    ensures a <= b + [x]
  {
  }

  lemma PopSettled(c: Client, inbox: seq<Arrival>)
    requires Settled(c)
    ensures Settled(c.(inbox := inbox))
  {
  }

  lemma {:induction false} ReceivingSettled(c: Client, id: nat)
    requires Settled(c)
    ensures Settled(Receiving(c, id).0)
    decreases |c.inbox|
  {
    hide Settled, IsResponse, IsServerRequest, Handling;
    if c.inbox != [] {
      var rest := c.(inbox := c.inbox[1..]);
      PopSettled(c, c.inbox[1..]);
      if c.inbox[0].Delivered? && !IsResponse(c.inbox[0].message, id) {
        var m := c.inbox[0].message;
        if IsServerRequest(m) {
          HandlingSettled(rest, m);
          HandlingConsumes(rest, m);
          if Handling(rest, m).1.None? { ReceivingSettled(Handling(rest, m).0, id); }
        } else {
          EventSettled(rest, m);
          ReceivingSettled(rest.(events := rest.events + [m]), id);
        }
      }
    }
  }

  lemma HandlingConsumes(c: Client, m: Message)
    ensures Handling(c, m).0.inbox == c.inbox && Handling(c, m).0.events == c.events + [m]
  {
  }

  lemma {:induction false} AwaitingSettled(c: Client, name: string, wanted: Option<string -> bool>)
    requires Settled(c)
    ensures Settled(Awaiting(c, name, wanted).0)
    decreases |c.inbox|
  {
    hide Settled, Matches, IsServerRequest, Handling;
    if c.inbox != [] {
      var rest := c.(inbox := c.inbox[1..]);
      PopSettled(c, c.inbox[1..]);
      if c.inbox[0].Delivered? {
        var m := c.inbox[0].message;
        if IsServerRequest(m) {
          HandlingSettled(rest, m);
          HandlingConsumes(rest, m);
          if Handling(rest, m).1.None? { AwaitingSettled(Handling(rest, m).0, name, wanted); }
        } else {
          EventSettled(rest, m);
          if !Matches(m, name, wanted) { AwaitingSettled(rest.(events := rest.events + [m]), name, wanted); }
        }
      }
    }
  }

  lemma CallSettled(c: Client, call: Call)
    requires Settled(c)
    ensures Settled(Called(c, call).0)
  {
    match call
    case CallRequest(name, params) =>
      var line := Request(c.nextId, name, params);
      NewIdSettled(c);
      assert forall i | 0 <= i < |c.sent| && c.sent[i].Request? :: c.sent[i].id < line.id;
      SendSettled(c.(nextId := c.nextId + 1), line);
      hide Settled, Receiving, Sending;
      var (next, failure) := Sending(c.(nextId := c.nextId + 1), line);
      if failure.None? { ReceivingSettled(next, c.nextId); }
    case CallWait(name, wanted, after) =>
      AwaitingSettled(c, name, wanted);
      hide Settled, Awaiting;
    case CallNotify(name) =>
      SendSettled(c, Notification(name));
      hide Settled, Sending;
  }

  lemma NewIdSettled(c: Client)
    requires Settled(c)
    ensures Settled(c.(nextId := c.nextId + 1))
  {
    hide AnswersIn, Due, Elicited;
  }

  // From a new client, over any calls: every server request is answered once, with its own identifier, in order.
  lemma {:induction false} ConversationSettled(inbox: seq<Arrival>, exitAfter: Option<nat>,
                                               answerer: Option<string -> string>, calls: seq<Call>)
    ensures Settled(Conversation(Client(1, inbox, [], [], [], exitAfter, answerer), calls).0)
  {
    var c := Client(1, inbox, [], [], [], exitAfter, answerer);
    if calls != [] {
      ConversationSettled(inbox, exitAfter, answerer, calls[..|calls| - 1]);
      hide Settled, Called;
      CallSettled(Conversation(c, calls[..|calls| - 1]).0, calls[|calls| - 1]);
    }
  }

  // ---------------------------------------------------------------- what a call returns

  // A request returns a response to its own identifier, and consumes none without returning it.
  lemma {:induction false} ReceivingReturns(c: Client, id: nat)
    ensures var (d, r) := Receiving(c, id);
      && (r.Ok? ==> IsResponse(r.value, id))
      && |c.events| <= |d.events|
      && (forall k | |c.events| <= k < |d.events| :: !IsResponse(d.events[k], id))
      && d.events[..|c.events|] == c.events
    decreases |c.inbox|
  {
    hide IsResponse, IsServerRequest;
    if c.inbox != [] && c.inbox[0].Delivered? && !IsResponse(c.inbox[0].message, id) {
      var m, rest := c.inbox[0].message, c.(inbox := c.inbox[1..]);
      var next := if IsServerRequest(m) then Handling(rest, m).0 else rest.(events := rest.events + [m]);
      if !IsServerRequest(m) || Handling(rest, m).1.None? {
        ReceivingReturns(next, id);
        var d := Receiving(next, id).0;
        assert d.events[..|c.events|] == d.events[..|next.events|][..|c.events|];
        assert d.events[|c.events|] == d.events[..|next.events|][|c.events|];
      }
    }
  }

  // New events behind those of c, the last of them a match if the read succeeded, the others no match but server
  // requests.
  ghost predicate PassesOver(c: Client, d: Client, r: Result<Message, Failure>, name: string,
                             wanted: Option<string -> bool>)
  {
    && |c.events| <= |d.events| && d.events[..|c.events|] == c.events
    && (r.Ok? ==> |c.events| < |d.events| && r.value == d.events[|d.events| - 1] && Matches(r.value, name, wanted))
    && (forall k | |c.events| <= k < |d.events| - (if r.Ok? then 1 else 0) ::
          Matches(d.events[k], name, wanted) ==> IsServerRequest(d.events[k]))
  }

  lemma PassesOneMore(c: Client, m: Message, next: Client, d: Client, r: Result<Message, Failure>, name: string,
                      wanted: Option<string -> bool>)
    requires next.events == c.events + [m] && PassesOver(next, d, r, name, wanted)
      && (Matches(m, name, wanted) ==> IsServerRequest(m))
    ensures PassesOver(c, d, r, name, wanted)
  {
    hide Matches, IsServerRequest;
    assert d.events[..|c.events|] == d.events[..|next.events|][..|c.events|];
    assert d.events[|c.events|] == d.events[..|next.events|][|c.events|];
  }

  lemma PassesLast(c: Client, m: Message, next: Client, failed: Failure, name: string, wanted: Option<string -> bool>)
    requires next.events == c.events + [m]
    ensures Matches(m, name, wanted) ==> PassesOver(c, next, Ok(m), name, wanted)
    ensures (Matches(m, name, wanted) ==> IsServerRequest(m)) ==> PassesOver(c, next, Err(failed), name, wanted)
  {
    hide Matches, IsServerRequest;
    assert next.events[..|c.events|] == c.events;
  }

  lemma PassesNone(c: Client, d: Client, failed: Failure, name: string, wanted: Option<string -> bool>)
    requires d.events == c.events
    ensures PassesOver(c, d, Err(failed), name, wanted)
  {
  }

  // What a wait takes in before it returns: nothing that matches but server requests.
  lemma {:induction false} AwaitingReturns(c: Client, name: string, wanted: Option<string -> bool>)
    ensures PassesOver(c, Awaiting(c, name, wanted).0, Awaiting(c, name, wanted).1, name, wanted)
    decreases |c.inbox|
  {
    hide Matches, IsServerRequest, PassesOver;
    var (d, r) := Awaiting(c, name, wanted);
    if c.inbox != [] && c.inbox[0].Delivered? {
      var m, rest := c.inbox[0].message, c.(inbox := c.inbox[1..]);
      var next := if IsServerRequest(m) then Handling(rest, m).0 else rest.(events := rest.events + [m]);
      if if IsServerRequest(m) then Handling(rest, m).1.None? else !Matches(m, name, wanted) {
        AwaitingReturns(next, name, wanted);
        PassesOneMore(c, m, next, d, r, name, wanted);
      } else {
        PassesLast(c, m, next, Exited, name, wanted);
      }
    } else {
      PassesNone(c, d, if c.inbox == [] || c.inbox[0].Timeout? then TimedOut else ClosedStdout, name, wanted);
    }
  }

  // the messages that the next reads deliver, up to a close or a timeout
  function Deliveries(inbox: seq<Arrival>): seq<Message> {
    if inbox == [] || !inbox[0].Delivered? then [] else [inbox[0].message] + Deliveries(inbox[1..])
  }

  // the first message that matches and is no server request
  function FirstNotice(ms: seq<Message>, name: string, wanted: Option<string -> bool>): (r: Option<nat>)
    ensures r.Some? ==> r.value < |ms| && Matches(ms[r.value], name, wanted) && !IsServerRequest(ms[r.value])
    ensures forall k | 0 <= k < (if r.Some? then r.value else |ms|) ::
      Matches(ms[k], name, wanted) ==> IsServerRequest(ms[k])
  {
    if ms == [] then None
    else if !IsServerRequest(ms[0]) && Matches(ms[0], name, wanted) then Some(0)
    else
      var later := FirstNotice(ms[1..], name, wanted);
      if later.None? then None else Some(later.value + 1)
  }

  function Asked(ms: seq<Message>): nat {
    if ms == [] then 0 else (if IsServerRequest(ms[0]) then 1 else 0) + Asked(ms[1..])
  }

  // The process still takes n answers.
  predicate CanAnswer(c: Client, n: nat) {
    n == 0 || c.exitAfter.None? || |c.sent| + n <= c.exitAfter.value
  }

  // Reading messages until the notice at n, which is returned if every request in front of it can be answered.
  ghost predicate ReadsUntil(c: Client, ms: seq<Message>, n: Option<nat>, d: Client, r: Result<Message, Failure>) {
    && (n.Some? ==> n.value < |ms|)
    && (r.Ok? <==> n.Some? && CanAnswer(c, Asked(ms[..n.value])))
    && (r.Ok? ==> r.value == ms[n.value] && d.events == c.events + ms[..n.value + 1])
  }

  lemma ReadsPast(c: Client, m: Message, next: Client, more: seq<Message>, n: nat, d: Client,
                  r: Result<Message, Failure>)
    requires ReadsUntil(next, more, Some(n), d, r) && next.events == c.events + [m] && next.exitAfter == c.exitAfter
    requires |next.sent| == |c.sent| + (if IsServerRequest(m) then 1 else 0)
    requires IsServerRequest(m) ==> CanAnswer(c, 1)
    ensures ReadsUntil(c, [m] + more, Some(n + 1), d, r)
  {
    var ms := [m] + more;
    hide IsServerRequest;
    assert ms[..n + 1][1..] == more[..n] && ms[..n + 1][0] == m;
    assert c.events + [m] + more[..n + 1] == c.events + ms[..n + 2];
  }

  lemma NoticeStep(ms: seq<Message>, name: string, wanted: Option<string -> bool>)
    requires ms != [] && (IsServerRequest(ms[0]) || !Matches(ms[0], name, wanted))
    ensures var later := FirstNotice(ms[1..], name, wanted);
      FirstNotice(ms, name, wanted) == if later.None? then None else Some(later.value + 1)
  {
    hide IsServerRequest, Matches;
  }

  lemma StuckAnswer(c: Client, ms: seq<Message>, n: Option<nat>)
    requires ms != [] && IsServerRequest(ms[0]) && !CanAnswer(c, 1) && (n.Some? ==> 0 < n.value < |ms|)
    ensures n.Some? ==> !CanAnswer(c, Asked(ms[..n.value]))
  {
    hide IsServerRequest;
    if n.Some? { assert ms[..n.value][0] == ms[0]; }
  }

  // A wait that finds nothing recorded succeeds exactly when the deliveries hold a match that is no server request
  // and every server request in front of it can be answered; it records all it read.
  lemma {:induction false} AwaitingMeaning(c: Client, name: string, wanted: Option<string -> bool>)
    ensures var (d, r) := Awaiting(c, name, wanted);
      ReadsUntil(c, Deliveries(c.inbox), FirstNotice(Deliveries(c.inbox), name, wanted), d, r)
    decreases |c.inbox|
  {
    hide Matches, IsServerRequest, ReadsUntil, FirstNotice;
    if c.inbox != [] && c.inbox[0].Delivered? {
      var ms, m, rest := Deliveries(c.inbox), c.inbox[0].message, c.(inbox := c.inbox[1..]);
      var more := Deliveries(rest.inbox);
      assert ms == [m] + more && ms[1..] == more;
      if IsServerRequest(m) || !Matches(m, name, wanted) {
        NoticeStep(ms, name, wanted);
        var next := if IsServerRequest(m) then Handling(rest, m).0 else rest.(events := rest.events + [m]);
        if IsServerRequest(m) && HasExited(c) {
          AwaitingStuck(c, m, ms, FirstNotice(ms, name, wanted), Awaiting(c, name, wanted).0);
        } else {
          AwaitingMeaning(next, name, wanted);
          AwaitingPasses(c, m, next, more, FirstNotice(more, name, wanted), Awaiting(c, name, wanted).0,
            Awaiting(c, name, wanted).1);
        }
      } else {
        AwaitingStops(c, m, ms, name, wanted);
      }
    } else {
      NothingRead(c, name, wanted);
    }
  }

  lemma NothingRead(c: Client, name: string, wanted: Option<string -> bool>)
    requires c.inbox == [] || !c.inbox[0].Delivered?
    ensures var (d, r) := Awaiting(c, name, wanted);
      ReadsUntil(c, Deliveries(c.inbox), FirstNotice(Deliveries(c.inbox), name, wanted), d, r)
  {
  }

  lemma AwaitingStops(c: Client, m: Message, ms: seq<Message>, name: string, wanted: Option<string -> bool>)
    requires c.inbox != [] && c.inbox[0] == Delivered(m) && !IsServerRequest(m) && Matches(m, name, wanted)
    requires ms != [] && ms[0] == m
    ensures var (d, r) := Awaiting(c, name, wanted); ReadsUntil(c, ms, FirstNotice(ms, name, wanted), d, r)
  {
    hide IsServerRequest, Matches;
    assert ms[..0] == [] && ms[..1] == [m];
  }

  lemma AwaitingStuck(c: Client, m: Message, ms: seq<Message>, n: Option<nat>, d: Client)
    requires IsServerRequest(m) && HasExited(c) && ms != [] && ms[0] == m && (n.Some? ==> 0 < n.value < |ms|)
    ensures ReadsUntil(c, ms, n, d, Err(Exited))
  {
    hide IsServerRequest, Asked;
    StuckAnswer(c, ms, n);
  }

  lemma AwaitingPasses(c: Client, m: Message, next: Client, more: seq<Message>, later: Option<nat>, d: Client,
                       r: Result<Message, Failure>)
    requires IsServerRequest(m) ==> !HasExited(c)
    requires next.events == c.events + [m] && next.exitAfter == c.exitAfter
    requires |next.sent| == |c.sent| + (if IsServerRequest(m) then 1 else 0)
    requires ReadsUntil(next, more, later, d, r)
    ensures ReadsUntil(c, [m] + more, if later.None? then None else Some(later.value + 1), d, r)
  {
    hide IsServerRequest, Asked;
    if later.Some? {
      ReadsPast(c, m, next, more, later.value, d, r);
      hide ReadsUntil;
    }
  }

  // How many of the next messages lie before the index.
  function Skipped(recorded: nat, after: nat): nat {
    if after <= recorded then 0 else after - recorded
  }

  // The first match from here on is no server request, and no message before it would stop a wait.
  ghost predicate FirstIsNotice(ms: seq<Message>, skip: nat, name: string, wanted: Option<string -> bool>) {
    var first := Earliest(ms, skip, name, wanted);
    && first.Some? && !IsServerRequest(ms[first.value])
    && forall j | 0 <= j < skip && j < |ms| :: Matches(ms[j], name, wanted) ==> IsServerRequest(ms[j])
  }

  lemma FirstFromSkip(ms: seq<Message>, n: nat, skip: nat, name: string, wanted: Option<string -> bool>)
    requires FirstNotice(ms, name, wanted) == Some(n)
    ensures FirstIsNotice(ms, skip, name, wanted) <==>
      skip <= n && forall j | skip <= j < n :: !Matches(ms[j], name, wanted)
  {
    hide Matches, IsServerRequest;
    assert Matches(ms[n], name, wanted) && !IsServerRequest(ms[n]);
  }

  // The earliest match among recorded events and the messages read behind them.
  lemma EarliestBehind(events: seq<Message>, ms: seq<Message>, n: nat, after: nat, name: string,
                       wanted: Option<string -> bool>)
    requires FirstNotice(ms, name, wanted) == Some(n) && Earliest(events, after, name, wanted).None?
    ensures Earliest(events + ms[..n + 1], after, name, wanted) == Some(|events| + n) <==>
      FirstIsNotice(ms, Skipped(|events|, after), name, wanted)
  {
    FirstFromSkip(ms, n, Skipped(|events|, after), name, wanted);
    EarliestIn(events, ms, n, after, name, wanted);
    hide *;
  }

  lemma EarliestIn(events: seq<Message>, ms: seq<Message>, n: nat, after: nat, name: string,
                   wanted: Option<string -> bool>)
    requires n < |ms| && Matches(ms[n], name, wanted)
      && forall j | after <= j < |events| :: !Matches(events[j], name, wanted)
    ensures Earliest(events + ms[..n + 1], after, name, wanted) == Some(|events| + n) <==>
      Skipped(|events|, after) <= n && forall j | Skipped(|events|, after) <= j < n :: !Matches(ms[j], name, wanted)
  {
    var all, skip := events + ms[..n + 1], Skipped(|events|, after);
    hide Matches;
    assert forall k | 0 <= k < |all| :: all[k] == if k < |events| then events[k] else ms[k - |events|];
    assert forall j | 0 <= j <= n :: all[|events| + j] == ms[j];
    EarliestIs(all, after, |events| + n, name, wanted);
    hide Earliest;
    if forall k | after <= k < |events| + n :: !Matches(all[k], name, wanted) {
      forall j | skip <= j < n ensures !Matches(ms[j], name, wanted) {
        assert !Matches(all[|events| + j], name, wanted);
      }
    }
  }

  lemma EarliestIs(events: seq<Message>, after: nat, k: nat, name: string, wanted: Option<string -> bool>)
    requires k < |events| && Matches(events[k], name, wanted)
    ensures Earliest(events, after, name, wanted) == Some(k) <==>
      after <= k && forall j | after <= j < k :: !Matches(events[j], name, wanted)
  {
    hide Matches;
  }

  // A successful wait returns the earliest matching event recorded at or after its index, or, with none recorded, reads
  // up to the first delivered match that is no server request and returns that one.
  lemma WaitReturns(c: Client, name: string, wanted: Option<string -> bool>, after: nat)
    requires Waiting(c, name, wanted, after).1.Ok?
    ensures var found := Earliest(c.events, after, name, wanted);
      found.Some? ==> Waiting(c, name, wanted, after) == (c, Ok(c.events[found.value]))
    ensures Earliest(c.events, after, name, wanted).None? ==>
      var (d, r) := Waiting(c, name, wanted, after);
      var ms := Deliveries(c.inbox);
      var n := FirstNotice(ms, name, wanted);
      n.Some? && d.events == c.events + ms[..n.value + 1] && r.value == ms[n.value]
  {
    AwaitingMeaning(c, name, wanted);
    hide Awaiting, FirstNotice, Deliveries, Earliest, Asked, CanAnswer;
  }

  // What it reads is the earliest matching event at or after the index exactly when the messages about to be
  // delivered let it be.
  lemma WaitReturnsEarliest(c: Client, name: string, wanted: Option<string -> bool>, after: nat)
    requires Waiting(c, name, wanted, after).1.Ok? && Earliest(c.events, after, name, wanted).None?
    ensures var (d, r) := Waiting(c, name, wanted, after);
      && d.events != [] && r.value == d.events[|d.events| - 1]
      && (Earliest(d.events, after, name, wanted) == Some(|d.events| - 1) <==>
            FirstIsNotice(Deliveries(c.inbox), Skipped(|c.events|, after), name, wanted))
  {
    hide *;
    WaitReturns(c, name, wanted, after);
    var ms := Deliveries(c.inbox);
    var n := FirstNotice(ms, name, wanted).value;
    EarliestBehind(c.events, ms, n, after, name, wanted);
    assert (c.events + ms[..n + 1])[|c.events| + n] == ms[n];
  }

  // For an index among the events recorded so far, only the first delivered match counts: it must be no server request.
  lemma WaitFromRecorded(c: Client, name: string, wanted: Option<string -> bool>, after: nat)
    requires Waiting(c, name, wanted, after).1.Ok? && Earliest(c.events, after, name, wanted).None?
      && after <= |c.events|
    ensures var first := Earliest(Deliveries(c.inbox), 0, name, wanted);
      var (d, r) := Waiting(c, name, wanted, after);
      && first.Some? && d.events != []
      && (Earliest(d.events, after, name, wanted) == Some(|d.events| - 1) <==>
          !IsServerRequest(Deliveries(c.inbox)[first.value]))
  {
    WaitReturnsEarliest(c, name, wanted, after);
    WaitReturns(c, name, wanted, after);
    hide Waiting, Matches, IsServerRequest;
  }

  const CHANGED := "serverRequest/changed"

  // Waiting for a method that the server also sends as a request passes over the request.
  lemma WaitPassesRequest()
    ensures
      var asked := Message(Int(7), Name(CHANGED), Dict("{}"), "");
      var told := Message(NoId, Name(CHANGED), Dict("{}"), "");
      var (d, r) := Waiting(Client(1, [Delivered(asked), Delivered(told)], [], [], [], None, None), CHANGED, None, 0);
      r == Ok(told) && d.events == [asked, told] && Earliest(d.events, 0, CHANGED, None) == Some(0)
  {
    var asked := Message(Int(7), Name(CHANGED), Dict("{}"), "");
    var told := Message(NoId, Name(CHANGED), Dict("{}"), "");
    var c := Client(1, [Delivered(asked), Delivered(told)], [], [], [], None, None);
    var rest := c.(inbox := [Delivered(told)]);
    assert c.inbox[1..] == [Delivered(told)];
    var next := Handling(rest, asked).0;
    assert Awaiting(c, CHANGED, None) == Awaiting(next, CHANGED, None);
    assert next.inbox[0] == Delivered(told);
    assert Awaiting(next, CHANGED, None).1 == Ok(told);
  }

  // Waiting from an index beyond the recorded events returns a message that lies before the index.
  lemma WaitIgnoresLateIndex()
    ensures
      var told := Message(NoId, Name(CHANGED), Dict("{}"), "");
      var (d, r) := Waiting(Client(1, [Delivered(told), Delivered(told)], [], [], [], None, None), CHANGED, None, 1);
      r == Ok(told) && d.events == [told] && Earliest(d.events, 1, CHANGED, None) == None
  {
    var told := Message(NoId, Name(CHANGED), Dict("{}"), "");
    var c := Client(1, [Delivered(told), Delivered(told)], [], [], [], None, None);
    assert Earliest(c.events, 1, CHANGED, None).None?;
    assert Matches(told, CHANGED, None) && !IsServerRequest(told);
    assert c.inbox[0] == Delivered(told);
    assert Awaiting(c, CHANGED, None) == (c.(inbox := c.inbox[1..], events := c.events + [told]), Ok(told));
    assert c.events + [told] == [told];
  }
}
