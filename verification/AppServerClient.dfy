/** The compliance runner's app-server client: requests, waits, and the server's own requests in between.
    The inbox holds, in order, what each read of the message queue will yield; when it is exhausted a read times out.
    The process exits after a given number of lines have been written to it, or never. */
module AppServerClient {
  import opened Prelude

  datatype MessageId = NoId | Int(n: int) | Float(r: real) | Bool(b: bool) | NotANumber(shown: string)

  datatype MethodField = NoMethod | Name(name: string) | NotAString

  datatype ParamsField = Dict(content: string) | NotADict

  datatype Message = Message(id: MessageId, method_: MethodField, params: ParamsField, rest: string)

  datatype Arrival = Delivered(message: Message) | Closed | Timeout

  datatype Reply = Accept(content: string) | Unsupported(method_: MethodField)

  datatype Line =
    | Request(id: nat, name: string, params: Option<string>)
    | Notification(name: string)
    | Answer(to: MessageId, reply: Reply)

  datatype Failure = TimedOut | ClosedStdout | Exited

  const ELICITATION := "mcpServer/elicitation/request"

  // Python's equality of an identifier with an int
  predicate EqualsInt(id: MessageId, n: int) {
    match id
    case Int(m) => m == n
    case Float(r) => r == n as real
    case Bool(b) => (if b then 1 else 0) == n
    case NoId => false
    case NotANumber(_) => false
  }

  predicate IsResponse(m: Message, id: int) {
    EqualsInt(m.id, id) && m.method_.NoMethod?
  }

  predicate IsServerRequest(m: Message) {
    m.id != NoId && m.method_.Name?
  }

  // ---------------------------------------------------------------- the client's state as a value

  datatype Client = Client(
    nextId: nat,
    inbox: seq<Arrival>,
    events: seq<Message>,
    elicitations: seq<string>,
    sent: seq<Line>,
    exitAfter: Option<nat>,
    answerer: Option<string -> string>)

  predicate HasExited(c: Client) {
    c.exitAfter.Some? && |c.sent| >= c.exitAfter.value
  }

  function Sending(c: Client, line: Line): (Client, Option<Failure>) {
    if HasExited(c) then (c, Some(Exited)) else (c.(sent := c.sent + [line]), None)
  }

  function ReplyTo(m: Message, answerer: Option<string -> string>): Reply {
    if m.method_ == Name(ELICITATION) then
      Accept(if answerer.Some? then answerer.value(if m.params.Dict? then m.params.content else "{}")
             else "{\"confirmation\": \"confirmed\"}")
    else Unsupported(m.method_)
  }

  predicate Elicits(m: Message) {
    m.method_ == Name(ELICITATION) && m.params.Dict?
  }

  // `_handle_server_request`
  function Handling(c: Client, m: Message): (Client, Option<Failure>) {
    Sending(c.(events := c.events + [m],
      elicitations := if Elicits(m) then c.elicitations + [m.params.content] else c.elicitations),
            Answer(m.id, ReplyTo(m, c.answerer)))
  }

  // the loop of `request`
  function Receiving(c: Client, id: nat): (Client, Result<Message, Failure>)
    decreases |c.inbox|
  {
    if c.inbox == [] then (c, Err(TimedOut))
    else
      var rest := c.(inbox := c.inbox[1..]);
      match c.inbox[0]
      case Timeout => (rest, Err(TimedOut))
      case Closed => (rest, Err(ClosedStdout))
      case Delivered(m) =>
        if IsResponse(m, id) then (rest, Ok(m))
        else if IsServerRequest(m) then
          var (next, failure) := Handling(rest, m);
          if failure.Some? then (next, Err(failure.value)) else Receiving(next, id)
        else Receiving(rest.(events := rest.events + [m]), id)
  }

  function Requesting(c: Client, name: string, params: Option<string>): (Client, Result<Message, Failure>) {
    var (next, failure) := Sending(c.(nextId := c.nextId + 1), Request(c.nextId, name, params));
    if failure.Some? then (next, Err(failure.value)) else Receiving(next, c.nextId)
  }

  predicate Matches(m: Message, name: string, wanted: Option<string -> bool>) {
    m.method_ == Name(name) && m.params.Dict? && (wanted.None? || wanted.value(m.params.content))
  }

  // the first matching event at or after an index
  function Earliest(events: seq<Message>, from: nat, name: string, wanted: Option<string -> bool>): (r: Option<nat>)
    ensures r.Some? ==> from <= r.value < |events| && Matches(events[r.value], name, wanted)
    ensures r.Some? ==> forall k | from <= k < r.value :: !Matches(events[k], name, wanted)
    ensures r.None? ==> forall k | from <= k < |events| :: !Matches(events[k], name, wanted)
    decreases |events| - from
  {
    if from >= |events| then None
    else if Matches(events[from], name, wanted) then Some(from)
    else Earliest(events, from + 1, name, wanted)
  }

  // the loop of `wait_for_notification`
  function Awaiting(c: Client, name: string, wanted: Option<string -> bool>): (Client, Result<Message, Failure>)
    decreases |c.inbox|
  {
    if c.inbox == [] then (c, Err(TimedOut))
    else
      var rest := c.(inbox := c.inbox[1..]);
      match c.inbox[0]
      case Timeout => (rest, Err(TimedOut))
      case Closed => (rest, Err(ClosedStdout))
      case Delivered(m) =>
        if IsServerRequest(m) then
          var (next, failure) := Handling(rest, m);
          if failure.Some? then (next, Err(failure.value)) else Awaiting(next, name, wanted)
        else
          var next := rest.(events := rest.events + [m]);
          if Matches(m, name, wanted) then (next, Ok(m)) else Awaiting(next, name, wanted)
  }

  function Waiting(c: Client, name: string, wanted: Option<string -> bool>,
                   after: nat): (Client, Result<Message, Failure>)
  {
    var found := Earliest(c.events, after, name, wanted);
    if found.Some? then (c, Ok(c.events[found.value])) else Awaiting(c, name, wanted)
  }

  // ---------------------------------------------------------------- what a message is, and what it is answered

  // A response carries the identifier, as Python compares numbers, and no method; a server request carries any
  // identifier and a method in words.
  lemma MessageKinds(m: Message, id: int)
    ensures IsResponse(m, id) <==>
      && m.method_ == NoMethod
      && (m.id == Int(id) || m.id == Float(id as real) || (m.id == Bool(true) && id == 1)
          || (m.id == Bool(false) && id == 0))
    ensures IsServerRequest(m) <==> m.id != NoId && exists name :: m.method_ == Name(name)
    ensures !(IsResponse(m, id) && IsServerRequest(m))
  {
    if m.method_.Name? { assert m.method_ == Name(m.method_.name); }
  }

  // Elicitations alone are accepted, with what the answerer makes of their parameters or a fixed confirmation, and
  // those whose parameters are an object are recorded; every other request is declined by its method.
  lemma HandlingMeaning(c: Client, m: Message)
    requires !HasExited(c)
    ensures var (next, failure) := Handling(c, m);
      && failure == None && next.events == c.events + [m] && next.inbox == c.inbox && next.nextId == c.nextId
      && |next.sent| == |c.sent| + 1 && next.sent[..|c.sent|] == c.sent
      && next.sent[|c.sent|].Answer? && next.sent[|c.sent|].to == m.id
      && (var elicits, reply := m.method_ == Name("mcpServer/elicitation/request"), next.sent[|c.sent|].reply;
          && (reply.Accept? <==> elicits)
          && (!elicits ==> reply == Unsupported(m.method_) && next.elicitations == c.elicitations)
          && (elicits && c.answerer == None ==> reply == Accept("{\"confirmation\": \"confirmed\"}"))
          && (elicits && m.params == NotADict ==>
                next.elicitations == c.elicitations
                && (c.answerer.Some? ==> reply == Accept(c.answerer.value("{}"))))
          && (elicits && m.params.Dict? ==>
                next.elicitations == c.elicitations + [m.params.content]
                && (c.answerer.Some? ==> reply == Accept(c.answerer.value(m.params.content)))))
  {
  }

  // ---------------------------------------------------------------- the client

  class AppServer {
    var nextId: nat
    var inbox: seq<Arrival>
    var events: seq<Message>
    var elicitationRequests: seq<string>
    var sent: seq<Line>
    const exitAfter: Option<nat>
    const answerer: Option<string -> string>

    constructor (inbox: seq<Arrival>, exitAfter: Option<nat>, answerer: Option<string -> string>)
      ensures Value() == Client(1, inbox, [], [], [], exitAfter, answerer)
    {
      nextId := 1;
      this.inbox := inbox;
      events := [];
      elicitationRequests := [];
      sent := [];
      this.exitAfter := exitAfter;
      this.answerer := answerer;
    }

    function Value(): Client
      reads this
    {
      Client(nextId, inbox, events, elicitationRequests, sent, exitAfter, answerer)
    }

    // one read of the message queue
    method Get() returns (arrival: Arrival)
      modifies this`inbox
      ensures old(inbox) == [] ==> arrival == Timeout && inbox == []
      ensures old(inbox) != [] ==> arrival == old(inbox)[0] && inbox == old(inbox)[1..]
    {
      if inbox == [] {
        return Timeout;
      }
      arrival := inbox[0];
      inbox := inbox[1..];
    }

    method Send(line: Line) returns (failure: Option<Failure>)
      modifies this`sent
      ensures (Value(), failure) == Sending(old(Value()), line)
    {
      if exitAfter.Some? && |sent| >= exitAfter.value {
        return Some(Exited);
      }
      sent := sent + [line];
      return None;
    }

    method Notify(name: string) returns (failure: Option<Failure>)
      modifies this`sent
      ensures (Value(), failure) == Sending(old(Value()), Notification(name))
    {
      failure := Send(Notification(name));
    }

    method HandleServerRequest(m: Message) returns (failure: Option<Failure>)
      modifies this`events, this`elicitationRequests, this`sent
      ensures (Value(), failure) == Handling(old(Value()), m)
    {
      events := events + [m];
      if m.method_ == Name("mcpServer/elicitation/request") {
        var params := "{}";
        if m.params.Dict? {
          elicitationRequests := elicitationRequests + [m.params.content];
          params := m.params.content;
        }
        var content := if answerer.Some? then answerer.value(params) else "{\"confirmation\": \"confirmed\"}";
        failure := Send(Answer(m.id, Accept(content)));
        return;
      }
      failure := Send(Answer(m.id, Unsupported(m.method_)));
    }

    // `request`
    method Request(name: string, params: Option<string>) returns (r: Result<Message, Failure>)
      modifies this
      ensures (Value(), r) == Requesting(old(Value()), name, params)
    {
      var requestId := nextId;
      nextId := nextId + 1;
      var failure := Send(Line.Request(requestId, name, params));
      if failure.Some? {
        return Err(failure.value);
      }
      ghost var start := Value();
      while true
        invariant Receiving(start, requestId) == Receiving(Value(), requestId)
        decreases |inbox|
      {
        ghost var before := Value();
        var arrival := Get();
        if arrival.Timeout? {
          return Err(TimedOut);
        }
        if arrival.Closed? {
          return Err(ClosedStdout);
        }
        var message := arrival.message;
        if IsResponse(message, requestId) {
          return Ok(message);
        }
        if IsServerRequest(message) {
          failure := HandleServerRequest(message);
          if failure.Some? {
            return Err(failure.value);
          }
        } else {
          events := events + [message];
        }
      }
    }

    // `wait_for_notification`
    method WaitForNotification(name: string, wanted: Option<string -> bool>, after: nat)
      returns (r: Result<Message, Failure>)
      modifies this
      ensures (Value(), r) == Waiting(old(Value()), name, wanted, after)
    {
      var i := after;
      while i < |events|
        invariant Value() == old(Value())
        invariant after <= i && (|events| < i ==> i == after)
        invariant Earliest(events, after, name, wanted) == Earliest(events, i, name, wanted)
        decreases |events| - i
      {
        var event := events[i];
        if Matches(event, name, wanted) {
          return Ok(event);
        }
        i := i + 1;
      }
      while true
        invariant Waiting(old(Value()), name, wanted, after) == Awaiting(Value(), name, wanted)
        decreases |inbox|
      {
        var arrival := Get();
        if arrival.Timeout? {
          return Err(TimedOut);
        }
        if arrival.Closed? {
          return Err(ClosedStdout);
        }
        var message := arrival.message;
        if IsServerRequest(message) {
          var failure := HandleServerRequest(message);
          if failure.Some? {
            return Err(failure.value);
          }
          continue;
        }
        events := events + [message];
        if Matches(message, name, wanted) {
          return Ok(message);
        }
      }
    }
  }
}
