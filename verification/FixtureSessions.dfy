/** The HTTP layer of the fixture server: its session table, and every interleaving of concurrent legacy requests.
    A connection is a ConnectionState object; a request looks its connection up under the lock and is handled later,
    possibly after other requests on the same session or after the session was deleted. */
module FixtureSessions {
  import opened Prelude
  import opened FixtureProtocol

  // ---------------------------------------------------------------- the session table as the server updates it

  // How a POST gets its connection: a new session, a connection of its own, the session in its header, or none.
  datatype Admission = NewSession | OwnConnection | Session(id: string) | Unknown

  function Admit<T>(sessions: map<string, T>, message: Message, header: Option<string>): Admission {
    var name := if message.Message? then message.method_ else None;
    if name == Some(INITIALIZE) then NewSession
    else if name == Some(DISCOVER) then OwnConnection
    else if header.Some? && header.value in sessions then Session(header.value)
    else Unknown
  }

  class FixtureHttpServer {
    const fixture: ProtocolServer
    var sessions: map<string, ConnectionState>

    constructor (fixture: ProtocolServer)
      ensures this.fixture == fixture && sessions == map[]
    {
      this.fixture := fixture;
      sessions := map[];
    }

    // `_legacy_state`; newId is the identifier that uuid4 returns.
    method LegacyState(message: Message, header: Option<string>, newId: string)
      returns (state: Option<ConnectionState>, sessionHeader: Option<string>)
      modifies this
      ensures var admission := Admit(old(sessions), message, header);
        && (admission.NewSession? ==>
              state.Some? && fresh(state.value) && state.value.Value() == Phase(false, false)
              && sessionHeader == Some(newId) && sessions == old(sessions)[newId := state.value])
        && (admission.OwnConnection? ==>
              state.Some? && fresh(state.value) && state.value.Value() == Phase(false, false)
              && sessionHeader == None && sessions == old(sessions))
        && (admission.Session? ==>
              state == Some(old(sessions)[admission.id]) && sessionHeader == Some(admission.id)
                && sessions == old(sessions))
        && (admission.Unknown? ==> state == None && sessionHeader == None && sessions == old(sessions))
    {
      var name := if message.Message? then message.method_ else None;
      if name == Some(INITIALIZE) {
        var created := new ConnectionState();
        sessions := sessions[newId := created];
        return Some(created), Some(newId);
      }
      if name == Some(DISCOVER) {
        var own := new ConnectionState();
        return Some(own), None;
      }
      if header.None? || header.value !in sessions {
        return None, None;
      }
      return Some(sessions[header.value]), header;
    }

    // do_DELETE, on the endpoint of a legacy server
    method Delete(header: Option<string>) returns (status: int)
      modifies this
      ensures status == if header.Some? && header.value in old(sessions) then OK else NOT_FOUND
      ensures sessions == if header.Some? then old(sessions) - {header.value} else old(sessions)
    {
      var existed := header.Some? && header.value in sessions;
      if header.Some? {
        sessions := sessions - {header.value};
      }
      return if existed then OK else NOT_FOUND;
    }

    // do_POST of a legacy server from the parsed message on, when no other request is in flight.
    method Post(message: Message, header: Option<string>, newId: string)
      returns (plan: Plan, sessionHeader: Option<string>)
      requires !Modern(fixture.server) && message.Message?
      modifies this, sessions.Values
      ensures Admit(old(sessions), message, header).Unknown? ==>
        plan == Refusal(IdOf(message), INVALID_REQUEST, BAD_REQUEST) && sessions == old(sessions)
      ensures Admit(old(sessions), message, header).NewSession? ==>
        newId in sessions && sessionHeader == Some(newId)
        && (plan, sessions[newId].Value()) == Handled(fixture.server, message, Phase(false, false))
      ensures Admit(old(sessions), message, header).Session? ==>
        header.Some? && header.value in old(sessions) && sessions == old(sessions) && sessionHeader == header
        && (plan, sessions[header.value].Value())
           == Handled(fixture.server, message, old(sessions[header.value].Value()))
      ensures Admit(old(sessions), message, header).OwnConnection? ==>
        sessions == old(sessions) && plan == Handled(fixture.server, message, Phase(false, false)).0
    {
      var state;
      state, sessionHeader := LegacyState(message, header, newId);
      if state.None? {
        return Refusal(IdOf(message), INVALID_REQUEST, BAD_REQUEST), None;
      }
      plan := fixture.Handle(message, state.value);
    }
  }

  // ---------------------------------------------------------------- every interleaving

  datatype Connection = Connection(phase: Phase, session: Option<string>)

  // a request between its lookup and its handling
  datatype Flight = Flight(message: Message, conn: nat)

  // what was answered: the connection it was handled on, or None when no session was found
  datatype Outcome = Outcome(ticket: nat, message: Message, conn: Option<nat>, plan: Plan,
    sessionHeader: Option<string>)

  datatype State = State(
    conns: seq<Connection>,
    sessions: map<string, nat>,
    flights: map<nat, Flight>,
    tickets: nat,
    log: seq<Outcome>)

  datatype Step =
    | Arrive(message: Message, header: Option<string>, newId: string)
    | Execute(ticket: nat)
    | Remove(session: string)

  const INITIAL := State([], map[], map[], 0, [])

  function Opened(s: State, message: Message, session: Option<string>): State {
    s.(conns := s.conns + [Connection(Phase(false, false), session)],
       sessions := if session.Some? then s.sessions[session.value := |s.conns|] else s.sessions,
       flights := s.flights[s.tickets := Flight(message, |s.conns|)],
       tickets := s.tickets + 1)
  }

  ghost predicate Next(server: Server, s: State, step: Step, t: State) {
    match step
    case Arrive(message, header, newId) =>
      && message.Message?
      && (match Admit(s.sessions, message, header)
          case NewSession => t == Opened(s, message, Some(newId))
          case OwnConnection => t == Opened(s, message, None)
          case Session(id) =>
            t == s.(flights := s.flights[s.tickets := Flight(message, s.sessions[id])], tickets := s.tickets + 1)
          case Unknown =>
            t == s.(tickets := s.tickets + 1,
                    log := s.log
                      + [Outcome(s.tickets, message, None, Refusal(IdOf(message), INVALID_REQUEST, BAD_REQUEST),
                        None)]))
    case Execute(ticket) =>
      && ticket in s.flights && s.flights[ticket].conn < |s.conns|
      && (var flight := s.flights[ticket];
          var conn := s.conns[flight.conn];
          var (plan, phase) := Handled(server, flight.message, conn.phase);
          t == s.(conns := s.conns[flight.conn := conn.(phase := phase)],
                  flights := s.flights - {ticket},
                  log := s.log + [Outcome(ticket, flight.message, Some(flight.conn), plan, conn.session)]))
    case Remove(session) => t == s.(sessions := s.sessions - {session})
  }

  ghost predicate Run(server: Server, states: seq<State>, steps: seq<Step>) {
    && |states| == |steps| + 1 && states[0] == INITIAL
    && forall i | 0 <= i < |steps| :: Next(server, states[i], steps[i], states[i + 1])
  }

  // ---------------------------------------------------------------- the invariant

  // log[i] accepted initialize on the connection.
  ghost predicate Accepted(log: seq<Outcome>, c: nat, i: nat) {
    i < |log| && log[i].conn == Some(c) && AcceptsInitialize(log[i].message, log[i].plan)
  }

  // log[j] announced that the client is initialized on the connection.
  ghost predicate Announced(log: seq<Outcome>, c: nat, j: nat) {
    j < |log| && log[j].conn == Some(c) && AnnouncesInitialized(log[j].message)
  }

  ghost predicate Shaken(log: seq<Outcome>, c: nat, upTo: nat) {
    exists i, j | 0 <= i < j < upTo :: Accepted(log, c, i) && Announced(log, c, j)
  }

  ghost predicate PhaseJustified(s: State, c: nat)
    requires c < |s.conns|
  {
    && (s.conns[c].phase.initializeSeen <==> exists i | 0 <= i < |s.log| :: Accepted(s.log, c, i))
    && (s.conns[c].phase.initialized <==> Shaken(s.log, c, |s.log|))
  }

  ghost predicate ShakenBefore(log: seq<Outcome>, k: nat)
    requires k < |log|
  {
    log[k].conn.Some? && Shaken(log, log[k].conn.value, k)
  }

  // Every result other than initialize's stands behind the two steps of the handshake on its own connection.
  ghost predicate Safe(log: seq<Outcome>) {
    forall k | 0 <= k < |log| && Served(log[k].message, log[k].plan) :: ShakenBefore(log, k)
  }

  ghost predicate SessionsMatch(s: State) {
    && (forall id | id in s.sessions :: s.sessions[id] < |s.conns| && s.conns[s.sessions[id]].session == Some(id))
    && (forall k | 0 <= k < |s.log| && s.log[k].conn.Some? :: s.log[k].conn.value < |s.conns|)
    && (forall k | 0 <= k < |s.log| && s.log[k].conn.Some? ::
        s.log[k].sessionHeader == s.conns[s.log[k].conn.value].session)
    && (forall t | t in s.flights :: s.flights[t].conn < |s.conns|)
  }

  ghost predicate HasAnswer(log: seq<Outcome>, ticket: nat) {
    exists k | 0 <= k < |log| :: log[k].ticket == ticket
  }

  // Each arrival holds one ticket, either in flight or in exactly one answer.
  ghost predicate TicketsBalance(s: State) {
    && (forall t | t in s.flights :: t < s.tickets)
    && (forall k | 0 <= k < |s.log| :: s.log[k].ticket < s.tickets && s.log[k].ticket !in s.flights)
    && (forall j, k | 0 <= j < k < |s.log| :: s.log[j].ticket != s.log[k].ticket)
    && (forall t: nat | t < s.tickets && t !in s.flights :: HasAnswer(s.log, t))
  }

  ghost predicate Inv(s: State) {
    && SessionsMatch(s) && TicketsBalance(s) && Safe(s.log)
    && forall c | 0 <= c < |s.conns| :: PhaseJustified(s, c)
  }

  // ---------------------------------------------------------------- logs grow

  lemma ShakenGrows(log: seq<Outcome>, a: Outcome, c: nat)
    ensures Shaken(log, c, |log|) ==> Shaken(log + [a], c, |log| + 1)
    ensures Shaken(log + [a], c, |log| + 1) ==>
      Shaken(log, c, |log|)
      || (a.conn == Some(c) && AnnouncesInitialized(a.message) && exists i | 0 <= i < |log| :: Accepted(log, c, i))
  {
    var longer := log + [a];
    if Shaken(log, c, |log|) {
      var i, j :| 0 <= i < j < |log| && Accepted(log, c, i) && Announced(log, c, j);
      assert Accepted(longer, c, i) && Announced(longer, c, j);
    }
    if Shaken(longer, c, |log| + 1) {
      var i, j :| 0 <= i < j < |log| + 1 && Accepted(longer, c, i) && Announced(longer, c, j);
      assert Accepted(log, c, i);
      if j < |log| { assert Announced(log, c, j); }
    }
  }

  lemma ShakenPrefix(log: seq<Outcome>, a: Outcome, c: nat, k: nat)
    requires k <= |log| && Shaken(log, c, k)
    ensures Shaken(log + [a], c, k)
  {
    var i, j :| 0 <= i < j < k && Accepted(log, c, i) && Announced(log, c, j);
    assert Accepted(log + [a], c, i) && Announced(log + [a], c, j);
  }

  lemma AcceptedGrows(log: seq<Outcome>, a: Outcome, c: nat)
    ensures (exists i | 0 <= i < |log| + 1 :: Accepted(log + [a], c, i)) <==>
      (exists i | 0 <= i < |log| :: Accepted(log, c, i)) || (a.conn == Some(c) && AcceptsInitialize(a.message, a.plan))
  {
    var longer := log + [a];
    if i :| 0 <= i < |log| && Accepted(log, c, i) { assert Accepted(longer, c, i); }
    if a.conn == Some(c) && AcceptsInitialize(a.message, a.plan) { assert Accepted(longer, c, |log|); }
    if i :| 0 <= i < |log| + 1 && Accepted(longer, c, i) {
      if i < |log| { assert Accepted(log, c, i); }
    }
  }

  lemma SafeGrows(log: seq<Outcome>, a: Outcome)
    requires Safe(log) && (Served(a.message, a.plan) ==> a.conn.Some? && Shaken(log, a.conn.value, |log|))
    ensures Safe(log + [a])
  {
    var longer := log + [a];
    hide Shaken, Served;
    forall k | 0 <= k < |longer| && Served(longer[k].message, longer[k].plan)
      ensures ShakenBefore(longer, k)
    {
      if k < |log| {
        assert ShakenBefore(log, k);
        ShakenPrefix(log, a, log[k].conn.value, k);
      } else {
        ShakenPrefix(log, a, a.conn.value, |log|);
      }
    }
  }

  // ---------------------------------------------------------------- each step keeps the invariant

  lemma PhasesAfterAnswer(s: State, t: State, a: Outcome, c: nat)
    requires c < |s.conns| && PhaseJustified(s, c) && t.log == s.log + [a] && |t.conns| == |s.conns|
    requires a.conn != Some(c) && t.conns[c] == s.conns[c]
    ensures PhaseJustified(t, c)
  {
    ShakenGrows(s.log, a, c);
    AcceptedGrows(s.log, a, c);
  }

  lemma PhaseAfterExecute(server: Server, s: State, t: State, a: Outcome, c: nat)
    requires !Modern(server) && c < |s.conns| && PhaseJustified(s, c) && t.log == s.log + [a] && |t.conns| == |s.conns|
    requires a.conn == Some(c) && (a.plan, t.conns[c].phase) == Handled(server, a.message, s.conns[c].phase)
    ensures PhaseJustified(t, c)
  {
    PhaseStep(server, a.message, s.conns[c].phase);
    hide Handled, AcceptsInitialize, AnnouncesInitialized;
    ShakenGrows(s.log, a, c);
    AcceptedGrows(s.log, a, c);
    if s.conns[c].phase.initializeSeen && AnnouncesInitialized(a.message) {
      var i :| 0 <= i < |s.log| && Accepted(s.log, c, i);
      assert Accepted(t.log, c, i) && Announced(t.log, c, |s.log|);
    }
  }

  // A connection that no answer names yet is in its first phase.
  lemma NewConnection(s: State, t: State, c: nat)
    requires SessionsMatch(s) && c == |s.conns| && |t.conns| == c + 1 && t.log == s.log
    requires t.conns[c].phase == Phase(false, false)
    ensures PhaseJustified(t, c)
  {
    assert forall k | 0 <= k < |s.log| :: s.log[k].conn != Some(c);
  }

  lemma SamePhases(s: State, t: State, c: nat)
    requires c < |s.conns| && PhaseJustified(s, c) && t.log == s.log && c < |t.conns| && t.conns[c] == s.conns[c]
    ensures PhaseJustified(t, c)
  {
  }

  lemma OpenKeeps(s: State, message: Message, session: Option<string>)
    requires Inv(s) && message.Message?
    ensures Inv(Opened(s, message, session))
  {
    var t := Opened(s, message, session);
    forall c | 0 <= c < |t.conns| ensures PhaseJustified(t, c) {
      if c < |s.conns| { SamePhases(s, t, c); } else { NewConnection(s, t, c); }
    }
    hide PhaseJustified, Safe, Accepted, Announced, Shaken;
    assert SessionsMatch(t);
    TicketTaken(s, t);
  }

  lemma TicketTaken(s: State, t: State)
    requires TicketsBalance(s) && t.tickets == s.tickets + 1 && t.log == s.log
    requires s.tickets in t.flights && t.flights.Keys == s.flights.Keys + {s.tickets}
    ensures TicketsBalance(t)
  {
  }

  lemma ArriveKeeps(server: Server, s: State, step: Step, t: State)
    requires Inv(s) && step.Arrive? && Next(server, s, step, t)
    ensures Inv(t)
  {
    match Admit(s.sessions, step.message, step.header)
    case NewSession =>
      hide *;
      OpenKeeps(s, step.message, Some(step.newId));
    case OwnConnection =>
      hide *;
      OpenKeeps(s, step.message, None);
    case Session(id) =>
      JoinKeeps(s, step.message, id, t);
    case Unknown =>
      hide Inv;
      UnknownKeeps(s, t, t.log[|s.log|]);
  }

  lemma JoinKeeps(s: State, message: Message, id: string, t: State)
    requires Inv(s) && id in s.sessions
    requires t == s.(flights := s.flights[s.tickets := Flight(message, s.sessions[id])], tickets := s.tickets + 1)
    ensures Inv(t)
  {
    forall c | 0 <= c < |t.conns| ensures PhaseJustified(t, c) { SamePhases(s, t, c); }
    hide PhaseJustified, Safe, HasAnswer;
    TicketTaken(s, t);
  }

  // An answer that changes no connection.
  lemma UnknownKeeps(s: State, t: State, a: Outcome)
    requires Inv(s) && a.conn.None? && a.ticket == s.tickets && !Served(a.message, a.plan)
    requires t == s.(tickets := s.tickets + 1, log := s.log + [a])
    ensures Inv(t)
  {
    forall c | 0 <= c < |t.conns| ensures PhaseJustified(t, c) { PhasesAfterAnswer(s, t, a, c); }
    SafeGrows(s.log, a);
    TicketSpent(s, t, a);
    hide PhaseJustified, Safe, TicketsBalance, Served;
  }

  // A ticket that is answered at once.
  lemma TicketSpent(s: State, t: State, a: Outcome)
    requires TicketsBalance(s) && t.log == s.log + [a] && a.ticket == s.tickets && t.tickets == s.tickets + 1
      && t.flights == s.flights
    ensures TicketsBalance(t)
  {
    forall n: nat | n < t.tickets && n !in t.flights ensures HasAnswer(t.log, n) {
      if n == s.tickets { assert t.log[|s.log|].ticket == n; }
      else {
        assert HasAnswer(s.log, n);
        var k :| 0 <= k < |s.log| && s.log[k].ticket == n;
        assert t.log[k].ticket == n;
      }
    }
  }

  lemma TicketAnswered(s: State, t: State, a: Outcome)
    requires TicketsBalance(s) && t.log == s.log + [a] && a.ticket in s.flights && t.tickets == s.tickets
    requires t.flights == s.flights - {a.ticket}
    ensures TicketsBalance(t)
  {
    forall n: nat | n < t.tickets && n !in t.flights ensures HasAnswer(t.log, n) {
      if n == a.ticket { assert t.log[|s.log|].ticket == n; }
      else {
        assert HasAnswer(s.log, n);
        var k :| 0 <= k < |s.log| && s.log[k].ticket == n;
        assert t.log[k].ticket == n;
      }
    }
  }

  lemma ExecuteKeeps(server: Server, s: State, step: Step, t: State)
    requires !Modern(server) && Inv(s) && step.Execute? && Next(server, s, step, t)
    ensures Inv(t)
  {
    var flight := s.flights[step.ticket];
    var a := t.log[|s.log|];
    hide Inv, Handled;
    assert t.log == s.log + [a];
    AnswerKeeps(server, s, t, a, flight.conn);
  }

  // An answer on connection c.
  lemma AnswerKeeps(server: Server, s: State, t: State, a: Outcome, c: nat)
    requires !Modern(server) && Inv(s) && c < |s.conns| && a.conn == Some(c) && a.sessionHeader == s.conns[c].session
    requires a.ticket in s.flights && |t.conns| == |s.conns|
      && t.conns == s.conns[c := s.conns[c].(phase := t.conns[c].phase)]
    requires (a.plan, t.conns[c].phase) == Handled(server, a.message, s.conns[c].phase)
    requires t.log == s.log + [a] && t.flights == s.flights - {a.ticket} && t.tickets == s.tickets
      && t.sessions == s.sessions
    ensures Inv(t)
  {
    hide Handled, PhaseJustified, Safe, TicketsBalance, SessionsMatch;
    assert PhaseJustified(s, c);
    AnswerPhases(server, s, t, a, c);
    AnswerSafe(server, s, a, c);
    TicketAnswered(s, t, a);
    AnswerMatches(s, t, a, c);
  }

  lemma AnswerMatches(s: State, t: State, a: Outcome, c: nat)
    requires SessionsMatch(s) && c < |s.conns| && a.conn == Some(c) && a.sessionHeader == s.conns[c].session
    requires |t.conns| == |s.conns| && t.conns == s.conns[c := s.conns[c].(phase := t.conns[c].phase)]
    requires t.log == s.log + [a] && t.flights == s.flights - {a.ticket} && t.sessions == s.sessions
    ensures SessionsMatch(t)
  {
  }

  lemma AnswerPhases(server: Server, s: State, t: State, a: Outcome, c: nat)
    requires !Modern(server) && (forall d | 0 <= d < |s.conns| :: PhaseJustified(s, d)) && c < |s.conns|
      && a.conn == Some(c)
    requires |t.conns| == |s.conns| && t.conns == s.conns[c := s.conns[c].(phase := t.conns[c].phase)]
      && t.log == s.log + [a]
    requires (a.plan, t.conns[c].phase) == Handled(server, a.message, s.conns[c].phase)
    ensures forall d | 0 <= d < |t.conns| :: PhaseJustified(t, d)
  {
    hide Handled, PhaseJustified;
    forall d | 0 <= d < |t.conns| ensures PhaseJustified(t, d) {
      assert PhaseJustified(s, d);
      if d == c { PhaseAfterExecute(server, s, t, a, c); } else { PhasesAfterAnswer(s, t, a, d); }
    }
  }

  lemma AnswerSafe(server: Server, s: State, a: Outcome, c: nat)
    requires !Modern(server) && Safe(s.log) && c < |s.conns| && PhaseJustified(s, c) && a.conn == Some(c)
    requires a.plan == Handled(server, a.message, s.conns[c].phase).0
    ensures Safe(s.log + [a])
  {
    hide Handled, Safe, Shaken, Accepted;
    if Served(a.message, a.plan) { ServedOnlyWhenReady(server, a.message, s.conns[c].phase); }
    hide Served;
    SafeGrows(s.log, a);
  }

  lemma DeleteKeeps(server: Server, s: State, step: Step, t: State)
    requires Inv(s) && step.Remove? && Next(server, s, step, t)
    ensures Inv(t)
  {
    forall c | 0 <= c < |t.conns| ensures PhaseJustified(t, c) { SamePhases(s, t, c); }
    hide PhaseJustified, Safe, Accepted, Announced, Shaken;
  }

  lemma {:induction false} RunKeeps(server: Server, states: seq<State>, steps: seq<Step>, n: nat)
    requires !Modern(server) && Run(server, states, steps) && n < |states|
    ensures Inv(states[n])
  {
    if n > 0 {
      RunKeeps(server, states, steps, n - 1);
      var s, step, t := states[n - 1], steps[n - 1], states[n];
      assert Next(server, s, step, t);
      hide *;
      match step
      case Arrive(_, _, _) => ArriveKeeps(server, s, step, t);
      case Execute(_) => ExecuteKeeps(server, s, step, t);
      case Remove(_) => DeleteKeeps(server, s, step, t);
    }
  }

  // ---------------------------------------------------------------- what it means

  // In every run of a legacy server, whatever the interleaving and the session identifiers: a result of a request other
  // than initialize comes after an accepted initialize and, later still, after notifications/initialized, both handled
  // on the connection of that request and under its session identifier.
  lemma HandshakeSafety(server: Server, states: seq<State>, steps: seq<Step>, n: nat, k: nat)
    requires !Modern(server) && Run(server, states, steps) && n < |states| && k < |states[n].log|
    requires Served(states[n].log[k].message, states[n].log[k].plan)
    ensures exists i, j | 0 <= i < j < k ::
      && AcceptsInitialize(states[n].log[i].message, states[n].log[i].plan)
      && AnnouncesInitialized(states[n].log[j].message)
      && states[n].log[i].conn == states[n].log[j].conn == states[n].log[k].conn
      && states[n].log[i].sessionHeader == states[n].log[j].sessionHeader == states[n].log[k].sessionHeader
  {
    RunKeeps(server, states, steps, n);
    var s := states[n];
    hide Served, AcceptsInitialize, AnnouncesInitialized, Run, TicketsBalance, PhaseJustified;
    assert ShakenBefore(s.log, k);
    var c := s.log[k].conn.value;
    var i, j :| 0 <= i < j < k && Accepted(s.log, c, i) && Announced(s.log, c, j);
    assert AcceptsInitialize(s.log[i].message, s.log[i].plan) && AnnouncesInitialized(s.log[j].message);
  }

  // Every arrival is in flight or answered, never both, and never answered twice.
  lemma EachArrivalAnsweredOnce(server: Server, states: seq<State>, steps: seq<Step>, n: nat, ticket: nat)
    requires !Modern(server) && Run(server, states, steps) && n < |states| && ticket < states[n].tickets
    ensures ticket in states[n].flights <==> forall k | 0 <= k < |states[n].log| :: states[n].log[k].ticket != ticket
    ensures forall j, k | 0 <= j < |states[n].log| && 0 <= k < |states[n].log|
      && states[n].log[j].ticket == ticket && states[n].log[k].ticket == ticket :: j == k
  {
    RunKeeps(server, states, steps, n);
    hide Safe, PhaseJustified, SessionsMatch, Run;
  }

  // The answer a message should get, known when it arrives: no session for it, and it is refused; otherwise a request
  // is answered under its own identifier, a notification not at all, and anything else is refused.
  predicate RightAnswer(plan: Plan, message: Message, unknown: bool) {
    if unknown then plan == Refusal(IdOf(message), INVALID_REQUEST, BAD_REQUEST)
    else if IsRequest(message) then plan.response.Some? && plan.response.value.id == message.id.value
    else if IsNotification(message) then plan.response.None? && plan.notifications == []
    else plan == Refusal(IdOf(message), INVALID_REQUEST, BAD_REQUEST)
  }

  // The body of each answer, told by the connection it was handled on.
  ghost predicate RightBody(a: Outcome) {
    RightAnswer(a.plan, a.message, a.conn.None?)
  }

  lemma StepBodies(server: Server, s: State, step: Step, t: State)
    requires !Modern(server) && Next(server, s, step, t) && forall k | 0 <= k < |s.log| :: RightBody(s.log[k])
    ensures forall k | 0 <= k < |t.log| :: RightBody(t.log[k])
  {
    hide Handled, RightBody, Admit;
    if step.Execute? {
      var flight := s.flights[step.ticket];
      ExecutedBody(server, t.log[|s.log|], s.conns[flight.conn].phase);
    } else if step.Arrive? {
      UnknownBody(step.message, s.tickets);
    }
  }

  lemma ExecutedBody(server: Server, a: Outcome, phase: Phase)
    requires !Modern(server) && a.conn.Some? && a.plan == Handled(server, a.message, phase).0
    ensures RightBody(a)
  {
    if WellFormed(a.message) { OneAnswer(server, a.message, phase); }
    hide Handled;
  }

  lemma UnknownBody(message: Message, ticket: nat)
    ensures RightBody(Outcome(ticket, message, None, Refusal(IdOf(message), INVALID_REQUEST, BAD_REQUEST), None))
  {
  }

  lemma {:induction false} BodiesAreRight(server: Server, states: seq<State>, steps: seq<Step>, n: nat)
    requires !Modern(server) && Run(server, states, steps) && n < |states|
    ensures forall k | 0 <= k < |states[n].log| :: RightBody(states[n].log[k])
  {
    hide RightBody, Next;
    if n > 0 {
      BodiesAreRight(server, states, steps, n - 1);
      StepBodies(server, states[n - 1], steps[n - 1], states[n]);
    }
  }

  // ---------------------------------------------------------------- which arrival an answer belongs to

  // Step i is the arrival of this message under this ticket.
  ghost predicate Arrived(states: seq<State>, steps: seq<Step>, i: nat, ticket: nat, message: Message)
    requires |states| == |steps| + 1 && i < |steps|
  {
    steps[i].Arrive? && states[i].tickets == ticket && steps[i].message == message
  }

  // Step i found no connection for its message.
  predicate Unadmitted(states: seq<State>, steps: seq<Step>, i: nat)
    requires |states| == |steps| + 1 && i < |steps| && steps[i].Arrive?
  {
    Admit(states[i].sessions, steps[i].message, steps[i].header).Unknown?
  }

  ghost predicate FlightArrived(states: seq<State>, steps: seq<Step>, n: nat, ticket: nat, flight: Flight)
    requires |states| == |steps| + 1 && n < |states|
  {
    exists i | 0 <= i < n :: Arrived(states, steps, i, ticket, flight.message) && !Unadmitted(states, steps, i)
  }

  ghost predicate AnswerArrived(states: seq<State>, steps: seq<Step>, n: nat, a: Outcome)
    requires |states| == |steps| + 1 && n < |states|
  {
    exists i | 0 <= i < n ::
      Arrived(states, steps, i, a.ticket, a.message) && (a.conn.None? <==> Unadmitted(states, steps, i))
  }

  // Whatever is in flight or answered after n steps arrived in one of them.
  ghost predicate AllArrived(states: seq<State>, steps: seq<Step>, n: nat)
    requires |states| == |steps| + 1 && n < |states|
  {
    && (forall t | t in states[n].flights :: FlightArrived(states, steps, n, t, states[n].flights[t]))
    && forall k | 0 <= k < |states[n].log| :: AnswerArrived(states, steps, n, states[n].log[k])
  }

  lemma FlightLater(states: seq<State>, steps: seq<Step>, n: nat, ticket: nat, flight: Flight)
    requires |states| == |steps| + 1 && n < |steps| && FlightArrived(states, steps, n, ticket, flight)
    ensures FlightArrived(states, steps, n + 1, ticket, flight)
  {
    var i :| 0 <= i < n && Arrived(states, steps, i, ticket, flight.message) && !Unadmitted(states, steps, i);
    assert i < n + 1;
  }

  lemma AnswerLater(states: seq<State>, steps: seq<Step>, n: nat, a: Outcome)
    requires |states| == |steps| + 1 && n < |steps| && AnswerArrived(states, steps, n, a)
    ensures AnswerArrived(states, steps, n + 1, a)
  {
    var i :| 0 <= i < n && Arrived(states, steps, i, a.ticket, a.message)
      && (a.conn.None? <==> Unadmitted(states, steps, i));
    assert i < n + 1;
  }

  // The flight that a step adds arrived in it.
  lemma NewFlight(server: Server, states: seq<State>, steps: seq<Step>, n: nat, t: nat)
    requires |states| == |steps| + 1 && n < |steps| && Next(server, states[n], steps[n], states[n + 1])
    requires t in states[n + 1].flights && (t !in states[n].flights || states[n + 1].flights[t] != states[n].flights[t])
    ensures FlightArrived(states, steps, n + 1, t, states[n + 1].flights[t])
  {
    hide Handled, Admit;
    assert Arrived(states, steps, n, t, states[n + 1].flights[t].message) && !Unadmitted(states, steps, n);
  }

  // The answer that a step gives belongs to its own arrival or to a flight.
  lemma NewAnswer(server: Server, states: seq<State>, steps: seq<Step>, n: nat)
    requires |states| == |steps| + 1 && n < |steps| && Next(server, states[n], steps[n], states[n + 1])
    requires forall t | t in states[n].flights :: FlightArrived(states, steps, n, t, states[n].flights[t])
    ensures |states[n].log| <= |states[n + 1].log| <= |states[n].log| + 1
    ensures states[n + 1].log[..|states[n].log|] == states[n].log
    ensures |states[n + 1].log| > |states[n].log| ==>
      AnswerArrived(states, steps, n + 1, states[n + 1].log[|states[n].log|])
  {
    hide Handled, Admit, FlightArrived;
    var s, t := states[n], states[n + 1];
    if steps[n].Arrive? {
      if Unadmitted(states, steps, n) {
        assert Arrived(states, steps, n, t.log[|s.log|].ticket, t.log[|s.log|].message);
      }
    } else if steps[n].Execute? {
      AnsweredFlight(states, steps, n, t.log[|s.log|]);
    }
  }

  lemma AnsweredFlight(states: seq<State>, steps: seq<Step>, n: nat, a: Outcome)
    requires |states| == |steps| + 1 && n < |steps| && a.conn.Some? && a.ticket in states[n].flights
    requires FlightArrived(states, steps, n, a.ticket, states[n].flights[a.ticket])
    requires a.message == states[n].flights[a.ticket].message
    ensures AnswerArrived(states, steps, n + 1, a)
  {
    var i :| 0 <= i < n && Arrived(states, steps, i, a.ticket, a.message) && !Unadmitted(states, steps, i);
    assert i < n + 1;
  }

  lemma {:induction false} RunArrived(server: Server, states: seq<State>, steps: seq<Step>, n: nat)
    requires Run(server, states, steps) && n < |states|
    ensures AllArrived(states, steps, n)
  {
    hide FlightArrived, AnswerArrived, Next;
    if n > 0 {
      var m := n - 1;
      RunArrived(server, states, steps, m);
      assert Next(server, states[m], steps[m], states[m + 1]);
      forall t | t in states[n].flights ensures FlightArrived(states, steps, n, t, states[n].flights[t]) {
        if t in states[m].flights && states[n].flights[t] == states[m].flights[t] {
          FlightLater(states, steps, m, t, states[m].flights[t]);
        } else {
          NewFlight(server, states, steps, m, t);
        }
      }
      NewAnswer(server, states, steps, m);
      forall k | 0 <= k < |states[n].log| ensures AnswerArrived(states, steps, n, states[n].log[k]) {
        if k < |states[m].log| {
          assert states[n].log[..|states[m].log|][k] == states[m].log[k];
          AnswerLater(states, steps, m, states[m].log[k]);
        }
      }
    }
  }

  // Tickets rise with every arrival, so no two arrivals share one.
  lemma {:induction false} TicketsRise(server: Server, states: seq<State>, steps: seq<Step>, i: nat, j: nat)
    requires Run(server, states, steps) && i < j < |states|
    ensures states[i].tickets <= states[j].tickets
    ensures steps[i].Arrive? ==> states[i].tickets < states[j].tickets
    decreases j
  {
    assert Next(server, states[j - 1], steps[j - 1], states[j]);
    hide Handled, Admit;
    if i < j - 1 { TicketsRise(server, states, steps, i, j - 1); }
  }

  // In every run, whatever was handled in between: the answer under the ticket of an arrival is the one its message
  // should get. So a notification is answered exactly when no session was found for it.
  lemma EachAnswerIsRight(server: Server, states: seq<State>, steps: seq<Step>, n: nat, i: nat, k: nat)
    requires !Modern(server) && Run(server, states, steps) && n < |states| && i < n && steps[i].Arrive?
    requires k < |states[n].log| && states[n].log[k].ticket == states[i].tickets
    ensures states[n].log[k].message == steps[i].message
    ensures RightAnswer(states[n].log[k].plan, steps[i].message,
      Admit(states[i].sessions, steps[i].message, steps[i].header).Unknown?)
  {
    hide Next, RightAnswer, Admit;
    RunArrived(server, states, steps, n);
    BodiesAreRight(server, states, steps, n);
    var a := states[n].log[k];
    assert AnswerArrived(states, steps, n, a);
    var j :| 0 <= j < n && Arrived(states, steps, j, a.ticket, a.message)
      && (a.conn.None? <==> Unadmitted(states, steps, j));
    if i < j { TicketsRise(server, states, steps, i, j); }
    if j < i { TicketsRise(server, states, steps, j, i); }
    assert RightBody(a);
  }

  // A notification whose session is unknown is answered.
  lemma UnknownNotificationAnswered(server: Server)
    ensures
      var told := Message(true, Some(INITIALIZED), None, Absent);
      var refused := Refusal(Null, INVALID_REQUEST, BAD_REQUEST);
      var after := State([], map[], map[], 1, [Outcome(0, told, None, refused, None)]);
      && IsNotification(told) && refused.response.Some?
      && Run(server, [INITIAL, after], [Arrive(told, Some("gone"), "")])
  {
    var told := Message(true, Some(INITIALIZED), None, Absent);
    assert INITIALIZED[0] == 'n' && INITIALIZE[0] == 'i' && DISCOVER[0] == 's';
    assert Admit(INITIAL.sessions, told, Some("gone")).Unknown?;
  }

  // The handshake does lead somewhere: once it is complete on a connection, ping is served there.
  lemma HandshakeServes(server: Server, states: seq<State>, steps: seq<Step>, n: nat, c: nat, id: Id)
    requires !Modern(server) && Run(server, states, steps) && n < |states| && c < |states[n].conns|
    requires Shaken(states[n].log, c, |states[n].log|)
    ensures Handled(server, Message(true, Some("ping"), Some(id), Absent), states[n].conns[c].phase).0
      == Plan(Some(Success(id)), [], OK, false)
  {
    RunKeeps(server, states, steps, n);
    assert PhaseJustified(states[n], c);
    hide Safe, SessionsMatch, TicketsBalance, Run, Shaken;
  }
}
