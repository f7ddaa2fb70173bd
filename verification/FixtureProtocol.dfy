/** The fixture server's message handling: the legacy handshake and the modern stateless requests.
    What the tool, resource and prompt catalogs answer is a parameter of the server. */
module FixtureProtocol {
  import opened Prelude

  const INVALID_REQUEST := -32600
  const METHOD_NOT_FOUND := -32601
  const INVALID_PARAMS := -32602
  const UNSUPPORTED_PROTOCOL_VERSION := -32022

  const MODERN_VERSION := "2026-07-28"
  const INITIALIZE := "initialize"
  const DISCOVER := "server/discover"
  const INITIALIZED := "notifications/initialized"

  const OK := 200
  const ACCEPTED := 202
  const BAD_REQUEST := 400
  const NOT_FOUND := 404

  // an identifier of a JSON-RPC message
  datatype Id = Null | Text(s: string) | Number(n: int) | Other(shown: string)

  datatype Meta = Meta(version: Option<string>, capabilitiesObject: bool)

  // params as an object: the fields that the protocol layer reads, and the rest for the catalogs
  datatype Fields = Fields(protocolVersion: Option<string>, meta: Option<Meta>, rest: string)

  datatype Params = Absent | NotAnObject | Object(fields: Fields)

  // method is None when it is missing or not a string
  datatype Message =
    | NotAnObject
    | Message(jsonrpc2: bool, method_: Option<string>, id: Option<Id>, params: Params)

  datatype Response = Success(id: Id) | Failure(id: Id, code: int)

  datatype Plan = Plan(response: Option<Response>, notifications: seq<string>, status: int, sse: bool)

  // what a catalog handler answers, the identifier aside
  datatype Answer = Answered(notifications: seq<string>, sse: bool) | Refused(code: int, status: int)

  datatype Profile = MismatchedDiscoveryId | NullDiscoveryId | OtherProfile

  datatype Server = Server(mode: string, profile: Profile, catalog: (string, Fields) -> Answer, numeral: int -> string)

  // ConnectionState
  datatype Phase = Phase(initializeSeen: bool, initialized: bool)

  const NO_FIELDS := Fields(None, None, "{}")

  predicate Modern(server: Server) {
    server.mode == MODERN_VERSION
  }

  function IdOf(message: Message): Id {
    if message.Message? && message.id.Some? then message.id.value else Null
  }

  function Refusal(id: Id, code: int, status: int): Plan {
    Plan(Some(Failure(id, code)), [], status, false)
  }

  function Silence(status: int): Plan {
    Plan(None, [], status, false)
  }

  function Reply(id: Id, answer: Answer): Plan {
    match answer
    case Answered(notifications, sse) => Plan(Some(Success(id)), notifications, OK, sse)
    case Refused(code, status) => Refusal(id, code, status)
  }

  // how an f-string shows an identifier
  function Shown(server: Server, id: Id): string {
    match id
    case Null => "None"
    case Text(s) => s
    case Number(n) => server.numeral(n)
    case Other(shown) => shown
  }

  function DiscoveryId(server: Server, id: Id): Id {
    match server.profile
    case MismatchedDiscoveryId => Text("review-mismatched-" + Shown(server, id))
    case NullDiscoveryId => Null
    case OtherProfile => id
  }

  predicate ModernCatalog(name: string) {
    name in {"tools/list", "tools/call", "resources/list", "resources/read", "prompts/get", "subscriptions/listen"}
  }

  predicate LegacyCatalog(name: string) {
    name in {"tools/list", "tools/call", "resources/list", "resources/read", "prompts/get"}
  }

  // answered with fixed content
  predicate Fixed(name: string) {
    name in {"resources/templates/list", "prompts/list"}
  }

  predicate LegacyFixed(name: string) {
    name in {"ping", "logging/setLevel", "resources/templates/list", "prompts/list"}
  }

  // `_handle_modern`
  function HandleModern(server: Server, id: Id, name: string, fields: Fields): Plan {
    if name == INITIALIZE then Refusal(id, METHOD_NOT_FOUND, NOT_FOUND)
    else if fields.meta.None? then Refusal(id, INVALID_PARAMS, BAD_REQUEST)
    else if fields.meta.value.version.None? || !fields.meta.value.capabilitiesObject then
      Refusal(id, INVALID_PARAMS, BAD_REQUEST)
    else if fields.meta.value.version.value != MODERN_VERSION then
      Refusal(id, UNSUPPORTED_PROTOCOL_VERSION, BAD_REQUEST)
    else if name == DISCOVER then Plan(Some(Success(DiscoveryId(server, id))), [], OK, false)
    else if ModernCatalog(name) then Reply(id, server.catalog(name, fields))
    else if Fixed(name) then Plan(Some(Success(id)), [], OK, false)
    else Refusal(id, METHOD_NOT_FOUND, NOT_FOUND)
  }

  // The answer to a message in a phase of the handshake, and the next phase.
  function Handled(server: Server, message: Message, phase: Phase): (Plan, Phase) {
    if message.NotAnObject? then (Refusal(Null, INVALID_REQUEST, BAD_REQUEST), phase)
    else if !message.jsonrpc2 || message.method_.None? then
      (Refusal(IdOf(message), INVALID_REQUEST, BAD_REQUEST), phase)
    else if message.params.NotAnObject? then
      (if message.id.None? then Silence(BAD_REQUEST) else Refusal(IdOf(message), INVALID_PARAMS, BAD_REQUEST), phase)
    else
      var name := message.method_.value;
      var fields := if message.params.Absent? then NO_FIELDS else message.params.fields;
      if message.id.None? then
        (Silence(ACCEPTED),
         if !Modern(server) && name == INITIALIZED && phase.initializeSeen then phase.(initialized := true) else phase)
      else if Modern(server) then (HandleModern(server, message.id.value, name, fields), phase)
      else HandledLegacy(server, message.id.value, name, fields, phase)
  }

  function HandledLegacy(server: Server, id: Id, name: string, fields: Fields, phase: Phase): (Plan, Phase) {
    if name == INITIALIZE then
      if fields.protocolVersion.None? then (Refusal(id, INVALID_PARAMS, OK), phase)
      else (Plan(Some(Success(id)), [], OK, false), phase.(initializeSeen := true))
    else if name == DISCOVER then (Refusal(id, METHOD_NOT_FOUND, NOT_FOUND), phase)
    else if !phase.initialized then (Refusal(id, INVALID_REQUEST, OK), phase)
    else if LegacyFixed(name) then (Plan(Some(Success(id)), [], OK, false), phase)
    else if LegacyCatalog(name) then (Reply(id, server.catalog(name, fields)), phase)
    else (Refusal(id, METHOD_NOT_FOUND, NOT_FOUND), phase)
  }

  class ConnectionState {
    var initializeSeen: bool
    var initialized: bool

    constructor ()
      ensures Value() == Phase(false, false)
    {
      initializeSeen := false;
      initialized := false;
    }

    function Value(): Phase
      reads this
    {
      Phase(initializeSeen, initialized)
    }
  }

  class ProtocolServer {
    const server: Server

    constructor (server: Server)
      ensures this.server == server
    {
      this.server := server;
    }

    // `ProtocolServer.handle`
    method Handle(message: Message, state: ConnectionState) returns (plan: Plan)
      modifies state
      ensures (plan, state.Value()) == Handled(server, message, old(state.Value()))
    {
      if message.NotAnObject? {
        return Refusal(Null, INVALID_REQUEST, BAD_REQUEST);
      }
      if !message.jsonrpc2 || message.method_.None? {
        return Refusal(IdOf(message), INVALID_REQUEST, BAD_REQUEST);
      }
      var name := message.method_.value;
      var isNotification := message.id.None?;
      if message.params.NotAnObject? {
        return if isNotification then Silence(BAD_REQUEST) else Refusal(IdOf(message), INVALID_PARAMS, BAD_REQUEST);
      }
      var fields := if message.params.Absent? then NO_FIELDS else message.params.fields;
      if isNotification {
        plan := HandleNotification(name, state);
      } else if Modern(server) {
        plan := HandleModern(server, message.id.value, name, fields);
      } else {
        plan := HandleLegacy(message.id.value, name, fields, state);
      }
    }

    method HandleNotification(name: string, state: ConnectionState) returns (plan: Plan)
      modifies state
      ensures plan == Silence(ACCEPTED) && state.initializeSeen == old(state.initializeSeen)
      ensures state.initialized ==
        (old(state.initialized) || (!Modern(server) && name == INITIALIZED && old(state.initializeSeen)))
    {
      if !Modern(server) && name == INITIALIZED {
        if state.initializeSeen {
          state.initialized := true;
        }
        return Silence(ACCEPTED);
      }
      return Silence(ACCEPTED);
    }

    method HandleLegacy(id: Id, name: string, fields: Fields, state: ConnectionState) returns (plan: Plan)
      modifies state
      ensures (plan, state.Value()) == HandledLegacy(server, id, name, fields, old(state.Value()))
    {
      if name == INITIALIZE {
        if fields.protocolVersion.None? {
          return Refusal(id, INVALID_PARAMS, OK);
        }
        state.initializeSeen := true;
        return Plan(Some(Success(id)), [], OK, false);
      }
      if name == DISCOVER {
        return Refusal(id, METHOD_NOT_FOUND, NOT_FOUND);
      }
      if !state.initialized {
        return Refusal(id, INVALID_REQUEST, OK);
      }
      if LegacyFixed(name) {
        return Plan(Some(Success(id)), [], OK, false);
      }
      if LegacyCatalog(name) {
        return Reply(id, server.catalog(name, fields));
      }
      return Refusal(id, METHOD_NOT_FOUND, NOT_FOUND);
    }
  }

  // ---------------------------------------------------------------- one message

  predicate WellFormed(message: Message) {
    message.Message? && message.jsonrpc2 && message.method_.Some?
  }

  predicate IsRequest(message: Message) {
    WellFormed(message) && message.id.Some?
  }

  predicate IsNotification(message: Message) {
    WellFormed(message) && message.id.None?
  }

  // A discovery whose reply the profile spoils.
  predicate SpoiledDiscovery(server: Server, message: Message) {
    && IsRequest(message) && Modern(server) && message.method_.value == DISCOVER && message.params.Object?
    && (var meta := message.params.fields.meta;
        meta.Some? && meta.value.capabilitiesObject && meta.value.version == Some(MODERN_VERSION))
    && (server.profile == MismatchedDiscoveryId || (server.profile == NullDiscoveryId && message.id.value != Null))
  }

  // ---------------------------------------------------------------- which answer a message gets

  predicate Fails(plan: Plan, id: Id, code: int, status: int) {
    plan == Plan(Some(Failure(id, code)), [], status, false)
  }

  predicate Succeeds(plan: Plan, id: Id) {
    plan == Plan(Some(Success(id)), [], 200, false)
  }

  // the catalog's own answer, sent under the request's identifier
  predicate Relays(plan: Plan, id: Id, answer: Answer) {
    match answer
    case Answered(notifications, sse) => plan == Plan(Some(Success(id)), notifications, 200, sse)
    case Refused(code, status) => Fails(plan, id, code, status)
  }

  predicate HasResult(plan: Plan) {
    plan.response.Some? && plan.response.value.Success?
  }

  // Messages that reach no dispatch, in either mode.
  lemma UndispatchedAnswers(server: Server, message: Message, phase: Phase)
    ensures var plan := Handled(server, message, phase).0;
      && (message.NotAnObject? ==> Fails(plan, Null, -32600, 400))
      && (message.Message? && (!message.jsonrpc2 || message.method_.None?) ==>
            Fails(plan, if message.id.Some? then message.id.value else Null, -32600, 400))
      && (IsRequest(message) && message.params.NotAnObject? ==> Fails(plan, message.id.value, -32602, 400))
      && (IsNotification(message) ==> plan == Plan(None, [], if message.params.NotAnObject? then 400 else 202, false))
  {
  }

  predicate Dispatched(message: Message) {
    IsRequest(message) && !message.params.NotAnObject?
  }

  function FieldsOf(message: Message): Fields
    requires Dispatched(message)
  {
    if message.params.Object? then message.params.fields else Fields(None, None, "{}")
  }

  // `_meta` declares the client's capabilities and a protocol version.
  predicate Declares(fields: Fields) {
    fields.meta.Some? && fields.meta.value.version.Some? && fields.meta.value.capabilitiesObject
  }

  // It declares the version that this server speaks.
  predicate Agrees(fields: Fields) {
    Declares(fields) && fields.meta.value.version == Some("2026-07-28")
  }

  // A modern request gets a result only when `_meta` agrees, and then exactly for the methods that the server has,
  // up to the catalog's own refusals. Each other request gets the error for what is wrong with it.
  lemma ModernAnswers(server: Server, message: Message, phase: Phase)
    requires server.mode == "2026-07-28" && Dispatched(message)
    ensures var plan, id, name, fields :=
        Handled(server, message, phase).0, message.id.value, message.method_.value, FieldsOf(message);
      && (HasResult(plan) <==>
            name != "initialize" && Agrees(fields)
            && (name in {"server/discover", "resources/templates/list", "prompts/list"}
                || (name in {"tools/list", "tools/call", "resources/list", "resources/read", "prompts/get",
                             "subscriptions/listen"} && server.catalog(name, fields).Answered?)))
      && (name == "initialize" ==> Fails(plan, id, -32601, 404))
      && (name != "initialize" && !Declares(fields) ==> Fails(plan, id, -32602, 400))
      && (name != "initialize" && Declares(fields) && !Agrees(fields) ==> Fails(plan, id, -32022, 400))
      && (Agrees(fields) && name in {"resources/templates/list", "prompts/list"} ==> Succeeds(plan, id))
      && ((Agrees(fields) && name in {"tools/list", "tools/call", "resources/list", "resources/read", "prompts/get",
                                      "subscriptions/listen"}) ==> Relays(plan, id, server.catalog(name, fields)))
      && (Agrees(fields) && !HasResult(plan) && !Relays(plan, id, server.catalog(name, fields)) ==>
            Fails(plan, id, -32601, 404))
  {
  }

  // The identifier under which a discovery is answered.
  lemma DiscoveryAnswers(server: Server, message: Message, phase: Phase)
    requires server.mode == "2026-07-28" && Dispatched(message) && message.method_.value == "server/discover"
    requires Agrees(FieldsOf(message))
    ensures var plan, id := Handled(server, message, phase).0, message.id.value;
      && (server.profile.OtherProfile? ==> Succeeds(plan, id))
      && (server.profile.NullDiscoveryId? ==> Succeeds(plan, Null))
      && (server.profile.MismatchedDiscoveryId? ==>
            && (id.Null? ==> Succeeds(plan, Text("review-mismatched-None")))
            && (id.Text? ==> Succeeds(plan, Text("review-mismatched-" + id.s)))
            && (id.Number? ==> Succeeds(plan, Text("review-mismatched-" + server.numeral(id.n))))
            && (id.Other? ==> Succeeds(plan, Text("review-mismatched-" + id.shown))))
  {
    assert "review-mismatched-" + "None" == "review-mismatched-None";
  }

  // A legacy request is served only once the connection is ready, and then exactly for the methods that the server
  // has; initialize alone is answered at any time.
  lemma LegacyAnswers(server: Server, message: Message, phase: Phase)
    requires server.mode != "2026-07-28" && Dispatched(message)
    ensures var plan, id, name, fields :=
        Handled(server, message, phase).0, message.id.value, message.method_.value, FieldsOf(message);
      && (HasResult(plan) <==>
            (name == "initialize" && fields.protocolVersion.Some?)
            || (phase.initialized && name in {"ping", "logging/setLevel", "resources/templates/list", "prompts/list"})
            || (phase.initialized && server.catalog(name, fields).Answered?
                && name in {"tools/list", "tools/call", "resources/list", "resources/read", "prompts/get"}))
      && (name == "initialize" ==>
            if fields.protocolVersion.None? then Fails(plan, id, -32602, 200) else Succeeds(plan, id))
      && (name == "server/discover" ==> Fails(plan, id, -32601, 404))
      && (name != "initialize" && name != "server/discover" && !phase.initialized ==> Fails(plan, id, -32600, 200))
      && (name in {"ping", "logging/setLevel", "resources/templates/list", "prompts/list"} && phase.initialized ==>
            Succeeds(plan, id))
      && ((name in {"tools/list", "tools/call", "resources/list", "resources/read", "prompts/get"}
           && phase.initialized) ==> Relays(plan, id, server.catalog(name, fields)))
      && ((name != "initialize" && phase.initialized && !HasResult(plan)
           && !Relays(plan, id, server.catalog(name, fields))) ==> Fails(plan, id, -32601, 404))
  {
  }

  // Section 5 of JSON-RPC 2.0: a request is answered with its own identifier, except in exactly the spoiled
  // discoveries.
  // Section 4.1: a notification is never answered.
  lemma OneAnswer(server: Server, message: Message, phase: Phase)
    requires WellFormed(message)
    ensures var plan := Handled(server, message, phase).0;
      && (IsNotification(message) ==> plan.response.None? && plan.notifications == [])
      && (IsRequest(message) ==> plan.response.Some?)
      && (IsRequest(message) ==> (plan.response.value.id == message.id.value <==> !SpoiledDiscovery(server, message)))
  {
    if IsRequest(message) && message.id.value.Text? {
      LongerText("review-mismatched-", message.id.value.s);
    }
  }

  lemma LongerText(prefix: string, s: string)
    requires prefix != ""
    ensures prefix + s != s
  {
    assert |prefix + s| > |s|;
  }

  // Only an accepted initialize makes a connection seen, and only a later notifications/initialized makes it ready;
  // neither is ever taken back.
  lemma PhaseStep(server: Server, message: Message, phase: Phase)
    requires !Modern(server)
    ensures var (plan, next) := Handled(server, message, phase);
      && (next.initializeSeen <==> phase.initializeSeen || AcceptsInitialize(message, plan))
      && (next.initialized <==> phase.initialized || (phase.initializeSeen && AnnouncesInitialized(message)))
  {
  }

  // an initialize request that got a result
  predicate AcceptsInitialize(message: Message, plan: Plan) {
    IsRequest(message) && message.method_.value == INITIALIZE && plan.response.Some? && plan.response.value.Success?
  }

  predicate AnnouncesInitialized(message: Message) {
    IsNotification(message) && message.method_.value == INITIALIZED && !message.params.NotAnObject?
  }

  // a request other than initialize that got a result
  predicate Served(message: Message, plan: Plan) {
    IsRequest(message) && message.method_.value != INITIALIZE && plan.response.Some? && plan.response.value.Success?
  }

  lemma ServedOnlyWhenReady(server: Server, message: Message, phase: Phase)
    requires !Modern(server) && Served(message, Handled(server, message, phase).0)
    ensures phase.initialized && message.method_.value != DISCOVER
  {
  }
}
