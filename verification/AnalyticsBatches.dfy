/** Splitting analytics events into requests: events of one kind travel alone, the others together. */
module AnalyticsBatches {
  import opened Prelude

  datatype Event =
    | AcceptedLineFingerprints(content: string)
    | PluginUsed(pluginId: Option<string>, content: string)
    | SkillInvocation(pluginId: Option<string>, content: string)
    | McpToolCall(pluginId: Option<string>, content: string)
    | ArtifactOperation(plugin: string, content: string)
    | PluginMeasurement(plugin: string, content: string)
    | OtherEvent(content: string)

  predicate Isolated(e: Event) {
    e.AcceptedLineFingerprints?
  }

  predicate SentWithApiKey(e: Event) {
    match e
    case PluginUsed(id, _) => id.Some?
    case SkillInvocation(id, _) => id.Some?
    case McpToolCall(id, _) => id.Some?
    case ArtifactOperation(plugin, _) => plugin != ""
    case PluginMeasurement(plugin, _) => plugin != ""
    case AcceptedLineFingerprints(_) => false
    case OtherEvent(_) => false
  }

  // ---------------------------------------------------------------- what a split is

  function Concat(batches: seq<seq<Event>>): seq<Event> {
    if batches == [] then [] else Concat(batches[..|batches| - 1]) + batches[|batches| - 1]
  }

  predicate Shared(batch: seq<Event>) {
    forall k | 0 <= k < |batch| :: !batch[k].AcceptedLineFingerprints?
  }

  // not empty, and an isolated event is alone
  predicate Allowed(batch: seq<Event>) {
    batch != [] && (Shared(batch) || |batch| == 1)
  }

  predicate IsSplit(batches: seq<seq<Event>>, events: seq<Event>) {
    Concat(batches) == events && forall k | 0 <= k < |batches| :: Allowed(batches[k])
  }

  // the split with the fewest batches, and the only one
  ghost predicate IsBest(batches: seq<seq<Event>>, events: seq<Event>) {
    && IsSplit(batches, events)
    && (forall other | IsSplit(other, events) :: |batches| <= |other|)
    && (forall other | IsSplit(other, events) && |other| == |batches| :: other == batches)
  }

  // ---------------------------------------------------------------- the loop's state

  // batches pushed, and the current one
  ghost function Filling(events: seq<Event>): (seq<seq<Event>>, seq<Event>) {
    if events == [] then ([], [])
    else
      var (batches, current) := Filling(events[..|events| - 1]);
      var e := events[|events| - 1];
      if Isolated(e) then (Closed(batches, current) + [[e]], []) else (batches, current + [e])
  }

  function Closed(batches: seq<seq<Event>>, current: seq<Event>): seq<seq<Event>> {
    if current == [] then batches else batches + [current]
  }

  ghost function Best(events: seq<Event>): seq<seq<Event>> {
    Closed(Filling(events).0, Filling(events).1)
  }

  // `track_event_request_batches`
  method TrackEventRequestBatches(events: seq<Event>) returns (batches: seq<seq<Event>>)
    ensures IsBest(batches, events)
  {
    batches := [];
    var currentBatch: seq<Event> := [];
    for i := 0 to |events|
      invariant (batches, currentBatch) == Filling(events[..i])
    {
      var event := events[i];
      assert events[..i + 1][..i] == events[..i];
      if Isolated(event) {
        if currentBatch != [] {
          batches := batches + [currentBatch];
          currentBatch := [];
        }
        batches := batches + [[event]];
      } else {
        currentBatch := currentBatch + [event];
      }
    }
    assert events[..|events|] == events;
    if currentBatch != [] {
      batches := batches + [currentBatch];
    }
    BestIsBest(events);
  }

  // ---------------------------------------------------------------- why it is best

  lemma ConcatNext(batches: seq<seq<Event>>, batch: seq<Event>)
    ensures Concat(batches + [batch]) == Concat(batches) + batch
  {
    assert (batches + [batch])[..|batches|] == batches;
  }

  predicate AllAllowed(batches: seq<seq<Event>>) {
    forall k | 0 <= k < |batches| :: Allowed(batches[k])
  }

  lemma ClosedSplits(batches: seq<seq<Event>>, current: seq<Event>)
    requires AllAllowed(batches) && Shared(current)
    ensures AllAllowed(Closed(batches, current)) && Concat(Closed(batches, current)) == Concat(batches) + current
  {
    if current == [] { assert Concat(batches) + [] == Concat(batches); } else { ConcatNext(batches, current); }
  }

  lemma {:induction false} FillingSplits(events: seq<Event>)
    ensures AllAllowed(Filling(events).0) && Shared(Filling(events).1)
      && Concat(Filling(events).0) + Filling(events).1 == events
  {
    if events != [] {
      var init, e := events[..|events| - 1], events[|events| - 1];
      FillingSplits(init);
      var (batches, current) := Filling(init);
      assert events == init + [e];
      ClosedSplits(batches, current);
      hide AllAllowed, Concat, Closed;
      if Isolated(e) {
        OneMore(Closed(batches, current), [e]);
        assert Filling(events) == (Closed(batches, current) + [[e]], []);
        assert Concat(Filling(events).0) + [] == Concat(Filling(events).0);
      } else {
        assert Concat(batches) + (current + [e]) == Concat(batches) + current + [e];
      }
    }
  }

  lemma OneMore(batches: seq<seq<Event>>, batch: seq<Event>)
    requires AllAllowed(batches) && Allowed(batch)
    ensures AllAllowed(batches + [batch]) && Concat(batches + [batch]) == Concat(batches) + batch
  {
    ConcatNext(batches, batch);
  }

  lemma BestSplits(events: seq<Event>)
    ensures IsSplit(Best(events), events)
  {
    FillingSplits(events);
    hide Filling;
    ClosedSplits(Filling(events).0, Filling(events).1);
  }

  // A shared batch is taken up whole.
  lemma {:induction false} FillingShared(events: seq<Event>, batch: seq<Event>)
    requires Shared(batch)
    ensures Filling(events + batch) == (Filling(events).0, Filling(events).1 + batch)
    decreases |batch|
  {
    if batch == [] {
      assert events + batch == events && Filling(events).1 + [] == Filling(events).1;
    } else {
      var init, e := batch[..|batch| - 1], batch[|batch| - 1];
      FillingShared(events, init);
      assert (events + batch)[..|events + batch| - 1] == events + init;
      assert Filling(events).1 + init + [e] == Filling(events).1 + batch;
    }
  }

  lemma FillingIsolated(events: seq<Event>, e: Event)
    requires Isolated(e)
    ensures Filling(events + [e]) == (Best(events) + [[e]], [])
  {
    assert (events + [e])[..|events|] == events;
  }

  // One more batch costs at most one; when it costs one, it is that batch.
  lemma BestNext(events: seq<Event>, batch: seq<Event>)
    requires Allowed(batch)
    ensures |Best(events + batch)| <= |Best(events)| + 1
    ensures |Best(events + batch)| == |Best(events)| + 1 ==> Best(events + batch) == Best(events) + [batch]
  {
    if Shared(batch) {
      FillingShared(events, batch);
      assert [] + batch == batch;
    } else {
      FillingIsolated(events, batch[0]);
      assert batch == [batch[0]];
    }
  }

  lemma {:induction false} NoSplitIsBetter(other: seq<seq<Event>>, events: seq<Event>)
    requires IsSplit(other, events)
    ensures |Best(events)| <= |other|
    ensures |Best(events)| == |other| ==> other == Best(events)
    decreases |other|
  {
    if other == [] {
      assert events == [];
      assert Best([]) == [];
    } else {
      var init, last := other[..|other| - 1], other[|other| - 1];
      NoSplitIsBetter(init, Concat(init));
      BestNext(Concat(init), last);
      hide Best;
      assert events == Concat(init) + last;
      assert other == init + [last];
    }
  }

  lemma BestIsBest(events: seq<Event>)
    ensures IsBest(Best(events), events)
  {
    BestSplits(events);
    hide Best, IsSplit;
    forall other | IsSplit(other, events)
      ensures |Best(events)| <= |other| && (|other| == |Best(events)| ==> other == Best(events)) {
      NoSplitIsBetter(other, events);
    }
  }

  // ---------------------------------------------------------------- sending

  datatype Auth = ApiKey | CodexBackend | OtherAuth

  function Retained(events: seq<Event>): (r: seq<Event>)
    ensures forall k | 0 <= k < |r| :: SentWithApiKey(r[k])
  {
    if events == [] then []
    else
      Retained(events[..|events| - 1])
      + (if SentWithApiKey(events[|events| - 1]) then [events[|events| - 1]] else [])
  }

  // the events that may be sent under an authentication
  function Sendable(events: seq<Event>, auth: Option<Auth>): seq<Event> {
    if auth.None? || auth.value == OtherAuth then []
    else if auth.value == ApiKey then Retained(events)
    else events
  }

  // the events that name the plugin they come from
  predicate NamesPlugin(e: Event) {
    || ((e.PluginUsed? || e.SkillInvocation? || e.McpToolCall?) && e.pluginId != None)
    || ((e.ArtifactOperation? || e.PluginMeasurement?) && e.plugin != "")
  }

  predicate MaySend(e: Event, auth: Option<Auth>) {
    auth == Some(CodexBackend) || (auth == Some(ApiKey) && NamesPlugin(e))
  }

  // What is kept are the events at these positions, in their order, and the positions are those that may be sent.
  predicate Keeps(events: seq<Event>, auth: Option<Auth>, kept: seq<Event>, positions: seq<nat>) {
    && |positions| == |kept|
    && (forall j, k | 0 <= j < k < |positions| :: positions[j] < positions[k])
    && (forall k | 0 <= k < |positions| :: positions[k] < |events| && kept[k] == events[positions[k]])
    && forall i: nat | i < |events| :: i in positions <==> MaySend(events[i], auth)
  }

  lemma SendableNext(events: seq<Event>, auth: Option<Auth>)
    requires events != []
    ensures var init, e := events[..|events| - 1], events[|events| - 1];
      Sendable(events, auth) == Sendable(init, auth) + if MaySend(e, auth) then [e] else []
  {
    var last := |events| - 1;
    assert events == events[..last] + [events[last]];
  }

  lemma KeepsNext(events: seq<Event>, auth: Option<Auth>, kept: seq<Event>, positions: seq<nat>)
    requires events != [] && Keeps(events[..|events| - 1], auth, kept, positions)
    ensures var last := |events| - 1;
      if MaySend(events[last], auth) then Keeps(events, auth, kept + [events[last]], positions + [last])
      else Keeps(events, auth, kept, positions)
  {
    hide MaySend;
    var last := |events| - 1;
    assert forall k | 0 <= k < |positions| :: positions[k] in positions;
  }

  lemma {:induction false} SendableMeaning(events: seq<Event>, auth: Option<Auth>) returns (positions: seq<nat>)
    ensures Keeps(events, auth, Sendable(events, auth), positions)
  {
    if events == [] {
      positions := [];
    } else {
      var last := |events| - 1;
      hide Sendable, MaySend, Keeps;
      positions := SendableMeaning(events[..last], auth);
      SendableNext(events, auth);
      KeepsNext(events, auth, Sendable(events[..last], auth), positions);
      if MaySend(events[last], auth) { positions := positions + [last]; }
    }
  }

  // `send_track_events`: the requests that are posted. Under an API key there is at most one.
  method SendTrackEvents(events: seq<Event>, auth: Option<Auth>) returns (requests: seq<seq<Event>>)
    ensures IsBest(requests, Sendable(events, auth))
    ensures exists positions :: Keeps(events, auth, Concat(requests), positions)
    ensures auth == Some(ApiKey) ==> requests == if Retained(events) == [] then [] else [Retained(events)]
  {
    BestIsBest([]);
    ghost var positions := SendableMeaning(events, auth);
    var remaining := events;
    if events == [] || auth.None? {
      return [];
    }
    if auth.value == ApiKey {
      remaining := Retained(events);
    } else if auth.value != CodexBackend {
      return [];
    }
    if remaining == [] {
      return [];
    }
    requests := TrackEventRequestBatches(remaining);
    if auth.value == ApiKey { OneSharedBatch(requests, remaining); }
  }

  // Events that are all shared make one batch.
  lemma OneSharedBatch(batches: seq<seq<Event>>, events: seq<Event>)
    requires IsBest(batches, events) && events != [] && Shared(events)
    ensures batches == [events]
  {
    hide IsBest;
    assert Concat([]) == [];
    ConcatNext([], events);
    assert [] + [events] == [events] && [] + events == events;
    assert IsSplit([events], events);
    BestOnly(batches, events, [events]);
  }

  lemma BestOnly(batches: seq<seq<Event>>, events: seq<Event>, other: seq<seq<Event>>)
    requires IsBest(batches, events) && IsSplit(other, events) && |other| == 1 && events != []
    ensures batches == other
  {
    assert batches != [];
  }
}
