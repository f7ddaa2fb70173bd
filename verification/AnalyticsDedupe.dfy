/** The bounded sets that keep an analytics event from being queued twice for one turn. */
module AnalyticsDedupe {
  import opened Prelude

  const MAX_KEYS := 4096

  type Key = (string, string)

  // When the set is emptied first: the plugin set on every call, the app set only on calls with a key.
  predicate Clears(keys: set<Key>, key: Option<Key>, clearsUnkeyed: bool) {
    |keys| >= MAX_KEYS && (clearsUnkeyed || key.Some?)
  }

  // one call: whether to enqueue, and the set after it
  function Offered(keys: set<Key>, key: Option<Key>, clearsUnkeyed: bool): (bool, set<Key>) {
    var kept := if Clears(keys, key, clearsUnkeyed) then {} else keys;
    if key.None? then (true, kept) else (key.value !in kept, kept + {key.value})
  }

  class AnalyticsEventsQueue {
    var appUsedEmittedKeys: set<Key>
    var pluginUsedEmittedKeys: set<Key>

    constructor ()
      ensures appUsedEmittedKeys == {} && pluginUsedEmittedKeys == {}
    {
      appUsedEmittedKeys := {};
      pluginUsedEmittedKeys := {};
    }

    // `should_enqueue_app_used`
    method ShouldEnqueueAppUsed(turnId: string, connectorId: Option<string>) returns (enqueue: bool)
      modifies this`appUsedEmittedKeys
      ensures (enqueue, appUsedEmittedKeys)
        == Offered(old(appUsedEmittedKeys), if connectorId.Some? then Some((turnId, connectorId.value)) else None,
          false)
    {
      if connectorId.None? {
        return true;
      }
      if |appUsedEmittedKeys| >= MAX_KEYS {
        appUsedEmittedKeys := {};
      }
      enqueue := (turnId, connectorId.value) !in appUsedEmittedKeys;
      appUsedEmittedKeys := appUsedEmittedKeys + {(turnId, connectorId.value)};
    }

    // `should_enqueue_plugin_used`
    method ShouldEnqueuePluginUsed(turnId: string, pluginId: Option<string>, remotePluginId: Option<string>)
      returns (enqueue: bool)
      modifies this`pluginUsedEmittedKeys
      ensures var id := if pluginId.Some? then pluginId else remotePluginId;
        (enqueue, pluginUsedEmittedKeys)
        == Offered(old(pluginUsedEmittedKeys), if id.Some? then Some((turnId, id.value)) else None, true)
    {
      if |pluginUsedEmittedKeys| >= MAX_KEYS {
        pluginUsedEmittedKeys := {};
      }
      var id := if pluginId.Some? then pluginId else remotePluginId;
      if id.None? {
        return true;
      }
      enqueue := (turnId, id.value) !in pluginUsedEmittedKeys;
      pluginUsedEmittedKeys := pluginUsedEmittedKeys + {(turnId, id.value)};
    }
  }

  // ---------------------------------------------------------------- whole runs: calls in the order of the lock

  // the set after the first n calls
  function After(calls: seq<Option<Key>>, clearsUnkeyed: bool, n: nat): set<Key>
    requires n <= |calls|
  {
    if n == 0 then {} else Offered(After(calls, clearsUnkeyed, n - 1), calls[n - 1], clearsUnkeyed).1
  }

  predicate Accepted(calls: seq<Option<Key>>, clearsUnkeyed: bool, i: nat)
    requires i < |calls|
  {
    Offered(After(calls, clearsUnkeyed, i), calls[i], clearsUnkeyed).0
  }

  predicate ClearedAt(calls: seq<Option<Key>>, clearsUnkeyed: bool, m: nat)
    requires m < |calls|
  {
    Clears(After(calls, clearsUnkeyed, m), calls[m], clearsUnkeyed)
  }

  lemma {:induction false} NeverTooMany(calls: seq<Option<Key>>, clearsUnkeyed: bool, n: nat)
    requires n <= |calls|
    ensures |After(calls, clearsUnkeyed, n)| <= MAX_KEYS
  {
    if n > 0 { NeverTooMany(calls, clearsUnkeyed, n - 1); }
  }

  // call i accepted the key, and no call after it and before n emptied the set
  ghost predicate AcceptedSince(calls: seq<Option<Key>>, clearsUnkeyed: bool, i: nat, n: nat, key: Key)
    requires n <= |calls|
  {
    i < n && calls[i] == Some(key) && Accepted(calls, clearsUnkeyed, i)
      && forall m | i < m < n :: !ClearedAt(calls, clearsUnkeyed, m)
  }

  ghost predicate SomeAcceptedSince(calls: seq<Option<Key>>, clearsUnkeyed: bool, n: nat, key: Key)
    requires n <= |calls|
  {
    exists i: nat :: AcceptedSince(calls, clearsUnkeyed, i, n, key)
  }

  // The set holds exactly the keys accepted since it was last emptied.
  lemma {:induction false} HeldMeaning(calls: seq<Option<Key>>, clearsUnkeyed: bool, n: nat, key: Key)
    requires n <= |calls|
    ensures key in After(calls, clearsUnkeyed, n) <==> SomeAcceptedSince(calls, clearsUnkeyed, n, key)
  {
    if n == 0 {
      assert forall i: nat :: !AcceptedSince(calls, clearsUnkeyed, i, 0, key);
    } else {
      HeldMeaning(calls, clearsUnkeyed, n - 1, key);
      HeldNext(calls, clearsUnkeyed, n, key);
      SinceNext(calls, clearsUnkeyed, n, key);
    }
  }

  lemma HeldNext(calls: seq<Option<Key>>, clearsUnkeyed: bool, n: nat, key: Key)
    requires 0 < n <= |calls|
    ensures key in After(calls, clearsUnkeyed, n) <==>
      (calls[n - 1] == Some(key) && Accepted(calls, clearsUnkeyed, n - 1))
      || (key in After(calls, clearsUnkeyed, n - 1) && !ClearedAt(calls, clearsUnkeyed, n - 1))
  {
  }

  lemma SinceNext(calls: seq<Option<Key>>, clearsUnkeyed: bool, n: nat, key: Key)
    requires 0 < n <= |calls|
    ensures SomeAcceptedSince(calls, clearsUnkeyed, n, key) <==>
      (calls[n - 1] == Some(key) && Accepted(calls, clearsUnkeyed, n - 1))
      || (SomeAcceptedSince(calls, clearsUnkeyed, n - 1, key) && !ClearedAt(calls, clearsUnkeyed, n - 1))
  {
    hide Accepted, ClearedAt;
    if SomeAcceptedSince(calls, clearsUnkeyed, n - 1, key) && !ClearedAt(calls, clearsUnkeyed, n - 1) {
      var i: nat :| AcceptedSince(calls, clearsUnkeyed, i, n - 1, key);
      assert AcceptedSince(calls, clearsUnkeyed, i, n, key);
    }
    if calls[n - 1] == Some(key) && Accepted(calls, clearsUnkeyed, n - 1) {
      assert AcceptedSince(calls, clearsUnkeyed, n - 1, n, key);
    }
    if SomeAcceptedSince(calls, clearsUnkeyed, n, key) {
      var i: nat :| AcceptedSince(calls, clearsUnkeyed, i, n, key);
      assert i < n - 1 ==> AcceptedSince(calls, clearsUnkeyed, i, n - 1, key);
    }
  }

  // A call is refused exactly when its key was accepted earlier and the set has not been emptied since.
  lemma RefusedMeaning(calls: seq<Option<Key>>, clearsUnkeyed: bool, j: nat)
    requires j < |calls|
    ensures !Accepted(calls, clearsUnkeyed, j) <==>
      calls[j].Some? && !ClearedAt(calls, clearsUnkeyed, j)
        && SomeAcceptedSince(calls, clearsUnkeyed, j, calls[j].value)
  {
    if calls[j].Some? { HeldMeaning(calls, clearsUnkeyed, j, calls[j].value); }
    hide After, SomeAcceptedSince;
  }

  // An emptying of a set that holds MAX_KEYS keys, each accepted since the set was emptied before.
  ghost predicate FullAndCleared(calls: seq<Option<Key>>, clearsUnkeyed: bool, m: nat)
    requires m < |calls|
  {
    && ClearedAt(calls, clearsUnkeyed, m) && |After(calls, clearsUnkeyed, m)| == MAX_KEYS
    && forall key :: key in After(calls, clearsUnkeyed, m) <==> SomeAcceptedSince(calls, clearsUnkeyed, m, key)
  }

  lemma ClearedFull(calls: seq<Option<Key>>, clearsUnkeyed: bool, m: nat)
    requires m < |calls| && ClearedAt(calls, clearsUnkeyed, m)
    ensures FullAndCleared(calls, clearsUnkeyed, m)
  {
    NeverTooMany(calls, clearsUnkeyed, m);
    hide After, SomeAcceptedSince;
    forall key ensures key in After(calls, clearsUnkeyed, m) <==> SomeAcceptedSince(calls, clearsUnkeyed, m, key) {
      HeldMeaning(calls, clearsUnkeyed, m, key);
    }
  }

  // Two acceptances of one key are separated by the emptying of a full set.
  lemma AcceptancesSeparated(calls: seq<Option<Key>>, clearsUnkeyed: bool, i: nat, j: nat)
    requires i < j < |calls| && calls[i].Some? && calls[i] == calls[j]
    requires Accepted(calls, clearsUnkeyed, i) && Accepted(calls, clearsUnkeyed, j)
    ensures exists m | i < m <= j :: FullAndCleared(calls, clearsUnkeyed, m)
  {
    RefusedMeaning(calls, clearsUnkeyed, j);
    hide Accepted, ClearedAt, FullAndCleared;
    if ClearedAt(calls, clearsUnkeyed, j) {
      ClearedFull(calls, clearsUnkeyed, j);
    } else {
      assert !AcceptedSince(calls, clearsUnkeyed, i, j, calls[j].value);
      var m :| i < m < j && ClearedAt(calls, clearsUnkeyed, m);
      ClearedFull(calls, clearsUnkeyed, m);
    }
  }
}
