/** Payloads with line breaks never survive the event stream: what the parser reads out of such a message weighs less
    than the payload that went in. */
module SseBreaks {
  import opened SseStream

  // ---------------------------------------------------------------- what a parser holds

  function EventBytes(events: seq<Event>): nat {
    if events == [] then 0 else EventBytes(events[..|events| - 1]) + |events[|events| - 1].data|
  }

  // the bytes of data that were dispatched or still would be
  function Weight(p: Parser): nat {
    EventBytes(p.events) + if p.data == [] then 0 else |p.data| - 1
  }

  // Pending data ends with the line feed of its last field.
  predicate Terminated(p: Parser) {
    p.data == [] || p.data[|p.data| - 1] == LF
  }

  lemma DispatchWeighs(p: Parser)
    requires Terminated(p)
    ensures Idle(Dispatch(p)) && Terminated(Dispatch(p)) && Weight(Dispatch(p)) == Weight(p)
  {
    if p.data != [] {
      var q := Dispatch(p);
      assert q.events[..|q.events| - 1] == p.events;
    }
  }

  lemma FieldWeighs(name: seq<Byte>, value: seq<Byte>, p: Parser)
    requires Terminated(p)
    ensures Terminated(Field(name, value, p)) && Weight(Field(name, value, p)) <= Weight(p) + |name| + |value|
  {
    assert |Ascii("data")| == 4;
  }

  // A line adds no more than its own length.
  lemma LineWeighs(line: seq<Byte>, p: Parser)
    requires Terminated(p)
    ensures Terminated(Line(line, p)) && Weight(Line(line, p)) <= Weight(p) + |line|
  {
    if line == [] {
      DispatchWeighs(p);
    } else if line[0] != COLON {
      var k := Colon(line);
      hide Field, Weight, Terminated;
      if k == |line| { FieldWeighs(line, [], p); }
      else {
        var value := line[k + 1..];
        FieldWeighs(line[..k], if value != [] && value[0] == SPACE then value[1..] else value, p);
      }
    }
  }

  // ---------------------------------------------------------------- what is left of a message

  // the rest of a text behind its first line
  function Behind(t: seq<Byte>): seq<Byte>
    requires FirstBreak(t) < |t|
  {
    var k := FirstBreak(t);
    t[if t[k] == CR && k + 1 < |t| && t[k + 1] == LF then k + 2 else k + 1..]
  }

  lemma FeedFirst(t: seq<Byte>, p: Parser)
    requires FirstBreak(t) < |t|
    ensures Feed(t, p) == Feed(Behind(t), Line(t[..FirstBreak(t)], p))
  {
  }

  lemma FirstBreakFront(x: seq<Byte>, y: seq<Byte>)
    requires !BreakFree(x)
    ensures FirstBreak(x) < |x| && FirstBreak(x + y) == FirstBreak(x) && (x + y)[..FirstBreak(x)] == x[..FirstBreak(x)]
  {
    var k, t := FirstBreak(x), x + y;
    assert forall m | 0 <= m < |x| :: t[m] == x[m];
    assert k < |x|;
    FirstBreakUnique(t, k);
  }

  lemma {:induction false} FirstBreakUnique(t: seq<Byte>, k: nat)
    requires k < |t| && IsBreak(t[k]) && forall m | 0 <= m < k :: !IsBreak(t[m])
    ensures FirstBreak(t) == k
  {
  }

  // Either some of x is left, or its last break and the line break behind it count as one.
  lemma BehindFront(x: seq<Byte>, eol: Byte, rest: seq<Byte>)
    requires !BreakFree(x) && IsBreak(eol) && (rest != [] ==> rest[0] != LF)
    ensures FirstBreak(x + ([eol] + [eol] + rest)) < |x + ([eol] + [eol] + rest)|
    ensures var k, b := FirstBreak(x), Behind(x + ([eol] + [eol] + rest));
      k < |x| && (b == [eol] + rest || exists n :: k < n <= |x| && b == x[n..] + ([eol] + [eol] + rest))
  {
    var tail := [eol] + [eol] + rest;
    var t, k := x + tail, FirstBreak(x);
    FirstBreakFront(x, tail);
    BehindIs(t, k);
    hide FirstBreak, BreakFree, Behind;
    var n := if t[k] == CR && k + 1 < |t| && t[k + 1] == LF then k + 2 else k + 1;
    if n <= |x| {
      SplitBehind(x, tail, n);
    } else {
      assert k + 1 == |x| && x + tail == x + [eol] + ([eol] + rest);
      assert t[n..] == [eol] + rest;
    }
  }

  lemma BehindIs(t: seq<Byte>, k: nat)
    requires k < |t| && FirstBreak(t) == k
    ensures IsBreak(t[k])
    ensures Behind(t) == t[if t[k] == CR && k + 1 < |t| && t[k + 1] == LF then k + 2 else k + 1..]
  {
    hide FirstBreak;
  }

  lemma SplitBehind(x: seq<Byte>, tail: seq<Byte>, n: nat)
    requires n <= |x|
    ensures (x + tail)[n..] == x[n..] + tail
  {
  }

  lemma BlankFed(eol: Byte, rest: seq<Byte>, p: Parser) returns (q: Parser)
    requires Terminated(p) && IsBreak(eol) && (rest != [] ==> rest[0] != LF)
    ensures Feed([eol] + rest, p) == Feed(rest, q) && Idle(q) && Terminated(q) && Weight(q) == Weight(p)
  {
    q := Dispatch(p);
    NoBreakInNothing();
    hide Feed, Dispatch, Weight, Terminated, Idle;
    FeedLine([], eol, rest, p);
    assert [] + [eol] + rest == [eol] + rest;
    DispatchWeighs(p);
  }

  // Whatever x holds, it and the two line breaks behind it leave the parser idle and add at most |x|.
  lemma {:induction false} TextFed(x: seq<Byte>, eol: Byte, rest: seq<Byte>, p: Parser) returns (q: Parser)
    requires Terminated(p) && IsBreak(eol) && (rest != [] ==> rest[0] != LF)
    ensures Feed(x + ([eol] + [eol] + rest), p) == Feed(rest, q)
    ensures Idle(q) && Terminated(q) && Weight(q) <= Weight(p) + |x|
    decreases |x|
  {
    hide *;
    var tail := [eol] + [eol] + rest;
    EolBehind(eol, rest);
    if BreakFree(x) {
      assert x + tail == x + [eol] + ([eol] + rest) && [eol] + rest == [] + [eol] + rest;
      FeedLine(x, eol, [eol] + rest, p);
      LineWeighs(x, p);
      q := BlankFed(eol, rest, Line(x, p));
    } else {
      q := BrokenFed(x, eol, rest, p, x[..FirstBreak(x)]);
    }
  }

  // The same from the first line on, which is fed as a line of its own.
  lemma {:induction false} BrokenFed(x: seq<Byte>, eol: Byte, rest: seq<Byte>, p: Parser, line: seq<Byte>)
    returns (q: Parser)
    requires Terminated(p) && IsBreak(eol) && (rest != [] ==> rest[0] != LF)
    requires !BreakFree(x) && FirstBreak(x) <= |x| && line == x[..FirstBreak(x)]
    ensures Feed(x + ([eol] + [eol] + rest), p) == Feed(rest, q)
    ensures Idle(q) && Terminated(q) && Weight(q) <= Weight(Line(line, p)) + |x| - |line| - 1
    ensures Weight(Line(line, p)) <= Weight(p) + |line|
    decreases |x|, 0
  {
    hide *;
    var tail := [eol] + [eol] + rest;
    BehindFront(x, eol, rest);
    FirstBreakFront(x, tail);
    FeedFirst(x + tail, p);
    LineWeighs(line, p);
    var b := Behind(x + tail);
    if b == [eol] + rest {
      q := BlankFed(eol, rest, Line(line, p));
    } else {
      var n :| FirstBreak(x) < n <= |x| && b == x[n..] + tail;
      q := TextFed(x[n..], eol, rest, Line(line, p));
    }
  }

  // ---------------------------------------------------------------- whole messages

  lemma DataWeighs(payload: seq<Byte>, p: Parser)
    requires Idle(p)
    ensures Weight(Line(Ascii("data: ") + payload, p)) == Weight(p) + |payload|
  {
    DataLine(payload, p);
  }

  lemma MessageWeighs(payload: seq<Byte>, eol: Byte, rest: seq<Byte>, p: Parser) returns (q: Parser)
    requires Idle(p) && IsBreak(eol) && (rest != [] ==> rest[0] != LF)
    ensures Feed(EncodeMessage(payload, eol) + rest, p) == Feed(rest, q) && Idle(q)
    ensures Weight(q) <= Weight(p) + |payload| && (!BreakFree(payload) ==> Weight(q) < Weight(p) + |payload|)
  {
    hide *;
    var x := Ascii("data: ") + payload;
    MessageParts(payload, eol, rest);
    IdleTerminated(p);
    if BreakFree(payload) {
      MessageFed(payload, eol, rest, p);
      q := p.(events := p.events + [Event(Ascii("message"), payload, p.lastId)]);
      OneMoreEvent(p, payload);
    } else {
      BrokenStart(payload);
      q := BrokenFed(x, eol, rest, p, x[..FirstBreak(x)]);
      DataWeighs(payload[..FirstBreak(x) - 6], p);
    }
  }

  lemma MessageParts(payload: seq<Byte>, eol: Byte, rest: seq<Byte>)
    ensures EncodeMessage(payload, eol) + rest == Ascii("data: ") + payload + ([eol] + [eol] + rest)
  {
  }

  lemma IdleTerminated(p: Parser)
    requires Idle(p)
    ensures Terminated(p)
  {
  }

  lemma OneMoreEvent(p: Parser, payload: seq<Byte>)
    requires Idle(p)
    ensures var q := p.(events := p.events + [Event(Ascii("message"), payload, p.lastId)]);
      Idle(q) && Weight(q) == Weight(p) + |payload|
  {
    var q := p.(events := p.events + [Event(Ascii("message"), payload, p.lastId)]);
    assert q.events[..|q.events| - 1] == p.events;
  }

  lemma BrokenStart(payload: seq<Byte>)
    requires !BreakFree(payload)
    ensures var x := Ascii("data: ") + payload; var k := FirstBreak(x);
      !BreakFree(x) && 6 <= k < |x| && x[..k] == Ascii("data: ") + payload[..k - 6] && |x| == 6 + |payload|
  {
    var x := Ascii("data: ") + payload;
    var k := FirstBreak(x);
    var m :| 0 <= m < |payload| && IsBreak(payload[m]);
    assert x[6 + m] == payload[m];
    forall j | 0 <= j < 6 ensures !IsBreak(x[j]) { assert x[j] == "data: "[j] as int; }
    assert IsBreak(x[6 + m]);
  }

  function PayloadBytes(payloads: seq<seq<Byte>>): nat {
    if payloads == [] then 0 else |payloads[0]| + PayloadBytes(payloads[1..])
  }

  predicate AllBreakFree(payloads: seq<seq<Byte>>) {
    forall m | m in payloads :: BreakFree(m)
  }

  lemma {:induction false} AllWeigh(payloads: seq<seq<Byte>>, eol: Byte, p: Parser)
    requires Idle(p) && IsBreak(eol)
    ensures var q := Feed(EncodeAll(payloads, eol), p);
      Weight(q) <= Weight(p) + PayloadBytes(payloads)
      && (!AllBreakFree(payloads) ==> Weight(q) < Weight(p) + PayloadBytes(payloads))
      && Idle(q)
    decreases |payloads|
  {
    hide Feed, Weight, Idle, EncodeMessage, BreakFree;
    if payloads == [] {
      FeedNothing(p);
    } else {
      var rest := EncodeAll(payloads[1..], eol);
      EncodedStart(payloads[1..], eol);
      var q := MessageWeighs(payloads[0], eol, rest, p);
      AllWeigh(payloads[1..], eol, q);
      assert payloads == [payloads[0]] + payloads[1..];
    }
  }

  lemma {:induction false} MessagesWeigh(payloads: seq<seq<Byte>>, lastId: seq<Byte>)
    ensures EventBytes(Messages(payloads, lastId)) == PayloadBytes(payloads)
    decreases |payloads|
  {
    if payloads != [] {
      var events := Messages(payloads, lastId);
      MessagesWeigh(payloads[1..], lastId);
      assert events == [events[0]] + Messages(payloads[1..], lastId);
      EventBytesCons(events[0], Messages(payloads[1..], lastId));
    }
  }

  lemma {:induction false} EventBytesCons(e: Event, events: seq<Event>)
    ensures EventBytes([e] + events) == |e.data| + EventBytes(events)
    decreases |events|
  {
    if events == [] {
      assert [e] + events == [e] && [e][..0] == [];
    } else {
      EventBytesCons(e, events[..|events| - 1]);
      assert ([e] + events)[..|events|] == [e] + events[..|events| - 1];
    }
  }

  // The parser reads back exactly the payloads if and only if none of them holds a line break.
  lemma RoundTripExactly(payloads: seq<seq<Byte>>, profile: Profile)
    ensures Feed(Encode(payloads, profile), START).events == Messages(payloads, []) <==> AllBreakFree(payloads)
  {
    if AllBreakFree(payloads) {
      RoundTrip(payloads, profile);
    } else {
      var eol := LineBreak(profile);
      EncodedStart(payloads, eol);
      hide Feed, Preamble, EncodeAll, AllBreakFree, Messages;
      PreambleFed(profile, EncodeAll(payloads, eol), START);
      AllWeigh(payloads, eol, START);
      MessagesWeigh(payloads, []);
    }
  }
}
