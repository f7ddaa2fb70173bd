/** The event stream that the fixture server prints, and the parser of section 9.2.6 of the WHATWG HTML standard. */
module SseStream {
  type Byte = x: int | 0 <= x < 256

  const CR: Byte := 13
  const LF: Byte := 10
  const COLON: Byte := 58
  const SPACE: Byte := 32

  predicate IsBreak(c: Byte) {
    c == CR || c == LF
  }

  // json.dumps escapes control characters, so a payload holds no line break.
  predicate BreakFree(s: seq<Byte>) {
    forall k | 0 <= k < |s| :: !IsBreak(s[k])
  }

  // the bytes of an ASCII text
  function Ascii(s: string): (r: seq<Byte>)
    requires forall k | 0 <= k < |s| :: s[k] < '\U{80}'
    ensures |r| == |s| && forall k | 0 <= k < |s| :: r[k] == s[k] as int
  {
    seq(|s|, k requires 0 <= k < |s| => s[k] as int)
  }

  // ---------------------------------------------------------------- the printer

  datatype Profile = CommentFlood | CrComments | Plain

  const EVENT_LIMIT := 8 * 1024 * 1024
  const COMMENT_LINE_BYTES := 2048
  const COMMENT_LINE_COUNT := EVENT_LIMIT / COMMENT_LINE_BYTES + 1

  function Repeat(s: seq<Byte>, n: nat): (r: seq<Byte>) {
    if n == 0 then [] else s + Repeat(s, n - 1)
  }

  function CommentText(): seq<Byte> {
    Ascii(": reviewer keepalive ") + Repeat([120], COMMENT_LINE_BYTES - 21 - 1)
  }

  function Preamble(profile: Profile): seq<Byte> {
    match profile
    case CommentFlood => Repeat(CommentText() + [CR], COMMENT_LINE_COUNT)
    case CrComments => Ascii(": reviewer keepalive") + [CR]
    case Plain => []
  }

  function LineBreak(profile: Profile): Byte {
    if profile == Plain then LF else CR
  }

  function EncodeMessage(payload: seq<Byte>, eol: Byte): seq<Byte> {
    Ascii("data: ") + payload + [eol] + [eol]
  }

  function EncodeAll(payloads: seq<seq<Byte>>, eol: Byte): seq<Byte> {
    if payloads == [] then [] else EncodeMessage(payloads[0], eol) + EncodeAll(payloads[1..], eol)
  }

  // `_encode_sse_messages`, from the serialized messages on
  function Encode(payloads: seq<seq<Byte>>, profile: Profile): seq<Byte> {
    Preamble(profile) + EncodeAll(payloads, LineBreak(profile))
  }

  // ---------------------------------------------------------------- the standard's parser

  datatype Event = Event(kind: seq<Byte>, data: seq<Byte>, lastId: seq<Byte>)

  datatype Parser = Parser(data: seq<Byte>, kind: seq<Byte>, lastId: seq<Byte>, retry: seq<Byte>, events: seq<Event>)

  const START := Parser([], [], [], [], [])

  predicate AllDigits(s: seq<Byte>) {
    forall k | 0 <= k < |s| :: 48 <= s[k] <= 57
  }

  function Dispatch(p: Parser): Parser {
    if p.data == [] then p.(kind := [])
    else
      var data := if p.data[|p.data| - 1] == LF then p.data[..|p.data| - 1] else p.data;
      var kind := if p.kind == [] then Ascii("message") else p.kind;
      p.(data := [], kind := [], events := p.events + [Event(kind, data, p.lastId)])
  }

  function Field(name: seq<Byte>, value: seq<Byte>, p: Parser): Parser {
    if name == Ascii("event") then p.(kind := value)
    else if name == Ascii("data") then p.(data := p.data + value + [LF])
    else if name == Ascii("id") then (if 0 in value then p else p.(lastId := value))
    else if name == Ascii("retry") then (if AllDigits(value) then p.(retry := value) else p)
    else p
  }

  function Colon(line: seq<Byte>): (k: nat)
    ensures k <= |line| && (k < |line| ==> line[k] == COLON) && forall m | 0 <= m < k :: line[m] != COLON
  {
    if line == [] || line[0] == COLON then 0 else 1 + Colon(line[1..])
  }

  function Line(line: seq<Byte>, p: Parser): Parser {
    if line == [] then Dispatch(p)
    else if line[0] == COLON then p
    else
      var k := Colon(line);
      if k == |line| then Field(line, [], p)
      else
        var value := line[k + 1..];
        Field(line[..k], if value != [] && value[0] == SPACE then value[1..] else value, p)
  }

  function FirstBreak(s: seq<Byte>): (k: nat)
    ensures k <= |s| && (k < |s| ==> IsBreak(s[k])) && forall m | 0 <= m < k :: !IsBreak(s[m])
  {
    if s == [] || IsBreak(s[0]) then 0 else 1 + FirstBreak(s[1..])
  }

  // Lines end with CR LF, LF or CR; what no line break ends is discarded.
  function Feed(s: seq<Byte>, p: Parser): Parser
    decreases |s|
  {
    var k := FirstBreak(s);
    if k == |s| then p
    else
      var next := if s[k] == CR && k + 1 < |s| && s[k + 1] == LF then k + 2 else k + 1;
      Feed(s[next..], Line(s[..k], p))
  }

  // ---------------------------------------------------------------- round trip

  lemma FirstBreakIs(line: seq<Byte>, eol: Byte, rest: seq<Byte>)
    requires BreakFree(line) && IsBreak(eol)
    ensures FirstBreak(line + [eol] + rest) == |line|
  {
    var s := line + [eol] + rest;
    assert s[|line|] == eol;
    assert forall m | 0 <= m < |line| :: s[m] == line[m];
  }

  // One line is consumed at a time, provided a lone CR is not followed by LF.
  lemma FeedLine(line: seq<Byte>, eol: Byte, rest: seq<Byte>, p: Parser)
    requires BreakFree(line) && IsBreak(eol) && (eol == CR && rest != [] ==> rest[0] != LF)
    ensures Feed(line + [eol] + rest, p) == Feed(rest, Line(line, p))
  {
    var s := line + [eol] + rest;
    FirstBreakIs(line, eol, rest);
    assert s[|line|] == eol && s[..|line|] == line && s[|line| + 1..] == rest;
    if rest != [] { assert s[|line| + 1] == rest[0]; }
  }

  lemma ColonIs(name: seq<Byte>, value: seq<Byte>)
    requires COLON !in name
    ensures Colon(name + [COLON] + value) == |name|
  {
    var line := name + [COLON] + value;
    assert line[|name|] == COLON;
    assert forall m | 0 <= m < |name| :: line[m] == name[m] && name[m] in name;
  }

  // `data: <payload>` adds the payload and a line feed.
  lemma DataLine(payload: seq<Byte>, p: Parser)
    ensures Line(Ascii("data: ") + payload, p) == p.(data := p.data + payload + [LF])
  {
    var name, value := Ascii("data"), [SPACE] + payload;
    var line := Ascii("data: ") + payload;
    assert line == name + [COLON] + value;
    ColonIs(name, value);
    assert line[..4] == name && line[5..] == value && value[1..] == payload;
    assert name[0] == 100 && line[0] == 100;
    assert Ascii("event")[0] == 101;
  }

  predicate Idle(p: Parser) {
    p.data == [] && p.kind == []
  }

  lemma BlankLine(payload: seq<Byte>, p: Parser)
    requires Idle(p)
    ensures Line([], p.(data := p.data + payload + [LF])) ==
      p.(events := p.events + [Event(Ascii("message"), payload, p.lastId)])
  {
    assert (p.data + payload + [LF])[..|payload|] == payload;
  }

  lemma MessageFed(payload: seq<Byte>, eol: Byte, rest: seq<Byte>, p: Parser)
    requires BreakFree(payload) && IsBreak(eol) && Idle(p) && (rest != [] ==> rest[0] != LF)
    ensures Feed(EncodeMessage(payload, eol) + rest, p)
      == Feed(rest, p.(events := p.events + [Event(Ascii("message"), payload, p.lastId)]))
  {
    var line := Ascii("data: ") + payload;
    assert BreakFree(line) by {
      forall k | 0 <= k < |line| ensures !IsBreak(line[k]) {
        if k < 6 { assert line[k] == "data: "[k] as int; } else { assert line[k] == payload[k - 6]; }
      }
    }
    assert EncodeMessage(payload, eol) + rest == line + [eol] + ([] + [eol] + rest);
    hide *;
    EolBehind(eol, rest);
    FeedLine(line, eol, [] + [eol] + rest, p);
    DataLine(payload, p);
    NoBreakInNothing();
    FeedLine([], eol, rest, p.(data := p.data + payload + [LF]));
    BlankLine(payload, p);
  }

  lemma EolBehind(eol: Byte, rest: seq<Byte>)
    ensures ([] + [eol] + rest)[0] == eol && CR != LF
    ensures eol == CR ==> ([] + [eol] + rest)[0] != LF
  {
  }

  lemma NoBreakInNothing()
    ensures BreakFree([])
  {
  }

  function Messages(payloads: seq<seq<Byte>>, lastId: seq<Byte>): (r: seq<Event>)
    ensures |r| == |payloads|
    ensures forall i | 0 <= i < |payloads| :: r[i] == Event(Ascii("message"), payloads[i], lastId)
  {
    seq(|payloads|, i requires 0 <= i < |payloads| => Event(Ascii("message"), payloads[i], lastId))
  }

  lemma EncodedStart(payloads: seq<seq<Byte>>, eol: Byte)
    ensures EncodeAll(payloads, eol) != [] ==> EncodeAll(payloads, eol)[0] != LF
  {
    if payloads != [] {
      assert EncodeMessage(payloads[0], eol)[0] == Ascii("data: ")[0] == 'd' as int;
    }
  }

  lemma EncodeNext(payloads: seq<seq<Byte>>, eol: Byte)
    ensures EncodeAll(payloads, eol) == if payloads == [] then []
      else EncodeMessage(payloads[0], eol) + EncodeAll(payloads[1..], eol)
  {
  }

  lemma FeedNothing(p: Parser)
    ensures Feed([], p) == p
  {
  }

  lemma StillIdle(p: Parser, events: seq<Event>)
    requires Idle(p)
    ensures Idle(p.(events := events))
  {
  }

  lemma {:induction false} MessagesFed(payloads: seq<seq<Byte>>, eol: Byte, p: Parser)
    requires (forall m | m in payloads :: BreakFree(m)) && IsBreak(eol) && Idle(p)
    ensures Feed(EncodeAll(payloads, eol), p) == p.(events := p.events + Messages(payloads, p.lastId))
    decreases |payloads|
  {
    hide *;
    EncodeNext(payloads, eol);
    if payloads == [] {
      FeedNothing(p);
      assert p.events + Messages(payloads, p.lastId) == p.events;
    } else {
      var q := p.(events := p.events + [Event(Ascii("message"), payloads[0], p.lastId)]);
      StillIdle(p, q.events);
      assert payloads[0] in payloads && forall m | m in payloads[1..] :: m in payloads;
      EncodedStart(payloads[1..], eol);
      MessageFed(payloads[0], eol, EncodeAll(payloads[1..], eol), p);
      MessagesFed(payloads[1..], eol, q);
      assert p.events + Messages(payloads, p.lastId) == q.events + Messages(payloads[1..], p.lastId);
    }
  }

  // ---------------------------------------------------------------- comments in front

  lemma {:induction false} RepeatBytes(c: Byte, n: nat)
    ensures |Repeat([c], n)| == n && forall k | 0 <= k < n :: Repeat([c], n)[k] == c
  {
    if n > 0 { RepeatBytes(c, n - 1); }
  }

  lemma {:induction false} RepeatLength(s: seq<Byte>, n: nat)
    ensures |Repeat(s, n)| == n * |s|
  {
    if n > 0 { RepeatLength(s, n - 1); }
  }

  lemma RepeatNext(s: seq<Byte>, n: nat)
    ensures Repeat(s, n) == if n == 0 then [] else s + Repeat(s, n - 1)
  {
  }

  lemma CommentIsComment()
    ensures var c := CommentText(); |c| == COMMENT_LINE_BYTES - 1 && c[0] == COLON && BreakFree(c)
  {
    var head, tail := Ascii(": reviewer keepalive "), Repeat([120], COMMENT_LINE_BYTES - 22);
    RepeatBytes(120, COMMENT_LINE_BYTES - 22);
    assert ": reviewer keepalive "[0] == ':';
    forall k | 0 <= k < |head + tail| ensures !IsBreak((head + tail)[k]) {
      if k < 21 { assert head[k] == ": reviewer keepalive "[k] as int; }
      else { assert (head + tail)[k] == tail[k - 21]; }
    }
  }

  lemma CommentFed(comment: seq<Byte>, rest: seq<Byte>, p: Parser)
    requires BreakFree(comment) && comment != [] && comment[0] == COLON && (rest != [] ==> rest[0] != LF)
    ensures Feed(comment + [CR] + rest, p) == Feed(rest, p)
  {
    FeedLine(comment, CR, rest, p);
  }

  lemma {:induction false} CommentsFed(comment: seq<Byte>, n: nat, rest: seq<Byte>, p: Parser)
    requires BreakFree(comment) && comment != [] && comment[0] == COLON && (rest != [] ==> rest[0] != LF)
    ensures Feed(Repeat(comment + [CR], n) + rest, p) == Feed(rest, p)
    decreases n
  {
    hide Feed, BreakFree, Repeat;
    RepeatNext(comment + [CR], n);
    if n == 0 {
      assert [] + rest == rest;
    } else {
      var more := Repeat(comment + [CR], n - 1) + rest;
      assert Repeat(comment + [CR], n) + rest == comment + [CR] + more;
      RepeatNext(comment + [CR], n - 1);
      assert n > 1 ==> more[0] == comment[0];
      CommentFed(comment, more, p);
      CommentsFed(comment, n - 1, rest, p);
    }
  }

  lemma PreambleFed(profile: Profile, rest: seq<Byte>, p: Parser)
    requires rest != [] ==> rest[0] != LF
    ensures Feed(Preamble(profile) + rest, p) == Feed(rest, p)
  {
    match profile
    case CommentFlood =>
      CommentIsComment();
      hide CommentText, Feed, Repeat, BreakFree;
      CommentsFed(CommentText(), COMMENT_LINE_COUNT, rest, p);
    case CrComments =>
      var comment := Ascii(": reviewer keepalive");
      assert comment[0] == ": reviewer keepalive"[0] as int;
      assert BreakFree(comment) by {
        forall k | 0 <= k < |comment| ensures !IsBreak(comment[k]) {
          assert comment[k] == ": reviewer keepalive"[k] as int;
        }
      }
      hide Feed;
      CommentFed(comment, rest, p);
    case Plain =>
      assert [] + rest == rest;
  }

  // For every profile, the standard's parser reads back exactly the payloads, in order, as `message` events, and
  // nothing is left pending.
  lemma RoundTrip(payloads: seq<seq<Byte>>, profile: Profile)
    requires forall m | m in payloads :: BreakFree(m)
    ensures Feed(Encode(payloads, profile), START) == START.(events := Messages(payloads, []))
  {
    var eol := LineBreak(profile);
    EncodedStart(payloads, eol);
    hide Feed, Preamble, EncodeAll;
    PreambleFed(profile, EncodeAll(payloads, eol), START);
    MessagesFed(payloads, eol, START);
    assert START.events + Messages(payloads, []) == Messages(payloads, []);
  }

  // So no two lists of payloads print alike.
  lemma EncodeInjective(a: seq<seq<Byte>>, b: seq<seq<Byte>>, profile: Profile)
    requires (forall m | m in a :: BreakFree(m)) && (forall m | m in b :: BreakFree(m))
    requires Encode(a, profile) == Encode(b, profile)
    ensures a == b
  {
    RoundTrip(a, profile);
    RoundTrip(b, profile);
    hide Feed, Encode;
    var x, y := Messages(a, []), Messages(b, []);
    assert x == y;
    forall i | 0 <= i < |a| ensures a[i] == b[i] { assert x[i].data == y[i].data; }
  }

  // ---------------------------------------------------------------- the printed bytes

  lemma {:induction false} RepeatOne(c: Byte, n: nat)
    ensures Repeat([c], n) == seq(n, _ => c)
  {
    if n > 0 {
      RepeatOne(c, n - 1);
      assert seq(n, _ => c) == [c] + seq(n - 1, _ => c);
    }
  }

  // What is printed in front of the first message.
  lemma EncodedPreamble()
    ensures Encode([], Plain) == []
    ensures Encode([], CrComments) == Ascii(": reviewer keepalive") + [13]
    ensures Encode([], CommentFlood) == Repeat(Ascii(": reviewer keepalive ") + seq(2026, _ => 120) + [13], 4097)
  {
    RepeatOne(120, 2026);
    hide Repeat;
    assert Encode([], CommentFlood) == Preamble(CommentFlood);
    assert Encode([], CrComments) == Preamble(CrComments);
  }

  lemma {:induction false} EncodeAllLast(payloads: seq<seq<Byte>>, eol: Byte)
    requires payloads != []
    ensures var last := |payloads| - 1;
      EncodeAll(payloads, eol) == EncodeAll(payloads[..last], eol) + EncodeMessage(payloads[last], eol)
    decreases |payloads|
  {
    var last := |payloads| - 1;
    hide EncodeMessage;
    if last == 0 {
      assert payloads[1..] == [];
    } else {
      EncodeAllLast(payloads[1..], eol);
      assert payloads[1..][..last - 1] == payloads[..last][1..];
      assert payloads[1..][last - 1] == payloads[last];
    }
  }

  lemma MessageBytes(payload: seq<Byte>, profile: Profile)
    ensures EncodeMessage(payload, LineBreak(profile)) ==
      Ascii("data: ") + payload + if profile == Plain then [10, 10] else [13, 13]
  {
    hide Ascii;
  }

  // Each message is printed as one data line and a blank line, with two line feeds or two carriage returns.
  lemma EncodedLast(payloads: seq<seq<Byte>>, profile: Profile)
    requires payloads != []
    ensures var last := |payloads| - 1;
      Encode(payloads, profile) == Encode(payloads[..last], profile) +
        (Ascii("data: ") + payloads[last] + if profile == Plain then [10, 10] else [13, 13])
  {
    var last, eol := |payloads| - 1, LineBreak(profile);
    hide Preamble, EncodeAll, EncodeMessage;
    EncodeAllLast(payloads, eol);
    MessageBytes(payloads[last], profile);
  }

  // A line is a field and its value; one space behind the colon does not count, a line without a colon is a field
  // without a value, and a line that starts with a colon is a comment.
  lemma LineMeaning(name: seq<Byte>, value: seq<Byte>, p: Parser)
    requires name != [] && COLON !in name
    ensures Line([COLON] + value, p) == p && Line(name, p) == Field(name, [], p)
    ensures Line(name + [COLON] + ([SPACE] + value), p) == Field(name, value, p)
    ensures value == [] || value[0] != SPACE ==> Line(name + [COLON] + value, p) == Field(name, value, p)
  {
    NoColon(name, p);
    LineSplit(name, value, p);
    LineSplit(name, [SPACE] + value, p);
    hide Field, Colon;
    assert ([SPACE] + value)[1..] == value;
  }

  lemma DigitsMeaning(s: seq<Byte>)
    ensures AllDigits(s) <==> forall c | c in s :: 48 <= c <= 57
  {
    if AllDigits(s) {
      forall c | c in s ensures 48 <= c <= 57 {
        var k :| 0 <= k < |s| && s[k] == c;
      }
    }
    if forall c | c in s :: 48 <= c <= 57 {
      forall k | 0 <= k < |s| ensures 48 <= s[k] <= 57 { assert s[k] in s; }
    }
  }

  // The fields that the parser knows.
  lemma FieldMeaning(name: seq<Byte>, value: seq<Byte>, p: Parser)
    ensures Field([101, 118, 101, 110, 116], value, p) == p.(kind := value)
    ensures Field([100, 97, 116, 97], value, p) == p.(data := p.data + value + [10])
    ensures Field([105, 100], value, p) == if 0 in value then p else p.(lastId := value)
    ensures Field([114, 101, 116, 114, 121], value, p) ==
      if forall c | c in value :: 48 <= c <= 57 then p.(retry := value) else p
    ensures name == [101, 118, 101, 110, 116] || name == [100, 97, 116, 97] || name == [105, 100]
      || name == [114, 101, 116, 114, 121] || Field(name, value, p) == p
  {
    DigitsMeaning(value);
    assert Ascii("event") == [101, 118, 101, 110, 116] && Ascii("data") == [100, 97, 116, 97];
    assert Ascii("id") == [105, 100] && Ascii("retry") == [114, 101, 116, 114, 121];
    hide AllDigits, Ascii;
  }

  lemma LineSplit(name: seq<Byte>, value: seq<Byte>, p: Parser)
    requires name != [] && COLON !in name
    ensures Line(name + [COLON] + value, p) ==
      Field(name, if value != [] && value[0] == SPACE then value[1..] else value, p)
  {
    var line := name + [COLON] + value;
    ColonIs(name, value);
    assert line[..|name|] == name && line[|name| + 1..] == value && line[0] == name[0];
    hide Field, Colon;
  }

  lemma NoColon(name: seq<Byte>, p: Parser)
    requires name != [] && COLON !in name
    ensures Line(name, p) == Field(name, [], p)
  {
    hide Field;
    assert Colon(name) == |name|;
  }

  // The comments in front of the first event exceed the client's limit for one event.
  lemma FloodExceedsLimit()
    ensures |Preamble(CommentFlood)| == 4097 * 2048 > 8388608
  {
    CommentIsComment();
    hide CommentText, Repeat;
    RepeatLength(CommentText() + [CR], COMMENT_LINE_COUNT);
  }
}
