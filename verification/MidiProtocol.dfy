/**
 The MIDI output byte stream: the parser as a state machine over bytes, the
 encoder of MIDI 1.0 streams it has to undo, and the laws relating the two.
 `MidiOutput` implements the state machine with two alternating buffers.
 */
module MidiProtocol {
  import opened Basics

  /** Size of one system-exclusive buffer. */
  const BUFFLEN: nat := 32766

  const SYSX: byte := 0xF0
  const EOX: byte := 0xF7
  const CLOCK: byte := 0xF8

  /** Number of data bytes that follow a status byte. */
  function DataLength(status: byte): nat
  {
    if status < 0x80 then 0
    else if status < 0xC0 then 2
    else if status < 0xE0 then 1
    else if status < 0xF0 then 2
    else if status == 0xF2 then 2
    else if status <= 0xF3 then 1
    else 0
  }

  /** The lengths by kind of message: channel messages, Program Change and Channel Pressure, system messages. */
  lemma LengthOfKind(s: byte)
    requires s >= 0x80 && s != SYSX
    ensures DataLength(s) == if s < 0xF0 then (if s / 16 == 0xC || s / 16 == 0xD then 1 else 2)
                             else if s == 0xF2 then 2 else if s == 0xF1 || s == 0xF3 then 1 else 0
  {
  }

  /** What leaves for the device: a packed short message or a long one. */
  datatype Event = Short(status: byte, byte1: byte, byte2: byte) | Long(data: seq<byte>)

  /** The parser between two bytes; `captured` is the open system-exclusive buffer. */
  datatype Parser = Parser(status: byte, byte1: byte, byte2: byte, length: nat, posn: nat,
                           sysex: bool, unknown: bool, captured: seq<byte>)

  const INITIAL := Parser(0, 0, 0, 0, 0, false, false, [])

  /** Appends to the system-exclusive buffer; the last cell is never counted. */
  function Append(captured: seq<byte>, b: byte): seq<byte> {
    if |captured| + 1 >= BUFFLEN then captured else captured + [b]
  }

  /** Sends the short message once all its data bytes are in. */
  function Flush(p: Parser): (Parser, seq<Event>) {
    if p.posn >= p.length then (p.(posn := 0), [Short(p.status, p.byte1, p.byte2)]) else (p, [])
  }

  /** A status byte takes effect. */
  function Begin(p: Parser, b: byte): (Parser, seq<Event>) {
    var q := p.(status := b, length := DataLength(b), posn := 0, unknown := false);
    if b == SYSX then (q.(sysex := true, captured := [SYSX]), []) else Flush(q)
  }

  /** System-exclusive mode ends; the parser waits for a status byte. */
  function Ended(p: Parser): Parser {
    p.(status := SYSX, sysex := false, unknown := true, captured := [])
  }

  /** The parser consumes one byte. */
  function Step(p: Parser, b: byte): (Parser, seq<Event>) {
    if b >= 0x80 then
      if b < CLOCK && p.sysex then
        var sent := [Long(Append(p.captured, EOX))];
        if b == EOX then (Ended(p), sent)
        else var (q, events) := Begin(Ended(p), b); (q, sent + events)
      else Begin(p, b)
    else if p.sysex then (p.(captured := Append(p.captured, b)), [])
    else if p.unknown then (p, [])
    else if p.posn + 1 == 1 then Flush(p.(posn := p.posn + 1, byte1 := b))
    else Flush(p.(posn := p.posn + 1, byte2 := b))
  }

  /** The parser after a stream. */
  function Final(p: Parser, bytes: seq<byte>): Parser
    decreases |bytes|
  {
    if bytes == [] then p else Final(Step(p, bytes[0]).0, bytes[1..])
  }

  /** The events a stream produces. */
  function Emitted(p: Parser, bytes: seq<byte>): seq<Event>
    decreases |bytes|
  {
    if bytes == [] then [] else Step(p, bytes[0]).1 + Emitted(Step(p, bytes[0]).0, bytes[1..])
  }

  lemma {:induction false} RunAppend(p: Parser, a: seq<byte>, b: seq<byte>)
    ensures Final(p, a + b) == Final(Final(p, a), b)
    ensures Emitted(p, a + b) == Emitted(p, a) + Emitted(Final(p, a), b)
    decreases |a|
  {
    if a == [] {
      assert a + b == b;
    } else {
      assert (a + b)[1..] == a[1..] + b;
      RunAppend(Step(p, a[0]).0, a[1..], b);
    }
  }

  lemma RunLast(p: Parser, bytes: seq<byte>, i: nat)
    requires i < |bytes|
    ensures Final(p, bytes[..i + 1]) == Step(Final(p, bytes[..i]), bytes[i]).0
    ensures Emitted(p, bytes[..i + 1]) == Emitted(p, bytes[..i]) + Step(Final(p, bytes[..i]), bytes[i]).1
  {
    RunAppend(p, bytes[..i], [bytes[i]]);
    assert bytes[..i + 1] == bytes[..i] + [bytes[i]];
  }

  // ----- what a receiver makes of the events -----

  /** A message by its meaning: a short message counts only the data bytes its status calls for. */
  datatype Message = Voice(status: byte, data: seq<byte>) | Exclusive(data: seq<byte>)

  function Heard(e: Event): Message {
    match e
    case Short(s, b1, b2) => Voice(s, [b1, b2][..DataLength(s)])
    case Long(d) => Exclusive(d)
  }

  function HeardAll(events: seq<Event>): seq<Message> {
    if events == [] then [] else [Heard(events[0])] + HeardAll(events[1..])
  }

  /** The messages a receiver gets from a stream. */
  function Decoded(p: Parser, bytes: seq<byte>): seq<Message>
    decreases |bytes|
  {
    if bytes == [] then [] else HeardAll(Step(p, bytes[0]).1) + Decoded(Step(p, bytes[0]).0, bytes[1..])
  }

  lemma {:induction false} HeardAppend(a: seq<Event>, b: seq<Event>)
    ensures HeardAll(a + b) == HeardAll(a) + HeardAll(b)
  {
    if a == [] {
      assert a + b == b;
    } else {
      assert (a + b)[1..] == a[1..] + b;
      HeardAppend(a[1..], b);
    }
  }

  lemma {:induction false} DecodedIsHeard(p: Parser, bytes: seq<byte>)
    ensures Decoded(p, bytes) == HeardAll(Emitted(p, bytes))
    decreases |bytes|
  {
    if bytes != [] {
      DecodedIsHeard(Step(p, bytes[0]).0, bytes[1..]);
      HeardAppend(Step(p, bytes[0]).1, Emitted(Step(p, bytes[0]).0, bytes[1..]));
    }
  }

  lemma {:induction false} DecodedAppend(p: Parser, a: seq<byte>, b: seq<byte>)
    ensures Decoded(p, a + b) == Decoded(p, a) + Decoded(Final(p, a), b)
    decreases |a|
  {
    if a == [] {
      assert a + b == b;
    } else {
      assert (a + b)[1..] == a[1..] + b;
      DecodedAppend(Step(p, a[0]).0, a[1..], b);
    }
  }

  // ----- MIDI 1.0 streams -----

  /**
   One element of a stream. A `Common` message may leave out its status byte
   (running status); an exclusive message has real-time bytes anywhere in its
   body and ends either with EOX or with the status byte of the next element.
   */
  datatype Item =
    | Common(status: byte, data: seq<byte>, explicit: bool)
    | RealTime(status: byte)
    | SysEx(body: seq<byte>, closed: bool)
  {
    predicate Valid() {
      match this
      case Common(s, d, explicit) =>
        && 0x80 <= s < CLOCK && s != SYSX && s != EOX
        && |d| == DataLength(s) && forall i | 0 <= i < |d| :: d[i] < 0x80
      case RealTime(s) => s >= CLOCK
      case SysEx(body, closed) => forall i | 0 <= i < |body| :: body[i] < 0x80 || body[i] >= CLOCK
    }

    function Bytes(): seq<byte> {
      match this
      case Common(s, d, explicit) => if explicit then [s] + d else d
      case RealTime(s) => [s]
      case SysEx(body, closed) => [SYSX] + body + if closed then [EOX] else []
    }

    /** The messages this element stands for. */
    function Meaning(): seq<Message> {
      match this
      case Common(s, d, explicit) => [Voice(s, d)]
      case RealTime(s) => [Voice(s, [])]
      case SysEx(body, closed) => RealTimeIn(body) + [Exclusive(Clip([SYSX] + DataIn(body) + [EOX]))]
    }
  }

  /** The real-time messages of an exclusive body, in order. */
  function RealTimeIn(body: seq<byte>): seq<Message> {
    if body == [] then []
    else (if body[0] >= CLOCK then [Voice(body[0], [])] else []) + RealTimeIn(body[1..])
  }

  /** The payload of an exclusive body. */
  function DataIn(body: seq<byte>): seq<byte> {
    if body == [] then []
    else (if body[0] < 0x80 then [body[0]] else []) + DataIn(body[1..])
  }

  /** What the buffer can hold of a message. */
  function Clip(data: seq<byte>): seq<byte> {
    if |data| < BUFFLEN then data else data[..BUFFLEN - 1]
  }

  function Encode(items: seq<Item>): seq<byte> {
    if items == [] then [] else items[0].Bytes() + Encode(items[1..])
  }

  function Meanings(items: seq<Item>): seq<Message> {
    if items == [] then [] else items[0].Meaning() + Meanings(items[1..])
  }

  /** What is in force between two elements: nothing, a running status, or an open exclusive message. */
  datatype Context = Idle | Running(status: byte) | Unfinished

  /** The context after an element; only a channel message leaves a running status. */
  function After(item: Item): Context {
    match item
    case Common(s, d, explicit) => if s < SYSX then Running(s) else Idle
    case RealTime(s) => Idle
    case SysEx(body, closed) => if closed then Idle else Unfinished
  }

  /** A status byte is omitted only when it repeats the one in force. */
  predicate Follows(c: Context, item: Item) {
    && item.Valid()
    && (item.Common? && !item.explicit ==> item.status < SYSX && c == Running(item.status))
    && (c.Unfinished? ==> !item.RealTime?)
  }

  predicate WellFormed(c: Context, items: seq<Item>)
    decreases |items|
  {
    if items == [] then !c.Unfinished?
    else Follows(c, items[0]) && WellFormed(After(items[0]), items[1..])
  }

  /** The parser agrees with the context. */
  predicate Agrees(p: Parser, c: Context) {
    match c
    case Idle => !p.sysex && p.posn == 0
    case Running(s) => !p.sysex && p.posn == 0 && !p.unknown && p.status == s && p.length == DataLength(s)
    case Unfinished => p.sysex && p.posn == 0 && |p.captured| < BUFFLEN
  }

  /** The long message that the next status byte will release. */
  function Owed(p: Parser): seq<Message> {
    if p.sysex then [Exclusive(Append(p.captured, EOX))] else []
  }

  lemma ClipAppend(data: seq<byte>, b: byte)
    ensures Append(Clip(data), b) == Clip(data + [b])
  {
    if |data| + 1 >= BUFFLEN {
      assert Clip(data + [b]) == Clip(data);
    }
  }

  lemma RunOne(p: Parser, b: byte, rest: seq<byte>)
    ensures Final(p, [b] + rest) == Final(Step(p, b).0, rest)
    ensures Decoded(p, [b] + rest) == HeardAll(Step(p, b).1) + Decoded(Step(p, b).0, rest)
  {
    assert ([b] + rest)[1..] == rest;
  }

  /** A status byte other than EOX releases the open exclusive message, then starts its own. */
  lemma StepStatus(p: Parser, b: byte)
    requires 0x80 <= b < CLOCK && b != EOX
    ensures Step(p, b).0 == Begin(if p.sysex then Ended(p) else p, b).0
    ensures HeardAll(Step(p, b).1) == Owed(p) + if b != SYSX && DataLength(b) == 0 then [Voice(b, [])] else []
  {
    var sent := if p.sysex then [Long(Append(p.captured, EOX))] else [];
    HeardAppend(sent, Begin(if p.sysex then Ended(p) else p, b).1);
    assert Step(p, b).1 == sent + Begin(if p.sysex then Ended(p) else p, b).1;
  }

  lemma StepSysx(p: Parser) returns (q: Parser)
    ensures q == Step(p, SYSX).0 && q.sysex && q.posn == 0 && q.captured == [SYSX]
    ensures HeardAll(Step(p, SYSX).1) == Owed(p)
  {
    q := Step(p, SYSX).0;
    StepStatus(p, SYSX);
  }

  lemma StepEox(p: Parser)
    requires p.sysex
    ensures Step(p, EOX).0 == Ended(p) && HeardAll(Step(p, EOX).1) == Owed(p)
  {
  }

  lemma StepCapture(p: Parser, b: byte)
    requires p.sysex && b < 0x80
    ensures Step(p, b) == (p.(captured := Append(p.captured, b)), [])
  {
  }

  /** A real-time byte is sent at once; an open exclusive message stays open. */
  lemma StepRealTime(p: Parser, b: byte)
    requires b >= CLOCK
    ensures Step(p, b).0 == p.(status := b, length := 0, posn := 0, unknown := false)
    ensures HeardAll(Step(p, b).1) == [Voice(b, [])]
  {
  }

  /** The buffer after a payload has been appended byte by byte. */
  function AppendAll(captured: seq<byte>, data: seq<byte>): seq<byte>
    decreases |data|
  {
    if data == [] then captured else AppendAll(Append(captured, data[0]), data[1..])
  }

  lemma {:induction false} ClipAppendAll(head: seq<byte>, data: seq<byte>)
    ensures AppendAll(Clip(head), data) == Clip(head + data)
    decreases |data|
  {
    if data == [] {
      assert head + data == head;
    } else {
      ClipAppend(head, data[0]);
      ClipAppendAll(head + [data[0]], data[1..]);
      assert head + [data[0]] + data[1..] == head + data;
    }
  }

  /** Capturing a body appends its payload and emits its real-time bytes at once. */
  lemma {:induction false} CaptureBody(p: Parser, body: seq<byte>)
    requires p.sysex && p.posn == 0
    requires forall i | 0 <= i < |body| :: body[i] < 0x80 || body[i] >= CLOCK
    ensures var q := Final(p, body); q.sysex && q.posn == 0 && q.captured == AppendAll(p.captured, DataIn(body))
    ensures Decoded(p, body) == RealTimeIn(body)
    decreases |body|
  {
    if body != [] {
      if body[0] < 0x80 {
        StepCapture(p, body[0]);
        assert DataIn(body)[1..] == DataIn(body[1..]);
      } else {
        StepRealTime(p, body[0]);
        assert DataIn(body) == DataIn(body[1..]);
      }
      CaptureBody(Step(p, body[0]).0, body[1..]);
    }
  }

  /** The data bytes of a message whose status is in force complete it. */
  lemma DecodeData(p: Parser, s: byte, d: seq<byte>)
    requires !p.sysex && p.posn == 0 && !p.unknown && p.status == s && p.length == DataLength(s) == |d|
    requires 0x80 <= s && forall i | 0 <= i < |d| :: d[i] < 0x80
    ensures Agrees(Final(p, d), Running(s))
    ensures Decoded(p, d) == if d == [] then [] else [Voice(s, d)]
  {
    if |d| == 1 {
      assert d == [d[0]];
      LastByte(p, d[0]);
    } else if |d| == 2 {
      assert d == [d[0]] + [d[1]] == [d[0], d[1]];
      var q := p.(posn := 1, byte1 := d[0]);
      assert Step(p, d[0]) == (q, []);
      RunOne(p, d[0], [d[1]]);
      LastByte(q, d[1]);
    }
  }

  lemma LastByte(p: Parser, b: byte)
    requires !p.sysex && !p.unknown && b < 0x80 && p.posn + 1 == p.length == DataLength(p.status)
    ensures Agrees(Final(p, [b]), Running(p.status))
    ensures Decoded(p, [b]) == [Voice(p.status, if p.posn == 0 then [b] else [p.byte1, b])]
  {
    StepLast(p, b);
    assert [b] == [b] + [];
    RunOne(p, b, []);
  }

  /** The last data byte of a message sends it. */
  lemma StepLast(p: Parser, b: byte)
    requires !p.sysex && !p.unknown && b < 0x80 && p.posn + 1 == p.length == DataLength(p.status)
    ensures Step(p, b).0 == if p.posn == 0 then p.(posn := 0, byte1 := b) else p.(posn := 0, byte2 := b)
    ensures HeardAll(Step(p, b).1) == [Voice(p.status, if p.posn == 0 then [b] else [p.byte1, b])]
  {
    if p.posn == 0 {
      assert Step(p, b).1 == [Short(p.status, b, p.byte2)] && [b, p.byte2][..1] == [b];
    } else {
      assert Step(p, b).1 == [Short(p.status, p.byte1, b)] && [p.byte1, b][..2] == [p.byte1, b];
    }
  }

  lemma DecodeCommon(p: Parser, c: Context, item: Item)
    requires Agrees(p, c) && Follows(c, item) && item.Common?
    ensures Agrees(Final(p, item.Bytes()), After(item))
    ensures Decoded(p, item.Bytes()) == Owed(p) + item.Meaning()
  {
    if item.explicit {
      RunOne(p, item.status, item.data);
      StepStatus(p, item.status);
      DecodeData(Step(p, item.status).0, item.status, item.data);
    } else {
      DecodeData(p, item.status, item.data);
    }
  }

  /** An open exclusive message owes its clipped payload. */
  lemma CaptureOpen(p: Parser, body: seq<byte>)
    requires p.sysex && p.posn == 0 && p.captured == [SYSX]
    requires forall i | 0 <= i < |body| :: body[i] < 0x80 || body[i] >= CLOCK
    ensures Agrees(Final(p, body), Unfinished)
    ensures Decoded(p, body) == RealTimeIn(body)
    ensures Owed(Final(p, body)) == [Exclusive(Clip([SYSX] + DataIn(body) + [EOX]))]
  {
    CaptureBody(p, body);
    ClipAppendAll([SYSX], DataIn(body));
    ClipAppend([SYSX] + DataIn(body), EOX);
  }

  /** EOX delivers what an open exclusive message owes. */
  lemma CloseSysEx(p: Parser, bytes: seq<byte>)
    requires Agrees(Final(p, bytes), Unfinished)
    ensures Agrees(Final(p, bytes + [EOX]), Idle)
    ensures Decoded(p, bytes + [EOX]) == Decoded(p, bytes) + Owed(Final(p, bytes))
  {
    RunAppend(p, bytes, [EOX]);
    DecodedAppend(p, bytes, [EOX]);
    var q := Final(p, bytes);
    StepEox(q);
    assert [EOX] == [EOX] + [];
    RunOne(q, EOX, []);
  }

  /** A start byte first releases any earlier exclusive message. */
  lemma OpenSysEx(p: Parser, body: seq<byte>)
    requires forall i | 0 <= i < |body| :: body[i] < 0x80 || body[i] >= CLOCK
    ensures Agrees(Final(p, [SYSX] + body), Unfinished)
    ensures Decoded(p, [SYSX] + body) == Owed(p) + RealTimeIn(body)
    ensures Owed(Final(p, [SYSX] + body)) == [Exclusive(Clip([SYSX] + DataIn(body) + [EOX]))]
  {
    var q := StepSysx(p);
    RunOne(p, SYSX, body);
    CaptureOpen(q, body);
  }

  lemma DecodeSysEx(p: Parser, c: Context, item: Item)
    requires Agrees(p, c) && Follows(c, item) && item.SysEx?
    ensures Agrees(Final(p, item.Bytes()), After(item))
    ensures Decoded(p, item.Bytes()) + Owed(Final(p, item.Bytes())) == Owed(p) + item.Meaning()
  {
    var start := [SYSX] + item.body;
    OpenSysEx(p, item.body);
    if item.closed {
      CloseSysEx(p, start);
      assert item.Bytes() == start + [EOX];
    } else {
      assert item.Bytes() == start;
    }
  }

  /**
   Decoding undoes encoding: from any state that agrees with the context, a
   well-formed stream yields exactly the messages it stands for, in order.
   */
  lemma {:induction false} DecodeFrom(p: Parser, c: Context, items: seq<Item>)
    requires Agrees(p, c) && WellFormed(c, items)
    ensures Decoded(p, Encode(items)) == Owed(p) + Meanings(items)
    decreases |items|
  {
    if items != [] {
      var item := items[0];
      var q := Final(p, item.Bytes());
      DecodedAppend(p, item.Bytes(), Encode(items[1..]));
      DecodeItem(p, c, item);
      DecodeFrom(q, After(item), items[1..]);
      Reassociate(Decoded(p, item.Bytes()), Owed(q), Meanings(items[1..]), Owed(p), item.Meaning());
    }
  }

  lemma Reassociate<T>(a: seq<T>, b: seq<T>, c: seq<T>, x: seq<T>, y: seq<T>)
    requires a + b == x + y
    ensures a + (b + c) == x + (y + c)
  {
    assert a + (b + c) == (a + b) + c;
    assert x + (y + c) == (x + y) + c;
  }

  lemma DecodeItem(p: Parser, c: Context, item: Item)
    requires Agrees(p, c) && Follows(c, item)
    ensures Agrees(Final(p, item.Bytes()), After(item))
    ensures Decoded(p, item.Bytes()) + Owed(Final(p, item.Bytes())) == Owed(p) + item.Meaning()
  {
    match item {
      case Common(_, _, _) => DecodeCommon(p, c, item);
      case RealTime(_) => StepRealTime(p, item.status);
      case SysEx(_, _) => DecodeSysEx(p, c, item);
    }
  }

  /** The round trip of a whole session. */
  lemma RoundTrip(items: seq<Item>)
    requires WellFormed(Idle, items)
    ensures Decoded(INITIAL, Encode(items)) == Meanings(items)
  {
    DecodeFrom(INITIAL, Idle, items);
    assert Owed(INITIAL) + Meanings(items) == Meanings(items);
  }

  /**
   An exclusive message reaches the device whole exactly when it leaves room
   for its two framing bytes below the uncounted last cell; otherwise its tail,
   EOX included, is lost.
   */
  lemma DeliveredWhole(payload: seq<byte>)
    ensures Clip([SYSX] + payload + [EOX]) == [SYSX] + payload + [EOX] <==> |payload| <= 32763
    ensures |payload| > 32763 ==> Clip([SYSX] + payload + [EOX]) == [SYSX] + payload[..32764]
  {
  }

  // ----- data bytes without a status -----

  /** After an exclusive message has ended, data bytes are dropped until a status byte. */
  lemma DroppedAfterEox(p: Parser, data: seq<byte>)
    requires p.sysex && p.posn == 0 && forall i | 0 <= i < |data| :: data[i] < 0x80
    ensures Decoded(p, [EOX] + data) == Owed(p) && Agrees(Final(p, [EOX] + data), Idle)
  {
    StepEox(p);
    RunOne(p, EOX, data);
    UnknownDrops(Ended(p), data);
  }

  lemma {:induction false} UnknownDrops(p: Parser, data: seq<byte>)
    requires !p.sysex && p.unknown && forall i | 0 <= i < |data| :: data[i] < 0x80
    ensures Decoded(p, data) == [] && Final(p, data) == p
    decreases |data|
  {
    if data != [] {
      assert Step(p, data[0]) == (p, []);
      UnknownDrops(p, data[1..]);
    }
  }

  /**
   MIDI 1.0 has a receiver ignore data bytes that belong to no message. Where no
   data bytes are due this parser does so exactly if an exclusive message was
   the last thing before them; at the start of a session, in particular, it
   sends each as a message with status 0.
   */
  lemma StraysDroppedIff(p: Parser, data: seq<byte>)
    requires !p.sysex && p.length == 0 && data != [] && forall i | 0 <= i < |data| :: data[i] < 0x80
    ensures Decoded(p, data) == [] <==> p.unknown
  {
    if p.unknown {
      UnknownDrops(p, data);
    } else {
      assert |Step(p, data[0]).1| == 1;
      HeardLength(Step(p, data[0]).1);
    }
  }

  lemma StraySentAtStart()
    ensures Emitted(INITIAL, [60]) == [Short(0, 60, 0)]
  {
    assert [60][1..] == [];
  }

  // ----- real-time bytes outside exclusive messages -----

  /** A channel message is under way or its status is still running. */
  predicate InVoice(p: Parser) {
    !p.sysex && !p.unknown && 0x80 <= p.status < SYSX && p.posn < p.length == DataLength(p.status)
  }

  /** Equal up to data bytes left over from earlier messages. */
  predicate SameButData(p: Parser, q: Parser) {
    p == q.(byte1 := p.byte1, byte2 := p.byte2)
  }

  lemma {:induction false} SameCount(p: Parser, q: Parser, bytes: seq<byte>)
    requires SameButData(p, q)
    ensures |Emitted(p, bytes)| == |Emitted(q, bytes)|
    decreases |bytes|
  {
    if bytes != [] {
      SameCount(Step(p, bytes[0]).0, Step(q, bytes[0]).0, bytes[1..]);
    }
  }

  /** After a real-time byte the parser emits at least as much as if it had not been there. */
  lemma {:induction false} RealTimeEmitsMore(p: Parser, r: Parser, bytes: seq<byte>)
    requires InVoice(p) && r.status >= CLOCK && r.length == r.posn == 0
    requires !r.sysex && !r.unknown && r.captured == p.captured
    ensures |Emitted(p, bytes)| <= |Emitted(r, bytes)|
    decreases |bytes|
  {
    if bytes != [] {
      if bytes[0] >= 0x80 {
        SameCount(Step(p, bytes[0]).0, Step(r, bytes[0]).0, bytes[1..]);
      } else {
        RealTimeEmitsMore(Step(p, bytes[0]).0, Step(r, bytes[0]).0, bytes[1..]);
      }
    }
  }

  lemma {:induction false} HeardLength(events: seq<Event>)
    ensures |HeardAll(events)| == |events|
  {
    if events != [] {
      HeardLength(events[1..]);
    }
  }

  /**
   MIDI 1.0 lets a real-time byte appear anywhere without disturbing running
   status. This parser overwrites the status, so the rest of the stream decodes
   as if the byte had not been there exactly when it starts with a status byte
   or is empty.
   */
  lemma RealTimeTransparentIff(p: Parser, b: byte, rest: seq<byte>)
    requires InVoice(p) && b >= CLOCK
    ensures Decoded(p, [b] + rest) == [Voice(b, [])] + Decoded(p, rest) <==> rest == [] || rest[0] >= 0x80
  {
    RunOne(p, b, rest);
    StepRealTime(p, b);
    var r := Step(p, b).0;
    if rest != [] && rest[0] < 0x80 {
      RealTimeEmitsMore(Step(p, rest[0]).0, Step(r, rest[0]).0, rest[1..]);
      DecodedIsHeard(p, rest);
      HeardLength(Emitted(p, rest));
      DecodedIsHeard(r, rest);
      HeardLength(Emitted(r, rest));
      assert |Step(r, rest[0]).1| == 1;
      if Step(p, rest[0]).1 != [] {
        assert Decoded(p, rest)[0].status == p.status;
        assert Decoded(r, rest)[0].status == b;
      }
      assert Decoded(r, rest) != Decoded(p, rest);
      assert ([Voice(b, [])] + Decoded(r, rest))[1..] == Decoded(r, rest);
      assert ([Voice(b, [])] + Decoded(p, rest))[1..] == Decoded(p, rest);
    }
  }

  /** A note played under running status after a clock byte is not delivered. */
  lemma ClockBreaksRunningStatus()
    ensures var m := Common(0x90, [60, 100], true);
            var running := m.(explicit := false);
            && WellFormed(Idle, [m, running])
            && Decoded(INITIAL, m.Bytes() + [CLOCK] + running.Bytes())
               != [Voice(0x90, [60, 100]), Voice(CLOCK, []), Voice(0x90, [60, 100])]
  {
    var m := Common(0x90, [60, 100], true);
    var running := m.(explicit := false);
    assert WellFormed(Running(0x90), [running]);
    assert [m, running][1..] == [running];
    DecodeItem(INITIAL, Idle, m);
    var p := Final(INITIAL, m.Bytes());
    assert Owed(INITIAL) + m.Meaning() == [Voice(0x90, [60, 100])];
    DecodedAppend(INITIAL, m.Bytes(), [CLOCK] + running.Bytes());
    assert m.Bytes() + [CLOCK] + running.Bytes() == m.Bytes() + ([CLOCK] + running.Bytes());
    RealTimeTransparentIff(p, CLOCK, running.Bytes());
    DecodeItem(p, Running(0x90), running);
    assert Decoded(p, running.Bytes()) == [Voice(0x90, [60, 100])];
    var rest := Decoded(p, [CLOCK] + running.Bytes());
    assert rest == ([Voice(0x90, [60, 100])] + rest)[1..];
    assert [Voice(0x90, [60, 100]), Voice(CLOCK, []), Voice(0x90, [60, 100])][1..]
        == [Voice(CLOCK, [])] + [Voice(0x90, [60, 100])];
  }
}
