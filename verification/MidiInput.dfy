/**
 The MIDI input queue: a linear buffer whose indices go back to zero whenever
 it is drained, filled by the driver callback and emptied byte by byte.
 */
module MidiInput {
  import opened Basics
  import opened MidiProtocol

  /** What the driver reports. A long message comes in a driver buffer of the given capacity. */
  datatype Arrival = ShortData(w: nat) | LongData(data: seq<byte>, capacity: nat, closing: bool)

  /** The bytes put in the queue for a packed short message; unlisted statuses are ignored. */
  function Packet(w: nat): (bytes: seq<byte>)
    ensures |bytes| <= 3
    ensures bytes != [] ==> bytes[0] == w % 256
  {
    var status := w % 256;
    var second := (w / 0x100) % 256;
    var third := (w / 0x10000) % 256;
    if status == 0xFE then []
    else
      var kind := if status < 0xF0 then status - status % 16 else status;
      if kind in {0x80, 0x90, 0xA0, 0xB0, 0xE0, 0xF2, 0xF6} then [status, second, third]
      else if kind in {0xC0, 0xD0, 0xF1, 0xF3, 0xFF} then [status, second]
      else if kind in {0xF8, 0xFA, 0xFB, 0xFC} then [status]
      else []
  }

  /** What the queue takes of a short message: the bytes of the packed word, the lowest one first. */
  lemma PacketIsWord(w: nat)
    ensures forall i | 0 <= i < |Packet(w)| ::
      Packet(w)[i] == if i == 0 then w % 0x100 else if i == 1 then w / 0x100 % 0x100 else w / 0x10000 % 0x100
  {
  }

  /** Nothing is queued exactly for the statuses that are no message, are undefined, are exclusive, or are Active Sensing. */
  lemma PacketDroppedIff(w: nat)
    ensures Packet(w) == [] <==> var s := w % 0x100; s < 0x80 || s in {0xF0, 0xF4, 0xF5, 0xF7, 0xF9, 0xFD, 0xFE}
  {
  }

  /** How many bytes the queue takes for a status, against what MIDI 1.0 gives it; the two exceptions take too many. */
  lemma PacketLength(w: nat)
    requires Packet(w) != []
    ensures |Packet(w)| == 1 + DataLength(w % 256) <==> w % 256 !in {0xF6, 0xFF}
    ensures w % 256 == 0xF6 ==> |Packet(w)| == 3
    ensures w % 256 == 0xFF ==> |Packet(w)| == 2
  {
  }

  /** What a status byte releases before its own message. */
  function Released(p: Parser, s: byte): seq<Message> { if s < CLOCK then Owed(p) else [] }

  /**
   Routed on to the output parser, a short message comes out as exactly that
   message, behind any exclusive message it ends; a real-time message leaves an
   exclusive one open. Only Tune Request and Reset, which are queued with bytes
   they do not have, come out more than once, or add a byte to the open message.
   */
  lemma RoutedOnce(p: Parser, w: nat)
    requires Packet(w) != [] && (w / 0x100) % 256 < 0x80 && (w / 0x10000) % 256 < 0x80
    ensures var s, q, data := w % 256, Final(p, Packet(w)), [w / 0x100 % 256, w / 0x10000 % 256];
      && (s !in {0xF6, 0xFF} ==> Decoded(p, Packet(w)) == Released(p, s) + [Voice(s, data[..DataLength(s)])])
      && (s == 0xF6 || (s == 0xFF && !p.sysex) ==>
            |Decoded(p, Packet(w))| == |Released(p, s)| + |Packet(w)| && |Packet(w)| > 1)
      && (s == 0xFF && p.sysex ==> Decoded(p, Packet(w)) == [Voice(s, [])])
      && (s >= CLOCK && p.sysex ==>
            q.sysex && q.captured == if s == 0xFF then Append(p.captured, data[0]) else p.captured)
  {
    PacketIsWord(w);
    PacketLength(w);
    var s, data := w % 256, Packet(w)[1..];
    assert Packet(w) == [s] + data;
    assert s !in {0xF6, 0xFF} ==> data == [w / 0x100 % 256, w / 0x10000 % 256][..DataLength(s)];
    if s >= CLOCK && p.sysex {
      RealTimeInside(p, s, data);
    } else if s in {0xF6, 0xFF} {
      EachByteSends(p, s, data);
    } else {
      WholeMessage(p, s, data);
    }
  }

  /** A real-time message inside an exclusive one; bytes it should not have are captured. */
  lemma RealTimeInside(p: Parser, s: byte, data: seq<byte>)
    requires p.sysex && s >= CLOCK && |data| <= 1 && forall i | 0 <= i < |data| :: data[i] < 0x80
    ensures var q := Final(p, [s] + data);
      && Decoded(p, [s] + data) == [Voice(s, [])]
      && q.sysex && q.captured == if data == [] then p.captured else Append(p.captured, data[0])
  {
    RunOne(p, s, data);
    StepRealTime(p, s);
    var q := Step(p, s).0;
    if data != [] {
      assert data == [data[0]] + [];
      StepCapture(q, data[0]);
      RunOne(q, data[0], []);
    }
  }

  lemma WholeMessage(p: Parser, s: byte, data: seq<byte>)
    requires (p.sysex ==> s < CLOCK) && 0x80 <= s && s != SYSX && s != EOX && |data| == DataLength(s)
    requires forall i | 0 <= i < |data| :: data[i] < 0x80
    ensures Decoded(p, [s] + data) == Released(p, s) + [Voice(s, data)]
  {
    RunOne(p, s, data);
    if s >= CLOCK {
      StepRealTime(p, s);
    } else {
      StepStatus(p, s);
      DecodeData(Step(p, s).0, s, data);
    }
  }

  /** A status without data bytes is repeated by every data byte after it. */
  lemma EachByteSends(p: Parser, s: byte, data: seq<byte>)
    requires (p.sysex ==> s < CLOCK) && 0x80 <= s != EOX && DataLength(s) == 0
    requires forall i | 0 <= i < |data| :: data[i] < 0x80
    ensures |Decoded(p, [s] + data)| == |Released(p, s)| + 1 + |data|
  {
    RunOne(p, s, data);
    if s >= CLOCK {
      StepRealTime(p, s);
    } else {
      StepStatus(p, s);
    }
    StraysSend(Step(p, s).0, data);
  }

  lemma {:induction false} StraysSend(p: Parser, data: seq<byte>)
    requires !p.sysex && !p.unknown && p.length == 0
    requires forall i | 0 <= i < |data| :: data[i] < 0x80
    ensures |Decoded(p, data)| == |data|
    decreases |data|
  {
    if data != [] {
      HeardLength(Step(p, data[0]).1);
      StraysSend(Step(p, data[0]).0, data[1..]);
    }
  }

  /** The read index and the bytes between the two indices. */
  datatype Queue = Queue(start: nat, pending: seq<byte>) {
    function Last(): nat { start + |pending| }

    /** The read index never passes the write index, which stays in the buffer; a drained queue is reset. */
    predicate Valid() { Last() < BUFFLEN && (pending == [] ==> start == 0) }
  }

  const EMPTY := Queue(0, [])

  /** The bytes an arrival would add. */
  function Carried(a: Arrival): seq<byte> {
    match a
    case ShortData(w) => Packet(w)
    case LongData(data, _, _) => data
  }

  /** Whether an arrival is refused as a whole. */
  predicate Refused(q: Queue, a: Arrival) {
    match a
    case ShortData(w) => q.Last() >= BUFFLEN - 10
    case LongData(data, capacity, closing) =>
      closing || q.Last() + |data| >= BUFFLEN - 6 || capacity == |data|
  }

  /** The bytes an arrival does add: all of its bytes or none. */
  function Accepted(q: Queue, a: Arrival): seq<byte> {
    if Refused(q, a) then [] else Carried(a)
  }

  function Arrive(q: Queue, a: Arrival): Queue {
    q.(pending := q.pending + Accepted(q, a))
  }

  /** The queue after a read; the read yields the first pending byte, if any. */
  function Fetch(q: Queue): Queue {
    if |q.pending| <= 1 then EMPTY else Queue(q.start + 1, q.pending[1..])
  }

  /** A short message is dropped exactly if at most ten of the 32766 cells are left behind the pending bytes. */
  lemma ShortRefusedIff(q: Queue, w: nat)
    requires Packet(w) != []
    ensures Arrive(q, ShortData(w)).pending == q.pending + Packet(w) || Arrive(q, ShortData(w)) == q
    ensures Arrive(q, ShortData(w)) == q <==> q.start + |q.pending| >= 32756
  {
    if !Refused(q, ShortData(w)) {
      assert |Arrive(q, ShortData(w)).pending| > |q.pending|;
    }
  }

  /** A long one is dropped exactly on closing, if its driver buffer was full, or if it would leave at most six. */
  lemma LongRefusedIff(q: Queue, a: Arrival)
    requires a.LongData? && a.data != []
    ensures Arrive(q, a).pending == q.pending + a.data || Arrive(q, a) == q
    ensures Arrive(q, a) == q <==>
      a.closing || a.capacity == |a.data| || q.start + |q.pending| + |a.data| >= 32760
  {
    if !Refused(q, a) {
      assert |Arrive(q, a).pending| > |q.pending|;
    }
  }

  datatype Op = In(arrival: Arrival) | Read

  function Apply(q: Queue, op: Op): Queue {
    match op
    case In(a) => Arrive(q, a)
    case Read => Fetch(q)
  }

  function RunAll(q: Queue, ops: seq<Op>): Queue
    decreases |ops|
  {
    if ops == [] then q else RunAll(Apply(q, ops[0]), ops[1..])
  }

  /** All bytes accepted over a run. */
  function AllAccepted(q: Queue, ops: seq<Op>): seq<byte>
    decreases |ops|
  {
    if ops == [] then []
    else (if ops[0].In? then Accepted(q, ops[0].arrival) else []) + AllAccepted(Apply(q, ops[0]), ops[1..])
  }

  /** All bytes read over a run. */
  function AllRead(q: Queue, ops: seq<Op>): seq<byte>
    decreases |ops|
  {
    if ops == [] then []
    else (if ops[0].Read? then q.pending[..if q.pending == [] then 0 else 1] else []) + AllRead(Apply(q, ops[0]), ops[1..])
  }

  /**
   Over every interleaving of arrivals and reads nothing is lost, reordered or
   invented after acceptance, and the indices stay in the buffer.
   */
  lemma {:induction false} FaithfulQueue(q: Queue, ops: seq<Op>)
    requires q.Valid()
    ensures RunAll(q, ops).Valid()
    ensures q.pending + AllAccepted(q, ops) == AllRead(q, ops) + RunAll(q, ops).pending
    decreases |ops|
  {
    if ops == [] {
      assert q.pending + [] == [] + q.pending;
    } else {
      var next := Apply(q, ops[0]);
      FaithfulQueue(next, ops[1..]);
      var taken := if ops[0].Read? then q.pending[..if q.pending == [] then 0 else 1] else [];
      var added := if ops[0].In? then Accepted(q, ops[0].arrival) else [];
      assert q.pending + added == taken + next.pending;
      var later, read, left := AllAccepted(next, ops[1..]), AllRead(next, ops[1..]), RunAll(next, ops[1..]).pending;
      calc {
        q.pending + (added + later);
        (q.pending + added) + later;
        taken + (next.pending + later);
        taken + (read + left);
        (taken + read) + left;
      }
    }
  }

  /** All bytes that the arrivals of a run carry. */
  function AllCarried(ops: seq<Op>): seq<byte>
    decreases |ops|
  {
    if ops == [] then [] else (if ops[0].In? then Carried(ops[0].arrival) else []) + AllCarried(ops[1..])
  }

  /** Traffic that fits behind the pending bytes is accepted in full, however reads are interleaved. */
  lemma {:induction false} FittingLosesNothing(q: Queue, ops: seq<Op>)
    requires q.Valid() && q.Last() + |AllCarried(ops)| < BUFFLEN - 10
    requires forall i | 0 <= i < |ops| && ops[i].In? && ops[i].arrival.LongData? ::
      !ops[i].arrival.closing && ops[i].arrival.capacity != |ops[i].arrival.data|
    ensures AllAccepted(q, ops) == AllCarried(ops)
    decreases |ops|
  {
    if ops != [] {
      assert ops[0].In? ==> Accepted(q, ops[0].arrival) == Carried(ops[0].arrival);
      FittingLosesNothing(Apply(q, ops[0]), ops[1..]);
    }
  }

  /** A queue that reads have drained takes any short message, and any long one that can fit at all. */
  lemma DrainedAccepts(q: Queue, ops: seq<Op>, a: Arrival)
    requires q.Valid() && RunAll(q, ops).pending == []
    ensures a.ShortData? ==> Accepted(RunAll(q, ops), a) == Carried(a)
    ensures a.LongData? ==>
              (Refused(RunAll(q, ops), a) <==> a.closing || |a.data| >= BUFFLEN - 6 || a.capacity == |a.data|)
  {
    FaithfulQueue(q, ops);
  }

  class MidiIn {
    const midibuf: array<byte>
    var inptr: nat
    var inlast: nat
    var overflow: bool
    var exiting: bool

    ghost predicate Valid()
      reads this, midibuf
    {
      midibuf.Length == BUFFLEN && inptr <= inlast < BUFFLEN && State().Valid()
    }

    ghost function State(): Queue
      requires inptr <= inlast <= midibuf.Length
      reads this, midibuf
    {
      Queue(inptr, midibuf[inptr..inlast])
    }

    constructor ()
      ensures Valid() && State() == EMPTY && !overflow && !exiting && fresh(midibuf)
    {
      midibuf := new byte[BUFFLEN];
      inptr, inlast, overflow, exiting := 0, 0, false, false;
    }

    method AddBytes(bytes: seq<byte>)
      requires Valid() && |bytes| <= 3
      modifies this`inlast, midibuf
      ensures Valid()
      ensures State() == if old(inlast) >= BUFFLEN - 10 then old(State())
                         else old(State()).(pending := old(State()).pending + bytes)
    {
      if inlast >= BUFFLEN - 10 {
        return;
      }
      Store(bytes);
    }

    /** Copies bytes behind the pending ones. */
    method Store(bytes: seq<byte>)
      requires Valid() && inlast + |bytes| < BUFFLEN
      modifies this`inlast, midibuf
      ensures Valid() && State() == old(State()).(pending := old(State()).pending + bytes)
    {
      var first := inlast;
      for i := 0 to |bytes|
        invariant inlast == first
        invariant midibuf[inptr..first] == old(midibuf[inptr..inlast])
        invariant midibuf[first..first + i] == bytes[..i]
      {
        midibuf[first + i] := bytes[i];
      }
      inlast := first + |bytes|;
      assert midibuf[inptr..inlast] == midibuf[inptr..first] + midibuf[first..first + |bytes|];
    }

    /** The driver callback. */
    method MidiInProc(a: Arrival)
      requires Valid() && (a.LongData? ==> a.closing == exiting)
      modifies this`inlast, this`overflow, midibuf
      ensures Valid() && State() == Arrive(old(State()), a)
      ensures overflow == (old(overflow) || (a.LongData? && !exiting && Refused(old(State()), a)))
    {
      match a
      case LongData(data, capacity, closing) =>
        if exiting {
          return;
        }
        if inlast + |data| >= BUFFLEN - 6 {
          overflow := true;
          return;
        }
        if capacity == |data| {
          overflow := true;
          return;
        }
        Store(data);
      case ShortData(w) =>
        AddBytes(Packet(w));
    }

    /** Takes one byte out, or -1 if there is none. */
    method GetMidiByte() returns (rv: int)
      requires Valid()
      modifies this`inptr, this`inlast, this`overflow
      ensures Valid() && State() == Fetch(old(State())) && !overflow
      ensures rv == if old(State()).pending == [] then -1 else old(State()).pending[0]
    {
      overflow := false;
      rv := -1;
      if inptr < inlast {
        rv := midibuf[inptr];
        inptr := inptr + 1;
      }
      if inptr >= inlast {
        inptr, inlast := 0, 0;
      }
    }
  }
}
