/**
 The MIDI output parser over its two alternating system-exclusive buffers.
 `Valid` is the buffer discipline: it holds between any two bytes of an open
 session, so it holds in every run.
 */
module MidiOutput {
  import opened Basics
  import opened MidiProtocol

  /** A long message the device may still be playing, and the buffer it plays from. */
  datatype HandedOut = HandedOut(buffer: nat, data: seq<byte>)

  lemma Regroup<T>(a: seq<T>, b: seq<T>, c: seq<T>)
    ensures (a + b) + c == a + (b + c)
  {
  }

  class MidiOut {
    var status: byte
    var byte1: byte
    var byte2: byte
    var length: nat
    var posn: nat
    var sysex: bool
    var unknown: bool

    const outbuffer: seq<array<byte>>
    var outbufferselect: nat
    var bufferpoint: array?<byte>
    var bufferindex: nat

    /** Which of the two headers is prepared for the device. */
    var prepared: seq<bool>
    /** Everything sent to the device. */
    var sent: seq<Event>
    /** The last long message sent. */
    ghost var handedOut: Option<HandedOut>

    /** Two distinct buffers of the full size. */
    ghost predicate Buffers() {
      && |outbuffer| == 2 && outbuffer[0] != outbuffer[1]
      && outbuffer[0].Length == outbuffer[1].Length == BUFFLEN
    }

    /**
     The write index stays below the last cell of the selected buffer, whose
     header is never prepared; the buffer last handed out is the other one and
     still holds exactly the message that was sent from it.
     */
    ghost predicate Valid()
      reads this, outbuffer
    {
      && Buffers() && outbufferselect < 2 && |prepared| == 2
      && !prepared[outbufferselect]
      && (sysex ==> bufferpoint == outbuffer[outbufferselect] && posn == 0 && 1 <= bufferindex < BUFFLEN)
      && (handedOut.Some? ==>
            var h := handedOut.value;
            && h.buffer == 1 - outbufferselect && |h.data| < BUFFLEN && prepared[h.buffer]
            && outbuffer[h.buffer][..|h.data|] == h.data)
    }

    /** The parser state that the fields represent. */
    ghost function State(): (p: Parser)
      requires Valid()
      reads this, outbuffer
    {
      Parser(status, byte1, byte2, length, posn, sysex, unknown,
             if sysex then outbuffer[outbufferselect][..bufferindex] else [])
    }

    /** Opening a session allocates both buffers; every other field starts at zero. */
    constructor ()
      ensures Valid() && State() == INITIAL && sent == [] && handedOut == None
      ensures fresh(outbuffer[0]) && fresh(outbuffer[1])
    {
      status, byte1, byte2, length, posn := 0, 0, 0, 0, 0;
      sysex, unknown := false, false;
      var b0 := new byte[BUFFLEN];
      var b1 := new byte[BUFFLEN];
      outbuffer := [b0, b1];
      outbufferselect, bufferpoint, bufferindex := 0, null, 0;
      prepared := [false, false];
      sent, handedOut := [], None;
    }

    /** Writes one byte of an exclusive message into the selected buffer. */
    method Capture(data: byte)
      requires Valid() && sysex
      modifies this`bufferindex, bufferpoint
      ensures Valid() && State() == old(State()).(captured := Append(old(State()).captured, data))
      ensures outbuffer[1 - outbufferselect][..] == old(outbuffer[1 - outbufferselect][..])
    {
      bufferpoint[bufferindex] := data;
      bufferindex := bufferindex + 1;
      if bufferindex >= BUFFLEN {
        bufferindex := BUFFLEN - 1;
      }
    }

    /** Ends an exclusive message: hands its buffer out and swaps to the other one. */
    method FlushLong()
      requires Valid() && sysex
      modifies this, outbuffer[outbufferselect]
      ensures Valid() && State() == Ended(old(State()))
      ensures sent == old(sent) + [Long(Append(old(State()).captured, EOX))]
      ensures outbufferselect == 1 - old(outbufferselect)
      ensures handedOut == Some(HandedOut(old(outbufferselect), Append(old(State()).captured, EOX)))
      ensures outbuffer[outbufferselect][..] == old(outbuffer[1 - outbufferselect][..])
    {
      Capture(EOX);
      status := SYSX;
      SendLong();
      sysex := false;
      unknown := true;
    }

    /** Hands the captured message out and swaps to the other buffer, whose header it unprepares. */
    method SendLong()
      requires Valid() && sysex
      modifies this`prepared, this`sent, this`handedOut, this`outbufferselect, this`bufferpoint
      ensures Valid() && sent == old(sent) + [Long(old(State()).captured)]
      ensures outbufferselect == 1 - old(outbufferselect)
      ensures handedOut == Some(HandedOut(old(outbufferselect), old(State()).captured))
    {
      prepared := prepared[outbufferselect := true];
      var message := bufferpoint[..bufferindex];
      sent := sent + [Long(message)];
      handedOut := Some(HandedOut(outbufferselect, message));
      outbufferselect := 1 - outbufferselect;
      bufferpoint := outbuffer[outbufferselect];
      prepared := prepared[outbufferselect := false];
    }

    /** Sends the short message if all its data bytes are in. */
    method FlushShort()
      requires Valid()
      modifies this`posn, this`sent
      ensures Valid() && State() == Flush(old(State())).0 && sent == old(sent) + Flush(old(State())).1
    {
      if posn >= length {
        posn := 0;
        sent := sent + [Short(status, byte1, byte2)];
      }
    }

    /** A status byte takes effect. */
    method BeginStatus(data: byte)
      requires Valid() && data >= 0x80 && (data < CLOCK ==> !sysex)
      modifies this, outbuffer[outbufferselect]
      ensures Valid() && State() == Begin(old(State()), data).0 && sent == old(sent) + Begin(old(State()), data).1
      ensures outbufferselect == old(outbufferselect) && handedOut == old(handedOut)
      ensures outbuffer[1 - outbufferselect][..] == old(outbuffer[1 - outbufferselect][..])
    {
      SetStatus(data);
      if data == SYSX {
        OpenSysEx();
        return;
      }
      FlushShort();
    }

    method SetStatus(data: byte)
      requires Valid()
      modifies this`status, this`length, this`posn, this`unknown
      ensures Valid() && posn == 0
      ensures State() == old(State()).(status := data, length := DataLength(data), posn := 0, unknown := false)
    {
      status := data;
      length := DataLength(data);
      posn := 0;
      unknown := false;
    }

    /** Starts an exclusive message in the selected buffer. */
    method OpenSysEx()
      requires Valid() && posn == 0
      modifies this`sysex, this`bufferindex, this`bufferpoint, outbuffer[outbufferselect]
      ensures Valid() && State() == old(State()).(sysex := true, captured := [SYSX])
      ensures outbuffer[1 - outbufferselect][..] == old(outbuffer[1 - outbufferselect][..])
    {
      sysex := true;
      bufferindex := 0;
      bufferpoint := outbuffer[outbufferselect];
      bufferpoint[bufferindex] := SYSX;
      bufferindex := bufferindex + 1;
    }

    /**
     Consumes one byte as `Step` does. Until another message is handed out, the
     buffer last handed out is not written at all.
     */
    method Parse(data: byte)
      requires Valid()
      modifies this, outbuffer[0], outbuffer[1]
      ensures Valid() && State() == Step(old(State()), data).0 && sent == old(sent) + Step(old(State()), data).1
      ensures old(sysex) && 0x80 <= data < CLOCK ==>
                && outbufferselect == 1 - old(outbufferselect)
                && handedOut == Some(HandedOut(old(outbufferselect), Append(old(State()).captured, EOX)))
      ensures !(old(sysex) && 0x80 <= data < CLOCK) ==>
                && outbufferselect == old(outbufferselect) && handedOut == old(handedOut)
                && outbuffer[1 - outbufferselect][..] == old(outbuffer[1 - outbufferselect][..])
    {
      if data >= 0x80 {
        if data < CLOCK && sysex {
          FlushLong();
          if data == EOX {
            return;
          }
        }
        BeginStatus(data);
      } else if sysex {
        Capture(data);
        return;
      } else if unknown {
        return;
      } else {
        TakeData(data);
        FlushShort();
      }
    }

    /** Stores a data byte of a short message. */
    method TakeData(data: byte)
      requires Valid() && !sysex
      modifies this`posn, this`byte1, this`byte2
      ensures Valid()
      ensures var p := old(State());
        State() == if p.posn == 0 then p.(posn := 1, byte1 := data) else p.(posn := p.posn + 1, byte2 := data)
    {
      posn := posn + 1;
      if posn == 1 {
        byte1 := data;
      } else {
        byte2 := data;
      }
    }

    /** Sends a run of bytes through the parser. */
    method PutBytes(data: seq<byte>)
      requires Valid()
      modifies this, outbuffer[0], outbuffer[1]
      ensures Valid() && State() == Final(old(State()), data) && sent == old(sent) + Emitted(old(State()), data)
    {
      ghost var p, log := State(), sent;
      for i := 0 to |data|
        invariant Valid() && State() == Final(p, data[..i]) && sent == log + Emitted(p, data[..i])
      {
        RunLast(p, data, i);
        Parse(data[i]);
        Regroup(log, Emitted(p, data[..i]), Step(Final(p, data[..i]), data[i]).1);
      }
      assert data[..|data|] == data;
    }
  }
}
