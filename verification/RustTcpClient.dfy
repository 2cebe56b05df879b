/** The Rust `run` loop: a select over the send channel, the heartbeat timer and the socket, in
    whatever order their arms are taken. */
module RustTcpClient {
  import opened Seqs
  import opened Options
  import opened Framing
  import opened Receivers
  import opened WireLog

  /** `write_all` writes everything, or fails with some bytes left, after the first `n` if there are
      so many before the last one. */
  datatype WriteResult = Written | Failed(n: nat)

  datatype Event =
    | Enqueue(msg: Message)           // another task calls `tx.send`
    | SendArm(result: WriteResult)    // taken only when the channel holds a message
    | HeartbeatArm(result: WriteResult)
    | ReadArm(chunk: seq<byte>)       // the empty chunk is the end of the stream
    | ReadError

  // ---------- What a schedule says ----------

  function Enqueued(events: seq<Event>): seq<Message> {
    if |events| == 0 then []
    else Enqueued(events[..|events| - 1]) + (if events[|events| - 1].Enqueue? then [events[|events| - 1].msg] else [])
  }

  function BytesRead(events: seq<Event>): seq<byte> {
    if |events| == 0 then []
    else BytesRead(events[..|events| - 1]) + (if events[|events| - 1].ReadArm? then events[|events| - 1].chunk else [])
  }

  /** How often the send arm was taken: each time it comes up with a message waiting. */
  function Dequeued(events: seq<Event>): nat {
    if |events| == 0 then 0
    else
      var before := events[..|events| - 1];
      Dequeued(before) + (if events[|events| - 1].SendArm? && Dequeued(before) < |Enqueued(before)| then 1 else 0)
  }

  predicate SendReady(events: seq<Event>) {
    Dequeued(events) < |Enqueued(events)|
  }

  /** What was put out of a frame, with the arm it came from. */
  datatype Sent = Business(entry: Entry) | Heartbeat(entry: Entry)

  function Put(m: Message, result: WriteResult): (e: Entry)
    ensures e.sent <= Size(m)
  {
    Entry(m, if result.Written? then Size(m) else if result.n < Size(m) then result.n else Size(m) - 1)
  }

  /** The send arm writes, the n-th time it is taken, the n-th message enqueued. */
  function SentBy(before: seq<Event>, e: Event): Option<Sent> {
    match e
    case SendArm(result) =>
      if SendReady(before) then Some(Business(Put(Enqueued(before)[Dequeued(before)], result))) else None
    case HeartbeatArm(result) => Some(Heartbeat(Put(HEARTBEAT, result)))
    case _ => None
  }

  function Log(events: seq<Event>): seq<Sent> {
    if |events| == 0 then []
    else
      match SentBy(events[..|events| - 1], events[|events| - 1])
      case None => Log(events[..|events| - 1])
      case Some(sent) => Log(events[..|events| - 1]) + [sent]
  }

  function Entries(log: seq<Sent>): seq<Entry> {
    if |log| == 0 then [] else Entries(log[..|log| - 1]) + [log[|log| - 1].entry]
  }

  /** The messages of the send arm whose frames are whole. */
  function Businesses(log: seq<Sent>): seq<Message> {
    if |log| == 0 then []
    else
      var last := log[|log| - 1];
      Businesses(log[..|log| - 1]) + (if last.Business? && Whole(last.entry) then [last.entry.msg] else [])
  }

  /** The event that follows ends the loop. */
  predicate Ends(before: seq<Event>, e: Event) {
    match e
    case Enqueue(_) => false
    case SendArm(result) => SendReady(before) && result.Failed?
    case HeartbeatArm(result) => result.Failed?
    case ReadArm(chunk) => chunk == [] || !Parse(BytesRead(before) + chunk).ok
    case ReadError => true
  }

  /** No event has ended the loop. */
  predicate Alive(events: seq<Event>) {
    |events| == 0 || (Alive(events[..|events| - 1]) && !Ends(events[..|events| - 1], events[|events| - 1]))
  }

  /** Only the last event may have ended the loop. */
  predicate Reached(events: seq<Event>) {
    |events| == 0 || Alive(events[..|events| - 1])
  }

  predicate WriteFailed(events: seq<Event>) {
    && |events| > 0 && (events[|events| - 1].SendArm? || events[|events| - 1].HeartbeatArm?)
    && events[|events| - 1].result.Failed?
  }

  lemma PastGrows(past: seq<Event>, e: Event)
    ensures Enqueued(past + [e]) == if e.Enqueue? then Enqueued(past) + [e.msg] else Enqueued(past)
    ensures BytesRead(past + [e]) == if e.ReadArm? then BytesRead(past) + e.chunk else BytesRead(past)
    ensures Dequeued(past + [e]) == Dequeued(past) + if e.SendArm? && SendReady(past) then 1 else 0
    ensures Log(past + [e]) == match SentBy(past, e) case None => Log(past) case Some(sent) => Log(past) + [sent]
    ensures Alive(past + [e]) <==> Alive(past) && !Ends(past, e)
  {
    InitOfAppend(past, e);
    EmptyRight(Enqueued(past));
    EmptyRight(BytesRead(past));
  }

  lemma EntriesGrow(log: seq<Sent>, s: Sent)
    requires Sound(Entries(log)) && s.entry.sent <= Size(s.entry.msg)
    ensures Entries(log + [s]) == Entries(log) + [s.entry] && Sound(Entries(log + [s]))
    ensures Wire(Entries(log + [s])) == Wire(Entries(log)) + Frame(s.entry.msg)[..s.entry.sent]
    ensures Messages(Entries(log + [s])) == Messages(Entries(log)) + [s.entry.msg]
    ensures Businesses(log + [s]) == if s.Business? && Whole(s.entry) then Businesses(log) + [s.entry.msg] else Businesses(log)
  {
    InitOfAppend(log, s);
    EmptyRight(Businesses(log));
    LogGrows(Entries(log), s.entry);
  }

  // ---------- What a schedule puts on the wire ----------

  lemma {:induction false} LogIsSound(past: seq<Event>)
    ensures Dequeued(past) <= |Enqueued(past)| && Sound(Entries(Log(past)))
    ensures AllSendable(Enqueued(past)) ==> AllSendable(Messages(Entries(Log(past))))
  {
    if |past| > 0 {
      var before, e := past[..|past| - 1], past[|past| - 1];
      InitLast(past);
      LogIsSound(before);
      hide Enqueued, Log, Entries, Dequeued, Messages, Frame, Wire, Sound, Businesses;
      PastGrows(before, e);
      var s := SentBy(before, e);
      if s.Some? {
        EntriesGrow(Log(before), s.value);
      }
    }
  }

  /** The whole frames of the send arm are the first `n` messages enqueued. */
  predicate SentFirst(past: seq<Event>, n: int) {
    0 <= n <= |Enqueued(past)| && Businesses(Log(past)) == Enqueued(past)[..n]
  }

  lemma CutsStep(past: seq<Event>, e: Event)
    requires NoTear(Entries(Log(past))) && !HasCut(Entries(Log(past)))
    ensures NoTear(Entries(Log(past + [e])))
    ensures HasCut(Entries(Log(past + [e]))) ==> WriteFailed(past + [e]) && Ends(past, e)
  {
    LogIsSound(past);
    PastGrows(past, e);
    hide Enqueued, Log, Entries, Dequeued, Messages, Frame, Wire, Sound, Businesses, NoTear, HasCut;
    var s := SentBy(past, e);
    if s.Some? {
      EntriesGrow(Log(past), s.value);
      CutsGrow(Entries(Log(past)), s.value.entry);
    }
  }

  lemma BusinessStep(past: seq<Event>, e: Event)
    requires SentFirst(past, Dequeued(past))
    ensures var n := Dequeued(past + [e]);
            SentFirst(past + [e], if WriteFailed(past + [e]) && n > Dequeued(past) then n - 1 else n)
    ensures Dequeued(past + [e]) > Dequeued(past) && WriteFailed(past + [e]) ==> Ends(past, e)
  {
    LogIsSound(past);
    PastGrows(past, e);
    hide Enqueued, Log, Entries, Dequeued, Messages, Frame, Wire, Sound, Businesses;
    var s, q, n := SentBy(past, e), Enqueued(past), Dequeued(past);
    if s.Some? {
      EntriesGrow(Log(past), s.value);
      if n < |q| {
        TakeNext(q, n);
      }
    } else if e.Enqueue? {
      assert (q + [e.msg])[..n] == q[..n];
    }
  }

  /** No frame is cut but the last, by the write that ended the loop; and the whole frames of the send
      arm are exactly the messages dequeued, in order, but for that last one. */
  lemma {:induction false} LogLaw(past: seq<Event>)
    requires Reached(past)
    ensures NoTear(Entries(Log(past))) && (HasCut(Entries(Log(past))) ==> WriteFailed(past) && !Alive(past))
    ensures SentFirst(past, Dequeued(past)) || (WriteFailed(past) && !Alive(past) && SentFirst(past, Dequeued(past) - 1))
  {
    if |past| > 0 {
      var before, e := past[..|past| - 1], past[|past| - 1];
      InitLast(past);
      LogLaw(before);
      hide SentFirst, NoTear, HasCut, Entries, Log;
      CutsStep(before, e);
      BusinessStep(before, e);
    }
  }

  function HeartbeatArms(events: seq<Event>): nat {
    if |events| == 0 then 0
    else HeartbeatArms(events[..|events| - 1]) + (if events[|events| - 1].HeartbeatArm? then 1 else 0)
  }

  /** The frames of the heartbeat arm are heartbeats, one each time it is taken. */
  lemma {:induction false} HeartbeatsAreSent(past: seq<Event>)
    ensures forall s | s in Log(past) && s.Heartbeat? :: s.entry.msg == HEARTBEAT
    ensures |Log(past)| == Dequeued(past) + HeartbeatArms(past)
  {
    if |past| > 0 {
      HeartbeatsAreSent(past[..|past| - 1]);
    }
  }

  lemma BadBytesStayBad(past: seq<Event>, e: Event)
    requires !Parse(BytesRead(past)).ok
    ensures !Parse(BytesRead(past + [e])).ok
  {
    PastGrows(past, e);
    if e.ReadArm? {
      ParseAppendDead(BytesRead(past), e.chunk);
    }
  }

  /** Exactly when the loop goes on: every write put out its whole frame, no read failed or found the
      end of the stream, and the bytes read hold no bad header. */
  lemma {:induction false} AliveExactly(past: seq<Event>)
    ensures Alive(past) <==>
            && (forall s | s in Log(past) :: Whole(s.entry))
            && ReadError !in past && ReadArm([]) !in past && Parse(BytesRead(past)).ok
  {
    if |past| > 0 {
      var before, e := past[..|past| - 1], past[|past| - 1];
      InitLast(past);
      AliveExactly(before);
      PastGrows(before, e);
      assert forall x :: x in past <==> x in before || x == e;
      if !Parse(BytesRead(before)).ok {
        BadBytesStayBad(before, e);
      }
      hide Log, Alive, Parse, BytesRead, Enqueued, Dequeued;
      LastSent(before, e);
    }
  }

  lemma LastSent(past: seq<Event>, e: Event)
    ensures (forall s | s in Log(past + [e]) :: Whole(s.entry)) <==>
            (forall s | s in Log(past) :: Whole(s.entry)) && (SentBy(past, e).Some? ==> Whole(SentBy(past, e).value.entry))
  {
    PastGrows(past, e);
    var log := Log(past);
    hide Log, SentBy, Whole;
    if SentBy(past, e).Some? {
      var s := SentBy(past, e).value;
      assert forall x :: x in log + [s] <==> x in log || x == s;
    }
  }

  predicate SendArmsOnly(events: seq<Event>) {
    forall e | e in events :: e == SendArm(Written)
  }

  /** The send arm empties the channel: taken as often as there are messages waiting, it has sent them all. */
  lemma {:induction false} DrainsTheChannel(past: seq<Event>, more: seq<Event>)
    requires SendArmsOnly(more) && |more| == |Enqueued(past)| - Dequeued(past)
    ensures Enqueued(past + more) == Enqueued(past) && Dequeued(past + more) == |Enqueued(past)|
    ensures Alive(past) ==> Alive(past + more)
    decreases |more|
  {
    if |more| == 0 {
      EmptyRight(past);
    } else {
      PastGrows(past, more[0]);
      assert more[0] in more && forall e | e in more[1..] :: e in more;
      DrainsTheChannel(past + [more[0]], more[1..]);
      assert past + [more[0]] + more[1..] == past + more;
    }
  }

  class TcpClient {
    var running: bool
    // the bytes written to the stream
    var wire: seq<byte>
    var rx: seq<Message>
    var readBuf: seq<byte>
    // the calls of `on_data`, in order
    var delivered: seq<Message>

    // the events so far
    ghost var past: seq<Event>

    ghost predicate WireOk()
      reads this
    {
      Sound(Entries(Log(past))) && wire == Wire(Entries(Log(past)))
    }

    /** The channel is a queue. */
    ghost predicate QueueOk()
      reads this
    {
      Dequeued(past) <= |Enqueued(past)| && rx == Enqueued(past)[Dequeued(past)..]
    }

    /** The reading side is the specification decoder, whatever the other arms did. */
    ghost predicate ReadOk()
      reads this
    {
      && delivered == Decode(BytesRead(past))
      && (running ==> Parse(BytesRead(past)).ok && readBuf == Parse(BytesRead(past)).rest)
    }

    ghost predicate Valid()
      reads this
    {
      running == Alive(past) && WireOk() && QueueOk() && ReadOk()
    }

    constructor ()
      ensures Valid() && running && past == []
    {
      running, wire, rx, readBuf, delivered, past := true, [], [], [], [], [];
    }

    /** `pack_message` truncates the length to 32 bits. */
    method PackMessage(data: Message) returns (buf: seq<byte>)
      ensures buf == Frame(data)
    {
      var len := |data| % TWO_TO_THE_32;
      buf := MAGIC;
      buf := buf + BigEndian(len);
      buf := buf + data;
    }

    method Write(packet: seq<byte>, result: WriteResult)
      requires running && |packet| > 0
      modifies this`wire, this`running
      ensures running == result.Written?
      ensures result.Written? ==> wire == old(wire) + packet
      ensures result.Failed? ==> wire == old(wire) + packet[..if result.n < |packet| then result.n else |packet| - 1]
    {
      match result
      case Written => wire := wire + packet;
      case Failed(n) =>
        wire := wire + packet[..if n < |packet| then n else |packet| - 1];
        running := false;
    }

    method SendPacket(data: Message, result: WriteResult)
      requires running
      modifies this`wire, this`running
      ensures running == result.Written? && wire == old(wire) + Frame(data)[..Put(data, result).sent]
    {
      var packet := PackMessage(data);
      TakeAll(packet);
      Write(packet, result);
    }

    /** Another task's `tx.send`. */
    method EnqueueMessage(msg: Message)
      requires Valid() && running
      modifies this`rx, this`past
      ensures Valid() && past == old(past) + [Enqueue(msg)]
    {
      hide Log, Entries, Wire, Sound, Frames, Parse, Deliver, Enqueued, Dequeued, BytesRead, Alive;
      PastGrows(past, Enqueue(msg));
      DropAppend(Enqueued(past), Dequeued(past), msg);
      rx := rx + [msg];
      past := past + [Enqueue(msg)];
    }

    method TakeSendArm(result: WriteResult)
      requires Valid() && running
      modifies this`wire, this`running, this`rx, this`past
      ensures Valid() && past == old(past) + [SendArm(result)]
    {
      ghost var e := SendArm(result);
      PastGrows(past, e);
      hide Log, Entries, Wire, Sound, Frames, Parse, Deliver, Enqueued, Dequeued, BytesRead, Alive, Businesses, Messages;
      if |rx| > 0 {
        var data := rx[0];
        DropDrop(Enqueued(past), Dequeued(past), 1);
        EntriesGrow(Log(past), Business(Put(data, result)));
        rx := rx[1..];
        SendPacket(data, result);
      }
      past := past + [e];
    }

    method TakeHeartbeatArm(result: WriteResult)
      requires Valid() && running
      modifies this`wire, this`running, this`past
      ensures Valid() && past == old(past) + [HeartbeatArm(result)]
    {
      ghost var e := HeartbeatArm(result);
      PastGrows(past, e);
      hide Log, Entries, Wire, Sound, Frames, Parse, Deliver, Enqueued, Dequeued, BytesRead, Alive, Businesses, Messages;
      EntriesGrow(Log(past), Heartbeat(Put(HEARTBEAT, result)));
      SendPacket(HEARTBEAT, result);
      past := past + [e];
    }

    method ProcessBuffer()
      requires running
      modifies this`running, this`readBuf, this`delivered
      ensures delivered == old(delivered) + Decode(old(readBuf))
      ensures running == Parse(old(readBuf)).ok && readBuf == Parse(old(readBuf)).rest
    {
      ghost var whole := readBuf;
      while true
        invariant Parse(whole).rest == Parse(readBuf).rest && Parse(whole).ok == Parse(readBuf).ok
        invariant delivered + Decode(readBuf) == old(delivered) + Decode(whole)
        invariant running
        decreases |readBuf|
      {
        if |readBuf| < HEADER_LEN {
          break;
        }
        if readBuf[..4] != MAGIC {
          running := false;
          return;
        }
        var len := Unsigned(readBuf[4..HEADER_LEN]);
        if len == 0 || len > MAX_MSG_SIZE {
          running := false;
          return;
        }
        var totalLen := HEADER_LEN + len;
        if |readBuf| < totalLen {
          break;
        }
        ghost var last := readBuf;
        var msg := readBuf[HEADER_LEN..totalLen];
        readBuf := readBuf[totalLen..];
        DecodeStep(last, msg, readBuf, _ => false);
        if msg != HEARTBEAT_RESPONSE {
          delivered := delivered + [msg];
        }
      }
    }

    method TakeReadArm(chunk: seq<byte>)
      requires Valid() && running
      modifies this`running, this`readBuf, this`delivered, this`past
      ensures Valid() && past == old(past) + [ReadArm(chunk)]
    {
      ghost var e := ReadArm(chunk);
      PastGrows(past, e);
      EmptyRight(BytesRead(past));
      hide Log, Entries, Wire, Sound, Frames, Parse, Deliver, Enqueued, Dequeued, BytesRead, Alive;
      if chunk == [] {
        running := false;
      } else {
        DecodeAppend(BytesRead(past), chunk);
        readBuf := readBuf + chunk;
        ProcessBuffer();
      }
      past := past + [e];
    }

    method TakeArm(e: Event)
      requires Valid() && running
      modifies this
      ensures Valid() && past == old(past) + [e]
    {
      match e
      case Enqueue(m) => EnqueueMessage(m);
      case SendArm(result) => TakeSendArm(result);
      case HeartbeatArm(result) => TakeHeartbeatArm(result);
      case ReadArm(chunk) => TakeReadArm(chunk);
      case ReadError =>
        PastGrows(past, e);
        running := false;
        past := past + [e];
    }

    /** Every schedule of the arms, until one of them ends the loop after `k` events. The wire holds
        what the arms put out, in their order: whole frames, and a part of one more exactly when its
        write ended the loop. The whole frames of the send arm are the messages dequeued, and the
        channel holds the rest; what was delivered depends only on the bytes read. */
    method Run(schedule: seq<Event>) returns (k: nat)
      requires Valid() && running && past == []
      modifies this
      ensures k <= |schedule| && (k < |schedule| ==> !running)
      ensures running == Alive(schedule[..k]) && Reached(schedule[..k])
      ensures var log := Log(schedule[..k]);
              && Sound(Entries(log)) && wire == Wire(Entries(log))
              && wire == Frames(Completed(Entries(log))) + Tail(Entries(log))
              && (Tail(Entries(log)) != [] ==> WriteFailed(schedule[..k]))
              && (AllSendable(Enqueued(schedule[..k])) ==>
                    Parse(wire) == Parsed(Completed(Entries(log)), Tail(Entries(log)), true))
      ensures var q, n := Enqueued(schedule[..k]), Dequeued(schedule[..k]);
              && n <= |q| && rx == q[n..]
              && (SentFirst(schedule[..k], n) || (WriteFailed(schedule[..k]) && SentFirst(schedule[..k], n - 1)))
      ensures delivered == Decode(BytesRead(schedule[..k]))
      ensures running ==> readBuf == Parse(BytesRead(schedule[..k])).rest
    {
      k := 0;
      TakeAll(schedule);
      hide Log, Entries, Wire, Sound, Frames, Parse, Deliver, Enqueued, Dequeued, BytesRead, Alive, Businesses, Completed, Tail;
      while running && k < |schedule|
        invariant k <= |schedule| && Valid() && past == schedule[..k]
        invariant Reached(schedule[..k])
      {
        TakeNext(schedule, k);
        TakeArm(schedule[k]);
        k := k + 1;
      }
      LogLaw(past);
      LogIsSound(past);
      var log := Entries(Log(past));
      WholeFramesIffNoTear(log);
      NothingCutMeansNoTail(log);
      if AllSendable(Enqueued(past)) {
        ReceiverGetsWholeFrames(log);
      }
    }
  }
}
