/** Every interleaving of the responser's receive thread, its worker, the heartbeat timer and a
    `disconnect`. Each `sendall` puts out a whole frame or fails having written nothing. */
module ResponserRuns {
  import opened Seqs
  import opened Options
  import opened Framing
  import opened Receivers
  import opened Envelope
  import opened Responser
  import opened Runs

  datatype Receiving = Reading | Draining | Exited

  datatype Worker = Looping | Getting | Busy(request: Request) | Stopped

  datatype State = State(
    connected: bool,
    receiving: Receiving,
    buffer: seq<byte>,
    queue: seq<Request>,
    worker: Worker,
    wire: seq<byte>,
    // history: bytes read, messages written, entries the worker took and those it dealt with
    received: seq<byte>,
    log: seq<Message>,
    taken: seq<Request>,
    answered: nat)

  /** After `init` has sent the registration. */
  function Registered(key: Message): State {
    State(true, Reading, [], [], Looping, Frame(key), [], [key], [], 0)
  }

  datatype Action =
    | Read(chunk: seq<byte>)
    | StopReading            // end of the stream, a failed `recv`, or `connected` found false
    | Extract                // one round of `_process_buffer`, with the callback
    | TestConnected          // the loop condition of the worker
    | Get
    | GetTimesOut
    | Handle(sendOk: bool)
    | Heartbeat(sendOk: bool)
    | Disconnect

  function Step(app: App, s: State, a: Action): Option<State> {
    match a
    case Read(chunk) =>
      if s.receiving.Reading? && chunk != [] then
        Some(s.(receiving := Draining, buffer := s.buffer + chunk, received := s.received + chunk))
      else None
    case StopReading =>
      if s.receiving.Reading? then Some(s.(receiving := Exited, connected := false)) else None
    case Extract => if s.receiving.Draining? then Some(ExtractStep(app, s)) else None
    case TestConnected =>
      if s.worker.Looping? then Some(s.(worker := if s.connected then Getting else Stopped)) else None
    case Get =>
      if s.worker.Getting? && s.queue != [] then
        Some(s.(worker := Busy(s.queue[0]), queue := s.queue[1..], taken := s.taken + [s.queue[0]]))
      else None
    case GetTimesOut =>
      if s.worker.Getting? && s.queue == [] then Some(s.(worker := Looping)) else None
    case Handle(sendOk) => if s.worker.Busy? then Some(HandleStep(app, s, s.worker.request, sendOk)) else None
    case Heartbeat(sendOk) => if s.connected then Some(SendStep(s, HEARTBEAT, sendOk)) else None
    case Disconnect => Some(s.(connected := false))
  }

  function ExtractStep(app: App, s: State): State {
    if Partial(s.buffer) then s.(receiving := Reading)
    else if BadHeader(s.buffer) then s.(receiving := Exited, connected := false)
    else
      var n := HEADER_LEN + BodyLength(s.buffer);
      var msg := s.buffer[HEADER_LEN..n];
      s.(buffer := s.buffer[n..],
         queue := s.queue + if msg == HEARTBEAT_RESPONSE then [] else RequestOf(app, msg))
  }

  /** `_write_with_length_prefix` on a connected client, for a message that is not too long. */
  function SendStep(s: State, m: Message, sendOk: bool): State {
    if sendOk then s.(wire := s.wire + Frame(m), log := s.log + [m]) else s.(connected := false)
  }

  function HandleStep(app: App, s: State, q: Request, sendOk: bool): State {
    match app.handle(q.payload)
    case Raises => s.(worker := Stopped)
    case NoReply => s.(worker := Looping, answered := s.answered + 1)
    case Reply(body) =>
      var m := Join(q.key, body);
      if !s.connected then s.(worker := Looping)
      else if |m| > MAX_MSG_SIZE then s.(worker := Stopped)
      else
        var t := SendStep(s, m, sendOk);
        t.(worker := Looping, answered := if sendOk then s.answered + 1 else s.answered)
  }

  function StepOf(app: App): (State, Action) -> Option<State> {
    (s, a) => Step(app, s, a)
  }

  /** After a registration with `key` and the actions. */
  function After(app: App, key: Message, acts: seq<Action>): Option<State> {
    Run(StepOf(app), Registered(key), acts)
  }

  /** A list of messages without the heartbeats in it. */
  function Beatless(ms: seq<Message>): seq<Message> {
    if |ms| == 0 then []
    else Beatless(ms[..|ms| - 1]) + (if ms[|ms| - 1] == HEARTBEAT then [] else [ms[|ms| - 1]])
  }

  // ---------- Invariants ----------

  /** Every request in the bytes read is taken, queued or still in the buffer, in that order. */
  ghost predicate InputOk(app: App, s: State) {
    && RequestsIn(app, s.received) == s.taken + (s.queue + RequestsIn(app, s.buffer))
    && Parse(s.received).rest == Parse(s.buffer).rest && Parse(s.received).ok == Parse(s.buffer).ok
    && (s.receiving.Reading? ==> Partial(s.buffer))
  }

  /** The worker deals with entries in order; only the last one taken may be left unanswered, by a
      worker that is busy with it, stopped, or about to find the connection gone. */
  ghost predicate WorkerOk(app: App, s: State) {
    && s.answered <= |s.taken| <= s.answered + 1
    && (s.worker.Getting? ==> s.answered == |s.taken|)
    && (s.worker.Looping? && s.connected ==> s.answered == |s.taken|)
    && (s.worker.Busy? ==> s.answered + 1 == |s.taken| && s.taken[s.answered] == s.worker.request)
    && (s.worker.Stopped? ==> !s.connected || (s.answered + 1 == |s.taken| && Kills(app, s.taken[s.answered])))
  }

  /** But for heartbeats, what was written is the registration and then the replies to the entries
      dealt with. */
  ghost predicate OutputOk(app: App, key: Message, s: State) {
    && s.answered <= |s.taken|
    && Beatless(s.log) == Beatless([key]) + AnswersTo(app, s.taken[..s.answered])
    && s.wire == Frames(s.log) && AllSendable(s.log)
  }

  lemma ReadKeepsInput(app: App, s: State, chunk: seq<byte>)
    requires InputOk(app, s) && Step(app, s, Read(chunk)).Some?
    ensures InputOk(app, Step(app, s, Read(chunk)).value)
  {
    assert Decode(s.buffer) == [] && Parse(s.buffer) == Parsed([], s.buffer, true);
    var more := Decode(s.buffer + chunk);
    DecodeAppend(s.received, chunk);
    RequestsAppend(app, Decode(s.received), more);
    var r := RequestsIn(app, s.received);
    hide Requests, Deliver, Parse;
    EmptyRight(s.queue);
    Assoc(s.taken, s.queue, Requests(app, more));
  }

  lemma ExtractKeepsInput(app: App, s: State)
    requires InputOk(app, s) && s.receiving.Draining?
    ensures InputOk(app, ExtractStep(app, s))
  {
    if !Partial(s.buffer) && !BadHeader(s.buffer) {
      var n := HEADER_LEN + BodyLength(s.buffer);
      var msg, rest := s.buffer[HEADER_LEN..n], s.buffer[n..];
      DecodeStep(s.buffer, msg, rest, _ => false);
      FirstRequest(app, s.buffer, msg, rest);
      hide RequestsIn, RequestOf, Parse, Decode, Partial, BadHeader;
      var one := if msg == HEARTBEAT_RESPONSE then [] else RequestOf(app, msg);
      Assoc(s.queue, one, RequestsIn(app, rest));
    }
  }

  lemma FirstRequest(app: App, s: seq<byte>, msg: Message, t: seq<byte>)
    requires msg == HEARTBEAT_RESPONSE ==> Decode(s) == Decode(t)
    requires msg != HEARTBEAT_RESPONSE ==> [] + Decode(s) == ([] + [msg]) + Decode(t)
    ensures RequestsIn(app, s) ==
            (if msg == HEARTBEAT_RESPONSE then [] else RequestOf(app, msg)) + RequestsIn(app, t)
  {
    if msg == HEARTBEAT_RESPONSE {
      EmptyLeft(RequestsIn(app, t));
    } else {
      EmptyLeft(Decode(s));
      EmptyLeft([msg]);
      RequestsAppend(app, [msg], Decode(t));
      RequestsOne(app, msg);
    }
  }

  lemma StepKeepsInput(app: App, s: State, a: Action)
    requires InputOk(app, s) && Step(app, s, a).Some?
    ensures InputOk(app, Step(app, s, a).value)
  {
    hide RequestsIn, Parse, Decode, Partial, ExtractStep, HandleStep;
    match a
    case Read(chunk) => ReadKeepsInput(app, s, chunk);
    case Extract => ExtractKeepsInput(app, s);
    case Get => GetKeepsInput(app, s);
    case StopReading =>
    case TestConnected =>
    case GetTimesOut =>
    case Handle(sendOk) => HandleKeepsInput(app, s, s.worker.request, sendOk);
    case Heartbeat(_) =>
    case Disconnect =>
  }

  predicate SameInput(s: State, t: State) {
    t.received == s.received && t.taken == s.taken && t.queue == s.queue && t.buffer == s.buffer && t.receiving == s.receiving
  }

  lemma HandleKeepsInput(app: App, s: State, q: Request, sendOk: bool)
    ensures SameInput(s, HandleStep(app, s, q, sendOk))
  {
  }

  lemma GetKeepsInput(app: App, s: State)
    requires InputOk(app, s) && Step(app, s, Get).Some?
    ensures InputOk(app, Step(app, s, Get).value)
  {
    hide RequestsIn, Parse, Partial;
    HeadTail(s.queue);
    Assoc([s.queue[0]], s.queue[1..], RequestsIn(app, s.buffer));
    Assoc(s.taken, [s.queue[0]], s.queue[1..] + RequestsIn(app, s.buffer));
  }

  lemma StepKeepsWorker(app: App, s: State, a: Action)
    requires WorkerOk(app, s) && Step(app, s, a).Some?
    ensures WorkerOk(app, Step(app, s, a).value)
  {
  }

  lemma LogGrows(log: seq<Message>, m: Message)
    ensures Beatless(log + [m]) == if m == HEARTBEAT then Beatless(log) else Beatless(log) + [m]
    ensures Frames(log + [m]) == Frames(log) + Frame(m)
  {
    InitOfAppend(log, m);
    FramesAppend(log, [m]);
    FramesOne(m);
    EmptyRight(Beatless(log));
  }

  /** A reply has a delimiter in it, which a heartbeat has not. */
  lemma ReplyIsNoHeartbeat(key: seq<byte>, body: seq<byte>)
    ensures Join(key, body) != HEARTBEAT
  {
    assert Join(key, body)[|key|] == DELIMITER[0];
    assert DELIMITER[0] !in HEARTBEAT;
  }

  lemma AnswersGrow(app: App, qs: seq<Request>, n: nat)
    requires n < |qs|
    ensures AnswersTo(app, qs[..n + 1]) == AnswersTo(app, qs[..n]) + AnswerTo(app, qs[n])
  {
    TakeNext(qs, n);
  }

  lemma HandleKeepsOutput(app: App, key: Message, s: State, sendOk: bool)
    requires WorkerOk(app, s) && OutputOk(app, key, s) && s.worker.Busy?
    ensures OutputOk(app, key, HandleStep(app, s, s.worker.request, sendOk))
  {
    hide Frames, Beatless, AnswersTo;
    var q := s.worker.request;
    AnswersGrow(app, s.taken, s.answered);
    EmptyRight(AnswersTo(app, s.taken[..s.answered]));
    if app.handle(q.payload).Reply? {
      var m := Join(q.key, app.handle(q.payload).body);
      ReplyIsNoHeartbeat(q.key, app.handle(q.payload).body);
      LogGrows(s.log, m);
      Assoc(Beatless([key]), AnswersTo(app, s.taken[..s.answered]), [m]);
    }
  }

  lemma HeartbeatKeepsOutput(app: App, key: Message, s: State, sendOk: bool)
    requires OutputOk(app, key, s)
    ensures OutputOk(app, key, SendStep(s, HEARTBEAT, sendOk))
  {
    hide Frames, Beatless, AnswersTo;
    LogGrows(s.log, HEARTBEAT);
  }

  lemma StepKeepsOutput(app: App, key: Message, s: State, a: Action)
    requires WorkerOk(app, s) && OutputOk(app, key, s) && Step(app, s, a).Some?
    ensures OutputOk(app, key, Step(app, s, a).value)
  {
    hide Frames, Beatless, AnswersTo, Parse, HandleStep, AllSendable;
    match a
    case Handle(sendOk) => HandleKeepsOutput(app, key, s, sendOk);
    case Heartbeat(_) => HeartbeatKeepsOutput(app, key, s, a.sendOk);
    case Get => assert (s.taken + [s.queue[0]])[..s.answered] == s.taken[..s.answered];
    case Read(_) =>
    case StopReading =>
    case Extract =>
    case TestConnected =>
    case GetTimesOut =>
    case Disconnect =>
  }

  ghost predicate Valid(app: App, key: Message, s: State) {
    InputOk(app, s) && WorkerOk(app, s) && OutputOk(app, key, s)
  }

  lemma RegisteredIsValid(app: App, key: Message)
    requires Sendable(key)
    ensures Valid(app, key, Registered(key))
  {
    FramesOne(key);
    EmptyRight(Beatless([key]));
  }

  lemma {:induction false} RunKeepsValid(app: App, key: Message, acts: seq<Action>)
    requires Sendable(key) && After(app, key, acts).Some?
    ensures Valid(app, key, After(app, key, acts).value)
  {
    if |acts| == 0 {
      RegisteredIsValid(app, key);
    } else {
      var before, a := acts[..|acts| - 1], acts[|acts| - 1];
      RunKeepsValid(app, key, before);
      var s := After(app, key, before).value;
      hide InputOk, WorkerOk, OutputOk, Step;
      StepKeepsInput(app, s, a);
      StepKeepsWorker(app, s, a);
      StepKeepsOutput(app, key, s, a);
    }
  }

  // ---------- Main results ----------

  /** The transducer: in every run what the peer decodes is, but for the heartbeats in it, the
      registration followed by the replies that the first `answered` requests of the bytes read
      deserve, in arrival order and nothing else; and the wire is whole frames. */
  lemma Transducer(app: App, key: Message, acts: seq<Action>)
    requires Sendable(key) && After(app, key, acts).Some?
    ensures var s := After(app, key, acts).value;
            && s.answered <= |RequestsIn(app, s.received)|
            && Parse(s.wire).ok && Parse(s.wire).rest == [] && s.wire == Frames(Parse(s.wire).frames)
            && Beatless(Parse(s.wire).frames)
               == Beatless([key]) + AnswersTo(app, RequestsIn(app, s.received)[..s.answered])
            && Carries(AnswersTo(app, RequestsIn(app, s.received)[..s.answered]),
                       Deserved(app, RequestsIn(app, s.received)[..s.answered]))
    ensures key != HEARTBEAT ==> Beatless([key]) == [key]
  {
    RunKeepsValid(app, key, acts);
    var s := After(app, key, acts).value;
    var rest := s.queue + RequestsIn(app, s.buffer);
    assert (s.taken + rest)[..s.answered] == s.taken[..s.answered];
    ParseComplete(s.log, []);
    EmptyRight(s.wire);
    RequestKeysFit(app, Decode(s.received));
    AnswersCarryTheirKeys(app, RequestsIn(app, s.received)[..s.answered]);
  }

  /** Fed any part of a stream of request frames, in any chunks, it answers a prefix of those
      requests. */
  lemma AnswersAPrefix(app: App, key: Message, acts: seq<Action>, ms: seq<Message>)
    requires Sendable(key) && AllSendable(ms) && After(app, key, acts).Some?
    requires After(app, key, acts).value.received <= Frames(ms)
    ensures var s, qs := After(app, key, acts).value, Requests(app, Deliver(ms));
            && s.answered <= |qs|
            && Beatless(Parse(s.wire).frames) == Beatless([key]) + AnswersTo(app, qs[..s.answered])
            && Carries(AnswersTo(app, qs[..s.answered]), Deserved(app, qs[..s.answered]))
  {
    Transducer(app, key, acts);
    var s := After(app, key, acts).value;
    PrefixHasPrefixOfRequests(app, s.received, ms);
    var got, all := RequestsIn(app, s.received), Requests(app, Deliver(ms));
    assert all[..s.answered] == got[..s.answered];
  }

  lemma PrefixHasPrefixOfRequests(app: App, s: seq<byte>, ms: seq<Message>)
    requires AllSendable(ms) && s <= Frames(ms)
    ensures RequestsIn(app, s) <= Requests(app, Deliver(ms))
  {
    PrefixDecodesToPrefix(ms, s);
    var got := Decode(s);
    var later := Deliver(ms)[|got|..];
    assert Deliver(ms) == got + later;
    RequestsAppend(app, got, later);
  }

  /** Nothing is lost while the connection holds: once the buffer holds no whole frame, the queue is
      empty and the worker is idle, every request read has been answered. */
  lemma QuiescentMeansAllAnswered(app: App, key: Message, acts: seq<Action>)
    requires Sendable(key) && After(app, key, acts).Some?
    requires var s := After(app, key, acts).value;
             s.connected && s.receiving.Reading? && s.queue == [] && (s.worker.Looping? || s.worker.Getting?)
    ensures var s := After(app, key, acts).value;
            && Beatless(Parse(s.wire).frames) == Beatless([key]) + AnswersTo(app, RequestsIn(app, s.received))
            && Carries(AnswersTo(app, RequestsIn(app, s.received)), Deserved(app, RequestsIn(app, s.received)))
  {
    Transducer(app, key, acts);
    RunKeepsValid(app, key, acts);
    var s := After(app, key, acts).value;
    assert Decode(s.buffer) == [] && RequestsIn(app, s.buffer) == [];
    EmptyRight(s.taken);
    TakeAll(s.taken);
  }

  /** While the connection holds, nothing but a request whose handler raises, or whose reply is too
      long, ends the worker. */
  lemma OnlyARequestEndsTheWorker(app: App, key: Message, acts: seq<Action>)
    requires Sendable(key) && After(app, key, acts).Some?
    requires After(app, key, acts).value.worker.Stopped? && After(app, key, acts).value.connected
    ensures var s := After(app, key, acts).value;
            s.answered < |RequestsIn(app, s.received)| && Kills(app, RequestsIn(app, s.received)[s.answered])
  {
    RunKeepsValid(app, key, acts);
  }

  /** What ends the connection: a `disconnect`, the end of the stream, a bad header, or a failed send. */
  predicate Breaks(app: App, s: State, a: Action) {
    match a
    case StopReading => true
    case Disconnect => true
    case Extract => BadHeader(s.buffer)
    case Heartbeat(sendOk) => !sendOk
    case Handle(sendOk) =>
      && !sendOk && s.connected && s.worker.Busy? && app.handle(s.worker.request.payload).Reply?
      && |Join(s.worker.request.key, app.handle(s.worker.request.payload).body)| <= MAX_MSG_SIZE
    case _ => false
  }

  function BreaksOf(app: App): (State, Action) -> bool {
    (s, a) => Breaks(app, s, a)
  }

  lemma ConnectedStep(app: App, s: State, a: Action)
    requires Step(app, s, a).Some?
    ensures Step(app, s, a).value.connected <==> s.connected && !Breaks(app, s, a)
    ensures !s.connected ==> Step(app, s, a).value.wire == s.wire
  {
    hide Partial, BadHeader, RequestOf;
    PartialIsNotBad(s.buffer);
  }

  lemma PartialIsNotBad(s: seq<byte>)
    ensures Partial(s) ==> !BadHeader(s)
  {
  }

  /** The responser is connected exactly until one of these happens. */
  lemma {:induction false} ConnectedExactly(app: App, key: Message, acts: seq<Action>)
    requires After(app, key, acts).Some?
    ensures After(app, key, acts).value.connected <==> !Happens(StepOf(app), Registered(key), acts, BreaksOf(app))
  {
    if |acts| > 0 {
      var before, a := acts[..|acts| - 1], acts[|acts| - 1];
      InitLast(acts);
      ConnectedExactly(app, key, before);
      HappensGrows(StepOf(app), Registered(key), before, a, BreaksOf(app));
      hide Step, Breaks, Happens;
      ConnectedStep(app, After(app, key, before).value, a);
    }
  }

  /** From then on it writes nothing, whatever happens. */
  lemma {:induction false} DisconnectedIsSilent(app: App, s: State, acts: seq<Action>)
    requires !s.connected && Run(StepOf(app), s, acts).Some?
    ensures var t := Run(StepOf(app), s, acts).value; !t.connected && t.wire == s.wire
  {
    if |acts| > 0 {
      var before := acts[..|acts| - 1];
      DisconnectedIsSilent(app, s, before);
      hide Step, Breaks;
      ConnectedStep(app, Run(StepOf(app), s, before).value, acts[|acts| - 1]);
    }
  }

  function HeartbeatsSent(acts: seq<Action>): nat {
    if |acts| == 0 then 0
    else HeartbeatsSent(acts[..|acts| - 1]) + (if acts[|acts| - 1] == Heartbeat(true) then 1 else 0)
  }

  lemma SentStep(app: App, s: State, a: Action)
    requires Step(app, s, a).Some?
    ensures multiset(Step(app, s, a).value.log)[HEARTBEAT] ==
            multiset(s.log)[HEARTBEAT] + (if a == Heartbeat(true) then 1 else 0)
  {
    if a.Handle? && app.handle(s.worker.request.payload).Reply? {
      ReplyIsNoHeartbeat(s.worker.request.key, app.handle(s.worker.request.payload).body);
    }
  }

  /** The heartbeats that the peer decodes are those that were sent. */
  lemma {:induction false} HeartbeatsGoOut(app: App, key: Message, acts: seq<Action>)
    requires Sendable(key) && key != HEARTBEAT && After(app, key, acts).Some?
    ensures multiset(Parse(After(app, key, acts).value.wire).frames)[HEARTBEAT] == HeartbeatsSent(acts)
  {
    RunKeepsValid(app, key, acts);
    ParseComplete(After(app, key, acts).value.log, []);
    EmptyRight(After(app, key, acts).value.wire);
    if |acts| > 0 {
      var before := acts[..|acts| - 1];
      HeartbeatsGoOut(app, key, before);
      RunKeepsValid(app, key, before);
      ParseComplete(After(app, key, before).value.log, []);
      EmptyRight(After(app, key, before).value.wire);
      hide Step, Parse, Frames, InputOk, WorkerOk, Beatless;
      SentStep(app, After(app, key, before).value, acts[|acts| - 1]);
    }
  }

  // ---------- Progress ----------

  /** The receive thread can always hand over every request that it has whole. */
  lemma {:induction false} DrainsBuffer(app: App, key: Message, acts: seq<Action>) returns (all: seq<Action>)
    requires Sendable(key) && After(app, key, acts).Some?
    requires var s := After(app, key, acts).value; s.connected && !s.receiving.Exited? && Parse(s.buffer).ok
    ensures acts <= all && After(app, key, all).Some?
    ensures var s, t := After(app, key, acts).value, After(app, key, all).value;
            t.connected && t.receiving.Reading? && t.worker == s.worker && t.received == s.received && t.answered == s.answered
    decreases |After(app, key, acts).value.buffer|
  {
    var s := After(app, key, acts).value;
    if s.receiving.Reading? {
      all := acts;
    } else {
      all := RunThen(StepOf(app), Registered(key), acts, Extract);
      if !Partial(s.buffer) {
        all := DrainsBuffer(app, key, all);
      }
    }
  }

  /** How far the worker is from having dealt with everything in the queue. */
  function WorkLeft(s: State): nat {
    |s.queue| * 3 + (if s.worker.Busy? then 2 else if s.worker.Looping? then 1 else 0)
  }

  /** A step of the worker towards that. */
  function NextWork(s: State): Action {
    if s.worker.Busy? then Handle(true) else if s.worker.Looping? then TestConnected else Get
  }

  lemma WorkStep(app: App, s: State)
    requires WorkerOk(app, s) && s.connected && !s.worker.Stopped?
    requires s.queue != [] || s.worker.Busy?
    requires s.worker.Busy? ==> !Kills(app, s.worker.request)
    ensures Step(app, s, NextWork(s)).Some?
    ensures var t := Step(app, s, NextWork(s)).value;
            && t.connected && !t.worker.Stopped? && t.receiving == s.receiving && t.received == s.received
            && t.answered >= s.answered && WorkLeft(t) < WorkLeft(s)
  {
  }

  /** No request from the next one on ends the worker. */
  ghost predicate Survivable(app: App, s: State) {
    forall i | s.answered <= i < |RequestsIn(app, s.received)| :: !Kills(app, RequestsIn(app, s.received)[i])
  }

  /** The worker can always deal with everything in the queue. */
  lemma {:induction false} WorksOff(app: App, key: Message, acts: seq<Action>) returns (all: seq<Action>)
    requires Sendable(key) && After(app, key, acts).Some?
    requires var s := After(app, key, acts).value; s.connected && !s.worker.Stopped? && Survivable(app, s)
    ensures acts <= all && After(app, key, all).Some?
    ensures var s, t := After(app, key, acts).value, After(app, key, all).value;
            && t.connected && t.receiving == s.receiving && t.received == s.received
            && t.queue == [] && (t.worker.Looping? || t.worker.Getting?)
    decreases WorkLeft(After(app, key, acts).value)
  {
    var s := After(app, key, acts).value;
    RunKeepsValid(app, key, acts);
    if s.queue == [] && !s.worker.Busy? {
      all := acts;
    } else {
      if s.worker.Busy? {
        assert RequestsIn(app, s.received)[s.answered] == s.taken[s.answered];
      }
      hide InputOk, OutputOk, Kills, RequestsIn;
      WorkStep(app, s);
      hide Step, WorkerOk;
      all := RunThen(StepOf(app), Registered(key), acts, NextWork(s));
      all := WorksOff(app, key, all);
    }
  }

  /** Whatever the interleaving so far, as long as the connection holds, the stream is not bad and no
      request ends the worker, the threads can go on to answer every request read. */
  lemma EverythingCanBeAnswered(app: App, key: Message, acts: seq<Action>) returns (all: seq<Action>)
    requires Sendable(key) && After(app, key, acts).Some?
    requires var s := After(app, key, acts).value;
             && s.connected && !s.receiving.Exited? && Parse(s.received).ok && !s.worker.Stopped?
             && Survivable(app, s)
    ensures acts <= all && After(app, key, all).Some?
    ensures var s, t := After(app, key, acts).value, After(app, key, all).value;
            && t.received == s.received
            && Beatless(Parse(t.wire).frames) == Beatless([key]) + AnswersTo(app, RequestsIn(app, s.received))
  {
    RunKeepsValid(app, key, acts);
    var drained := DrainsBuffer(app, key, acts);
    all := WorksOff(app, key, drained);
    QuiescentMeansAllAnswered(app, key, all);
  }

  lemma CarriedBehind(key: Message, answers: seq<Message>, replied: seq<Request>, i: nat)
    requires Carries(answers, replied) && 1 <= i < |[key] + answers|
    ensures i <= |replied| && Split(([key] + answers)[i]) == Some(replied[i - 1])
  {
    hide Split;
  }

  /** Each reply that is decoded from the wire carries the key of its own request and what the handler
      returned for it: behind the registration, the i-th is that of the i-th request replied to. */
  lemma EachReplyCarriesItsKey(app: App, key: Message, acts: seq<Action>, i: nat)
    requires Sendable(key) && key != HEARTBEAT && After(app, key, acts).Some?
    requires 1 <= i < |Beatless(Parse(After(app, key, acts).value.wire).frames)|
    ensures var s := After(app, key, acts).value;
            && s.answered <= |RequestsIn(app, s.received)|
            && var replied := Deserved(app, RequestsIn(app, s.received)[..s.answered]);
               i <= |replied| && Split(Beatless(Parse(s.wire).frames)[i]) == Some(replied[i - 1])
  {
    Transducer(app, key, acts);
    var s := After(app, key, acts).value;
    var qs := RequestsIn(app, s.received)[..s.answered];
    CarriedBehind(key, AnswersTo(app, qs), Deserved(app, qs), i);
    hide *;
  }
}
