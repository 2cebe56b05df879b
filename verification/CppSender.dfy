/** Any number of threads and the heartbeat thread calling the C++ `sendData` on one socket. Each
    frame is written by three `send` calls under `sendMutex`; a `send` writes all its bytes or
    fails having written none. */
module CppSender {
  import opened Seqs
  import opened Options
  import opened Framing
  import opened WireLog
  import opened Runs

  /** A thread inside `sendData`: before the lock, or holding it with `parts` sends done. */
  datatype Caller = Waiting(msg: Message) | Sending(msg: Message, parts: nat)

  datatype State = State(
    wire: seq<byte>,
    log: seq<Entry>,   // history: what each sender that has left put out
    callers: map<nat, Caller>,
    mutex: Option<nat>,
    running: bool)

  datatype Action =
    | Call(t: nat, msg: Message)
    | Lock(t: nat, msg: Message)
    | Send(t: nat)
    | SendFails(t: nat)
    | Unlock(t: nat)

  const INITIAL := State([], [], map[], None, true)

  /** The piece that the next `send` writes, and how much of the frame is out before it. */
  function Piece(m: Message, parts: nat): seq<byte>
    requires parts < 3
  {
    if parts == 0 then MAGIC else if parts == 1 then BigEndian(|m| % TWO_TO_THE_32) else m
  }

  function Sent(m: Message, parts: nat): nat {
    if parts == 0 then 0 else if parts == 1 then 4 else if parts == 2 then HEADER_LEN else Size(m)
  }

  predicate IsSending(s: State, t: nat) {
    t in s.callers && s.callers[t].Sending?
  }

  /** What thread `t` has put out of its frame. */
  function FrameOf(s: State, t: nat): Entry
    requires IsSending(s, t)
  {
    Entry(s.callers[t].msg, Sent(s.callers[t].msg, s.callers[t].parts))
  }

  /** The thread leaves `sendData`, and the lock guard releases the mutex. */
  function Leave(s: State, t: nat): State
    requires IsSending(s, t)
  {
    s.(callers := s.callers - {t}, mutex := None, log := s.log + [FrameOf(s, t)])
  }

  function Step(s: State, a: Action): Option<State> {
    match a
    case Call(t, m) =>
      if t in s.callers then None else Some(s.(callers := s.callers[t := Waiting(m)]))
    case Lock(t, m) =>
      if t in s.callers && s.callers[t] == Waiting(m) && s.mutex == None then
        Some(s.(callers := s.callers[t := Sending(m, 0)], mutex := Some(t)))
      else None
    case Send(t) =>
      if IsSending(s, t) && s.callers[t].parts < 3 then
        var Sending(m, k) := s.callers[t];
        Some(s.(wire := s.wire + Piece(m, k), callers := s.callers[t := Sending(m, k + 1)]))
      else None
    case SendFails(t) =>
      if IsSending(s, t) && s.callers[t].parts < 3 then Some(Leave(s, t).(running := false)) else None
    case Unlock(t) =>
      if IsSending(s, t) && s.callers[t].parts == 3 then Some(Leave(s, t)) else None
  }

  function After(acts: seq<Action>): Option<State> {
    Run(Step, INITIAL, acts)
  }

  // ---------- What the actions say ----------

  /** The messages in the order in which their senders got the lock. */
  function LockOrder(acts: seq<Action>): seq<Message> {
    if |acts| == 0 then []
    else
      var a := acts[|acts| - 1];
      LockOrder(acts[..|acts| - 1]) + (if a.Lock? then [a.msg] else [])
  }

  /** A sender leaves with its frame whole: after three sends, or when only the last one failed and
      had no bytes to write. */
  function Finishes(s: State, a: Action): seq<Message> {
    if (a.Unlock? || a.SendFails?) && IsSending(s, a.t) && Whole(FrameOf(s, a.t)) then [s.callers[a.t].msg] else []
  }

  /** The messages whose senders left with the frame whole, in that order. */
  function Finished(acts: seq<Action>): seq<Message> {
    Outputs(Step, INITIAL, acts, Finishes)
  }

  /** A `send` fails when a part of its frame is already out, and not all of it. */
  predicate FailsInside(s: State, a: Action) {
    a.SendFails? && IsSending(s, a.t) && Cut(FrameOf(s, a.t))
  }

  predicate Sends(s: State, a: Action) {
    a.Send?
  }

  predicate FailedInside(acts: seq<Action>) {
    Happens(Step, INITIAL, acts, FailsInside)
  }

  /** Somebody goes on sending after that. */
  predicate SendsBehindACut(acts: seq<Action>) {
    Follows(Step, INITIAL, acts, FailsInside, Sends)
  }

  // ---------- Invariant ----------

  /** The frame of the thread that holds the mutex. */
  function Open(s: State): seq<Entry> {
    if s.mutex.Some? && IsSending(s, s.mutex.value) then [FrameOf(s, s.mutex.value)] else []
  }

  function Entries(s: State): seq<Entry> {
    s.log + Open(s)
  }

  /** The mutex is held by the one thread that is sending, and its frame is the last on the wire. */
  predicate Valid(s: State) {
    && (forall t | t in s.callers && s.callers[t].Sending? :: s.mutex == Some(t) && s.callers[t].parts <= 3)
    && (s.mutex.Some? ==> IsSending(s, s.mutex.value))
    && Sound(Entries(s)) && s.wire == Wire(Entries(s))
  }

  lemma LogIsSound(s: State)
    requires Valid(s)
    ensures Sound(s.log)
  {
    assert forall e | e in s.log :: e in Entries(s);
  }

  lemma LockKeepsValid(s: State, t: nat, m: Message)
    requires Valid(s) && Step(s, Lock(t, m)).Some?
    ensures var s' := Step(s, Lock(t, m)).value;
            && Valid(s') && Messages(Entries(s')) == Messages(Entries(s)) + [m]
            && (NoTear(Entries(s')) <==> NoTear(Entries(s)))
  {
    EmptyRight(s.log);
    FrameOpens(s.log, m);
    hide Wire, Sound, NoTear, Messages, Sent;
    assert Entries(s) == s.log;
    assert Sent(m, 0) == 0 && Entries(Step(s, Lock(t, m)).value) == s.log + [Entry(m, Sent(m, 0))];
  }

  lemma PieceOfFrame(m: Message, k: nat)
    requires k < 3
    ensures Sent(m, k + 1) == Sent(m, k) + |Piece(m, k)| <= Size(m) && (|Piece(m, k)| > 0 || Sent(m, k) > 0)
    ensures Frame(m)[Sent(m, k)..Sent(m, k + 1)] == Piece(m, k)
  {
  }

  /** What a `send` does to the frames on the wire. */
  lemma SendEntries(s: State, t: nat) returns (m: Message, k: nat)
    requires Valid(s) && Step(s, Send(t)).Some?
    ensures k < 3 && Sound(s.log) && Entries(s) == s.log + [Entry(m, Sent(m, k))]
    ensures var s' := Step(s, Send(t)).value;
            && s'.log == s.log && Entries(s') == s.log + [Entry(m, Sent(m, k + 1))]
            && s'.wire == Wire(Entries(s)) + Piece(m, k)
            && (Sound(Entries(s')) && s'.wire == Wire(Entries(s')) ==> Valid(s'))
  {
    LogIsSound(s);
    hide Wire, Sound, Piece, Sent;
    m, k := s.callers[t].msg, s.callers[t].parts;
  }

  lemma SendKeepsValid(s: State, t: nat)
    requires Valid(s) && Step(s, Send(t)).Some?
    ensures var s' := Step(s, Send(t)).value;
            && Valid(s') && Messages(Entries(s')) == Messages(Entries(s))
            && (NoTear(Entries(s')) <==> NoTear(Entries(s)) && !HasCut(s.log))
  {
    hide *;
    var m, k := SendEntries(s, t);
    PieceOfFrame(m, k);
    FrameGrows(s.log, m, Sent(m, k), |Piece(m, k)|);
    CutsGrow(s.log, Entry(m, Sent(m, k)));
  }

  lemma LeaveKeepsValid(s: State, t: nat)
    requires Valid(s) && IsSending(s, t)
    ensures Valid(Leave(s, t)) && Leave(s, t).log == Entries(s) == Entries(Leave(s, t))
  {
    EmptyRight(Leave(s, t).log);
  }

  /** Each step keeps the invariant, and tears a frame exactly by sending behind a cut one. */
  lemma StepKeepsValid(s: State, a: Action)
    requires Valid(s) && Step(s, a).Some?
    ensures var s' := Step(s, a).value;
            && Valid(s')
            && Messages(Entries(s')) == Messages(Entries(s)) + (if a.Lock? then [a.msg] else [])
            && (NoTear(Entries(s')) <==> NoTear(Entries(s)) && !(a.Send? && HasCut(s.log)))
  {
    EmptyRight(Messages(Entries(s)));
    hide Wire, Sound, NoTear, Messages;
    match a
    case Call(_, _) =>
    case Lock(t, m) => LockKeepsValid(s, t, m);
    case Send(t) => SendKeepsValid(s, t);
    case SendFails(t) => LeaveKeepsValid(s, t);
    case Unlock(t) => LeaveKeepsValid(s, t);
  }

  lemma LeaveGrowsHistory(s: State, t: nat)
    requires Valid(s) && IsSending(s, t)
    ensures var e, log := FrameOf(s, t), Leave(s, t).log;
            && Completed(log) == Completed(s.log) + (if Whole(e) then [e.msg] else [])
            && (HasCut(log) <==> HasCut(s.log) || Cut(e))
  {
    LogIsSound(s);
    var e := FrameOf(s, t);
    assert Leave(s, t).log == s.log + [e] && e.sent <= Size(e.msg);
    hide *;
    EmptyRight(Completed(s.log));
    LogGrows(s.log, e);
    CutsGrow(s.log, e);
  }

  /** The history of finished frames follows the senders that leave. */
  lemma StepKeepsHistory(s: State, a: Action)
    requires Valid(s) && Step(s, a).Some?
    ensures Completed(Step(s, a).value.log) == Completed(s.log) + Finishes(s, a)
    ensures HasCut(Step(s, a).value.log) <==> HasCut(s.log) || FailsInside(s, a)
  {
    if a.SendFails? || a.Unlock? {
      LeaveGrowsHistory(s, a.t);
      assert a.Unlock? ==> Whole(FrameOf(s, a.t));
      assert Step(s, a).value.log == Leave(s, a.t).log;
      hide Valid, Leave, FrameOf, Step, Whole, Cut, HasCut, Completed;
    } else {
      assert Step(s, a).value.log == s.log;
      EmptyRight(Completed(s.log));
      hide Valid, Step, HasCut, Completed;
    }
  }

  lemma CutsFollowTheActions(before: seq<Action>, a: Action)
    requires After(before).Some?
    ensures FailedInside(before + [a]) <==> FailedInside(before) || FailsInside(After(before).value, a)
    ensures SendsBehindACut(before + [a]) <==> SendsBehindACut(before) || (FailedInside(before) && a.Send?)
  {
    HappensGrows(Step, INITIAL, before, a, FailsInside);
    FollowsGrows(Step, INITIAL, before, a, FailsInside, Sends);
  }

  /** Over every run: the invariant, the frames in the order of the lock, the whole ones in the order
      in which their senders finished, and frames torn exactly by sending behind a cut one. */
  lemma {:induction false} RunKeepsValid(acts: seq<Action>)
    requires After(acts).Some?
    ensures var s := After(acts).value;
            && Valid(s) && Messages(Entries(s)) == LockOrder(acts) && Completed(s.log) == Finished(acts)
            && (HasCut(s.log) <==> FailedInside(acts))
            && (NoTear(Entries(s)) <==> !SendsBehindACut(acts))
  {
    if |acts| > 0 {
      var before, a := acts[..|acts| - 1], acts[|acts| - 1];
      InitLast(acts);
      RunKeepsValid(before);
      hide Valid, Step, Entries, Finishes, FailsInside, FailedInside, SendsBehindACut, NoTear, HasCut, Messages, Completed;
      StepKeepsValid(After(before).value, a);
      StepKeepsHistory(After(before).value, a);
      CutsFollowTheActions(before, a);
    }
  }

  // ---------- Main results ----------

  /** Exactly when frames stay whole, in every interleaving: the wire is the whole frames followed by
      a part of at most one more, and the receiver decodes exactly the whole ones, if and only if
      nobody sends after a `send` that failed inside its frame. The whole frames are those of the
      senders that finished, and perhaps that of the one still inside. */
  lemma FramesStayWholeIff(acts: seq<Action>)
    requires After(acts).Some?
    ensures var s := After(acts).value;
            && Sound(Entries(s)) && Messages(Entries(s)) == LockOrder(acts)
            && Completed(Entries(s)) == Finished(acts) + Completed(Open(s))
            && (s.wire == Frames(Completed(Entries(s))) + Tail(Entries(s)) <==> !SendsBehindACut(acts))
            && (AllSendable(LockOrder(acts)) ==>
                  (Parse(s.wire) == Parsed(Completed(Entries(s)), Tail(Entries(s)), true) <==> !SendsBehindACut(acts)))
  {
    RunKeepsValid(acts);
    var log := Entries(After(acts).value);
    CompletedAppend(After(acts).value.log, Open(After(acts).value));
    WholeFramesIffNoTear(log);
    if AllSendable(LockOrder(acts)) {
      ReceiverGetsWholeFrames(log);
    }
  }

  predicate IgnoresFailure(s: State, a: Action) {
    a.Lock? && !s.running
  }

  /** Every sender looks at `running` once it has the lock. */
  predicate LocksWhileRunning(acts: seq<Action>) {
    !Happens(Step, INITIAL, acts, IgnoresFailure)
  }

  lemma StoppedStaysStopped(s: State, a: Action)
    requires Valid(s) && Step(s, a).Some? && (a.Lock? ==> s.running)
    ensures var s' := Step(s, a).value;
            && (FailsInside(s, a) ==> !s'.running && s'.mutex == None)
            && (!s.running && s.mutex == None ==> !a.Send? && !s'.running && s'.mutex == None)
  {
    hide Wire, Sound, Frame;
  }

  lemma {:induction false} NobodySendsAfterAFailure(acts: seq<Action>)
    requires After(acts).Some? && LocksWhileRunning(acts)
    ensures FailedInside(acts) ==> !After(acts).value.running && After(acts).value.mutex == None
    ensures !SendsBehindACut(acts)
  {
    if |acts| > 0 {
      var before, a := acts[..|acts| - 1], acts[|acts| - 1];
      InitLast(acts);
      HappensGrows(Step, INITIAL, before, a, IgnoresFailure);
      NobodySendsAfterAFailure(before);
      RunKeepsValid(before);
      CutsFollowTheActions(before, a);
      hide SendsBehindACut, FailedInside, FailsInside, LocksWhileRunning, Entries, Valid, Step;
      StoppedStaysStopped(After(before).value, a);
    }
  }

  predicate NoFailure(acts: seq<Action>) {
    forall a | a in acts :: !a.SendFails?
  }

  /** `running` says exactly whether no `send` has failed. */
  lemma {:induction false} RunningExactly(acts: seq<Action>)
    requires After(acts).Some?
    ensures After(acts).value.running <==> NoFailure(acts)
  {
    if |acts| > 0 {
      var before, a := acts[..|acts| - 1], acts[|acts| - 1];
      InitLast(acts);
      RunningExactly(before);
      assert forall b :: b in acts <==> b in before || b == a;
      RunningStep(After(before).value, a);
    }
  }

  lemma RunningStep(s: State, a: Action)
    requires Step(s, a).Some?
    ensures Step(s, a).value.running <==> s.running && !a.SendFails?
  {
  }

  /** The heartbeat thread looks at `running` before it takes the lock, the other senders never do; for
      all of them to look once they have it would be enough. */
  lemma LookingAtRunningIsEnough(acts: seq<Action>)
    requires After(acts).Some? && LocksWhileRunning(acts)
    ensures var s := After(acts).value;
            Sound(Entries(s)) && s.wire == Frames(Completed(Entries(s))) + Tail(Entries(s))
  {
    NobodySendsAfterAFailure(acts);
    FramesStayWholeIff(acts);
  }

  lemma OpenStep(s: State, a: Action)
    requires Valid(s) && Step(s, a).Some? && !a.SendFails?
    ensures Finishes(s, a) + Messages(Open(Step(s, a).value)) == Messages(Open(s)) + (if a.Lock? then [a.msg] else [])
  {
  }

  /** Without a failure every sender that got the lock has finished, but for the one that holds it. */
  lemma {:induction false} AllFinish(acts: seq<Action>)
    requires After(acts).Some? && NoFailure(acts)
    ensures !FailedInside(acts) && !SendsBehindACut(acts)
    ensures Finished(acts) + Messages(Open(After(acts).value)) == LockOrder(acts)
  {
    if |acts| > 0 {
      var before, a := acts[..|acts| - 1], acts[|acts| - 1];
      InitLast(acts);
      assert a in acts && forall b | b in before :: b in acts;
      AllFinish(before);
      RunKeepsValid(before);
      CutsFollowTheActions(before, a);
      var s, s' := After(before).value, After(acts).value;
      assert !FailsInside(s, a);
      hide *;
      OpenStep(s, a);
      var one := if a.Lock? then [a.msg] else [];
      Assoc(Finished(before), Finishes(s, a), Messages(Open(s')));
      Assoc(Finished(before), Messages(Open(s)), one);
    }
  }

  /** At most one frame is under way, and it is the last on the wire. */
  lemma OneUnderWay(s: State)
    requires Valid(s)
    ensures |Open(s)| <= 1 && (Open(s) == [] <==> s.mutex == None)
    ensures Sound(s.log) && Sound(Open(s)) && NoTear(Open(s)) && Wire(Entries(s)) == Wire(s.log) + Wire(Open(s))
  {
    LogIsSound(s);
    EmptyRight(s.log);
    EmptyRight(Wire(s.log));
    if s.mutex.Some? {
      var e := FrameOf(s, s.mutex.value);
      assert Open(s) == [e] && e in Entries(s);
      LogGrows(s.log, e);
      LogGrows([], e);
      EmptyLeft([e]);
      EmptyLeft(Frame(e.msg)[..e.sent]);
    }
  }

  /** Concurrent senders never tear frames: as long as no `send` fails, the senders that got the lock
      are those that finished and perhaps one more, the wire is their frames in that order with the
      last one as far as it is written, and the receiver decodes exactly the whole ones. */
  lemma SendersNeverTearFrames(acts: seq<Action>)
    requires After(acts).Some? && NoFailure(acts)
    ensures var s, done := After(acts).value, Finished(acts);
            && |Open(s)| <= 1 && (Open(s) == [] <==> s.mutex == None) && Sound(Open(s))
            && LockOrder(acts) == done + Messages(Open(s))
            && s.wire == Frames(done) + Wire(Open(s))
            && (AllSendable(LockOrder(acts)) ==> Parse(s.wire) == Parsed(done + Completed(Open(s)), Tail(Open(s)), true))
  {
    AllFinish(acts);
    RunKeepsValid(acts);
    var s, done := After(acts).value, Finished(acts);
    assert Valid(s) && !HasCut(s.log);
    OneUnderWay(s);
    CutsStayOut(s.log, Open(s));
    WholeFramesIffNoTear(s.log);
    NothingCutMeansNoTail(s.log);
    EmptyRight(Frames(done));
    if AllSendable(LockOrder(acts)) {
      assert forall m | m in done :: m in LockOrder(acts);
      assert forall m | m in Messages(Open(s)) :: m in LockOrder(acts);
      ParseFrames(done, Wire(Open(s)));
      ReceiverGetsWholeFrames(Open(s));
    }
  }

  lemma CutsStayOut(a: seq<Entry>, b: seq<Entry>)
    requires NoTear(a + b)
    ensures NoTear(a)
  {
    assert forall i | 0 <= i < |a| :: (a + b)[i] == a[i];
  }

  // ---------- Progress ----------

  /** The next step of the thread that has the lock. */
  function GoOn(s: State): Action
    requires s.mutex.Some? && IsSending(s, s.mutex.value)
  {
    if s.callers[s.mutex.value].parts < 3 then Send(s.mutex.value) else Unlock(s.mutex.value)
  }

  lemma GoOnStep(s: State)
    requires Valid(s) && s.mutex.Some?
    ensures Step(s, GoOn(s)).Some? && SendsLeft(Step(s, GoOn(s)).value) < SendsLeft(s)
    ensures var s' := Step(s, GoOn(s)).value;
            && Finishes(s, GoOn(s)) + Messages(Open(s')) == Messages(Open(s))
            && (s'.mutex == s.mutex || s'.mutex == None)
            && s'.callers.Keys - Holder(s') == s.callers.Keys - Holder(s)
  {
    hide Wire, Sound, Frame, Piece;
    var s' := Step(s, GoOn(s)).value;
    MessagesOfOne(FrameOf(s, s.mutex.value));
    if s'.mutex.Some? {
      MessagesOfOne(FrameOf(s', s'.mutex.value));
    }
  }

  /** A sender that has the lock can always finish its frame and give the lock back. */
  lemma {:induction false} MutexComesBack(acts: seq<Action>) returns (all: seq<Action>)
    requires After(acts).Some?
    ensures acts <= all && After(all).Some? && After(all).value.mutex == None
    ensures Finished(all) == Finished(acts) + Messages(Open(After(acts).value))
    ensures After(all).value.callers.Keys == After(acts).value.callers.Keys - Holder(After(acts).value)
    decreases SendsLeft(After(acts).value)
  {
    RunKeepsValid(acts);
    var s := After(acts).value;
    if s.mutex == None {
      EmptyRight(Finished(acts));
      all := acts;
    } else {
      assert IsSending(s, s.mutex.value);
      hide Valid, Step, Finishes, Open, GoOn, SendsLeft;
      GoOnStep(s);
      OutputsGrow(Step, INITIAL, acts, GoOn(s), Finishes);
      all := RunThen(Step, INITIAL, acts, GoOn(s));
      Assoc(Finished(acts), Finishes(s, GoOn(s)), Messages(Open(After(all).value)));
      all := MutexComesBack(all);
    }
  }

  function Holder(s: State): set<nat> {
    if s.mutex.Some? then {s.mutex.value} else {}
  }

  function SendsLeft(s: State): int {
    if s.mutex.Some? && IsSending(s, s.mutex.value) then 4 - s.callers[s.mutex.value].parts else 0
  }

  lemma MessagesOfOne(e: Entry)
    ensures Messages([e]) == [e.msg]
  {
    assert [e][..0] == [];
  }

  /** Then every thread that waits can lock. */
  lemma WaitingCanLock(acts: seq<Action>, t: nat)
    requires After(acts).Some? && After(acts).value.mutex == None && t in After(acts).value.callers
    ensures After(acts + [Lock(t, After(acts).value.callers[t].msg)]).Some?
  {
    RunKeepsValid(acts);
    var s := After(acts).value;
    assert !IsSending(s, t);
    RunGrows(Step, INITIAL, acts, Lock(t, s.callers[t].msg));
  }

  // ---------- Frames that tear ----------

  /** A sender that fails after the magic. */
  lemma FailedSend(acts: seq<Action>, t: nat, m: Message) returns (more: seq<Action>)
    requires After(acts).Some? && t !in After(acts).value.callers && After(acts).value.mutex == None
    ensures more == acts + [Call(t, m), Lock(t, m), Send(t), SendFails(t)] && After(more).Some?
    ensures var s, s' := After(acts).value, After(more).value;
            s'.callers == s.callers && s'.mutex == None && s'.wire == s.wire + MAGIC
  {
    hide Run;
    more := RunThen(Step, INITIAL, acts, Call(t, m));
    more := RunThen(Step, INITIAL, more, Lock(t, m));
    more := RunThen(Step, INITIAL, more, Send(t));
    more := RunThen(Step, INITIAL, more, SendFails(t));
    assert After(more).value.callers == After(acts).value.callers;
  }

  /** A sender that gets the lock at once and writes its header. */
  lemma HeaderSend(acts: seq<Action>, t: nat, m: Message) returns (more: seq<Action>)
    requires After(acts).Some? && t !in After(acts).value.callers && After(acts).value.mutex == None
    ensures more == acts + [Call(t, m), Lock(t, m), Send(t), Send(t)] && After(more).Some?
    ensures var s, s' := After(acts).value, After(more).value;
            IsSending(s', t) && s'.callers[t] == Sending(m, 2) && s'.wire == s.wire + MAGIC + BigEndian(|m| % TWO_TO_THE_32)
  {
    hide Run, BigEndian;
    more := RunThen(Step, INITIAL, acts, Call(t, m));
    more := RunThen(Step, INITIAL, more, Lock(t, m));
    more := RunThen(Step, INITIAL, more, Send(t));
    more := RunThen(Step, INITIAL, more, Send(t));
  }

  /** A sender that is not disturbed. */
  lemma WholeSend(acts: seq<Action>, t: nat, m: Message) returns (more: seq<Action>)
    requires After(acts).Some? && t !in After(acts).value.callers && After(acts).value.mutex == None
    ensures more == acts + [Call(t, m), Lock(t, m), Send(t), Send(t), Send(t), Unlock(t)] && After(more).Some?
    ensures After(more).value.wire == After(acts).value.wire + Frame(m)
  {
    var length := BigEndian(|m| % TWO_TO_THE_32);
    assert Frame(m) == MAGIC + length + m;
    hide Run, Frame, BigEndian;
    more := HeaderSend(acts, t, m);
    more := RunThen(Step, INITIAL, more, Send(t));
    more := RunThen(Step, INITIAL, more, Unlock(t));
    Assoc(After(acts).value.wire, MAGIC, length);
    Assoc(After(acts).value.wire, MAGIC + length, m);
  }

  /** `sendData` does not look at `running`, so frames do tear: after a failure between the magic and
      the length the next sender's frame follows the bare magic, and the receiver disconnects without
      decoding anything. */
  lemma FailureTearsFrames(m: Message, m': Message) returns (acts: seq<Action>)
    ensures acts == [Call(0, m), Lock(0, m), Send(0), SendFails(0),
                     Call(0, m'), Lock(0, m'), Send(0), Send(0), Send(0), Unlock(0)]
    ensures After(acts).Some?
    ensures var wire := After(acts).value.wire;
            wire == MAGIC + Frame(m') && Parse(wire) == Parsed([], wire, false)
  {
    assert After([]) == Some(INITIAL);
    hide Run, Frame, Parse, Step;
    acts := FailedSend([], 0, m);
    EmptyLeft(MAGIC);
    acts := WholeSend(acts, 0, m');
    BareMagicIsRejected(m');
  }
}
