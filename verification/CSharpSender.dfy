/** Any number of C# `SendAsync` callers, the heartbeat loop, the end of the read loop, users that
    cancel their own tokens, failing writes and one disposal, interleaved in any order. A
    `WriteAsync` may put out its bytes in any pieces. */
module CSharpSender {
  import opened Seqs
  import opened Options
  import opened Framing
  import opened WireLog
  import opened Runs

  /** The `cancellationToken` of a call: the default one, the client's own, as the heartbeat loop
      passes it, or one of the caller's. */
  datatype Token = NoToken | ClientToken | UserToken(id: nat)

  datatype Caller =
    | Waiting(msg: Message, token: Token)
    | Entered(msg: Message, token: Token)
    | Writing(msg: Message, token: Token, sent: nat)

  datatype Holder = Sender(t: nat) | Disposer

  /** `Dispose`: mark, cancel, wait up to two seconds for the lock, close, release, clean up. */
  datatype Disposal = Live | Marked | Cancelled | Locked | TimedOut | Closed(held: bool) | Finished

  datatype State = State(
    wire: seq<byte>,
    log: seq<Entry>,   // history: what each sender that has left put out
    callers: map<nat, Caller>,
    sendLock: Option<Holder>,
    disposal: Disposal,
    readLoopEnded: bool,
    cancelled: set<nat>)  // the user tokens that were cancelled
  {
    predicate Disposed() {
      !disposal.Live?
    }

    predicate SocketClosed() {
      disposal.Closed? || disposal.Finished?
    }

    predicate CancelRequested(token: Token) {
      match token
      case NoToken => false
      case ClientToken => readLoopEnded || !(disposal.Live? || disposal.Marked?)
      case UserToken(id) => id in cancelled
    }
  }

  const INITIAL := State([], [], map[], None, Live, false, {})

  datatype Action =
    | Call(t: nat, msg: Message, token: Token)
    | GiveUp(t: nat)
    | Enter(t: nat)
    | Recheck(t: nat)
    | Write(t: nat, n: nat)
    | Finish(t: nat)
    | Abort(t: nat)       // a write or the flush is cancelled, or finds the socket closed
    | WriteFails(t: nat)  // the connection fails under a write
    | CancelToken(id: nat)
    | ReadLoopEnds
    | Dispose

  predicate IsWriting(s: State, t: nat) {
    t in s.callers && s.callers[t].Writing?
  }

  predicate IsEntered(s: State, t: nat) {
    t in s.callers && s.callers[t].Entered?
  }

  predicate IsWaiting(s: State, t: nat) {
    t in s.callers && s.callers[t].Waiting?
  }

  /** What caller `t` has put out of its frame. */
  function FrameOf(s: State, t: nat): Entry
    requires IsWriting(s, t)
  {
    Entry(s.callers[t].msg, s.callers[t].sent)
  }

  /** A caller leaves with the lock released. */
  function Leave(s: State, t: nat): State {
    s.(callers := s.callers - {t}, sendLock := None, log := if IsWriting(s, t) then s.log + [FrameOf(s, t)] else s.log)
  }

  function Step(s: State, a: Action): Option<State> {
    match a
    case Call(t, m, token) =>
      if t !in s.callers && !s.Disposed() && |m| <= MAX_MSG_SIZE then
        Some(s.(callers := s.callers[t := Waiting(m, token)]))
      else None
    case GiveUp(t) =>
      if IsWaiting(s, t) && (s.CancelRequested(s.callers[t].token) || s.disposal.Finished?) then
        Some(s.(callers := s.callers - {t}))
      else None
    case Enter(t) =>
      if IsWaiting(s, t) && s.sendLock == None && !s.disposal.Finished? then
        Some(s.(callers := s.callers[t := Entered(s.callers[t].msg, s.callers[t].token)], sendLock := Some(Sender(t))))
      else None
    case Recheck(t) =>
      if IsEntered(s, t) then
        if s.Disposed() then Some(Leave(s, t))
        else Some(s.(callers := s.callers[t := Writing(s.callers[t].msg, s.callers[t].token, 0)]))
      else None
    case Write(t, n) =>
      if IsWriting(s, t) && !s.SocketClosed() && s.callers[t].sent + n <= Size(s.callers[t].msg) then
        var Writing(m, token, sent) := s.callers[t];
        Some(s.(wire := s.wire + Frame(m)[sent..sent + n], callers := s.callers[t := Writing(m, token, sent + n)]))
      else None
    case Finish(t) =>
      if IsWriting(s, t) && Whole(FrameOf(s, t)) then Some(Leave(s, t)) else None
    case Abort(t) =>
      if IsWriting(s, t) && (s.CancelRequested(s.callers[t].token) || s.SocketClosed()) then Some(Leave(s, t)) else None
    case WriteFails(t) => if IsWriting(s, t) then Some(Leave(s, t)) else None
    case CancelToken(id) => Some(s.(cancelled := s.cancelled + {id}))
    case ReadLoopEnds => Some(s.(readLoopEnded := true))
    case Dispose => DisposeStep(s)
  }

  function DisposeStep(s: State): Option<State> {
    match s.disposal
    case Live => Some(s.(disposal := Marked))
    case Marked => Some(s.(disposal := Cancelled))
    case Cancelled =>
      if s.sendLock == None then Some(s.(disposal := Locked, sendLock := Some(Disposer)))
      else Some(s.(disposal := TimedOut))
    case Locked => Some(s.(disposal := Closed(true)))
    case TimedOut => Some(s.(disposal := Closed(false)))
    case Closed(held) => Some(s.(disposal := Finished, sendLock := if held then None else s.sendLock))
    case Finished => None
  }

  function After(acts: seq<Action>): Option<State> {
    Run(Step, INITIAL, acts)
  }

  // ---------- What the actions say ----------

  /** A caller starts its frame. */
  function Starts(s: State, a: Action): seq<Message> {
    if a.Recheck? && IsEntered(s, a.t) && !s.Disposed() then [s.callers[a.t].msg] else []
  }

  predicate Leaves(a: Action) {
    a.Finish? || a.Abort? || a.WriteFails?
  }

  /** A caller leaves with its frame whole, if only for a cancelled flush. */
  function Finishes(s: State, a: Action): seq<Message> {
    if Leaves(a) && IsWriting(s, a.t) && Whole(FrameOf(s, a.t))
    then [s.callers[a.t].msg] else []
  }

  function Started(acts: seq<Action>): seq<Message> {
    Outputs(Step, INITIAL, acts, Starts)
  }

  function FinishedWhole(acts: seq<Action>): seq<Message> {
    Outputs(Step, INITIAL, acts, Finishes)
  }

  /** A caller is stopped with a part of its frame out, and not all of it. */
  predicate StopsInside(s: State, a: Action) {
    (a.Abort? || a.WriteFails?) && IsWriting(s, a.t) && Cut(FrameOf(s, a.t))
  }

  predicate Writes(s: State, a: Action) {
    a.Write? && a.n > 0
  }

  predicate StoppedInside(acts: seq<Action>) {
    Happens(Step, INITIAL, acts, StopsInside)
  }

  /** Somebody goes on writing after that. */
  predicate WritesBehindACut(acts: seq<Action>) {
    Follows(Step, INITIAL, acts, StopsInside, Writes)
  }

  // ---------- Invariant ----------

  /** The lock is held by the one sender inside, or by the disposal. */
  predicate LockOk(s: State) {
    && (forall t | t in s.callers && !s.callers[t].Waiting? :: s.sendLock == Some(Sender(t)))
    && (s.sendLock.Some? && s.sendLock.value.Sender? ==>
          s.sendLock.value.t in s.callers && !s.callers[s.sendLock.value.t].Waiting?)
    && (s.sendLock == Some(Disposer) <==> s.disposal.Locked? || s.disposal == Closed(true))
  }

  /** The frame of the caller that is writing. */
  function Open(s: State): seq<Entry> {
    if s.sendLock.Some? && s.sendLock.value.Sender? && IsWriting(s, s.sendLock.value.t)
    then [FrameOf(s, s.sendLock.value.t)] else []
  }

  function Entries(s: State): seq<Entry> {
    s.log + Open(s)
  }

  predicate Valid(s: State) {
    LockOk(s) && Sound(Entries(s)) && s.wire == Wire(Entries(s))
  }

  lemma LogIsSound(s: State)
    requires Valid(s)
    ensures Sound(s.log)
  {
    assert forall e | e in s.log :: e in Entries(s);
  }

  /** Actions around the lock, tokens and the disposal leave the frames alone. */
  lemma OthersKeepLock(s: State, a: Action)
    requires LockOk(s) && Step(s, a).Some?
    ensures LockOk(Step(s, a).value)
  {
    if a.Dispose? {
      DisposeKeepsLock(s);
    }
  }

  lemma DisposeKeepsLock(s: State)
    requires LockOk(s) && DisposeStep(s).Some?
    ensures LockOk(DisposeStep(s).value)
  {
  }

  /** Neither a frame started, written to nor left. */
  predicate KeepsFrames(a: Action) {
    !a.Recheck? && !a.Write? && !Leaves(a)
  }

  lemma OthersKeepFrames(s: State, a: Action)
    requires LockOk(s) && Step(s, a).Some? && KeepsFrames(a)
    ensures var s' := Step(s, a).value; s'.wire == s.wire && s'.log == s.log && Open(s') == Open(s)
  {
  }

  lemma RecheckKeepsFrames(s: State, t: nat)
    requires LockOk(s) && Step(s, Recheck(t)).Some?
    ensures var s' := Step(s, Recheck(t)).value;
            && s'.wire == s.wire && s'.log == s.log && Open(s) == []
            && Open(s') == if s.Disposed() then [] else [Entry(s.callers[t].msg, 0)]
  {
  }

  lemma WriteEntries(s: State, t: nat, n: nat) returns (m: Message, k: nat)
    requires Valid(s) && Step(s, Write(t, n)).Some?
    ensures k + n <= Size(m) && Sound(s.log) && Entries(s) == s.log + [Entry(m, k)]
    ensures var s' := Step(s, Write(t, n)).value;
            && s'.log == s.log && Entries(s') == s.log + [Entry(m, k + n)]
            && s'.wire == Wire(Entries(s)) + Frame(m)[k..k + n]
  {
    LogIsSound(s);
    hide Wire, Frame, Sound;
    m, k := s.callers[t].msg, s.callers[t].sent;
  }

  lemma LeaveEntries(s: State, t: nat)
    requires Valid(s) && IsWriting(s, t)
    ensures Leave(s, t).log == Entries(s) == Entries(Leave(s, t))
    ensures Entries(s) == s.log + [FrameOf(s, t)] && FrameOf(s, t) in Entries(s)
  {
    hide Wire, Sound;
    EmptyRight(Leave(s, t).log);
  }

  lemma WriteKeepsValid(s: State, t: nat, n: nat)
    requires Valid(s) && Step(s, Write(t, n)).Some?
    ensures var s' := Step(s, Write(t, n)).value;
            && Valid(s') && Messages(Entries(s')) == Messages(Entries(s))
            && (NoTear(Entries(s')) <==> NoTear(Entries(s)) && !(n > 0 && HasCut(s.log)))
  {
    OthersKeepLock(s, Write(t, n));
    hide LockOk, Step, Entries, Wire, Frame, Sound, NoTear, HasCut, Messages;
    var m, k := WriteEntries(s, t, n);
    FrameGrows(s.log, m, k, n);
  }

  lemma RecheckKeepsValid(s: State, t: nat)
    requires Valid(s) && Step(s, Recheck(t)).Some?
    ensures var s' := Step(s, Recheck(t)).value;
            && Valid(s') && Messages(Entries(s')) == Messages(Entries(s)) + Starts(s, Recheck(t))
            && (NoTear(Entries(s')) <==> NoTear(Entries(s)))
  {
    LogIsSound(s);
    OthersKeepLock(s, Recheck(t));
    RecheckKeepsFrames(s, t);
    hide LockOk, Wire, Sound, NoTear, Messages;
    EmptyRight(s.log);
    EmptyRight(Messages(s.log));
    FrameOpens(s.log, s.callers[t].msg);
  }

  lemma LeavingStep(s: State, a: Action)
    requires Step(s, a).Some? && Leaves(a)
    ensures Step(s, a).value == Leave(s, a.t) && IsWriting(s, a.t) && (a.Finish? ==> Whole(FrameOf(s, a.t)))
  {
  }

  lemma LeaveKeepsValid(s: State, a: Action)
    requires Valid(s) && Step(s, a).Some? && Leaves(a)
    ensures Valid(Step(s, a).value) && Entries(Step(s, a).value) == Entries(s)
  {
    OthersKeepLock(s, a);
    LeavingStep(s, a);
    hide LockOk, Step, Wire, Sound, Open;
    LeaveEntries(s, a.t);
  }

  lemma OthersKeepValid(s: State, a: Action)
    requires Valid(s) && Step(s, a).Some? && KeepsFrames(a)
    ensures Valid(Step(s, a).value) && Entries(Step(s, a).value) == Entries(s)
  {
    OthersKeepLock(s, a);
    OthersKeepFrames(s, a);
    hide LockOk, Step, Wire, Sound, Open;
  }

  /** Each step keeps the invariant, and tears a frame exactly by writing behind a cut one. */
  lemma StepKeepsValid(s: State, a: Action)
    requires Valid(s) && Step(s, a).Some?
    ensures var s' := Step(s, a).value;
            && Valid(s')
            && Messages(Entries(s')) == Messages(Entries(s)) + Starts(s, a)
            && (NoTear(Entries(s')) <==> NoTear(Entries(s)) && !(Writes(s, a) && HasCut(s.log)))
  {
    hide Valid, Step, Entries, Wire, Sound, NoTear, HasCut, Messages;
    EmptyRight(Messages(Entries(s)));
    if a.Recheck? {
      RecheckKeepsValid(s, a.t);
    } else if a.Write? {
      WriteKeepsValid(s, a.t, a.n);
    } else if Leaves(a) {
      LeaveKeepsValid(s, a);
    } else {
      OthersKeepValid(s, a);
    }
  }

  lemma LeaveGrowsHistory(s: State, t: nat)
    requires Valid(s) && IsWriting(s, t)
    ensures var e, log := FrameOf(s, t), Leave(s, t).log;
            && Completed(log) == Completed(s.log) + (if Whole(e) then [e.msg] else [])
            && (HasCut(log) <==> HasCut(s.log) || Cut(e))
  {
    LogIsSound(s);
    LeaveEntries(s, t);
    var e := FrameOf(s, t);
    assert e.sent <= Size(e.msg) && Leave(s, t).log == s.log + [e];
    hide *;
    EmptyRight(Completed(s.log));
    LogGrows(s.log, e);
    CutsGrow(s.log, e);
  }

  /** The history of left frames follows the callers that leave. */
  lemma StepKeepsHistory(s: State, a: Action)
    requires Valid(s) && Step(s, a).Some?
    ensures Completed(Step(s, a).value.log) == Completed(s.log) + Finishes(s, a)
    ensures HasCut(Step(s, a).value.log) <==> HasCut(s.log) || StopsInside(s, a)
  {
    if Leaves(a) {
      hide Valid, Step, HasCut, Completed, Leave, FrameOf, Whole, Cut;
      LeavingStep(s, a);
      LeaveGrowsHistory(s, a.t);
      assert Whole(FrameOf(s, a.t)) ==> !Cut(FrameOf(s, a.t)) by { WholeIsNotCut(FrameOf(s, a.t)); }
    } else {
      hide Valid, HasCut, Completed;
      assert Step(s, a).value.log == s.log;
      EmptyRight(Completed(s.log));
    }
  }

  lemma WholeIsNotCut(e: Entry)
    ensures Whole(e) ==> !Cut(e)
  {
  }

  lemma CutsFollowTheActions(before: seq<Action>, a: Action)
    requires After(before).Some?
    ensures var s := After(before).value;
            && (StoppedInside(before + [a]) <==> StoppedInside(before) || StopsInside(s, a))
            && (WritesBehindACut(before + [a]) <==> WritesBehindACut(before) || (StoppedInside(before) && Writes(s, a)))
  {
    HappensGrows(Step, INITIAL, before, a, StopsInside);
    FollowsGrows(Step, INITIAL, before, a, StopsInside, Writes);
  }

  /** Over every run: the invariant, the frames in the order in which they were started, the whole
      ones in the order in which their callers left, and frames torn exactly by writing behind a cut. */
  lemma {:induction false} RunKeepsValid(acts: seq<Action>)
    requires After(acts).Some?
    ensures var s := After(acts).value;
            && Valid(s) && Messages(Entries(s)) == Started(acts) && Completed(s.log) == FinishedWhole(acts)
            && (HasCut(s.log) <==> StoppedInside(acts))
            && (NoTear(Entries(s)) <==> !WritesBehindACut(acts))
  {
    if |acts| > 0 {
      var before, a := acts[..|acts| - 1], acts[|acts| - 1];
      InitLast(acts);
      RunKeepsValid(before);
      hide Valid, Step, Entries, Finishes, Starts, StopsInside, StoppedInside, Writes, WritesBehindACut, NoTear, HasCut,
           Messages, Completed;
      StepKeepsValid(After(before).value, a);
      StepKeepsHistory(After(before).value, a);
      CutsFollowTheActions(before, a);
    }
  }

  // ---------- The size guard ----------

  predicate SizesOk(s: State) {
    forall t | t in s.callers :: |s.callers[t].msg| <= MAX_MSG_SIZE
  }

  lemma SizesStep(s: State, a: Action)
    requires SizesOk(s) && Step(s, a).Some?
    ensures SizesOk(Step(s, a).value) && forall m | m in Starts(s, a) :: |m| <= MAX_MSG_SIZE
  {
  }

  /** No message that is too long gets as far as a frame. */
  lemma {:induction false} StartedAreAdmitted(acts: seq<Action>)
    requires After(acts).Some?
    ensures SizesOk(After(acts).value) && forall m | m in Started(acts) :: |m| <= MAX_MSG_SIZE
  {
    if |acts| > 0 {
      var before := acts[..|acts| - 1];
      StartedAreAdmitted(before);
      hide SizesOk, Step, Starts;
      SizesStep(After(before).value, acts[|acts| - 1]);
    }
  }

  // ---------- Main results ----------

  /** Exactly when frames stay whole, in every interleaving: the wire is the whole frames followed by
      a part of at most one more, and the peer decodes exactly the whole ones, if and only if nobody
      writes after a caller was stopped inside its frame. The whole frames are those of the callers
      that left with their frame written, and perhaps that of the one still inside. The peer's part needs
      only that no message is empty, as longer ones than it accepts are never sent. */
  lemma FramesStayWholeIff(acts: seq<Action>)
    requires After(acts).Some?
    ensures var s := After(acts).value;
            && Sound(Entries(s)) && Messages(Entries(s)) == Started(acts)
            && Completed(Entries(s)) == FinishedWhole(acts) + Completed(Open(s))
            && (s.wire == Frames(Completed(Entries(s))) + Tail(Entries(s)) <==> !WritesBehindACut(acts))
            && ((forall m | m in Started(acts) :: m != []) ==>
                  (Parse(s.wire) == Parsed(Completed(Entries(s)), Tail(Entries(s)), true) <==> !WritesBehindACut(acts)))
  {
    RunKeepsValid(acts);
    var s := After(acts).value;
    WholeFramesIffNoTear(Entries(s));
    StartedAreAdmitted(acts);
    if forall m | m in Started(acts) :: m != [] {
      ReceiverGetsWholeFrames(Entries(s));
    }
    CompletedAppend(s.log, Open(s));
  }

  /** Something other than the disposal stops a caller. */
  predicate CancelsWhileLive(s: State, a: Action) {
    !s.Disposed() && (a.ReadLoopEnds? || a.CancelToken? || a.WriteFails?)
  }

  predicate OnlyTheDisposalCancels(acts: seq<Action>) {
    !Happens(Step, INITIAL, acts, CancelsWhileLive)
  }

  /** Nobody can be stopped before the disposal, and nobody writes after it but the one inside. */
  predicate Quiet(s: State, stopped: bool) {
    && (!s.Disposed() ==> !s.readLoopEnded && s.cancelled == {})
    && (stopped ==> s.Disposed() && Open(s) == [])
  }

  lemma StepKeepsQuiet(s: State, a: Action, stopped: bool)
    requires Valid(s) && Quiet(s, stopped) && Step(s, a).Some? && !CancelsWhileLive(s, a)
    ensures Quiet(Step(s, a).value, stopped || StopsInside(s, a)) && !(stopped && Writes(s, a))
  {
    hide Wire, Sound, Frame;
  }

  lemma {:induction false} DisposalKeepsFramesWhole(acts: seq<Action>)
    requires After(acts).Some? && OnlyTheDisposalCancels(acts)
    ensures Quiet(After(acts).value, StoppedInside(acts)) && !WritesBehindACut(acts)
  {
    if |acts| > 0 {
      var before, a := acts[..|acts| - 1], acts[|acts| - 1];
      InitLast(acts);
      HappensGrows(Step, INITIAL, before, a, CancelsWhileLive);
      DisposalKeepsFramesWhole(before);
      RunKeepsValid(before);
      CutsFollowTheActions(before, a);
      hide Valid, Quiet, Step, StoppedInside, WritesBehindACut;
      StepKeepsQuiet(After(before).value, a, StoppedInside(before));
    }
  }

  /** A disposal cuts at most the last frame: in every run in which nothing else stops a caller
      before the disposal begins, with the read loop that the disposal ends, the wire is whole frames
      and a part of at most one more, which is still being written or was cut by the disposal. */
  lemma DisposalCutsAtMostTheLastFrame(acts: seq<Action>)
    requires After(acts).Some? && OnlyTheDisposalCancels(acts)
    ensures var s := After(acts).value;
            && Sound(Entries(s)) && s.wire == Frames(Completed(Entries(s))) + Tail(Entries(s))
            && (Tail(Entries(s)) != [] ==> Open(s) != [] || s.Disposed())
            && ((forall m | m in Started(acts) :: m != []) ==>
                  Parse(s.wire) == Parsed(Completed(Entries(s)), Tail(Entries(s)), true))
  {
    DisposalKeepsFramesWhole(acts);
    RunKeepsValid(acts);
    FramesStayWholeIff(acts);
    var s := After(acts).value;
    NothingCutMeansNoTail(Entries(s));
    EmptyRight(s.log);
  }

  predicate NobodyWrites(s: State) {
    forall t | t in s.callers :: !s.callers[t].Writing?
  }

  lemma SilentStep(s: State, a: Action)
    requires s.Disposed() && NobodyWrites(s) && Step(s, a).Some?
    ensures var s' := Step(s, a).value; s'.wire == s.wire && s'.Disposed() && NobodyWrites(s')
  {
  }

  /** The cut frame is at the very end: once disposed, with nobody left writing, no continuation
      puts another byte on the wire. */
  lemma {:induction false} NothingFollowsADisposal(s: State, acts: seq<Action>)
    requires s.Disposed() && NobodyWrites(s) && Run(Step, s, acts).Some?
    ensures var s' := Run(Step, s, acts).value; s'.wire == s.wire && s'.Disposed() && NobodyWrites(s')
  {
    if |acts| > 0 {
      var before := acts[..|acts| - 1];
      NothingFollowsADisposal(s, before);
      hide Step, NobodyWrites;
      SilentStep(Run(Step, s, before).value, acts[|acts| - 1]);
    }
  }

  // ---------- Progress ----------

  function Disposes(acts: seq<Action>): nat {
    if |acts| == 0 then 0 else Disposes(acts[..|acts| - 1]) + (if acts[|acts| - 1].Dispose? then 1 else 0)
  }

  /** The steps of the disposal so far. */
  function Stage(d: Disposal): nat {
    match d
    case Live => 0
    case Marked => 1
    case Cancelled => 2
    case Locked => 3
    case TimedOut => 3
    case Closed(_) => 4
    case Finished => 5
  }

  /** The action that cancels a token, but for the disposal. */
  predicate CancelledBy(token: Token, a: Action) {
    match token
    case NoToken => false
    case ClientToken => a.ReadLoopEnds?
    case UserToken(id) => a == CancelToken(id)
  }

  /** When a token is cancelled: a caller's own by its owner, the client's by the end of the read loop or
      the second step of the disposal, the default one never. */
  lemma {:induction false} CancelledExactly(acts: seq<Action>, token: Token)
    requires After(acts).Some?
    ensures Stage(After(acts).value.disposal) == Disposes(acts)
    ensures After(acts).value.CancelRequested(token) <==>
            (exists a | a in acts :: CancelledBy(token, a)) || (token == ClientToken && Disposes(acts) >= 2)
  {
    if |acts| > 0 {
      var before, a := acts[..|acts| - 1], acts[|acts| - 1];
      InitLast(acts);
      CancelledExactly(before, token);
      if b :| b in before && CancelledBy(token, b) {
        assert b in acts;
      }
      assert forall b :: b in acts <==> b in before || b == a;
      CancelStep(After(before).value, a, token);
    }
  }

  /** `SendAsync` takes a message exactly if it is not too long and no disposal has begun. */
  lemma CallsExactly(acts: seq<Action>, t: nat, m: Message, token: Token)
    requires After(acts).Some? && t !in After(acts).value.callers
    ensures After(acts + [Call(t, m, token)]).Some? <==> |m| <= MAX_MSG_SIZE && Disposes(acts) == 0
  {
    CancelledExactly(acts, token);
    RunGrows(Step, INITIAL, acts, Call(t, m, token));
  }

  lemma CancelStep(s: State, a: Action, token: Token)
    requires Step(s, a).Some?
    ensures var s' := Step(s, a).value;
            && Stage(s'.disposal) == Stage(s.disposal) + (if a.Dispose? then 1 else 0)
            && (s'.CancelRequested(token) <==>
                s.CancelRequested(token) || CancelledBy(token, a) || (token == ClientToken && Stage(s'.disposal) >= 2))
  {
  }

  /** A caller whose token is cancelled can leave, waiting or writing; so can one that waits when the
      disposal is over, or writes when the socket is closed. */
  lemma CancelledCanLeave(s: State, t: nat)
    requires Valid(s) && (IsWaiting(s, t) || IsWriting(s, t))
    requires s.CancelRequested(s.callers[t].token) || s.disposal.Finished? || (IsWriting(s, t) && s.SocketClosed())
    ensures var a := if IsWaiting(s, t) then GiveUp(t) else Abort(t);
            Step(s, a).Some? && t !in Step(s, a).value.callers
  {
  }

  /** Whoever has the lock is a caller that enters or writes, or the disposal, and can give it back. */
  function GiveBack(s: State): Action
    requires s.sendLock.Some?
  {
    match s.sendLock.value
    case Disposer => Dispose
    case Sender(t) =>
      if !IsWriting(s, t) then Recheck(t)
      else if s.SocketClosed() then Abort(t)
      else if Whole(FrameOf(s, t)) then Finish(t)
      else Write(t, if s.callers[t].sent <= Size(s.callers[t].msg) then Size(s.callers[t].msg) - s.callers[t].sent else 0)
  }

  function StepsLeft(s: State): nat {
    match s.sendLock
    case None => 0
    case Some(Disposer) => if s.disposal.Locked? then 2 else 1
    case Some(Sender(t)) =>
      if !IsWriting(s, t) then 3 else if s.SocketClosed() || Whole(FrameOf(s, t)) then 1 else 2
  }

  lemma OpenFits(s: State, t: nat)
    requires Valid(s) && IsWriting(s, t)
    ensures s.callers[t].sent <= Size(s.callers[t].msg)
  {
    assert FrameOf(s, t) in Entries(s);
  }

  lemma GiveBackStep(s: State)
    requires Valid(s) && s.sendLock.Some?
    ensures Step(s, GiveBack(s)).Some? && StepsLeft(Step(s, GiveBack(s)).value) < StepsLeft(s)
  {
    if s.sendLock.value.Sender? && IsWriting(s, s.sendLock.value.t) {
      OpenFits(s, s.sendLock.value.t);
    }
    hide Wire, Sound, Frame;
  }

  /** No deadlock: from every state the lock can come back. */
  lemma {:induction false} LockComesBack(acts: seq<Action>) returns (all: seq<Action>)
    requires After(acts).Some?
    ensures acts <= all && After(all).Some? && After(all).value.sendLock == None
    decreases StepsLeft(After(acts).value)
  {
    var s := After(acts).value;
    if s.sendLock == None {
      all := acts;
    } else {
      RunKeepsValid(acts);
      hide Valid, Step, StepsLeft;
      GiveBackStep(s);
      all := RunThen(Step, INITIAL, acts, GiveBack(s));
      all := LockComesBack(all);
    }
  }

  lemma WritingTheRest(s: State, t: nat, rest: nat)
    requires IsWriting(s, t) && !s.SocketClosed() && s.callers[t].sent + rest == Size(s.callers[t].msg)
    ensures Step(s, Write(t, rest)).Some? && Step(Step(s, Write(t, rest)).value, Finish(t)).Some?
  {
    hide Frame;
  }

  /** A caller that writes to an open socket can finish its frame. */
  lemma WriterCanFinish(s: State, t: nat)
    requires Valid(s) && IsWriting(s, t) && !s.SocketClosed()
    ensures var rest := Size(s.callers[t].msg) - s.callers[t].sent;
            rest >= 0 && Run(Step, s, [Write(t, rest), Finish(t)]).Some?
  {
    var rest := Size(s.callers[t].msg) - s.callers[t].sent;
    OpenFits(s, t);
    WritingTheRest(s, t, rest);
    assert Run(Step, s, []) == Some(s);
    hide Run, Valid, Step;
    var acts := RunThen(Step, s, [], Write(t, rest));
    acts := RunThen(Step, s, acts, Finish(t));
    assert acts == [Write(t, rest), Finish(t)];
  }

  // ---------- Frames that tear ----------

  predicate Idle(s: State) {
    s.callers == map[] && s.sendLock == None && s.disposal == Live
  }

  /** A caller that gets the lock at once and writes the first `n` bytes of its frame. */
  lemma OpenSend(acts: seq<Action>, t: nat, m: Message, token: Token, n: nat) returns (more: seq<Action>)
    requires After(acts).Some? && Idle(After(acts).value) && |m| <= MAX_MSG_SIZE && n <= Size(m)
    ensures more == acts + [Call(t, m, token), Enter(t), Recheck(t), Write(t, n)] && After(more).Some?
    ensures var s, s' := After(acts).value, After(more).value;
            && s'.callers == map[t := Writing(m, token, n)] && s'.disposal == Live
            && s'.wire == s.wire + Frame(m)[..n]
  {
    hide Run, Frame;
    more := RunThen(Step, INITIAL, acts, Call(t, m, token));
    more := RunThen(Step, INITIAL, more, Enter(t));
    more := RunThen(Step, INITIAL, more, Recheck(t));
    more := RunThen(Step, INITIAL, more, Write(t, n));
    assert After(more).value.callers == map[t := Writing(m, token, n)];
  }

  /** A caller that is cancelled behind the magic. */
  lemma CutSend(acts: seq<Action>, t: nat, m: Message, token: Token, cancel: Action) returns (more: seq<Action>)
    requires After(acts).Some? && Idle(After(acts).value) && |m| <= MAX_MSG_SIZE && CancelledBy(token, cancel)
    ensures more == acts + [Call(t, m, token), Enter(t), Recheck(t), Write(t, 4), cancel, Abort(t)]
    ensures After(more).Some? && Idle(After(more).value)
    ensures After(more).value.wire == After(acts).value.wire + MAGIC
  {
    assert Frame(m)[..4] == MAGIC;
    hide Run, Frame;
    more := OpenSend(acts, t, m, token, 4);
    more := RunThen(Step, INITIAL, more, cancel);
    more := RunThen(Step, INITIAL, more, Abort(t));
    assert After(more).value.callers == map[];
  }

  /** A default-token caller that is not disturbed. */
  lemma WholeSend(acts: seq<Action>, t: nat, m: Message) returns (more: seq<Action>)
    requires After(acts).Some? && Idle(After(acts).value) && |m| <= MAX_MSG_SIZE
    ensures more == acts + [Call(t, m, NoToken), Enter(t), Recheck(t), Write(t, Size(m)), Finish(t)]
    ensures After(more).Some? && After(more).value.wire == After(acts).value.wire + Frame(m)
  {
    TakeAll(Frame(m));
    hide Run, Frame;
    more := OpenSend(acts, t, m, NoToken, Size(m));
    more := RunThen(Step, INITIAL, more, Finish(t));
  }

  /** Without a disposal frames do tear: a caller cancelled inside its frame, a heartbeat by the end of
      the read loop or any caller by its own token, is followed by the next caller's frame, and the
      peer disconnects without decoding it. */
  lemma CancellationTearsFrames(m: Message, token: Token, cancel: Action, m': Message) returns (acts: seq<Action>)
    requires |m| <= MAX_MSG_SIZE && |m'| <= MAX_MSG_SIZE && CancelledBy(token, cancel)
    ensures acts == [Call(0, m, token), Enter(0), Recheck(0), Write(0, 4), cancel, Abort(0),
                     Call(1, m', NoToken), Enter(1), Recheck(1), Write(1, Size(m')), Finish(1)]
    ensures After(acts).Some?
    ensures var wire := After(acts).value.wire;
            wire == MAGIC + Frame(m') && Parse(wire) == Parsed([], wire, false)
  {
    assert After([]) == Some(INITIAL);
    hide Run, Frame, Parse, Step;
    acts := CutSend([], 0, m, token, cancel);
    EmptyLeft(MAGIC);
    acts := WholeSend(acts, 1, m');
    BareMagicIsRejected(m');
  }
}
