/** The Python heartbeat: every timer's callback arms the next timer, while `disconnect`, a lost
    connection or a failed send may interfere between any two accesses to the shared fields. */
module HeartbeatChain {
  import opened Seqs
  import opened Options
  import opened Runs

  /** Where a thread stands. Thread 0 is the one in `connect_to_server`; the others are timers. */
  datatype Pc =
    | Created          // a timer that nobody has started
    | Armed            // a started timer, waiting out its interval
    | Firing           // in `send_heart_beat`, before the test of `connected`
    | Checking         // in `_write_with_length_prefix`, before its test of `connected`
    | Writing          // before `sendall`
    | Rearming         // in `start_heart_beat`, before the test of `connected`
    | Creating         // before the new timer is stored in the field
    | MakingDaemon     // before `self.heart_beat_timer.daemon = True`
    | Starting         // before `self.heart_beat_timer.start()`
    | Done

  datatype Thread = Thread(pc: Pc, cancelled: bool)

  /** A call of `disconnect`: before its test of, call on, or reset of the field. */
  datatype Disconnecting = Testing | Cancelling | Resetting

  datatype State = State(
    connected: bool,
    heartBeatTimer: Option<nat>,
    threads: seq<Thread>,
    disconnecting: map<nat, Disconnecting>,   // any number of calls of `disconnect`
    sent: nat)

  /** `connect_to_server` has set `connected` and calls `start_heart_beat`. */
  const CONNECTED := State(true, None, [Thread(Rearming, false)], map[], 0)

  datatype Action =
    | Advance(k: nat, ok: bool)   // the next access of thread k; `ok` is whether `sendall` succeeds
    | Fire(k: nat)                // timer k's interval is over and it was not cancelled
    | Expire(k: nat)              // timer k was cancelled
    | LoseConnection              // the receive thread gives up
    | Disconnect(d: nat)          // the next access of call d of `disconnect`

  function Goto(s: State, k: nat, pc: Pc): State
    requires k < |s.threads|
  {
    s.(threads := s.threads[k := s.threads[k].(pc := pc)])
  }

  function Step(s: State, a: Action): Option<State> {
    match a
    case Advance(k, ok) => if k < |s.threads| then AdvanceStep(s, k, ok) else None
    case Fire(k) =>
      if k < |s.threads| && s.threads[k] == Thread(Armed, false) then Some(Goto(s, k, Firing)) else None
    case Expire(k) =>
      if k < |s.threads| && s.threads[k] == Thread(Armed, true) then Some(Goto(s, k, Done)) else None
    case LoseConnection => Some(s.(connected := false))
    case Disconnect(d) => Some(DisconnectStep(s, d))
  }

  /** An access to the field that finds None raises AttributeError and ends the thread. */
  function AdvanceStep(s: State, k: nat, ok: bool): Option<State>
    requires k < |s.threads|
  {
    match s.threads[k].pc
    case Firing => Some(Goto(s, k, if s.connected then Checking else Done))
    case Checking => Some(Goto(s, k, if s.connected then Writing else Rearming))
    case Writing =>
      Some(if ok then Goto(s, k, Rearming).(sent := s.sent + 1) else Goto(s, k, Rearming).(connected := false))
    case Rearming => Some(Goto(s, k, if s.connected then Creating else Done))
    case Creating =>
      var t := Goto(s, k, MakingDaemon);
      Some(t.(heartBeatTimer := Some(|s.threads|), threads := t.threads + [Thread(Created, false)]))
    case MakingDaemon => Some(Goto(s, k, if s.heartBeatTimer.Some? then Starting else Done))
    case Starting =>
      if s.heartBeatTimer.Some? && s.heartBeatTimer.value < |s.threads| && s.threads[s.heartBeatTimer.value].pc.Created?
      then Some(Goto(Goto(s, s.heartBeatTimer.value, Armed), k, Done))
      else Some(Goto(s, k, Done))
    case _ => None
  }

  function DisconnectStep(s: State, d: nat): State {
    if d !in s.disconnecting then s.(connected := false, disconnecting := s.disconnecting[d := Testing])
    else
      var over := s.disconnecting - {d};
      match s.disconnecting[d]
      case Testing =>
        s.(disconnecting := if s.heartBeatTimer.Some? then s.disconnecting[d := Cancelling] else over)
      case Cancelling =>
        if s.heartBeatTimer.Some? && s.heartBeatTimer.value < |s.threads| then
          var f := s.heartBeatTimer.value;
          s.(threads := s.threads[f := s.threads[f].(cancelled := true)], disconnecting := s.disconnecting[d := Resetting])
        else s.(disconnecting := over)
      case Resetting => s.(heartBeatTimer := None, disconnecting := over)
  }

  function After(acts: seq<Action>): Option<State> {
    Run(Step, CONNECTED, acts)
  }

  function Fires(acts: seq<Action>): nat {
    if |acts| == 0 then 0 else Fires(acts[..|acts| - 1]) + (if acts[|acts| - 1].Fire? then 1 else 0)
  }

  // ---------- Tokens ----------

  /** A thread that keeps the chain going: an armed timer, a running callback, an arming under way. */
  predicate Token(t: Thread) {
    !t.pc.Created? && !t.pc.Done? && !(t.pc.Armed? && t.cancelled)
  }

  ghost predicate Valid(s: State) {
    && (forall i, j | 0 <= i < j < |s.threads| :: !(Token(s.threads[i]) && Token(s.threads[j])))
    && (s.heartBeatTimer.Some? ==> s.heartBeatTimer.value < |s.threads|)
    && (forall k | 0 <= k < |s.threads| && (s.threads[k].pc.MakingDaemon? || s.threads[k].pc.Starting?) ::
          s.heartBeatTimer.Some? ==> s.threads[s.heartBeatTimer.value].pc.Created?)
  }

  /** A token moves on without arming anything. */
  lemma GotoKeepsValid(s: State, k: nat, pc: Pc)
    requires Valid(s) && k < |s.threads| && Token(s.threads[k])
    requires !pc.Created? && !pc.MakingDaemon? && (pc.Starting? ==> s.threads[k].pc.MakingDaemon?)
    ensures Valid(Goto(s, k, pc))
  {
  }

  /** A token stores a new timer. */
  lemma CreateKeepsValid(s: State, k: nat)
    requires Valid(s) && k < |s.threads| && s.threads[k].pc.Creating?
    ensures Valid(AdvanceStep(s, k, true).value)
  {
    var t := AdvanceStep(s, k, true).value;
    assert forall i | 0 <= i < |s.threads| && i != k :: t.threads[i] == s.threads[i] && !Token(s.threads[i]);
    assert !Token(t.threads[|s.threads|]);
  }

  /** A token passes to the timer it starts. */
  lemma StartKeepsValid(s: State, k: nat)
    requires Valid(s) && k < |s.threads| && s.threads[k].pc.Starting? && s.heartBeatTimer.Some?
    ensures Valid(AdvanceStep(s, k, true).value)
  {
    var t, f := AdvanceStep(s, k, true).value, s.heartBeatTimer.value;
    assert forall i | 0 <= i < |s.threads| && i != k :: !Token(s.threads[i]);
    assert forall i | 0 <= i < |t.threads| && i != f :: !Token(t.threads[i]);
  }

  lemma AdvanceKeepsValid(s: State, k: nat, ok: bool)
    requires Valid(s) && k < |s.threads| && AdvanceStep(s, k, ok).Some?
    ensures Valid(AdvanceStep(s, k, ok).value)
  {
    hide Valid;
    match s.threads[k].pc
    case Firing => GotoKeepsValid(s, k, if s.connected then Checking else Done);
    case Checking => GotoKeepsValid(s, k, if s.connected then Writing else Rearming);
    case Writing => WriteKeepsValid(s, k, ok);
    case Rearming => GotoKeepsValid(s, k, if s.connected then Creating else Done);
    case Creating => CreateKeepsValid(s, k);
    case MakingDaemon => GotoKeepsValid(s, k, if s.heartBeatTimer.Some? then Starting else Done);
    case Starting =>
      if s.heartBeatTimer.Some? {
        StartKeepsValid(s, k);
      } else {
        GotoKeepsValid(s, k, Done);
      }
  }

  lemma WriteKeepsValid(s: State, k: nat, ok: bool)
    requires Valid(s) && k < |s.threads| && s.threads[k].pc.Writing?
    ensures Valid(AdvanceStep(s, k, ok).value)
  {
    GotoKeepsValid(s, k, Rearming);
  }

  lemma DisconnectKeepsValid(s: State, d: nat)
    requires Valid(s)
    ensures Valid(DisconnectStep(s, d))
  {
  }

  lemma StepKeepsValid(s: State, a: Action)
    requires Valid(s) && Step(s, a).Some?
    ensures Valid(Step(s, a).value) && (!s.connected ==> !Step(s, a).value.connected)
  {
    match a
    case Advance(k, ok) => AdvanceKeepsValid(s, k, ok);
    case Fire(k) => GotoKeepsValid(s, k, Firing);
    case Expire(k) =>
    case LoseConnection =>
    case Disconnect(d) => DisconnectKeepsValid(s, d);
  }

  lemma {:induction false} RunKeepsValid(s: State, acts: seq<Action>)
    requires Valid(s) && Run(Step, s, acts).Some?
    ensures Valid(Run(Step, s, acts).value) && (!s.connected ==> !Run(Step, s, acts).value.connected)
  {
    if |acts| > 0 {
      var before := acts[..|acts| - 1];
      RunKeepsValid(s, before);
      hide Valid, Step;
      StepKeepsValid(Run(Step, s, before).value, acts[|acts| - 1]);
    }
  }

  // ---------- Main results ----------

  /** In every interleaving there is at most one heartbeat token, and `connected` never comes back. */
  lemma AtMostOneToken(acts: seq<Action>)
    requires After(acts).Some?
    ensures var s := After(acts).value;
            forall i, j | 0 <= i < j < |s.threads| :: !(Token(s.threads[i]) && Token(s.threads[j]))
    ensures forall n | 0 <= n <= |acts| && After(acts[..n]).Some? && !After(acts[..n]).value.connected ::
              !After(acts).value.connected
  {
    RunKeepsValid(CONNECTED, acts);
    forall n | 0 <= n <= |acts| && After(acts[..n]).Some? && !After(acts[..n]).value.connected
      ensures !After(acts).value.connected
    {
      TakeMore(acts, n, |acts| - n);
      TakeAll(acts);
      RunKeepsValid(CONNECTED, acts[..n]);
      RunAppend(Step, CONNECTED, acts[..n], acts[n..]);
      RunKeepsValid(After(acts[..n]).value, acts[n..]);
    }
  }

  /** What ends a connection: the receive thread, a `disconnect`, or a failed send. */
  predicate Breaks(s: State, a: Action) {
    a.LoseConnection? || a.Disconnect? || (a.Advance? && !a.ok && a.k < |s.threads| && s.threads[a.k].pc.Writing?)
  }

  lemma ConnectedStep(s: State, a: Action)
    requires Step(s, a).Some? && (s.disconnecting != map[] ==> !s.connected)
    ensures Step(s, a).value.connected <==> s.connected && !Breaks(s, a)
    ensures Step(s, a).value.disconnecting != map[] ==> !Step(s, a).value.connected
  {
  }

  /** The client is connected exactly until one of these happens. */
  lemma {:induction false} ConnectedExactly(acts: seq<Action>)
    requires After(acts).Some?
    ensures var s := After(acts).value;
            && (s.connected <==> !Happens(Step, CONNECTED, acts, Breaks))
            && (s.disconnecting != map[] ==> !s.connected)
  {
    if |acts| > 0 {
      var before, a := acts[..|acts| - 1], acts[|acts| - 1];
      InitLast(acts);
      ConnectedExactly(before);
      HappensGrows(Step, CONNECTED, before, a, Breaks);
      hide Step, Breaks, Happens;
      ConnectedStep(After(before).value, a);
    }
  }

  /** A token that can still lead to a firing once the connection is gone. */
  predicate Fuse(t: Thread) {
    Token(t) && (t.pc.Creating? || t.pc.MakingDaemon? || t.pc.Starting? || t.pc.Armed?)
  }

  predicate HasFuse(s: State) {
    exists k :: 0 <= k < |s.threads| && Fuse(s.threads[k])
  }

  lemma FireUsesTheFuse(s: State, k: nat)
    requires Valid(s) && k < |s.threads| && s.threads[k] == Thread(Armed, false)
    ensures HasFuse(s) && !HasFuse(Goto(s, k, Firing))
  {
    assert Fuse(s.threads[k]);
    assert forall i | 0 <= i < |s.threads| && i != k :: !Token(s.threads[i]);
  }

  lemma AdvanceLightsNoFuse(s: State, k: nat, ok: bool)
    requires Valid(s) && !s.connected && k < |s.threads| && AdvanceStep(s, k, ok).Some?
    ensures HasFuse(AdvanceStep(s, k, ok).value) ==> HasFuse(s)
  {
    hide Valid;
    var t := s.threads[k];
    if t.pc.Creating? || t.pc.MakingDaemon? || t.pc.Starting? {
      assert Fuse(t);
    } else {
      var s' := AdvanceStep(s, k, ok).value;
      assert |s'.threads| == |s.threads| && !Fuse(s'.threads[k]);
      assert forall i | 0 <= i < |s.threads| && i != k :: s'.threads[i] == s.threads[i];
    }
  }

  lemma FuseStep(s: State, a: Action)
    requires Valid(s) && !s.connected && Step(s, a).Some?
    ensures HasFuse(Step(s, a).value) ==> HasFuse(s)
    ensures a.Fire? ==> HasFuse(s) && !HasFuse(Step(s, a).value)
  {
    var s' := Step(s, a).value;
    if a.Fire? {
      FireUsesTheFuse(s, a.k);
    } else if a.Advance? {
      AdvanceLightsNoFuse(s, a.k, a.ok);
    } else if HasFuse(s') {
      hide Valid;
      var k :| 0 <= k < |s'.threads| && Fuse(s'.threads[k]);
      assert k < |s.threads| && Fuse(s.threads[k]);
    }
  }

  /** Once `connected` is false, at most one further timer fires. */
  lemma {:induction false} AtMostOneFiringAfterLoss(s: State, acts: seq<Action>)
    requires Valid(s) && !s.connected && Run(Step, s, acts).Some?
    ensures Fires(acts) + (if HasFuse(Run(Step, s, acts).value) then 1 else 0) <= (if HasFuse(s) then 1 else 0)
  {
    if |acts| > 0 {
      var before := acts[..|acts| - 1];
      AtMostOneFiringAfterLoss(s, before);
      RunKeepsValid(s, before);
      hide Valid, Step, HasFuse;
      FuseStep(Run(Step, s, before).value, acts[|acts| - 1]);
    }
  }

  /** Disconnected, with thread `k` firing as the only token, or behind that with no token left. */
  ghost predicate Fired(s: State, k: nat) {
    && Valid(s) && !s.connected && k < |s.threads|
    && (s.threads[k].pc.Firing? || (s.threads[k].pc.Done? && forall i | 0 <= i < |s.threads| :: !Token(s.threads[i])))
  }

  lemma FiredStep(s: State, k: nat, a: Action)
    requires Fired(s, k) && Step(s, a).Some?
    ensures var s' := Step(s, a).value;
            Fired(s', k) && s'.sent == s.sent && |s'.threads| == |s.threads| && !a.Fire?
  {
    assert forall i | 0 <= i < |s.threads| && i != k :: !Token(s.threads[i]);
    StepKeepsValid(s, a);
  }

  /** That firing, and anything after it, sends nothing, arms nothing and lets no timer fire. */
  lemma {:induction false} FiringAfterLossIsSilent(s: State, k: nat, acts: seq<Action>)
    requires Fired(s, k) && Run(Step, s, acts).Some?
    ensures var s' := Run(Step, s, acts).value;
            Fired(s', k) && s'.sent == s.sent && |s'.threads| == |s.threads| && Fires(acts) == 0
  {
    if |acts| > 0 {
      var before := acts[..|acts| - 1];
      FiringAfterLossIsSilent(s, k, before);
      hide Fired, Step;
      FiredStep(Run(Step, s, before).value, k, acts[|acts| - 1]);
    }
  }

  // ---------- While nothing goes wrong ----------

  /** No `disconnect`, lost connection or failed send. */
  predicate Undisturbed(acts: seq<Action>) {
    forall a | a in acts :: !a.Disconnect? && !a.LoseConnection? && (a.Advance? ==> a.ok)
  }

  /** The heartbeat of this firing is still to be sent. */
  predicate Owes(t: Thread) {
    t.pc.Firing? || t.pc.Checking? || t.pc.Writing?
  }

  /** Thread `k` is the token of a connected client, the field holds the timer it deals with, and every
      firing so far has sent its heartbeat, but for one that is about to. */
  ghost predicate Beating(s: State, k: nat, fires: nat) {
    && Valid(s) && s.connected && s.disconnecting == map[] && k < |s.threads| && Token(s.threads[k])
    && (forall i | 0 <= i < |s.threads| :: !s.threads[i].cancelled)
    && (s.threads[k].pc.MakingDaemon? || s.threads[k].pc.Starting? ==> s.heartBeatTimer.Some?)
    && (s.threads[k].pc.Armed? ==> s.heartBeatTimer == Some(k))
    && s.sent + (if Owes(s.threads[k]) then 1 else 0) == fires
  }

  /** The thread that holds the token after an action. */
  function NextToken(s: State, k: nat): nat
    requires k < |s.threads|
  {
    if s.threads[k].pc.Starting? && s.heartBeatTimer.Some? then s.heartBeatTimer.value else k
  }

  lemma OnlyTheTokenMoves(s: State, k: nat, fires: nat, a: Action)
    requires Beating(s, k, fires) && Step(s, a).Some? && Undisturbed([a])
    ensures (a == Fire(k) && s.threads[k].pc.Armed?) || (a == Advance(k, true) && !s.threads[k].pc.Armed?)
  {
    assert a in [a];
  }

  lemma BeatStep(s: State, k: nat, fires: nat, a: Action)
    requires Beating(s, k, fires) && Step(s, a).Some? && Undisturbed([a])
    ensures Beating(Step(s, a).value, NextToken(s, k), if a.Fire? then fires + 1 else fires)
  {
    StepKeepsValid(s, a);
    OnlyTheTokenMoves(s, k, fires, a);
    assert forall i | 0 <= i < |s.threads| && i != k :: !Token(s.threads[i]);
  }

  /** As long as nothing goes wrong the client stays connected, there is exactly one token, and every
      firing sends one heartbeat. */
  lemma {:induction false} KeepsBeating(acts: seq<Action>) returns (k: nat)
    requires After(acts).Some? && Undisturbed(acts)
    ensures Beating(After(acts).value, k, Fires(acts))
    ensures forall i | 0 <= i < |After(acts).value.threads| :: Token(After(acts).value.threads[i]) <==> i == k
  {
    if |acts| == 0 {
      k := 0;
    } else {
      var before, a := acts[..|acts| - 1], acts[|acts| - 1];
      assert Undisturbed([a]) by { assert a in acts; }
      assert Undisturbed(before) by { assert forall b | b in before :: b in acts; }
      k := KeepsBeating(before);
      hide Step, Undisturbed;
      BeatStep(After(before).value, k, Fires(before), a);
      k := NextToken(After(before).value, k);
    }
  }

  // ---------- Progress ----------

  /** How far the token is from an armed timer. */
  function Distance(pc: Pc): nat {
    match pc
    case Firing => 7
    case Checking => 6
    case Writing => 5
    case Rearming => 4
    case Creating => 3
    case MakingDaemon => 2
    case Starting => 1
    case _ => 0
  }

  lemma FiresGrow(acts: seq<Action>, a: Action)
    ensures Fires(acts + [a]) == Fires(acts) + (if a.Fire? then 1 else 0)
  {
    InitOfAppend(acts, a);
  }

  lemma TokenAdvances(s: State, k: nat, fires: nat)
    requires Beating(s, k, fires) && !s.threads[k].pc.Armed?
    ensures Step(s, Advance(k, true)).Some?
    ensures var s' := Step(s, Advance(k, true)).value;
            && NextToken(s, k) < |s'.threads|
            && Distance(s'.threads[NextToken(s, k)].pc) < Distance(s.threads[k].pc)
  {
  }

  /** A token goes on to the next armed timer, sending the heartbeat it owes. */
  lemma {:induction false} ReachesArmed(acts: seq<Action>, k: nat) returns (all: seq<Action>, armed: nat)
    requires After(acts).Some? && Beating(After(acts).value, k, Fires(acts))
    ensures acts <= all && After(all).Some? && Fires(all) == Fires(acts)
    ensures Beating(After(all).value, armed, Fires(all)) && After(all).value.threads[armed].pc.Armed?
    decreases Distance(After(acts).value.threads[k].pc)
  {
    var s := After(acts).value;
    if s.threads[k].pc.Armed? {
      all, armed := acts, k;
    } else {
      TokenAdvances(s, k, Fires(acts));
      assert Undisturbed([Advance(k, true)]);
      BeatStep(s, k, Fires(acts), Advance(k, true));
      FiresGrow(acts, Advance(k, true));
      hide Step, Beating, Fires, Distance;
      all := RunThen(Step, CONNECTED, acts, Advance(k, true));
      all, armed := ReachesArmed(all, NextToken(s, k));
    }
  }

  /** The chain can go on for ever: any number of heartbeats can be sent, each by a firing of its own,
      with the next timer armed. */
  lemma {:induction false} BeatsForEver(n: nat) returns (acts: seq<Action>, k: nat)
    ensures After(acts).Some? && Fires(acts) == n && After(acts).value.sent == n
    ensures Beating(After(acts).value, k, n) && After(acts).value.threads[k].pc.Armed?
  {
    if n == 0 {
      acts, k := ReachesArmed([], 0);
    } else {
      acts, k := BeatsForEver(n - 1);
      var s := After(acts).value;
      assert Step(s, Fire(k)).Some?;
      assert Undisturbed([Fire(k)]);
      BeatStep(s, k, n - 1, Fire(k));
      FiresGrow(acts, Fire(k));
      assert NextToken(s, k) == k;
      acts := RunThen(Step, CONNECTED, acts, Fire(k));
      acts, k := ReachesArmed(acts, k);
    }
  }

  lemma CancelledHasNoFuse(s: State, k: nat, t: State)
    requires Valid(s) && k < |s.threads| && Token(s.threads[k]) && s.threads[k].pc.Armed?
    requires t.threads == s.threads[k := s.threads[k].(cancelled := true)]
    ensures !HasFuse(t)
  {
    assert forall i | 0 <= i < |s.threads| && i != k :: !Token(s.threads[i]);
  }

  /** A whole `disconnect` stops an armed timer: it does not fire any more, whatever follows. */
  lemma DisconnectStopsTheTimer(s: State, k: nat, fires: nat, d: nat, more: seq<Action>)
    requires Beating(s, k, fires) && s.threads[k].pc.Armed?
    ensures var whole := [Disconnect(d), Disconnect(d), Disconnect(d), Disconnect(d)];
            && Run(Step, s, whole).Some? && !Run(Step, s, whole).value.connected
            && Run(Step, s, whole).value.disconnecting == map[] && Run(Step, s, whole).value.heartBeatTimer == None
            && (Run(Step, Run(Step, s, whole).value, more).Some? ==> Fires(more) == 0)
  {
    assert Run(Step, s, []) == Some(s);
    hide Run;
    var acts := RunThen(Step, s, [], Disconnect(d));
    acts := RunThen(Step, s, acts, Disconnect(d));
    acts := RunThen(Step, s, acts, Disconnect(d));
    acts := RunThen(Step, s, acts, Disconnect(d));
    assert acts == [Disconnect(d), Disconnect(d), Disconnect(d), Disconnect(d)];
    var t := Run(Step, s, acts).value;
    assert t.disconnecting == map[];
    assert t.threads == s.threads[k := s.threads[k].(cancelled := true)];
    CancelledHasNoFuse(s, k, t);
    hide Step, Beating, HasFuse;
    RunKeepsValid(s, acts);
    if Run(Step, t, more).Some? {
      AtMostOneFiringAfterLoss(t, more);
    }
  }
}
