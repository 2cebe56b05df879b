/** The Python querier: one `query` at a time against the receive thread and `disconnect`. Each
    action is one section under `_state_lock`, or the return of `query_event.wait`. */
module PythonQuerier {
  import opened Seqs
  import opened Options
  import opened Runs

  datatype Action =
    | Open                   // the first section of `query`
    | Wake(success: bool)    // `query_event.wait` returns: the event is set, or the time is up
    | Final                  // the last section of `query`
    | Receive(msg: string)   // `_internal_data_recv`
    | Disconnect

  datatype Phase = Idle | Waiting | Woken(success: bool)

  /** `openedAt` and `acceptedAt` are positions among the actions; `called` and `returned` are the
      positions of the messages handed to the callback and to callers of `query`. */
  datatype State = State(
    clock: nat,
    queryResult: Option<string>,
    queryEvent: bool,
    isQuerying: bool,
    timeoutOccurred: bool,
    phase: Phase,
    callback: seq<string>,
    openedAt: nat,
    acceptedAt: nat,
    called: set<nat>,
    returned: set<nat>)

  const INITIAL := State(0, None, false, false, false, Idle, [], 0, 0, {}, {})

  function Step(s: State, a: Action): Option<State> {
    var t := s.(clock := s.clock + 1);
    match a
    case Open =>
      if s.phase.Idle? then
        Some(t.(queryResult := None, queryEvent := false, isQuerying := true, timeoutOccurred := false,
                phase := Waiting, openedAt := s.clock))
      else None
    case Wake(success) =>
      if s.phase.Waiting? && (success ==> s.queryEvent) then Some(t.(phase := Woken(success))) else None
    case Final =>
      if s.phase.Woken? then
        Some(t.(isQuerying := false, timeoutOccurred := s.timeoutOccurred || !s.phase.success, phase := Idle,
                returned := if s.phase.success && s.queryResult.Some? then s.returned + {s.acceptedAt} else s.returned))
      else None
    case Receive(m) =>
      if s.isQuerying && !s.timeoutOccurred then
        Some(t.(queryResult := Some(m), queryEvent := true, acceptedAt := s.clock))
      else Some(t.(callback := s.callback + [m], called := s.called + {s.clock}))
    case Disconnect => Some(t.(timeoutOccurred := true, queryEvent := true))
  }

  function After(acts: seq<Action>): Option<State> {
    Run(Step, INITIAL, acts)
  }

  /** What `query` gives its caller. */
  datatype Outcome = Returned(value: Option<string>) | TimedOut

  class OpenSocketQuerier {
    var clock: nat
    var queryResult: Option<string>
    var queryEvent: bool
    var isQuerying: bool
    var timeoutOccurred: bool
    var phase: Phase
    var callback: seq<string>
    var openedAt: nat
    var acceptedAt: nat
    var called: set<nat>
    var returned: set<nat>

    function Now(): State
      reads this
    {
      State(clock, queryResult, queryEvent, isQuerying, timeoutOccurred, phase, callback, openedAt, acceptedAt, called,
            returned)
    }

    constructor ()
      ensures Now() == INITIAL
    {
      clock, queryResult, queryEvent, isQuerying, timeoutOccurred := 0, None, false, false, false;
      phase, callback, openedAt, acceptedAt, called, returned := Idle, [], 0, 0, {}, {};
    }

    method OpenQuery()
      requires phase.Idle?
      modifies this
      ensures Step(old(Now()), Open) == Some(Now())
    {
      queryResult := None;
      queryEvent := false;
      isQuerying := true;
      timeoutOccurred := false;
      phase, openedAt, clock := Waiting, clock, clock + 1;
    }

    /** `expired` is whether the time is up while the event is not seen set. */
    method Wait(expired: bool) returns (success: bool)
      requires phase.Waiting? && (!expired ==> queryEvent)
      modifies this
      ensures success == !expired && Step(old(Now()), Wake(success)) == Some(Now())
    {
      success := !expired;
      phase, clock := Woken(success), clock + 1;
    }

    method FinishQuery() returns (r: Outcome)
      requires phase.Woken?
      modifies this
      ensures Step(old(Now()), Final) == Some(Now())
      ensures r == if old(phase).success then Returned(old(queryResult)) else TimedOut
    {
      isQuerying := false;
      if !phase.success {
        timeoutOccurred := true;
        r := TimedOut;
      } else {
        r := Returned(queryResult);
        returned := if queryResult.Some? then returned + {acceptedAt} else returned;
      }
      phase, clock := Idle, clock + 1;
    }

    method InternalDataRecv(text: string)
      modifies this
      ensures Step(old(Now()), Receive(text)) == Some(Now())
    {
      clock := clock + 1;
      if isQuerying && !timeoutOccurred {
        queryResult := Some(text);
        queryEvent := true;
        acceptedAt := clock - 1;
        return;
      }
      callback, called := callback + [text], called + {clock - 1};
    }

    method Close()
      modifies this
      ensures Step(old(Now()), Disconnect) == Some(Now())
    {
      timeoutOccurred := true;
      queryEvent := true;
      clock := clock + 1;
    }
  }

  // ---------- Windows ----------

  /** From action `i` up to action `k` a query is open: it has not had its final section. */
  ghost predicate Window(acts: seq<Action>, i: nat, k: nat) {
    i < k <= |acts| && acts[i].Open? && forall j | i < j < k :: !acts[j].Open? && !acts[j].Final?
  }

  ghost predicate OpenWindow(acts: seq<Action>, i: nat) {
    Window(acts, i, |acts|)
  }

  ghost predicate DisconnectIn(acts: seq<Action>, i: nat, n: nat)
    requires n <= |acts|
  {
    exists k | i < k < n :: acts[k].Disconnect?
  }

  /** `wait` found the event set. */
  ghost predicate WokenIn(acts: seq<Action>, i: nat, n: nat)
    requires n <= |acts|
  {
    exists k | i < k < n :: acts[k] == Wake(true)
  }

  /** `wait` came to an end. */
  ghost predicate EndedIn(acts: seq<Action>, i: nat, n: nat)
    requires n <= |acts|
  {
    exists k | i < k < n :: acts[k].Wake?
  }

  /** Message `k` came in the window opened at `i`, before any disconnect in it. */
  ghost predicate Accepted(acts: seq<Action>, i: nat, k: nat) {
    k < |acts| && acts[k].Receive? && Window(acts, i, k) && !DisconnectIn(acts, i, k)
  }

  /** Message `k` is the last one accepted in that window before action `n`. */
  ghost predicate LastAccepted(acts: seq<Action>, i: nat, k: nat, n: nat) {
    Accepted(acts, i, k) && k < n && forall later | k < later < n :: !Accepted(acts, i, later)
  }

  /** The window opened at `i` ends at action `n` with a return of message `k`. */
  ghost predicate Returns(acts: seq<Action>, i: nat, k: nat, n: nat) {
    && n < |acts| && acts[n].Final? && Window(acts, i, n)
    && WokenIn(acts, i, n) && LastAccepted(acts, i, k, n)
  }

  ghost predicate WindowsOk(acts: seq<Action>, s: State) {
    && s.clock == |acts| && (s.isQuerying <==> !s.phase.Idle?)
    && (s.isQuerying ==> OpenWindow(acts, s.openedAt))
    && (!s.isQuerying ==> forall i: nat :: !OpenWindow(acts, i))
  }

  ghost predicate ResultOk(acts: seq<Action>, s: State) {
    s.isQuerying ==>
      && (s.timeoutOccurred <==> DisconnectIn(acts, s.openedAt, |acts|))
      && (s.phase == Woken(true) <==> WokenIn(acts, s.openedAt, |acts|))
      && (s.queryResult == None ==> forall k: nat :: !Accepted(acts, s.openedAt, k))
      && (s.queryResult.Some? ==>
            && LastAccepted(acts, s.openedAt, s.acceptedAt, |acts|)
            && acts[s.acceptedAt] == Receive(s.queryResult.value))
      && (s.queryEvent <==> s.timeoutOccurred || s.queryResult.Some?)
      && (s.phase == Waiting <==> !EndedIn(acts, s.openedAt, |acts|))
      && (s.phase == Woken(true) ==> s.queryEvent)
  }

  /** The callback gets what no window accepts, callers get what their windows return. */
  ghost predicate FatesOk(acts: seq<Action>, s: State) {
    && (forall k: nat :: k in s.called <==> k < |acts| && acts[k].Receive? && forall i: nat :: !Accepted(acts, i, k))
    && (forall k: nat :: k in s.returned <==> exists i: nat, n: nat :: Returns(acts, i, k, n))
  }

  // ---------- One more action ----------

  lemma WindowStays(before: seq<Action>, a: Action, i: nat, k: nat)
    ensures k <= |before| ==> (Window(before + [a], i, k) <==> Window(before, i, k))
    ensures k == |before| + 1 && i < |before| ==>
              (Window(before + [a], i, k) <==> Window(before, i, |before|) && !a.Open? && !a.Final?)
    ensures k == |before| + 1 && i == |before| ==> (Window(before + [a], i, k) <==> a.Open?)
  {
    var acts := before + [a];
    assert acts[|before|] == a && forall j | 0 <= j < |before| :: acts[j] == before[j];
  }

  lemma DisconnectStays(before: seq<Action>, a: Action, i: nat, n: nat)
    requires i < |before| && n <= |before| + 1
    ensures DisconnectIn(before + [a], i, n) <==>
            DisconnectIn(before, i, if n <= |before| then n else |before|) || (n == |before| + 1 && a.Disconnect?)
  {
    var acts := before + [a];
    assert acts[|before|] == a;
    var m := if n <= |before| then n else |before|;
    if DisconnectIn(before, i, m) {
      var k :| i < k < m && before[k].Disconnect?;
      assert acts[k].Disconnect?;
    }
  }

  lemma WokenStays(before: seq<Action>, a: Action, i: nat, n: nat)
    requires i < |before| && n <= |before| + 1
    ensures WokenIn(before + [a], i, n) <==>
            WokenIn(before, i, if n <= |before| then n else |before|) || (n == |before| + 1 && a == Wake(true))
  {
    var acts := before + [a];
    assert acts[|before|] == a;
    var m := if n <= |before| then n else |before|;
    if WokenIn(before, i, m) {
      var k :| i < k < m && before[k] == Wake(true);
      assert acts[k] == Wake(true);
    }
  }

  lemma EndedStays(before: seq<Action>, a: Action, i: nat)
    requires i < |before|
    ensures EndedIn(before + [a], i, |before| + 1) <==> EndedIn(before, i, |before|) || a.Wake?
  {
    var acts := before + [a];
    assert acts[|before|] == a;
    if EndedIn(before, i, |before|) {
      var k :| i < k < |before| && before[k].Wake?;
      assert acts[k].Wake?;
    }
  }

  lemma AcceptedStays(before: seq<Action>, a: Action, i: nat, k: nat)
    ensures k < |before| ==> (Accepted(before + [a], i, k) <==> Accepted(before, i, k))
    ensures k == |before| ==>
              (Accepted(before + [a], i, k) <==> a.Receive? && OpenWindow(before, i) && !DisconnectIn(before, i, k))
  {
    if i < k <= |before| {
      WindowStays(before, a, i, k);
      DisconnectStays(before, a, i, k);
    }
  }

  lemma LastAcceptedStays(before: seq<Action>, a: Action, i: nat, k: nat, n: nat)
    requires n <= |before|
    ensures LastAccepted(before + [a], i, k, n) <==> LastAccepted(before, i, k, n)
  {
    hide Accepted;
    forall j: nat | j < n ensures Accepted(before + [a], i, j) <==> Accepted(before, i, j) {
      AcceptedStays(before, a, i, j);
    }
  }

  lemma ReturnsStays(before: seq<Action>, a: Action, i: nat, k: nat, n: nat)
    ensures n < |before| ==> (Returns(before + [a], i, k, n) <==> Returns(before, i, k, n))
    ensures n == |before| ==>
              (Returns(before + [a], i, k, n) <==>
               a.Final? && OpenWindow(before, i) && WokenIn(before, i, n) && LastAccepted(before, i, k, n))
  {
    if i < n <= |before| {
      WindowStays(before, a, i, n);
      WokenStays(before, a, i, n);
      LastAcceptedStays(before, a, i, k, n);
    }
  }

  lemma WindowsStep(before: seq<Action>, a: Action, s: State)
    requires WindowsOk(before, s) && Step(s, a).Some?
    ensures WindowsOk(before + [a], Step(s, a).value)
  {
    var n := |before|;
    WindowStays(before, a, s.openedAt, n + 1);
    WindowStays(before, a, n, n + 1);
    forall i: nat | !Step(s, a).value.isQuerying ensures !OpenWindow(before + [a], i) {
      if i <= n {
        WindowStays(before, a, i, n + 1);
        assert OpenWindow(before, i) <==> Window(before, i, n);
      }
    }
  }

  lemma ResultStep(before: seq<Action>, a: Action, s: State)
    requires WindowsOk(before, s) && ResultOk(before, s) && Step(s, a).Some?
    ensures ResultOk(before + [a], Step(s, a).value)
  {
    var acts, s', i := before + [a], Step(s, a).value, s.openedAt;
    if s.isQuerying && s'.isQuerying {
      DisconnectStays(before, a, i, |acts|);
      WokenStays(before, a, i, |acts|);
      EndedStays(before, a, i);
      forall k: nat | k < |acts|
        ensures Accepted(acts, i, k) <==>
                if k < |before| then Accepted(before, i, k) else a.Receive? && !DisconnectIn(before, i, k)
      {
        AcceptedStays(before, a, i, k);
      }
      hide Accepted, DisconnectIn, WokenIn, EndedIn;
    }
  }

  /** The one window open at a time is the one that the state describes. */
  lemma OneWindow(acts: seq<Action>, i: nat, j: nat, k: nat)
    requires Window(acts, i, k) && Window(acts, j, k)
    ensures i == j
  {
  }

  lemma CalledStep(before: seq<Action>, a: Action, s: State, k: nat)
    requires WindowsOk(before, s) && ResultOk(before, s) && FatesOk(before, s) && Step(s, a).Some?
    ensures var acts, s' := before + [a], Step(s, a).value;
            k in s'.called <==> k < |acts| && acts[k].Receive? && forall i: nat :: !Accepted(acts, i, k)
  {
    var acts := before + [a];
    forall i: nat ensures k < |before| ==> (Accepted(acts, i, k) <==> Accepted(before, i, k))
                  ensures k == |before| ==> (Accepted(acts, i, k) <==>
                                             a.Receive? && OpenWindow(before, i) && !DisconnectIn(before, i, k))
    {
      AcceptedStays(before, a, i, k);
    }
    hide Accepted;
    if k == |before| && s.isQuerying {
      forall i: nat | OpenWindow(before, i) ensures i == s.openedAt {
        OneWindow(before, i, s.openedAt, |before|);
      }
    }
  }

  lemma ReturnedStep(before: seq<Action>, a: Action, s: State, k: nat)
    requires WindowsOk(before, s) && ResultOk(before, s) && FatesOk(before, s) && Step(s, a).Some?
    ensures k in Step(s, a).value.returned <==> exists i: nat, n: nat :: Returns(before + [a], i, k, n)
  {
    var acts, m := before + [a], |before|;
    forall i: nat, n: nat ensures n < m ==> (Returns(acts, i, k, n) <==> Returns(before, i, k, n)) {
      ReturnsStays(before, a, i, k, n);
    }
    forall i: nat
      ensures Returns(acts, i, k, m) <==>
              a.Final? && OpenWindow(before, i) && WokenIn(before, i, m) && LastAccepted(before, i, k, m)
    {
      ReturnsStays(before, a, i, k, m);
    }
    if s.isQuerying {
      forall i: nat | OpenWindow(before, i) ensures i == s.openedAt {
        OneWindow(before, i, s.openedAt, m);
      }
    }
  }

  lemma FatesStep(before: seq<Action>, a: Action, s: State)
    requires WindowsOk(before, s) && ResultOk(before, s) && FatesOk(before, s) && Step(s, a).Some?
    ensures FatesOk(before + [a], Step(s, a).value)
  {
    var acts, s' := before + [a], Step(s, a).value;
    hide Accepted, Returns, Step;
    forall k: nat
      ensures k in s'.called <==> k < |acts| && acts[k].Receive? && forall i: nat :: !Accepted(acts, i, k)
      ensures k in s'.returned <==> exists i: nat, n: nat :: Returns(acts, i, k, n)
    {
      CalledStep(before, a, s, k);
      ReturnedStep(before, a, s, k);
    }
  }

  /** Over every run the flags describe the open window, and every message's fate is settled. */
  lemma {:induction false} RunKeepsOk(acts: seq<Action>)
    requires After(acts).Some?
    ensures var s := After(acts).value; WindowsOk(acts, s) && ResultOk(acts, s) && FatesOk(acts, s)
  {
    if |acts| > 0 {
      var before, a := acts[..|acts| - 1], acts[|acts| - 1];
      InitLast(acts);
      RunKeepsOk(before);
      hide WindowsOk, ResultOk, FatesOk, Step;
      WindowsStep(before, a, After(before).value);
      ResultStep(before, a, After(before).value);
      FatesStep(before, a, After(before).value);
    }
  }

  // ---------- Main results ----------

  /** A query about to return gives the last message accepted in its window; it gives None exactly
      when none was accepted, and only if `disconnect` ran in the window. */
  lemma ReturnedIsLastAccepted(acts: seq<Action>)
    requires After(acts).Some? && After(acts).value.phase == Woken(true)
    ensures var s := After(acts).value;
            && OpenWindow(acts, s.openedAt)
            && (s.queryResult.Some? ==>
                  && LastAccepted(acts, s.openedAt, s.acceptedAt, |acts|)
                  && acts[s.acceptedAt] == Receive(s.queryResult.value))
            && (s.queryResult == None <==> forall k: nat :: !Accepted(acts, s.openedAt, k))
            && (s.queryResult == None ==> DisconnectIn(acts, s.openedAt, |acts|))
  {
    RunKeepsOk(acts);
  }

  /** A message goes to the user's callback exactly when no window is open or a disconnect happened
      in the open one; otherwise it becomes the result. */
  lemma CallbackExactly(acts: seq<Action>, m: string)
    requires After(acts).Some?
    ensures After(acts + [Receive(m)]).Some?
    ensures var s, s' := After(acts).value, After(acts + [Receive(m)]).value;
            if (exists i: nat :: OpenWindow(acts, i) && !DisconnectIn(acts, i, |acts|))
            then s'.queryResult == Some(m) && s'.callback == s.callback
            else s'.queryResult == s.queryResult && s'.callback == s.callback + [m]
  {
    RunGrows(Step, INITIAL, acts, Receive(m));
    RunKeepsOk(acts);
    var s := After(acts).value;
    if i: nat :| OpenWindow(acts, i) && !DisconnectIn(acts, i, |acts|) {
      OneWindow(acts, i, s.openedAt, |acts|);
    }
  }

  /** What wakes a query: while it waits, `wait` can find the event set exactly if a disconnect happened
      in its window or a message was accepted in it; and then the query can return. */
  lemma WakesExactly(acts: seq<Action>, i: nat)
    requires After(acts).Some? && OpenWindow(acts, i) && !EndedIn(acts, i, |acts|)
    ensures After(acts + [Wake(true)]).Some? <==> DisconnectIn(acts, i, |acts|) || exists k: nat :: Accepted(acts, i, k)
    ensures After(acts + [Wake(true)]).Some? ==> After(acts + [Wake(true)] + [Final]).Some?
    ensures After(acts + [Wake(false)] + [Final]).Some?
  {
    RunKeepsOk(acts);
    var s := After(acts).value;
    OneWindow(acts, i, s.openedAt, |acts|);
    RunGrows(Step, INITIAL, acts, Wake(true));
    RunGrows(Step, INITIAL, acts, Wake(false));
    if s.queryEvent {
      RunGrows(Step, INITIAL, acts + [Wake(true)], Final);
    }
    RunGrows(Step, INITIAL, acts + [Wake(false)], Final);
  }

  /** Every other section can run whenever it comes up: a query can be opened exactly when none is open,
      messages and disconnects are taken at any time. */
  lemma OpensExactly(acts: seq<Action>, m: string)
    requires After(acts).Some?
    ensures After(acts + [Open]).Some? <==> !exists i: nat :: OpenWindow(acts, i)
    ensures After(acts + [Receive(m)]).Some? && After(acts + [Disconnect]).Some?
  {
    RunKeepsOk(acts);
    RunGrows(Step, INITIAL, acts, Open);
    RunGrows(Step, INITIAL, acts, Receive(m));
    RunGrows(Step, INITIAL, acts, Disconnect);
    if After(acts).value.isQuerying {
      assert OpenWindow(acts, After(acts).value.openedAt);
    }
  }

  /** The fate of every message accepted in a window that has ended, in every run: it is returned if
      and only if `wait` found the event set and no later message was accepted in that window; either
      way the callback never gets it, so otherwise it reaches nobody. */
  lemma AcceptedMessageFate(acts: seq<Action>, i: nat, k: nat, n: nat)
    requires After(acts).Some?
    requires n < |acts| && acts[n].Final? && Window(acts, i, n) && Accepted(acts, i, k) && k < n
    ensures var s := After(acts).value;
            && (k in s.returned <==> WokenIn(acts, i, n) && LastAccepted(acts, i, k, n))
            && k !in s.called
  {
    RunKeepsOk(acts);
    forall j: nat, m: nat | Returns(acts, j, k, m) ensures j == i && m == n {
      OneWindow(acts, i, j, k);
    }
    if WokenIn(acts, i, n) && LastAccepted(acts, i, k, n) {
      assert Returns(acts, i, k, n);
    }
  }

  /** Every message received goes to the callback or is accepted in one window, and to the callback
      exactly if no window accepts it; nobody gets a message that was not received. */
  lemma EveryMessageHasOneFate(acts: seq<Action>, k: nat)
    requires After(acts).Some?
    ensures var s := After(acts).value;
            && (k in s.called <==> k < |acts| && acts[k].Receive? && forall i: nat :: !Accepted(acts, i, k))
            && (k in s.returned ==> k < |acts| && acts[k].Receive? && k !in s.called)
            && |s.callback| == |s.called|
  {
    RunKeepsOk(acts);
    CallbackCount(acts);
  }

  lemma CountStep(s: State, a: Action)
    requires s.clock !in s.called && |s.callback| == |s.called| && Step(s, a).Some?
    ensures |Step(s, a).value.callback| == |Step(s, a).value.called|
  {
  }

  lemma {:induction false} CallbackCount(acts: seq<Action>)
    requires After(acts).Some?
    ensures |After(acts).value.callback| == |After(acts).value.called|
  {
    if |acts| > 0 {
      var before := acts[..|acts| - 1];
      CallbackCount(before);
      RunKeepsOk(before);
      hide ResultOk, Step;
      CountStep(After(before).value, acts[|acts| - 1]);
    }
  }

  /** Such a loss happens: the answer comes after `wait` gave up but before the final section, `query`
      raises TimeoutError, and neither its caller nor the callback gets the answer. */
  lemma LateAnswerIsDropped(m: string) returns (acts: seq<Action>)
    ensures acts == [Open, Wake(false), Receive(m), Final] && After(acts).Some?
    ensures Accepted(acts, 0, 2) && Window(acts, 0, 3)
    ensures After(acts).value.returned == {} && After(acts).value.called == {} && After(acts).value.callback == []
  {
    assert After([]) == Some(INITIAL);
    hide Run;
    acts := RunThen(Step, INITIAL, [], Open);
    acts := RunThen(Step, INITIAL, acts, Wake(false));
    acts := RunThen(Step, INITIAL, acts, Receive(m));
    acts := RunThen(Step, INITIAL, acts, Final);
  }
}
