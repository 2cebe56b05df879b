/** The single slot for the reply that a querier waits for: Java's `AtomicReference` to a future,
    Rust's mutex around a oneshot sender. Calls of any number of threads take effect one at a time,
    at their `set`, `getAndSet` or locked section. */
module SlotQuerier {
  import opened Seqs
  import opened Options

  /** A future is named by the position of the action that set it. */
  datatype Action =
    | Send                        // a caller's request goes out; its future is set only later
    | Query                       // `pendingFuture.set(future)`
    | Receive(msg: string)        // the reader thread: take the slot, complete what was in it
    | Close                       // take the slot, cancel what was in it
    | SettledElsewhere(f: nat)    // its owner cancels future f, or drops it on a timeout

  datatype State = State(
    clock: nat,
    pending: Option<nat>,
    futures: set<nat>,
    settled: set<nat>,
    completedBy: map<nat, nat>)   // future -> position of the message that completed it

  const INITIAL := State(0, None, {}, {}, map[])

  function Step(s: State, a: Action): State {
    var t := s.(clock := s.clock + 1);
    match a
    case Send => t
    case Query => t.(pending := Some(s.clock), futures := s.futures + {s.clock})
    case Receive(_) =>
      if s.pending.Some? && s.pending.value !in s.settled then
        var f := s.pending.value;
        t.(pending := None, settled := s.settled + {f}, completedBy := s.completedBy[f := s.clock])
      else t.(pending := None)
    case Close =>
      if s.pending.Some? then t.(pending := None, settled := s.settled + {s.pending.value}) else t
    case SettledElsewhere(f) => if f in s.futures then t.(settled := s.settled + {f}) else t
  }

  function After(acts: seq<Action>): State {
    if |acts| == 0 then INITIAL else Step(After(acts[..|acts| - 1]), acts[|acts| - 1])
  }

  /** The querier; each method is one atomic action on the slot. */
  class OpenSocketQuerier {
    var clock: nat
    var pending: Option<nat>
    var futures: set<nat>
    var settled: set<nat>
    var completedBy: map<nat, nat>

    function Now(): State
      reads this
    {
      State(clock, pending, futures, settled, completedBy)
    }

    constructor ()
      ensures Now() == INITIAL
    {
      clock, pending, futures, settled, completedBy := 0, None, {}, {}, map[];
    }

    /** `tcpClient.sendData(packet)`: the slot is untouched. */
    method SendRequest()
      modifies this`clock
      ensures Now() == Step(old(Now()), Send)
    {
      clock := clock + 1;
    }

    /** `queryL` behind that. */
    method SetFuture() returns (future: nat)
      modifies this
      ensures Now() == Step(old(Now()), Query) && future == old(clock)
    {
      future := clock;
      futures := futures + {future};
      pending := Some(future);
      clock := clock + 1;
    }

    method GetAndClear() returns (future: Option<nat>)
      modifies this`pending
      ensures future == old(pending) && pending == None
    {
      future, pending := pending, None;
    }

    method OnDataReceived(data: string)
      modifies this
      ensures Now() == Step(old(Now()), Receive(data))
    {
      var future := GetAndClear();
      if future.Some? && future.value !in settled {
        completedBy := completedBy[future.value := clock];
        settled := settled + {future.value};
      }
      clock := clock + 1;
    }

    method CloseQuerier()
      modifies this
      ensures Now() == Step(old(Now()), Close)
    {
      var future := GetAndClear();
      if future.Some? && future.value !in settled {
        settled := settled + {future.value};
      }
      assert future.Some? ==> old(settled) + {future.value} == settled;
      clock := clock + 1;
    }
  }

  // ---------- Which message completes which future ----------

  /** The actions that empty or refill the slot. */
  predicate Touches(a: Action) {
    a.Query? || a.Receive? || a.Close?
  }

  ghost predicate Untouched(acts: seq<Action>, i: nat, j: nat)
    requires j <= |acts|
  {
    forall k | i < k < j :: !Touches(acts[k])
  }

  ghost predicate SettledBetween(acts: seq<Action>, f: nat, j: nat)
    requires j <= |acts|
  {
    exists k | f < k < j :: acts[k] == SettledElsewhere(f)
  }

  /** Message `j` is the first thing that happens to the slot after future `f` was put there, and
      the future is still open. */
  ghost predicate Matches(acts: seq<Action>, f: nat, j: nat) {
    && f < j < |acts| && acts[f].Query? && acts[j].Receive?
    && Untouched(acts, f, j)
    && !SettledBetween(acts, f, j)
  }

  ghost predicate InSlot(acts: seq<Action>, f: nat) {
    f < |acts| && acts[f].Query? && Untouched(acts, f, |acts|)
  }

  /** The slot holds the last future set, if nothing touched it since; it is settled only from outside. */
  ghost predicate SlotOk(acts: seq<Action>, s: State) {
    && s.clock == |acts|
    && (forall f: nat :: s.pending == Some(f) <==> InSlot(acts, f))
    && (forall f: nat :: f in s.futures <==> f < |acts| && acts[f].Query?)
    && (forall f: nat | f in s.settled :: f in s.futures)
    && (s.pending.Some? ==> (s.pending.value in s.settled <==> SettledBetween(acts, s.pending.value, |acts|)))
  }

  lemma UntouchedStep(before: seq<Action>, a: Action, f: nat)
    requires f < |before|
    ensures Untouched(before + [a], f, |before| + 1) <==> Untouched(before, f, |before|) && !Touches(a)
  {
    var acts := before + [a];
    assert acts[|before|] == a;
    assert forall k | 0 <= k < |before| :: acts[k] == before[k];
  }

  lemma SettledStep(before: seq<Action>, a: Action, f: nat)
    requires f < |before|
    ensures SettledBetween(before + [a], f, |before| + 1) <==> SettledBetween(before, f, |before|) || a == SettledElsewhere(f)
  {
    var acts := before + [a];
    assert acts[|before|] == a;
    if SettledBetween(before, f, |before|) {
      var k :| f < k < |before| && before[k] == SettledElsewhere(f);
      assert acts[k] == before[k];
    }
  }

  lemma SlotStep(before: seq<Action>, a: Action, s: State)
    requires SlotOk(before, s)
    ensures SlotOk(before + [a], Step(s, a))
  {
    var acts, s' := before + [a], Step(s, a);
    var n := |before|;
    assert acts[n] == a && forall k | 0 <= k < n :: acts[k] == before[k];
    forall f: nat ensures s'.pending == Some(f) <==> InSlot(acts, f) {
      if f < n {
        UntouchedStep(before, a, f);
      }
    }
    if s'.pending.Some? && !a.Query? {
      SettledStep(before, a, s'.pending.value);
    }
  }

  lemma MatchesStep(before: seq<Action>, a: Action, f: nat, j: nat)
    ensures j < |before| ==> (Matches(before + [a], f, j) <==> Matches(before, f, j))
    ensures j == |before| ==> (Matches(before + [a], f, j) <==>
                               a.Receive? && InSlot(before, f) && !SettledBetween(before, f, j))
  {
    var acts := before + [a];
    assert forall k | 0 <= k < |before| :: acts[k] == before[k];
    if j <= |before| {
      assert Untouched(acts, f, j) <==> Untouched(before, f, j);
      assert SettledBetween(acts, f, j) <==> SettledBetween(before, f, j);
    }
  }

  lemma CompletedStep(before: seq<Action>, a: Action, f: nat, j: nat)
    requires SlotOk(before, After(before))
    requires forall g: nat, i: nat :: (g in After(before).completedBy && After(before).completedBy[g] == i) <==> Matches(before, g, i)
    requires forall g | g in After(before).completedBy :: Matches(before, g, After(before).completedBy[g])
    ensures var s' := Step(After(before), a);
            && ((f in s'.completedBy && s'.completedBy[f] == j) <==> Matches(before + [a], f, j))
            && (f in s'.completedBy ==> Matches(before + [a], f, s'.completedBy[f]))
  {
    var s, s' := After(before), Step(After(before), a);
    MatchesStep(before, a, f, j);
    if f in s'.completedBy {
      MatchesStep(before, a, f, s'.completedBy[f]);
    }
    if f in s.completedBy {
      assert Matches(before, f, s.completedBy[f]);
    }
    hide Untouched, SettledBetween;
  }

  /** In every run a message completes a future if and only if it matches it. */
  lemma {:induction false} CompletedExactly(acts: seq<Action>)
    ensures SlotOk(acts, After(acts))
    ensures forall f: nat, j: nat :: (f in After(acts).completedBy && After(acts).completedBy[f] == j) <==> Matches(acts, f, j)
    ensures forall f | f in After(acts).completedBy :: Matches(acts, f, After(acts).completedBy[f])
  {
    if |acts| > 0 {
      var before, a := acts[..|acts| - 1], acts[|acts| - 1];
      InitLast(acts);
      CompletedExactly(before);
      SlotStep(before, a, After(before));
      hide SlotOk, Matches, Step;
      forall f: nat, j: nat
        ensures (f in After(acts).completedBy && After(acts).completedBy[f] == j) <==> Matches(acts, f, j)
      {
        CompletedStep(before, a, f, j);
      }
      forall f | f in After(acts).completedBy ensures Matches(acts, f, After(acts).completedBy[f]) {
        CompletedStep(before, a, f, 0);
      }
    }
  }

  /** The querier was closed with future `f` in the slot. */
  ghost predicate ClosedOver(acts: seq<Action>, f: nat) {
    exists j | f < j < |acts| :: acts[j].Close? && Untouched(acts, f, j)
  }

  lemma ClosedStep(before: seq<Action>, a: Action, f: nat)
    requires f < |before|
    ensures ClosedOver(before + [a], f) <==> ClosedOver(before, f) || (a.Close? && Untouched(before, f, |before|))
  {
    var acts := before + [a];
    assert acts[|before|] == a && forall k | 0 <= k < |before| :: acts[k] == before[k];
    forall j | f < j <= |before| ensures Untouched(acts, f, j) <==> Untouched(before, f, j) {
    }
    if ClosedOver(before, f) {
      var j :| f < j < |before| && before[j].Close? && Untouched(before, f, j);
      assert acts[j].Close? && Untouched(acts, f, j);
    }
    if a.Close? && Untouched(before, f, |before|) {
      assert acts[|before|].Close? && Untouched(acts, f, |before|);
    }
  }

  /** What settles a future, in every run: a message that completes it, a close that finds it in the
      slot, or its owner; nothing else does, and each of these does. */
  lemma {:induction false} SettledExactly(acts: seq<Action>, f: nat)
    ensures f in After(acts).settled <==>
            && f < |acts| && acts[f].Query?
            && (f in After(acts).completedBy || ClosedOver(acts, f) || SettledBetween(acts, f, |acts|))
  {
    if |acts| > 0 {
      var before, a := acts[..|acts| - 1], acts[|acts| - 1];
      InitLast(acts);
      SettledExactly(before, f);
      CompletedExactly(before);
      CompletedExactly(acts);
      if f < |before| {
        ClosedStep(before, a, f);
        SettledStep(before, a, f);
        hide Untouched, SettledBetween, ClosedOver, Matches;
        SettlingStep(before, a, f);
      }
    }
  }

  lemma SettlingStep(before: seq<Action>, a: Action, f: nat)
    requires SlotOk(before, After(before)) && f < |before|
    requires f in After(before).completedBy ==> f in After(before).settled
    ensures var s, s' := After(before), Step(After(before), a);
            && (f in s'.completedBy ==> f in s.completedBy || f in s'.settled)
            && (f in s.completedBy ==> f in s'.completedBy)
            && (f in s'.settled <==>
                || f in s.settled || f in s'.completedBy
                || (a.Close? && InSlot(before, f)) || (a == SettledElsewhere(f) && before[f].Query?))
  {
  }

  /** Matching is one-to-one and keeps the order: between two completed futures, the first one's
      message arrives even before the second one is set. */
  lemma MatchingIsOrdered(acts: seq<Action>, f: nat, f': nat)
    requires f in After(acts).completedBy && f' in After(acts).completedBy && f < f'
    ensures After(acts).completedBy[f] < f' < After(acts).completedBy[f']
  {
    CompletedExactly(acts);
  }

  /** A future that was overwritten before any message is never completed, whatever follows. */
  lemma OverwrittenIsNeverCompleted(acts: seq<Action>, f: nat, k: nat, more: seq<Action>)
    requires f < k < |acts| && acts[f].Query? && acts[k].Query? && Untouched(acts, f, k)
    ensures f !in After(acts + more).completedBy
  {
    var all := acts + more;
    CompletedExactly(all);
    forall j: nat ensures !Matches(all, f, j) {
      if f < j < k {
        assert !Touches(acts[j]) && all[j] == acts[j];
      }
      assert Touches(all[k]) && all[k] == acts[k];
    }
  }

  /** A request goes out before its future is set, so its reply may come in between. Such a reply never
      completes that future: it completes the older one that is still open in the slot, if there is
      one, and nothing otherwise. */
  lemma EarlyReplyMissesItsFuture(acts: seq<Action>, r: nat, j: nat, f: nat)
    requires r < j < f < |acts| && acts[r].Send? && acts[j].Receive? && acts[f].Query?
    ensures f in After(acts).completedBy ==> After(acts).completedBy[f] > f
    ensures forall g: nat :: (g in After(acts).completedBy && After(acts).completedBy[g] == j) <==> Matches(acts, g, j)
    ensures forall g: nat | Matches(acts, g, j) :: g < j
  {
    CompletedExactly(acts);
  }

  /** With an empty slot the reply is lost, and the future waits for another. */
  lemma EarlyReplyIsLost(m: string) returns (acts: seq<Action>)
    ensures acts == [Send, Receive(m), Query]
    ensures After(acts).completedBy == map[] && After(acts).pending == Some(2) && 2 !in After(acts).settled
  {
    acts := [Send, Receive(m), Query];
    assert acts[..2] == [Send, Receive(m)] && acts[..2][..1] == [Send] && [Send][..0] == [];
    assert After([Send]) == INITIAL.(clock := 1);
    assert After(acts[..2]) == INITIAL.(clock := 2);
  }
}
