/** The C++ querier: any number of threads in `query_l`, numbered by a counter, waiting on a map of
    answers keyed by the printed number. Each action is one critical section under `mtx_`. */
module CppQuerier {
  import opened Seqs
  import opened Options
  import opened Runs

  const TWO_TO_THE_64 := 0x1_0000_0000_0000_0000

  // ---------- `std::to_string` ----------

  function Digit(d: int): char
    requires 0 <= d < 10
  {
    ('0' as int + d) as char
  }

  function ToString(n: nat): (s: string)
    ensures |s| > 0
  {
    if n < 10 then [Digit(n)] else ToString(n / 10) + [Digit(n % 10)]
  }

  /** Different numbers print differently. */
  lemma {:induction false} ToStringInjective(a: nat, b: nat)
    requires ToString(a) == ToString(b)
    ensures a == b
  {
    var s, t := ToString(a), ToString(b);
    if a >= 10 && b >= 10 {
      assert s[..|s| - 1] == ToString(a / 10) && t[..|t| - 1] == ToString(b / 10);
      assert s[|s| - 1] == Digit(a % 10) && t[|t| - 1] == Digit(b % 10);
      ToStringInjective(a / 10, b / 10);
    }
  }

  // ---------- The querier ----------

  /** A message, and its position among the actions. */
  datatype Answer = Answer(msg: string, at: nat)

  /** A caller's question number, and the position of its first critical section. */
  datatype Ticket = Ticket(qid: nat, since: nat)

  datatype Action =
    | Query(t: nat)
    | Receive(msg: string)
    | Return(t: nat)
    | TimeOut(t: nat)

  datatype State = State(
    clock: nat,
    questionCounter: nat,
    answers: map<string, Answer>,
    waiting: map<nat, Ticket>,
    returned: seq<Answer>)

  const INITIAL := State(0, 0, map[], map[], [])

  /** The `uint64_t` increment. */
  function Next(counter: nat): nat {
    (counter + 1) % TWO_TO_THE_64
  }

  function Step(s: State, a: Action): Option<State> {
    var u := s.(clock := s.clock + 1);
    match a
    case Query(t) =>
      if t in s.waiting then None
      else Some(u.(questionCounter := Next(s.questionCounter),
                   waiting := s.waiting[t := Ticket(Next(s.questionCounter), s.clock)]))
    case Receive(m) =>
      Some(u.(answers := s.answers[ToString(s.questionCounter) := Answer(m, s.clock)]))
    case Return(t) =>
      if t in s.waiting && ToString(s.waiting[t].qid) in s.answers then
        var qid := ToString(s.waiting[t].qid);
        Some(u.(returned := s.returned + [s.answers[qid]],
                answers := s.answers - {qid},
                waiting := s.waiting - {t}))
      else None
    case TimeOut(t) =>
      if t in s.waiting && ToString(s.waiting[t].qid) !in s.answers then Some(u.(waiting := s.waiting - {t})) else None
  }

  function After(acts: seq<Action>): Option<State> {
    Run(Step, INITIAL, acts)
  }

  class OpenSocketQuerier {
    var clock: nat
    var questionCounter: nat
    var answers: map<string, Answer>
    var waiting: map<nat, Ticket>
    var returned: seq<Answer>

    function Now(): State
      reads this
    {
      State(clock, questionCounter, answers, waiting, returned)
    }

    constructor ()
      ensures Now() == INITIAL
    {
      clock, questionCounter, answers, waiting, returned := 0, 0, map[], map[], [];
    }

    /** `query_l` up to the wait, on thread `t`. */
    method Ask(t: nat) returns (qid: string)
      requires t !in waiting
      modifies this
      ensures Step(old(Now()), Query(t)) == Some(Now()) && qid == ToString(waiting[t].qid)
    {
      questionCounter := Next(questionCounter);
      qid := ToString(questionCounter);
      waiting := waiting[t := Ticket(questionCounter, clock)];
      clock := clock + 1;
    }

    method HandleReceivedData(data: string)
      modifies this
      ensures Step(old(Now()), Receive(data)) == Some(Now())
    {
      var qid := ToString(questionCounter);
      answers := answers[qid := Answer(data, clock)];
      clock := clock + 1;
    }

    /** `query_l` when it is woken: it returns once its answer is there; `expired` makes it give up
        otherwise. */
    method Wake(t: nat, expired: bool) returns (ans: Option<string>)
      requires t in waiting
      modifies this
      ensures ans.Some? ==> Step(old(Now()), Return(t)) == Some(Now()) && ans.value == returned[|returned| - 1].msg
      ensures ans.None? && expired ==> Step(old(Now()), TimeOut(t)) == Some(Now())
      ensures ans.None? && !expired ==> Now() == old(Now()) && Step(Now(), Return(t)) == None
    {
      var qid := ToString(waiting[t].qid);
      if qid in answers {
        ans := Some(answers[qid].msg);
        returned := returned + [answers[qid]];
        answers := answers - {qid};
        waiting := waiting - {t};
        clock := clock + 1;
      } else {
        ans := None;
        if expired {
          waiting := waiting - {t};
          clock := clock + 1;
        }
      }
    }
  }

  // ---------- Epochs ----------

  /** The number of `query_l` calls that have started: the value of the counter, below 2^64. */
  function Queries(acts: seq<Action>): nat {
    if |acts| == 0 then 0
    else Queries(acts[..|acts| - 1]) + (if acts[|acts| - 1].Query? then 1 else 0)
  }

  /** The counter before action `i`. */
  function CounterAt(acts: seq<Action>, i: nat): nat
    requires i <= |acts|
  {
    Queries(acts[..i])
  }

  lemma {:induction false} CounterGrows(acts: seq<Action>, i: nat, j: nat)
    requires i <= j <= |acts|
    ensures CounterAt(acts, i) <= CounterAt(acts, j)
    decreases j
  {
    if i < j {
      TakeNext(acts, j - 1);
      CounterGrows(acts, i, j - 1);
    }
  }

  lemma CounterStep(acts: seq<Action>, i: nat)
    requires i < |acts|
    ensures CounterAt(acts, i + 1) == CounterAt(acts, i) + (if acts[i].Query? then 1 else 0)
  {
    TakeNext(acts, i);
  }

  lemma CounterOfPrefix(before: seq<Action>, a: Action, i: nat)
    requires i <= |before|
    ensures CounterAt(before + [a], i) == CounterAt(before, i)
  {
    assert (before + [a])[..i] == before[..i];
  }

  /** Message `j` is the last one received before action `n` while the counter stood where it
      stood when `j` arrived. */
  ghost predicate LastOfEpoch(acts: seq<Action>, j: nat, n: nat)
    requires n <= |acts|
  {
    && j < n && acts[j].Receive?
    && forall k | j < k < n && acts[k].Receive? :: CounterAt(acts, k) != CounterAt(acts, j)
  }

  ghost predicate AnswerOk(acts: seq<Action>, key: string, x: Answer) {
    LastOfEpoch(acts, x.at, |acts|) && acts[x.at].msg == x.msg && key == ToString(CounterAt(acts, x.at))
  }

  ghost predicate TicketOk(acts: seq<Action>, t: nat, w: Ticket) {
    w.since < |acts| && acts[w.since] == Query(t) && w.qid == CounterAt(acts, w.since + 1)
  }

  /** Keys are printed counter values already reached, each answer is the last of its epoch, and
      what was returned is gone. */
  ghost predicate EpochsOk(acts: seq<Action>, s: State) {
    && s.clock == |acts| && s.questionCounter == Queries(acts)
    && (forall t | t in s.waiting :: TicketOk(acts, t, s.waiting[t]))
    && (forall key | key in s.answers :: AnswerOk(acts, key, s.answers[key]))
  }

  ghost predicate ReturnsOk(s: State) {
    && (forall i | 0 <= i < |s.returned| :: s.returned[i].at < s.clock)
    && (forall i, j | 0 <= i < j < |s.returned| :: s.returned[i].at != s.returned[j].at)
    && (forall i, key | 0 <= i < |s.returned| && key in s.answers :: s.returned[i].at != s.answers[key].at)
  }

  /** Message `j` was returned, or is on file under its printed epoch. */
  ghost predicate Kept(acts: seq<Action>, s: State, j: nat)
    requires j < |acts| && acts[j].Receive?
  {
    || (exists i | 0 <= i < |s.returned| :: s.returned[i] == Answer(acts[j].msg, j))
    || (var key := ToString(CounterAt(acts, j)); key in s.answers && s.answers[key] == Answer(acts[j].msg, j))
  }

  /** No answer is lost: the last message of every epoch is kept. */
  ghost predicate FiledOk(acts: seq<Action>, s: State) {
    forall j: nat | LastOfEpoch(acts, j, |acts|) :: Kept(acts, s, j)
  }

  /** What was returned belongs to no epoch that is still waited for. */
  ghost predicate NobodyWaitsFor(acts: seq<Action>, s: State) {
    forall i, t | 0 <= i < |s.returned| && t in s.waiting ::
      s.returned[i].at < |acts| && CounterAt(acts, s.returned[i].at) != s.waiting[t].qid
  }

  lemma TicketStays(before: seq<Action>, a: Action, t: nat, w: Ticket)
    requires TicketOk(before, t, w)
    ensures TicketOk(before + [a], t, w)
  {
    CounterOfPrefix(before, a, w.since + 1);
  }

  lemma LastOfEpochStays(before: seq<Action>, a: Action, j: nat)
    requires LastOfEpoch(before, j, |before|)
    requires a.Receive? ==> Queries(before) != CounterAt(before, j)
    ensures LastOfEpoch(before + [a], j, |before| + 1)
  {
    var acts := before + [a];
    CounterOfPrefix(before, a, j);
    forall k | j < k < |acts| && acts[k].Receive? ensures CounterAt(acts, k) != CounterAt(acts, j) {
      CounterOfPrefix(before, a, k);
      if k == |before| {
        TakeAll(before);
      }
    }
  }

  lemma AnswerStays(before: seq<Action>, a: Action, key: string, x: Answer)
    requires AnswerOk(before, key, x)
    requires a.Receive? ==> key != ToString(Queries(before))
    ensures AnswerOk(before + [a], key, x)
  {
    LastOfEpochStays(before, a, x.at);
    CounterOfPrefix(before, a, x.at);
  }

  lemma AnswerArrives(before: seq<Action>, m: string)
    ensures AnswerOk(before + [Receive(m)], ToString(Queries(before)), Answer(m, |before|))
  {
    CounterOfPrefix(before, Receive(m), |before|);
    TakeAll(before);
  }

  lemma EpochsStep(before: seq<Action>, a: Action, s: State)
    requires EpochsOk(before, s) && Step(s, a).Some? && Queries(before + [a]) < TWO_TO_THE_64
    ensures EpochsOk(before + [a], Step(s, a).value)
  {
    var acts, s' := before + [a], Step(s, a).value;
    InitOfAppend(before, a);
    forall t | t in s'.waiting ensures TicketOk(acts, t, s'.waiting[t]) {
      if t in s.waiting {
        TicketStays(before, a, t, s.waiting[t]);
      } else {
        TakeAll(acts);
      }
    }
    forall key | key in s'.answers ensures AnswerOk(acts, key, s'.answers[key]) {
      if a.Receive? && key == ToString(Queries(before)) {
        AnswerArrives(before, a.msg);
      } else {
        AnswerStays(before, a, key, s.answers[key]);
      }
    }
  }

  /** Answers under different keys are different messages. */
  lemma AnswersDiffer(acts: seq<Action>, s: State)
    requires EpochsOk(acts, s)
    ensures forall key, key' | key in s.answers && key' in s.answers && key != key' :: s.answers[key].at != s.answers[key'].at
  {
    forall key, key' | key in s.answers && key' in s.answers && key != key'
      ensures s.answers[key].at != s.answers[key'].at
    {
      assert AnswerOk(acts, key, s.answers[key]) && AnswerOk(acts, key', s.answers[key']);
    }
  }

  lemma ReturnsStep(before: seq<Action>, a: Action, s: State)
    requires EpochsOk(before, s) && ReturnsOk(s) && Step(s, a).Some?
    ensures ReturnsOk(Step(s, a).value)
  {
    forall key | key in s.answers ensures s.answers[key].at < s.clock {
      assert AnswerOk(before, key, s.answers[key]);
    }
    AnswersDiffer(before, s);
    hide EpochsOk, AnswerOk, ToString, CounterAt, LastOfEpoch;
  }

  lemma LastOfEpochBefore(before: seq<Action>, a: Action, j: nat)
    requires LastOfEpoch(before + [a], j, |before| + 1)
    ensures j < |before| ==> LastOfEpoch(before, j, |before|) && (a.Receive? ==> CounterAt(before, j) != Queries(before))
    ensures j == |before| ==> a.Receive?
  {
    var acts := before + [a];
    if j < |before| {
      CounterOfPrefix(before, a, j);
      forall k | j < k < |before| && before[k].Receive? ensures CounterAt(before, k) != CounterAt(before, j) {
        assert acts[k] == before[k];
        CounterOfPrefix(before, a, k);
      }
      if a.Receive? {
        assert acts[|before|] == a;
        CounterOfPrefix(before, a, |before|);
        TakeAll(before);
      }
    }
  }

  lemma KeptStep(before: seq<Action>, a: Action, s: State, j: nat)
    requires EpochsOk(before, s) && Step(s, a).Some?
    requires j < |before| && before[j].Receive? && Kept(before, s, j)
    requires a.Receive? ==> CounterAt(before, j) != Queries(before)
    ensures Kept(before + [a], Step(s, a).value, j)
  {
    var s' := Step(s, a).value;
    CounterOfPrefix(before, a, j);
    if a.Receive? && ToString(CounterAt(before, j)) == ToString(Queries(before)) {
      ToStringInjective(CounterAt(before, j), Queries(before));
    }
    if i :| 0 <= i < |s.returned| && s.returned[i] == Answer(before[j].msg, j) {
      assert s'.returned[i] == s.returned[i];
    } else if a.Return? && ToString(s.waiting[a.t].qid) == ToString(CounterAt(before, j)) {
      assert s'.returned[|s.returned|] == Answer(before[j].msg, j);
    }
  }

  lemma FiledStep(before: seq<Action>, a: Action, s: State)
    requires EpochsOk(before, s) && FiledOk(before, s) && Step(s, a).Some?
    ensures FiledOk(before + [a], Step(s, a).value)
  {
    var acts, s' := before + [a], Step(s, a).value;
    forall j: nat | LastOfEpoch(acts, j, |acts|) ensures Kept(acts, s', j) {
      LastOfEpochBefore(before, a, j);
      if j < |before| {
        KeptStep(before, a, s, j);
      } else {
        CounterOfPrefix(before, a, |before|);
        TakeAll(before);
      }
    }
  }

  lemma AnswerIsInEpoch(acts: seq<Action>, t: nat, w: Ticket, x: Answer)
    requires TicketOk(acts, t, w) && AnswerOk(acts, ToString(w.qid), x)
    ensures CounterAt(acts, x.at) == w.qid && w.since < x.at
  {
    ToStringInjective(w.qid, CounterAt(acts, x.at));
    CounterStep(acts, w.since);
    if x.at <= w.since {
      CounterGrows(acts, x.at, w.since);
    }
  }

  lemma LaterTicketIsHigher(acts: seq<Action>, t: nat, v: Ticket, u: nat, w: Ticket)
    requires TicketOk(acts, t, v) && TicketOk(acts, u, w) && v.since < w.since
    ensures v.qid < w.qid
  {
    CounterGrows(acts, v.since + 1, w.since);
    CounterStep(acts, w.since);
  }

  lemma OthersWaitForOthers(acts: seq<Action>, s: State, t: nat, u: nat)
    requires EpochsOk(acts, s) && t in s.waiting && u in s.waiting && t != u
    ensures s.waiting[t].qid != s.waiting[u].qid
  {
    var v, w := s.waiting[t], s.waiting[u];
    assert TicketOk(acts, t, v) && TicketOk(acts, u, w);
    if v.since < w.since {
      LaterTicketIsHigher(acts, t, v, u, w);
    } else {
      LaterTicketIsHigher(acts, u, w, t, v);
    }
  }

  lemma WaitersStep(before: seq<Action>, a: Action, s: State)
    requires EpochsOk(before, s) && ReturnsOk(s) && NobodyWaitsFor(before, s) && Step(s, a).Some?
    requires Queries(before + [a]) < TWO_TO_THE_64
    ensures NobodyWaitsFor(before + [a], Step(s, a).value)
  {
    var acts, s' := before + [a], Step(s, a).value;
    InitOfAppend(before, a);
    forall i, t | 0 <= i < |s'.returned| && t in s'.waiting
      ensures s'.returned[i].at < |acts| && CounterAt(acts, s'.returned[i].at) != s'.waiting[t].qid
    {
      if i < |s.returned| {
        ReturnedEarlierStays(before, a, s, i, t);
      } else {
        var key := ToString(s.waiting[a.t].qid);
        var x := s.answers[key];
        assert AnswerOk(before, key, x) && TicketOk(before, a.t, s.waiting[a.t]);
        AnswerIsInEpoch(before, a.t, s.waiting[a.t], x);
        CounterOfPrefix(before, a, x.at);
        OthersWaitForOthers(before, s, t, a.t);
      }
    }
  }

  lemma ReturnedEarlierStays(before: seq<Action>, a: Action, s: State, i: nat, t: nat)
    requires EpochsOk(before, s) && NobodyWaitsFor(before, s) && ReturnsOk(s) && Step(s, a).Some?
    requires Queries(before + [a]) < TWO_TO_THE_64 && i < |s.returned| && t in Step(s, a).value.waiting
    ensures CounterAt(before + [a], s.returned[i].at) != Step(s, a).value.waiting[t].qid
  {
    var at := s.returned[i].at;
    InitOfAppend(before, a);
    CounterOfPrefix(before, a, at);
    if t !in s.waiting {
      CounterGrows(before, at, |before|);
      TakeAll(before);
    }
  }

  lemma {:induction false} RunKeepsEpochs(acts: seq<Action>)
    requires After(acts).Some? && Queries(acts) < TWO_TO_THE_64
    ensures var s := After(acts).value;
            EpochsOk(acts, s) && ReturnsOk(s) && FiledOk(acts, s) && NobodyWaitsFor(acts, s)
  {
    if |acts| > 0 {
      var before, a := acts[..|acts| - 1], acts[|acts| - 1];
      InitLast(acts);
      RunKeepsEpochs(before);
      hide EpochsOk, ReturnsOk, FiledOk, NobodyWaitsFor, Step;
      FiledStep(before, a, After(before).value);
      WaitersStep(before, a, After(before).value);
      EpochsStep(before, a, After(before).value);
      ReturnsStep(before, a, After(before).value);
    }
  }

  // ---------- Main results ----------

  lemma ReturnedAnswer(acts: seq<Action>, t: nat)
    requires After(acts + [Return(t)]).Some?
    ensures After(acts).Some? && t in After(acts).value.waiting
    ensures var s, after := After(acts).value, After(acts + [Return(t)]).value;
            && ToString(s.waiting[t].qid) in s.answers
            && after.returned == s.returned + [s.answers[ToString(s.waiting[t].qid)]]
  {
    InitOfAppend(acts, Return(t));
  }

  /** Whatever the interleaving, a returned answer was received after its caller's increment, while
      the counter still equalled the caller's number, and is the last such message so far. */
  lemma ReturnedAnswerIsLastOfItsEpoch(acts: seq<Action>, t: nat)
    requires After(acts + [Return(t)]).Some? && Queries(acts) < TWO_TO_THE_64
    ensures var before, after := After(acts), After(acts + [Return(t)]).value;
            && before.Some? && t in before.value.waiting && |after.returned| > 0
            && var w, x := before.value.waiting[t], after.returned[|after.returned| - 1];
               && TicketOk(acts, t, w)
               && w.since < x.at < |acts| && acts[x.at] == Receive(x.msg)
               && CounterAt(acts, x.at) == w.qid
               && forall k | x.at < k < |acts| && acts[k].Receive? :: CounterAt(acts, k) != w.qid
  {
    ReturnedAnswer(acts, t);
    RunKeepsEpochs(acts);
    hide Run, CounterAt, ToString, ReturnsOk;
    var s := After(acts).value;
    var w := s.waiting[t];
    var x := s.answers[ToString(w.qid)];
    assert TicketOk(acts, t, w) && AnswerOk(acts, ToString(w.qid), x);
    AnswerIsInEpoch(acts, t, w, x);
  }

  /** No message is returned twice, and none that was returned is still waiting to be. */
  lemma NoMessageIsReturnedTwice(acts: seq<Action>)
    requires After(acts).Some? && Queries(acts) < TWO_TO_THE_64
    ensures var s := After(acts).value;
            && (forall i, j | 0 <= i < j < |s.returned| :: s.returned[i].at != s.returned[j].at)
            && (forall i, key | 0 <= i < |s.returned| && key in s.answers :: s.returned[i].at != s.answers[key].at)
  {
    RunKeepsEpochs(acts);
  }

  /** Concurrent callers wait for different answers. */
  lemma WaitingCallersDiffer(acts: seq<Action>, t: nat, u: nat)
    requires After(acts).Some? && Queries(acts) < TWO_TO_THE_64
    requires t in After(acts).value.waiting && u in After(acts).value.waiting && t != u
    ensures ToString(After(acts).value.waiting[t].qid) != ToString(After(acts).value.waiting[u].qid)
  {
    RunKeepsEpochs(acts);
    var s := After(acts).value;
    OthersWaitForOthers(acts, s, t, u);
    if ToString(s.waiting[t].qid) == ToString(s.waiting[u].qid) {
      ToStringInjective(s.waiting[t].qid, s.waiting[u].qid);
    }
  }

  /** No answer is lost: in every run the last message of each epoch was returned, or is on file under
      the epoch's printed number. */
  lemma LastMessageIsKept(acts: seq<Action>, j: nat)
    requires After(acts).Some? && Queries(acts) < TWO_TO_THE_64 && LastOfEpoch(acts, j, |acts|)
    ensures Kept(acts, After(acts).value, j)
  {
    RunKeepsEpochs(acts);
  }

  /** Message `j` arrived in the epoch of a waiting caller. */
  ghost predicate Answers(acts: seq<Action>, w: Ticket, j: nat) {
    w.since < j < |acts| && acts[j].Receive? && CounterAt(acts, j) == w.qid
  }

  lemma {:induction false} LastAnswerOf(acts: seq<Action>, qid: nat, j: nat, n: nat) returns (last: nat)
    requires j < n <= |acts| && acts[j].Receive? && CounterAt(acts, j) == qid
    ensures j <= last && LastOfEpoch(acts, last, n) && CounterAt(acts, last) == qid
    decreases n - j
  {
    if k :| j < k < n && acts[k].Receive? && CounterAt(acts, k) == qid {
      last := LastAnswerOf(acts, qid, k, n);
    } else {
      last := j;
    }
  }

  lemma AnswerIsOnFile(acts: seq<Action>, t: nat, j: nat)
    requires After(acts).Some? && Queries(acts) < TWO_TO_THE_64 && t in After(acts).value.waiting
    requires Answers(acts, After(acts).value.waiting[t], j)
    ensures ToString(After(acts).value.waiting[t].qid) in After(acts).value.answers
  {
    RunKeepsEpochs(acts);
    var s := After(acts).value;
    var last := LastAnswerOf(acts, s.waiting[t].qid, j, |acts|);
    assert Kept(acts, s, last);
  }

  /** A waiting caller is answered exactly when a message has arrived in its epoch: then it can return,
      and cannot time out; otherwise it cannot return, and can time out. */
  lemma AnsweredExactly(acts: seq<Action>, t: nat)
    requires After(acts).Some? && Queries(acts) < TWO_TO_THE_64 && t in After(acts).value.waiting
    ensures var w := After(acts).value.waiting[t];
            && (After(acts + [Return(t)]).Some? <==> exists j: nat :: Answers(acts, w, j))
            && (After(acts + [TimeOut(t)]).Some? <==> !exists j: nat :: Answers(acts, w, j))
  {
    var s := After(acts).value;
    var w := s.waiting[t];
    RunGrows(Step, INITIAL, acts, Return(t));
    RunGrows(Step, INITIAL, acts, TimeOut(t));
    RunKeepsEpochs(acts);
    if ToString(w.qid) in s.answers {
      var x := s.answers[ToString(w.qid)];
      AnswerIsInEpoch(acts, t, w, x);
      assert Answers(acts, w, x.at);
    }
    if j: nat :| Answers(acts, w, j) {
      AnswerIsOnFile(acts, t, j);
    }
  }
}
