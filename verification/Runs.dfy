/** Runs of a state machine: a step is a partial function of the state and an action. */
module Runs {
  import opened Seqs
  import opened Options

  /** The state after the actions, if each was possible when its turn came. */
  function Run<S, A>(step: (S, A) -> Option<S>, s: S, acts: seq<A>): Option<S> {
    if |acts| == 0 then Some(s)
    else
      match Run(step, s, acts[..|acts| - 1])
      case None => None
      case Some(t) => step(t, acts[|acts| - 1])
  }

  lemma RunGrows<S, A>(step: (S, A) -> Option<S>, s: S, acts: seq<A>, a: A)
    requires Run(step, s, acts).Some?
    ensures Run(step, s, acts + [a]) == step(Run(step, s, acts).value, a)
  {
    InitOfAppend(acts, a);
  }

  /** A run goes on. */
  lemma RunThen<S, A>(step: (S, A) -> Option<S>, s: S, acts: seq<A>, a: A) returns (more: seq<A>)
    requires Run(step, s, acts).Some? && step(Run(step, s, acts).value, a).Some?
    ensures more == acts + [a] && Run(step, s, more) == step(Run(step, s, acts).value, a)
  {
    more := acts + [a];
    RunGrows(step, s, acts, a);
  }

  lemma {:induction false} RunAppend<S, A>(step: (S, A) -> Option<S>, s: S, a: seq<A>, b: seq<A>)
    requires Run(step, s, a).Some?
    ensures Run(step, s, a + b) == Run(step, Run(step, s, a).value, b)
  {
    if |b| == 0 {
      EmptyRight(a);
    } else {
      assert (a + b)[..|a + b| - 1] == a + b[..|b| - 1];
      RunAppend(step, s, a, b[..|b| - 1]);
    }
  }

  /** Every part of a run up to some action is a run. */
  lemma {:induction false} RunPrefix<S, A>(step: (S, A) -> Option<S>, s: S, acts: seq<A>, i: nat)
    requires i <= |acts| && Run(step, s, acts).Some?
    ensures Run(step, s, acts[..i]).Some?
    ensures i < |acts| ==> step(Run(step, s, acts[..i]).value, acts[i]) == Run(step, s, acts[..i + 1])
  {
    if i < |acts| {
      var before := acts[..|acts| - 1];
      if i < |before| {
        assert before[..i] == acts[..i] && before[..i + 1] == acts[..i + 1];
        RunPrefix(step, s, before, i);
      } else {
        TakeAll(acts);
      }
    } else {
      TakeAll(acts);
    }
  }

  // ---------- What happens in a run ----------

  /** What the actions of a run put out, one after another. */
  function Outputs<S, A, B>(step: (S, A) -> Option<S>, s: S, acts: seq<A>, out: (S, A) -> seq<B>): seq<B> {
    if |acts| == 0 then []
    else
      var before := acts[..|acts| - 1];
      Outputs(step, s, before, out)
      + (if Run(step, s, before).Some? then out(Run(step, s, before).value, acts[|acts| - 1]) else [])
  }

  lemma OutputsGrow<S, A, B>(step: (S, A) -> Option<S>, s: S, acts: seq<A>, a: A, out: (S, A) -> seq<B>)
    requires Run(step, s, acts).Some?
    ensures Outputs(step, s, acts + [a], out) == Outputs(step, s, acts, out) + out(Run(step, s, acts).value, a)
  {
    InitOfAppend(acts, a);
  }

  /** Action `i` is of kind `p`, in the state that it finds. */
  predicate HappensAt<S, A>(step: (S, A) -> Option<S>, s: S, acts: seq<A>, p: (S, A) -> bool, i: nat)
    requires i < |acts|
  {
    Run(step, s, acts[..i]).Some? && p(Run(step, s, acts[..i]).value, acts[i])
  }

  predicate Happens<S, A>(step: (S, A) -> Option<S>, s: S, acts: seq<A>, p: (S, A) -> bool) {
    exists i | 0 <= i < |acts| :: HappensAt(step, s, acts, p, i)
  }

  /** Something of kind `q` happens after something of kind `p`. */
  predicate Follows<S, A>(step: (S, A) -> Option<S>, s: S, acts: seq<A>, p: (S, A) -> bool, q: (S, A) -> bool) {
    exists i, j | 0 <= i < j < |acts| :: HappensAt(step, s, acts, p, i) && HappensAt(step, s, acts, q, j)
  }

  lemma HappensAtStays<S, A>(step: (S, A) -> Option<S>, s: S, acts: seq<A>, a: A, p: (S, A) -> bool, i: nat)
    requires i < |acts|
    ensures HappensAt(step, s, acts + [a], p, i) <==> HappensAt(step, s, acts, p, i)
  {
    assert (acts + [a])[..i] == acts[..i];
  }

  lemma HappensAtEnd<S, A>(step: (S, A) -> Option<S>, s: S, acts: seq<A>, a: A, p: (S, A) -> bool)
    requires Run(step, s, acts).Some?
    ensures HappensAt(step, s, acts + [a], p, |acts|) <==> p(Run(step, s, acts).value, a)
  {
    InitOfAppend(acts, a);
  }

  lemma HappensGrows<S, A>(step: (S, A) -> Option<S>, s: S, acts: seq<A>, a: A, p: (S, A) -> bool)
    requires Run(step, s, acts).Some?
    ensures Happens(step, s, acts + [a], p) <==> Happens(step, s, acts, p) || p(Run(step, s, acts).value, a)
  {
    hide HappensAt;
    HappensAtEnd(step, s, acts, a, p);
    forall i | 0 <= i < |acts| ensures HappensAt(step, s, acts + [a], p, i) <==> HappensAt(step, s, acts, p, i) {
      HappensAtStays(step, s, acts, a, p, i);
    }
    if Happens(step, s, acts, p) {
      var i :| 0 <= i < |acts| && HappensAt(step, s, acts, p, i);
      assert HappensAt(step, s, acts + [a], p, i);
    }
  }

  lemma FollowsGrows<S, A>(step: (S, A) -> Option<S>, s: S, acts: seq<A>, a: A, p: (S, A) -> bool, q: (S, A) -> bool)
    requires Run(step, s, acts).Some?
    ensures Follows(step, s, acts + [a], p, q) <==>
            Follows(step, s, acts, p, q) || (Happens(step, s, acts, p) && q(Run(step, s, acts).value, a))
  {
    hide HappensAt;
    HappensAtEnd(step, s, acts, a, q);
    forall i | 0 <= i < |acts|
      ensures HappensAt(step, s, acts + [a], p, i) <==> HappensAt(step, s, acts, p, i)
      ensures HappensAt(step, s, acts + [a], q, i) <==> HappensAt(step, s, acts, q, i)
    {
      HappensAtStays(step, s, acts, a, p, i);
      HappensAtStays(step, s, acts, a, q, i);
    }
    if Follows(step, s, acts, p, q) {
      var i, j :| 0 <= i < j < |acts| && HappensAt(step, s, acts, p, i) && HappensAt(step, s, acts, q, j);
      assert HappensAt(step, s, acts + [a], p, i) && HappensAt(step, s, acts + [a], q, j);
    }
    if Happens(step, s, acts, p) && q(Run(step, s, acts).value, a) {
      var i :| 0 <= i < |acts| && HappensAt(step, s, acts, p, i);
      assert HappensAt(step, s, acts + [a], p, i) && HappensAt(step, s, acts + [a], q, |acts|);
    }
  }
}
