/** What several senders have put on one connection, one after another: a list of frames, of which
    any may have been left off before its end. */
module WireLog {
  import opened Seqs
  import opened Framing

  /** The first `sent` bytes of the frame of `msg` were written. */
  datatype Entry = Entry(msg: Message, sent: nat)

  function Size(m: Message): nat {
    HEADER_LEN + |m|
  }

  predicate Sound(log: seq<Entry>) {
    forall e | e in log :: e.sent <= Size(e.msg)
  }

  function Wire(log: seq<Entry>): seq<byte>
    requires Sound(log)
  {
    if |log| == 0 then []
    else
      var n := |log| - 1;
      Wire(log[..n]) + Frame(log[n].msg)[..log[n].sent]
  }

  function Messages(log: seq<Entry>): seq<Message> {
    if |log| == 0 then [] else Messages(log[..|log| - 1]) + [log[|log| - 1].msg]
  }

  predicate Whole(e: Entry) {
    e.sent == Size(e.msg)
  }

  /** Some bytes of the frame are out, but not all. */
  predicate Cut(e: Entry) {
    0 < e.sent < Size(e.msg)
  }

  predicate HasCut(log: seq<Entry>) {
    exists e | e in log :: Cut(e)
  }

  /** Nothing was written behind a cut frame. */
  predicate NoTear(log: seq<Entry>) {
    forall i, j | 0 <= i < j < |log| && Cut(log[i]) :: log[j].sent == 0
  }

  /** The messages whose frames are whole. */
  function Completed(log: seq<Entry>): seq<Message> {
    if |log| == 0 then []
    else
      var n := |log| - 1;
      Completed(log[..n]) + (if Whole(log[n]) then [log[n].msg] else [])
  }

  /** The bytes of the frame written to last, unless that frame is whole. */
  function Tail(log: seq<Entry>): seq<byte>
    requires Sound(log)
  {
    if |log| == 0 then []
    else
      var n := |log| - 1;
      if log[n].sent == 0 then Tail(log[..n])
      else if Whole(log[n]) then []
      else Frame(log[n].msg)[..log[n].sent]
  }

  // ---------- One more frame ----------

  lemma LogGrows(log: seq<Entry>, e: Entry)
    requires Sound(log) && e.sent <= Size(e.msg)
    ensures Sound(log + [e]) && Wire(log + [e]) == Wire(log) + Frame(e.msg)[..e.sent]
    ensures Messages(log + [e]) == Messages(log) + [e.msg]
    ensures Completed(log + [e]) == if Whole(e) then Completed(log) + [e.msg] else Completed(log)
    ensures Tail(log + [e]) == if e.sent == 0 then Tail(log) else if Whole(e) then [] else Frame(e.msg)[..e.sent]
  {
    InitOfAppend(log, e);
    EmptyRight(Completed(log));
  }

  lemma {:induction false} CompletedAppend(a: seq<Entry>, b: seq<Entry>)
    ensures Completed(a + b) == Completed(a) + Completed(b)
  {
    if |b| == 0 {
      EmptyRight(a);
    } else {
      assert (a + b)[..|a + b| - 1] == a + b[..|b| - 1];
      CompletedAppend(a, b[..|b| - 1]);
    }
  }

  lemma CutsGrow(log: seq<Entry>, e: Entry)
    ensures NoTear(log + [e]) <==> NoTear(log) && (HasCut(log) ==> e.sent == 0)
    ensures HasCut(log + [e]) <==> HasCut(log) || Cut(e)
  {
    var log' := log + [e];
    assert log'[|log|] == e && forall i | 0 <= i < |log| :: log'[i] == log[i];
    if HasCut(log) {
      var c :| c in log && Cut(c);
      var i :| 0 <= i < |log| && log[i] == c;
      assert c in log' && Cut(log'[i]);
    }
    if Cut(e) {
      assert e in log';
    }
  }

  /** A sender starts a frame. */
  lemma FrameOpens(log: seq<Entry>, m: Message)
    requires Sound(log)
    ensures var log' := log + [Entry(m, 0)];
            && Sound(log') && Wire(log') == Wire(log) && Messages(log') == Messages(log) + [m]
            && (NoTear(log') <==> NoTear(log))
  {
    hide Frame, Wire;
    LogGrows(log, Entry(m, 0));
    EmptyRight(Wire(log));
    CutsGrow(log, Entry(m, 0));
  }

  /** The sender of the last frame writes its next `n` bytes. */
  lemma FrameGrows(log: seq<Entry>, m: Message, k: nat, n: nat)
    requires Sound(log) && k + n <= Size(m)
    ensures var old', new' := log + [Entry(m, k)], log + [Entry(m, k + n)];
            && Sound(old') && Sound(new')
            && Wire(new') == Wire(old') + Frame(m)[k..k + n]
            && Messages(new') == Messages(old')
            && (NoTear(new') <==> NoTear(old') && !(n > 0 && HasCut(log)))
  {
    LogGrows(log, Entry(m, k));
    LogGrows(log, Entry(m, k + n));
    CutsGrow(log, Entry(m, k));
    CutsGrow(log, Entry(m, k + n));
    var w, f := Wire(log), Frame(m);
    hide *;
    Assoc(w, f[..k], f[k..k + n]);
    TakeMore(f, k, n);
  }

  // ---------- Exactly when the frames stay whole ----------

  lemma {:induction false} NothingCutMeansNoTail(log: seq<Entry>)
    requires Sound(log) && NoTear(log)
    ensures HasCut(log) <==> Tail(log) != []
  {
    if |log| > 0 {
      var before, e := log[..|log| - 1], log[|log| - 1];
      InitLast(log);
      assert Sound(before);
      CutsGrow(before, e);
      LogGrows(before, e);
      NothingCutMeansNoTail(before);
    }
  }

  lemma AccountingStep(before: seq<Entry>, e: Entry)
    requires Sound(before) && e.sent <= Size(e.msg)
    requires |Frames(Completed(before))| + |Tail(before)| <= |Wire(before)|
    requires !NoTear(before) ==> |Frames(Completed(before))| + |Tail(before)| < |Wire(before)|
    requires NoTear(before) ==> Wire(before) == Frames(Completed(before)) + Tail(before)
    ensures var log := before + [e];
            && Sound(log) && |Frames(Completed(log))| + |Tail(log)| <= |Wire(log)|
            && (!NoTear(log) ==> |Frames(Completed(log))| + |Tail(log)| < |Wire(log)|)
            && (NoTear(log) ==> Wire(log) == Frames(Completed(log)) + Tail(log))
  {
    var log := before + [e];
    LogGrows(before, e);
    CutsGrow(before, e);
    if NoTear(before) {
      NothingCutMeansNoTail(before);
    }
    FramesAppend(Completed(before), [e.msg]);
    FramesOne(e.msg);
    TakeAll(Frame(e.msg));
    EmptyRight(Wire(before));
    EmptyRight(Wire(log));
    EmptyRight(Frames(Completed(before)));
  }

  /** The wire holds at least its whole frames and its tail, and exactly these in this order if
      nothing was written behind a cut frame. */
  lemma {:induction false} Accounting(log: seq<Entry>)
    requires Sound(log)
    ensures |Frames(Completed(log))| + |Tail(log)| <= |Wire(log)|
    ensures !NoTear(log) ==> |Frames(Completed(log))| + |Tail(log)| < |Wire(log)|
    ensures NoTear(log) ==> Wire(log) == Frames(Completed(log)) + Tail(log)
  {
    if |log| > 0 {
      var before, e := log[..|log| - 1], log[|log| - 1];
      InitLast(log);
      assert Sound(before) && e in log;
      Accounting(before);
      hide *;
      AccountingStep(before, e);
    }
  }

  /** The wire is its whole frames, followed by a part of at most one more, if and only if nothing
      was written behind a cut frame. */
  lemma WholeFramesIffNoTear(log: seq<Entry>)
    requires Sound(log)
    ensures Wire(log) == Frames(Completed(log)) + Tail(log) <==> NoTear(log)
  {
    Accounting(log);
    hide *;
    assert |Frames(Completed(log)) + Tail(log)| == |Frames(Completed(log))| + |Tail(log)|;
  }

  lemma CutIsPartial(m: Message, n: nat)
    requires Sendable(m) && n < Size(m)
    ensures Partial(Frame(m)[..n])
  {
    var s := Frame(m)[..n];
    FrameHeader(m, []);
    assert Frame(m) + [] == Frame(m);
    if n >= HEADER_LEN {
      assert s[..4] == Frame(m)[..4] && s[4..8] == Frame(m)[4..8];
    }
  }

  lemma {:induction false} CompletedIsSendable(log: seq<Entry>)
    requires Sound(log) && AllSendable(Messages(log))
    ensures AllSendable(Completed(log)) && Partial(Tail(log))
  {
    if |log| > 0 {
      var before, e := log[..|log| - 1], log[|log| - 1];
      InitLast(log);
      LogGrows(before, e);
      assert Messages(log) == Messages(before) + [e.msg];
      assert e.msg in Messages(log) && forall m | m in Messages(before) :: m in Messages(log);
      CompletedIsSendable(before);
      if !Whole(e) {
        assert e in log;
        CutIsPartial(e.msg, e.sent);
      }
    }
  }

  /** Exactly then a receiver gets the whole frames, stays connected, and waits for the rest of the
      frame written to last. */
  lemma ReceiverGetsWholeFrames(log: seq<Entry>)
    requires Sound(log) && AllSendable(Messages(log))
    ensures Parse(Wire(log)) == Parsed(Completed(log), Tail(log), true) <==> NoTear(log)
  {
    WholeFramesIffNoTear(log);
    CompletedIsSendable(log);
    ParseCharacterised(Wire(log), Completed(log), Tail(log), true);
  }

  /** A bare magic makes a receiver reject whatever frame follows it. */
  lemma BareMagicIsRejected(m: Message)
    ensures var s := MAGIC + Frame(m); Parse(s) == Parsed([], s, false)
  {
    var s := MAGIC + Frame(m);
    assert s[4..8] == Frame(m)[..4] == MAGIC;
    hide Frame;
    assert BadHeader(s);
  }
}
