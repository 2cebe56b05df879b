/** Specification of a receiver fed arbitrary chunks, and what does not depend on the chunking.

    A chunk is what one `recv` returned. The empty chunk stands for the end of the stream or a
    failed `recv`, which the receivers treat alike. The application's callback is `hangsUp`: whether
    it calls `disconnect` while handling a given message.
 */
module Receivers {
  import opened Seqs
  import opened Framing

  datatype Receiver = Receiver(buffer: seq<byte>, delivered: seq<Message>, connected: bool)

  const FRESH := Receiver([], [], true)

  function Concat(chunks: seq<seq<byte>>): seq<byte> {
    if |chunks| == 0 then [] else Concat(chunks[..|chunks| - 1]) + chunks[|chunks| - 1]
  }

  predicate Readable(chunks: seq<seq<byte>>) {
    forall i | 0 <= i < |chunks| :: chunks[i] != []
  }

  predicate HangsUpOn(ms: seq<Message>, hangsUp: Message -> bool) {
    exists m | m in ms :: hangsUp(m)
  }

  /** The messages up to and including the first one the application hangs up on. */
  function Served(ms: seq<Message>, hangsUp: Message -> bool): seq<Message> {
    if |ms| == 0 then [] else if hangsUp(ms[0]) then [ms[0]] else [ms[0]] + Served(ms[1..], hangsUp)
  }

  /** What a hang-up leaves intact: every message but the last is handled without one. */
  predicate HangsUpLast(ms: seq<Message>, hangsUp: Message -> bool) {
    |ms| > 0 ==> !HangsUpOn(ms[..|ms| - 1], hangsUp)
  }

  /** Python: extraction goes on after a callback disconnected, and a dead buffer is kept. */
  function Hear(r: Receiver, chunk: seq<byte>, hangsUp: Message -> bool): Receiver {
    if !r.connected then r
    else if chunk == [] then r.(connected := false)
    else
      var p := Parse(r.buffer + chunk);
      Receiver(p.rest, r.delivered + Deliver(p.frames), p.ok && !HangsUpOn(Deliver(p.frames), hangsUp))
  }

  function HearAll(r: Receiver, chunks: seq<seq<byte>>, hangsUp: Message -> bool): Receiver {
    if |chunks| == 0 then r
    else Hear(HearAll(r, chunks[..|chunks| - 1], hangsUp), chunks[|chunks| - 1], hangsUp)
  }

  /** JavaScript and Java: `disconnect` clears the buffer, so it also ends the extraction. */
  function Obey(r: Receiver, chunk: seq<byte>, hangsUp: Message -> bool): Receiver {
    if !r.connected then r
    else if chunk == [] then r.(connected := false)
    else
      var p := Parse(r.buffer + chunk);
      var alive := p.ok && !HangsUpOn(Deliver(p.frames), hangsUp);
      Receiver(if alive then p.rest else [], r.delivered + Served(Deliver(p.frames), hangsUp), alive)
  }

  function ObeyAll(r: Receiver, chunks: seq<seq<byte>>, hangsUp: Message -> bool): Receiver {
    if |chunks| == 0 then r
    else Obey(ObeyAll(r, chunks[..|chunks| - 1], hangsUp), chunks[|chunks| - 1], hangsUp)
  }

  // ---------- Auxiliary facts ----------

  lemma DecodeAppend(s: seq<byte>, t: seq<byte>)
    ensures var q := Parse(Parse(s).rest + t);
            && Decode(s + t) == Decode(s) + Deliver(q.frames)
            && Parse(s + t).rest == q.rest && Parse(s + t).ok == q.ok
  {
    ParseAppend(s, t);
    DeliverAppend(Parse(s).frames, Parse(Parse(s).rest + t).frames);
  }

  lemma DecodeAppendDead(s: seq<byte>, t: seq<byte>)
    requires !Parse(s).ok
    ensures Decode(s + t) == Decode(s) && !Parse(s + t).ok
  {
    ParseAppendDead(s, t);
  }

  /** Where the extraction loop stops. */
  lemma DecodeEnd(s: seq<byte>)
    requires Partial(s) || BadHeader(s)
    ensures Decode(s) == [] && Parse(s).rest == s && Parse(s).ok == Partial(s)
  {
  }

  /** Elsewhere a whole frame comes first. */
  lemma FrameIsThere(s: seq<byte>)
    requires !Partial(s) && !BadHeader(s)
    ensures |s| >= HEADER_LEN && HeaderOk(s) && |s| >= HEADER_LEN + BodyLength(s)
  {
  }

  /** One round of the extraction loop. */
  lemma DecodeStep(s: seq<byte>, msg: Message, t: seq<byte>, hangsUp: Message -> bool)
    requires |s| >= HEADER_LEN && HeaderOk(s) && |s| >= HEADER_LEN + BodyLength(s)
    requires msg == s[HEADER_LEN..HEADER_LEN + BodyLength(s)] && t == s[HEADER_LEN + BodyLength(s)..]
    ensures msg == HEARTBEAT_RESPONSE ==> Decode(s) == Decode(t)
    ensures msg != HEARTBEAT_RESPONSE ==> Decode(s)[..1] == [msg] && Decode(s)[1..] == Decode(t)
    ensures msg != HEARTBEAT_RESPONSE ==> forall d: seq<Message> :: d + Decode(s) == (d + [msg]) + Decode(t)
    ensures HangsUpOn(Decode(s), hangsUp) <==> (msg != HEARTBEAT_RESPONSE && hangsUp(msg)) || HangsUpOn(Decode(t), hangsUp)
    ensures Parse(s).rest == Parse(t).rest && Parse(s).ok == Parse(t).ok
  {
    assert Parse(s).frames[1..] == Parse(t).frames;
    assert Decode(s) == (if msg == HEARTBEAT_RESPONSE then [] else [msg]) + Decode(t);
  }

  lemma ServedFirst(m: Message, ms: seq<Message>, hangsUp: Message -> bool)
    ensures Served([m] + ms, hangsUp) == if hangsUp(m) then [m] else [m] + Served(ms, hangsUp)
    ensures HangsUpOn([m] + ms, hangsUp) <==> hangsUp(m) || HangsUpOn(ms, hangsUp)
  {
    var all := [m] + ms;
    assert all[1..] == ms && all[0] == m;
    assert forall x :: x in all <==> x == m || x in ms;
  }

  lemma ServedNone(hangsUp: Message -> bool)
    ensures Served([], hangsUp) == []
  {
  }

  /** How far the loop of a receiver that stops at a hang-up has come through `s`: `t` is still in
      the buffer and `d0` grew to `d`; `hung` once a callback disconnected. */
  ghost predicate Serving(s: seq<byte>, t: seq<byte>, d0: seq<Message>, d: seq<Message>, hung: bool, hangsUp: Message -> bool) {
    && d + Served(Decode(t), hangsUp) == d0 + Served(Decode(s), hangsUp)
    && if hung then HangsUpOn(Decode(s), hangsUp) && t == []
       else
         && (HangsUpOn(Decode(t), hangsUp) <==> HangsUpOn(Decode(s), hangsUp))
         && Parse(s).rest == Parse(t).rest && Parse(s).ok == Parse(t).ok
  }

  lemma ServingStep(s: seq<byte>, t: seq<byte>, d0: seq<Message>, d: seq<Message>, msg: Message, u: seq<byte>, hangsUp: Message -> bool)
    requires Serving(s, t, d0, d, false, hangsUp)
    requires |t| >= HEADER_LEN && HeaderOk(t) && |t| >= HEADER_LEN + BodyLength(t)
    requires msg == t[HEADER_LEN..HEADER_LEN + BodyLength(t)] && u == t[HEADER_LEN + BodyLength(t)..]
    ensures if msg == HEARTBEAT_RESPONSE then Serving(s, u, d0, d, false, hangsUp)
            else if hangsUp(msg) then Serving(s, [], d0, d + [msg], true, hangsUp)
            else Serving(s, u, d0, d + [msg], false, hangsUp)
  {
    DecodeStep(t, msg, u, hangsUp);
    DecodeEnd([]);
    var more := Decode(u);
    if msg != HEARTBEAT_RESPONSE {
      HeadTail(Decode(t));
      ServedFirst(msg, more, hangsUp);
    }
    hide Parse, Deliver, Served, HangsUpOn, Partial, BadHeader;
    Assoc(d, [msg], Served(more, hangsUp));
    EmptyRight(d + [msg]);
    assert Served([], hangsUp) == [] by { ServedNone(hangsUp); }
  }

  /** What the loop has done when it ends: with less than a frame left, or at a bad header. */
  lemma ServingEnd(s: seq<byte>, t: seq<byte>, d0: seq<Message>, d: seq<Message>, hung: bool, hangsUp: Message -> bool)
    requires Serving(s, t, d0, d, hung, hangsUp) && (Partial(t) || BadHeader(t))
    ensures d == d0 + Served(Decode(s), hangsUp)
    ensures hung ==> Partial(t) && t == []
    ensures (!hung && Partial(t)) == (Parse(s).ok && !HangsUpOn(Decode(s), hangsUp))
    ensures !hung && Partial(t) ==> t == Parse(s).rest
  {
    assert Decode(t) == [];
  }

  /** A disconnected receiver hears nothing more. */
  lemma {:induction false} HearAllStops(r: Receiver, chunks: seq<seq<byte>>, i: nat, hangsUp: Message -> bool)
    requires i <= |chunks| && !HearAll(r, chunks[..i], hangsUp).connected
    ensures HearAll(r, chunks, hangsUp) == HearAll(r, chunks[..i], hangsUp)
  {
    if i == |chunks| {
      assert chunks[..i] == chunks;
    } else {
      var before := chunks[..|chunks| - 1];
      assert before[..i] == chunks[..i];
      HearAllStops(r, before, i, hangsUp);
    }
  }

  lemma {:induction false} ObeyAllStops(r: Receiver, chunks: seq<seq<byte>>, i: nat, hangsUp: Message -> bool)
    requires i <= |chunks| && !ObeyAll(r, chunks[..i], hangsUp).connected
    ensures ObeyAll(r, chunks, hangsUp) == ObeyAll(r, chunks[..i], hangsUp)
  {
    if i == |chunks| {
      assert chunks[..i] == chunks;
    } else {
      var before := chunks[..|chunks| - 1];
      assert before[..i] == chunks[..i];
      ObeyAllStops(r, before, i, hangsUp);
    }
  }

  lemma {:induction false} ServedAppend(a: seq<Message>, b: seq<Message>, hangsUp: Message -> bool)
    ensures HangsUpOn(a, hangsUp) ==> Served(a + b, hangsUp) == Served(a, hangsUp)
    ensures !HangsUpOn(a, hangsUp) ==> Served(a + b, hangsUp) == a + Served(b, hangsUp)
  {
    if |a| == 0 {
      EmptyLeft(b);
      EmptyLeft(Served(b, hangsUp));
    } else {
      ServedAppend(a[1..], b, hangsUp);
      hide Served, HangsUpOn;
      HeadTail(a);
      Assoc([a[0]], a[1..], b);
      Assoc([a[0]], a[1..], Served(b, hangsUp));
      ServedFirst(a[0], a[1..], hangsUp);
      ServedFirst(a[0], a[1..] + b, hangsUp);
    }
  }

  lemma ServedAll(a: seq<Message>, hangsUp: Message -> bool)
    requires !HangsUpOn(a, hangsUp)
    ensures Served(a, hangsUp) == a
  {
    ServedAppend(a, [], hangsUp);
    assert a + [] == a;
  }

  lemma ServedTail(ms: seq<Message>, served: seq<Message>, hangsUp: Message -> bool)
    requires |ms| > 0 && |served| > 0 && !hangsUp(ms[0])
    ensures served <= ms <==> served[0] == ms[0] && served[1..] <= ms[1..]
    ensures served[0] == ms[0] ==> (HangsUpLast(served, hangsUp) <==> HangsUpLast(served[1..], hangsUp))
    ensures served[0] == ms[0] ==> (HangsUpOn(served, hangsUp) <==> HangsUpOn(served[1..], hangsUp))
  {
    HeadTail(ms);
    HeadTail(served);
    if |served| > 1 {
      var a, b := served[..|served| - 1], served[1..];
      assert a == [served[0]] + b[..|b| - 1];
    }
  }

  /** Exactly what is served: a prefix that ends with the first message hung up on, or everything if
      there is none. */
  lemma {:induction false} ServedExactly(ms: seq<Message>, served: seq<Message>, hangsUp: Message -> bool)
    ensures Served(ms, hangsUp) == served <==>
            && served <= ms && HangsUpLast(served, hangsUp)
            && (served == ms || HangsUpOn(served, hangsUp))
  {
    if |ms| > 0 {
      var tail := if |served| > 0 then served[1..] else [];
      ServedExactly(ms[1..], tail, hangsUp);
      if |served| > 0 && !hangsUp(ms[0]) {
        ServedTail(ms, served, hangsUp);
      }
      HeadTail(ms);
    }
  }

  // ---------- The end of the stream ----------

  /** The end of the stream, or a failed `recv`, disconnects the Python receiver, which keeps what it
      has and reads nothing more. */
  lemma HearingEnds(r: Receiver, chunks: seq<seq<byte>>, more: seq<seq<byte>>, hangsUp: Message -> bool)
    ensures HearAll(r, chunks + [[]] + more, hangsUp) == HearAll(r, chunks, hangsUp).(connected := false)
  {
    var end := chunks + [[]];
    InitOfAppend(chunks, []);
    TakeAll(end);
    assert (end + more)[..|end|] == end;
    HearAllStops(r, end + more, |end|, hangsUp);
  }

  /** So it does the receivers that stop at a hang-up. */
  lemma ObeyingEnds(r: Receiver, chunks: seq<seq<byte>>, more: seq<seq<byte>>, hangsUp: Message -> bool)
    ensures ObeyAll(r, chunks + [[]] + more, hangsUp) == ObeyAll(r, chunks, hangsUp).(connected := false)
  {
    var end := chunks + [[]];
    InitOfAppend(chunks, []);
    TakeAll(end);
    assert (end + more)[..|end|] == end;
    ObeyAllStops(r, end + more, |end|, hangsUp);
  }

  // ---------- Receivers that stop at a hang-up ----------

  /** Chunking invariance for JavaScript and Java, with any callback: messages, connection and
      buffer are functions of the bytes received. */
  lemma {:induction false} StoppingReceiver(chunks: seq<seq<byte>>, hangsUp: Message -> bool)
    requires Readable(chunks)
    ensures var r, s := ObeyAll(FRESH, chunks, hangsUp), Concat(chunks);
            && r.delivered == Served(Decode(s), hangsUp)
            && r.connected == (Parse(s).ok && !HangsUpOn(Decode(s), hangsUp))
            && r.buffer == (if r.connected then Parse(s).rest else [])
  {
    if |chunks| > 0 {
      var before, c := chunks[..|chunks| - 1], chunks[|chunks| - 1];
      StoppingReceiver(before, hangsUp);
      var s := Concat(before);
      var more := Deliver(Parse(Parse(s).rest + c).frames);
      DecodeAppend(s, c);
      ServedAppend(Decode(s), more, hangsUp);
      if !Parse(s).ok {
        DecodeAppendDead(s, c);
      } else if !HangsUpOn(Decode(s), hangsUp) {
        ServedAll(Decode(s), hangsUp);
      }
    }
  }

  // ---------- The Python receiver ----------

  lemma HangsUpLastPrefix(a: seq<Message>, b: seq<Message>, hangsUp: Message -> bool)
    requires HangsUpLast(a + b, hangsUp)
    ensures HangsUpLast(a, hangsUp)
    ensures HangsUpOn(a, hangsUp) ==> b == []
  {
    var n := |a + b| - 1;
    if |a| > 0 {
      assert a[..|a| - 1] == (a + b)[..n][..|a| - 1];
      if b != [] {
        assert a == (a + b)[..n][..|a|];
      }
    }
  }

  /** Chunking invariance for Python, when no callback hangs up before the last message. */
  lemma {:induction false} DrainingReceiver(chunks: seq<seq<byte>>, hangsUp: Message -> bool)
    requires Readable(chunks) && HangsUpLast(Decode(Concat(chunks)), hangsUp)
    ensures var r, s := HearAll(FRESH, chunks, hangsUp), Concat(chunks);
            && r.delivered == Decode(s)
            && r.connected == (Parse(s).ok && !HangsUpOn(Decode(s), hangsUp))
            && (r.connected ==> r.buffer == Parse(s).rest)
  {
    if |chunks| > 0 {
      var before, c := chunks[..|chunks| - 1], chunks[|chunks| - 1];
      var s := Concat(before);
      var had, more := Decode(s), Deliver(Parse(Parse(s).rest + c).frames);
      DecodeAppend(s, c);
      HangsUpLastPrefix(had, more, hangsUp);
      DrainingReceiver(before, hangsUp);
      if !Parse(s).ok {
        DecodeAppendDead(s, c);
      } else if HangsUpOn(had, hangsUp) {
        assert had + more == had;
      }
    }
  }

  lemma HearOne(x: seq<byte>, hangsUp: Message -> bool)
    ensures Concat([x]) == x && HearAll(FRESH, [x], hangsUp) == Hear(FRESH, x, hangsUp)
    ensures x != [] ==> Hear(FRESH, x, hangsUp) ==
                        Receiver(Parse(x).rest, Decode(x), Parse(x).ok && !HangsUpOn(Decode(x), hangsUp))
  {
    assert [x][..0] == [];
    EmptyLeft(x);
    EmptyLeft(Decode(x));
  }

  /** A receiver that is hung up on in the first chunk does not read the second. */
  lemma HearTwo(x: seq<byte>, y: seq<byte>, hangsUp: Message -> bool)
    requires x != [] && HangsUpOn(Decode(x), hangsUp)
    ensures Concat([x, y]) == x + y
    ensures HearAll(FRESH, [x, y], hangsUp).delivered == Decode(x)
  {
    HearOne(x, hangsUp);
    assert [x, y][..1] == [x];
  }

  /** With a hang-up before the last message the Python receiver is not chunking invariant: one
      chunk delivers everything, while splitting after that message's frame does not. */
  lemma DrainingDependsOnChunking(s: seq<byte>, hangsUp: Message -> bool) returns (one: seq<seq<byte>>, two: seq<seq<byte>>)
    requires !HangsUpLast(Decode(s), hangsUp)
    ensures Readable(one) && Readable(two) && Concat(one) == Concat(two) == s
    ensures HearAll(FRESH, one, hangsUp).delivered == Decode(s) != HearAll(FRESH, two, hangsUp).delivered
  {
    hide HearAll, Hear, Concat, Deliver, Parse, HangsUpOn, HangsUpLast;
    var x, y := SplitStream(s, hangsUp);
    HearOne(s, hangsUp);
    HearTwo(x, y, hangsUp);
    one, two := [s], [x, y];
  }

  /** Split a stream right after the first frame that is hung up on. */
  lemma SplitStream(s: seq<byte>, hangsUp: Message -> bool) returns (x: seq<byte>, y: seq<byte>)
    requires !HangsUpLast(Decode(s), hangsUp)
    ensures s == x + y && x != [] && y != []
    ensures HangsUpOn(Decode(x), hangsUp) && Decode(x) != Decode(s)
  {
    var a, b := SplitAfterHangUp(Parse(s).frames, hangsUp);
    x, y := Frames(a), Frames(b) + Parse(s).rest;
    ParseStructure(s);
    FramesAppend(a, b);
    Assoc(x, Frames(b), Parse(s).rest);
    ParseComplete(a, []);
    EmptyRight(x);
  }

  /** Split a list of frames right after the first delivered message that hangs up. */
  lemma {:induction false} SplitAfterHangUp(ms: seq<Message>, hangsUp: Message -> bool)
    returns (a: seq<Message>, b: seq<Message>)
    requires !HangsUpLast(Deliver(ms), hangsUp)
    ensures ms == a + b && HangsUpOn(Deliver(a), hangsUp) && Deliver(b) != []
    ensures Deliver(ms) == Deliver(a) + Deliver(b)
  {
    var rest := ms[1..];
    assert ms == [ms[0]] + rest;
    if ms[0] != HEARTBEAT_RESPONSE && hangsUp(ms[0]) {
      a, b := [ms[0]], rest;
      assert ms[0] in Deliver(a);
    } else {
      var d := Deliver(rest);
      assert !HangsUpLast(d, hangsUp) by {
        var e := Deliver(ms);
        var m :| m in e[..|e| - 1] && hangsUp(m);
        assert m in d[..|d| - 1];
      }
      a, b := SplitAfterHangUp(rest, hangsUp);
      DeliverAppend([ms[0]], a);
      a := [ms[0]] + a;
    }
    DeliverAppend(a, b);
  }

  /** The exact condition: every chunking of a stream delivers all its messages if and only if no
      callback hangs up before the last of them. */
  lemma PythonChunkingInvariance(s: seq<byte>, hangsUp: Message -> bool)
    ensures (forall chunks | Readable(chunks) && Concat(chunks) == s :: HearAll(FRESH, chunks, hangsUp).delivered == Decode(s))
            <==> HangsUpLast(Decode(s), hangsUp)
  {
    if HangsUpLast(Decode(s), hangsUp) {
      forall chunks | Readable(chunks) && Concat(chunks) == s
        ensures HearAll(FRESH, chunks, hangsUp).delivered == Decode(s)
      {
        DrainingReceiver(chunks, hangsUp);
      }
    } else {
      var one, two := DrainingDependsOnChunking(s, hangsUp);
    }
  }
}
