/** The Python responser as a transducer from a byte stream of requests to a byte stream of replies:
    the receive thread decodes and enqueues, the worker answers, heartbeats go out in between. */
module Responser {
  import opened Seqs
  import opened Options
  import opened Framing
  import opened Receivers
  import opened Envelope
  import opened PythonTcpClient

  /** What `recv_func` does with a payload. */
  datatype Outcome = Reply(body: seq<byte>) | NoReply | Raises

  /** The application: its handler, and which keys are valid UTF-8 text. */
  datatype App = App(keyDecodes: seq<byte> -> bool, handle: seq<byte> -> Outcome)

  /** The queue entries that a message gives: none for a bad envelope, key or an empty payload. */
  function RequestOf(app: App, data: Message): seq<Request> {
    match Split(data)
    case None => []
    case Some(q) => if app.keyDecodes(q.key) && q.payload != [] then [q] else []
  }

  function Requests(app: App, ms: seq<Message>): seq<Request> {
    if |ms| == 0 then [] else Requests(app, ms[..|ms| - 1]) + RequestOf(app, ms[|ms| - 1])
  }

  /** The requests in a byte stream. */
  function RequestsIn(app: App, s: seq<byte>): seq<Request> {
    Requests(app, Decode(s))
  }

  function AnswerTo(app: App, q: Request): seq<Message> {
    match app.handle(q.payload)
    case Reply(body) => [Join(q.key, body)]
    case _ => []
  }

  /** The replies that a list of requests deserves, in order. */
  function AnswersTo(app: App, qs: seq<Request>): seq<Message> {
    if |qs| == 0 then [] else AnswersTo(app, qs[..|qs| - 1]) + AnswerTo(app, qs[|qs| - 1])
  }

  // ---------- The objects, one thread at a time ----------

  class OpenSocketResponser {
    const client: TcpClient
    const app: App
    var dataQueue: seq<Request>

    constructor (client: TcpClient, app: App)
      ensures this.client == client && this.app == app && dataQueue == []
    {
      this.client, this.app, dataQueue := client, app, [];
    }

    method InternalDataRecv(data: Message)
      modifies this
      ensures dataQueue == old(dataQueue) + RequestOf(app, data)
    {
      match Split(data) {
        case None => return;
        case Some(q) =>
          if !app.keyDecodes(q.key) {
            return;
          }
          if q.payload != [] {
            dataQueue := dataQueue + [q];
          }
      }
    }

    method SendBack(data: seq<byte>, key: seq<byte>, socketOk: bool) returns (raised: bool)
      modifies client`wire, client`connected
      ensures raised == (old(client.connected) && |Join(key, data)| > MAX_MSG_SIZE)
      ensures client.wire ==
              old(client.wire) + (if old(client.connected) && !raised && socketOk then Frame(Join(key, data)) else [])
      ensures client.connected == (old(client.connected) && (socketOk || raised))
    {
      raised := client.WriteWithLengthPrefix(Join(key, data), socketOk);
    }

    /** One entry taken from the queue: dealt with, or the death of the worker, or dropped for want of
        a connection. */
    method HandleEntry(q: Request, socketOk: bool) returns (dealt: bool, died: bool)
      modifies client`wire, client`connected
      ensures client.wire == old(client.wire) + (if dealt then Frames(AnswerTo(app, q)) else [])
      ensures dealt ==> !died && !Kills(app, q) && client.connected == old(client.connected)
      ensures died ==> Kills(app, q) && client.connected == old(client.connected)
      ensures !dealt && !died ==> !client.connected
    {
      EmptyRight(client.wire);
      match app.handle(q.payload) {
        case Raises => return false, true;
        case NoReply => return true, false;
        case Reply(body) =>
          FramesOne(Join(q.key, body));
          var sends := client.connected;
          died := SendBack(body, q.key, socketOk);
          dealt := sends && socketOk && !died;
      }
    }

    /** One round of the worker's loop: the `get` times out, or takes the first entry. */
    method GoRound(r: Round) returns (taken: seq<Request>, dealt: bool, died: bool)
      requires client.connected
      modifies this, client`wire, client`connected
      ensures taken + dataQueue == old(dataQueue) + r.arrived
      ensures |taken| <= 1 && (taken == [] <==> old(dataQueue) + r.arrived == [])
      ensures client.wire == old(client.wire) + (if dealt && taken != [] then Frames(AnswerTo(app, taken[0])) else [])
      ensures taken == [] ==> dealt && !died
      ensures taken != [] && dealt ==> !died && !Kills(app, taken[0])
      ensures died ==> Kills(app, taken[0])
      ensures !dealt && !died ==> !client.connected
    {
      dataQueue := dataQueue + r.arrived;
      client.connected := !r.lostDuring;
      EmptyRight(client.wire);
      EmptyLeft(dataQueue);
      hide AnswerTo, Frames, Kills;
      if dataQueue == [] {
        taken, dealt, died := [], true, false;
      } else {
        HeadTail(dataQueue);
        taken, dataQueue := [dataQueue[0]], dataQueue[1..];
        dealt, died := HandleEntry(taken[0], r.socketOk);
      }
      client.connected := client.connected && !r.lostAfter;
    }

    /** The worker, for as many rounds of its loop. Over all the entries that were in the queue and
        that arrived meanwhile, it deals with the first `n` in order, answering those whose handler
        replies; one more it may have taken, which killed it or found the connection gone. */
    method ProcessQueue(rounds: seq<Round>) returns (k: nat, n: nat, died: bool)
      modifies this, client`wire, client`connected
      ensures k <= |rounds| && (!died && client.connected ==> k == |rounds|)
      ensures var all, left := old(dataQueue) + Arrived(rounds[..k]), |dataQueue|;
              && n + left <= |all| <= n + left + 1 && dataQueue == all[|all| - left..]
              && client.wire == old(client.wire) + Frames(AnswersTo(app, all[..n]))
              && Survives(app, all[..n])
              && (died ==> |all| == n + left + 1 && Kills(app, all[n]))
              && (!died && client.connected ==> |all| == n + left)
    {
      k, n, died := 0, 0, false;
      // the entries dealt with, and the one that was taken but not dealt with
      ghost var done, stuck: seq<Request>, wire0 := [], [], client.wire;
      EmptyRight(wire0);
      EmptyRight(dataQueue);
      EmptyLeft(dataQueue);
      assert AnswersTo(app, []) == [] && Survives(app, []);
      hide AnswersTo, AnswerTo, Frames, Kills, Arrived, Survives;
      while client.connected && !died && k < |rounds|
        invariant k <= |rounds| && n == |done| && |stuck| <= 1
        invariant old(dataQueue) + Arrived(rounds[..k]) == done + (stuck + dataQueue)
        invariant !died && client.connected ==> stuck == []
        invariant died ==> |stuck| == 1 && Kills(app, stuck[0])
        invariant client.wire == wire0 + Frames(AnswersTo(app, done))
        invariant Survives(app, done)
        decreases |rounds| - k
      {
        ArrivedNext(rounds, k, old(dataQueue));
        EmptyLeft(dataQueue);
        Assoc(done, dataQueue, rounds[k].arrived);
        EmptyRight(client.wire);
        var taken, dealt;
        taken, dealt, died := GoRound(rounds[k]);
        k := k + 1;
        if !dealt {
          stuck := taken;
        } else if taken != [] {
          AnswersNext(app, done, taken[0], wire0);
          SurvivesNext(app, done, taken[0]);
          Assoc(done, taken, dataQueue);
          n, done := n + 1, done + taken;
        }
        EmptyLeft(dataQueue);
      }
      SplitTwice(done, stuck, dataQueue);
    }
  }

  /** What others do while the worker goes round its loop: entries arrive before its `get`, the
      connection may be lost before it sends or after, and its `sendall` may fail. */
  datatype Round = Round(arrived: seq<Request>, lostDuring: bool, socketOk: bool, lostAfter: bool)

  function Arrived(rounds: seq<Round>): seq<Request> {
    if |rounds| == 0 then [] else Arrived(rounds[..|rounds| - 1]) + rounds[|rounds| - 1].arrived
  }

  lemma ArrivedNext(rounds: seq<Round>, k: nat, before: seq<Request>)
    requires k < |rounds|
    ensures before + Arrived(rounds[..k + 1]) == before + Arrived(rounds[..k]) + rounds[k].arrived
  {
    TakeNext(rounds, k);
    Assoc(before, Arrived(rounds[..k]), rounds[k].arrived);
  }

  lemma SplitTwice<T>(a: seq<T>, b: seq<T>, c: seq<T>)
    ensures var all := a + (b + c); all[..|a|] == a && all[|all| - |c|..] == c && (|b| == 1 ==> all[|a|] == b[0])
  {
  }

  /** The worker thread does not survive this request. */
  predicate Kills(app: App, q: Request) {
    match app.handle(q.payload)
    case Reply(body) => |Join(q.key, body)| > MAX_MSG_SIZE
    case NoReply => false
    case Raises => true
  }

  /** None of these requests kills the worker. */
  predicate Survives(app: App, qs: seq<Request>) {
    forall q | q in qs :: !Kills(app, q)
  }

  lemma SurvivesNext(app: App, qs: seq<Request>, q: Request)
    requires Survives(app, qs) && !Kills(app, q)
    ensures Survives(app, qs + [q])
  {
  }

  lemma AnswersNext(app: App, qs: seq<Request>, q: Request, w: seq<byte>)
    ensures w + Frames(AnswersTo(app, qs + [q])) == w + Frames(AnswersTo(app, qs)) + Frames(AnswerTo(app, q))
  {
    InitOfAppend(qs, q);
    FramesAppend(AnswersTo(app, qs), AnswerTo(app, q));
    Assoc(w, Frames(AnswersTo(app, qs)), Frames(AnswerTo(app, q)));
  }

  // ---------- What a reply is ----------

  /** What the requests deserve: where the handler returns something, that with the request's key. */
  function Deserved(app: App, qs: seq<Request>): seq<Request> {
    if |qs| == 0 then []
    else
      var q := qs[|qs| - 1];
      var reply := if app.handle(q.payload).Reply? then [Request(q.key, app.handle(q.payload).body)] else [];
      Deserved(app, qs[..|qs| - 1]) + reply
  }

  /** Splitting each message at its first delimiter gives the key and payload it is to carry. */
  predicate Carries(ms: seq<Message>, rs: seq<Request>) {
    |ms| == |rs| && forall i | 0 <= i < |ms| :: Split(ms[i]) == Some(rs[i])
  }

  predicate AllKeysFit(qs: seq<Request>) {
    forall q | q in qs :: KeyFits(q.key)
  }

  /** A request is answered by one message, which splits into its own key and what the handler
      returned, or not at all if the handler returned nothing. */
  lemma AnswerCarriesItsKey(app: App, q: Request)
    requires KeyFits(q.key)
    ensures match app.handle(q.payload)
            case Reply(body) => |AnswerTo(app, q)| == 1 && Split(AnswerTo(app, q)[0]) == Some(Request(q.key, body))
            case _ => AnswerTo(app, q) == []
  {
    if app.handle(q.payload).Reply? {
      Envelope.RoundTrip(q.key, app.handle(q.payload).body);
    }
  }

  /** The same for a list of requests, one by one. */
  lemma {:induction false} AnswersCarryTheirKeys(app: App, qs: seq<Request>)
    requires AllKeysFit(qs)
    ensures Carries(AnswersTo(app, qs), Deserved(app, qs))
  {
    if |qs| > 0 {
      var before, q := qs[..|qs| - 1], qs[|qs| - 1];
      AnswersCarryTheirKeys(app, before);
      AnswerCarriesItsKey(app, q);
      hide AnswerTo, Split, Join;
    }
  }

  // ---------- Requests ----------

  /** A message gives a request exactly if it is that request's envelope, its key is text that an
      envelope can carry, and its payload is not empty; it never gives more than one. */
  lemma RequestExactly(app: App, m: Message, q: Request)
    ensures RequestOf(app, m) == [q] <==>
            m == Join(q.key, q.payload) && KeyFits(q.key) && app.keyDecodes(q.key) && q.payload != []
    ensures |RequestOf(app, m)| <= 1
  {
    Envelope.RoundTrip(q.key, q.payload);
    if Split(m).Some? {
      ExtractedKeyIsRecovered(m, []);
    }
  }

  lemma {:induction false} RequestsAppend(app: App, a: seq<Message>, b: seq<Message>)
    ensures Requests(app, a + b) == Requests(app, a) + Requests(app, b)
  {
    if |b| == 0 {
      EmptyRight(a);
      EmptyRight(Requests(app, a));
    } else {
      var n := |b| - 1;
      assert (a + b)[..|a| + n] == a + b[..n];
      RequestsAppend(app, a, b[..n]);
      Assoc(Requests(app, a), Requests(app, b[..n]), RequestOf(app, b[n]));
    }
  }

  lemma RequestsOne(app: App, m: Message)
    ensures Requests(app, [m]) == RequestOf(app, m)
  {
    assert [m][..0] == [];
    EmptyLeft(RequestOf(app, m));
  }

  /** Every queued key survives being sent back, whatever the reply. */
  lemma {:induction false} RequestKeysFit(app: App, ms: seq<Message>)
    ensures AllKeysFit(Requests(app, ms))
  {
    if |ms| > 0 {
      RequestKeysFit(app, ms[..|ms| - 1]);
      var m := ms[|ms| - 1];
      if Split(m).Some? {
        ExtractedKeyIsRecovered(m, []);
      }
    }
  }
}
