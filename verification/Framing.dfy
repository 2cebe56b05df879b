/** The KnotLink 2.0 wire format and the specification decoder that every receiver refines.

    A frame is the magic `4B 4B 00 02`, a 32-bit big-endian length and the body.
 */
module Framing {
  import opened Seqs

  newtype byte = x: int | 0 <= x < 256
  type Message = seq<byte>

  const MAGIC: seq<byte> := [0x4B, 0x4B, 0x00, 0x02]
  const HEADER_LEN := 8
  const MAX_MSG_SIZE := 16 * 1024 * 1024
  const TWO_TO_THE_32 := 0x1_0000_0000
  // "heartbeat" and "heartbeat_response" in ASCII
  const HEARTBEAT: Message := [104, 101, 97, 114, 116, 98, 101, 97, 116]
  const HEARTBEAT_RESPONSE: Message := HEARTBEAT + [95, 114, 101, 115, 112, 111, 110, 115, 101]

  // ---------- 32-bit big-endian lengths ----------

  function BigEndian(n: int): (b: seq<byte>)
    requires 0 <= n < TWO_TO_THE_32
    ensures |b| == 4
  {
    [(n / 0x100_0000) as byte, (n / 0x1_0000 % 0x100) as byte, (n / 0x100 % 0x100) as byte, (n % 0x100) as byte]
  }

  /** The length read as an unsigned integer: Python `>I`, Rust `u32`, JavaScript `readUInt32BE`. */
  function Unsigned(b: seq<byte>): (n: int)
    requires |b| == 4
    ensures 0 <= n < TWO_TO_THE_32
  {
    b[0] as int * 0x100_0000 + b[1] as int * 0x1_0000 + b[2] as int * 0x100 + b[3] as int
  }

  /** The same four bytes read as a two's complement `int`: Java `getInt`, C# `ToInt32`. */
  function Signed(b: seq<byte>): (n: int)
    requires |b| == 4
  {
    if b[0] >= 128 then Unsigned(b) - TWO_TO_THE_32 else Unsigned(b)
  }

  lemma LengthRoundTrip(n: int)
    requires 0 <= n < TWO_TO_THE_32
    ensures Unsigned(BigEndian(n)) == n
  {
    var a, b, c := n / 0x100, n / 0x1_0000, n / 0x100_0000;
    assert n == a * 0x100 + n % 0x100;
    assert a == b * 0x100 + a % 0x100 by { assert b == a / 0x100; }
    assert b == c * 0x100 + b % 0x100 by { assert c == b / 0x100; }
  }

  lemma LengthInverse(b: seq<byte>)
    requires |b| == 4
    ensures BigEndian(Unsigned(b)) == b
  {
    var n := Unsigned(b);
    assert n / 0x100_0000 == b[0] as int;
    assert n / 0x1_0000 == b[0] as int * 0x100 + b[1] as int;
    assert n / 0x100 == b[0] as int * 0x1_0000 + b[1] as int * 0x100 + b[2] as int;
  }

  /** The signed test `length <= 0 || length > MAX` accepts exactly the headers that the unsigned
      test `length == 0 || length > MAX` accepts, and both then read the same length. */
  lemma SignedTestAgrees(b: seq<byte>)
    requires |b| == 4
    ensures !(Signed(b) <= 0 || Signed(b) > MAX_MSG_SIZE) <==> !(Unsigned(b) == 0 || Unsigned(b) > MAX_MSG_SIZE)
    ensures 1 <= Unsigned(b) <= MAX_MSG_SIZE ==> Signed(b) == Unsigned(b)
  {
    if b[0] >= 128 {
      assert Unsigned(b) >= 128 * 0x100_0000;
    }
  }

  /** A number in network byte order: the most significant byte comes first. */
  function NetworkOrder(b: seq<byte>): int {
    if |b| == 0 then 0 else NetworkOrder(b[..|b| - 1]) * 256 + b[|b| - 1] as int
  }

  /** The length field is in network byte order. */
  lemma UnsignedIsNetworkOrder(b: seq<byte>)
    requires |b| == 4
    ensures Unsigned(b) == NetworkOrder(b)
  {
    var c := b[..3];
    assert NetworkOrder(b) == NetworkOrder(c) * 256 + b[3] as int;
    assert NetworkOrder(c) == NetworkOrder(c[..2]) * 256 + b[2] as int;
    assert NetworkOrder(c[..2]) == NetworkOrder(c[..2][..1]) * 256 + b[1] as int;
    assert NetworkOrder(c[..2][..1]) == b[0] as int;
  }

  // ---------- Encoding ----------

  /** The bytes a sender writes for one message. Senders that do not check the size (C++, Rust)
      truncate the length field to 32 bits. */
  function Frame(m: Message): (f: seq<byte>)
    ensures |f| == HEADER_LEN + |m|
  {
    MAGIC + BigEndian(|m| % TWO_TO_THE_32) + m
  }

  function Frames(ms: seq<Message>): seq<byte> {
    if |ms| == 0 then [] else Frame(ms[0]) + Frames(ms[1..])
  }

  /** The bodies a receiver accepts. */
  predicate Sendable(m: Message) {
    1 <= |m| <= MAX_MSG_SIZE
  }

  predicate AllSendable(ms: seq<Message>) {
    forall m | m in ms :: Sendable(m)
  }

  // ---------- Decoding ----------

  function BodyLength(s: seq<byte>): int
    requires |s| >= HEADER_LEN
  {
    Unsigned(s[4..8])
  }

  predicate HeaderOk(s: seq<byte>)
    requires |s| >= HEADER_LEN
  {
    s[..4] == MAGIC && 1 <= BodyLength(s) <= MAX_MSG_SIZE
  }

  /** A complete header that every receiver disconnects on. */
  predicate BadHeader(s: seq<byte>) {
    |s| >= HEADER_LEN && !HeaderOk(s)
  }

  /** What a receiver may be left holding: less than a header, or a strict part of one frame. */
  predicate Partial(s: seq<byte>) {
    |s| < HEADER_LEN || (HeaderOk(s) && |s| < HEADER_LEN + BodyLength(s))
  }

  datatype Parsed = Parsed(frames: seq<Message>, rest: seq<byte>, ok: bool)

  /** Extract as many frames as possible; `ok` is false when a bad header stopped the extraction. */
  function Parse(s: seq<byte>): Parsed
    decreases |s|
  {
    if Partial(s) then Parsed([], s, true)
    else if BadHeader(s) then Parsed([], s, false)
    else
      var p := Parse(s[HEADER_LEN + BodyLength(s)..]);
      p.(frames := [s[HEADER_LEN..HEADER_LEN + BodyLength(s)]] + p.frames)
  }

  /** The messages handed to the application: heartbeat responses are dropped. */
  function Deliver(ms: seq<Message>): seq<Message> {
    if |ms| == 0 then []
    else (if ms[0] == HEARTBEAT_RESPONSE then [] else [ms[0]]) + Deliver(ms[1..])
  }

  /** The messages a receiver delivers from a stream. */
  function Decode(s: seq<byte>): seq<Message> {
    Deliver(Parse(s).frames)
  }

  /** The headers at the limits: bodies of 1 byte and of 16 MiB are accepted, of 0 and of one byte more
      are not, nor is another magic. */
  lemma HeadersAtTheLimits(field: seq<byte>, magic: seq<byte>)
    requires |field| == |magic| == 4
    ensures HeaderOk([0x4B, 0x4B, 0x00, 0x02] + field) <==> 1 <= NetworkOrder(field) <= 0x100_0000
    ensures magic != [0x4B, 0x4B, 0x00, 0x02] ==> BadHeader(magic + field)
  {
    UnsignedIsNetworkOrder(field);
    assert ([0x4B, 0x4B, 0x00, 0x02] + field)[4..8] == field;
    assert (magic + field)[..4] == magic;
  }

  /** The heartbeats are the texts of that name. */
  lemma HeartbeatsAreTexts()
    ensures |HEARTBEAT| == |"heartbeat"| && forall i | 0 <= i < |HEARTBEAT| :: HEARTBEAT[i] as int == "heartbeat"[i] as int
    ensures |HEARTBEAT_RESPONSE| == |"heartbeat_response"|
    ensures forall i | 0 <= i < |HEARTBEAT_RESPONSE| :: HEARTBEAT_RESPONSE[i] as int == "heartbeat_response"[i] as int
  {
  }

  // ---------- Lists of frames ----------

  lemma {:induction false} FramesAppend(a: seq<Message>, b: seq<Message>)
    ensures Frames(a + b) == Frames(a) + Frames(b)
  {
    if |a| == 0 {
      assert a + b == b;
    } else {
      assert (a + b)[1..] == a[1..] + b;
      FramesAppend(a[1..], b);
    }
  }

  lemma FramesCons(m: Message, ms: seq<Message>, t: seq<byte>)
    ensures Frame(m) + (Frames(ms) + t) == Frames([m] + ms) + t
  {
    assert ([m] + ms)[1..] == ms;
  }

  lemma FramesOne(m: Message)
    ensures Frames([m]) == Frame(m)
  {
    assert [m][1..] == [];
  }

  lemma {:induction false} DeliverAppend(a: seq<Message>, b: seq<Message>)
    ensures Deliver(a + b) == Deliver(a) + Deliver(b)
  {
    if |a| == 0 {
      assert a + b == b;
    } else {
      assert (a + b)[1..] == a[1..] + b;
      DeliverAppend(a[1..], b);
    }
  }

  /** Heartbeat responses are dropped and nothing else is. */
  lemma {:induction false} OnlyResponsesAreDropped(ms: seq<Message>)
    ensures HEARTBEAT_RESPONSE !in Deliver(ms)
    ensures forall m | m != HEARTBEAT_RESPONSE :: multiset(Deliver(ms))[m] == multiset(ms)[m]
    ensures HEARTBEAT_RESPONSE !in ms ==> Deliver(ms) == ms
  {
    if |ms| > 0 {
      OnlyResponsesAreDropped(ms[1..]);
      HeadTail(ms);
    }
  }

  // ---------- The decoder against the encoder ----------

  /** The header of an encoded frame, followed by anything. */
  lemma FrameHeader(m: Message, t: seq<byte>)
    requires |m| < TWO_TO_THE_32
    ensures (Frame(m) + t)[..4] == MAGIC && BodyLength(Frame(m) + t) == |m|
    ensures HeaderOk(Frame(m) + t) <==> Sendable(m)
    ensures (Frame(m) + t)[HEADER_LEN..] == m + t
  {
    LengthRoundTrip(|m|);
    hide BigEndian, Unsigned;
    assert |m| % TWO_TO_THE_32 == |m|;
    FourAndFour(MAGIC, BigEndian(|m|), m, t);
  }

  lemma ParseFrame(m: Message, t: seq<byte>)
    requires Sendable(m)
    ensures Parse(Frame(m) + t) == Parse(t).(frames := [m] + Parse(t).frames)
  {
    var s := Frame(m) + t;
    FrameHeader(m, t);
    assert s[HEADER_LEN..HEADER_LEN + |m|] == s[HEADER_LEN..][..|m|] == m;
    assert s[HEADER_LEN + |m|..] == s[HEADER_LEN..][|m|..] == t;
  }

  lemma ParseFrameFirst(m: Message, ms: seq<Message>, t: seq<byte>)
    requires Sendable(m) && Parse(Frames(ms) + t) == Parse(t).(frames := ms + Parse(t).frames)
    ensures Parse(Frames([m] + ms) + t) == Parse(t).(frames := [m] + (ms + Parse(t).frames))
  {
    FramesCons(m, ms, t);
    ParseFrame(m, Frames(ms) + t);
  }

  lemma {:induction false} ParseFrames(ms: seq<Message>, t: seq<byte>)
    requires AllSendable(ms)
    ensures Parse(Frames(ms) + t) == Parse(t).(frames := ms + Parse(t).frames)
  {
    if |ms| == 0 {
      EmptyLeft(t);
      EmptyLeft(Parse(t).frames);
    } else {
      ParseFrames(ms[1..], t);
      ParseFrameFirst(ms[0], ms[1..], t);
      HeadTail(ms);
      Assoc([ms[0]], ms[1..], Parse(t).frames);
    }
  }

  /** A good header in front of a body of its length is that body's frame. */
  lemma HeaderAndBody(s: seq<byte>, m: Message)
    requires |s| >= HEADER_LEN && HeaderOk(s) && |m| == BodyLength(s)
    ensures Frame(m) == s[..8] + m && Sendable(m)
  {
    LengthInverse(s[4..8]);
    hide BigEndian, Unsigned;
    TakeMore(s, 4, 4);
  }

  /** Re-encoding the first frame of a stream gives back its bytes. */
  lemma FirstFrame(s: seq<byte>)
    requires !Partial(s) && !BadHeader(s)
    ensures var n := HEADER_LEN + BodyLength(s);
            n <= |s| && Sendable(s[HEADER_LEN..n]) && s == Frame(s[HEADER_LEN..n]) + s[n..]
  {
    var n := HEADER_LEN + BodyLength(s);
    HeaderAndBody(s, s[HEADER_LEN..n]);
    hide Frame, HeaderOk, BodyLength;
    TakeMore(s, HEADER_LEN, n - HEADER_LEN);
    TakeDrop(s, n);
  }

  lemma PartialBound(s: seq<byte>)
    requires Partial(s)
    ensures |s| <= MAX_MSG_SIZE + 7
  {
  }

  /** Soundness: the stream is the encoding of the extracted frames followed by the residue; the
      residue is a bad header or a strict part of one frame, so at most 16 MiB + 7 bytes. */
  lemma {:induction false} ParseStructure(s: seq<byte>)
    ensures s == Frames(Parse(s).frames) + Parse(s).rest
    ensures AllSendable(Parse(s).frames)
    ensures if Parse(s).ok then Partial(Parse(s).rest) else BadHeader(Parse(s).rest)
    ensures Parse(s).ok ==> |Parse(s).rest| <= MAX_MSG_SIZE + 7
    decreases |s|
  {
    if Partial(s) || BadHeader(s) {
      assert Frames([]) + s == s;
      if Partial(s) {
        PartialBound(s);
      }
    } else {
      FirstFrame(s);
      var n := HEADER_LEN + BodyLength(s);
      ParseStructure(s[n..]);
      FramesCons(s[HEADER_LEN..n], Parse(s[n..]).frames, Parse(s[n..]).rest);
    }
  }

  /** Completeness: every way of writing a stream as frames and a residue is the one found. */
  lemma ParseComplete(ms: seq<Message>, r: seq<byte>)
    requires AllSendable(ms) && (Partial(r) || BadHeader(r))
    ensures Parse(Frames(ms) + r) == Parsed(ms, r, Partial(r))
  {
    ParseFrames(ms, r);
    assert ms + [] == ms;
  }

  /** Exact characterisation: a stream splits into sendable frames and a residue in one way only,
      and `Parse` finds it. With `ok` it reports whether that residue is a strict part of a frame. */
  lemma ParseCharacterised(s: seq<byte>, ms: seq<Message>, r: seq<byte>, ok: bool)
    ensures Parse(s) == Parsed(ms, r, ok)
            <==> s == Frames(ms) + r && AllSendable(ms) && (if ok then Partial(r) else BadHeader(r))
  {
    ParseStructure(s);
    if s == Frames(ms) + r && AllSendable(ms) && (Partial(r) || BadHeader(r)) {
      ParseComplete(ms, r);
    }
  }

  lemma BadHeaderStays(r: seq<byte>, t: seq<byte>)
    requires BadHeader(r)
    ensures BadHeader(r + t)
  {
    assert (r + t)[..4] == r[..4] && (r + t)[4..8] == r[4..8];
  }

  /** Decoding is incremental: what was extracted stays extracted and only the residue matters. */
  lemma ParseAppend(s: seq<byte>, t: seq<byte>)
    ensures var p, q := Parse(s), Parse(Parse(s).rest + t);
            Parse(s + t) == q.(frames := p.frames + q.frames)
  {
    hide Frames, Parse, Partial, BadHeader;
    var ms, r := Parse(s).frames, Parse(s).rest;
    ParseStructure(s);
    assert s + t == Frames(ms) + (r + t);
    ParseFrames(ms, r + t);
  }

  /** After a bad header nothing more is extracted. */
  lemma ParseAppendDead(s: seq<byte>, t: seq<byte>)
    requires !Parse(s).ok
    ensures Parse(s + t) == Parsed(Parse(s).frames, Parse(s).rest + t, false)
  {
    ParseAppend(s, t);
    ParseStructure(s);
    BadHeaderStays(Parse(s).rest, t);
  }

  // ---------- Consequences ----------

  /** Round trip over every list that the senders' size check lets through: the peer reads the
      list back and stays connected exactly when no message is empty. */
  lemma RoundTrip(ms: seq<Message>)
    requires forall m | m in ms :: |m| <= MAX_MSG_SIZE
    ensures Parse(Frames(ms)) == Parsed(ms, [], true) <==> forall m | m in ms :: m != []
    ensures (forall m | m in ms :: m != []) ==> Decode(Frames(ms)) == Deliver(ms)
    ensures (forall m | m in ms :: m != [] && m != HEARTBEAT_RESPONSE) ==> Decode(Frames(ms)) == ms
  {
    OnlyResponsesAreDropped(ms);
    ParseCharacterised(Frames(ms), ms, [], true);
    assert Frames(ms) + [] == Frames(ms);
  }

  /** An empty message is sent without complaint and disconnects its receiver at that point,
      whatever follows. */
  lemma EmptyMessageDisconnects(ms: seq<Message>, t: seq<byte>)
    requires AllSendable(ms)
    ensures Parse(Frames(ms + [[]]) + t) == Parsed(ms, Frame([]) + t, false)
  {
    var e: Message := [];
    var r := Frame(e) + t;
    assert BadHeader(r) by { FrameHeader(e, t); }
    assert Frames(ms + [e]) + t == Frames(ms) + r by { FramesAppend(ms, [e]); FramesOne(e); }
    ParseCharacterised(Frames(ms) + r, ms, r, false);
  }

  /** Every byte prefix of an encoded list decodes to a prefix of it, without a disconnect. */
  lemma PrefixDecodesToPrefix(ms: seq<Message>, s: seq<byte>)
    requires AllSendable(ms) && s <= Frames(ms)
    ensures Parse(s).ok && Parse(s).frames <= ms
    ensures Decode(s) <= Deliver(ms)
  {
    var t := Frames(ms)[|s|..];
    assert s + t == Frames(ms) == Frames(ms) + [];
    ParseComplete(ms, []);
    if !Parse(s).ok {
      ParseAppendDead(s, t);
    }
    ParseAppend(s, t);
    var got, later := Parse(s).frames, Parse(Parse(s).rest + t).frames;
    assert ms == got + later;
    DeliverAppend(got, later);
  }

  predicate Encodable(ms: seq<Message>) {
    forall m | m in ms :: |m| < TWO_TO_THE_32
  }

  /** The length field tells frames of different lengths apart. */
  lemma FirstBody(m: Message, t: seq<byte>, m': Message, t': seq<byte>)
    requires |m| < TWO_TO_THE_32 && |m'| < TWO_TO_THE_32 && Frame(m) + t == Frame(m') + t'
    ensures m == m' && t == t'
  {
    FrameHeader(m, t);
    FrameHeader(m', t');
    hide Frame, BodyLength;
    assert (m + t)[..|m|] == m && (m' + t')[..|m|] == m';
    assert (m + t)[|m|..] == t && (m' + t')[|m|..] == t';
  }

  /** The encoding is unambiguous for all messages whose length fits its field, empty and oversized
      ones included. */
  lemma {:induction false} FramesInjective(a: seq<Message>, b: seq<Message>)
    requires Encodable(a) && Encodable(b) && Frames(a) == Frames(b)
    ensures a == b
  {
    if |a| > 0 && |b| > 0 {
      FirstBody(a[0], Frames(a[1..]), b[0], Frames(b[1..]));
      FramesInjective(a[1..], b[1..]);
      HeadTail(a);
      HeadTail(b);
    }
  }

  lemma ParseInserted(ms: seq<Message>, h: Message, t: seq<byte>)
    requires AllSendable(ms) && Sendable(h)
    ensures Parse(Frames(ms) + Frame(h) + t) == Parse(t).(frames := ms + ([h] + Parse(t).frames))
  {
    ParseFrame(h, t);
    ParseFrames(ms, Frame(h) + t);
    hide Frame, Frames, Parse;
    Assoc(Frames(ms), Frame(h), t);
  }

  lemma DeliverSkips(a: seq<Message>, b: seq<Message>)
    ensures Deliver(a + ([HEARTBEAT_RESPONSE] + b)) == Deliver(a + b)
  {
    DeliverAppend(a, [HEARTBEAT_RESPONSE] + b);
    DeliverAppend(a, b);
    assert ([HEARTBEAT_RESPONSE] + b)[1..] == b;
  }

  /** A heartbeat response at any frame boundary changes nothing: not the messages, the residue or
      the connection, even when the stream after it goes bad. */
  lemma HeartbeatResponsesAreInvisible(ms: seq<Message>, t: seq<byte>)
    requires AllSendable(ms)
    ensures var with, without := Frames(ms) + Frame(HEARTBEAT_RESPONSE) + t, Frames(ms) + t;
            && Decode(with) == Decode(without)
            && Parse(with).rest == Parse(without).rest
            && Parse(with).ok == Parse(without).ok
  {
    ParseInserted(ms, HEARTBEAT_RESPONSE, t);
    ParseFrames(ms, t);
    DeliverSkips(ms, Parse(t).frames);
  }
}
