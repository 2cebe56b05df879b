/** The Java receiver: a `ByteBuffer` with a position, signed lengths, and a `disconnect` that
    replaces the buffer. */
module JavaTcpClient {
  import opened Framing
  import opened Receivers

  /** A heap `ByteBuffer` over an array that nobody writes after the buffer was made. */
  class ByteBuffer {
    const content: seq<byte>
    var position: nat

    ghost predicate Valid()
      reads this
    {
      position <= |content|
    }

    ghost function Unread(): (s: seq<byte>)
      requires Valid()
      reads this
    {
      content[position..]
    }

    constructor Wrap(bytes: seq<byte>)
      ensures Valid() && position == 0 && content == bytes
    {
      content, position := bytes, 0;
    }

    method Remaining() returns (n: nat)
      requires Valid()
      ensures n == |Unread()|
    {
      n := |content| - position;
    }

    /** A second view of the same bytes with a position of its own. */
    method Duplicate() returns (d: ByteBuffer)
      requires Valid()
      ensures fresh(d) && d.Valid() && d.content == content && d.position == position
    {
      d := new ByteBuffer.Wrap(content);
      d.position := position;
    }

    method Get(n: nat) returns (bytes: seq<byte>)
      requires Valid() && n <= |Unread()|
      modifies this
      ensures Valid() && bytes == old(Unread())[..n] && Unread() == old(Unread())[n..]
    {
      bytes := content[position..position + n];
      position := position + n;
    }

    method GetInt() returns (n: int)
      requires Valid() && |Unread()| >= 4
      modifies this
      ensures Valid() && n == Signed(old(Unread())[..4]) && Unread() == old(Unread())[4..]
    {
      var four := Get(4);
      n := Signed(four);
    }

    /** A view that starts at the position. */
    method Slice() returns (d: ByteBuffer)
      requires Valid()
      ensures fresh(d) && d.Valid() && d.position == 0 && d.Unread() == Unread()
    {
      d := new ByteBuffer.Wrap(content[position..]);
    }
  }

  datatype Round = Incomplete | Malformed | Complete(msg: Message)

  class TcpClient {
    // whether the listener calls `disconnect` while handling a message
    const hangsUp: Message -> bool
    var running: bool
    var buffer: ByteBuffer
    // the calls of the listener, in order
    var delivered: seq<Message>

    ghost predicate Valid()
      reads this, buffer
    {
      buffer.Valid()
    }

    ghost function Reading(): Receiver
      requires Valid()
      reads this, buffer
    {
      Receiver(buffer.Unread(), delivered, running)
    }

    constructor (hangsUp: Message -> bool)
      ensures Valid() && fresh(buffer) && this.hangsUp == hangsUp && Reading() == FRESH
    {
      this.hangsUp := hangsUp;
      running, delivered := true, [];
      buffer := new ByteBuffer.Wrap([]);
    }

    method Disconnect()
      modifies this`running, this`buffer
      ensures Valid() && fresh(buffer) && !running && buffer.Unread() == []
    {
      running := false;
      buffer := new ByteBuffer.Wrap([]);
    }

    method AppendToBuffer(chunk: seq<byte>)
      requires Valid()
      modifies this`buffer, buffer
      ensures Valid() && fresh(buffer) && buffer.Unread() == old(buffer.Unread()) + chunk
    {
      var n := buffer.Remaining();
      var pending := buffer.Get(n);
      buffer := new ByteBuffer.Wrap(pending + chunk);
    }

    /** The first part of a round of `processBuffer`: peek at the header through a duplicate, then
        consume one message. The signed length test makes the decisions of the unsigned one. */
    method NextMessage() returns (r: Round)
      requires Valid()
      modifies this`buffer, buffer
      ensures Valid() && (buffer == old(buffer) || fresh(buffer))
      ensures r.Incomplete? <==> Partial(old(buffer.Unread()))
      ensures r.Malformed? <==> BadHeader(old(buffer.Unread()))
      ensures !r.Complete? ==> buffer.Unread() == old(buffer.Unread())
      ensures r.Complete? ==>
                var s := old(buffer.Unread());
                var n := HEADER_LEN + BodyLength(s);
                r.msg == s[HEADER_LEN..n] && buffer.Unread() == s[n..]
    {
      ghost var s := buffer.Unread();
      var n := buffer.Remaining();
      if n < HEADER_LEN {
        return Incomplete;
      }
      var dup := buffer.Duplicate();
      var magic := dup.Get(4);
      if magic != MAGIC {
        return Malformed;
      }
      assert dup.Unread()[..4] == s[4..8];
      SignedTestAgrees(s[4..8]);
      var length := dup.GetInt();
      if length <= 0 || length > MAX_MSG_SIZE {
        return Malformed;
      }
      var available := dup.Remaining();
      if available < length {
        return Incomplete;
      }
      buffer.position := buffer.position + HEADER_LEN;
      var msg := buffer.Get(length);
      buffer := buffer.Slice();
      return Complete(msg);
    }

    /** The unread bytes are the specification's residue. */
    method ProcessBuffer()
      requires Valid()
      modifies this, buffer
      ensures Valid() && (buffer == old(buffer) || fresh(buffer))
      ensures var s := old(buffer.Unread());
              var alive := Parse(s).ok && !HangsUpOn(Decode(s), hangsUp);
              && running == (old(running) && alive)
              && delivered == old(delivered) + Served(Decode(s), hangsUp)
              && buffer.Unread() == (if alive then Parse(s).rest else [])
    {
      ghost var whole, hung := buffer.Unread(), false;
      while true
        invariant Valid() && (buffer == old(buffer) || fresh(buffer))
        invariant Serving(whole, buffer.Unread(), old(delivered), delivered, hung, hangsUp)
        invariant running == (old(running) && !hung)
        decreases |buffer.Unread()|
      {
        ghost var last := buffer.Unread();
        var round := NextMessage();
        if !round.Complete? {
          ServingEnd(whole, last, old(delivered), delivered, hung, hangsUp);
        }
        if round.Incomplete? {
          break;
        }
        if round.Malformed? {
          Disconnect();
          return;
        }
        ServingStep(whole, last, old(delivered), delivered, round.msg, buffer.Unread(), hangsUp);
        if round.msg != HEARTBEAT_RESPONSE {
          delivered := delivered + [round.msg];
          if hangsUp(round.msg) {
            Disconnect();
            hung := true;
          }
        }
      }
    }

    /** The reader thread, given what each `read` returns. */
    method ReadData(chunks: seq<seq<byte>>)
      requires Valid()
      modifies this, buffer
      ensures Valid() && Reading() == ObeyAll(old(Reading()), chunks, hangsUp)
    {
      var i := 0;
      assert chunks[..0] == [];
      while running && i < |chunks|
        invariant 0 <= i <= |chunks|
        invariant Valid() && (buffer == old(buffer) || fresh(buffer))
        invariant Reading() == ObeyAll(old(Reading()), chunks[..i], hangsUp)
      {
        var chunk := chunks[i];
        assert chunks[..i + 1][..i] == chunks[..i];
        i := i + 1;
        if chunk == [] {
          running := false;
          break;
        }
        AppendToBuffer(chunk);
        ProcessBuffer();
      }
      assert chunks[..|chunks|] == chunks;
      if !running {
        ObeyAllStops(old(Reading()), chunks, i, hangsUp);
      }
    }
  }
}
