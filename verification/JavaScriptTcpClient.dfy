/** The JavaScript receiver: the callback may disconnect re-entrantly, which empties the buffer
    under the extraction loop. */
module JavaScriptTcpClient {
  import opened Framing
  import opened Receivers

  class TcpClient {
    // whether `receivedDataCallback` calls `disconnect` while handling a message
    const hangsUp: Message -> bool
    var connected: bool
    var buffer: seq<byte>
    // the calls of `receivedDataCallback`, in order
    var delivered: seq<Message>

    function Reading(): Receiver
      reads this
    {
      Receiver(buffer, delivered, connected)
    }

    constructor (hangsUp: Message -> bool)
      ensures this.hangsUp == hangsUp && Reading() == FRESH
    {
      this.hangsUp := hangsUp;
      connected, buffer, delivered := true, [], [];
    }

    method Disconnect()
      modifies this`connected, this`buffer
      ensures !connected && buffer == []
    {
      connected, buffer := false, [];
    }

    method ProcessBuffer()
      modifies this`connected, this`buffer, this`delivered
      ensures var alive := Parse(old(buffer)).ok && !HangsUpOn(Decode(old(buffer)), hangsUp);
              && connected == (old(connected) && alive)
              && delivered == old(delivered) + Served(Decode(old(buffer)), hangsUp)
              && buffer == (if alive then Parse(old(buffer)).rest else [])
    {
      ghost var whole, hung := buffer, false;
      while true
        invariant Serving(whole, buffer, old(delivered), delivered, hung, hangsUp)
        invariant connected == (old(connected) && !hung)
        decreases |buffer|
      {
        if Partial(buffer) || BadHeader(buffer) {
          ServingEnd(whole, buffer, old(delivered), delivered, hung, hangsUp);
        }
        if |buffer| < HEADER_LEN {
          break;
        }
        if buffer[..4] != MAGIC {
          Disconnect();
          return;
        }
        var length := Unsigned(buffer[4..8]);
        if length == 0 || length > MAX_MSG_SIZE {
          Disconnect();
          return;
        }
        if |buffer| < HEADER_LEN + length {
          break;
        }
        ghost var last := buffer;
        var msg := buffer[HEADER_LEN..HEADER_LEN + length];
        buffer := buffer[HEADER_LEN + length..];
        ServingStep(whole, last, old(delivered), delivered, msg, buffer, hangsUp);
        if msg != HEARTBEAT_RESPONSE {
          delivered := delivered + [msg];
          if hangsUp(msg) {
            Disconnect();
            hung := true;
          }
        }
      }
    }

    /** The 'data' events of the socket, which stop once it is destroyed. */
    method OnData(chunks: seq<seq<byte>>)
      requires Readable(chunks)
      modifies this`connected, this`buffer, this`delivered
      ensures Reading() == ObeyAll(old(Reading()), chunks, hangsUp)
    {
      var i := 0;
      assert chunks[..0] == [];
      while connected && i < |chunks|
        invariant 0 <= i <= |chunks|
        invariant Reading() == ObeyAll(old(Reading()), chunks[..i], hangsUp)
      {
        assert chunks[..i + 1][..i] == chunks[..i];
        buffer := buffer + chunks[i];
        i := i + 1;
        ProcessBuffer();
      }
      assert chunks[..|chunks|] == chunks;
      if !connected {
        ObeyAllStops(old(Reading()), chunks, i, hangsUp);
      }
    }
  }
}
