/** The reference receiver and sender: the Python `TcpClient`. */
module PythonTcpClient {
  import opened Framing
  import opened Receivers

  class TcpClient {
    // whether `received_data_callback` calls `disconnect` while handling a message
    const hangsUp: Message -> bool
    var connected: bool
    var buffer: seq<byte>
    // the calls of `received_data_callback`, in order
    var delivered: seq<Message>
    // the bytes `sendall` has written
    var wire: seq<byte>

    /** After `connect_to_server` succeeded. */
    constructor (hangsUp: Message -> bool)
      ensures this.hangsUp == hangsUp && Reading() == FRESH && wire == []
    {
      this.hangsUp := hangsUp;
      connected, buffer, delivered, wire := true, [], [], [];
    }

    function Reading(): Receiver
      reads this
    {
      Receiver(buffer, delivered, connected)
    }

    method Disconnect()
      modifies this`connected
      ensures !connected
    {
      connected := false;
    }

    /** `raised` is the ValueError for an oversized message, which is not caught here; `socketOk` is
        false when `sendall` raises a socket error, having written nothing. */
    method WriteWithLengthPrefix(data: Message, socketOk: bool) returns (raised: bool)
      modifies this`wire, this`connected
      ensures raised == (old(connected) && |data| > MAX_MSG_SIZE)
      ensures wire == old(wire) + (if old(connected) && |data| <= MAX_MSG_SIZE && socketOk then Frame(data) else [])
      ensures connected == (old(connected) && (socketOk || |data| > MAX_MSG_SIZE))
    {
      raised := false;
      if !connected {
        return;
      }
      var length := |data|;
      if length > MAX_MSG_SIZE {
        raised := true;
        return;
      }
      if socketOk {
        var prefix := MAGIC + BigEndian(length);
        wire := wire + (prefix + data);
      } else {
        connected := false;
      }
    }

    /** Extraction drains the whole buffer, even after the callback disconnected. */
    method ProcessBuffer()
      modifies this`connected, this`buffer, this`delivered
      ensures buffer == Parse(old(buffer)).rest
      ensures delivered == old(delivered) + Decode(old(buffer))
      ensures connected == (old(connected) && Parse(old(buffer)).ok && !HangsUpOn(Decode(old(buffer)), hangsUp))
    {
      ghost var whole := buffer;
      while true
        invariant Parse(whole).rest == Parse(buffer).rest && Parse(whole).ok == Parse(buffer).ok
        invariant delivered + Decode(buffer) == old(delivered) + Decode(whole)
        invariant (connected && !HangsUpOn(Decode(buffer), hangsUp)) == (old(connected) && !HangsUpOn(Decode(whole), hangsUp))
        decreases |buffer|
      {
        if |buffer| < HEADER_LEN {
          break;
        }
        if buffer[..4] != MAGIC {
          connected := false;
          return;
        }
        var length := Unsigned(buffer[4..HEADER_LEN]);
        if length == 0 || length > MAX_MSG_SIZE {
          connected := false;
          return;
        }
        if |buffer| < HEADER_LEN + length {
          break;
        }
        var msg := buffer[HEADER_LEN..HEADER_LEN + length];
        ghost var last := buffer;
        buffer := buffer[HEADER_LEN + length..];
        DecodeStep(last, msg, buffer, hangsUp);
        if msg != HEARTBEAT_RESPONSE {
          delivered := delivered + [msg];
          if hangsUp(msg) {
            Disconnect();
          }
        }
      }
    }

    /** The receive thread, given what each `recv` returns. It leaves early once disconnected, which
        is when the specification stops changing too. */
    method ReceiveData(chunks: seq<seq<byte>>)
      modifies this`connected, this`buffer, this`delivered
      ensures Reading() == HearAll(old(Reading()), chunks, hangsUp)
    {
      var i := 0;
      assert chunks[..0] == [];
      while connected && i < |chunks|
        invariant 0 <= i <= |chunks|
        invariant Reading() == HearAll(old(Reading()), chunks[..i], hangsUp)
      {
        var chunk := chunks[i];
        assert chunks[..i + 1][..i] == chunks[..i];
        i := i + 1;
        if chunk == [] {
          connected := false;
          break;
        }
        buffer := buffer + chunk;
        ProcessBuffer();
      }
      assert chunks[..|chunks|] == chunks;
      if !connected {
        HearAllStops(old(Reading()), chunks, i, hangsUp);
      }
    }
  }
}
