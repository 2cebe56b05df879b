/** The C# receiver: a `MemoryStream` that is appended to at its cursor, wherever the last read
    left it. */
module CSharpReceiver {
  import opened Seqs
  import opened Framing
  import opened Receivers

  function Overwrite(data: seq<byte>, position: nat, bytes: seq<byte>): seq<byte>
    requires position <= |data|
  {
    data[..position] + bytes + (if position + |bytes| < |data| then data[position + |bytes|..] else [])
  }

  lemma OverwriteEmpty(bytes: seq<byte>)
    ensures Overwrite([], 0, bytes) == bytes
  {
  }

  /** A `MemoryStream` whose cursor never passes its length. */
  class MemoryStream {
    var data: seq<byte>
    var position: nat

    ghost predicate Valid()
      reads this
    {
      position <= |data|
    }

    constructor ()
      ensures Valid() && data == [] && position == 0
    {
      data, position := [], 0;
    }

    method Write(bytes: seq<byte>)
      requires Valid()
      modifies this
      ensures Valid() && data == Overwrite(old(data), old(position), bytes)
      ensures position == old(position) + |bytes| && |data| == if |old(data)| < position then position else |old(data)|
      ensures data[..old(position)] == old(data)[..old(position)] && data[old(position)..position] == bytes
      ensures data[position..] == if position <= |old(data)| then old(data)[position..] else []
    {
      data := Overwrite(data, position, bytes);
      position := position + |bytes|;
    }

    /** Reads at most `n` bytes at the cursor. */
    method Read(n: nat) returns (bytes: seq<byte>)
      requires Valid()
      modifies this`position
      ensures position == if old(position) + n <= |data| then old(position) + n else |data|
      ensures Valid() && bytes == data[old(position)..position]
    {
      var end := if position + n <= |data| then position + n else |data|;
      bytes := data[position..end];
      position := end;
    }

    /** `SetLength(0)` followed by `Position = 0`. */
    method Clear()
      modifies this
      ensures Valid() && data == [] && position == 0
    {
      data, position := [], 0;
    }
  }

  /** `TryExtractMessage` returned false, returned a message, or threw. */
  datatype Extraction = Nothing | Extracted(msg: Message) | Thrown

  /** Where `TryExtractMessage` leaves the cursor when it finds no message: at the end of a short
      residue, behind the header of a longer one. */
  function Cursor(residue: seq<byte>): nat {
    if |residue| < HEADER_LEN then |residue| else HEADER_LEN
  }

  /** What the buffer holds after the next read. */
  function Append(residue: seq<byte>, chunk: seq<byte>): seq<byte> {
    Overwrite(residue, Cursor(residue), chunk)
  }

  function Read(p: Parsed, chunk: seq<byte>): Parsed {
    if !p.ok then p
    else
      var q := Parse(Append(p.rest, chunk));
      Parsed(p.frames + q.frames, if q.ok then q.rest else [], q.ok)
  }

  /** The frames extracted by the read loop, its buffer, and whether it is still running. */
  function ReadAll(chunks: seq<seq<byte>>): Parsed {
    if |chunks| == 0 then Parsed([], [], true)
    else Read(ReadAll(chunks[..|chunks| - 1]), chunks[|chunks| - 1])
  }

  lemma EmptyIsPartial()
    ensures Partial([])
  {
  }

  class KlTcpClient {
    const recvBuffer: MemoryStream
    var running: bool
    // the calls of `OnDataReceivedAsync`, in order
    var delivered: seq<Message>

    /** Between reads the cursor is where the residue puts it. */
    ghost predicate Valid()
      reads this, recvBuffer
    {
      recvBuffer.Valid() && recvBuffer.position == Cursor(recvBuffer.data)
    }

    constructor ()
      ensures Valid() && fresh(recvBuffer) && recvBuffer.data == [] && running && delivered == []
    {
      recvBuffer := new MemoryStream();
      running, delivered := true, [];
    }

    method TryExtractMessage() returns (r: Extraction)
      requires recvBuffer.Valid()
      requires |recvBuffer.data| < HEADER_LEN ==> recvBuffer.position == |recvBuffer.data|
      modifies recvBuffer
      ensures recvBuffer.Valid() && (!r.Extracted? ==> Valid())
      ensures r.Nothing? <==> Partial(old(recvBuffer.data))
      ensures r.Thrown? <==> BadHeader(old(recvBuffer.data))
      ensures r.Nothing? ==> recvBuffer.data == old(recvBuffer.data)
      ensures r.Nothing? ==> recvBuffer.position == if |recvBuffer.data| < 8 then |recvBuffer.data| else 8
      ensures r.Thrown? ==> recvBuffer.data == []
      ensures r.Extracted? ==>
                var s := old(recvBuffer.data);
                var n := HEADER_LEN + BodyLength(s);
                r.msg == s[HEADER_LEN..n] && recvBuffer.data == s[n..] && recvBuffer.position == |s[n..]|
    {
      hide Signed, Unsigned, Overwrite;
      ghost var s := recvBuffer.data;
      var bufferLen := |recvBuffer.data|;
      if bufferLen < HEADER_LEN {
        return Nothing;
      }
      recvBuffer.position := 0;
      var magic := recvBuffer.Read(4);
      if magic != MAGIC {
        recvBuffer.Clear();
        return Thrown;
      }
      var lenBuffer := recvBuffer.Read(4);
      SignedTestAgrees(lenBuffer);
      var msgLen := Signed(lenBuffer);
      if msgLen <= 0 || msgLen > MAX_MSG_SIZE {
        recvBuffer.Clear();
        return Thrown;
      } else if bufferLen < HEADER_LEN + msgLen {
        return Nothing;
      }
      recvBuffer.position := HEADER_LEN;
      var msg := recvBuffer.Read(msgLen);
      recvBuffer.position := HEADER_LEN + msgLen;
      var remaining := recvBuffer.Read(bufferLen - HEADER_LEN - msgLen);
      recvBuffer.Clear();
      recvBuffer.Write(remaining);
      OverwriteEmpty(remaining);
      return Extracted(msg);
    }

    /** One pass of the read loop after `ReadAsync` returned a non-empty chunk. */
    method OnRead(chunk: seq<byte>)
      requires Valid() && chunk != []
      modifies this`running, this`delivered, recvBuffer
      ensures Valid()
      ensures var p := Parse(Append(old(recvBuffer.data), chunk));
              && delivered == old(delivered) + Deliver(p.frames)
              && recvBuffer.data == (if p.ok then p.rest else [])
              && running == (old(running) && p.ok)
    {
      recvBuffer.Write(chunk);
      ghost var whole := recvBuffer.data;
      assert whole == Append(old(recvBuffer.data), chunk);
      assert |whole| < HEADER_LEN ==> recvBuffer.position == |whole|;
      hide Append, Overwrite, Cursor, HeaderOk, BodyLength, Partial, BadHeader, Parse, Deliver;
      EmptyRight(delivered);
      ghost var thrown := false;
      var more := true;
      while more
        invariant recvBuffer.Valid()
        invariant |recvBuffer.data| < HEADER_LEN ==> recvBuffer.position == |recvBuffer.data|
        invariant delivered + Decode(recvBuffer.data) == old(delivered) + Decode(whole)
        invariant if thrown then !running && !Parse(whole).ok && recvBuffer.data == []
                  else
                    && running == old(running)
                    && Parse(whole).ok == Parse(recvBuffer.data).ok && Parse(whole).rest == Parse(recvBuffer.data).rest
        invariant !more ==> Valid() && Partial(recvBuffer.data)
        decreases more, |recvBuffer.data|
      {
        ghost var last := recvBuffer.data;
        var r := TryExtractMessage();
        if !r.Extracted? {
          DecodeEnd(last);
          EmptyIsPartial();
          DecodeEnd([]);
          EmptyRight(delivered);
        } else {
          FrameIsThere(last);
        }
        if r.Thrown? {
          more, running := false, false;
          thrown := true;
        } else if r.Nothing? {
          more := false;
        } else {
          DecodeStep(last, r.msg, recvBuffer.data, _ => false);
          if r.msg != HEARTBEAT_RESPONSE {
            delivered := delivered + [r.msg];
          }
        }
      }
    }

    /** The read loop, given what each `ReadAsync` returns: zero bytes end it. */
    method ReadLoop(chunks: seq<seq<byte>>)
      requires Valid() && Readable(chunks)
      requires running && delivered == [] && recvBuffer.data == []
      modifies this`running, this`delivered, recvBuffer
      ensures delivered == Deliver(ReadAll(chunks).frames)
      ensures recvBuffer.data == ReadAll(chunks).rest && running == ReadAll(chunks).ok
    {
      var i := 0;
      assert chunks[..0] == [];
      while running && i < |chunks|
        invariant 0 <= i <= |chunks| && Valid()
        invariant delivered == Deliver(ReadAll(chunks[..i]).frames)
        invariant recvBuffer.data == ReadAll(chunks[..i]).rest && running == ReadAll(chunks[..i]).ok
      {
        assert chunks[..i + 1][..i] == chunks[..i];
        DeliverAppend(ReadAll(chunks[..i]).frames, Parse(Append(recvBuffer.data, chunks[i])).frames);
        OnRead(chunks[i]);
        i := i + 1;
      }
      assert chunks[..|chunks|] == chunks;
      if !running {
        ReadAllStops(chunks, i);
      }
    }
  }

  lemma {:induction false} ReadAllStops(chunks: seq<seq<byte>>, i: nat)
    requires i <= |chunks| && !ReadAll(chunks[..i]).ok
    ensures ReadAll(chunks) == ReadAll(chunks[..i])
  {
    if i == |chunks| {
      assert chunks[..i] == chunks;
    } else {
      assert chunks[..|chunks| - 1][..i] == chunks[..i];
      ReadAllStops(chunks[..|chunks| - 1], i);
    }
  }

  // ---------- When this is the specification ----------

  /** Every read but the last leaves at most a header's worth of residue. */
  predicate Lossless(chunks: seq<seq<byte>>) {
    forall i | 0 < i < |chunks| ::
      Parse(Concat(chunks[..i])).ok ==> |Parse(Concat(chunks[..i])).rest| <= HEADER_LEN
  }

  lemma LosslessPrefix(chunks: seq<seq<byte>>)
    requires |chunks| > 0
    ensures var n := |chunks| - 1;
            Lossless(chunks) <==>
            Lossless(chunks[..n])
            && (n > 0 && Parse(Concat(chunks[..n])).ok ==> |Parse(Concat(chunks[..n])).rest| <= HEADER_LEN)
  {
    var n := |chunks| - 1;
    assert forall i | 0 < i < n :: chunks[..n][..i] == chunks[..i];
    if Lossless(chunks[..n]) && (n > 0 && Parse(Concat(chunks[..n])).ok ==> |Parse(Concat(chunks[..n])).rest| <= HEADER_LEN) {
      forall i | 0 < i < |chunks|
        ensures Parse(Concat(chunks[..i])).ok ==> |Parse(Concat(chunks[..i])).rest| <= HEADER_LEN
      {
        if i < n {
          assert chunks[..n][..i] == chunks[..i];
        }
      }
    }
  }

  /** The cursor is at the end of the buffer exactly when the residue is at most a header, and only
      then does an append keep every byte. */
  lemma AppendKeepsAll(residue: seq<byte>, chunk: seq<byte>)
    requires chunk != []
    ensures |residue| <= HEADER_LEN <==> Cursor(residue) == |residue|
    ensures |residue| <= HEADER_LEN ==> Append(residue, chunk) == residue + chunk
    ensures |residue| > HEADER_LEN ==> |Append(residue, chunk)| < |residue| + |chunk|
  {
  }

  /** Behind a longer residue the cursor is at byte 8: the append keeps the header, writes the chunk
      behind it, and leaves of the old body only what the chunk does not reach. */
  lemma AppendOverwritesBody(residue: seq<byte>, chunk: seq<byte>)
    requires |residue| > 8
    ensures var s := Append(residue, chunk);
            && |s| == (if |residue| > 8 + |chunk| then |residue| else 8 + |chunk|)
            && s[..8] == residue[..8] && s[8..8 + |chunk|] == chunk
            && s[8 + |chunk|..] == (if 8 + |chunk| <= |residue| then residue[8 + |chunk|..] else [])
  {
  }

  lemma ParseBehindHeader(residue: seq<byte>, chunk: seq<byte>)
    requires |residue| >= HEADER_LEN && HeaderOk(residue) && BodyLength(residue) <= |chunk|
    ensures var n := BodyLength(residue);
            Parse(residue[..8] + chunk) == Parse(chunk[n..]).(frames := [chunk[..n]] + Parse(chunk[n..]).frames)
  {
    var n := BodyLength(residue);
    var m, t := chunk[..n], chunk[n..];
    HeaderAndBody(residue, m);
    hide *;
    TakeDrop(chunk, n);
    Assoc(residue[..8], m, t);
    ParseFrame(m, t);
  }

  /** So once a body of `n` bytes was split, the part already read is forgotten: the next read, if it
      has `n` bytes, delivers its own first `n` bytes as the message and is decoded from there. */
  lemma SplitBodyIsReplaced(chunks: seq<seq<byte>>, chunk: seq<byte>)
    requires ReadAll(chunks).ok && |ReadAll(chunks).rest| > HEADER_LEN
    requires BodyLength(ReadAll(chunks).rest) <= |chunk|
    ensures var p, n := ReadAll(chunks), BodyLength(ReadAll(chunks).rest);
            var r, later := ReadAll(chunks + [chunk]), Parse(chunk[n..]);
            r.frames == p.frames + ([chunk[..n]] + later.frames) && r.ok == later.ok && (r.ok ==> r.rest == later.rest)
  {
    var rest := ReadAll(chunks).rest;
    InitOfAppend(chunks, chunk);
    RestIsPartial(chunks);
    AppendOverwritesBody(rest, chunk);
    assert Append(rest, chunk) == rest[..8] + chunk;
    assert ReadAll(chunks + [chunk]) == Read(ReadAll(chunks), chunk);
    hide Append, Parse, ReadAll, BodyLength;
    ParseBehindHeader(rest, chunk);
  }

  /** A running loop always holds less than a frame. */
  lemma {:induction false} RestIsPartial(chunks: seq<seq<byte>>)
    requires ReadAll(chunks).ok
    ensures Partial(ReadAll(chunks).rest)
  {
    if |chunks| > 0 {
      ParseStructure(Append(ReadAll(chunks[..|chunks| - 1]).rest, chunks[|chunks| - 1]));
    }
  }

  /** Under that condition C# refines the specification decoder, disconnects included. */
  lemma {:induction false} LosslessRefines(chunks: seq<seq<byte>>)
    requires Readable(chunks) && Lossless(chunks)
    ensures var r, p := ReadAll(chunks), Parse(Concat(chunks));
            r.frames == p.frames && r.ok == p.ok && (r.ok ==> r.rest == p.rest)
  {
    if |chunks| > 0 {
      var before, c := chunks[..|chunks| - 1], chunks[|chunks| - 1];
      LosslessPrefix(chunks);
      LosslessRefines(before);
      var s := Concat(before);
      if Parse(s).ok {
        AppendKeepsAll(Parse(s).rest, c);
        ParseAppend(s, c);
      } else {
        ParseAppendDead(s, c);
      }
    }
  }

  /** The bytes accounted for by extracted frames and buffer. */
  function Held(p: Parsed): nat {
    |Frames(p.frames)| + |p.rest|
  }

  lemma HeldAfterRead(p: Parsed, chunk: seq<byte>)
    requires p.ok && Read(p, chunk).ok
    ensures Held(Read(p, chunk)) - Held(p) == |Append(p.rest, chunk)| - |p.rest|
  {
    var q := Parse(Append(p.rest, chunk));
    ParseStructure(Append(p.rest, chunk));
    FramesAppend(p.frames, q.frames);
  }

  /** Bytes overwritten at the cursor are never made up for. */
  lemma {:induction false} LossIsPermanent(chunks: seq<seq<byte>>)
    requires Readable(chunks) && ReadAll(chunks).ok
    ensures Held(ReadAll(chunks)) <= |Concat(chunks)|
    ensures !Lossless(chunks) ==> Held(ReadAll(chunks)) < |Concat(chunks)|
  {
    if |chunks| > 0 {
      var before, c := chunks[..|chunks| - 1], chunks[|chunks| - 1];
      LossIsPermanent(before);
      HeldAfterRead(ReadAll(before), c);
      AppendKeepsAll(ReadAll(before).rest, c);
      LosslessPrefix(chunks);
      if Lossless(before) {
        LosslessRefines(before);
      }
    }
  }

  /** The exact condition: a running C# read loop has extracted the same frames and holds the same
      residue as the specification if and only if every read but the last left at most 8 bytes. */
  lemma RefinesIffLossless(chunks: seq<seq<byte>>)
    requires Readable(chunks) && ReadAll(chunks).ok
    ensures ReadAll(chunks) == Parse(Concat(chunks)) <==> Lossless(chunks)
  {
    LossIsPermanent(chunks);
    ParseStructure(Concat(chunks));
    if Lossless(chunks) {
      LosslessRefines(chunks);
    }
  }

  lemma FrontOfFrame(m: Message, n: nat)
    requires Sendable(m) && HEADER_LEN <= n <= HEADER_LEN + |m|
    ensures HeaderOk(Frame(m)[..n]) && BodyLength(Frame(m)[..n]) == |m|
  {
    FrameHeader(m, []);
    EmptyRight(Frame(m));
    var x := Frame(m)[..n];
    hide Frame, Unsigned;
    assert x[..4] == Frame(m)[..4] && x[4..8] == Frame(m)[4..8];
  }

  lemma StaysPartial(residue: seq<byte>, chunk: seq<byte>)
    requires |residue| > HEADER_LEN && Partial(residue) && HEADER_LEN + |chunk| < HEADER_LEN + BodyLength(residue)
    ensures Partial(Append(residue, chunk))
  {
    AppendOverwritesBody(residue, chunk);
    var s := Append(residue, chunk);
    hide Append, Unsigned;
    assert s[..4] == s[..8][..4] && s[4..8] == s[..8][4..8];
    assert residue[..4] == residue[..8][..4] && residue[4..8] == residue[..8][4..8];
  }

  /** The failing family: a message whose body is split by a read boundary is not delivered when
      its last byte arrives, although the specification delivers it. */
  lemma SplitBodyIsLost(m: Message, k: nat)
    requires Sendable(m) && 0 < k < |m|
    ensures var chunks := [Frame(m)[..HEADER_LEN + k], Frame(m)[HEADER_LEN + k..]];
            && Parse(Concat(chunks)) == Parsed([m], [], true)
            && ReadAll(chunks).frames == [] && ReadAll(chunks).ok
  {
    var f := Frame(m);
    var x, y := f[..HEADER_LEN + k], f[HEADER_LEN + k..];
    FrontOfFrame(m, HEADER_LEN + k);
    FramesOne(m);
    EmptyRight(f);
    ParseComplete([m], []);
    assert x + y == f;
    assert |x| == HEADER_LEN + k && |y| == |m| - k;
    hide Frame, Unsigned, HeaderOk, BodyLength;
    var one: seq<seq<byte>> := [x];
    assert one[..0] == [] && [x, y][..1] == one;
    EmptyLeft(x);
    assert Concat(one) == x;
    assert Append([], x) == x;
    assert ReadAll(one) == Parsed([], x, true);
    StaysPartial(x, y);
    hide Append;
  }
}
