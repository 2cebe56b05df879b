# KnotLink 2.0 protocol engine

A Dafny model of the protocol engine that the KnotLink SDKs implement in Python, C++, Java, C#, Rust,
JavaScript and Qt, with proofs of what it promises. Check it with `dafny verify dfyconfig.toml`.

- **Framing.** `Framing` defines the frame (magic `4B 4B 00 02`, 32-bit big-endian length, body of 1 byte
  to 16 MiB) and one specification decoder, `Parse`, with its exact characterisation. `Receivers` says what
  a receiver does when it is fed chunks and when its callback disconnects, and what does not depend on the
  chunking. The receivers of Python, Java (`ByteBuffer`, signed lengths), JavaScript, Rust and C#
  (`MemoryStream` cursor) are objects with their own buffers and loops, each proved against that decoder.
- **Sending.** `WireLog` is what several senders put on one socket, and exactly when it is still whole frames.
  `CppSender` and `CSharpSender` are the interleavings of any number of callers with the heartbeat, with
  failing writes, and in C# with cancelled tokens, the end of the read loop and a disposal; `RustTcpClient`
  is the select loop.
- **Queriers.** `CppQuerier` (epoch-numbered answers), `SlotQuerier` (Java and Rust's single slot) and
  `PythonQuerier` (query, timeout and disconnect windows) are objects whose methods are the critical
  sections, and runs of them in any interleaving.
- **Heartbeat.** `HeartbeatChain` is the self-arming Python timer against `disconnect`.
- **Texts.** `Envelope` is `key&*&payload`; `KvText`, `PythonKvMap` and `CppKvMap` are the `k=v;k=v` format.
- **Runs.** `Runs` is what a run of a state machine is, what happens in it and in what order.
- **Composition.** `Responser` and `ResponserRuns` put the Python receiver, envelope, queue, worker and
  sender together: a transducer from the bytes read to the bytes written.

Bytes are bytes throughout: UTF-8 decoding appears only as a predicate on keys and inside the handler.
`recv` results, the order of threads, the success of each write, the expiry of timers and the
application's callbacks are parameters; every theorem holds for all of them unless its row says otherwise.

Four promises turned out to hold only under a condition. Each is kept as the code has it, with the failing
inputs and the condition:

- A sender accepts an empty message and its receiver disconnects on it (`Framing.RoundTrip`,
  `Framing.EmptyMessageDisconnects`).
- The Python receiver is chunking invariant exactly when no callback disconnects before the last delivered
  message (`Receivers.PythonChunkingInvariance`).
- The C# receiver agrees with the decoder exactly when every read but the last leaves at most 8 bytes
  (`CSharpReceiver.RefinesIffLossless`, `CSharpReceiver.SplitBodyIsLost`).
- C++ and C# frames stay whole exactly when nobody writes after a sender was stopped with its frame partly
  out: by a failed `send` in C++, and in C# by a failed write, a closed socket or a cancelled token, be it the
  client's own when the read loop ends or one of the caller's (`CppSender.FramesStayWholeIff`,
  `CppSender.FailureTearsFrames`, `CSharpSender.FramesStayWholeIff`, `CSharpSender.CancellationTearsFrames`). A
  C# disposal alone keeps that condition (`CSharpSender.DisposalCutsAtMostTheLastFrame`).

## Model

| member | source | states |
|---|---|---|
| Framing.LengthRoundTrip | knotlink-sdk-python/knotlink/knotlink/tcpclient.py:68 | every 32-bit length is read back from its big-endian field |
| Framing.LengthInverse | knotlink-sdk-python/knotlink/knotlink/tcpclient.py:122 | a length field is the encoding of the number read from it |
| Framing.UnsignedIsNetworkOrder | knotlink-sdk-python/knotlink/knotlink/tcpclient.py:122 | the field is the number in network byte order, most significant byte first |
| Framing.HeadersAtTheLimits | knotlink-sdk-python/knotlink/knotlink/tcpclient.py:116-127 | behind the magic a field is accepted exactly for 1 byte to 16 MiB, and nothing is accepted behind another magic |
| Framing.SignedTestAgrees | knotlink-sdk-java/knotlink/TcpClient.java:170-175 | over all 2^32 fields the signed test `length <= 0 or > MAX` rejects what the unsigned test rejects, and accepted lengths are equal |
| Framing.ParseFrames | knotlink-sdk-python/knotlink/knotlink/tcpclient.py:111-139 | decoding encoded frames followed by any bytes gives those frames, then whatever the bytes give |
| Framing.ParseStructure | knotlink-sdk-python/knotlink/knotlink/tcpclient.py:107-139 | the stream is the encoding of the extracted frames and the residue; the residue is a strict part of one frame, at most 16 MiB + 7, or a bad header |
| Framing.ParseCharacterised | knotlink-sdk-python/knotlink/knotlink/tcpclient.py:97-139 | exact characterisation: the decoder gives frames, residue and verdict if and only if the stream splits that way; so it disconnects exactly at valid frames followed by a bad 8-byte header |
| Framing.ParseAppend | knotlink-sdk-python/knotlink/knotlink/tcpclient.py:97-99 | decoding is incremental: only the residue of what was read matters for what comes next |
| Framing.ParseAppendDead | knotlink-sdk-python/knotlink/knotlink/tcpclient.py:116-127 | after a bad header no later bytes are extracted |
| Framing.RoundTrip | knotlink-sdk-python/knotlink/knotlink/tcpclient.py:59-69 | for every list the senders' size check admits, the peer reads exactly that list and stays connected if and only if no message is empty; without heartbeat responses among them it delivers the list itself |
| Framing.EmptyMessageDisconnects | knotlink-sdk-python/knotlink/knotlink/tcpclient.py:65-69 | an empty message is sent and stops the receiver right there, whatever follows |
| Framing.PrefixDecodesToPrefix | knotlink-sdk-python/knotlink/knotlink/tcpclient.py:107-139 | any byte prefix of an encoded list decodes to a prefix of the list, without a disconnect |
| Framing.FramesInjective | knotlink-sdk-python/knotlink/knotlink/tcpclient.py:66-69 | two lists with equal encodings are equal, for all messages whose length fits its field, empty and oversized ones included |
| Framing.HeartbeatResponsesAreInvisible | knotlink-sdk-python/knotlink/knotlink/tcpclient.py:134-135 | a heartbeat response at any frame boundary changes neither messages, residue nor connection, whatever follows |
| Framing.OnlyResponsesAreDropped | knotlink-sdk-python/knotlink/knotlink/tcpclient.py:134-138 | of any list of messages the heartbeat responses are dropped and no other message is |
| Receivers.StoppingReceiver | knotlink-sdk-js/knotlink/TcpClient.js:94-143 | chunking invariance for receivers whose `disconnect` clears the buffer: messages, buffer and connection are functions of the concatenated bytes, with any callback |
| Receivers.ServedExactly | knotlink-sdk-js/knotlink/TcpClient.js:122-129 | what is delivered is exactly the prefix that ends with the first message hung up on, or everything if there is none |
| Receivers.ObeyingEnds | knotlink-sdk-java/knotlink/TcpClient.java:126-140 | the end of the stream disconnects, keeps what was delivered, and nothing after it is read |
| Receivers.DrainingReceiver | knotlink-sdk-python/knotlink/knotlink/tcpclient.py:89-139 | chunking invariance for Python: messages and connected flag depend only on the concatenation, and so does the buffer while connected, if no callback disconnects before the last message |
| Receivers.DrainingDependsOnChunking | knotlink-sdk-python/knotlink/knotlink/tcpclient.py:90-99 | otherwise two chunkings of the same stream deliver different messages |
| Receivers.PythonChunkingInvariance | knotlink-sdk-python/knotlink/knotlink/tcpclient.py:89-139 | every chunking of a stream delivers all its messages if and only if no callback disconnects before the last one |
| Receivers.HearingEnds | knotlink-sdk-python/knotlink/knotlink/tcpclient.py:92-105 | the end of the stream or a failed `recv` disconnects, keeps what was delivered, and nothing after it is read |
| PythonTcpClient.TcpClient.WriteWithLengthPrefix | knotlink-sdk-python/knotlink/knotlink/tcpclient.py:59-72 | writes one frame exactly when connected, not oversized and the socket accepts it; raises on oversize; drops the connection on a socket error |
| PythonTcpClient.TcpClient.ProcessBuffer | knotlink-sdk-python/knotlink/knotlink/tcpclient.py:107-139 | the loop delivers and leaves what the decoder says, and stays connected only without a bad header or a disconnecting callback |
| PythonTcpClient.TcpClient.ReceiveData | knotlink-sdk-python/knotlink/knotlink/tcpclient.py:89-105 | the receive thread computes the specification receiver on any sequence of `recv` results |
| PythonTcpClient.TcpClient.Disconnect | knotlink-sdk-python/knotlink/knotlink/tcpclient.py:146-148 | clears only the connected flag; the buffer stays |
| JavaTcpClient.ByteBuffer.Get | knotlink-sdk-java/knotlink/TcpClient.java:142-150 | consumes exactly the bytes it returns |
| JavaTcpClient.ByteBuffer.GetInt | knotlink-sdk-java/knotlink/TcpClient.java:170 | reads four bytes as a signed big-endian number |
| JavaTcpClient.ByteBuffer.Duplicate | knotlink-sdk-java/knotlink/TcpClient.java:158 | a view with a position of its own, so peeking consumes nothing |
| JavaTcpClient.ByteBuffer.Slice | knotlink-sdk-java/knotlink/TcpClient.java:182 | a view of exactly the unread bytes, from position 0 |
| JavaTcpClient.TcpClient.AppendToBuffer | knotlink-sdk-java/knotlink/TcpClient.java:142-150 | the unread bytes grow by the chunk |
| JavaTcpClient.TcpClient.NextMessage | knotlink-sdk-java/knotlink/TcpClient.java:155-182 | peeking waits on a partial frame, rejects a bad header, and otherwise consumes exactly one frame |
| JavaTcpClient.TcpClient.ProcessBuffer | knotlink-sdk-java/knotlink/TcpClient.java:153-200 | buffer refinement: the unread bytes are the decoder's residue; a bad header or a disconnecting listener ends delivery and empties the buffer |
| JavaTcpClient.TcpClient.ReadData | knotlink-sdk-java/knotlink/TcpClient.java:122-140 | the reader thread computes the stopping specification receiver on any sequence of reads |
| JavaTcpClient.TcpClient.Disconnect | knotlink-sdk-java/knotlink/TcpClient.java:215-227 | stops and replaces the buffer by an empty one |
| JavaScriptTcpClient.TcpClient.ProcessBuffer | knotlink-sdk-js/knotlink/TcpClient.js:94-131 | a callback that disconnects re-entrantly is the last one called; otherwise delivery and buffer are the decoder's |
| JavaScriptTcpClient.TcpClient.OnData | knotlink-sdk-js/knotlink/TcpClient.js:34-38 | the data events compute the stopping specification receiver |
| JavaScriptTcpClient.TcpClient.Disconnect | knotlink-sdk-js/knotlink/TcpClient.js:134-143 | disconnects and empties the buffer |
| CSharpReceiver.MemoryStream.Write | knotlink-sdk-cs/knotlink/TcpClient.cs:108 | a write puts its bytes at the cursor, keeps every byte before the cursor and behind them, and extends the stream only past its end |
| CSharpReceiver.MemoryStream.Read | knotlink-sdk-cs/knotlink/TcpClient.cs:179-188 | a read returns at most the bytes behind the cursor and moves it past them |
| CSharpReceiver.KlTcpClient.TryExtractMessage | knotlink-sdk-cs/knotlink/TcpClient.cs:166-225 | returns nothing, a message or an error exactly on a partial frame, a whole one or a bad header, and leaves the cursor at the end of a residue shorter than 8 bytes and at byte 8 of a longer one |
| CSharpReceiver.KlTcpClient.OnRead | knotlink-sdk-cs/knotlink/TcpClient.cs:101-132 | one pass delivers what the decoder finds in the buffer as overwritten at the cursor |
| CSharpReceiver.KlTcpClient.ReadLoop | knotlink-sdk-cs/knotlink/TcpClient.cs:94-145 | the read loop computes the cursor model `ReadAll` on any sequence of reads |
| CSharpReceiver.AppendKeepsAll | knotlink-sdk-cs/knotlink/TcpClient.cs:108 | the cursor is at the end, and the append keeps every byte, exactly when the residue is at most 8 bytes |
| CSharpReceiver.AppendOverwritesBody | knotlink-sdk-cs/knotlink/TcpClient.cs:108 | behind a longer residue the append keeps its 8 header bytes, puts the chunk behind them, and leaves of the old body only what the chunk does not reach |
| CSharpReceiver.SplitBodyIsReplaced | knotlink-sdk-cs/knotlink/TcpClient.cs:200-203 | after any reads that split a body of n bytes, a read of at least n bytes delivers its own first n bytes as the message and is decoded from there |
| CSharpReceiver.LosslessRefines | knotlink-sdk-cs/knotlink/TcpClient.cs:106-225 | when every read but the last leaves at most 8 bytes, C# extracts the decoder's frames, holds its residue and ends where it ends |
| CSharpReceiver.LossIsPermanent | knotlink-sdk-cs/knotlink/TcpClient.cs:108 | conservation: frames and buffer never account for more bytes than were read, and for strictly fewer once a longer residue was appended to |
| CSharpReceiver.RefinesIffLossless | knotlink-sdk-cs/knotlink/TcpClient.cs:106-225 | a running C# loop is in the decoder's state if and only if every read but the last left at most 8 bytes |
| CSharpReceiver.SplitBodyIsLost | knotlink-sdk-cs/knotlink/TcpClient.cs:200-203 | every message whose body is split by a read boundary is not delivered when its last byte arrives |
| RustTcpClient.TcpClient.PackMessage | knotlink-sdk-rust/knotlink/tcp_client.rs:37-44 | the three appends give the frame, with the length cut to 32 bits |
| RustTcpClient.TcpClient.ProcessBuffer | knotlink-sdk-rust/knotlink/tcp_client.rs:83-113 | the inner loop delivers and leaves what the decoder says, and ends the run at a bad header |
| RustTcpClient.LogLaw | knotlink-sdk-rust/knotlink/tcp_client.rs:46-76 | of any schedule no frame is cut but the last, by the write that ended the loop, and the whole frames of the send arm are exactly the messages dequeued, in order, but for that last one |
| RustTcpClient.AliveExactly | knotlink-sdk-rust/knotlink/tcp_client.rs:46-123 | the loop goes on exactly while every write put out its whole frame, no read failed or found the end of the stream, and the bytes read hold no bad header |
| RustTcpClient.HeartbeatsAreSent | knotlink-sdk-rust/knotlink/tcp_client.rs:65-72 | every time the heartbeat arm is taken it puts out a frame of `heartbeat`, and there is no other |
| RustTcpClient.DrainsTheChannel | knotlink-sdk-rust/knotlink/tcp_client.rs:54-61 | the send arm taken as often as messages wait sends them all |
| RustTcpClient.TcpClient.Run | knotlink-sdk-rust/knotlink/tcp_client.rs:46-123 | on every schedule the wire holds what the arms taken put out, in their order: whole frames and a part of one more only if its write ended the loop, which the peer decodes to exactly the whole ones; the channel holds what was not dequeued; deliveries are the decoding of the bytes read; the loop ends at the first failed write, end of stream, read error or bad header |
| WireLog.WholeFramesIffNoTear | knotlink-sdk-cpp/knotlink/TcpClient.hpp:96-117 | frames written one after another, each perhaps left off early, are whole frames and a part of at most one more if and only if nothing was written behind a frame cut inside |
| WireLog.ReceiverGetsWholeFrames | knotlink-sdk-cpp/knotlink/TcpClient.hpp:190-226 | exactly then a receiver decodes the whole frames, stays connected and waits with the part |
| CppSender.StepKeepsValid | knotlink-sdk-cpp/knotlink/TcpClient.hpp:96-117 | every step keeps: the mutex is held by the one sending thread, whose frame is the last on the wire, cut where its `send` calls have come to; and it tears a frame exactly by sending behind a cut one |
| CppSender.RunKeepsValid | knotlink-sdk-cpp/knotlink/TcpClient.hpp:96-117 | the same over whole runs, with the frames in the order of the lock and the whole ones in the order in which their senders finished |
| CppSender.FramesStayWholeIff | knotlink-sdk-cpp/knotlink/TcpClient.hpp:96-117 | exact condition over every interleaving and failure: the wire is whole frames and a part of at most one more, and the receiver decodes exactly the whole ones, if and only if nobody sends after a `send` that failed with its frame partly out |
| CppSender.LookingAtRunningIsEnough | knotlink-sdk-cpp/knotlink/TcpClient.hpp:105-112 | if every sender looks at `running` once it has the lock, that condition always holds |
| CppSender.RunningExactly | knotlink-sdk-cpp/knotlink/TcpClient.hpp:185-188 | as far as sending goes `running` says exactly whether no `send` has failed |
| CppSender.SendersNeverTearFrames | knotlink-sdk-cpp/knotlink/TcpClient.hpp:96-117 | without a failed `send` the whole frames are those of the senders in lock order, the last of which may still be under way, and the receiver decodes exactly the whole ones |
| CppSender.FailureTearsFrames | knotlink-sdk-cpp/knotlink/TcpClient.hpp:105-112 | after a failure behind the magic the next sender's frame makes the receiver disconnect with nothing decoded, for all messages |
| CppSender.MutexComesBack | knotlink-sdk-cpp/knotlink/TcpClient.hpp:105-117 | from every state the thread that has the lock can finish its frame and give the lock back |
| CppSender.WaitingCanLock | knotlink-sdk-cpp/knotlink/TcpClient.hpp:105 | with the lock free every waiting thread can take it |
| CSharpSender.StepKeepsValid | knotlink-sdk-cs/knotlink/TcpClient.cs:62-91 | every step keeps: one holder of the lock, its frame last on the wire as far as it is written; and it tears a frame exactly by writing behind a cut one |
| CSharpSender.RunKeepsValid | knotlink-sdk-cs/knotlink/TcpClient.cs:62-91 | the same over whole runs, with the frames in the order in which they were started and the whole ones in the order in which their callers left |
| CSharpSender.FramesStayWholeIff | knotlink-sdk-cs/knotlink/TcpClient.cs:62-91 | exact condition over every interleaving, cancellation of any token, failed write and disposal: the wire is whole frames and a part of at most one more, and, no message being empty, the peer decodes exactly the whole ones, if and only if nobody writes after a caller was stopped with its frame partly out; the frame of every caller that finished is among the whole ones |
| CSharpSender.DisposalCutsAtMostTheLastFrame | knotlink-sdk-cs/knotlink/TcpClient.cs:62-91 | when nothing is cancelled or fails before the disposal begins, that condition holds, also once the disposal has ended the read loop; the last frame is cut only while it is being written or by the disposal |
| CSharpSender.NothingFollowsADisposal | knotlink-sdk-cs/knotlink/TcpClient.cs:252-298 | once disposed with nobody writing, no continuation adds a byte: the cut frame is at the very end |
| CSharpSender.CancellationTearsFrames | knotlink-sdk-cs/knotlink/TcpClient.cs:82-84 | a caller cancelled behind its magic without a disposal, a heartbeat by the end of the read loop or any caller by its own token, makes the peer disconnect on the next caller's frame, for all messages |
| CSharpSender.StartedAreAdmitted | knotlink-sdk-cs/knotlink/TcpClient.cs:68-70 | no message above 16 MiB gets as far as a frame |
| CSharpSender.CallsExactly | knotlink-sdk-cs/knotlink/TcpClient.cs:64-70 | a message is taken exactly if it is not too long and no disposal has begun |
| CSharpSender.CancelledExactly | knotlink-sdk-cs/knotlink/TcpClient.cs:252-256 | a caller's token is cancelled exactly by its owner, the client's exactly by the end of the read loop or the second step of the disposal, the default one never |
| CSharpSender.CancelledCanLeave | knotlink-sdk-cs/knotlink/TcpClient.cs:76-90 | a caller whose token is cancelled, or whose lock or socket is disposed, can leave |
| CSharpSender.WriterCanFinish | knotlink-sdk-cs/knotlink/TcpClient.cs:82-90 | a caller that writes to an open socket can finish its frame |
| CSharpSender.LockComesBack | knotlink-sdk-cs/knotlink/TcpClient.cs:87-90 | no deadlock: from every state the lock can come back, whoever has it |
| Envelope.FindSplits | knotlink-sdk-python/knotlink/knotlink/OpenSocketResponser.py:44 | the index found is an occurrence with none before it, or there is none |
| Envelope.DelimiterIsText | knotlink-sdk-python/knotlink/knotlink/OpenSocketResponser.py:44 | the delimiter is the text `&*&` |
| Envelope.FirstDelimiter | knotlink-sdk-python/knotlink/knotlink/OpenSocketResponser.py:34-52 | the first delimiter of `k&*&p` is at the end of `k` if and only if `k` neither contains `&*&` nor ends in `&*` |
| Envelope.RoundTrip | knotlink-sdk-python/knotlink/knotlink/OpenSocketResponser.py:34-52 | an envelope splits into its own key and payload if and only if the key has that form |
| Envelope.ExtractedKeyIsRecovered | knotlink-sdk-python/knotlink/knotlink/OpenSocketResponser.py:34-52 | an extracted key has that form, so it is recovered unchanged from any reply sent with it |
| Envelope.QtAgrees | knotlink-sdk-qt/knotlink/opensocketresponser.cpp:30-48 | split-all-then-`mid` is the first-occurrence split on every input |
| Envelope.JsAcceptsExactly | knotlink-sdk-js/knotlink/OpenSocketResponser.js:39-56 | the two-part check accepts exactly the envelopes whose payload has no delimiter, and then agrees |
| Responser.OpenSocketResponser.InternalDataRecv | knotlink-sdk-python/knotlink/knotlink/OpenSocketResponser.py:41-52 | enqueues exactly the request that a message carries, and nothing for a bad envelope, key or empty payload |
| Responser.OpenSocketResponser.SendBack | knotlink-sdk-python/knotlink/knotlink/OpenSocketResponser.py:34-39 | writes the frame of `key&*&data` exactly when connected, not too long and the socket accepts it; raises if it is too long; drops the connection on a socket error |
| Responser.OpenSocketResponser.HandleEntry | knotlink-sdk-python/knotlink/knotlink/OpenSocketResponser.py:61-69 | an entry is answered if its handler replies, or kills the worker, or is dropped because the connection is gone |
| Responser.OpenSocketResponser.ProcessQueue | knotlink-sdk-python/knotlink/knotlink/OpenSocketResponser.py:54-69 | over the queue and whatever arrives meanwhile, with the connection lost and sends failing at any time, the worker answers a prefix in order and takes at most one entry more, which killed it or found the connection gone; while it lives and is connected nothing it took is unanswered |
| Responser.RequestKeysFit | knotlink-sdk-python/knotlink/knotlink/OpenSocketResponser.py:43-52 | every key that reaches the queue survives being sent back |
| Responser.RequestExactly | knotlink-sdk-python/knotlink/knotlink/OpenSocketResponser.py:43-52 | a message gives a request exactly if it is that request's envelope, the key is text that an envelope can carry and the payload is not empty |
| Responser.AnswerCarriesItsKey | knotlink-sdk-python/knotlink/knotlink/OpenSocketResponser.py:34-39 | the answer to a request is one message that splits into its key and what the handler returned, or none if it returned nothing |
| Responser.AnswersCarryTheirKeys | knotlink-sdk-python/knotlink/knotlink/OpenSocketResponser.py:61-66 | the same for any list of requests, one by one in order |
| ResponserRuns.StepKeepsInput | knotlink-sdk-python/knotlink/knotlink/OpenSocketResponser.py:41-61 | every step keeps: the requests in the bytes read are those taken, queued and still in the buffer, in that order |
| ResponserRuns.StepKeepsOutput | knotlink-sdk-python/knotlink/knotlink/OpenSocketResponser.py:54-69 | every step keeps: the messages written, but for heartbeats, are the registration and the replies to the entries dealt with, and the wire is whole acceptable frames |
| ResponserRuns.Transducer | knotlink-sdk-python/knotlink/knotlink/OpenSocketResponser.py:34-69 | in every interleaving and chunking the wire is whole frames, and what the peer decodes from it, but for heartbeats, is the registration and then one message for each of the first n requests of the bytes read that its handler replies to, in arrival order, which splits into that request's key and reply |
| ResponserRuns.AnswersAPrefix | knotlink-sdk-python/knotlink/knotlink/OpenSocketResponser.py:34-69 | fed any part of a stream of frames, in any chunks, it answers a prefix of that stream's requests |
| ResponserRuns.QuiescentMeansAllAnswered | knotlink-sdk-python/knotlink/knotlink/OpenSocketResponser.py:54-69 | connected, with no whole frame buffered, an empty queue and an idle worker, every request read has been answered |
| ResponserRuns.EachReplyCarriesItsKey | knotlink-sdk-python/knotlink/knotlink/OpenSocketResponser.py:34-39 | in every run the i-th reply decoded from the wire splits into the key of the i-th request replied to and what the handler returned for it |
| ResponserRuns.OnlyARequestEndsTheWorker | knotlink-sdk-python/knotlink/knotlink/OpenSocketResponser.py:54-69 | while connected, a worker that ended was ended by the next request, whose handler raises or whose reply is too long |
| ResponserRuns.ConnectedExactly | knotlink-sdk-python/knotlink/knotlink/tcpclient.py:70-127 | the responser is connected exactly until a `disconnect`, the end of the stream, a bad header or a failed send |
| ResponserRuns.DisconnectedIsSilent | knotlink-sdk-python/knotlink/knotlink/tcpclient.py:61-62 | from then on it writes nothing, whatever happens |
| ResponserRuns.HeartbeatsGoOut | knotlink-sdk-python/knotlink/knotlink/tcpclient.py:78-86 | the peer decodes as many heartbeats as were sent |
| ResponserRuns.EverythingCanBeAnswered | knotlink-sdk-python/knotlink/knotlink/OpenSocketResponser.py:54-69 | from every connected state with a good stream and no request that ends the worker, the threads can go on to answer every request read |
| KvText.SplitJoin | knotlink-sdk-python/knotlink/knotlink/kludf.py:17-25 | splitting joined segments gives them back when none holds the delimiter |
| KvText.SplitExactly | knotlink-sdk-python/knotlink/knotlink/kludf.py:25 | a text splits exactly into the segments without the delimiter that join to it |
| KvText.PairExactly | knotlink-sdk-python/knotlink/knotlink/kludf.py:26-29 | a segment gives exactly the entry that it is the text of, cut at the first `=`, and nothing without a `=` |
| KvText.SerializeExactly | knotlink-sdk-python/knotlink/knotlink/kludf.py:17 | the text is `key=value` of each entry in order, with `;` in between |
| KvText.DeserializedIsClean | knotlink-sdk-python/knotlink/knotlink/kludf.py:19-29 | whatever the text, keys come out distinct and without `=` or `;`, values without `;` |
| KvText.RoundTrip | knotlink-sdk-python/knotlink/knotlink/kludf.py:12-29 | a dictionary survives writing and reading, order included, if and only if no key holds `=` or `;` and no value holds `;` |
| KvText.RangeOfDeserialize | knotlink-sdk-python/knotlink/knotlink/kludf.py:19-29 | those dictionaries are exactly the range of `deserialize` |
| KvText.NormalForm | knotlink-sdk-python/knotlink/knotlink/kludf.py:12-29 | for every text, reading, writing and reading again is reading once |
| KvText.DuplicatesResolve | knotlink-sdk-python/knotlink/knotlink/kludf.py:26-29 | a duplicate key takes its last segment's value and keeps its first segment's place |
| KvText.RoundTripAnyOrder | knotlink-sdk-cpp/knotlink/KLUDF.hpp:38-68 | an unordered map survives if and only if its entries are clean, for every order in which it may be written |
| KvText.LoadIsUpdates | knotlink-sdk-cpp/knotlink/KLUDF.hpp:65 | loading segments into an unordered map gives the map of the insertion-ordered dictionary |
| PythonKvMap.KLKVMap.Set | knotlink-sdk-python/knotlink/knotlink/kludf.py:29 | dictionary assignment is a map update that keeps keys distinct |
| PythonKvMap.KLKVMap.ToText | knotlink-sdk-python/knotlink/knotlink/kludf.py:12-17 | the text determines the dictionary exactly when every entry is clean |
| PythonKvMap.KLKVMap.FromText | knotlink-sdk-python/knotlink/knotlink/kludf.py:19-29 | the loop reads the specified dictionary, which is always clean |
| PythonKvMap.KLKVMap.Get | knotlink-sdk-python/knotlink/knotlink/kludf.py:31-37 | looks the key up in the map, or gives the default |
| CppKvMap.KLKVMap.ToText | knotlink-sdk-cpp/knotlink/KLUDF.hpp:38-47 | written in any iteration order, the text determines the map exactly when its entries are clean |
| CppKvMap.GetLine | knotlink-sdk-cpp/knotlink/KLUDF.hpp:59 | the cursor moves past one segment, and the entries still unread are those behind it |
| CppKvMap.KLKVMap.FromText | knotlink-sdk-cpp/knotlink/KLUDF.hpp:53-68 | the getline/find parser reads the map that the Python split parser reads, on every text |
| CppQuerier.ToStringInjective | knotlink-sdk-cpp/knotlink/OpenSocketQuerier.hpp:44 | different numbers print differently |
| CppQuerier.OpenSocketQuerier.Ask | knotlink-sdk-cpp/knotlink/OpenSocketQuerier.hpp:43-46 | `query_l` up to its wait is the step that starts an epoch |
| CppQuerier.OpenSocketQuerier.HandleReceivedData | knotlink-sdk-cpp/knotlink/OpenSocketQuerier.hpp:71-76 | files the message under the printed counter, over any earlier one |
| CppQuerier.OpenSocketQuerier.Wake | knotlink-sdk-cpp/knotlink/OpenSocketQuerier.hpp:48-58 | returns and erases the caller's answer if it is there, otherwise times out or goes on waiting |
| CppQuerier.RunKeepsEpochs | knotlink-sdk-cpp/knotlink/OpenSocketQuerier.hpp:42-76 | over every run: keys are printed counter values already reached, each answer is the last message of its epoch, the last message of every epoch is on file or was returned, and nothing returned is still on file or waited for |
| CppQuerier.ReturnedAnswerIsLastOfItsEpoch | knotlink-sdk-cpp/knotlink/OpenSocketQuerier.hpp:42-59 | a returned answer was received after its caller's increment, while the counter equalled the caller's number, and is the last such message |
| CppQuerier.NoMessageIsReturnedTwice | knotlink-sdk-cpp/knotlink/OpenSocketQuerier.hpp:56-58 | no received message is returned twice or is on file after it was returned |
| CppQuerier.WaitingCallersDiffer | knotlink-sdk-cpp/knotlink/OpenSocketQuerier.hpp:44 | callers that wait at the same time wait for different keys |
| CppQuerier.LastMessageIsKept | knotlink-sdk-cpp/knotlink/OpenSocketQuerier.hpp:71-76 | no answer is lost: the last message of every epoch was returned or is on file under the epoch's printed number |
| CppQuerier.AnsweredExactly | knotlink-sdk-cpp/knotlink/OpenSocketQuerier.hpp:48-58 | a waiting caller can return, and cannot time out, exactly when a message has arrived in its epoch |
| SlotQuerier.OpenSocketQuerier.SendRequest | knotlink-sdk-java/knotlink/OpenSocketQuerier.java:76-77 | the request goes out before the slot is touched |
| SlotQuerier.OpenSocketQuerier.SetFuture | knotlink-sdk-java/knotlink/OpenSocketQuerier.java:79-83 | puts a fresh future in the slot, over any earlier one |
| SlotQuerier.OpenSocketQuerier.OnDataReceived | knotlink-sdk-java/knotlink/OpenSocketQuerier.java:59-67 | empties the slot and completes what was in it, unless that is settled |
| SlotQuerier.OpenSocketQuerier.CloseQuerier | knotlink-sdk-java/knotlink/OpenSocketQuerier.java:104-108 | empties the slot and cancels what was in it |
| SlotQuerier.CompletedExactly | knotlink-sdk-rust/knotlink/open_socket_querier.rs:27-33 | in every run a message completes a future if and only if it is the first thing to touch the slot after that future was set and the future was not settled elsewhere |
| SlotQuerier.SettledExactly | knotlink-sdk-java/knotlink/OpenSocketQuerier.java:104-111 | a future is settled exactly by the message that completes it, a close that finds it in the slot, or its owner |
| SlotQuerier.MatchingIsOrdered | knotlink-sdk-java/knotlink/OpenSocketQuerier.java:59-84 | of two completed futures the earlier one's message arrives before the later one is even set |
| SlotQuerier.OverwrittenIsNeverCompleted | knotlink-sdk-rust/knotlink/open_socket_querier.rs:60-64 | a future overwritten before any message is never completed by later data |
| SlotQuerier.EarlyReplyMissesItsFuture | knotlink-sdk-java/knotlink/OpenSocketQuerier.java:75-84 | a message received between a request and the setting of its future never completes that future; it completes the older one it matches, if any |
| SlotQuerier.EarlyReplyIsLost | knotlink-sdk-java/knotlink/OpenSocketQuerier.java:75-84 | a run in which such a reply is lost and the future is left waiting |
| PythonQuerier.OpenSocketQuerier.OpenQuery | knotlink-sdk-python/knotlink/knotlink/OpenSocketQuerier.py:38-42 | the first section of `query` opens a window |
| PythonQuerier.OpenSocketQuerier.FinishQuery | knotlink-sdk-python/knotlink/knotlink/OpenSocketQuerier.py:45-50 | the last section closes it and returns the stored result or times out |
| PythonQuerier.OpenSocketQuerier.InternalDataRecv | knotlink-sdk-python/knotlink/knotlink/OpenSocketQuerier.py:61-71 | a message becomes the result of an undisturbed query, or goes to the callback |
| PythonQuerier.OpenSocketQuerier.Close | knotlink-sdk-python/knotlink/knotlink/OpenSocketQuerier.py:85-88 | sets the timeout flag and wakes the query |
| PythonQuerier.RunKeepsOk | knotlink-sdk-python/knotlink/knotlink/OpenSocketQuerier.py:31-88 | over every run the flags describe the open window, whether there is one, a disconnect in it and the last accepted message; the callback has got what no window accepts, callers what their windows return |
| PythonQuerier.ReturnedIsLastAccepted | knotlink-sdk-python/knotlink/knotlink/OpenSocketQuerier.py:44-50 | a returned string is the last message accepted in the query's window; None is returned exactly when none was, and only if `disconnect` ran in the window |
| PythonQuerier.WakesExactly | knotlink-sdk-python/knotlink/knotlink/OpenSocketQuerier.py:44-67 | while a query waits, `wait` can find the event set exactly if a message was accepted in its window or a disconnect happened in it, and then it can return |
| PythonQuerier.OpensExactly | knotlink-sdk-python/knotlink/knotlink/OpenSocketQuerier.py:38-42 | a query can be opened exactly when none is open; messages and disconnects are taken at any time |
| PythonQuerier.CallbackExactly | knotlink-sdk-python/knotlink/knotlink/OpenSocketQuerier.py:61-71 | a message goes to the callback exactly when no window is open or a disconnect happened in the open one |
| PythonQuerier.AcceptedMessageFate | knotlink-sdk-python/knotlink/knotlink/OpenSocketQuerier.py:44-71 | in every run a message accepted in a window that has ended was returned if and only if `wait` found the event set and no later message was accepted in that window; the callback never gets it, so otherwise it reaches nobody |
| PythonQuerier.EveryMessageHasOneFate | knotlink-sdk-python/knotlink/knotlink/OpenSocketQuerier.py:61-71 | in every run the callback got exactly the messages that no window accepts, each once, and what callers got was received and did not go to the callback |
| PythonQuerier.LateAnswerIsDropped | knotlink-sdk-python/knotlink/knotlink/OpenSocketQuerier.py:44-49 | a run in which a message accepted after `wait` gave up reaches neither the caller nor the callback |
| HeartbeatChain.StepKeepsValid | knotlink-sdk-python/knotlink/knotlink/tcpclient.py:51-86 | every step of any thread keeps a single heartbeat token, and `connected` never comes back |
| HeartbeatChain.AtMostOneToken | knotlink-sdk-python/knotlink/knotlink/tcpclient.py:51-56 | in every interleaving at most one arming, armed uncancelled timer or running callback exists, and once `connected` is false it stays false |
| HeartbeatChain.ConnectedExactly | knotlink-sdk-python/knotlink/knotlink/tcpclient.py:59-72 | the client is connected exactly until the receive thread gives up, a `disconnect` starts or a send fails |
| HeartbeatChain.AtMostOneFiringAfterLoss | knotlink-sdk-python/knotlink/knotlink/tcpclient.py:146-153 | once `connected` is false at most one further timer fires |
| HeartbeatChain.FiringAfterLossIsSilent | knotlink-sdk-python/knotlink/knotlink/tcpclient.py:78-86 | that firing, and everything after it, sends nothing, arms nothing and lets no timer fire |
| HeartbeatChain.KeepsBeating | knotlink-sdk-python/knotlink/knotlink/tcpclient.py:51-86 | in every run without a disconnect, a lost connection or a failed send the client stays connected, exactly one token exists, and every firing sends one heartbeat |
| HeartbeatChain.BeatsForEver | knotlink-sdk-python/knotlink/knotlink/tcpclient.py:51-86 | any number of heartbeats can be sent, each by a firing of its own, with the next timer armed |
| HeartbeatChain.DisconnectStopsTheTimer | knotlink-sdk-python/knotlink/knotlink/tcpclient.py:146-152 | after a whole `disconnect` an armed timer never fires, whatever follows |

## Left out

- CppQuerier.RunKeepsEpochs: stated for runs with fewer than 2^64 queries; the wrap-around of the counter is modelled, and a caller still waiting 2^64 queries later would share its number with a new one.
- CSharpReceiver.LosslessRefines: for a read loop that has ended only this direction is stated, because a loop that lost bytes may by chance end on the same frames.
- CppSender.FramesStayWholeIff: a `send` writes all its bytes or fails having written none; partial writes are not modelled.
- Responser.OpenSocketResponser.ProcessQueue: the heartbeats that another thread writes meanwhile are interleaved only in `ResponserRuns`.
- ResponserRuns.Transducer: each `sendall` is atomic, the handler is fixed before the first request, and the callback is installed before the first chunk.
- SlotQuerier.CompletedExactly: taking the slot and completing the future are one action; only the owner of that future can tell them apart.
- SlotQuerier.EarlyReplyMissesItsFuture: messages carry no request number, so it speaks of any message that comes in between, whichever request it answers.
- CppSender.Step, CSharpSender.Step, HeartbeatChain.Step and ResponserRuns.Step are step relations on values rather than methods of shared objects; each step is one access to the shared fields, so only aliasing between clients is not captured.
- Java's `ByteBuffer` backing array is a constant of the buffer, since nobody writes it after `wrap`; sharing it between slices is then unobservable.
- Sockets, DNS, connection set-up and OS scheduling: a socket is a byte sequence and a read a chunk.
- The KnotLink server is not in the repository, so nothing is said about routing through it.
- UTF-8 decoding and its replacement characters: library behaviour; the texts that matter are ASCII or opaque.
- Liveness: nothing guarantees that a query is answered.
- Exceptions thrown by receive callbacks, and logging.
- The C++, Qt and PyQt decoders, the Java and JavaScript senders: the same loops and locks as the ones modelled.
- SignalSender and SignalSubscriber, which only wrap the client, and the remaining KLKVMap ports, which repeat the two modelled.
