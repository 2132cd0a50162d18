# A Dafny model of the nodecpp event-loop core

This project models the core of nodecpp, a Node.js-style, single-threaded and
event-driven runtime written in C++. It also proves properties of that model.
The model covers six parts:

- **The record/replay binary log** (`record_and_replay.dfy`, `bytes.dfy`).
  - Recording writes a 40-byte log header, then frames. Each frame is an
    8-byte header (`type`, `size`, both little-endian 32-bit) followed by its
    payload.
  - A frame is written either in one go (`addFrame`) or in pieces
    (`startAddingFrame` / `continueAddingFrame` / `addingFrameDone`).
  - Replaying walks the frames until a header with type 0, or one that runs
    past the end of the buffer. As written, the reader also refuses a frame
    that ends exactly at the end of the buffer (see Findings).
  - The recording buffer is an `array<u8>`, and every write is a splice of
    that array.
  - The main theorem is `RecordedLogReplays`: replaying what was recorded
    gives back the recorded frames, up to the first type-0 frame.
  - `startAddingFrame` never stores its frame type, so `addingFrameDone`
    always writes type 0. As a result, replay stops at any frame built in
    pieces. `ReadableCount` and `RecordedLogReplays` state this.
- **HTTP request-head parsing** (`http_server.dfy`).
  - The line buffer that splits incoming bytes at `'\n'`.
  - `makeLower`, with C-locale `tolower`.
  - The request-line parser `setMethod`, including what it does on unusual
    input:
    - The check for the space after the method name looks at index
      `length(name)` rather than at `start + length(name)`.
    - A method followed only by blanks makes `substr` throw.
    - The `size_t` arithmetic can wrap in `end - start + 1`.
  - The header-line parser `addHeaderEntry`, where `std::map::insert` keeps
    the first value it saw for a key.
  - `setCL`, which always leaves the content length at 0.
  - `setConnStatus`, which compares the value against `"keep alive"` with a
    space, so the usual `keep-alive` token is not recognised.
- **The TCP reactor's bookkeeping** (`tcp_socket.dfy`).
  - `EvQueue`: `add` runs its callback immediately, and `emit` drains what is
    queued.
  - Socket and server table entries with their default flags.
  - The inline operations of the two tables (pause, resume, ref, unref,
    bufferSize, the buffer and error stores).
- **The listening `Server`** (`net.dfy`).
  - Its state machine: uninitialized, then listening, then closed.
  - The id and address it receives when it starts listening.
  - Its four emitters, with `on`/`once` routing each callback by its event
    type.
- **The queue-based loop** (`q_based_infrastructure.dfy`).
  - The timeout decisions `refedTimeout` and `nextTimeout`.
  - `pollPhase2`, which forwards infrastructure messages from the inter-thread
    queue.
  - `runStandardLoop`. The loop's trace is proved equal to a front-recursive
    specification, and the loop polls exactly once per iteration.
- **Cluster worker ids** (`cluster.dfy`).
  - A Worker id can be set once.
  - The id moves with the Worker, and the moved-from Worker is left invalid.
  - master is id 0, and worker is any other id.

Time, the OS poller, the timer heap and the inter-thread queue are outside the
model. Their results for each loop iteration are inputs: a `Tick` value. Event
callbacks are opaque ids, and running a callback appends its id to a trace.

## Model

| member | source | states |
|---|---|---|
| Bytes.LittleEndian | src/record_and_replay.h:46-50 | the value of a little-endian byte string is below 256^length |
| Bytes.EncodeLittleEndian | src/record_and_replay.h:46-50 | encoding a value that fits into n bytes gives n bytes that decode back to it |
| Bytes.EncodeOfDecode | src/record_and_replay.h:46-50 | decoding and re-encoding a byte string gives it back |
| Bytes.EncodeU32 | src/record_and_replay.h:48-49 | a 32-bit header field is 4 bytes that decode to its value |
| Bytes.TruncU32 | src/record_and_replay.h:118 | storing a size_t into a 32-bit field keeps it when it is below 2^32 and never makes it larger |
| RecordAndReplay.Pow2Monotone | src/record_and_replay.h:65-68 | a larger size exponent never gives a smaller log |
| RecordAndReplay.Pow2OfMinSizeExp | src/record_and_replay.h:66-68 | the smallest log (exponent 16) is 65536 bytes |
| RecordAndReplay.FrameHeaderBytes | src/record_and_replay.h:46-50 | a frame header is exactly 8 bytes |
| RecordAndReplay.FrameHeaderWords | src/record_and_replay.h:46-50 | a frame header is the type's 4 little-endian bytes followed by the size's |
| RecordAndReplay.FrameBytes | src/record_and_replay.h:85-90 | a complete frame is 8 header bytes plus its payload |
| RecordAndReplay.LayoutAppend | src/record_and_replay.h:85-90 | appending a frame to the log appends its bytes to the log's layout |
| RecordAndReplay.SpliceAt | src/record_and_replay.h:87 | a memcpy into the buffer changes exactly the bytes written, to the data, and keeps every other byte |
| RecordAndReplay.SpliceReadBack | src/record_and_replay.h:87 | the bytes a memcpy wrote read back as the data |
| RecordAndReplay.SpliceAdjacent | src/record_and_replay.h:117-118 | storing the type and then the size right after it is one write of the whole frame header |
| RecordAndReplay.SpliceCommute | src/record_and_replay.h:87-88 | the payload copy and the size store touch disjoint bytes, so their order does not matter |
| RecordAndReplay.SpliceOverwriteFront | src/record_and_replay.h:86-89 | storing the real type over the placeholder type 0 leaves the rest of the frame as written |
| RecordAndReplay.SpliceKeepsOutside | src/record_and_replay.h:87 | a memcpy leaves every byte range it does not touch unchanged |
| RecordAndReplay.SpliceExtends | src/record_and_replay.h:101-102 | writing right after an existing prefix gives that prefix followed by the data |
| RecordAndReplay.AddFrameGuardAdmitsOverrun | src/record_and_replay.h:81 | the bound check as written admits a frame that ends 8 bytes past the end of the log |
| RecordAndReplay.FrameFitsPassesGuard | src/record_and_replay.h:81 | every frame that fits also passes the bound check as written |
| RecordAndReplay.BinaryLogForRecording.Init | src/record_and_replay.h:65-73 | the log holds 2^szExp bytes for an exponent in [16, 48], with writing starting after the 40-byte log header and no frame |
| RecordAndReplay.BinaryLogForRecording.StoreU32 | src/record_and_replay.h:86-89 | storing a header field writes its 4 little-endian bytes at that position and nothing else |
| RecordAndReplay.BinaryLogForRecording.CopyIn | src/record_and_replay.h:87 | the copy writes the data at that position and nothing else |
| RecordAndReplay.BinaryLogForRecording.WriteFrame | src/record_and_replay.h:86-89 | the four stores of addFrame (type 0, payload, size, type) leave exactly the encoded frame at h |
| RecordAndReplay.BinaryLogForRecording.AddFrame | src/record_and_replay.h:78-91 | the frame's header and payload are written at the write position, which moves past them, and the frame is added to the recorded sequence |
| RecordAndReplay.BinaryLogForRecording.StartAddingFrame | src/record_and_replay.h:92-104 | a type-0 placeholder header and the first piece are written, the open frame starts at the old write position, and its size so far is the piece's length |
| RecordAndReplay.BinaryLogForRecording.ContinueAddingFrame | src/record_and_replay.h:105-113 | the piece is appended at the write position and counted in the open frame's size |
| RecordAndReplay.BinaryLogForRecording.WriteHeader | src/record_and_replay.h:117-118 | storing the type and then the size writes exactly the encoded frame header at h |
| RecordAndReplay.BinaryLogForRecording.AddingFrameDone | src/record_and_replay.h:114-121 | the open frame's header is set to type 0 (the frame type is never stored) and to the accumulated size mod 2^32, the frame is closed, and the recorded sequence gains it |
| RecordAndReplay.ReadFrameWithin | src/record_and_replay.h:151-155 | the reader with the bound corrected to `<=`: a frame is read only if its type is non-zero and header and payload end at or before the limit; the frame starts right after its header and its size fits 32 bits |
| RecordAndReplay.ReadFrameHeader | src/record_and_replay.h:151-153 | a frame that is read has exactly the type and size its 8 header bytes encode |
| RecordAndReplay.ReadFrameAt | src/record_and_replay.h:150-159 | readNextFrame's test as written: a frame is read only if its type is non-zero and its header and payload end strictly before the end of the log, and then it lies inside the log and its size fits 32 bits |
| RecordAndReplay.Replay | src/record_and_replay.h:150-159 | the frames a reader returns when called until it refuses: every one has a non-zero type and lies inside the bound, the first starts right after the header at the cursor, and each starts right after the previous one's payload |
| RecordAndReplay.ReplayStep | src/record_and_replay.h:155 | after a frame is read, replay goes on from just past its payload |
| RecordAndReplay.ReplayEnd | src/record_and_replay.h:158 | when no frame is read at the cursor, replay yields nothing |
| RecordAndReplay.RepeatedReads | src/record_and_replay.h:150-159 | calling readNextFrame as written until it returns false is Replay bounded by size - 1: a refusal ends it, and a frame read is followed by the replay from just past its payload |
| RecordAndReplay.ReadableCount | src/record_and_replay.h:151 | the frames replay can reach are those before the first type-0 frame |
| RecordAndReplay.ReadBackFrame | src/record_and_replay.h:150-159 | a written frame reads back with its type, size and payload, or stops replay if its type is 0 |
| RecordAndReplay.AddFrameRoundTrip | src/record_and_replay.h:78-91 | a frame that addFrame wrote is read back at its offset with the same type, size and payload by any reader whose bound it fits, including a bound that ends where the frame ends |
| RecordAndReplay.ReplayReadsLayout | src/record_and_replay.h:150-159 | replaying a run of encoded frames that fits the bound yields the readable frames in order, each decoding to the recorded type and payload |
| RecordAndReplay.RecordedLogReplays | src/record_and_replay.h:78-159 | the frames in a recording log, read by a reader bounded by the log's size, replay in order up to the first type-0 frame, whatever the write position |
| RecordAndReplay.RecordedLogReplaysAsWritten | src/record_and_replay.h:150-159 | with readNextFrame's bound as written the same holds while the recorded frames end before the log's last byte |
| RecordAndReplay.FrameEndingAtEndNotRead | src/record_and_replay.h:151 | a frame that addFrame writes so that it ends exactly at the end of the log is refused by the test as written and read by the corrected one |
| RecordAndReplay.BinaryLogForReplaying.Init | src/record_and_replay.h:138-148 | replay reads the given buffer of sz bytes, starting at the first frame after the 40-byte log header |
| RecordAndReplay.BinaryLogForReplaying.ReadNextFrame | src/record_and_replay.h:150-159 | returns true exactly when the test as written admits a frame at the cursor; the frame's data is then returned and the cursor moves past its payload, and otherwise nothing changes |
| HttpServer.FindFirstNotOf | include/nodecpp/http_server.h:395 | find_first_not_of: the first position from `from` on outside the set, or npos when every remaining character is in it |
| HttpServer.FindLastNotOf | include/nodecpp/http_server.h:404 | find_last_not_of: the last position outside the set, or npos when every character is in it |
| HttpServer.FindChar | include/nodecpp/http_server.h:425 | find: the first occurrence from `from` on, or npos when there is none |
| HttpServer.MakeLower | include/nodecpp/http_server.h:76-80 | the result is the C-locale lower-casing, holds no upper-case ASCII letter, and keeps every other character |
| HttpServer.DummyBuffer.constructor | include/nodecpp/http_server.h:97-100 | the buffer starts empty with the scan position at 0 |
| HttpServer.DummyBuffer.PushFragment | include/nodecpp/http_server.h:101 | the fragment is appended and the scan position is kept |
| HttpServer.DummyBuffer.PopLine | include/nodecpp/http_server.h:102-114 | a line is popped exactly when the buffer holds a '\n'; the line runs through the first '\n', and the rest stays buffered; otherwise the buffer is unchanged and fully scanned |
| HttpServer.MatchMethod | include/nodecpp/http_server.h:398-399 | the loop stops at the first method that matches at start, or after all nine when none does |
| HttpServer.FirstMethodMatch | include/nodecpp/http_server.h:398-399 | the first method whose name (followed by a space at index length(name)) starts at `start`, or none |
| HttpServer.SubstrThrough | include/nodecpp/http_server.h:405 | substr(pos, last - pos + 1) with the count taken modulo 2^64 and clamped to the rest of the line: the characters from pos through last, or the whole rest when last is before pos |
| HttpServer.ParseTarget | include/nodecpp/http_server.h:401-407 | after a recognised method the request line names that method, and substr throws exactly when only blanks follow the name |
| HttpServer.ParseRequestLine | include/nodecpp/http_server.h:392-410 | blank lines and lines whose first non-blank is CR or LF are not request lines; any recognised method is one of the nine names |
| HttpServer.MethodNamesFacts | include/nodecpp/http_server.h:52-61 | the nine method names are non-empty, hold no space, and are pairwise different |
| HttpServer.MethodNamesAreLetters | include/nodecpp/http_server.h:52-61 | every method name is a non-empty run of capital letters |
| HttpServer.OnlyOwnMethodMatches | include/nodecpp/http_server.h:398-399 | a line beginning with a method name and a space matches no other method |
| HttpServer.FirstMethodMatchOfPrefix | include/nodecpp/http_server.h:398-399 | a line beginning with a method name and a space is recognised as that method |
| HttpServer.RequestLineRoundTrip | include/nodecpp/http_server.h:392-410 | `METHOD target\r\n` parses back to that method and target |
| HttpServer.LeadingBlankRejectsRequestLine | include/nodecpp/http_server.h:395-399 | `METHOD target\r\n` with a blank in front is rejected for every one of the nine methods and every target, because the space is looked for at index length(name) |
| HttpServer.EmptyTargetAccepted | include/nodecpp/http_server.h:399-405 | `    GET/\r` is accepted as GET with an empty target, through the size_t wrap in the substr length |
| HttpServer.ClassifyHeaderLine | include/nodecpp/http_server.h:412-432 | all-whitespace lines (and only they) are blank or end the head, and they end it exactly when the line has 2 characters or starts with CR LF; a field has a lower-case key and a non-empty trimmed value |
| HttpServer.ClassifyContentLine | include/nodecpp/http_server.h:424-430 | a line with a non-whitespace character is a field or malformed, and a field has a ':' in the line, a lower-case key and a value starting with a non-blank |
| HttpServer.IncomingHttpMessageAtServer.InsertHeader | include/nodecpp/http_server.h:430 | std::map::insert: a new key gets the value, an existing key keeps its old value, and no other key changes |
| HttpServer.HeaderLineRoundTrip | include/nodecpp/http_server.h:424-430 | `name: value\r\n` parses back to the lower-cased name and the value |
| HttpServer.ConnStatusAfter | include/nodecpp/http_server.h:331-344 | a connection value of `keep alive` gives keep-alive and `close` gives close, both compared after lower-casing; any other value, or no connection header, leaves the status as it was |
| HttpServer.KeepAliveTokenNotRecognised | include/nodecpp/http_server.h:338 | the `keep-alive` token leaves a close status closed, because the comparison is against "keep alive" |
| HttpServer.IncomingHttpMessageAtServer.constructor | include/nodecpp/http_server.h:313-320 | a fresh message is empty, keep-alive, and not yet initialised for reading |
| HttpServer.IncomingHttpMessageAtServer.SetCL | include/nodecpp/http_server.h:323-329 | the content length ends at 0 whatever the header says |
| HttpServer.IncomingHttpMessageAtServer.SetConnStatus | include/nodecpp/http_server.h:331-344 | the connection status follows the connection header, and the content length is reset to 0 |
| HttpServer.IncomingHttpMessageAtServer.Clear | include/nodecpp/http_server.h:368-376 | method, header, body, content length, read status and retrieved count are reset, and the connection status is kept |
| HttpServer.IncomingHttpMessageAtServer.SetMethod | include/nodecpp/http_server.h:392-410 | returns true and moves to in_hdr exactly for a recognised request line; the throw leaves the method name set and the read status unchanged; a rejected line changes nothing |
| HttpServer.IncomingHttpMessageAtServer.AddHeaderEntry | include/nodecpp/http_server.h:412-432 | blank lines continue, the terminator completes the head with content length 0, malformed lines stop, and a field is inserted only if its key is new |
| HttpServer.IncomingHttpMessageAtServer.GetContentLength | include/nodecpp/http_server.h:434 | returns the stored content length |
| TcpSocket.EvQueue.constructor | src/tcp_socket/tcp_socket.h:46-48 | the queue starts empty with nothing run |
| TcpSocket.EvQueue.Add | src/tcp_socket/tcp_socket.h:50-56 | the callback runs at once and nothing is queued |
| TcpSocket.EvQueue.Emit | src/tcp_socket/tcp_socket.h:58-66 | every queued callback runs in order and the queue ends empty |
| TcpSocket.AddThenEmit | src/tcp_socket/tcp_socket.h:50-66 | a callback added and then emitted runs exactly once |
| TcpSocket.NewSocketEntry | src/tcp_socket/tcp_socket.h:108-130 | a new connection entry is refed, allows half-open, has every other flag clear, has empty 64 KiB buffers and no OS socket, and is valid exactly when it has an object |
| TcpSocket.NetSocketEntry.IsValid | src/tcp_socket/tcp_socket.h:138 | an entry is valid exactly when it holds a socket object |
| TcpSocket.NetSocketManager.constructor | src/tcp_socket/tcp_socket.h:147-151 | the table starts with the reserved invalid slot 0 and empty stores |
| TcpSocket.NetSocketManager.Pause | src/tcp_socket/tcp_socket.h:162 | only entry id changes, and only by becoming paused |
| TcpSocket.NetSocketManager.Resume | src/tcp_socket/tcp_socket.h:163 | only entry id changes, and only by ceasing to be paused |
| TcpSocket.NetSocketManager.Ref | src/tcp_socket/tcp_socket.h:167 | only entry id changes, and only by becoming refed |
| TcpSocket.NetSocketManager.Unref | src/tcp_socket/tcp_socket.h:170 | only entry id changes, and only by ceasing to be refed |
| TcpSocket.NetSocketManager.BufferSize | src/tcp_socket/tcp_socket.h:165 | the number of bytes waiting in the entry's write buffer |
| TcpSocket.NetSocketManager.StoreBuffer | src/tcp_socket/tcp_socket.h:174-177 | the buffer is appended to the store and the stored element is returned |
| TcpSocket.NetSocketManager.StoreError | src/tcp_socket/tcp_socket.h:179-182 | the error is appended to the store and the stored element is returned |
| TcpSocket.NetSocketManager.ClearStores | src/tcp_socket/tcp_socket.h:184-187 | both stores end empty |
| TcpSocket.PauseResumeRestores | src/tcp_socket/tcp_socket.h:162-163 | pausing and then resuming an unpaused entry gives the table back |
| TcpSocket.NewServerEntry | src/tcp_socket/tcp_socket.h:217-234 | a new listener entry is refed, has no OS socket and no poll events, and is valid exactly when it has a Server |
| TcpSocket.NetServerEntry.IsValid | src/tcp_socket/tcp_socket.h:234 | an entry is valid exactly when it holds a Server object |
| TcpSocket.NetServerManager.constructor | src/tcp_socket/tcp_socket.h:242-251 | the table starts with the reserved invalid slot 0 and an empty error store |
| TcpSocket.NetServerManager.Ref | src/tcp_socket/tcp_socket.h:256 | only entry id changes, and only by becoming refed |
| TcpSocket.NetServerManager.Unref | src/tcp_socket/tcp_socket.h:257 | only entry id changes, and only by ceasing to be refed |
| TcpSocket.NetServerManager.StoreError | src/tcp_socket/tcp_socket.h:261-264 | the error is appended to the store and the stored element is returned |
| TcpSocket.NetServerManager.ClearStores | src/tcp_socket/tcp_socket.h:266-268 | the error store ends empty |
| Net.Fired | include/nodecpp/net.h:59-82 | firing an event runs the emitter and then the hook, both with the event's argument and seeing the same server state, id and address |
| Net.Server.constructor | include/nodecpp/net.h:44-56 | a new server is uninitialized with id 0, no address and no registrations |
| Net.Server.IsListening | include/nodecpp/net.h:106 | listening() is true exactly in the listening state, and a valid server with a non-zero id is listening |
| Net.Server.LocalAddress | include/nodecpp/net.h:94 | address() returns the stored address |
| Net.Server.Now | include/nodecpp/net.h:94-106 | what a listener can observe: the state, the id and address() |
| Net.Server.EmitClose | include/nodecpp/net.h:59-64 | the close listeners and hook see the server closed with id 0 and its address kept, and it stays so afterwards |
| Net.Server.EmitConnection | include/nodecpp/net.h:66-69 | the connection listeners and hook run with the new socket and see the server as it was; nothing else changes |
| Net.Server.EmitListening | include/nodecpp/net.h:71-77 | the listening listeners and hook see the server listening with the new id and address, which it keeps afterwards |
| Net.Server.EmitError | include/nodecpp/net.h:79-82 | the error listeners and hook run with the error and see the server as it was; nothing else changes |
| Net.Server.Register | include/nodecpp/net.h:120-182 | the registration is appended to the emitter of its event and to no other |
| Net.Server.On | include/nodecpp/net.h:120-150 | a lasting registration goes to the emitter matching the callback's event, and the other emitters are unchanged |
| Net.Server.Once | include/nodecpp/net.h:152-182 | a one-shot registration goes to the emitter matching the callback's event, and the other emitters are unchanged |
| Net.Server.CloseWith | include/nodecpp/net.h:96-99 | close(cb) registers cb once on the close emitter and on no other, before calling close() |
| Net.Server.ListenWith | include/nodecpp/net.h:102-105 | listen(port, ip, backlog, cb) registers cb once on the listening emitter and on no other, before calling listen(port, ip, backlog) |
| QBasedInfrastructure.RefedTimeout | src/q_based_infrastructure.h:74-77 | pending immediates keep the loop refed, and otherwise the timers decide |
| QBasedInfrastructure.NextTimeout | src/q_based_infrastructure.h:79-82 | pending immediates give a zero timeout, and otherwise the timers' next expiry |
| QBasedInfrastructure.Forwarded | src/q_based_infrastructure.h:92-102 | only infrastructure-message deliveries are produced, never more than there were messages |
| QBasedInfrastructure.ForwardedAppend | src/q_based_infrastructure.h:92-102 | forwarding a concatenation forwards each part in order |
| QBasedInfrastructure.ForwardedExactly | src/q_based_infrastructure.h:92-102 | exactly the infrastructure messages are delivered, in order, with their source thread and payload |
| QBasedInfrastructure.ForwardedMembers | src/q_based_infrastructure.h:92-102 | an invocation is forwarded exactly when some infrastructure message among those popped carries its source thread and payload |
| QBasedInfrastructure.Iterations | src/q_based_infrastructure.h:106-126 | the loop runs at most once per tick, and at least once when it starts running with a tick available |
| QBasedInfrastructure.OnePollPerIteration | src/q_based_infrastructure.h:106-126 | the loop polls exactly once per iteration |
| QBasedInfrastructure.Infrastructure.constructor | src/q_based_infrastructure.h:61-69 | a new loop is running with next timeout 0 and no immediates |
| QBasedInfrastructure.Infrastructure.EmitInmediates | src/q_based_infrastructure.h:72 | every pending immediate runs in order and none remains |
| QBasedInfrastructure.Infrastructure.PollPhase2 | src/q_based_infrastructure.h:84-104 | one poll with the given timeout, then delivery of the infrastructure messages among those popped; the loop stays refed |
| QBasedInfrastructure.Infrastructure.RunIteration | src/q_based_infrastructure.h:109-125 | one iteration runs expired timers, polls, then runs the immediates, and ends with none pending |
| QBasedInfrastructure.Infrastructure.RunStandardLoop | src/q_based_infrastructure.h:106-126 | the loop's trace and iteration count are those of the recursive specification; a loop never stopped consumes every tick |
| NodeCluster.Worker.constructor | include/nodecpp/cluster.h:41-42 | a new Worker has the invalid id and no control connection |
| NodeCluster.Worker.SetID | include/nodecpp/cluster.h:43-46 | an id can be set only while invalid, and once set to a valid id it cannot be set again |
| NodeCluster.Worker.Move | include/nodecpp/cluster.h:53-57 | the new Worker takes the id and control connection, and the moved-from Worker is invalid and empty |
| NodeCluster.Worker.Id | include/nodecpp/cluster.h:58 | id() returns the stored id, which is the invalid value exactly while the id can still be set |
| NodeCluster.Cluster.constructor | include/nodecpp/cluster.h:143 | before pre-initialisation the thread counts as a worker, not as the master |
| NodeCluster.Cluster.PreinitMaster | include/nodecpp/cluster.h:122-124 | the thread becomes the master |
| NodeCluster.Cluster.PreinitSlave | include/nodecpp/cluster.h:125-127 | the thread takes the given id, and is master exactly when that id is 0 |
| NodeCluster.Cluster.IsMaster | include/nodecpp/cluster.h:149 | isMaster() is true exactly when this thread's worker id is 0, and then the id is set |
| NodeCluster.Cluster.IsWorker | include/nodecpp/cluster.h:150 | isWorker() is true exactly when the id is not 0, which includes a worker whose id is not set yet |
| NodeCluster.MasterOrWorker | include/nodecpp/cluster.h:149-150 | exactly one of isMaster and isWorker holds |

## Left out

- RecordAndReplay.BinaryLogForReplaying.Init requires the buffer to hold at least the 24 bytes up to the header's size field. The code demands only `sz > 0`, but it then reads the size field regardless.
- RecordAndReplay.BinaryLogForRecording.AddFrame and StartAddingFrame require the whole frame, header included, to fit. That is the corrected bound, not the check as written (see Findings).
- The `data != nullptr` assertions are not modelled: data is a sequence.
- The signature, checksum and hash fields of the log header are not modelled. The code leaves them unwritten too (a TODO).
- `VirtualMemory::allocate`/`deallocate` and `deinit` are not modelled: the log is a fresh array.
- The coroutine machinery is not modelled: `a_readBody`, `a_readHead` and the reply side (`OutgoingHttpMessageAtServer`) are coroutines over sockets.
- The move constructor and move assignment of IncomingHttpMessageAtServer are not modelled: they are plain field transfers.
- `setConnStatus` goes through `c_str()`, which cuts a value at an embedded NUL. The model does not capture that cut.
- The socket and server managers' methods declared without bodies in the header are not modelled. These are connect, write, end, destroy, close, listen, poll, setKeepAlive and setNoDelay. `getEntry(id)` appears as the requirement that id is a table index.
- The managers' constructors are not shown in the header. The model builds them from the comment that slot 0 is always reserved and invalid.
- The Buffer class is reduced to a capacity and its bytes. Growth on append is not modelled.
- event.h is not part of this model. An emitter is the list of its registrations, and the emitters' own dispatch (removing `once` callbacks after a firing) is not modelled.
- On/Once take the event from the callback's type. The string-name overloads only assert that the name matches, and that assertion is not modelled.
- Server's `close()`, `listen(port, ip, backlog)`, `ref` and `unref` are declared without bodies and are not modelled. The overloads `close(cb)` and `listen(port, ip, backlog, cb)` are modelled up to that call, as CloseWith and ListenWith.
- `Address` from net_common.h is an opaque token.
- The loop's environment is taken as inputs. The TimeoutManager, `getPollTimeout`, the clock, `popFrontFromThisThreadQueue` and the OS poll results arrive as one `Tick` per iteration.
- RunStandardLoop is bounded by the ticks supplied: a loop that would run forever is modelled by its finite prefixes.
- PollPhase2 ignores its `refed` argument and reports the loop refed, as the code does. What it actually polls is not modelled.
- `Runnable::internalRun` and the `a_timeout` coroutine helpers are not modelled.
- Cluster's `fork`, `postinit`, `disconnect` and `workers()` are not modelled: they create sockets and threads.
- socket_o.h, coroutine.h, common.h and the tests are not part of this model.
- 64-bit `size_t` arithmetic is written out only where it decides behaviour: the substr count in setMethod (SubstrThrough takes it modulo 2^64), and the 32-bit frame size. Elsewhere integers are unbounded. The substr in addHeaderEntry cannot wrap, since the value starts at or before the last non-whitespace character.
- HttpServer.ParseRequestLine, ParseTarget, SubstrThrough and IncomingHttpMessageAtServer.SetMethod require the line to be shorter than 2^64 characters, the most a std::string can hold.
- TcpSocket.NetSocketManager.StoreBuffer, StoreError and NetServerManager.StoreError return the stored value, not a reference into the store, so later changes made through that reference are not modelled.
- QBasedInfrastructure.Infrastructure.EmitInmediates and RunIteration take emitting the immediates as running every queued callback in order and leaving the queue empty. ev_queue.h is not part of this model, so immediates that are queued while the queue is being emitted are not modelled.
- RecordAndReplay.RecordedLogReplaysAsWritten requires the write position to be before the log's last byte, because readNextFrame as written refuses a frame that ends exactly at the end of the log (see Findings). RecordedLogReplays, for the corrected reader, has no such requirement.
- RecordAndReplay.RecordedLogReplays relies on every frame of non-zero type having a payload below 2^32, which the recording log's invariant carries. addFrame's size parameter is a `uint32_t` (line 78), so every frame it writes qualifies. A frame built in pieces sums its size in a `size_t` that is cut to 32 bits (line 118), but it has type 0 and ends the replay anyway.

## Findings

| source | as written | input that shows it | evidently intended | confidence | as-written member | corrected member |
|---|---|---|---|---|---|---|
| src/record_and_replay.h:81 | `mem + size - writePos >= sz` ignores the 8-byte frame header that is written before the payload (the same check is at line 95) | a 2^16-byte log with writePos at 40 and sz = 2^16 - 40: the check passes but the frame ends 8 bytes past the end of the log | the header plus the payload must fit: `writePos + 8 + sz <= size` | high (not executed) | RecordAndReplay.AddFrameGuardAdmitsOverrun | RecordAndReplay.BinaryLogForRecording.AddFrame |
| src/record_and_replay.h:151 | readNextFrame reads a frame only when `fh + 8 < mem + size` and `fh + 8 + fh->size < mem + size`, so a frame ending exactly at the end of the log is refused; BinaryLogForReplaying.ReadNextFrame keeps this test | a frame that addFrame writes with writePos + 8 + sz == size is written and then not read back | `<=` in both comparisons, so that a reader reads every frame the recorder can write | medium (not executed) | RecordAndReplay.FrameEndingAtEndNotRead | RecordAndReplay.RecordedLogReplays |
