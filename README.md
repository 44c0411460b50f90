# aesdsocket in Dafny

A model of `aesdsocket`, a TCP server on port 9000. It reads newline-terminated
packets from one client at a time. Each complete packet is appended to the data
file `/var/tmp/aesdsocketdata`, and the server then sends the whole file back to
the client. SIGINT and SIGTERM stop the accept loop, and the data file is deleted
on the way out.

Files and modules:

- `framing.dfy`, module `Framing`: byte strings.
  - Frames: each newline-terminated segment, newline included.
  - The pending bytes after the last newline.
  - The C-string view that `fputs` takes of a NUL-terminated buffer.
  - The bytes a run of frames leaves in the data file.
- `logstream.dfy`, module `LogStream`: `send_file_contents`.
  - The file is cut into consecutive `fread` pieces of at most 1024 bytes.
  - The loop stops at the first failed `send`.
  - The specification is the function `Stream`. The method `SendFileContents` is the read/send loop, proved equal to it.
- `packet.dfy`, module `PacketBuffer`: the growable packet buffer of `handle_client_data`.
  - `class Packet` holds an `array<byte>`, `len` and `capacity`.
  - It starts at 1024 bytes and doubles when `len >= capacity - 1`.
  - The model always copies the bytes into a new array on growth. `realloc` may instead grow the block in place, which the code cannot observe.
  - The class also does the NUL terminator write, the `fputs` scan and the reset.
- `connection.dfy`, module `Connection`: `handle_client_data` as a specification function.
  - A byte step (`Step`, `Complete`) is folded over the received chunks (`RunChunks`).
  - `HandleClient` gives the outcome: the return code, the new data file, the number of frames appended, and the reply sent after each frame.
  - This module holds the lemmas for split independence, the per-byte invariant `Reached`, the echo, the error paths, and a single failing `fopen` or `realloc`.
- `lifecycle.dfy`, module `Lifecycle`: `main` and `signal_handler`.
  - Bind selection (`BindFrom`, and the loop `SelectBind`).
  - The process state `Proc` and the signal handler.
  - The accept loop as a function over events (`Loop`).
  - The cleanup (`Unlink`).
  - `class Server`, whose fields are `keep_running`, `sockfd_global`, the number of `shutdown` calls, and the data file. Its methods are `SignalHandler`, `HandleClientData` (the `recv` loop, with `ReceiveChunk`, `ReceiveByte` and `CompleteFrame` for the byte loop driving a `Packet`), `AcceptLoop`, `Shutdown` and `Run`. Each method is proved against the functions above.

The system calls are parameters.
- A connection is a `Session`: the chunks `recv` returns (1 to 1024 bytes each), how the stream ends (end of stream or a `recv` error), and a `Faults` record.
- `Faults` says whether `malloc` succeeds, whether `realloc` to a given size succeeds, whether the append and read `fopen` of frame *k* succeed, and whether `send` *i* of frame *k*'s reply succeeds.
- Bind candidates carry the outcomes of `socket`, `setsockopt` and `bind`.
- Accept-loop events are a signal, an accepted session, or a failed `accept` with its `errno` and the signals that arrived during it.
- `unlink` depends on whether the file exists and whether it can be removed.

Behaviour of the code that the model keeps as written:
- `fputs` writes the packet as a C string, up to its first NUL byte. A frame holding a NUL is therefore not appended verbatim: it loses the rest of its bytes, newline included.
- The signal handler calls `shutdown` on every SIGINT or SIGTERM while the listening socket is known. Nothing ensures it is called only once.
- `main` returns 0 after the accept loop whatever `unlink` does. `ENOENT` only decides which message is logged.
- A `recv` result of 0 ends the stream, so no chunk is empty. The `Server` methods require this (`ValidChunks`). `HandleClient` and the `Connection` lemmas also accept empty chunks, which change nothing.

## Model

| member | source | states |
|---|---|---|
| Framing.FramesSplit | server/aesdsocket.c:107-150 | the complete frames followed by the pending bytes give back the received bytes; every frame ends in its only newline; the pending bytes hold no newline |
| Framing.FramesUnique | server/aesdsocket.c:107-150 | any split into frames plus a newline-free tail is the one `Frames`/`Pending` give, so frames depend only on the bytes |
| Framing.NoNewlineNoFrames | server/aesdsocket.c:107-152 | bytes without a newline form no frame and all stay pending |
| Framing.PendingNoNewline | server/aesdsocket.c:123-150 | the packet being assembled never holds a newline |
| Framing.FramesResume | server/aesdsocket.c:107-151 | the packet being assembled survives a `recv` boundary: the frames of `a + b` are those of `a` followed by those its unfinished packet forms with `b`, and the bytes left over are the same |
| Framing.CString | server/aesdsocket.c:127-138 | what `fputs` writes is the longest NUL-free prefix of the packet, ending at its first NUL or at its end |
| Framing.CStringNoNul | server/aesdsocket.c:138 | a packet without NUL is written whole |
| Framing.LoggedNoNul | server/aesdsocket.c:127-139 | NUL-free frames leave exactly their concatenation in the data file |
| Framing.FrameWithNulLosesNewline | server/aesdsocket.c:127-138 | a frame holding a NUL loses its tail and its newline in the data file |
| LogStream.PiecesCover | server/aesdsocket.c:78-88 | the `fread` pieces are consecutive, 1 to 1024 bytes each, full except the last, and concatenate to the file |
| LogStream.PiecesCount | server/aesdsocket.c:81 | the number of pieces is the file size divided by 1024, rounded up |
| LogStream.PieceAt | server/aesdsocket.c:78-88 | piece k is the bytes from offset 1024·k up to the next multiple of 1024 or the end of the file |
| LogStream.FirstRefused | server/aesdsocket.c:81-87 | the index of the first failing `send`: all earlier ones succeed, it fails, or all succeed |
| LogStream.StreamSucceeds | server/aesdsocket.c:70-92 | the code is 0 or -1; it is 0 iff `fopen` succeeds and every `send` succeeds, and then all pieces were sent and the client has the whole file |
| LogStream.StreamFails | server/aesdsocket.c:71-87 | a failed `fopen` returns -1 and sends nothing; after a failed `send` the pieces handed over are a prefix of the file's pieces, all sent but the last, and nothing more is sent |
| LogStream.StreamDeliversPrefix | server/aesdsocket.c:70-92 | whatever fails, the client receives a prefix of the file |
| LogStream.StreamEcho | server/aesdsocket.c:70-92 | the code is 0 or -1, the client gets a prefix of the file, and all of it when the code is 0 |
| LogStream.Stream | server/aesdsocket.c:70-92 | the pieces handed to `send` are a prefix of the file's pieces; code 0 means the file opened and every piece was handed over and received; a -1 after a successful `fopen` means the last piece handed over was refused |
| LogStream.SendFileContents | server/aesdsocket.c:70-92 | the read/send loop returns the code, the pieces handed to `send` and the bytes delivered that `Stream` specifies |
| PacketBuffer.GrownRoom | server/aesdsocket.c:111-112 | growth keeps the capacity 1024 doubled some number of times, never shrinks it, at most doubles it, does so only when `len == capacity - 1`, and leaves room for the byte and the NUL |
| PacketBuffer.CapacityBelow | server/aesdsocket.c:111-112 | a capacity smaller than another is at most half of it, so doubling a buffer below m never passes m |
| PacketBuffer.Packet.constructor | server/aesdsocket.c:96-98 | the buffer starts empty with capacity 1024 |
| PacketBuffer.Packet.Store | server/aesdsocket.c:111-123 | the capacity doubles exactly when `len >= capacity - 1`; storing succeeds iff no growth is needed or `realloc` succeeds; on success the contents gain the byte and `len < capacity` still holds; on failure the stored bytes are untouched |
| PacketBuffer.Packet.Terminate | server/aesdsocket.c:127 | the NUL write at `packet[len]` is in bounds and leaves the contents unchanged |
| PacketBuffer.Packet.Fputs | server/aesdsocket.c:138 | the scan up to the first NUL yields the C string of the contents |
| PacketBuffer.Packet.Reset | server/aesdsocket.c:149 | the packet becomes empty and the capacity is kept |
| Connection.StepEffect | server/aesdsocket.c:109-150 | one byte only adds to the file and the replies and never shrinks the buffer; a byte other than `'\n'` leaves the file and the frame count alone; a newline appends at most one frame and empties the packet; otherwise the byte is stored |
| Connection.CompleteEffect | server/aesdsocket.c:126-150 | a failed append `fopen` returns -1 with nothing changed; otherwise the packet's C string is appended, the packet emptied and one reply added, a prefix of the new file; the loop goes on iff the read `fopen` and every `send` succeed, and then the reply is the whole file |
| Connection.RunBytesGrows | server/aesdsocket.c:109-151 | the byte loop only ever adds to the file, the frames and the replies |
| Connection.RunChunksGrows | server/aesdsocket.c:107-152 | the `recv` loop only ever adds to the file, the frames and the replies, and after a `return -1` it stays where it stopped |
| Connection.HandleClient | server/aesdsocket.c:94-163 | the code is 0 or -1, and 0 only when `malloc` succeeded and the stream ended with `recv` returning 0 |
| Connection.RunBytesAppend | server/aesdsocket.c:107-152 | running the byte loop over `a` and then `b` is running it over `a + b` |
| Connection.RunChunksFlat | server/aesdsocket.c:107-152 | the `recv` loop over chunks is the byte loop over their concatenation |
| Connection.SplitIndependent | server/aesdsocket.c:107-152 | two connections sending the same bytes in different chunks have the same outcome: code, data file, frames and replies |
| Connection.AbortedStays | server/aesdsocket.c:113-146 | once the handler has returned -1, later bytes change nothing |
| Connection.StepReached | server/aesdsocket.c:109-150 | each byte step keeps `Reached`. `Reached` says: the frames appended are a prefix of the frames received; the file is the old file plus their C strings; each reply is a prefix of the file after its frame, and equals it for every frame but possibly the last; `len < capacity` with capacity a doubling of 1024; while running, all frames so far are appended and echoed, and the packet is the pending bytes |
| Connection.StepReachedAppend | server/aesdsocket.c:126-146 | the newline step whose `fopen` succeeds keeps `Reached` |
| Connection.AppendReached | server/aesdsocket.c:138-146 | after the append and a reply that is a prefix of the new file (the whole of it when sending succeeded), `Reached` holds |
| Connection.AppendLogs | server/aesdsocket.c:126-139 | the newline makes the pending packet the next frame, and the file after it is the old one plus that packet's C string |
| Connection.RunReached | server/aesdsocket.c:107-152 | `Reached` holds after every run of the byte loop, whatever fails |
| Connection.NoFaultsGoing | server/aesdsocket.c:107-152 | without a failed call the loops never return early |
| Connection.HandleClientLog | server/aesdsocket.c:113-146 | whatever fails, the data file is the old file plus the C strings of the first n received frames, n is the number of frames appended, and nothing of a later or unfinished frame is written; with no frame appended the file is unchanged |
| Connection.HandleClientCompletes | server/aesdsocket.c:107-162 | without a failed call every complete frame is appended; end of stream returns 0 and a `recv` error -1; the reply to frame k is the whole file right after frame k |
| Connection.EchoIsConcatenation | server/aesdsocket.c:130-146 | with an empty data file and no NUL received, the reply to frame k is frames 1..k concatenated |
| Connection.FramesNoNul | server/aesdsocket.c:107-150 | NUL-free input gives NUL-free frames |
| Connection.PartialFrameDiscarded | server/aesdsocket.c:154-162 | bytes with no newline are never appended and get no reply |
| Connection.EmptyFrame | server/aesdsocket.c:123-126 | a lone `"\n"` is a one-byte frame: it is appended and echoed, and 0 is returned |
| Connection.HandleClientErrors | server/aesdsocket.c:101-159 | a failed `malloc` returns -1 and changes nothing; a `recv` error returns -1 with the same data file as end of stream; the code is 0 iff `malloc` succeeds, the loops run to the end and the stream ends normally |
| Connection.AppendFailsRun | server/aesdsocket.c:109-150 | with only the append `fopen` of frame k failing, the byte loop goes on while at most k frames have arrived and returns -1 on the newline of frame k, with the frames before it appended and echoed in full |
| Connection.AppendOpenFails | server/aesdsocket.c:130-136 | a failed append `fopen` for frame k returns -1 with exactly the first k frames appended, each echoed in full, and frame k and all later bytes left out of the file; if frame k never arrives the connection ends as without a failure |
| Connection.GrowthFailsRun | server/aesdsocket.c:109-150 | with only the `realloc` beyond some capacity m failing, the byte loop goes on, at a capacity of at most m, while every packet is shorter than m, and otherwise returns -1 within the first packet of m bytes or more, with the frames before it appended and echoed in full |
| Connection.GrowthFails | server/aesdsocket.c:111-119 | a failed `realloc` to 2m bytes, for any capacity m (1024, 2048, …), returns -1 with only the frames before the first packet of m bytes or more appended, each echoed in full, and that packet left out of the file |
| Connection.GrowthNotNeeded | server/aesdsocket.c:111-121 | when every packet is shorter than m the failing `realloc` to 2m is never called: every frame is appended and each reply is the whole file right after its frame, as without a failure |
| Connection.GrowthStep | server/aesdsocket.c:109-150 | one byte on a run whose packets all fit in m: growth below m succeeds, the m-th byte of a packet hits the failing `realloc` and returns -1 with that packet's frame index, and a newline appends and echoes the frame |
| Lifecycle.BindFrom | server/aesdsocket.c:210-241 | the result binds the first candidate whose `socket`, `setsockopt` and `bind` succeed; every earlier candidate failed `socket` or `bind`; a failed `setsockopt` is fatal; nothing bound iff every candidate was skipped |
| Lifecycle.SelectBind | server/aesdsocket.c:210-232 | the bind loop returns what `BindFrom` specifies |
| Lifecycle.OnSignal | server/aesdsocket.c:39-49 | the flag stays set iff it was set and the signal is neither SIGINT nor SIGTERM; `shutdown` is called once for such a signal when the listening socket is known; the data file and the socket are untouched |
| Lifecycle.OnSignals | server/aesdsocket.c:39-49 | signals never set the flag again and leave the data file and the listening socket as they were |
| Lifecycle.OnSignalsEffect | server/aesdsocket.c:39-49 | after a run of signals the flag is set iff it was set and no SIGINT/SIGTERM arrived; `shutdown` was called once per such signal, only when the listening socket is known; nothing else changes |
| Lifecycle.LoopRunsThrough | server/aesdsocket.c:298-310 | while no termination signal and no `EINTR` occurs, the loop consumes every event, keeps the flag set and serves every accepted connection, and is never left: `main` stays in `accept`; other `accept` failures are passed over |
| Lifecycle.LoopStopsAt | server/aesdsocket.c:298-310 | after a termination signal, an `EINTR`, or a termination signal during `accept`, no later connection is served and the loop stops there, with the flag cleared or on that failed `accept` |
| Lifecycle.LoopReachesStop | server/aesdsocket.c:298-310 | with the flag set, the loop stops exactly at the first termination signal, `EINTR` or signal during `accept`: every accepted connection before it is served, no later event is looked at, the loop is left, and the flag remains set only after an `EINTR` with no termination signal |
| Lifecycle.LoopExits | server/aesdsocket.c:298-310 | with the flag set, `while (keep_running)` is left exactly when some event is a termination signal, an `EINTR`, or a failed `accept` during which a termination signal arrived |
| Lifecycle.AfterSession | server/aesdsocket.c:319-322 | serving a connection only appends to the data file, keeps it consistent, and changes neither the flag nor the listening socket |
| Lifecycle.LoopKeeps | server/aesdsocket.c:298-327 | the loop keeps the data-file state consistent, never sets the flag again, and keeps the listening socket |
| Lifecycle.Unlink | server/aesdsocket.c:335 | `unlink` succeeds iff the file exists and may be removed, and then the file is gone; on failure nothing changes; the flag and socket are untouched |
| Lifecycle.UnlinkOutcome | server/aesdsocket.c:335-340 | `ENOENT` is not an error; an error is reported iff an existing file cannot be removed; otherwise the file is gone |
| Lifecycle.RestartIsFresh | server/aesdsocket.c:335-340 | after a clean cleanup, a client sending one NUL-free frame, in any chunks and with no failed call, gets back exactly that frame |
| Lifecycle.TwoFrames | server/aesdsocket.c:123-150 | two frames sent back to back are those two frames, with nothing pending |
| Lifecycle.FirstClient | server/aesdsocket.c:130-146 | on a fresh file, frames `a` and `b` get back `a`, then `a + b`, however they are chunked |
| Lifecycle.OneFrameClient | server/aesdsocket.c:130-146 | a NUL-free frame `c` gets back the file with `c` appended |
| Lifecycle.TwoClients | server/aesdsocket.c:298-327 | two clients in a row share the file: the second client's reply holds the first client's frames followed by its own |
| Lifecycle.Server.constructor | server/aesdsocket.c:27-28 | the flag starts set and no listening socket is known |
| Lifecycle.Server.SignalHandler | server/aesdsocket.c:39-49 | the server's state after the handler is `OnSignal` of the old state |
| Lifecycle.Server.DeliverSignals | server/aesdsocket.c:39-49 | running the handler over the signals in order gives `OnSignals` |
| Lifecycle.Server.ReceiveByte | server/aesdsocket.c:109-150 | one iteration of the byte loop on the real buffer matches `Step`: the same abort decision, file, frames, replies, packet contents and capacity |
| Lifecycle.Server.CompleteFrame | server/aesdsocket.c:126-150 | the newline branch matches `Complete`: append the packet's C string, stream the file back, and reset the packet unless sending failed |
| Lifecycle.Server.HandleClientData | server/aesdsocket.c:94-163 | the nested `recv`/byte loops return the code and replies of `HandleClient` and leave its data file; the file exists once a frame is appended |
| Lifecycle.Server.AcceptLoop | server/aesdsocket.c:298-327 | the accept loop ends in the state, with the unreached events, the served clients and whether the loop was left, that `Loop` specifies |
| Lifecycle.Server.Shutdown | server/aesdsocket.c:329-343 | the cleanup leaves the state `Unlink` gives, reports an error exactly as `ReportsDeleteError` says, and returns 0 |
| Lifecycle.Server.Run | server/aesdsocket.c:196-343 | `main` returns -1 iff `getaddrinfo`, binding or `listen` fails; it records the bound descriptor; otherwise it runs the accept loop, and only if that loop was left does it clean up (`Unlink`) and return 0; if the events run out with the loop still in `accept`, `main` has not returned and the data file is untouched by cleanup |
| Lifecycle.AbortedChunk | server/aesdsocket.c:107-152 | a `return -1` inside chunk j ends the whole connection with that state |
| Lifecycle.Server.ReceiveChunk | server/aesdsocket.c:109-151 | the byte loop over one chunk on the real buffer matches `RunBytes`: the same abort decision, file, frames, replies, packet contents and capacity |

## Left out

- The socket and file system calls are not modelled as I/O. The calls whose results the code tests are parameters: `getaddrinfo`, `socket`, `setsockopt`, `bind`, `listen`, `accept`, `recv`, `send`, `fopen`, `unlink`, `malloc` and `realloc`.
- `fputs` is taken to write the whole C string, because its return value is not checked (aesdsocket.c:138). `fclose` is taken to flush it to the file.
- `close`, `free` and `closelog` have no modelled effect. `shutdown` is modelled only as a counter of its calls.
- SIGPIPE is not modelled. Only SIGINT and SIGTERM get a handler (aesdsocket.c:52-68), and `send` is called with flags 0 (aesdsocket.c:82). A `send` to a client that has closed its end can therefore raise SIGPIPE, whose default action ends the process: the accept loop stops and the data file is not deleted. The model treats every failed `send` as a -1 return of `send_file_contents` that ends only that connection; `Stream`, `Complete`, `Loop` and `Run` carry on from there.
- Partial sends are not modelled. The code checks only for `send == -1`, so each `send` either delivers its whole piece or fails.
- `fread` errors and short reads before end of file are not modelled. Each `fread` returns min(1024, remaining) bytes of a regular file.
- Asynchronous signal delivery and the `volatile` flag are not modelled, because concurrency is out of scope. A signal is an event between accept-loop steps or during a blocked `accept`. Signals that arrive while a client is being served are taken to arrive before the next `accept`.
- Signals before the accept loop are not modelled. While `sockfd_global` is -1 a termination signal clears the flag and calls no `shutdown`. `OnSignal` covers this case, but `Run` starts its events at the loop.
- Daemonisation (`fork`, `setsid`, `chdir`, stdio redirection), `getopt` parsing, `syslog`/`perror` messages, `get_in_addr`/`inet_ntop` and `setup_signal_handlers` are not modelled. They are plumbing over library calls, with no decisions of the core.
- finder-app/writer.c is not part of this model. It is a separate argument check followed by one file write.
- Lifecycle.Server.Shutdown: closing the descriptors is not modelled. Only the data file and the return code are.
