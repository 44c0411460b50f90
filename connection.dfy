/**
  The per-connection protocol of `handle_client_data` as a function of what
  the environment does: the bytes `recv` delivers, how the stream ends, and
  which allocations, file opens and sends succeed. Each received byte is one
  step: it is stored in the packet buffer; a newline completes a frame, which
  is appended to the data file with `fputs` and followed by the whole file
  being streamed back.
*/
module Connection {
  import opened Framing
  import opened LogStream
  import opened PacketBuffer

  /** How the `recv` loop ends: `recv` returns 0, or it returns -1. */
  datatype StreamEnd = EndOfStream | RecvError

  /**
    The outcome of every library call that can fail while one connection is
    served: `malloc` of the packet, `realloc` to a given size, `fopen` for
    append and for reading when the `k`-th frame (counting from 0) is
    handled, and the `i`-th `send` of the `k`-th echo (`sendOk(k)(i)`).
  */
  datatype Faults = Faults(
    mallocOk: bool,
    reallocOk: nat -> bool,
    appendOpenOk: nat -> bool,
    readOpenOk: nat -> bool,
    sendOk: nat -> nat -> bool)

  /** Every call succeeds. */
  ghost predicate NoFaults(f: Faults)
  {
    f.mallocOk &&
    (forall n :: f.reallocOk(n)) &&
    (forall k :: f.appendOpenOk(k)) &&
    (forall k :: f.readOpenOk(k)) &&
    (forall k, i :: f.sendOk(k)(i))
  }

  /**
    The connection's state between two bytes: the data file, the packet
    being assembled and its buffer's capacity, the number of frames appended,
    and for each of them the bytes the client received in reply.
  */
  datatype Conn = Conn(log: seq<byte>, pending: seq<byte>, capacity: nat, frames: nat, echoes: seq<seq<byte>>)

  /** Either the loops go on, or `handle_client_data` returns -1 in the given state. */
  datatype Run = Going(c: Conn) | Aborted(c: Conn)

  /** The state right after `malloc` succeeds, with the data file holding `log`. */
  function Start(log: seq<byte>): Conn
  {
    Conn(log, [], INITIAL_CAPACITY, 0, [])
  }

  /** One iteration of the byte loop, on byte `b`. */
  function Step(c: Conn, b: byte, f: Faults): Run
  {
    var capacity := Grown(|c.pending|, c.capacity);
    if capacity != c.capacity && !f.reallocOk(capacity) then Aborted(c)
    else
      var c' := c.(pending := c.pending + [b], capacity := capacity);
      if b != NEWLINE then Going(c') else Complete(c', f)
  }

  /** A packet just completed by its newline: append it to the data file, then stream the file back. */
  function Complete(c: Conn, f: Faults): Run
  {
    if !f.appendOpenOk(c.frames) then Aborted(c)
    else
      var log := c.log + CString(c.pending);
      var echo := Stream(log, f.readOpenOk(c.frames), f.sendOk(c.frames));
      var c' := Conn(log, [], c.capacity, c.frames + 1, c.echoes + [echo.delivered]);
      if echo.rc == 0 then Going(c') else Aborted(c')
  }

  /** The byte loop over `bs`, in order, stopping at the first abort. */
  function RunBytes(c: Conn, bs: seq<byte>, f: Faults): Run
    decreases |bs|
  {
    if bs == [] then Going(c)
    else
      match RunBytes(c, bs[..|bs| - 1], f)
      case Going(c') => Step(c', bs[|bs| - 1], f)
      case Aborted(c') => Aborted(c')
  }

  /** Continues a run with more bytes, unless it has already aborted. */
  function Then(r: Run, bs: seq<byte>, f: Faults): Run
  {
    match r
    case Going(c) => RunBytes(c, bs, f)
    case Aborted(_) => r
  }

  /** The `recv` loop: each chunk in turn is run through the byte loop. */
  function RunChunks(c: Conn, chunks: seq<seq<byte>>, f: Faults): Run
    decreases |chunks|
  {
    if chunks == [] then Going(c)
    else Then(RunChunks(c, chunks[..|chunks| - 1], f), chunks[|chunks| - 1], f)
  }

  /** What `handle_client_data` leaves behind: its return code, the data file, the frames appended and the replies sent. */
  datatype Outcome = Outcome(rc: int, log: seq<byte>, frames: nat, echoes: seq<seq<byte>>)

  /** One connection, served from a data file holding `log`. */
  datatype Session = Session(chunks: seq<seq<byte>>, end: StreamEnd, faults: Faults)

  /** The chunks `recv` can return: 1 to `BUFFER_SIZE` bytes each. */
  predicate ValidChunks(chunks: seq<seq<byte>>)
  {
    forall j :: 0 <= j < |chunks| ==> 0 < |chunks[j]| <= BUFFER_SIZE
  }

  /** `handle_client_data` for one session over a data file holding `log`. */
  function HandleClient(log: seq<byte>, s: Session): (o: Outcome)
    ensures o.rc == 0 || o.rc == -1
    ensures o.rc == 0 ==> s.faults.mallocOk && s.end == EndOfStream
  {
    if !s.faults.mallocOk then Outcome(-1, log, 0, [])
    else
      match RunChunks(Start(log), s.chunks, s.faults)
      case Aborted(c) => Outcome(-1, c.log, c.frames, c.echoes)
      case Going(c) => Outcome(if s.end == RecvError then -1 else 0, c.log, c.frames, c.echoes)
  }

  // ---------------------------------------------------------------------------
  // What one step does

  /**
    One byte only ever adds to the data file and the replies and never
    shrinks the buffer; a byte other than a newline leaves the file alone; a
    newline appends at most one frame and empties the packet; while the
    loop goes on, any other byte is stored in the packet.
  */
  lemma StepEffect(c: Conn, b: byte, f: Faults)
    ensures var r := Step(c, b, f);
      c.log <= r.c.log && c.echoes <= r.c.echoes && c.capacity <= r.c.capacity
    ensures var r := Step(c, b, f);
      b != NEWLINE ==> r.c.log == c.log && r.c.frames == c.frames
    ensures var r := Step(c, b, f);
      r.c.frames == c.frames || (b == NEWLINE && r.c.frames == c.frames + 1 && r.c.pending == [])
    ensures var r := Step(c, b, f);
      r.Going? && b != NEWLINE ==> r.c.pending == c.pending + [b]
  {
    var capacity := Grown(|c.pending|, c.capacity);
    if !(capacity != c.capacity && !f.reallocOk(capacity)) && b == NEWLINE {
      CompleteEffect(c.(pending := c.pending + [b], capacity := capacity), f);
    }
  }

  /**
    A completed packet: a failed `fopen` for appending aborts with nothing
    changed; otherwise its C string is appended, the packet is emptied and
    one reply is added, a prefix of the new file. The loop goes on exactly
    when the file opens for reading and every piece of it is sent, and then
    the reply is the whole file.
  */
  lemma CompleteEffect(c: Conn, f: Faults)
    ensures !f.appendOpenOk(c.frames) ==> Complete(c, f) == Aborted(c)
    ensures var r := Complete(c, f);
      f.appendOpenOk(c.frames) ==>
        r.c.log == c.log + CString(c.pending) && r.c.pending == [] && r.c.capacity == c.capacity &&
        r.c.frames == c.frames + 1 && |r.c.echoes| == |c.echoes| + 1 &&
        r.c.echoes[..|c.echoes|] == c.echoes && r.c.echoes[|c.echoes|] <= r.c.log
    ensures var r := Complete(c, f);
      r.Going? <==>
        f.appendOpenOk(c.frames) && f.readOpenOk(c.frames) &&
        forall i :: 0 <= i < |Pieces(r.c.log)| ==> f.sendOk(c.frames)(i)
    ensures var r := Complete(c, f);
      r.Going? ==> r.c.echoes == c.echoes + [r.c.log]
  {
    if f.appendOpenOk(c.frames) {
      var log := c.log + CString(c.pending);
      StreamSucceeds(log, f.readOpenOk(c.frames), f.sendOk(c.frames));
      StreamDeliversPrefix(log, f.readOpenOk(c.frames), f.sendOk(c.frames));
      var r := Complete(c, f);
      assert r.c.echoes[..|c.echoes|] == c.echoes;
    }
  }

  /** The byte loop only ever adds to the data file, the frames and the replies. */
  lemma {:induction false} RunBytesGrows(c: Conn, bs: seq<byte>, f: Faults)
    ensures var r := RunBytes(c, bs, f);
      c.log <= r.c.log && c.echoes <= r.c.echoes && c.frames <= r.c.frames
    decreases |bs|
  {
    if bs != [] {
      RunBytesGrows(c, bs[..|bs| - 1], f);
      var r' := RunBytes(c, bs[..|bs| - 1], f);
      StepEffect(r'.c, bs[|bs| - 1], f);
    }
  }

  /**
    The `recv` loop only ever adds to the data file, the frames and the
    replies; a run that has aborted stays as it is.
  */
  lemma {:induction false} RunChunksGrows(c: Conn, chunks: seq<seq<byte>>, f: Faults)
    ensures var r := RunChunks(c, chunks, f);
      c.log <= r.c.log && c.echoes <= r.c.echoes && c.frames <= r.c.frames
    ensures chunks != [] && RunChunks(c, chunks[..|chunks| - 1], f).Aborted? ==>
      RunChunks(c, chunks, f) == RunChunks(c, chunks[..|chunks| - 1], f)
    decreases |chunks|
  {
    if chunks != [] {
      RunChunksGrows(c, chunks[..|chunks| - 1], f);
      var r' := RunChunks(c, chunks[..|chunks| - 1], f);
      if r'.Going? {
        RunBytesGrows(r'.c, chunks[|chunks| - 1], f);
      }
    }
  }

  // ---------------------------------------------------------------------------
  // Chunk boundaries do not matter

  /** Running `a` and then `b` is running `a + b`. */
  lemma {:induction false} RunBytesAppend(c: Conn, a: seq<byte>, b: seq<byte>, f: Faults)
    ensures RunBytes(c, a + b, f) == Then(RunBytes(c, a, f), b, f)
    decreases |b|
  {
    if b == [] {
      assert a + b == a;
    } else {
      var b' := b[..|b| - 1];
      assert (a + b)[..|a + b| - 1] == a + b';
      assert (a + b)[|a + b| - 1] == b[|b| - 1];
      RunBytesAppend(c, a, b', f);
    }
  }

  /** The `recv` loop over chunks is the byte loop over their concatenation. */
  lemma {:induction false} RunChunksFlat(c: Conn, chunks: seq<seq<byte>>, f: Faults)
    ensures RunChunks(c, chunks, f) == RunBytes(c, Flatten(chunks), f)
    decreases |chunks|
  {
    if chunks != [] {
      var cs' := chunks[..|chunks| - 1];
      RunChunksFlat(c, cs', f);
      RunBytesAppend(c, Flatten(cs'), chunks[|chunks| - 1], f);
    }
  }

  /** However the received bytes are split into chunks, the connection does the same. */
  lemma SplitIndependent(log: seq<byte>, s1: Session, s2: Session)
    requires Flatten(s1.chunks) == Flatten(s2.chunks)
    requires s1.end == s2.end && s1.faults == s2.faults
    ensures HandleClient(log, s1) == HandleClient(log, s2)
  {
    RunChunksFlat(Start(log), s1.chunks, s1.faults);
    RunChunksFlat(Start(log), s2.chunks, s2.faults);
  }

  /** Once a run aborts, later bytes change nothing. */
  lemma {:induction false} AbortedStays(c: Conn, bs: seq<byte>, f: Faults)
    requires RunBytes(c, bs, f).Aborted?
    ensures forall more :: RunBytes(c, bs + more, f) == RunBytes(c, bs, f)
  {
    forall more {
      RunBytesAppend(c, bs, more, f);
    }
  }

  // ---------------------------------------------------------------------------
  // What one run does to the data file, the buffer and the replies

  /** The data file after the first `k` frames of `bs` have been appended to `log`. */
  function LogAfter(log: seq<byte>, bs: seq<byte>, k: nat): seq<byte>
    requires k <= |Frames(bs)|
  {
    log + Logged(Frames(bs)[..k])
  }

  /**
    What holds of the state after a run over `bs` from `Start(log)`: the
    file holds exactly the frames appended so far, each complete; one reply
    per frame, each a prefix of the file as it was after that frame and
    equal to it except possibly for the last reply of an aborted run; the
    buffer has room for the NUL. A run still going has appended every
    complete frame and holds the bytes after the last newline.
  */
  ghost predicate Reached(log: seq<byte>, bs: seq<byte>, r: Run)
  {
    var c := r.c;
    c.frames <= |Frames(bs)| &&
    c.log == LogAfter(log, bs, c.frames) &&
    |c.echoes| == c.frames &&
    (forall k :: 0 <= k < c.frames ==> c.echoes[k] <= LogAfter(log, bs, k + 1)) &&
    (forall k :: 0 <= k < c.frames - 1 ==> c.echoes[k] == LogAfter(log, bs, k + 1)) &&
    |c.pending| < c.capacity && IsCapacity(c.capacity) &&
    (r.Going? ==>
      c.frames == |Frames(bs)| && c.pending == Pending(bs) &&
      (forall k :: 0 <= k < c.frames ==> c.echoes[k] == LogAfter(log, bs, k + 1)))
  }

  /** Appending a byte keeps the earlier frames, so the file contents after them do not change. */
  lemma LogAfterSnoc(log: seq<byte>, bs: seq<byte>, x: byte, k: nat)
    requires k <= |Frames(bs)|
    ensures k <= |Frames(bs + [x])|
    ensures LogAfter(log, bs + [x], k) == LogAfter(log, bs, k)
  {
    FramesSnoc(bs, x);
    assert Frames(bs + [x])[..k] == Frames(bs)[..k];
  }

  /** One step on byte `x` keeps `Reached`, for the string grown by `x`. */
  lemma StepReached(log: seq<byte>, bs: seq<byte>, c: Conn, x: byte, f: Faults)
    requires Reached(log, bs, Going(c))
    ensures Reached(log, bs + [x], Step(c, x, f))
  {
    FramesSnoc(bs, x);
    GrownRoom(|c.pending|, c.capacity);
    var capacity := Grown(|c.pending|, c.capacity);
    if capacity != c.capacity && !f.reallocOk(capacity) {
      LogAfterKept(log, bs, x, c.frames);
    } else if x != NEWLINE || !f.appendOpenOk(c.frames) {
      LogAfterKept(log, bs, x, c.frames);
    } else {
      StepReachedAppend(log, bs, c, f);
    }
  }

  /** The file after each of the first `n` frames is the same once one more byte has arrived. */
  lemma LogAfterKept(log: seq<byte>, bs: seq<byte>, x: byte, n: nat)
    requires n <= |Frames(bs)|
    ensures n <= |Frames(bs + [x])|
    ensures forall k :: 0 <= k <= n ==> LogAfter(log, bs + [x], k) == LogAfter(log, bs, k)
  {
    FramesSnoc(bs, x);
    forall k | 0 <= k <= n
      ensures LogAfter(log, bs + [x], k) == LogAfter(log, bs, k)
    {
      LogAfterSnoc(log, bs, x, k);
    }
  }

  /** The step on a newline whose packet is appended: the invariant covers the new frame and its reply. */
  lemma StepReachedAppend(log: seq<byte>, bs: seq<byte>, c: Conn, f: Faults)
    requires Reached(log, bs, Going(c))
    requires var n := Grown(|c.pending|, c.capacity); n == c.capacity || f.reallocOk(n)
    requires f.appendOpenOk(c.frames)
    ensures Reached(log, bs + [NEWLINE], Step(c, NEWLINE, f))
  {
    var capacity := Grown(|c.pending|, c.capacity);
    GrownRoom(|c.pending|, c.capacity);
    var newLog := c.log + CString(c.pending + [NEWLINE]);
    var echo := Stream(newLog, f.readOpenOk(c.frames), f.sendOk(c.frames));
    StreamEcho(newLog, f.readOpenOk(c.frames), f.sendOk(c.frames));
    AppendReached(log, bs, c, capacity, echo.rc, echo.delivered);
  }

  /**
    `Reached` after a packet has been appended and a reply `delivered`
    (a prefix of the new file, all of it when `rc` is 0) has been sent.
  */
  lemma AppendReached(log: seq<byte>, bs: seq<byte>, c: Conn, capacity: nat, rc: int, delivered: seq<byte>)
    requires Reached(log, bs, Going(c))
    requires IsCapacity(capacity) && c.capacity <= capacity
    requires delivered <= c.log + CString(c.pending + [NEWLINE])
    requires rc == 0 ==> delivered == c.log + CString(c.pending + [NEWLINE])
    ensures var c' := Conn(c.log + CString(c.pending + [NEWLINE]), [], capacity, c.frames + 1, c.echoes + [delivered]);
      Reached(log, bs + [NEWLINE], if rc == 0 then Going(c') else Aborted(c'))
  {
    var bs' := bs + [NEWLINE];
    var c' := Conn(c.log + CString(c.pending + [NEWLINE]), [], capacity, c.frames + 1, c.echoes + [delivered]);
    AppendLogs(log, bs, c);
    assert forall k :: 0 <= k < c.frames ==> c'.echoes[k] == c.echoes[k];
    assert forall k :: 0 <= k < c'.frames ==> c'.echoes[k] <= LogAfter(log, bs', k + 1);
  }

  /** The newline completes the pending packet as the next frame; the file after it is the new log. */
  lemma AppendLogs(log: seq<byte>, bs: seq<byte>, c: Conn)
    requires c.frames == |Frames(bs)| && c.pending == Pending(bs)
    requires c.log == LogAfter(log, bs, c.frames)
    ensures |Frames(bs + [NEWLINE])| == c.frames + 1 && Pending(bs + [NEWLINE]) == []
    ensures c.log + CString(c.pending + [NEWLINE]) == LogAfter(log, bs + [NEWLINE], c.frames + 1)
    ensures forall k :: 0 <= k <= c.frames ==> LogAfter(log, bs + [NEWLINE], k) == LogAfter(log, bs, k)
  {
    LogAfterNewline(log, bs);
    LogAfterKept(log, bs, NEWLINE, c.frames);
  }

  /** A newline adds the pending bytes as one more frame, whose C string follows the file after the earlier ones. */
  lemma LogAfterNewline(log: seq<byte>, bs: seq<byte>)
    ensures |Frames(bs + [NEWLINE])| == |Frames(bs)| + 1 && Pending(bs + [NEWLINE]) == []
    ensures LogAfter(log, bs + [NEWLINE], |Frames(bs)| + 1) ==
      LogAfter(log, bs, |Frames(bs)|) + CString(Pending(bs) + [NEWLINE])
  {
    FramesSnoc(bs, NEWLINE);
    LoggedSnoc(Frames(bs), Pending(bs) + [NEWLINE]);
  }

  /** The file after all of `fs` and then `x`. */
  lemma LoggedSnoc(fs: seq<seq<byte>>, x: seq<byte>)
    ensures Logged((fs + [x])[..|fs| + 1]) == Logged(fs[..|fs|]) + CString(x)
  {
    assert (fs + [x])[..|fs| + 1] == fs + [x];
    assert (fs + [x])[..|fs|] == fs[..|fs|] == fs;
  }


  /** `Reached` holds after every run from the start. */
  lemma {:induction false} RunReached(log: seq<byte>, bs: seq<byte>, f: Faults)
    ensures Reached(log, bs, RunBytes(Start(log), bs, f))
    decreases |bs|
  {
    if bs == [] {
      assert Frames(bs) == [];
      assert LogAfter(log, bs, 0) == log;
    } else {
      var bs', x := bs[..|bs| - 1], bs[|bs| - 1];
      assert bs == bs' + [x];
      RunReached(log, bs', f);
      var r' := RunBytes(Start(log), bs', f);
      if r'.Going? {
        StepReached(log, bs', r'.c, x, f);
      } else {
        FramesSnoc(bs', x);
        var c := r'.c;
        forall k | 0 <= k <= c.frames
          ensures LogAfter(log, bs, k) == LogAfter(log, bs', k)
        {
          LogAfterSnoc(log, bs', x, k);
        }
      }
    }
  }

  /** With every call succeeding, no step aborts. */
  lemma {:induction false} NoFaultsGoing(c: Conn, bs: seq<byte>, f: Faults)
    requires NoFaults(f)
    ensures RunBytes(c, bs, f).Going?
    decreases |bs|
  {
    if bs != [] {
      NoFaultsGoing(c, bs[..|bs| - 1], f);
      var c' := RunBytes(c, bs[..|bs| - 1], f).c;
      var packet := c'.pending + [bs[|bs| - 1]];
      var log := c'.log + CString(packet);
      assert f.readOpenOk(c'.frames);
      assert forall i :: f.sendOk(c'.frames)(i);
      StreamSucceeds(log, f.readOpenOk(c'.frames), f.sendOk(c'.frames));
    }
  }

  // ---------------------------------------------------------------------------
  // Properties of a whole connection

  /**
    The data file after a connection holds the old contents followed by the
    C strings of the first `frames` complete frames of the received bytes,
    in order, and nothing of any later or incomplete frame; there is one
    reply per appended frame.
  */
  lemma HandleClientLog(log: seq<byte>, s: Session)
    ensures var o := HandleClient(log, s);
      o.frames <= |Frames(Flatten(s.chunks))| &&
      o.log == log + Logged(Frames(Flatten(s.chunks))[..o.frames]) &&
      |o.echoes| == o.frames
    ensures HandleClient(log, s).frames == 0 ==> HandleClient(log, s).log == log
  {
    RunChunksFlat(Start(log), s.chunks, s.faults);
    RunReached(log, Flatten(s.chunks), s.faults);
  }

  /**
    A connection that ends, by end of stream or by a `recv` error, without a
    failed call has appended every complete frame; the bytes after the last
    newline are dropped; each reply is the whole file as it was right after
    its frame; end of stream returns 0 and a `recv` error -1.
  */
  lemma HandleClientCompletes(log: seq<byte>, s: Session)
    requires NoFaults(s.faults)
    ensures var o := HandleClient(log, s); var fs := Frames(Flatten(s.chunks));
      o.rc == (if s.end == EndOfStream then 0 else -1) &&
      o.frames == |fs| && |o.echoes| == |fs| &&
      o.log == log + Logged(fs) &&
      forall k :: 0 <= k < |fs| ==> o.echoes[k] == log + Logged(fs[..k + 1])
  {
    var bs := Flatten(s.chunks);
    RunChunksFlat(Start(log), s.chunks, s.faults);
    RunReached(log, bs, s.faults);
    NoFaultsGoing(Start(log), bs, s.faults);
    assert Frames(bs)[..|Frames(bs)|] == Frames(bs);
  }

  /**
    With an empty data file and no NUL byte received, the reply to frame `k`
    is frames 1 to `k` concatenated, byte for byte.
  */
  lemma EchoIsConcatenation(s: Session)
    requires NoFaults(s.faults)
    requires NUL !in Flatten(s.chunks)
    ensures var o := HandleClient([], s); var fs := Frames(Flatten(s.chunks));
      |o.echoes| == |fs| &&
      o.log == Flatten(fs) &&
      forall k :: 0 <= k < |fs| ==> o.echoes[k] == Flatten(fs[..k + 1])
  {
    var bs := Flatten(s.chunks);
    var fs := Frames(bs);
    HandleClientCompletes([], s);
    FramesNoNul(bs);
    LoggedNoNul(fs);
    var o := HandleClient([], s);
    forall k | 0 <= k < |fs|
      ensures o.echoes[k] == Flatten(fs[..k + 1])
    {
      LoggedNoNul(fs[..k + 1]);
    }
  }

  /** A string without NUL bytes splits into frames without NUL bytes. */
  lemma FramesNoNul(bs: seq<byte>)
    requires NUL !in bs
    ensures forall k :: 0 <= k < |Frames(bs)| ==> NUL !in Frames(bs)[k]
  {
    var fs := Frames(bs);
    FramesSplit(bs);
    forall k | 0 <= k < |fs|
      ensures NUL !in fs[k]
    {
      assert fs == fs[..k] + [fs[k]] + fs[k + 1..];
      FlattenAppend(fs[..k] + [fs[k]], fs[k + 1..]);
      FlattenAppend(fs[..k], [fs[k]]);
      assert Flatten([fs[k]]) == Flatten([]) + fs[k];
      assert bs == Flatten(fs[..k]) + fs[k] + Flatten(fs[k + 1..]) + Pending(bs);
    }
  }

  /** Bytes without a newline are never appended: the partial frame is discarded whatever happens. */
  lemma PartialFrameDiscarded(log: seq<byte>, s: Session)
    requires NEWLINE !in Flatten(s.chunks)
    ensures HandleClient(log, s).log == log
    ensures HandleClient(log, s).echoes == []
  {
    NoNewlineNoFrames(Flatten(s.chunks));
    HandleClientLog(log, s);
  }

  /** A lone newline, in whatever chunk, is one frame of one byte: it is appended and echoed. */
  lemma EmptyFrame(log: seq<byte>, s: Session)
    requires Flatten(s.chunks) == [NEWLINE] && s.end == EndOfStream && NoFaults(s.faults)
    ensures HandleClient(log, s) == Outcome(0, log + [NEWLINE], 1, [log + [NEWLINE]])
  {
    var bs: seq<byte> := [NEWLINE];
    var fs: seq<seq<byte>> := [bs];
    assert bs[..0] == [];
    assert Flatten(fs) == Flatten([]) + bs;
    FramesUnique(bs, fs, []);
    assert fs[..0] == [] && fs[..1] == fs;
    assert CString([NEWLINE]) == [NEWLINE] + CString([]);
    assert Logged(fs) == Logged([]) + CString([NEWLINE]);
    HandleClientCompletes(log, s);
    var o := HandleClient(log, s);
    assert o.echoes == [o.echoes[0]];
  }

  /**
    The error paths: a failed `malloc` leaves everything as it was; a
    `recv` error after a run without a failed call returns -1 with the same
    file as end of stream would leave.
  */
  lemma HandleClientErrors(log: seq<byte>, s: Session)
    ensures !s.faults.mallocOk ==> HandleClient(log, s) == Outcome(-1, log, 0, [])
    ensures s.end == RecvError ==> HandleClient(log, s).rc == -1
    ensures HandleClient(log, s).log == HandleClient(log, s.(end := EndOfStream)).log
    ensures HandleClient(log, s).rc == 0 <==>
      s.faults.mallocOk && s.end == EndOfStream && RunChunks(Start(log), s.chunks, s.faults).Going?
  {
  }

  // ---------------------------------------------------------------------------
  // A single failing call

  /** Each of the first `c.frames` replies is the whole file as it was right after its frame. */
  ghost predicate Echoed(log: seq<byte>, bs: seq<byte>, c: Conn)
  {
    c.frames <= |Frames(bs)| && |c.echoes| == c.frames &&
    forall j :: 0 <= j < c.frames ==> c.echoes[j] == LogAfter(log, bs, j + 1)
  }

  /** More bytes do not change what the file was after the frames already replied to. */
  lemma EchoedSnoc(log: seq<byte>, bs: seq<byte>, c: Conn, x: byte)
    requires Echoed(log, bs, c)
    ensures Echoed(log, bs + [x], c)
  {
    LogAfterKept(log, bs, x, c.frames);
  }

  /** Every call succeeds except `fopen` for appending the `k`-th frame. */
  ghost predicate OnlyAppendFails(f: Faults, k: nat)
  {
    f.mallocOk && !f.appendOpenOk(k) &&
    (forall n :: f.reallocOk(n)) &&
    (forall j :: j != k ==> f.appendOpenOk(j)) &&
    (forall j :: f.readOpenOk(j)) &&
    (forall j, i :: f.sendOk(j)(i))
  }

  /**
    With only the append `fopen` of frame `k` failing, the byte loop goes on
    while at most `k` frames have arrived, and aborts on the newline of frame
    `k` with the frames before it appended and echoed in full.
  */
  lemma {:induction false} AppendFailsRun(log: seq<byte>, bs: seq<byte>, f: Faults, k: nat)
    requires OnlyAppendFails(f, k)
    ensures var r := RunBytes(Start(log), bs, f);
      if |Frames(bs)| <= k then r.Going?
      else r.Aborted? && r.c.frames == k && Echoed(log, bs, r.c)
    decreases |bs|
  {
    if bs != [] {
      var bs', x := bs[..|bs| - 1], bs[|bs| - 1];
      assert bs == bs' + [x];
      AppendFailsRun(log, bs', f, k);
      FramesSnoc(bs', x);
      RunReached(log, bs', f);
      var r' := RunBytes(Start(log), bs', f);
      if r'.Aborted? {
        EchoedSnoc(log, bs', r'.c, x);
      } else if x == NEWLINE {
        var c := r'.c;
        if c.frames == k {
          EchoedSnoc(log, bs', c, x);
        } else {
          var newLog := c.log + CString(c.pending + [NEWLINE]);
          StreamSucceeds(newLog, f.readOpenOk(c.frames), f.sendOk(c.frames));
        }
      }
    }
  }

  /**
    A failed `fopen` for appending frame `k`, with every other call
    succeeding: when frame `k` arrives, the connection returns -1 with the
    `k` frames before it appended, each echoed in full, and frame `k` and
    everything after it left out of the file; when it never arrives, the
    connection ends as if nothing had failed.
  */
  lemma AppendOpenFails(log: seq<byte>, s: Session, k: nat)
    requires OnlyAppendFails(s.faults, k)
    ensures var o := HandleClient(log, s); var fs := Frames(Flatten(s.chunks));
      k < |fs| ==>
        o.rc == -1 && o.frames == k && o.log == log + Logged(fs[..k]) &&
        |o.echoes| == k && forall j :: 0 <= j < k ==> o.echoes[j] == log + Logged(fs[..j + 1])
    ensures var o := HandleClient(log, s); var fs := Frames(Flatten(s.chunks));
      |fs| <= k ==>
        o.rc == (if s.end == EndOfStream then 0 else -1) && o.frames == |fs| && o.log == log + Logged(fs)
    ensures var o := HandleClient(log, s); var fs := Frames(Flatten(s.chunks));
      |fs| <= k ==>
        |o.echoes| == |fs| && forall j :: 0 <= j < |fs| ==> o.echoes[j] == log + Logged(fs[..j + 1])
  {
    var bs := Flatten(s.chunks);
    RunChunksFlat(Start(log), s.chunks, s.faults);
    RunReached(log, bs, s.faults);
    AppendFailsRun(log, bs, s.faults, k);
    assert Frames(bs)[..|Frames(bs)|] == Frames(bs);
  }

  /**
    Every call succeeds except `realloc` to `2 * m` bytes, for a capacity
    `m`: the growth of the buffer beyond `m`.
  */
  ghost predicate OnlyGrowthFails(f: Faults, m: nat)
  {
    IsCapacity(m) &&
    f.mallocOk && !f.reallocOk(2 * m) &&
    (forall n :: n != 2 * m ==> f.reallocOk(n)) &&
    (forall j :: f.appendOpenOk(j)) &&
    (forall j :: f.readOpenOk(j)) &&
    (forall j, i :: f.sendOk(j)(i))
  }

  /** Every packet of `bs`, the frames and the bytes after the last newline, is shorter than `m`. */
  ghost predicate AllFit(bs: seq<byte>, m: nat)
  {
    (forall j :: 0 <= j < |Frames(bs)| ==> |Frames(bs)[j]| < m) &&
    |Pending(bs)| < m
  }

  /**
    Packet `k` is the first of `bs` of `m` bytes or more: frame `k`, or the
    bytes after the last newline when `k` is the number of frames.
  */
  ghost predicate FirstLong(bs: seq<byte>, k: nat, m: nat)
  {
    k <= |Frames(bs)| &&
    (forall j :: 0 <= j < k ==> |Frames(bs)[j]| < m) &&
    (if k < |Frames(bs)| then |Frames(bs)[k]| >= m else |Pending(bs)| >= m)
  }

  /** More bytes keep the first long packet where it is. */
  lemma FirstLongSnoc(bs: seq<byte>, x: byte, k: nat, m: nat)
    requires FirstLong(bs, k, m)
    ensures FirstLong(bs + [x], k, m) && !AllFit(bs + [x], m)
  {
    FramesSnoc(bs, x);
  }

  /**
    With only the growth beyond `m` failing, the byte loop goes on, at a
    capacity of at most `m`, while every packet is shorter than `m`, and
    otherwise aborts within the first packet that is not, with the frames
    before it appended and echoed in full. The capacity is never reduced, so
    `realloc` to `2 * m` is first called on the `m`-th byte of that packet.
  */
  lemma {:induction false} GrowthFailsRun(log: seq<byte>, bs: seq<byte>, f: Faults, m: nat)
    requires OnlyGrowthFails(f, m)
    ensures var r := RunBytes(Start(log), bs, f);
      if AllFit(bs, m) then r.Going? && r.c.capacity <= m
      else r.Aborted? && FirstLong(bs, r.c.frames, m) && Echoed(log, bs, r.c)
    decreases |bs|
  {
    if bs == [] {
      assert Frames(bs) == [] && Pending(bs) == [];
    } else {
      var bs', x := bs[..|bs| - 1], bs[|bs| - 1];
      assert bs == bs' + [x];
      GrowthFailsRun(log, bs', f, m);
      FramesSnoc(bs', x);
      RunReached(log, bs', f);
      var r' := RunBytes(Start(log), bs', f);
      var c := r'.c;
      if r'.Aborted? {
        FirstLongSnoc(bs', x, c.frames, m);
        EchoedSnoc(log, bs', c, x);
      } else {
        GrowthStep(log, bs', c, x, f, m);
      }
    }
  }

  /** The step of `GrowthFailsRun` from a run still going with every packet shorter than `m`. */
  lemma GrowthStep(log: seq<byte>, bs: seq<byte>, c: Conn, x: byte, f: Faults, m: nat)
    requires OnlyGrowthFails(f, m)
    requires Reached(log, bs, Going(c)) && AllFit(bs, m) && c.capacity <= m
    requires RunBytes(Start(log), bs, f) == Going(c)
    ensures var r := RunBytes(Start(log), bs + [x], f);
      if AllFit(bs + [x], m) then r.Going? && r.c.capacity <= m
      else r.Aborted? && FirstLong(bs + [x], r.c.frames, m) && Echoed(log, bs + [x], r.c)
  {
    var bs' := bs + [x];
    assert bs'[..|bs'| - 1] == bs && bs'[|bs'| - 1] == x;
    FramesSnoc(bs, x);
    GrownRoom(|c.pending|, c.capacity);
    var capacity := Grown(|c.pending|, c.capacity);
    if |c.pending| == m - 1 {
      assert capacity == 2 * m;
      assert RunBytes(Start(log), bs', f) == Aborted(c);
      if x == NEWLINE {
        assert Frames(bs')[c.frames] == c.pending + [NEWLINE];
      } else {
        assert Pending(bs') == c.pending + [x];
      }
      EchoedSnoc(log, bs, c, x);
    } else {
      if capacity != c.capacity {
        CapacityBelow(c.capacity, m);
        assert f.reallocOk(capacity);
      }
      if x == NEWLINE {
        var newLog := c.log + CString(c.pending + [NEWLINE]);
        StreamSucceeds(newLog, f.readOpenOk(c.frames), f.sendOk(c.frames));
      }
    }
  }

  /**
    A failed `realloc` when the buffer has to grow beyond `m` bytes, with
    every other call succeeding: the connection returns -1 inside the first
    packet of `m` bytes or more, with the frames before it appended and
    echoed in full and that packet left out of the file.
  */
  lemma GrowthFails(log: seq<byte>, s: Session, m: nat, k: nat)
    requires OnlyGrowthFails(s.faults, m)
    requires FirstLong(Flatten(s.chunks), k, m)
    ensures var o := HandleClient(log, s); var fs := Frames(Flatten(s.chunks));
      o.rc == -1 && o.frames == k && o.log == log + Logged(fs[..k]) &&
      |o.echoes| == k && forall j :: 0 <= j < k ==> o.echoes[j] == log + Logged(fs[..j + 1])
  {
    var bs := Flatten(s.chunks);
    RunChunksFlat(Start(log), s.chunks, s.faults);
    RunReached(log, bs, s.faults);
    GrowthFailsRun(log, bs, s.faults, m);
    var o := HandleClient(log, s);
    FirstLongUnique(bs, k, o.frames, m);
  }

  /**
    Packets that are all shorter than `m` never need the failing `realloc`:
    the connection ends as if nothing had failed, with every frame appended
    and each reply the whole file right after its frame.
  */
  lemma GrowthNotNeeded(log: seq<byte>, s: Session, m: nat)
    requires OnlyGrowthFails(s.faults, m)
    requires AllFit(Flatten(s.chunks), m)
    ensures var o := HandleClient(log, s); var fs := Frames(Flatten(s.chunks));
      o.rc == (if s.end == EndOfStream then 0 else -1) && o.frames == |fs| && o.log == log + Logged(fs)
    ensures var o := HandleClient(log, s); var fs := Frames(Flatten(s.chunks));
      |o.echoes| == |fs| && forall j :: 0 <= j < |fs| ==> o.echoes[j] == log + Logged(fs[..j + 1])
  {
    var bs := Flatten(s.chunks);
    RunChunksFlat(Start(log), s.chunks, s.faults);
    RunReached(log, bs, s.faults);
    GrowthFailsRun(log, bs, s.faults, m);
    assert Frames(bs)[..|Frames(bs)|] == Frames(bs);
  }

  /** There is only one first long packet. */
  lemma FirstLongUnique(bs: seq<byte>, k: nat, k': nat, m: nat)
    requires FirstLong(bs, k, m) && FirstLong(bs, k', m)
    ensures k == k'
  {
  }
}
