/**
  The server process: choosing the address to bind, the accept loop that
  serves one connection at a time while `keep_running` is set, the signal
  handler that clears the flag and shuts the listening socket down, and the
  cleanup that removes the data file. Signals are events between loop steps,
  or during a blocked `accept`, rather than asynchronous interrupts.
*/
module Lifecycle {
  import opened Framing
  import opened LogStream
  import opened PacketBuffer
  import opened Connection

  /** Linux signal and `errno` numbers the process reacts to. */
  const SIGINT: int := 2
  const SIGTERM: int := 15
  const ENOENT: int := 2
  const EINTR: int := 4
  const EACCES: int := 13

  // ---------------------------------------------------------------------------
  // Choosing the listening socket

  /**
    One address returned by `getaddrinfo`: the descriptor `socket` returns
    for it (-1 when it fails) and whether `setsockopt(SO_REUSEADDR)` and
    `bind` succeed on it.
  */
  datatype Candidate = Candidate(fd: int, setsockoptOk: bool, bindOk: bool)

  /** The loop moves past a candidate whose `socket` or `bind` fails. */
  predicate Skipped(c: Candidate)
  {
    c.fd == -1 || (c.setsockoptOk && !c.bindOk)
  }

  datatype BindResult = Bound(index: nat, fd: int) | SetsockoptFailed(index: nat) | NoneBound

  /** The bind loop started at candidate `i`. */
  function BindFrom(cands: seq<Candidate>, i: nat): (r: BindResult)
    requires i <= |cands|
    ensures r.Bound? ==>
      i <= r.index < |cands| && r.fd == cands[r.index].fd != -1 &&
      cands[r.index].setsockoptOk && cands[r.index].bindOk
    ensures r.SetsockoptFailed? ==>
      i <= r.index < |cands| && cands[r.index].fd != -1 && !cands[r.index].setsockoptOk
    ensures !r.NoneBound? ==> forall j :: i <= j < r.index ==> Skipped(cands[j])
    ensures r.NoneBound? <==> forall j :: i <= j < |cands| ==> Skipped(cands[j])
    decreases |cands| - i
  {
    if i == |cands| then NoneBound
    else if cands[i].fd == -1 then BindFrom(cands, i + 1)
    else if !cands[i].setsockoptOk then SetsockoptFailed(i)
    else if !cands[i].bindOk then BindFrom(cands, i + 1)
    else Bound(i, cands[i].fd)
  }

  /** The `for` loop over the `getaddrinfo` list in `main`. */
  method SelectBind(cands: seq<Candidate>) returns (r: BindResult)
    ensures r == BindFrom(cands, 0)
  {
    var i := 0;
    while i < |cands|
      invariant 0 <= i <= |cands|
      invariant BindFrom(cands, i) == BindFrom(cands, 0)
      decreases |cands| - i
    {
      var c := cands[i];
      if c.fd == -1 {
        i := i + 1;
        continue;
      }
      if !c.setsockoptOk {
        return SetsockoptFailed(i);
      }
      if !c.bindOk {
        i := i + 1;
        continue;
      }
      return Bound(i, c.fd);
    }
    r := NoneBound;
  }

  // ---------------------------------------------------------------------------
  // Process state, signals and the accept loop

  /**
    The process-wide state: `keep_running`, `sockfd_global`, how many times
    the handler has called `shutdown` on it, and the data file.
  */
  datatype Proc = Proc(keepRunning: bool, listener: int, shutdowns: nat, log: seq<byte>, logExists: bool)

  /** A missing data file holds nothing. */
  predicate Consistent(p: Proc)
  {
    p.logExists || p.log == []
  }

  predicate IsTermination(signo: int)
  {
    signo == SIGINT || signo == SIGTERM
  }

  /** `signal_handler(signo)`. */
  function OnSignal(p: Proc, signo: int): (q: Proc)
    ensures q.keepRunning <==> p.keepRunning && !IsTermination(signo)
    ensures q.shutdowns == p.shutdowns + (if IsTermination(signo) && p.listener != -1 then 1 else 0)
    ensures q.log == p.log && q.logExists == p.logExists && q.listener == p.listener
  {
    if !IsTermination(signo) then p
    else p.(keepRunning := false, shutdowns := if p.listener != -1 then p.shutdowns + 1 else p.shutdowns)
  }

  /** The handler run for each signal in turn. */
  function OnSignals(p: Proc, sigs: seq<int>): (q: Proc)
    ensures q.keepRunning ==> p.keepRunning
    ensures q.log == p.log && q.logExists == p.logExists && q.listener == p.listener
    decreases |sigs|
  {
    if sigs == [] then p else OnSignal(OnSignals(p, sigs[..|sigs| - 1]), sigs[|sigs| - 1])
  }

  /** How many of the signals are SIGINT or SIGTERM. */
  function Terminations(sigs: seq<int>): nat
    decreases |sigs|
  {
    if sigs == [] then 0
    else Terminations(sigs[..|sigs| - 1]) + (if IsTermination(sigs[|sigs| - 1]) then 1 else 0)
  }

  predicate HasTermination(sigs: seq<int>)
  {
    exists j :: 0 <= j < |sigs| && IsTermination(sigs[j])
  }

  /**
    After a run of signals the flag is still set exactly when it was and
    none of them was SIGINT or SIGTERM; `shutdown` was called once per such
    signal while the listening socket is known, with no guard against a
    second call; the data file is untouched.
  */
  lemma {:induction false} OnSignalsEffect(p: Proc, sigs: seq<int>)
    ensures OnSignals(p, sigs).keepRunning <==> p.keepRunning && !HasTermination(sigs)
    ensures OnSignals(p, sigs).shutdowns == p.shutdowns + (if p.listener != -1 then Terminations(sigs) else 0)
    ensures OnSignals(p, sigs) == p.(keepRunning := OnSignals(p, sigs).keepRunning,
                                    shutdowns := OnSignals(p, sigs).shutdowns)
    decreases |sigs|
  {
    if sigs != [] {
      var sigs' := sigs[..|sigs| - 1];
      OnSignalsEffect(p, sigs');
      assert HasTermination(sigs) <==> HasTermination(sigs') || IsTermination(sigs[|sigs| - 1]) by {
        assert forall j :: 0 <= j < |sigs'| ==> sigs'[j] == sigs[j];
        if HasTermination(sigs) {
          var j :| 0 <= j < |sigs| && IsTermination(sigs[j]);
          if j < |sigs'| {
            assert IsTermination(sigs'[j]);
          }
        }
      }
    }
  }

  /** The data file after one connection has been served. */
  function AfterSession(p: Proc, s: Session): (q: Proc)
    ensures p.log <= q.log
    ensures Consistent(p) ==> Consistent(q)
    ensures q.keepRunning == p.keepRunning && q.listener == p.listener && q.shutdowns == p.shutdowns
  {
    var o := HandleClient(p.log, s);
    HandleClientLog(p.log, s);
    p.(log := o.log, logExists := p.logExists || o.frames > 0)
  }

  /** What happens at one point of the accept loop. */
  datatype Event =
    | Signal(signo: int)                            // delivered before the loop tests the flag again
    | Accepted(session: Session)                    // `accept` returns a connection, which is served
    | AcceptFailed(errno: int, signals: seq<int>)   // `accept` returns -1 after these signals arrive during it

  /** What a client got: the return code of `handle_client_data` and the replies it sent. */
  datatype Served = Served(rc: int, echoes: seq<seq<byte>>)

  /**
    Where the loop stops: the state, the events it never reached, the
    connections served, and whether `while (keep_running)` was left. It is
    not left when the events run out with the flag still set: `main` is then
    still waiting in `accept`.
  */
  datatype LoopEnd = LoopEnd(p: Proc, remaining: nat, served: seq<Served>, exited: bool)

  /** The rule for a failed `accept`: leave the loop on `EINTR` or once the flag is cleared. */
  predicate AcceptBreaks(errno: int, keepRunning: bool)
  {
    errno == EINTR || !keepRunning
  }

  /** `while (keep_running)` over the events. */
  function Loop(p: Proc, evs: seq<Event>): LoopEnd
    decreases |evs|
  {
    if !p.keepRunning || evs == [] then LoopEnd(p, |evs|, [], !p.keepRunning)
    else
      match evs[0]
      case Signal(signo) => Loop(OnSignal(p, signo), evs[1..])
      case Accepted(s) =>
        var o := HandleClient(p.log, s);
        var r := Loop(AfterSession(p, s), evs[1..]);
        r.(served := [Served(o.rc, o.echoes)] + r.served)
      case AcceptFailed(errno, sigs) =>
        var q := OnSignals(p, sigs);
        if AcceptBreaks(errno, q.keepRunning) then LoopEnd(q, |evs| - 1, [], true)
        else Loop(q, evs[1..])
  }

  /** An event after which the loop serves nothing more. */
  predicate Stops(e: Event)
  {
    (e.Signal? && IsTermination(e.signo)) ||
    (e.AcceptFailed? && (e.errno == EINTR || HasTermination(e.signals)))
  }

  function CountAccepted(evs: seq<Event>): nat
    decreases |evs|
  {
    if evs == [] then 0 else (if evs[0].Accepted? then 1 else 0) + CountAccepted(evs[1..])
  }

  /**
    While nothing stops it, the loop runs through every event with the flag
    still set and serves every accepted connection; any other failed
    `accept` is passed over.
  */
  lemma {:induction false} LoopRunsThrough(p: Proc, evs: seq<Event>)
    requires p.keepRunning
    requires forall k :: 0 <= k < |evs| ==> !Stops(evs[k])
    ensures Loop(p, evs).remaining == 0
    ensures Loop(p, evs).p.keepRunning && !Loop(p, evs).exited
    ensures |Loop(p, evs).served| == CountAccepted(evs)
    decreases |evs|
  {
    if evs != [] {
      assert !Stops(evs[0]);
      assert forall k :: 0 <= k < |evs[1..]| ==> evs[1..][k] == evs[k + 1];
      match evs[0]
      case Signal(signo) =>
        LoopRunsThrough(OnSignal(p, signo), evs[1..]);
      case Accepted(s) =>
        LoopRunsThrough(AfterSession(p, s), evs[1..]);
      case AcceptFailed(errno, sigs) =>
        OnSignalsEffect(p, sigs);
        LoopRunsThrough(OnSignals(p, sigs), evs[1..]);
    }
  }

  /**
    A termination signal, an `EINTR`, or a termination signal during a
    blocked `accept` ends the loop: no connection accepted after it is
    served, and the loop does not look past it.
  */
  lemma {:induction false} LoopStopsAt(p: Proc, evs: seq<Event>, i: nat)
    requires i < |evs| && Stops(evs[i])
    ensures |Loop(p, evs).served| <= CountAccepted(evs[..i])
    ensures Loop(p, evs).remaining >= |evs| - i - 1
    ensures Loop(p, evs).remaining == |evs| - i - 1 ==> !Loop(p, evs).p.keepRunning || evs[i].AcceptFailed?
    decreases i
  {
    if p.keepRunning {
      if i > 0 {
        assert evs[..i][1..] == evs[1..][..i - 1];
        assert evs[1..][i - 1] == evs[i];
      }
      match evs[0]
      case Signal(signo) =>
        if i > 0 {
          LoopStopsAt(OnSignal(p, signo), evs[1..], i - 1);
        } else {
          assert Loop(OnSignal(p, signo), evs[1..]).remaining == |evs| - 1;
        }
      case Accepted(s) =>
        if i > 0 {
          LoopStopsAt(AfterSession(p, s), evs[1..], i - 1);
        }
      case AcceptFailed(errno, sigs) =>
        OnSignalsEffect(p, sigs);
        if i > 0 && !AcceptBreaks(errno, OnSignals(p, sigs).keepRunning) {
          LoopStopsAt(OnSignals(p, sigs), evs[1..], i - 1);
        }
    }
  }

  /**
    With the flag set, the first event that stops the loop is where it
    stops: every earlier accepted connection is served, nothing after it is
    looked at, and the flag is left set only by an `EINTR` during which no
    termination signal arrived.
  */
  lemma {:induction false} LoopReachesStop(p: Proc, evs: seq<Event>, i: nat)
    requires p.keepRunning
    requires i < |evs| && Stops(evs[i])
    requires forall k :: 0 <= k < i ==> !Stops(evs[k])
    ensures Loop(p, evs).remaining == |evs| - i - 1 && Loop(p, evs).exited
    ensures |Loop(p, evs).served| == CountAccepted(evs[..i])
    ensures Loop(p, evs).p.keepRunning <==> evs[i].AcceptFailed? && !HasTermination(evs[i].signals)
    decreases i
  {
    if i == 0 {
      assert evs[..0] == [];
      match evs[0]
      case Signal(signo) =>
        assert Loop(OnSignal(p, signo), evs[1..]).remaining == |evs| - 1;
      case Accepted(s) =>
      case AcceptFailed(errno, sigs) =>
        OnSignalsEffect(p, sigs);
    } else {
      assert !Stops(evs[0]);
      assert evs[..i][1..] == evs[1..][..i - 1];
      assert evs[1..][i - 1] == evs[i];
      assert forall k :: 0 <= k < i - 1 ==> evs[1..][k] == evs[k + 1];
      match evs[0]
      case Signal(signo) =>
        LoopReachesStop(OnSignal(p, signo), evs[1..], i - 1);
      case Accepted(s) =>
        LoopReachesStop(AfterSession(p, s), evs[1..], i - 1);
      case AcceptFailed(errno, sigs) =>
        OnSignalsEffect(p, sigs);
        LoopReachesStop(OnSignals(p, sigs), evs[1..], i - 1);
    }
  }

  /**
    With the flag set, the loop is left exactly when some event stops it;
    otherwise `main` is still waiting in `accept` after the last event.
  */
  lemma {:induction false} LoopExits(p: Proc, evs: seq<Event>)
    requires p.keepRunning
    ensures Loop(p, evs).exited <==> exists i :: 0 <= i < |evs| && Stops(evs[i])
    decreases |evs|
  {
    if evs != [] {
      var rest := evs[1..];
      assert forall k :: 0 <= k < |rest| ==> rest[k] == evs[k + 1];
      assert (exists i :: 0 <= i < |evs| && Stops(evs[i])) <==>
        Stops(evs[0]) || exists i :: 0 <= i < |rest| && Stops(rest[i]) by {
        if exists i :: 0 <= i < |evs| && Stops(evs[i]) {
          var i :| 0 <= i < |evs| && Stops(evs[i]);
          if i > 0 {
            assert Stops(rest[i - 1]);
          }
        }
      }
      match evs[0]
      case Signal(signo) =>
        if !IsTermination(signo) {
          LoopExits(OnSignal(p, signo), rest);
        }
      case Accepted(s) =>
        LoopExits(AfterSession(p, s), rest);
      case AcceptFailed(errno, sigs) =>
        OnSignalsEffect(p, sigs);
        if !AcceptBreaks(errno, OnSignals(p, sigs).keepRunning) {
          LoopExits(OnSignals(p, sigs), rest);
        }
    }
  }

  /** Whatever the events, the loop keeps the data file consistent and never sets the flag again. */
  lemma {:induction false} LoopKeeps(p: Proc, evs: seq<Event>)
    requires Consistent(p)
    ensures Consistent(Loop(p, evs).p)
    ensures Loop(p, evs).remaining <= |evs|
    ensures Loop(p, evs).p.keepRunning ==> p.keepRunning
    ensures Loop(p, evs).p.listener == p.listener
    decreases |evs|
  {
    if p.keepRunning && evs != [] {
      match evs[0]
      case Signal(signo) =>
        LoopKeeps(OnSignal(p, signo), evs[1..]);
      case Accepted(s) =>
        HandleClientLog(p.log, s);
        LoopKeeps(AfterSession(p, s), evs[1..]);
      case AcceptFailed(errno, sigs) =>
        OnSignalsEffect(p, sigs);
        if !AcceptBreaks(errno, OnSignals(p, sigs).keepRunning) {
          LoopKeeps(OnSignals(p, sigs), evs[1..]);
        }
    }
  }

  // ---------------------------------------------------------------------------
  // Shutdown

  datatype UnlinkResult = Unlinked | UnlinkFailed(errno: int)

  /** The state after `unlink(DATA_FILE)` and what `unlink` returned. */
  datatype Cleanup = Cleanup(p: Proc, result: UnlinkResult)

  /** `unlink` of the data file; `removable` is whether the file system lets an existing file be removed. */
  function Unlink(p: Proc, removable: bool): (r: Cleanup)
    ensures r.result.Unlinked? <==> p.logExists && removable
    ensures r.result.Unlinked? ==> !r.p.logExists && r.p.log == []
    ensures !r.result.Unlinked? ==> r.p == p
    ensures r.p.keepRunning == p.keepRunning && r.p.listener == p.listener && r.p.shutdowns == p.shutdowns
  {
    if !p.logExists then Cleanup(p, UnlinkFailed(ENOENT))
    else if !removable then Cleanup(p, UnlinkFailed(EACCES))
    else Cleanup(p.(log := [], logExists := false), Unlinked)
  }

  /** The shutdown code logs an error only for an `unlink` failure other than `ENOENT`. */
  predicate ReportsDeleteError(r: UnlinkResult)
  {
    r.UnlinkFailed? && r.errno != ENOENT
  }

  /**
    A missing data file is not an error; an error is reported exactly when
    an existing file cannot be removed; without an error the file is gone
    and holds nothing.
  */
  lemma UnlinkOutcome(p: Proc, removable: bool)
    requires Consistent(p)
    ensures ReportsDeleteError(Unlink(p, removable).result) <==> p.logExists && !removable
    ensures !ReportsDeleteError(Unlink(p, removable).result) ==>
      !Unlink(p, removable).p.logExists && Unlink(p, removable).p.log == []
    ensures Consistent(Unlink(p, removable).p)
  {
  }

  /**
    After a clean shutdown a client of the restarted server sending one
    frame, in chunks of any size and with every call succeeding, gets back
    exactly that frame: nothing of the old data file is left.
  */
  lemma RestartIsFresh(p: Proc, removable: bool, frame: seq<byte>, s: Session)
    requires Consistent(p)
    requires !ReportsDeleteError(Unlink(p, removable).result)
    requires IsFrame(frame) && NUL !in frame
    requires Flatten(s.chunks) == frame && NoFaults(s.faults)
    ensures HandleClient(Unlink(p, removable).p.log, s).echoes == [frame]
  {
    UnlinkOutcome(p, removable);
    assert Unlink(p, removable).p.log == [];
    FrameAlone(frame, s);
  }

  /** One NUL-free frame sent to an empty data file comes back alone. */
  lemma FrameAlone(frame: seq<byte>, s: Session)
    requires IsFrame(frame) && NUL !in frame
    requires Flatten(s.chunks) == frame && NoFaults(s.faults)
    ensures HandleClient([], s).echoes == [frame]
  {
    OneFrame(frame);
    EchoIsConcatenation(s);
    var o := HandleClient([], s);
    assert [frame][..1] == [frame];
    assert o.echoes == [o.echoes[0]] && o.echoes[0] == frame;
  }

  /** A frame by itself splits into just that frame. */
  lemma OneFrame(frame: seq<byte>)
    requires IsFrame(frame)
    ensures Frames(frame) == [frame] && Flatten([frame]) == frame
  {
    assert Flatten([frame]) == Flatten([]) + frame;
    assert Flatten([frame]) + [] == frame;
    FramesUnique(frame, [frame], []);
  }


  /** Two frames sent as one string are those two frames, with nothing pending. */
  lemma TwoFrames(a: seq<byte>, b: seq<byte>)
    requires IsFrame(a) && IsFrame(b)
    ensures Frames(a + b) == [a, b] && Pending(a + b) == []
  {
    var fs: seq<seq<byte>> := [a, b];
    assert fs[..1] == [a];
    assert Flatten([a]) == Flatten([]) + a;
    assert Flatten(fs) == Flatten(fs[..1]) + b;
    assert Flatten(fs) + [] == a + b;
    assert forall k :: 0 <= k < |fs| ==> IsFrame(fs[k]);
    FramesUnique(a + b, fs, []);
  }

  /** NUL-free frames are logged as they are. */
  lemma LoggedTwo(a: seq<byte>, b: seq<byte>)
    requires NUL !in a && NUL !in b
    ensures Logged([a]) == a && Logged([a, b]) == a + b
  {
    var fs: seq<seq<byte>> := [a, b];
    assert fs[..1] == [a];
    CStringNoNul(a);
    CStringNoNul(b);
    assert Logged([a]) == Logged([]) + CString(a);
  }

  /**
    A client sending frames `a` and `b`, however the bytes are split into
    chunks, to a fresh data file gets back `a`, then `a + b`.
  */
  lemma FirstClient(s: Session, a: seq<byte>, b: seq<byte>)
    requires IsFrame(a) && IsFrame(b) && NUL !in a && NUL !in b
    requires Flatten(s.chunks) == a + b && s.end == EndOfStream && NoFaults(s.faults)
    ensures HandleClient([], s) == Outcome(0, a + b, 2, [a, a + b])
  {
    var fs: seq<seq<byte>> := [a, b];
    TwoFrames(a, b);
    LoggedTwo(a, b);
    assert fs[..1] == [a] && fs[..2] == fs;
    HandleClientCompletes([], s);
    var o := HandleClient([], s);
    assert o.echoes[0] == a by {
      assert o.echoes[0] == [] + Logged(fs[..1]);
    }
    assert o.echoes[1] == a + b by {
      assert o.echoes[1] == [] + Logged(fs[..2]);
    }
    assert o.echoes == [a, a + b];
  }

  /** A client sending one NUL-free frame `c`, in any chunks, gets back the file with `c` appended. */
  lemma OneFrameClient(log: seq<byte>, s: Session, c: seq<byte>)
    requires IsFrame(c) && NUL !in c
    requires Flatten(s.chunks) == c && s.end == EndOfStream && NoFaults(s.faults)
    ensures HandleClient(log, s) == Outcome(0, log + c, 1, [log + c])
  {
    var fs: seq<seq<byte>> := [c];
    assert Flatten(fs) == Flatten([]) + c;
    FramesUnique(c, fs, []);
    HandleClientCompletes(log, s);
    assert fs[..1] == fs;
    LoggedNoNul(fs);
    var o := HandleClient(log, s);
    assert o.echoes[0] == log + Logged(fs[..1]) == log + c;
    assert o.echoes == [log + c];
  }

  /**
    Two clients in a row on a fresh data file, without a failed call: the
    first sends frames `a` and `b` and gets back `a`, then `a + b`; the
    second sends `c` and gets back the whole history `a + b + c`, which the
    file keeps.
  */
  lemma TwoClients(p: Proc, s1: Session, s2: Session, a: seq<byte>, b: seq<byte>, c: seq<byte>)
    requires p.keepRunning && p.log == []
    requires IsFrame(a) && IsFrame(b) && IsFrame(c)
    requires NUL !in a && NUL !in b && NUL !in c
    requires Flatten(s1.chunks) == a + b && s1.end == EndOfStream && NoFaults(s1.faults)
    requires Flatten(s2.chunks) == c && s2.end == EndOfStream && NoFaults(s2.faults)
    ensures Loop(p, [Accepted(s1), Accepted(s2)]) ==
      LoopEnd(p.(log := a + b + c, logExists := true), 0, [Served(0, [a, a + b]), Served(0, [a + b + c])], false)
  {
    var evs := [Accepted(s1), Accepted(s2)];
    FirstClient(s1, a, b);
    OneFrameClient(a + b, s2, c);
    var p1 := AfterSession(p, s1);
    var p2 := AfterSession(p1, s2);
    assert p1 == p.(log := a + b, logExists := true);
    assert p2 == p.(log := a + b + c, logExists := true);
    assert evs[1..] == [Accepted(s2)] && evs[1..][1..] == [];
    assert Loop(p2, []) == LoopEnd(p2, 0, [], false);
    assert Loop(p1, [Accepted(s2)]) == LoopEnd(p2, 0, [Served(0, [a + b + c])], false);
  }

  // ---------------------------------------------------------------------------
  // The process as an object

  class Server {
    var keepRunning: bool
    var listener: int
    var shutdowns: nat
    var log: seq<byte>
    var logExists: bool

    ghost function State(): Proc
      reads this
    {
      Proc(keepRunning, listener, shutdowns, log, logExists)
    }

    ghost predicate Valid()
      reads this
    {
      Consistent(State())
    }

    /** The process at start-up: the flag set, no listening socket yet, and whatever data file is already there. */
    constructor (log0: seq<byte>, exists0: bool)
      requires exists0 || log0 == []
      ensures Valid() && State() == Proc(true, -1, 0, log0, exists0)
    {
      keepRunning := true;
      listener := -1;
      shutdowns := 0;
      log := log0;
      logExists := exists0;
    }

    /** `signal_handler`. */
    method SignalHandler(signo: int)
      requires Valid()
      modifies this
      ensures Valid() && State() == OnSignal(old(State()), signo)
    {
      if signo == SIGINT || signo == SIGTERM {
        keepRunning := false;
        if listener != -1 {
          shutdowns := shutdowns + 1;
        }
      }
    }

    /** The handler run for each signal delivered, in order. */
    method DeliverSignals(sigs: seq<int>)
      requires Valid()
      modifies this
      ensures Valid() && State() == OnSignals(old(State()), sigs)
    {
      var k := 0;
      while k < |sigs|
        invariant 0 <= k <= |sigs| && Valid()
        invariant State() == OnSignals(old(State()), sigs[..k])
        decreases |sigs| - k
      {
        assert sigs[..k + 1][..k] == sigs[..k];
        SignalHandler(sigs[k]);
        k := k + 1;
      }
      assert sigs[..k] == sigs;
    }

    /**
      The byte loop of `handle_client_data` over one chunk returned by
      `recv`. `going` is false where `handle_client_data` returns -1.
    */
    method ReceiveChunk(packet: Packet, chunk: seq<byte>, f: Faults, frames: nat, echoes: seq<seq<byte>>)
      returns (going: bool, frames': nat, echoes': seq<seq<byte>>)
      requires Valid() && packet.Valid()
      modifies this, packet, packet.buf
      ensures var r := RunBytes(Conn(old(log), old(packet.Contents()), old(packet.capacity), frames, echoes), chunk, f);
        going == r.Going? && log == r.c.log && frames' == r.c.frames && echoes' == r.c.echoes &&
        (going ==> packet.Valid() && packet.Contents() == r.c.pending && packet.capacity == r.c.capacity)
      ensures going ==> packet.buf == old(packet.buf) || fresh(packet.buf)
      ensures frames' >= frames
      ensures Valid() && logExists == (old(logExists) || frames' > frames)
      ensures keepRunning == old(keepRunning) && listener == old(listener) && shutdowns == old(shutdowns)
    {
      ghost var c0 := Conn(log, packet.Contents(), packet.capacity, frames, echoes);
      frames', echoes' := frames, echoes;
      var i := 0;
      while i < |chunk|
        invariant 0 <= i <= |chunk|
        invariant packet.Valid() && (packet.buf == old(packet.buf) || fresh(packet.buf))
        invariant RunBytes(c0, chunk[..i], f) == Going(Conn(log, packet.Contents(), packet.capacity, frames', echoes'))
        invariant frames' >= frames
        invariant Valid() && logExists == (old(logExists) || frames' > frames)
        invariant keepRunning == old(keepRunning) && listener == old(listener) && shutdowns == old(shutdowns)
        decreases |chunk| - i
      {
        assert chunk[..i + 1][..i] == chunk[..i];
        going, frames', echoes' := ReceiveByte(packet, chunk[i], f, frames', echoes');
        if !going {
          AbortedStays(c0, chunk[..i + 1], f);
          assert chunk[..i + 1] + chunk[i + 1..] == chunk;
          return;
        }
        i := i + 1;
      }
      assert chunk[..i] == chunk;
      going := true;
    }

    /**
      One iteration of the byte loop of `handle_client_data`: store the byte,
      and on a newline complete the packet. `going` is false where
      `handle_client_data` returns -1.
    */
    method ReceiveByte(packet: Packet, b: byte, f: Faults, frames: nat, echoes: seq<seq<byte>>)
      returns (going: bool, frames': nat, echoes': seq<seq<byte>>)
      requires Valid() && packet.Valid()
      modifies this, packet, packet.buf
      ensures var r := Step(Conn(old(log), old(packet.Contents()), old(packet.capacity), frames, echoes), b, f);
        going == r.Going? && log == r.c.log && frames' == r.c.frames && echoes' == r.c.echoes &&
        (going ==> packet.Valid() && packet.Contents() == r.c.pending && packet.capacity == r.c.capacity)
      ensures going ==> packet.buf == old(packet.buf) || fresh(packet.buf)
      ensures frames' >= frames
      ensures Valid() && logExists == (old(logExists) || frames' > frames)
      ensures keepRunning == old(keepRunning) && listener == old(listener) && shutdowns == old(shutdowns)
    {
      var stored := packet.Store(b, f.reallocOk);
      if !stored {
        return false, frames, echoes;
      }
      if b != NEWLINE {
        return true, frames, echoes;
      }
      packet.Terminate();
      going, frames', echoes' := CompleteFrame(packet, f, frames, echoes);
    }

    /**
      The newline branch of the byte loop: NUL-terminate the packet, append
      it to the data file with `fputs`, stream the file back with
      `send_file_contents`, and reset the packet.
    */
    method CompleteFrame(packet: Packet, f: Faults, frames: nat, echoes: seq<seq<byte>>)
      returns (going: bool, frames': nat, echoes': seq<seq<byte>>)
      requires Valid() && packet.Valid() && packet.buf[packet.len] == NUL
      modifies this, packet`len
      ensures var r := Complete(Conn(old(log), old(packet.Contents()), packet.capacity, frames, echoes), f);
        going == r.Going? && log == r.c.log && frames' == r.c.frames && echoes' == r.c.echoes &&
        (going ==> packet.Valid() && packet.Contents() == r.c.pending)
      ensures frames' >= frames
      ensures Valid() && logExists == (old(logExists) || frames' > frames)
      ensures keepRunning == old(keepRunning) && listener == old(listener) && shutdowns == old(shutdowns)
    {
      frames', echoes' := frames, echoes;
      if !f.appendOpenOk(frames) {
        return false, frames', echoes';
      }
      var written := packet.Fputs();
      log := log + written;
      logExists := true;
      var sent, handed, delivered := SendFileContents(log, f.readOpenOk(frames), f.sendOk(frames));
      StreamEcho(log, f.readOpenOk(frames), f.sendOk(frames));
      echoes' := echoes + [delivered];
      frames' := frames + 1;
      if sent == -1 {
        return false, frames', echoes';
      }
      packet.Reset();
      going := true;
    }

    /**
      `handle_client_data`: the `recv` loop over the session's chunks and the
      byte loop over each chunk. Returns the code and the bytes the client
      received after each frame.
    */
    method HandleClientData(s: Session) returns (rc: int, echoes: seq<seq<byte>>)
      requires Valid() && ValidChunks(s.chunks)
      modifies this
      ensures Valid() && State() == AfterSession(old(State()), s)
      ensures rc == HandleClient(old(log), s).rc && echoes == HandleClient(old(log), s).echoes
    {
      var f := s.faults;
      if !f.mallocOk {
        return -1, [];
      }
      ghost var start := Start(log);
      var packet := new Packet();
      var frames := 0;  // frames appended so far; indexes the outcomes in `f`
      echoes := [];
      var j := 0;
      while j < |s.chunks|
        invariant 0 <= j <= |s.chunks|
        invariant fresh(packet) && fresh(packet.buf) && packet.Valid()
        invariant RunChunks(start, s.chunks[..j], f) == Going(Conn(log, packet.Contents(), packet.capacity, frames, echoes))
        invariant logExists == (old(logExists) || frames > 0) && (logExists || log == [])
        invariant keepRunning == old(keepRunning) && listener == old(listener) && shutdowns == old(shutdowns)
        decreases |s.chunks| - j
      {
        assert s.chunks[..j + 1][..j] == s.chunks[..j];
        var going;
        going, frames, echoes := ReceiveChunk(packet, s.chunks[j], f, frames, echoes);
        if !going {
          AbortedChunk(start, s.chunks, j, f);
          return -1, echoes;
        }
        j := j + 1;
      }
      assert s.chunks[..j] == s.chunks;
      rc := if s.end == RecvError then -1 else 0;
    }

    /**
      The accept loop of `main`; returns how many events it never reached,
      what each client got, and whether the loop was left.
    */
    method AcceptLoop(events: seq<Event>) returns (remaining: nat, served: seq<Served>, exited: bool)
      requires Valid()
      requires forall k :: 0 <= k < |events| && events[k].Accepted? ==> ValidChunks(events[k].session.chunks)
      modifies this
      ensures Valid() && LoopEnd(State(), remaining, served, exited) == Loop(old(State()), events)
    {
      served := [];
      var i := 0;
      while i < |events| && keepRunning
        invariant 0 <= i <= |events| && Valid()
        invariant Loop(old(State()), events) == Prepended(served, Loop(State(), events[i..]))
        decreases |events| - i
      {
        var e := events[i];
        assert events[i..][0] == e && events[i..][1..] == events[i + 1..];
        LoopNext(State(), events[i..]);
        match e {
          case Signal(signo) =>
            SignalHandler(signo);
          case Accepted(s) =>
            var rc, echoes := HandleClientData(s);
            served := served + [Served(rc, echoes)];
          case AcceptFailed(errno, sigs) =>
            DeliverSignals(sigs);
            if errno == EINTR || !keepRunning {
              remaining, exited := |events| - i - 1, true;
              assert served + [] == served;
              return;
            }
        }
        i := i + 1;
      }
      remaining, exited := |events| - i, !keepRunning;
      assert served + [] == served;
    }

    /** The cleanup at the end of `main`: it returns 0 whatever `unlink` does. */
    method Shutdown(removable: bool) returns (status: int, deleteError: bool)
      requires Valid()
      modifies this
      ensures Valid() && State() == Unlink(old(State()), removable).p
      ensures deleteError == ReportsDeleteError(Unlink(old(State()), removable).result)
      ensures status == 0
    {
      var result: UnlinkResult;
      if !logExists {
        result := UnlinkFailed(ENOENT);
      } else if !removable {
        result := UnlinkFailed(EACCES);
      } else {
        log, logExists := [], false;
        result := Unlinked;
      }
      deleteError := result.UnlinkFailed? && result.errno != ENOENT;
      status := 0;
    }

    /**
      `main` after option parsing: `getaddrinfo` (`resolved`), the bind
      loop, `listen` (`listenOk`), the accept loop and the cleanup.
      `returned` is whether `main` returns: it does not when the accept
      loop is still waiting in `accept` after the last event, and then no
      cleanup has happened and `status` stays 0.
    */
    method Run(resolved: bool, cands: seq<Candidate>, listenOk: bool, events: seq<Event>, removable: bool)
      returns (status: int, served: seq<Served>, returned: bool)
      requires Valid() && keepRunning && listener == -1
      requires forall k :: 0 <= k < |events| && events[k].Accepted? ==> ValidChunks(events[k].session.chunks)
      modifies this
      ensures Valid()
      ensures status == 0 || status == -1
      ensures status == -1 <==> !resolved || !BindFrom(cands, 0).Bound? || !listenOk
      ensures (!resolved || !BindFrom(cands, 0).Bound?) ==> State() == old(State()) && served == []
      ensures resolved && BindFrom(cands, 0).Bound? && !listenOk ==>
        State() == old(State()).(listener := BindFrom(cands, 0).fd) && served == []
      ensures status == -1 ==> returned
      ensures status == 0 ==>
        var l := Loop(old(State()).(listener := BindFrom(cands, 0).fd), events);
        returned == l.exited && served == l.served &&
        State() == if l.exited then Unlink(l.p, removable).p else l.p
    {
      served := [];
      if !resolved {
        return -1, [], true;
      }
      var bound := SelectBind(cands);
      if !bound.Bound? {
        return -1, [], true;
      }
      listener := bound.fd;
      if !listenOk {
        return -1, [], true;
      }
      var remaining;
      remaining, served, returned := AcceptLoop(events);
      status := 0;
      if returned {
        var deleteError;
        status, deleteError := Shutdown(removable);
      }
    }
  }

  /** The run state `served` prefixes to the connections of a later part of the loop. */
  function Prepended(served: seq<Served>, r: LoopEnd): LoopEnd
  {
    r.(served := served + r.served)
  }

  /** The loop with the flag set, unfolded at its first event. */
  lemma LoopNext(p: Proc, evs: seq<Event>)
    requires p.keepRunning && evs != []
    ensures evs[0].Signal? ==> Loop(p, evs) == Loop(OnSignal(p, evs[0].signo), evs[1..])
    ensures evs[0].Accepted? ==>
      var o := HandleClient(p.log, evs[0].session);
      Loop(p, evs) == Prepended([Served(o.rc, o.echoes)], Loop(AfterSession(p, evs[0].session), evs[1..]))
    ensures evs[0].AcceptFailed? ==>
      var q := OnSignals(p, evs[0].signals);
      Loop(p, evs) == if AcceptBreaks(evs[0].errno, q.keepRunning) then LoopEnd(q, |evs| - 1, [], true) else Loop(q, evs[1..])
  {
  }

  /** A run that aborts within chunk `j` is the run over all the chunks. */
  lemma AbortedChunk(start: Conn, chunks: seq<seq<byte>>, j: nat, f: Faults)
    requires j < |chunks| && RunChunks(start, chunks[..j + 1], f).Aborted?
    ensures RunChunks(start, chunks, f) == RunChunks(start, chunks[..j + 1], f)
  {
    var pre := chunks[..j + 1];
    RunChunksFlat(start, pre, f);
    RunChunksFlat(start, chunks, f);
    AbortedStays(start, Flatten(pre), f);
    assert chunks == pre + chunks[j + 1..];
    FlattenAppend(pre, chunks[j + 1..]);
  }
}
