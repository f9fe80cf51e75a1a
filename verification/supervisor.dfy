/** The preview pipeline's state machine: the capture process (ffmpeg) that is
    current, the camera device, the latest frame, the watchdog and janitor
    timers, the processes started to hot-swap the camera, and the clients.

    Every callback of the server is one atomic method: a /preview request, a
    stdout chunk, a process exit, a process error, the end of the hot-swap
    grace delay, a watchdog tick, a janitor tick, a heartbeat tick, and a
    camera switch request. Starting a process allocates a fresh process id;
    killing one is recorded in `killed`, and the process leaves only through
    its own exit event. */
module Supervisor {
  import opened Wrappers
  import opened Frames
  import opened Numbers
  import opened Clients

  /** A capture process started by the server. */
  type ProcId = nat

  /** A capture process: the device it films, its private frame buffer, and
      whether it has exited. */
  datatype Capture = Capture(device: string, localBuf: seq<Byte>, exited: bool)

  /** Where a hot swap stands: waiting for the new process's first stdout chunk;
      switched over, with the previous process to be killed once the grace
      delay elapses; or finished. */
  datatype Phase = Warming | Grace(victim: Option<ProcId>) | Finished

  /** The state of the promise a hot swap returns. */
  datatype Outcome = Pending | Resolved | Rejected

  /** One hot swap, keyed by its new process: the device it switches to, its
      phase, whether its one-time error listener has fired, and its promise. */
  datatype Swap = Swap(device: string, phase: Phase, errorSeen: bool, outcome: Outcome)

  /** The answer to a camera switch request: rejected for a missing device,
      done by stopping and restarting the pipeline, or waiting on a hot swap
      to the given process. */
  datatype SwitchResult = BadRequest | Restarted | Swapping(temp: ProcId)

  /** The watchdog restarts the pipeline after this many milliseconds without
      a frame. */
  const WATCHDOG_SILENCE_MS := 5000

  /** Everything but the clients, for stating what an operation leaves alone. */
  datatype Pipeline = Pipeline(
    ff: Option<ProcId>, currentDevice: string, latestFrame: Option<seq<Byte>>, lastFrameAt: int,
    watchdogOn: bool, janitorOn: bool,
    procs: map<ProcId, Capture>, nextProc: ProcId, killed: set<ProcId>, swaps: map<ProcId, Swap>)

  /** A process that was started and has not exited. */
  ghost predicate Running(pl: Pipeline, p: ProcId)
  {
    p in pl.procs && !pl.procs[p].exited
  }

  /** The processes a switched-over hot swap still has to kill. */
  ghost function GraceVictims(swaps: map<ProcId, Swap>): set<ProcId>
  {
    set t | t in swaps && swaps[t].phase.Grace? && swaps[t].phase.victim.Some? :: swaps[t].phase.victim.value
  }

  /** A running process someone is answerable for: it was killed, it is the
      current one, it is a hot swap's new process still warming up, or a hot
      swap will kill it when its grace delay elapses. */
  ghost predicate Accounted(pl: Pipeline, p: ProcId)
  {
    p in pl.killed || pl.ff == Some(p) || (p in pl.swaps && pl.swaps[p].phase == Warming) ||
    p in GraceVictims(pl.swaps)
  }

  /** Process ids are allocated in order, every hot swap has its process, the
      current process was started (it may have exited: a chunk that arrives
      after the exit event can still make a hot swap's process current), the
      latest frame is a complete frame, every
      buffer holds only what the extractor keeps, and no running process is
      orphaned. */
  ghost predicate Sound(pl: Pipeline)
  {
    (forall p | p in pl.procs :: p < pl.nextProc) &&
    pl.swaps.Keys <= pl.procs.Keys &&
    (pl.ff.Some? ==> pl.ff.value in pl.procs) &&
    (pl.latestFrame.Some? ==> IsFrame(pl.latestFrame.value)) &&
    (forall p | p in pl.procs :: IsPending(pl.procs[p].localBuf, false)) &&
    (forall p | Running(pl, p) :: Accounted(pl, p))
  }

  /** Updating a hot swap without changing whom it is waiting to kill leaves
      the grace victims as they were. */
  lemma GraceVictimsSame(swaps: map<ProcId, Swap>, t: ProcId, s: Swap)
    requires if t in swaps then s.phase == swaps[t].phase else !s.phase.Grace?
    ensures GraceVictims(swaps[t := s]) == GraceVictims(swaps)
  {
    var swaps' := swaps[t := s];
    forall q | q in GraceVictims(swaps')
      ensures q in GraceVictims(swaps)
    {
      var u :| u in swaps' && swaps'[u].phase.Grace? && swaps'[u].phase.victim == Some(q);
      assert u in swaps && swaps[u].phase == swaps'[u].phase;
    }
    forall q | q in GraceVictims(swaps)
      ensures q in GraceVictims(swaps')
    {
      var u :| u in swaps && swaps[u].phase.Grace? && swaps[u].phase.victim == Some(q);
      assert u in swaps' && swaps'[u].phase == swaps[u].phase;
    }
  }

  /** Changing neither the processes, the kills, the hot swaps nor the
      current process keeps a sound pipeline sound, as long as the latest frame
      stays a complete frame. */
  lemma SoundAside(pl: Pipeline, pl': Pipeline)
    requires Sound(pl)
    requires pl'.procs == pl.procs && pl'.nextProc == pl.nextProc && pl'.killed == pl.killed
    requires pl'.swaps == pl.swaps && pl'.ff == pl.ff
    requires pl'.latestFrame.Some? ==> IsFrame(pl'.latestFrame.value)
    ensures Sound(pl')
  {
    forall p | Running(pl', p)
      ensures Accounted(pl', p)
    {
      assert Running(pl, p) && Accounted(pl, p);
    }
  }

  /** stopPipeline keeps the pipeline sound: the current process it forgets
      is killed. */
  lemma SoundStop(pl: Pipeline)
    requires Sound(pl)
    ensures Sound(pl.(ff := None, latestFrame := None, watchdogOn := false, janitorOn := false,
      killed := pl.killed + (if pl.ff.Some? then {pl.ff.value} else {})))
  {
    var pl' := pl.(ff := None, latestFrame := None, watchdogOn := false, janitorOn := false,
      killed := pl.killed + (if pl.ff.Some? then {pl.ff.value} else {}));
    forall p | Running(pl', p)
      ensures Accounted(pl', p)
    {
      assert Running(pl, p) && Accounted(pl, p);
    }
  }

  /** startPipeline without a current process keeps the pipeline sound: the
      process it starts is the current one. */
  lemma SoundStart(pl: Pipeline, device: string)
    requires Sound(pl) && pl.ff.None?
    ensures Sound(pl.(ff := Some(pl.nextProc), currentDevice := device, watchdogOn := true, janitorOn := true,
      procs := pl.procs[pl.nextProc := Capture(device, [], false)], nextProc := pl.nextProc + 1))
  {
    var pl' := pl.(ff := Some(pl.nextProc), currentDevice := device, watchdogOn := true, janitorOn := true,
      procs := pl.procs[pl.nextProc := Capture(device, [], false)], nextProc := pl.nextProc + 1);
    forall p | Running(pl', p)
      ensures Accounted(pl', p)
    {
      if p != pl.nextProc {
        assert Running(pl, p) && Accounted(pl, p);
      }
    }
  }

  /** Starting a hot swap's new process keeps the pipeline sound: it is
      warming up. */
  lemma SoundSwapStart(pl: Pipeline, device: string)
    requires Sound(pl)
    ensures Sound(pl.(procs := pl.procs[pl.nextProc := Capture(device, [], false)], nextProc := pl.nextProc + 1,
      swaps := pl.swaps[pl.nextProc := Swap(device, Warming, false, Pending)]))
  {
    var pl' := pl.(procs := pl.procs[pl.nextProc := Capture(device, [], false)], nextProc := pl.nextProc + 1,
      swaps := pl.swaps[pl.nextProc := Swap(device, Warming, false, Pending)]);
    assert pl.nextProc !in pl.swaps;
    GraceVictimsSame(pl.swaps, pl.nextProc, Swap(device, Warming, false, Pending));
    forall p | Running(pl', p)
      ensures Accounted(pl', p)
    {
      if p != pl.nextProc {
        assert Running(pl, p) && Accounted(pl, p);
      }
    }
  }

  /** Replacing a process's buffer with what the extractor keeps keeps the
      pipeline sound. */
  lemma SoundFeed(pl: Pipeline, p: ProcId, rest: seq<Byte>)
    requires Sound(pl) && p in pl.procs && IsPending(rest, false)
    ensures Sound(pl.(procs := pl.procs[p := pl.procs[p].(localBuf := rest)]))
  {
    var pl' := pl.(procs := pl.procs[p := pl.procs[p].(localBuf := rest)]);
    forall q | Running(pl', q)
      ensures Accounted(pl', q)
    {
      assert Running(pl, q) && Accounted(pl, q);
    }
  }

  /** A warming hot swap switching over keeps the pipeline sound: its process
      becomes current, and the one it replaces waits for the grace delay. */
  lemma SoundSwitchOver(pl: Pipeline, t: ProcId)
    requires Sound(pl) && t in pl.swaps && pl.swaps[t].phase == Warming
    ensures Sound(pl.(ff := Some(t), currentDevice := pl.swaps[t].device,
      swaps := pl.swaps[t := pl.swaps[t].(phase := Grace(pl.ff))]))
  {
    var pl' := pl.(ff := Some(t), currentDevice := pl.swaps[t].device,
      swaps := pl.swaps[t := pl.swaps[t].(phase := Grace(pl.ff))]);
    forall q | q in GraceVictims(pl.swaps)
      ensures q in GraceVictims(pl'.swaps)
    {
      var u :| u in pl.swaps && pl.swaps[u].phase.Grace? && pl.swaps[u].phase.victim == Some(q);
      assert u != t && pl'.swaps[u] == pl.swaps[u];
    }
    if pl.ff.Some? {
      assert pl'.swaps[t].phase.victim == pl.ff;
      assert pl.ff.value in GraceVictims(pl'.swaps);
    }
    forall q | Running(pl', q)
      ensures Accounted(pl', q)
    {
      assert Running(pl, q) && Accounted(pl, q);
    }
  }

  /** A process exiting keeps the pipeline sound. */
  lemma SoundExit(pl: Pipeline, p: ProcId)
    requires Sound(pl) && Running(pl, p)
    ensures var procs := pl.procs[p := pl.procs[p].(exited := true)];
      Sound(pl.(procs := procs, ff := if pl.ff == Some(p) then None else pl.ff))
  {
    var pl' := pl.(procs := pl.procs[p := pl.procs[p].(exited := true)], ff := if pl.ff == Some(p) then None else pl.ff);
    forall q | Running(pl', q)
      ensures Accounted(pl', q)
    {
      assert Running(pl, q) && Accounted(pl, q);
    }
  }

  /** A hot swap's error listener keeps the pipeline sound: its process is
      killed. */
  lemma SoundSpawnError(pl: Pipeline, t: ProcId, s: Swap)
    requires Sound(pl) && t in pl.swaps && s.phase == pl.swaps[t].phase
    ensures Sound(pl.(killed := pl.killed + {t}, swaps := pl.swaps[t := s]))
  {
    var pl' := pl.(killed := pl.killed + {t}, swaps := pl.swaps[t := s]);
    GraceVictimsSame(pl.swaps, t, s);
    forall q | Running(pl', q)
      ensures Accounted(pl', q)
    {
      assert Running(pl, q) && Accounted(pl, q);
    }
  }

  /** A hot swap's grace delay elapsing keeps the pipeline sound: the process
      it was waiting to kill is killed. */
  lemma SoundGrace(pl: Pipeline, t: ProcId, outcome: Outcome)
    requires Sound(pl) && t in pl.swaps && pl.swaps[t].phase.Grace?
    ensures var victim := pl.swaps[t].phase.victim;
      Sound(pl.(killed := pl.killed + (if victim.Some? then {victim.value} else {}),
        swaps := pl.swaps[t := pl.swaps[t].(phase := Finished, outcome := outcome)]))
  {
    var victim := pl.swaps[t].phase.victim;
    var pl' := pl.(killed := pl.killed + (if victim.Some? then {victim.value} else {}),
      swaps := pl.swaps[t := pl.swaps[t].(phase := Finished, outcome := outcome)]);
    forall q | Running(pl', q)
      ensures Accounted(pl', q)
    {
      assert Running(pl, q) && Accounted(pl, q);
      if q in GraceVictims(pl.swaps) && q !in pl'.killed {
        var u :| u in pl.swaps && pl.swaps[u].phase.Grace? && pl.swaps[u].phase.victim == Some(q);
        assert u != t && pl'.swaps[u] == pl.swaps[u];
      }
    }
  }

  class PreviewServer {
    /** The open /preview responses and their settings. */
    var clients: set<ClientId>
    var clientMeta: map<ClientId, Meta>
    /** The current capture process, if any. */
    var ff: Option<ProcId>
    var currentDevice: string
    /** The last frame broadcast since the pipeline was last stopped. */
    var latestFrame: Option<seq<Byte>>
    /** When a frame was last broadcast (never reset). */
    var lastFrameAt: int
    var watchdogOn: bool
    var janitorOn: bool
    /** Every capture process ever started, by id. */
    var procs: map<ProcId, Capture>
    var nextProc: ProcId
    /** The processes kill() was called on. */
    var killed: set<ProcId>
    /** The hot swaps, keyed by their new process. */
    var swaps: map<ProcId, Swap>

    ghost function Reg(): Registry
      reads this
    {
      Registry(clients, clientMeta)
    }

    ghost function Pipe(): Pipeline
      reads this
    {
      Pipeline(ff, currentDevice, latestFrame, lastFrameAt, watchdogOn, janitorOn, procs, nextProc, killed, swaps)
    }

    /** A process that was started and has not exited. */
    ghost predicate Live(p: ProcId)
      reads this
    {
      Running(Pipe(), p)
    }

    ghost predicate Valid()
      reads this
    {
      Clients.Valid(Reg()) && Sound(Pipe())
    }

    /** No process is current, no frame is kept, and both timers are off. */
    predicate Stopped()
      reads this
    {
      ff.None? && latestFrame.None? && !watchdogOn && !janitorOn
    }

    /** The server at start-up: no client, no process, the configured device. */
    constructor(device: string)
      ensures Valid() && Stopped()
      ensures Reg() == Clients.Empty && currentDevice == device && lastFrameAt == 0
      ensures procs == map[] && nextProc == 0 && swaps == map[] && killed == {}
    {
      clients := {};
      clientMeta := map[];
      ff := None;
      currentDevice := device;
      latestFrame := None;
      lastFrameAt := 0;
      watchdogOn := false;
      janitorOn := false;
      procs := map[];
      nextProc := 0;
      killed := {};
      swaps := map[];
    }

    /** removeClient: the client and its settings are forgotten; an unknown
        client changes nothing. */
    method RemoveClient(c: ClientId)
      requires Valid()
      modifies this
      ensures Valid()
      ensures Reg() == Clients.Remove(old(Reg()), c)
      ensures Pipe() == old(Pipe())
    {
      if c !in clients {
        return;
      }
      clients := clients - {c};
      clientMeta := clientMeta - {c};
    }

    /** One turn of broadcastFrame's loop, for client c: a throttled client is
        skipped; one whose response has ended, or whose write fails, is
        removed; any other one is written to and stamped with now. */
    method Offer(c: ClientId, now: int, ended: set<ClientId>, failing: set<ClientId>)
      requires Valid() && c in clients
      modifies this
      ensures Valid()
      ensures Reg() ==
        if Throttled(old(clientMeta[c]), now) then old(Reg())
        else if Drops(old(clientMeta[c]), c, now, ended, failing) then Clients.Remove(old(Reg()), c)
        else Clients.Stamp(old(Reg()), c, now)
      ensures Pipe() == old(Pipe())
    {
      var meta := clientMeta[c];
      if Throttled(meta, now) {
        return;
      }
      if c in ended {
        RemoveClient(c);
        return;
      }
      if c in failing {
        RemoveClient(c);
        return;
      }
      clientMeta := clientMeta[c := meta.(lastSent := now)];
    }

    /** broadcastFrame: the frame becomes the latest one, stamped now, and is
        offered to every client in turn. */
    method BroadcastFrame(frame: seq<Byte>, now: int, ended: set<ClientId>, failing: set<ClientId>)
      requires Valid() && IsFrame(frame)
      modifies this
      ensures Valid()
      ensures Reg() == Clients.Broadcast(old(Reg()), now, ended, failing)
      ensures Pipe() == old(Pipe()).(latestFrame := Some(frame), lastFrameAt := now)
    {
      latestFrame := Some(frame);
      lastFrameAt := now;
      SoundAside(old(Pipe()), Pipe());
      ghost var r0 := Reg();
      ghost var p0 := Pipe();
      var todo := clients;
      Clients.VisitNone(r0, now, ended, failing);
      assert r0.clients - todo == {};
      while todo != {}
        invariant Valid() && Pipe() == p0
        invariant todo <= r0.clients
        invariant Reg() == Clients.Visit(r0, r0.clients - todo, now, ended, failing)
        decreases |todo|
      {
        var c :| c in todo;
        Clients.VisitStep(r0, r0.clients - todo, c, now, ended, failing);
        assert r0.clients - todo + {c} == r0.clients - (todo - {c});
        todo := todo - {c};
        Offer(c, now, ended, failing);
      }
    }

    /** Start a capture process for a device; it is not yet accounted for. */
    method Spawn(device: string) returns (p: ProcId)
      modifies this
      ensures p == old(nextProc) && nextProc == p + 1
      ensures procs == old(procs)[p := Capture(device, [], false)]
      ensures Reg() == old(Reg())
      ensures Pipe() == old(Pipe()).(procs := procs, nextProc := nextProc)
    {
      p := nextProc;
      nextProc := nextProc + 1;
      procs := procs[p := Capture(device, [], false)];
    }

    /** startPipeline: with a current process, nothing happens; otherwise the
        device becomes current, the janitor starts, a process is started for
        the device and becomes current, and the watchdog starts. */
    method StartPipeline(device: string)
      requires Valid()
      modifies this
      ensures Valid()
      ensures old(ff).Some? ==> Pipe() == old(Pipe()) && Reg() == old(Reg())
      ensures old(ff).None? ==>
        ff == Some(old(nextProc)) && old(nextProc) !in old(procs) &&
        Pipe() == old(Pipe()).(ff := ff, currentDevice := device, watchdogOn := true, janitorOn := true,
          procs := old(procs)[old(nextProc) := Capture(device, [], false)], nextProc := old(nextProc) + 1) &&
        Reg() == old(Reg())
    {
      if ff.Some? {
        return;
      }
      SoundStart(Pipe(), device);
      currentDevice := device;
      janitorOn := true;
      var p := Spawn(device);
      ff := Some(p);
      watchdogOn := true;
    }

    /** stopPipeline: the current process is killed and forgotten, the latest
        frame is dropped and both timers stop. Stopping a stopped pipeline
        changes nothing. */
    method StopPipeline()
      requires Valid()
      modifies this
      ensures Valid() && Stopped()
      ensures killed == old(killed) + (if old(ff).Some? then {old(ff).value} else {})
      ensures Pipe() == old(Pipe()).(ff := None, latestFrame := None, watchdogOn := false, janitorOn := false,
        killed := killed)
      ensures Reg() == old(Reg())
      ensures old(Stopped()) ==> Pipe() == old(Pipe())
    {
      SoundStop(Pipe());
      if ff.Some? {
        killed := killed + {ff.value};
        ff := None;
      }
      latestFrame := None;
      janitorOn := false;
      watchdogOn := false;
      assert Pipe() == old(Pipe()).(ff := None, latestFrame := None, watchdogOn := false, janitorOn := false,
        killed := old(killed) + (if old(ff).Some? then {old(ff).value} else {}));
    }

    /** hotSwapPipeline: with no current process, a plain start on the new
        device. Otherwise a new process is started for the device and waits for
        its first stdout chunk; the current process and device do not change
        yet. */
    method HotSwap(device: string) returns (temp: Option<ProcId>)
      requires Valid()
      modifies this
      ensures Valid()
      ensures Reg() == old(Reg())
      ensures old(ff).None? ==>
        temp.None? && ff == Some(old(nextProc)) && old(nextProc) !in old(procs) &&
        Pipe() == old(Pipe()).(ff := ff, currentDevice := device, watchdogOn := true, janitorOn := true,
          procs := old(procs)[old(nextProc) := Capture(device, [], false)], nextProc := old(nextProc) + 1)
      ensures old(ff).Some? ==>
        temp == Some(old(nextProc)) && old(nextProc) !in old(procs) &&
        Pipe() == old(Pipe()).(procs := old(procs)[old(nextProc) := Capture(device, [], false)],
          nextProc := old(nextProc) + 1, swaps := old(swaps)[old(nextProc) := Swap(device, Warming, false, Pending)])
    {
      if ff.None? {
        currentDevice := device;
        SoundAside(old(Pipe()), Pipe());
        StartPipeline(device);
        return None;
      }
      SoundSwapStart(Pipe(), device);
      var t := Spawn(device);
      swaps := swaps[t := Swap(device, Warming, false, Pending)];
      temp := Some(t);
    }

    /** POST /camera/switch: a missing device is refused; with clients and a
        current process the camera is hot-swapped; otherwise the pipeline is
        stopped and restarted on the device. */
    method SwitchCamera(device: string) returns (result: SwitchResult)
      requires Valid()
      modifies this
      ensures Valid()
      ensures Reg() == old(Reg())
      ensures device == "" ==> result == BadRequest && Pipe() == old(Pipe())
      ensures device != "" && |old(clients)| > 0 && old(ff).Some? ==>
        result == Swapping(old(nextProc)) &&
        Pipe() == old(Pipe()).(procs := old(procs)[old(nextProc) := Capture(device, [], false)],
          nextProc := old(nextProc) + 1, swaps := old(swaps)[old(nextProc) := Swap(device, Warming, false, Pending)])
      ensures device != "" && !(|old(clients)| > 0 && old(ff).Some?) ==>
        result == Restarted && ff == Some(old(nextProc)) && old(nextProc) !in old(procs) &&
        killed == old(killed) + (if old(ff).Some? then {old(ff).value} else {}) &&
        Pipe() == old(Pipe()).(ff := ff, currentDevice := device, latestFrame := None,
          watchdogOn := true, janitorOn := true, killed := killed,
          procs := old(procs)[old(nextProc) := Capture(device, [], false)], nextProc := old(nextProc) + 1)
    {
      if device == "" {
        return BadRequest;
      }
      if |clients| > 0 && ff.Some? {
        var t := HotSwap(device);
        return Swapping(t.value);
      }
      StopPipeline();
      StartPipeline(device);
      result := Restarted;
    }

    /** The frames of one chunk, broadcast one after another at the same
        instant: together they act as one broadcast, and the last one is the
        latest frame. */
    method BroadcastAll(frames: seq<seq<Byte>>, now: int, ended: set<ClientId>, failing: set<ClientId>)
      requires Valid() && forall f <- frames :: IsFrame(f)
      modifies this
      ensures Valid()
      ensures frames == [] ==> Reg() == old(Reg()) && Pipe() == old(Pipe())
      ensures frames != [] ==>
        Reg() == Clients.Broadcast(old(Reg()), now, ended, failing) &&
        Pipe() == old(Pipe()).(latestFrame := Some(frames[|frames| - 1]), lastFrameAt := now)
    {
      var i := 0;
      while i < |frames|
        invariant 0 <= i <= |frames|
        invariant Valid()
        invariant i == 0 ==> Reg() == old(Reg()) && Pipe() == old(Pipe())
        invariant i > 0 ==>
          Reg() == Clients.Broadcast(old(Reg()), now, ended, failing) &&
          Pipe() == old(Pipe()).(latestFrame := Some(frames[i - 1]), lastFrameAt := now)
      {
        if i > 0 {
          Clients.BroadcastIdempotent(old(Reg()), now, ended, failing);
        }
        BroadcastFrame(frames[i], now, ended, failing);
        i := i + 1;
      }
    }

    /** The one-time stdout listener of a hot swap's new process t: t becomes
        the current process, its device the current device, and the process it
        replaces waits for the grace delay. */
    method SwitchOver(t: ProcId)
      requires Valid() && t in swaps && swaps[t].phase == Warming
      modifies this
      ensures Valid()
      ensures Reg() == old(Reg())
      ensures Pipe() == old(Pipe()).(ff := Some(t), currentDevice := old(swaps[t].device),
        swaps := old(swaps)[t := old(swaps[t]).(phase := Grace(old(ff)))])
    {
      SoundSwitchOver(Pipe(), t);
      var previous := ff;
      ff := Some(t);
      currentDevice := swaps[t].device;
      swaps := swaps[t := swaps[t].(phase := Grace(previous))];
    }

    /** A stdout chunk of process p: its frames are extracted from its buffer
        and broadcast one after another; then, if p is a hot swap's new process
        still warming up, it switches over. The pipe may deliver a chunk after
        the process's exit event, so p need only have been started. */
    method Stdout(p: ProcId, chunk: seq<Byte>, now: int, ended: set<ClientId>, failing: set<ClientId>)
      returns (frames: seq<seq<Byte>>)
      requires Valid() && p in procs
      modifies this
      ensures Valid()
      ensures p in procs && Extraction(frames, procs[p].localBuf) == Scan(old(procs[p].localBuf) + chunk, false)
      ensures procs == old(procs)[p := old(procs[p]).(localBuf := procs[p].localBuf)]
      ensures forall f <- frames :: IsFrame(f)
      ensures frames == [] ==>
        Reg() == old(Reg()) && latestFrame == old(latestFrame) && lastFrameAt == old(lastFrameAt)
      ensures frames != [] ==>
        Reg() == Clients.Broadcast(old(Reg()), now, ended, failing) &&
        latestFrame == Some(frames[|frames| - 1]) && lastFrameAt == now
      ensures old(p in swaps && swaps[p].phase == Warming) ==>
        ff == Some(p) && currentDevice == old(swaps[p].device) &&
        swaps == old(swaps)[p := old(swaps[p]).(phase := Grace(old(ff)))]
      ensures !old(p in swaps && swaps[p].phase == Warming) ==>
        ff == old(ff) && currentDevice == old(currentDevice) && swaps == old(swaps)
      ensures killed == old(killed) && nextProc == old(nextProc)
      ensures watchdogOn == old(watchdogOn) && janitorOn == old(janitorOn)
    {
      var rest;
      frames, rest := Feed(procs[p].localBuf, chunk, false);
      SoundFeed(Pipe(), p, rest);
      procs := procs[p := procs[p].(localBuf := rest)];
      BroadcastAll(frames, now, ended, failing);
      if p in swaps && swaps[p].phase == Warming {
        SwitchOver(p);
      }
    }

    /** A process exits: if it is the current one, there is no current process
        any more; otherwise the current process stays. */
    method Exit(p: ProcId)
      requires Valid() && Live(p)
      modifies this
      ensures Valid() && !Live(p)
      ensures old(ff) == Some(p) ==> ff.None?
      ensures old(ff) != Some(p) ==> ff == old(ff)
      ensures procs == old(procs)[p := old(procs[p]).(exited := true)]
      ensures Pipe() == old(Pipe()).(ff := ff, procs := procs)
      ensures Reg() == old(Reg())
    {
      SoundExit(Pipe(), p);
      procs := procs[p := procs[p].(exited := true)];
      if ff == Some(p) {
        ff := None;
      }
    }

    /** The one-time error listener of a hot swap's new process: that process
        is killed and the swap's promise is rejected if it was still pending.
        The current process, the device and the clients are left alone. */
    method SpawnError(t: ProcId)
      requires Valid() && t in swaps && !swaps[t].errorSeen
      modifies this
      ensures Valid()
      ensures killed == old(killed) + {t}
      ensures swaps == old(swaps)[t := old(swaps[t]).(errorSeen := true,
        outcome := if old(swaps[t].outcome) == Pending then Rejected else old(swaps[t].outcome))]
      ensures Pipe() == old(Pipe()).(killed := killed, swaps := swaps)
      ensures Reg() == old(Reg())
    {
      var s := swaps[t];
      var s' := s.(errorSeen := true, outcome := if s.outcome == Pending then Rejected else s.outcome);
      SoundSpawnError(Pipe(), t, s');
      killed := killed + {t};
      swaps := swaps[t := s'];
    }

    /** The grace delay of a switched-over hot swap elapses: the previous
        process, if there was one, is killed, and the promise is resolved if it
        was still pending. */
    method GraceElapsed(t: ProcId)
      requires Valid() && t in swaps && swaps[t].phase.Grace?
      modifies this
      ensures Valid()
      ensures killed == old(killed) + (if old(swaps[t].phase.victim).Some? then {old(swaps[t].phase.victim).value} else {})
      ensures swaps == old(swaps)[t := old(swaps[t]).(phase := Finished,
        outcome := if old(swaps[t].outcome) == Pending then Resolved else old(swaps[t].outcome))]
      ensures Pipe() == old(Pipe()).(killed := killed, swaps := swaps)
      ensures Reg() == old(Reg())
    {
      var s := swaps[t];
      var outcome := if s.outcome == Pending then Resolved else s.outcome;
      SoundGrace(Pipe(), t, outcome);
      if s.phase.victim.Some? {
        killed := killed + {s.phase.victim.value};
      }
      swaps := swaps[t := s.(phase := Finished, outcome := outcome)];
      assert Pipe() == old(Pipe()).(killed := old(killed) + (if s.phase.victim.Some? then {s.phase.victim.value} else {}),
        swaps := old(swaps)[t := old(swaps)[t].(phase := Finished, outcome := outcome)]);
    }

    /** The watchdog tick: with clients and no frame for more than five
        seconds, the pipeline is stopped and started again on the current
        device; otherwise nothing happens. The restart does not move
        lastFrameAt, so until a frame arrives every later tick restarts again. */
    method WatchdogTick(now: int) returns (restarted: bool)
      requires Valid() && watchdogOn
      modifies this
      ensures Valid()
      ensures restarted <==> |old(clients)| > 0 && now - old(lastFrameAt) > WATCHDOG_SILENCE_MS
      ensures !restarted ==> Pipe() == old(Pipe()) && Reg() == old(Reg())
      ensures restarted ==>
        ff == Some(old(nextProc)) && old(nextProc) !in old(procs) &&
        killed == old(killed) + (if old(ff).Some? then {old(ff).value} else {}) &&
        Pipe() == old(Pipe()).(ff := ff, latestFrame := None, killed := killed, janitorOn := true,
          procs := old(procs)[old(nextProc) := Capture(old(currentDevice), [], false)],
          nextProc := old(nextProc) + 1) &&
        Reg() == old(Reg())
    {
      if |clients| == 0 {
        return false;
      }
      var since := now - lastFrameAt;
      if since > WATCHDOG_SILENCE_MS {
        StopPipeline();
        StartPipeline(currentDevice);
        return true;
      }
      return false;
    }

    /** The janitor's first pass: the registered clients that are dead. */
    method CollectDead(dead: set<ClientId>) returns (deadClients: set<ClientId>)
      ensures deadClients == clients * dead
    {
      deadClients := {};
      var todo := clients;
      while todo != {}
        invariant todo <= clients
        invariant deadClients == (clients - todo) * dead
        decreases |todo|
      {
        var c :| c in todo;
        todo := todo - {c};
        if c in dead {
          deadClients := deadClients + {c};
        }
      }
    }

    /** The janitor's second pass: each collected client is removed. */
    method RemoveAll(doomed: set<ClientId>)
      requires Valid()
      modifies this
      ensures Valid()
      ensures Reg() == Clients.Prune(old(Reg()), doomed)
      ensures Pipe() == old(Pipe())
    {
      var pending := doomed;
      Clients.PruneNone(old(Reg()));
      assert doomed - pending == {};
      while pending != {}
        invariant Valid() && Pipe() == old(Pipe())
        invariant pending <= doomed
        invariant Reg() == Clients.Prune(old(Reg()), doomed - pending)
        decreases |pending|
      {
        var c :| c in pending;
        Clients.PruneStep(old(Reg()), doomed - pending, c);
        assert doomed - pending + {c} == doomed - (pending - {c});
        pending := pending - {c};
        RemoveClient(c);
      }
    }

    /** The janitor tick: every dead client is removed; if no client is left,
        the pipeline is stopped. */
    method JanitorTick(dead: set<ClientId>) returns (stopped: bool)
      requires Valid() && janitorOn
      modifies this
      ensures Valid()
      ensures Reg() == Clients.Prune(old(Reg()), dead)
      ensures stopped <==> old(clients) <= dead
      ensures stopped ==> Stopped()
      ensures stopped ==> killed == old(killed) + (if old(ff).Some? then {old(ff).value} else {})
      ensures stopped ==> Pipe() == old(Pipe()).(ff := None, latestFrame := None, watchdogOn := false,
        janitorOn := false, killed := killed)
      ensures !stopped ==> Pipe() == old(Pipe())
    {
      var deadClients := CollectDead(dead);
      RemoveAll(deadClients);
      assert Clients.Prune(old(Reg()), deadClients) == Clients.Prune(old(Reg()), dead);
      stopped := |clients| == 0;
      if stopped {
        StopPipeline();
      }
    }

    /** Writing the latest frame to client c, as the heartbeat and a new
        /preview request both do: without a latest frame nothing happens;
        otherwise c is stamped with now, or removed if the write fails. */
    method WriteLatest(c: ClientId, now: int, fails: bool) returns (ok: bool)
      requires Valid() && c in clients
      modifies this
      ensures Valid()
      ensures ok <==> !(old(latestFrame).Some? && fails)
      ensures Pipe() == old(Pipe())
      ensures old(latestFrame).None? ==> Reg() == old(Reg())
      ensures old(latestFrame).Some? && fails ==> Reg() == Clients.Remove(old(Reg()), c)
      ensures old(latestFrame).Some? && !fails ==> Reg() == Clients.Stamp(old(Reg()), c, now)
    {
      if latestFrame.None? {
        return true;
      }
      if fails {
        RemoveClient(c);
        return false;
      }
      if c in clientMeta {
        clientMeta := clientMeta[c := clientMeta[c].(lastSent := now)];
      }
      return true;
    }

    /** The heartbeat of client c, which runs while c is registered. */
    method HeartbeatTick(c: ClientId, now: int, fails: bool)
      requires Valid() && c in clients
      modifies this
      ensures Valid()
      ensures Pipe() == old(Pipe())
      ensures old(latestFrame).None? ==> Reg() == old(Reg())
      ensures old(latestFrame).Some? && fails ==> Reg() == Clients.Remove(old(Reg()), c)
      ensures old(latestFrame).Some? && !fails ==> Reg() == Clients.Stamp(old(Reg()), c, now)
    {
      var _ := WriteLatest(c, now, fails);
    }

    /** Registering client c with rate fps, never served yet. */
    method AddClient(c: ClientId, fps: real)
      requires Valid() && c !in clients && 0.0 <= fps <= 60.0
      modifies this
      ensures Valid()
      ensures Reg() == Clients.Register(old(Reg()), c, fps)
      ensures Pipe() == old(Pipe())
    {
      clients := clients + {c};
      clientMeta := clientMeta[c := Meta(fps, 0)];
    }

    /** GET /preview: the client is registered with its clamped rate; it is
        sent the latest frame if there is one, and a failed write removes it
        again and ends the request. Otherwise the pipeline is started if no
        process is current. */
    method Connect(c: ClientId, parsedFps: Number, now: int, writeFails: bool) returns (accepted: bool)
      requires Valid() && c !in clients
      modifies this
      ensures Valid()
      ensures accepted <==> !(old(latestFrame).Some? && writeFails)
      ensures !accepted ==> Reg() == old(Reg()) && Pipe() == old(Pipe())
      ensures accepted ==> ff.Some? && c in clients && clientMeta[c].fps == ClampFps(parsedFps)
      ensures accepted ==> (Reg() ==
        var r := Clients.Register(old(Reg()), c, ClampFps(parsedFps));
        if old(latestFrame).Some? then Clients.Stamp(r, c, now) else r)
      ensures accepted && old(ff).Some? ==> Pipe() == old(Pipe())
      ensures accepted && old(ff).None? ==>
        ff == Some(old(nextProc)) && old(nextProc) !in old(procs) &&
        Pipe() == old(Pipe()).(ff := ff, watchdogOn := true, janitorOn := true,
          procs := old(procs)[old(nextProc) := Capture(old(currentDevice), [], false)], nextProc := old(nextProc) + 1)
    {
      var fps := ClampFps(parsedFps);
      AddClient(c, fps);
      accepted := WriteLatest(c, now, writeFails);
      if !accepted {
        Clients.RemoveRegistered(old(Reg()), c, fps);
        return;
      }
      StartPipeline(currentDevice);
    }
  }

  /** The first step of StrandedSwap: one client connected, served by
      process 0 on device "0:none". */
  method Connected() returns (s: PreviewServer)
    ensures fresh(s) && s.Valid() && s.clients == {0} && s.ff == Some(0)
    ensures s.janitorOn && s.watchdogOn && s.nextProc == 1 && s.swaps == map[]
  {
    s := new PreviewServer("0:none");
    var accepted := s.Connect(0, Finite(0.0), 0, false);
    assert s.Reg().clients == {0};
  }

  /** The state of StrandedSwap halfway: the same client, and a hot swap to
      "1:none" warming up in process 1. */
  method SwapUnderWay() returns (s: PreviewServer)
    ensures fresh(s) && s.Valid() && s.clients == {0} && s.ff == Some(0) && s.janitorOn && s.watchdogOn
    ensures s.Live(1) && 1 in s.swaps && s.swaps[1].phase == Warming
  {
    s := Connected();
    var result := s.SwitchCamera("1:none");
  }

  /** A reachable state: a hot swap is under way when the last client goes
      away; the janitor stops the pipeline, and then the swap's new process
      sends its first chunk and becomes the current process. It keeps running
      with no client, no watchdog and no janitor, and a later /preview request
      finds a current process and starts neither timer. */
  method StrandedSwap() returns (s: PreviewServer)
    ensures s.Valid() && s.clients == {} && s.ff == Some(1) && !s.watchdogOn && !s.janitorOn
  {
    s := SwapUnderWay();
    var stopped := s.JanitorTick({0});
    assert s.clients == {} && !s.watchdogOn && !s.janitorOn;
    assert s.Live(1) && s.swaps[1].phase == Warming;
    var frames := s.Stdout(1, [0], 0, {}, {});
  }

  /** A hot swap's process exits before its last chunk is delivered, and
      that chunk makes it the current process: the exit handler has already
      run, so the current process is one that has exited. */
  method ExitedCurrent() returns (s: PreviewServer)
    ensures s.Valid() && s.ff == Some(1) && !s.Live(1) && s.clients == {0}
  {
    s := SwapUnderWay();
    s.Exit(1);
    var frames := s.Stdout(1, [0], 0, {}, {});
  }
}
