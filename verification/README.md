# kiosk-stream preview pipeline, modelled in Dafny

kiosk-stream's server (`server/index.js`) runs an ffmpeg capture process and
re-broadcasts its motion-JPEG output to every open `GET /preview` response. This
project models the in-memory core of that preview pipeline and proves properties
of it:

- `frames.dfy` (module `Frames`): the JPEG frame extractor of each capture
  process (`onStdout`). `Feed` is its `while (true)` loop over the process's
  buffer. The function `Scan` says what one call computes. The lemmas show:
  - every emitted frame runs from a start-of-image marker (FF D8) to the first
    end-of-image marker (FF D9) after it, and is at least four bytes long;
  - the frames are disjoint, in-order slices of the buffer;
  - the kept bytes are a suffix of what follows the last frame, and the
    bytes skipped before them hold no FF D8;
  - with the correction described under Findings, how the stream is cut into
    chunks does not matter.
- `clients.dfy` (module `Clients`): the registry of preview clients (the
  `clients` set and the `clientMeta` map), `removeClient`, the `?fps=` clamp,
  the per-client throttle, and what one `broadcastFrame` does to the registry.
- `supervisor.dfy` (module `Supervisor`): class `PreviewServer` holds the
  server's module-level state and has one method per callback:
  - `/preview` connect, the heartbeat, a stdout chunk, a process exit, a hot
    swap's error listener and its 100 ms grace delay;
  - the watchdog and janitor ticks, and `POST /camera/switch`.

  The server runs the extractor as written. Its invariant (`Valid`) also says
  that, between callbacks, no running capture process is orphaned. A
  process is covered if it was killed, it is current, it is a hot swap still
  warming up, or a hot swap is about to kill it.
- `devices.dfy` (module `Devices`): the loop that reads ffmpeg's device listing
  (`listAvfoundationVideoDevices`, `GET /cameras`, `GET /camera/current`), and
  `resolveCameraName`. `resolveCameraName` is defined in `server/index.js` but
  nothing in the file calls it.
- `numbers.dfy` (module `Numbers`): JavaScript's `Number()` results,
  `Math.min`, `Math.max` and `n || 0`.
- `wrappers.dfy`: `Option`.

Capture processes are ids. Starting one allocates the next id. `kill()` is
recorded in the `killed` set, and a process leaves only through its own exit
event. The current time, the fate of each write (ended, destroyed or failing),
the janitor's view of dead sockets, JavaScript's `Number()` on a string and the
device-line regular expression are all parameters.

What the proofs expose about the code:

- `PreviewServer.Stdout` and `WatchdogTick`: during a hot swap, both the old and
  the new process feed `broadcastFrame` until the old one's output ends, which
  can be after it is killed: `kill()` only sends a signal. The swap
  happens on the new process's first stdout chunk, which need not hold a frame.
- `PreviewServer.WatchdogTick`: a watchdog restart does not move `lastFrameAt`.
  So, while clients stay connected and no frame arrives, every later tick
  restarts the pipeline again.
- `Supervisor.StrandedSwap`: this state is reachable.
  1. A hot swap is under way.
  2. The last client goes away, and the janitor stops the pipeline.
  3. The swap's new process then sends its first chunk and becomes the current
     process.

  It keeps running with no client and no timers. A later `/preview` request
  finds a current process and starts neither the watchdog nor the janitor.
- `Supervisor.ExitedCurrent`: a pipe can deliver a chunk after its process's
  exit event. If that process is a hot swap still warming up, the chunk makes
  it the current process after the exit handler has run. So `ff` names a
  process that has exited, until a stop, a watchdog restart or a later hot
  swap's switch-over replaces it.

Points where one might expect other behaviour, and what the code does:

- A switch-over could redirect the feed from the old process to the new one;
  the code redirects nothing and only changes `ff`.
- A capture process that exits could trigger a restart; the code's exit handler
  only forgets the current process.
- The janitor stops the pipeline whenever no client is left after pruning, also
  when the registry was already empty.
- The watchdog restarts on every tick while the stream is stale, not exactly
  once.

## Model

| member | source | states |
|---|---|---|
| Frames.IndexOf | server/index.js:341-346 | `Buffer.indexOf` on a two-byte marker: the first position at or after `from` where the marker starts, or -1 when there is none |
| Frames.Feed | server/index.js:337-355 | the extractor on old buffer ++ chunk returns the frames and new buffer that `Scan` defines. Every frame is a complete frame and the new buffer is a pending tail. Without a start marker and as written, nothing is emitted and nothing kept. With a start marker but no end marker, nothing is emitted and exactly the bytes from that marker are kept |
| Frames.ScanNoStart | server/index.js:341-345 | a buffer without FF D8 yields no frame, and keeps nothing as written (only a trailing 0xFF under the correction) |
| Frames.ScanUnfinished | server/index.js:346-349 | FF D8 with no FF D9 from two bytes after it: no frame, and the buffer becomes exactly the bytes from that FF D8 on |
| Frames.ScanCut | server/index.js:346-353 | with both markers, the slice from the FF D8 through the FF D9 is emitted first, and the scan goes on with exactly the bytes after that FF D9 |
| Frames.ScanFramesAreFrames | server/index.js:341-353 | every emitted frame is at least four bytes long, starts with FF D8, ends with FF D9, and holds no earlier FF D9 from its third byte on |
| Frames.ScanRestIsPending | server/index.js:339-349 | what the extractor keeps is empty, a lone 0xFF (corrected only), or an unfinished frame: FF D8 with no FF D9 after it |
| Frames.ScanLayout | server/index.js:339-353 | the buffer is the emitted frames, in order and disjoint, separated by gaps that hold no FF D8, followed by the kept bytes |
| Frames.SplitStartMarkerLosesFrame | server/index.js:341-344 | as written, the chunks [FF] and [D8 FF D9] emit no frame, while their concatenation is one complete frame |
| Frames.ChunkingInvariant | server/index.js:338-355 | with the correction, scanning x and then the kept bytes followed by z gives exactly the frames and kept bytes of scanning x ++ z at once |
| Clients.ClampFps | server/index.js:466 | the rate is always in [0, 60]: a rate inside that range is kept; +∞ or anything above 60 gives 60; NaN, a missing value, −∞ or a negative value gives 0 |
| Clients.ThrottledByProduct | server/index.js:278-280 | for fps > 0, the throttle test `now − lastSent < 1000 / fps` holds exactly when `(now − lastSent) · fps < 1000` |
| Clients.Register | server/index.js:478-479 | a new client joins with its rate and `lastSent` 0. Every other client's entry is unchanged |
| Clients.Remove | server/index.js:256-263 | afterwards the client is in neither `clients` nor `clientMeta`. Every other client keeps its membership and entry. An unregistered client changes nothing |
| Clients.Stamp | server/index.js:292-293 | only the written client's `lastSent` becomes now; the client set is unchanged |
| Clients.Prune | server/index.js:668-671 | exactly the clients not in `dead` remain, each with its entry unchanged |
| Clients.PruneStep | server/index.js:670 | removing the dead clients one at a time is pruning them all |
| Clients.RemoveRegistered | server/index.js:478-479 | a client registered and then removed (failed first write) leaves the registry as it was |
| Clients.Broadcast | server/index.js:275-298 | a client stays iff it is throttled or neither ended nor failing. A throttled client keeps its entry, every other remaining client gets `lastSent = now`, and no client is added |
| Clients.VisitStep | server/index.js:275-297 | one turn of the loop: a throttled client is skipped, an ended or failing one is removed (and only it), any other is stamped |
| Clients.BroadcastIdempotent | server/index.js:272-298 | broadcasting a second time at the same instant changes nothing more: the frames of one chunk act as one broadcast |
| Clients.RateLimit | server/index.js:278-292 | a client last served at t with rate fps > 0 is skipped, and keeps its stamp, by every broadcast before t + 1000 / fps. The first broadcast after that serves it unless it ended or fails |
| Supervisor.SoundStop | server/index.js:407-419 | stopping keeps every running process covered (the forgotten current process is killed) |
| Supervisor.SoundStart | server/index.js:399-405 | starting without a current process keeps the invariant: the new process is current |
| Supervisor.SoundSwapStart | server/index.js:429-430 | a hot swap's new process is covered while it warms up |
| Supervisor.SoundFeed | server/index.js:338-352 | replacing any started process's buffer (even one that has exited) by what the extractor as written keeps keeps the invariant |
| Supervisor.SoundSwitchOver | server/index.js:435-447 | switching over keeps the invariant: the new process is current and the replaced one waits for the grace delay |
| Supervisor.SoundExit | server/index.js:362-367 | a process exit keeps the invariant |
| Supervisor.SoundSpawnError | server/index.js:455-460 | the swap's error listener keeps the invariant: its process is killed |
| Supervisor.SoundGrace | server/index.js:442-447 | the grace delay's kill keeps the invariant |
| Supervisor.PreviewServer.constructor | server/index.js:242-254 | at start-up: no client, no process, no latest frame, both timers off, `lastFrameAt` 0, the configured device |
| Supervisor.PreviewServer.RemoveClient | server/index.js:256-270 | the registry becomes `Remove` of the old one; nothing else changes |
| Supervisor.PreviewServer.Offer | server/index.js:276-297 | one client's turn in `broadcastFrame`: skipped if throttled; removed if ended or the write fails; otherwise stamped with now |
| Supervisor.PreviewServer.BroadcastFrame | server/index.js:272-299 | `latestFrame` becomes the frame and `lastFrameAt` now. The registry becomes `Broadcast` of the old one. Nothing else changes |
| Supervisor.PreviewServer.Spawn | server/index.js:335-337 | a fresh process id with an empty buffer is allocated; nothing else changes |
| Supervisor.PreviewServer.StartPipeline | server/index.js:399-405 | with a current process nothing changes. Otherwise the device becomes current, a new process is started and becomes current, and both timers are on |
| Supervisor.PreviewServer.StopPipeline | server/index.js:407-419 | no current process, no latest frame, both timers off, and the old current process killed. Stopping a stopped pipeline changes nothing |
| Supervisor.PreviewServer.HotSwap | server/index.js:421-462 | with no current process, a plain start on the new device: a fresh process on that device becomes current, both timers are on, and nothing else changes. Otherwise one new warming process is started, and the current process, the device and the clients are unchanged |
| Supervisor.PreviewServer.SwitchCamera | server/index.js:150-182 | an empty device is refused with nothing changed. With clients and a current process, a hot swap. Otherwise stop then start: the old current process is killed, the latest frame dropped, a fresh process on the device becomes current and both timers are on; `lastFrameAt` and the swaps are unchanged. The clients are never touched |
| Supervisor.PreviewServer.BroadcastAll | server/index.js:338-354 | the frames of one chunk together act as one `Broadcast`, and the last of them is the latest frame |
| Supervisor.PreviewServer.SwitchOver | server/index.js:433-451 | the warming swap's process becomes current and its device the current device. The previous current process waits for the grace delay. Nothing else changes |
| Supervisor.PreviewServer.Stdout | server/index.js:337-355 | for any started process, even one that has exited, the buffer and emitted frames are those of `Scan` as written, and the frames are broadcast. `ff` and the device change only if this process is a warming hot swap. Timers, kills and other processes are unchanged |
| Supervisor.PreviewServer.Exit | server/index.js:362-367 | the process is marked exited. `ff` becomes null only if it was that process; otherwise `ff` is unchanged |
| Supervisor.PreviewServer.SpawnError | server/index.js:455-460 | the swap's process is killed and its promise rejected if still pending. `ff`, the device and every client are unchanged |
| Supervisor.PreviewServer.GraceElapsed | server/index.js:442-447 | the replaced process (if any) is killed, and the swap's promise is resolved if still pending |
| Supervisor.PreviewServer.WatchdogTick | server/index.js:374-389 | a restart happens iff there are clients and now − `lastFrameAt` > 5000. It is a stop then a start on the current device, and `lastFrameAt` is not moved. Otherwise nothing changes |
| Supervisor.PreviewServer.CollectDead | server/index.js:654-666 | the dead clients collected are exactly the registered clients reported dead |
| Supervisor.PreviewServer.RemoveAll | server/index.js:668-671 | removing each collected client prunes exactly those clients |
| Supervisor.PreviewServer.JanitorTick | server/index.js:653-677 | the dead clients are pruned. The pipeline is stopped iff no client is left: the current process is killed, the latest frame dropped and both timers turned off. Otherwise the pipeline is unchanged |
| Supervisor.PreviewServer.WriteLatest | server/index.js:504-517 | without a latest frame nothing happens. Otherwise the client is stamped with now, or removed if the write fails. The pipeline is unchanged |
| Supervisor.PreviewServer.HeartbeatTick | server/index.js:487-500 | without a latest frame nothing happens. Otherwise the client is stamped, or removed if the write fails |
| Supervisor.PreviewServer.AddClient | server/index.js:478-479 | the registry becomes `Register` of the old one with the clamped rate |
| Supervisor.PreviewServer.Connect | server/index.js:464-528 | a new client is registered with the clamped rate and sent the latest frame if there is one. A failed first write leaves everything as it was. Otherwise the pipeline is started if no process was current |
| Supervisor.Connected | server/index.js:464-528 | from start-up, one connecting client starts process 0 with both timers on |
| Supervisor.SwapUnderWay | server/index.js:164-165 | a camera switch with that client connected starts process 1 warming, and leaves process 0 current |
| Supervisor.StrandedSwap | server/index.js:433-451 | after the janitor stops the pipeline mid-swap and the swap's process then sends a chunk, process 1 is current with no client and both timers off |
| Supervisor.ExitedCurrent | server/index.js:362-367 | a warming hot swap's process that exits and then delivers a chunk becomes current although it has exited |
| Devices.ScanVideoSection | server/index.js:42-69 | the cameras found are exactly the matches of the camera lines after a video header, in order, up to the first audio header |
| Devices.PickedMembers | server/index.js:45-68 | a match is found iff some line of the video section before the stop is a camera line with that match |
| Devices.PickedStops | server/index.js:53-58 | nothing at or after the audio header is listed |
| Devices.ToEntry | server/index.js:125-129 | a `/cameras` entry has the line's index and name, and its device string's index field is the line's own digits, so switching to it selects that camera |
| Devices.IndexField | server/index.js:77 | `split(":")[0]`: the longest colon-free prefix, followed by a colon unless it is the whole string |
| Devices.FindCurrentName | server/index.js:205-231 | no name iff no line of the video section names the index. Otherwise the name is from the first such line |
| Devices.ResolveCameraName | server/index.js:75-85 | a non-finite index or a failed listing gives null. Otherwise the name is that of the first listed camera with the index, unless that name is empty, in which case null |
| Devices.LookupAgreesWithListing | server/index.js:209-230 | when every matching line carries the entry's "] [", the current-camera lookup and the camera listing know the same indexes |

## Left out

- Spawning ffmpeg, its stdout/stderr streams and `kill()`: processes are ids, stdout chunks are events, and kills are recorded in `killed`.
- The express routing, response headers, multipart boundary strings and the bytes written: a write is an abstract action that succeeds or fails (`ended`, `failing`, `fails`).
- `res.end()` inside `removeClient`, and the heartbeat interval handle: the registry forgets the client and the heartbeat stops with it (`HeartbeatTick` requires the client to be registered).
- `setInterval`/`setTimeout` scheduling and the Promise of `hotSwapPipeline`: each callback is one atomic method, which a timer fires only while it is on. The Promise is the `outcome` of a swap.
- `Date.now()`: a parameter `now`.
- Clients.Broadcast: all the `Date.now()` calls of one broadcast read the same `now`.
- Supervisor.PreviewServer.BroadcastAll: all the frames of one stdout chunk are broadcast with the same `now` and the same ended and failing clients, whereas the code reads the clock, and writes, anew for each frame.
- Clients.Throttled: `1000 / fps` and the comparison are exact rational arithmetic, not IEEE doubles.
- The global `buf` reset by `stopPipeline`: it is never read, so it is not part of the state.
- The iteration order of the JavaScript `Set` of clients: each client's outcome depends only on its own entry, so the registry is a set and `Broadcast` is order-free.
- The `clientMeta.get(res) || { fps: 0, lastSent: 0 }` fallback: the registry invariant gives every client an entry, so it never applies.
- A non-string `device` in `POST /camera/switch` (only the empty string is refused), and the 500 answer to a failed hot swap: the model returns the swap's process, and the outcome is kept in the swap.
- The 'error' event of a non-swap capture process: it only logs.
- Devices.ScanVideoSection: the regular expression `/\[(\d+)\]\s+(.+)/`, `trim()` and `Number()` on a string are parameters (`Matcher`, `toNumber`), not interpreted.
- Devices.DigitsValue: `parseInt` is exact, whereas JavaScript loses precision on indexes beyond 2^53.
- Devices.ResolveCameraName: the stderr text is taken already split into lines. The listing process failing, or throwing, is the `None` listing.
- The still-capture endpoints, static file serving, the filesystem, logging and the process-level exception handlers.

## Findings

| source | as written | input that shows it | evidently intended | confidence | as-written member | corrected member |
|---|---|---|---|---|---|---|
| server/index.js:341-344 | a buffer with no FF D8 is emptied, even when its last byte is the 0xFF of a start marker whose D8 arrives in the next chunk | stdout chunks [FF] then [D8 FF D9]: no frame is emitted, while [FF D8 FF D9] is one frame | keep a trailing 0xFF, so the frames do not depend on how the stream is cut into chunks | not executed | Frames.SplitStartMarkerLosesFrame | Frames.ChunkingInvariant |
