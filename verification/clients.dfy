/** The preview clients: the set of open /preview responses, each with its
    throttle settings, and what broadcasting one frame does to them. */
module Clients {
  import opened Numbers

  /** An open /preview response (the response object in the server). */
  type ClientId = nat

  /** Per-client settings: the requested frame rate (0 means unthrottled) and
      the time, in milliseconds, of the last frame written to it. */
  datatype Meta = Meta(fps: real, lastSent: int)

  /** The frame rate a /preview request asks for: Number(fps) || 0, clamped to
      [0, 60]. A missing, empty or malformed value means unthrottled. */
  function ClampFps(parsed: Number): (fps: real)
    ensures 0.0 <= fps <= 60.0
    ensures parsed.Finite? && 0.0 <= parsed.value <= 60.0 ==> fps == parsed.value
    ensures parsed.PosInfinity? || (parsed.Finite? && parsed.value > 60.0) ==> fps == 60.0
    ensures parsed.NaN? || parsed.NegInfinity? || (parsed.Finite? && parsed.value < 0.0) ==> fps == 0.0
  {
    var n := Max(Finite(0.0), Min(Finite(60.0), OrZero(parsed)));
    if n.Finite? then n.value else 0.0
  }

  /** A client that asked for fps > 0 and was served less than 1000 / fps
      milliseconds ago gets no frame now. */
  predicate Throttled(m: Meta, now: int)
  {
    m.fps > 0.0 && ((now - m.lastSent) as real) < 1000.0 / m.fps
  }

  /** For a positive rate, the throttle compares without dividing: the
      client is throttled exactly when (now - lastSent) * fps < 1000. */
  lemma ThrottledByProduct(m: Meta, now: int)
    requires m.fps > 0.0
    ensures Throttled(m, now) <==> ((now - m.lastSent) as real) * m.fps < 1000.0
  {
    BelowQuotient((now - m.lastSent) as real, 1000.0, m.fps);
  }

  /** For a positive f, d < n / f exactly when d * f < n. */
  lemma BelowQuotient(d: real, n: real, f: real)
    requires f > 0.0
    ensures d < n / f <==> d * f < n
  {
    var q := n / f;
    assert q * f == n;
    if d < q {
      assert (q - d) * f > 0.0;
    } else {
      assert (d - q) * f >= 0.0;
    }
  }

  /** The registry: the open clients and their settings. */
  datatype Registry = Registry(clients: set<ClientId>, meta: map<ClientId, Meta>)

  /** Every client has settings and nothing else has; every rate is clamped. */
  predicate Valid(r: Registry)
  {
    r.clients == r.meta.Keys && forall c | c in r.meta :: 0.0 <= r.meta[c].fps <= 60.0
  }

  /** No client yet. */
  const Empty := Registry({}, map[])

  /** A new client with rate fps that has never been served. */
  function Register(r: Registry, c: ClientId, fps: real): (r': Registry)
    requires Valid(r) && c !in r.clients && 0.0 <= fps <= 60.0
    ensures Valid(r') && r'.clients == r.clients + {c}
    ensures r'.meta[c] == Meta(fps, 0)
    ensures forall d | d in r.clients :: r'.meta[d] == r.meta[d]
  {
    Registry(r.clients + {c}, r.meta[c := Meta(fps, 0)])
  }

  /** removeClient: forget the client and its settings; a client that is not
      registered changes nothing. */
  function Remove(r: Registry, c: ClientId): (r': Registry)
    requires Valid(r)
    ensures Valid(r')
    ensures c !in r'.clients && c !in r'.meta
    ensures forall d | d != c :: (d in r'.clients <==> d in r.clients)
    ensures forall d | d != c && d in r.meta :: r'.meta[d] == r.meta[d]
    ensures c !in r.clients ==> r' == r
  {
    if c !in r.clients then r else Registry(r.clients - {c}, r.meta - {c})
  }

  /** A frame was written to c at time now. */
  function Stamp(r: Registry, c: ClientId, now: int): (r': Registry)
    requires Valid(r)
    ensures Valid(r') && r'.clients == r.clients
    ensures c in r.meta ==> r'.meta[c] == r.meta[c].(lastSent := now)
    ensures forall d | d != c && d in r.meta :: r'.meta[d] == r.meta[d]
  {
    if c in r.meta then Registry(r.clients, r.meta[c := r.meta[c].(lastSent := now)]) else r
  }

  /** The registry without the clients in `dead` (the janitor's pruning). */
  function Prune(r: Registry, dead: set<ClientId>): (r': Registry)
    requires Valid(r)
    ensures Valid(r')
    ensures forall c :: c in r'.clients <==> c in r.clients && c !in dead
    ensures forall c | c in r'.clients :: r'.meta[c] == r.meta[c]
  {
    Registry(r.clients - dead, map c | c in r.meta.Keys - dead :: r.meta[c])
  }

  /** Pruning one more client is removing it. */
  lemma PruneStep(r: Registry, dead: set<ClientId>, c: ClientId)
    requires Valid(r)
    ensures Prune(r, dead + {c}) == Remove(Prune(r, dead), c)
  {
    var x := Prune(r, dead + {c});
    var y := Remove(Prune(r, dead), c);
    assert x.clients == y.clients;
    assert x.meta == y.meta;
  }

  /** Pruning nothing changes nothing. */
  lemma PruneNone(r: Registry)
    requires Valid(r)
    ensures Prune(r, {}) == r
  {
    assert Prune(r, {}).meta == r.meta;
  }

  /** A client registered and then removed leaves no trace. */
  lemma RemoveRegistered(r: Registry, c: ClientId, fps: real)
    requires Valid(r) && c !in r.clients && 0.0 <= fps <= 60.0
    ensures Remove(Register(r, c, fps), c) == r
  {
    var x := Remove(Register(r, c, fps), c);
    assert x.clients == r.clients;
    assert x.meta == r.meta;
  }

  /** Whether broadcasting drops client c: it is not throttled, and its
      response has ended or been destroyed, or writing to it fails. */
  predicate Drops(m: Meta, c: ClientId, now: int, ended: set<ClientId>, failing: set<ClientId>)
  {
    !Throttled(m, now) && (c in ended || c in failing)
  }

  /** Broadcast restricted to the clients in `visited`: those it drops are
      removed, those it writes to are stamped, every other client is left as
      it was. */
  function Visit(r: Registry, visited: set<ClientId>, now: int, ended: set<ClientId>, failing: set<ClientId>): Registry
    requires Valid(r)
  {
    var gone := set c | c in r.clients && c in visited && Drops(r.meta[c], c, now, ended, failing);
    Registry(r.clients - gone,
      map c | c in r.meta.Keys - gone ::
        if c in visited && !Throttled(r.meta[c], now) then r.meta[c].(lastSent := now) else r.meta[c])
  }

  /** broadcastFrame's effect on the clients. Every client is visited once:
      a throttled one keeps its place and its settings; one that has ended, or
      whose write fails, is removed; every other one is written and stamped
      with now. No client is added. */
  function Broadcast(r: Registry, now: int, ended: set<ClientId>, failing: set<ClientId>): (r': Registry)
    requires Valid(r)
    ensures Valid(r')
    ensures forall c :: c in r'.clients <==>
      c in r.clients && (Throttled(r.meta[c], now) || (c !in ended && c !in failing))
    ensures forall c | c in r'.clients && Throttled(r.meta[c], now) :: r'.meta[c] == r.meta[c]
    ensures forall c | c in r'.clients && !Throttled(r.meta[c], now) :: r'.meta[c] == r.meta[c].(lastSent := now)
  {
    Visit(r, r.clients, now, ended, failing)
  }

  /** Nothing visited, nothing changed. */
  lemma VisitNone(r: Registry, now: int, ended: set<ClientId>, failing: set<ClientId>)
    requires Valid(r)
    ensures Visit(r, {}, now, ended, failing) == r
  {
    var v := Visit(r, {}, now, ended, failing);
    assert v.clients == r.clients;
    assert v.meta == r.meta;
  }

  /** Visiting one more client: a throttled one is skipped, a dropped one is
      removed, any other one is stamped. */
  lemma VisitStep(r: Registry, visited: set<ClientId>, c: ClientId, now: int, ended: set<ClientId>, failing: set<ClientId>)
    requires Valid(r) && c in r.clients && c !in visited
    ensures var v := Visit(r, visited, now, ended, failing);
      Valid(v) && c in v.clients && v.meta[c] == r.meta[c] &&
      Visit(r, visited + {c}, now, ended, failing) ==
        if Throttled(r.meta[c], now) then v
        else if Drops(r.meta[c], c, now, ended, failing) then Remove(v, c)
        else Stamp(v, c, now)
  {
    var v := Visit(r, visited, now, ended, failing);
    var w := Visit(r, visited + {c}, now, ended, failing);
    if Throttled(r.meta[c], now) {
      assert w.clients == v.clients;
      assert w.meta == v.meta;
    } else if Drops(r.meta[c], c, now, ended, failing) {
      var x := Remove(v, c);
      assert w.clients == x.clients;
      assert w.meta == x.meta;
    } else {
      var x := Stamp(v, c, now);
      assert w.clients == x.clients;
      assert w.meta == x.meta;
    }
  }

  /** Several frames broadcast at the same instant act as one: whoever the
      first write stamped is now throttled or is written again with the same
      stamp, and the dropped clients are gone. */
  lemma BroadcastIdempotent(r: Registry, now: int, ended: set<ClientId>, failing: set<ClientId>)
    requires Valid(r)
    ensures Broadcast(Broadcast(r, now, ended, failing), now, ended, failing) == Broadcast(r, now, ended, failing)
  {
    var r1 := Broadcast(r, now, ended, failing);
    var r2 := Broadcast(r1, now, ended, failing);
    forall c | c in r1.clients && !Throttled(r.meta[c], now)
      ensures Throttled(r1.meta[c], now) || r1.meta[c].fps == 0.0
    {
      var m := r1.meta[c];
      if m.fps != 0.0 {
        assert m.fps > 0.0;
        assert (now - m.lastSent) as real == 0.0;
      }
    }
    assert r2.clients == r1.clients;
    assert r2.meta == r1.meta;
  }

  /** The rate limit holds across frames: a client served at time t with rate
      fps > 0 is skipped, and kept with its stamp, by every broadcast before
      t + 1000 / fps, and is served by the first one after that. */
  lemma RateLimit(r: Registry, c: ClientId, t: int, t': int, ended: set<ClientId>, failing: set<ClientId>)
    requires Valid(r) && c in r.clients && r.meta[c].lastSent == t && r.meta[c].fps > 0.0
    requires t <= t'
    ensures var r' := Broadcast(r, t', ended, failing);
      ((t' - t) as real < 1000.0 / r.meta[c].fps ==> c in r'.clients && r'.meta[c] == r.meta[c]) &&
      ((t' - t) as real >= 1000.0 / r.meta[c].fps && c !in ended && c !in failing ==>
         c in r'.clients && r'.meta[c].lastSent == t')
  {
  }
}
