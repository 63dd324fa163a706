/** Which peer has been asked for which block or transaction, and since when. */
module NetInFlight {
  import opened Bytes
  import opened Graph

  type NodeId = nat

  datatype Request = Request(peer: NodeId, requestedAt: int)

  type Flight = map<Bytes32, Request>

  const BLOCK_IN_FLIGHT_TIMEOUT_SEC := 1800
  const BLOCK_DOWNLOAD_WINDOW := 1024
  const MAX_BLOCKS_IN_FLIGHT_PER_PEER := 16
  const TX_REQUEST_TIMEOUT_SEC := 60
  const MAX_TX_IN_FLIGHT_PER_PEER := 100

  /** How long a request stands, how many one peer may hold, and how many there may be in all. */
  datatype Limits = Limits(timeout: int, perPeer: nat, window: Window)

  datatype Window = Unlimited | AtMost(n: nat)

  const BLOCK_LIMITS := Limits(BLOCK_IN_FLIGHT_TIMEOUT_SEC, MAX_BLOCKS_IN_FLIGHT_PER_PEER, AtMost(BLOCK_DOWNLOAD_WINDOW))
  const TX_LIMITS := Limits(TX_REQUEST_TIMEOUT_SEC, MAX_TX_IN_FLIGHT_PER_PEER, Unlimited)

  // ---- One step ----

  function Purged(f: Flight, now: int, timeout: int): Flight {
    map h | h in f && now - f[h].requestedAt <= timeout :: f[h]
  }

  function HeldBy(f: Flight, peer: NodeId): set<Bytes32> {
    set h | h in f && f[h].peer == peer
  }

  function Without(f: Flight, peer: NodeId): Flight {
    map h | h in f && f[h].peer != peer :: f[h]
  }

  datatype Event =
    | Ask(hash: Bytes32, from: NodeId)
    | Clear(hash: Bytes32)
    | ClearPeer(peer: NodeId)

  predicate Grants(f: Flight, e: Event, now: int, lim: Limits) {
    e.Ask?
    && var p := Purged(f, now, lim.timeout);
       e.hash !in p && (lim.window.AtMost? ==> |p| < lim.window.n) && |HeldBy(p, e.from)| < lim.perPeer
  }

  function Next(f: Flight, e: Event, now: int, lim: Limits): Flight {
    match e
    case Ask(hash, from) =>
      var p := Purged(f, now, lim.timeout);
      if Grants(f, e, now, lim) then p[hash := Request(from, now)] else p
    case Clear(hash) => f - {hash}
    case ClearPeer(peer) => Without(f, peer)
  }

  /** No more requests than the window, and no peer with more than its share. */
  ghost predicate Bounded(f: Flight, lim: Limits) {
    (lim.window.AtMost? ==> |f| <= lim.window.n) && forall peer: NodeId :: |HeldBy(f, peer)| <= lim.perPeer
  }

  lemma NextBounded(f: Flight, e: Event, now: int, lim: Limits)
    requires Bounded(f, lim)
    ensures Bounded(Next(f, e, now, lim), lim)
  {
    match e
    case Ask(hash, from) =>
      var p := Purged(f, now, lim.timeout);
      SubFlight(p, f, lim);
      if Grants(f, e, now, lim) {
        GrantBounded(p, hash, from, now, lim);
      }
    case Clear(hash) =>
      SubFlight(f - {hash}, f, lim);
    case ClearPeer(peer) =>
      SubFlight(Without(f, peer), f, lim);
  }

  lemma GrantBounded(p: Flight, hash: Bytes32, from: NodeId, now: int, lim: Limits)
    requires Bounded(p, lim) && hash !in p
    requires (lim.window.AtMost? ==> |p| < lim.window.n) && |HeldBy(p, from)| < lim.perPeer
    ensures Bounded(p[hash := Request(from, now)], lim)
  {
    var r := p[hash := Request(from, now)];
    forall peer: NodeId
      ensures |HeldBy(r, peer)| <= lim.perPeer
    {
      HeldAfterGrant(p, hash, from, now, peer);
    }
    assert r.Keys == p.Keys + {hash};
  }

  lemma HeldAfterGrant(p: Flight, hash: Bytes32, from: NodeId, now: int, peer: NodeId)
    requires hash !in p
    ensures HeldBy(p[hash := Request(from, now)], peer) == HeldBy(p, peer) + (if peer == from then {hash} else {})
    ensures hash !in HeldBy(p, peer)
  {}

  lemma SubFlight(g: Flight, f: Flight, lim: Limits)
    requires Bounded(f, lim) && forall h :: h in g ==> h in f && g[h] == f[h]
    ensures Bounded(g, lim)
  {
    SubsetSize(g.Keys, f.Keys);
    assert |g| == |g.Keys| && |f| == |f.Keys|;
    forall peer: NodeId
      ensures |HeldBy(g, peer)| <= lim.perPeer
    {
      SubsetSize(HeldBy(g, peer), HeldBy(f, peer));
    }
  }

  // ---- Whole runs ----

  /** An event and when it happens. */
  datatype Moment = Moment(event: Event, at: int)

  ghost predicate Steps(states: seq<Flight>, run: seq<Moment>, lim: Limits, i: nat)
    requires i < |run| && |states| == |run| + 1
  {
    states[i + 1] == Next(states[i], run[i].event, run[i].at, lim)
  }

  /** From nothing in flight, each state follows from the one before; the clock does not go back. */
  ghost predicate IsRun(states: seq<Flight>, run: seq<Moment>, lim: Limits) {
    && |states| == |run| + 1 && states[0] == map[]
    && (forall i :: 0 <= i < |run| ==> Steps(states, run, lim, i))
    && (forall i, j :: 0 <= i <= j < |run| ==> run[i].at <= run[j].at)
  }

  predicate Asks(m: Moment, hash: Bytes32, peer: NodeId) {
    m.event == Ask(hash, peer)
  }

  predicate Releases(m: Moment, hash: Bytes32, peer: NodeId) {
    m.event == Clear(hash) || m.event == ClearPeer(peer)
  }

  /** In every state of every run the limits hold. */
  lemma {:induction false} RunBounded(states: seq<Flight>, run: seq<Moment>, lim: Limits, n: nat)
    requires IsRun(states, run, lim) && n <= |run|
    ensures Bounded(states[n], lim)
  {
    if n > 0 {
      var m := n - 1;
      RunBounded(states, run, lim, m);
      NextBounded(states[m], run[m].event, run[m].at, lim);
      assert Steps(states, run, lim, m);
    } else {
      NothingBounded(lim);
    }
  }

  lemma NothingBounded(lim: Limits)
    ensures Bounded(map[], lim)
  {
    forall peer: NodeId
      ensures |HeldBy(map[], peer)| == 0
    {
      assert HeldBy(map[], peer) == {};
    }
  }

  predicate InFlightSince(f: Flight, hash: Bytes32, peer: NodeId, at: int) {
    hash in f && f[hash] == Request(peer, at)
  }

  lemma GrantEnters(f: Flight, m: Moment, lim: Limits)
    requires Grants(f, m.event, m.at, lim)
    ensures InFlightSince(Next(f, m.event, m.at, lim), m.event.hash, m.event.from, m.at)
  {}

  /** One step without a release keeps a request that is not too old. */
  lemma NextKeeps(f: Flight, m: Moment, lim: Limits, hash: Bytes32, peer: NodeId, at: int)
    requires InFlightSince(f, hash, peer, at) && m.at - at <= lim.timeout && !Releases(m, hash, peer)
    ensures InFlightSince(Next(f, m.event, m.at, lim), hash, peer, at)
  {}

  lemma NotGranted(f: Flight, m: Moment, lim: Limits, hash: Bytes32, from: NodeId, peer: NodeId, at: int)
    requires Asks(m, hash, from) && InFlightSince(f, hash, peer, at) && m.at - at <= lim.timeout
    ensures !Grants(f, m.event, m.at, lim)
  {}

  /** A request in flight stays there until it is released or times out. */
  lemma {:induction false} StaysInFlight(states: seq<Flight>, run: seq<Moment>, lim: Limits, m: nat, n: nat,
                                         hash: Bytes32, peer: NodeId, at: int)
    requires IsRun(states, run, lim) && m <= n < |run|
    requires InFlightSince(states[m], hash, peer, at)
    requires forall k :: m <= k < n ==> !Releases(run[k], hash, peer)
    requires run[n].at - at <= lim.timeout
    ensures InFlightSince(states[n], hash, peer, at)
  {
    if n > m {
      var k := n - 1;
      assert run[k].at <= run[n].at;
      StaysInFlight(states, run, lim, m, k, hash, peer, at);
      NextKeeps(states[k], run[k], lim, hash, peer, at);
      assert Steps(states, run, lim, k);
    }
  }

  /** So the same hash is granted again only after it was cleared, its peer was, or the time is up. */
  lemma RegrantNeedsRelease(states: seq<Flight>, run: seq<Moment>, lim: Limits, i: nat, j: nat,
                            hash: Bytes32, peer: NodeId, other: NodeId)
    requires IsRun(states, run, lim) && i < j < |run|
    requires Asks(run[i], hash, peer) && Grants(states[i], run[i].event, run[i].at, lim)
    requires Asks(run[j], hash, other) && Grants(states[j], run[j].event, run[j].at, lim)
    ensures run[j].at - run[i].at > lim.timeout || exists k :: i < k < j && Releases(run[k], hash, peer)
  {
    if run[j].at - run[i].at <= lim.timeout && forall k :: i < k < j ==> !Releases(run[k], hash, peer) {
      GrantEnters(states[i], run[i], lim);
      assert Steps(states, run, lim, i);
      StaysInFlight(states, run, lim, i + 1, j, hash, peer, run[i].at);
      NotGranted(states[j], run[j], lim, hash, other, peer, run[i].at);
    }
  }

  // ---- The object ----

  class Tracker {
    var mBlocksInFlight: Flight
    var mTxInFlight: Flight

    constructor ()
      ensures mBlocksInFlight == map[] && mTxInFlight == map[]
    {
      mBlocksInFlight, mTxInFlight := map[], map[];
    }

    method ShouldRequestBlock(hash: Bytes32, from: NodeId, now: int) returns (ok: bool)
      modifies this`mBlocksInFlight
      ensures ok == Grants(old(mBlocksInFlight), Ask(hash, from), now, BLOCK_LIMITS)
      ensures mBlocksInFlight == Next(old(mBlocksInFlight), Ask(hash, from), now, BLOCK_LIMITS)
    {
      mBlocksInFlight := Purge(mBlocksInFlight, now, BLOCK_IN_FLIGHT_TIMEOUT_SEC);
      if hash in mBlocksInFlight {
        return false;
      }
      if |mBlocksInFlight| >= BLOCK_DOWNLOAD_WINDOW {
        return false;
      }
      var fromThisPeer := CountPeer(mBlocksInFlight, from);
      if fromThisPeer >= MAX_BLOCKS_IN_FLIGHT_PER_PEER {
        return false;
      }
      mBlocksInFlight := mBlocksInFlight[hash := Request(from, now)];
      ok := true;
    }

    method ShouldRequestTx(hash: Bytes32, from: NodeId, now: int) returns (ok: bool)
      modifies this`mTxInFlight
      ensures ok == Grants(old(mTxInFlight), Ask(hash, from), now, TX_LIMITS)
      ensures mTxInFlight == Next(old(mTxInFlight), Ask(hash, from), now, TX_LIMITS)
    {
      mTxInFlight := Purge(mTxInFlight, now, TX_REQUEST_TIMEOUT_SEC);
      if hash in mTxInFlight {
        return false;
      }
      var fromThisPeer := CountPeer(mTxInFlight, from);
      if fromThisPeer >= MAX_TX_IN_FLIGHT_PER_PEER {
        return false;
      }
      mTxInFlight := mTxInFlight[hash := Request(from, now)];
      ok := true;
    }

    method ClearInFlight(hash: Bytes32)
      modifies this`mBlocksInFlight
      ensures mBlocksInFlight == Next(old(mBlocksInFlight), Clear(hash), 0, BLOCK_LIMITS)
    {
      mBlocksInFlight := mBlocksInFlight - {hash};
    }

    method ClearTxInFlight(hash: Bytes32)
      modifies this`mTxInFlight
      ensures mTxInFlight == Next(old(mTxInFlight), Clear(hash), 0, TX_LIMITS)
    {
      mTxInFlight := mTxInFlight - {hash};
    }

    method ClearInFlightForPeer(peer: NodeId)
      modifies this`mBlocksInFlight
      ensures mBlocksInFlight == Next(old(mBlocksInFlight), ClearPeer(peer), 0, BLOCK_LIMITS)
    {
      mBlocksInFlight := DropPeer(mBlocksInFlight, peer);
    }

    method ClearTxInFlightForPeer(peer: NodeId)
      modifies this`mTxInFlight
      ensures mTxInFlight == Next(old(mTxInFlight), ClearPeer(peer), 0, TX_LIMITS)
    {
      mTxInFlight := DropPeer(mTxInFlight, peer);
    }
  }

  /** The loop that erases requests that have stood too long. */
  method Purge(f: Flight, now: int, timeout: int) returns (r: Flight)
    ensures r == Purged(f, now, timeout)
  {
    r := f;
    var todo := f.Keys;
    while todo != {}
      invariant todo <= f.Keys
      invariant forall h :: h in r <==> h in f && (h in todo || now - f[h].requestedAt <= timeout)
      invariant forall h :: h in r ==> r[h] == f[h]
      decreases |todo|
    {
      var h :| h in todo;
      if now - f[h].requestedAt > timeout {
        r := r - {h};
      }
      todo := todo - {h};
    }
  }

  /** The loop that erases the requests to one peer. */
  method DropPeer(f: Flight, peer: NodeId) returns (r: Flight)
    ensures r == Without(f, peer)
  {
    r := f;
    var todo := f.Keys;
    while todo != {}
      invariant todo <= f.Keys
      invariant forall h :: h in r <==> h in f && (h in todo || f[h].peer != peer)
      invariant forall h :: h in r ==> r[h] == f[h]
      decreases |todo|
    {
      var h :| h in todo;
      if f[h].peer == peer {
        r := r - {h};
      }
      todo := todo - {h};
    }
  }

  /** The loop that counts the requests to one peer. */
  method CountPeer(f: Flight, peer: NodeId) returns (n: nat)
    ensures n == |HeldBy(f, peer)|
  {
    n := 0;
    var todo := f.Keys;
    ghost var seen: set<Bytes32> := {};
    while todo != {}
      invariant todo <= f.Keys && n == |seen|
      invariant seen == set h | h in f && h !in todo && f[h].peer == peer
      decreases |todo|
    {
      var h :| h in todo;
      if f[h].peer == peer {
        n := n + 1;
        seen := seen + {h};
      }
      todo := todo - {h};
    }
    assert seen == HeldBy(f, peer);
  }
}
