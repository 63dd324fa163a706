/** Watching the block download: which peer holds it up, and for how long. */
module NetProgress {
  import opened Bytes
  import opened Graph
  import opened NetInFlight

  const BLOCK_STALL_TIMEOUT_SEC := 60
  const BLOCK_TIME_TARGET := 600
  const BLOCK_DOWNLOAD_TIMEOUT_BASE := 1.0
  const BLOCK_DOWNLOAD_TIMEOUT_PER_PEER := 0.5

  type Times = map<NodeId, int>

  /** The oldest outstanding request of every peer that has one. */
  ghost predicate OldestOf(f: Flight, o: Times) {
    && (forall h :: h in f ==> f[h].peer in o && o[f[h].peer] <= f[h].requestedAt)
    && (forall p :: p in o ==> exists h :: h in f && f[h] == Request(p, o[p]))
  }

  /** The peer with the oldest request of all, the first one among equals; requests from the future
      do not count. */
  predicate IsBlocker(o: Times, now: int, p: NodeId) {
    p in o && o[p] <= now && forall q :: q in o ==> o[p] < o[q] || (o[p] == o[q] && p <= q)
  }

  /** Who holds the download up: nobody when nothing is requested, and nobody the clock can tell when all
      requests are ahead of it. */
  datatype Blocker = Nobody | AllAhead | Peer(id: NodeId)

  datatype Check = Check(at: int, blocker: Blocker)

  /** At every check since the one at time `since` this peer held the oldest request, unless all were ahead of
      the clock. */
  ghost predicate HeldUpSince(checks: seq<Check>, p: NodeId, since: int) {
    exists m :: StallFrom(checks, p, since, m)
  }

  ghost predicate StallFrom(checks: seq<Check>, p: NodeId, since: int, m: nat) {
    && m < |checks| && checks[m] == Check(since, Peer(p))
    && forall k :: m <= k < |checks| ==> checks[k].blocker == Peer(p) || checks[k].blocker == AllAhead
  }

  /** The loop that finds the oldest request of each peer. */
  method OldestPerPeer(f: Flight) returns (o: Times)
    ensures OldestOf(f, o)
  {
    o := map[];
    var todo := f.Keys;
    while todo != {}
      invariant todo <= f.Keys
      invariant forall h :: h in f && h !in todo ==> f[h].peer in o && o[f[h].peer] <= f[h].requestedAt
      invariant forall p :: p in o ==> exists h :: h in f && f[h] == Request(p, o[p])
      decreases |todo|
    {
      var h :| h in todo;
      var peer, at := f[h].peer, f[h].requestedAt;
      if peer !in o || at < o[peer] {
        o := o[peer := at];
        assert f[h] == Request(peer, o[peer]);
      }
      todo := todo - {h};
    }
  }

  predicate IsLeast(s: set<NodeId>, p: NodeId) {
    p in s && forall q :: q in s ==> p <= q
  }

  lemma {:induction false} Least(s: set<NodeId>) returns (p: NodeId)
    requires s != {}
    ensures IsLeast(s, p)
  {
    var x :| x in s;
    if s == {x} {
      p := x;
    } else {
      var y := Least(s - {x});
      p := if x < y then x else y;
      forall q | q in s
        ensures p <= q
      {
        assert q == x || q in s - {x};
      }
    }
  }

  /** The loop over the peers in order of their ids. */
  method FindBlocker(o: Times, now: int) returns (have: bool, blocker: NodeId)
    ensures have <==> exists p :: p in o && o[p] <= now
    ensures have ==> IsBlocker(o, now, blocker)
  {
    have, blocker := false, 0;
    var oldest := now + 1;
    var todo := o.Keys;
    while todo != {}
      invariant todo <= o.Keys
      invariant !have ==> oldest == now + 1
      invariant have ==> blocker in o && o[blocker] == oldest <= now && forall q :: q in todo ==> blocker < q
      invariant forall q :: q in o && q !in todo ==> oldest < o[q] || (oldest == o[q] && (have ==> blocker <= q))
      decreases |todo|
    {
      ghost var least := Least(todo);
      var p :| p in todo && IsLeast(todo, p);
      assert IsLeast(todo, p);
      if o[p] < oldest {
        oldest := o[p];
        blocker := p;
        have := true;
      }
      todo := todo - {p};
    }
  }

  datatype Reason = Stalling | TimedOut

  datatype Drop = Drop(peer: NodeId, reason: Reason)

  /** The time a block may take, longer the more peers are downloading. */
  function DownloadLimit(peers: nat): real {
    BLOCK_TIME_TARGET as real
    * (BLOCK_DOWNLOAD_TIMEOUT_BASE + BLOCK_DOWNLOAD_TIMEOUT_PER_PEER * (if peers > 0 then peers - 1 else 0) as real)
  }

  /** The loop that collects the peers whose oldest request has taken too long, the blocker aside if
      it is dropped already. */
  method CollectTimedOut(o: Times, now: int, limit: real, first: seq<Drop>) returns (drops: seq<Drop>)
    requires forall d :: d in first ==> d.reason == Stalling
    ensures first <= drops
    ensures forall d :: d in drops && d !in first ==> d.reason == TimedOut && d.peer in o && (now - o[d.peer]) as real > limit
    ensures forall p :: p in o && (now - o[p]) as real > limit ==> DroppedPeer(drops, p)
  {
    drops := first;
    var todo := o.Keys;
    while todo != {}
      invariant todo <= o.Keys && first <= drops
      invariant forall d :: d in drops && d !in first ==> d.reason == TimedOut && d.peer in o && (now - o[d.peer]) as real > limit
      invariant forall p :: p in o && p !in todo && (now - o[p]) as real > limit ==> DroppedPeer(drops, p)
      decreases |todo|
    {
      var p :| p in todo;
      if (now - o[p]) as real > limit {
        var already := exists d :: d in first && d.peer == p;
        if !already {
          DroppedGrows(drops, Drop(p, TimedOut));
          drops := drops + [Drop(p, TimedOut)];
        }
      }
      todo := todo - {p};
    }
  }

  /** What holds of the monitor at all times. */
  datatype Part = Requests | Stalls

  ghost predicate Fine(part: Part, f: Flight, stalling: Times, checks: seq<Check>) {
    match part
    case Requests => Bounded(f, BLOCK_LIMITS)
    case Stalls => |stalling| <= 1 && forall p :: p in stalling ==> HeldUpSince(checks, p, stalling[p])
  }

  ghost predicate AllFine(f: Flight, stalling: Times, checks: seq<Check>) {
    forall part :: Fine(part, f, stalling, checks)
  }

  lemma FineWithout(f: Flight, stalling: Times, checks: seq<Check>, peer: NodeId)
    requires AllFine(f, stalling, checks)
    ensures AllFine(Without(f, peer), stalling, checks)
    ensures AllFine(f, stalling - {peer}, checks)
  {
    FineOpened(f, stalling, checks);
    FineFewerRequests(f, stalling, checks, peer);
    FewerStalling(stalling, peer);
  }

  lemma FineFewerRequests(f: Flight, stalling: Times, checks: seq<Check>, peer: NodeId)
    requires AllFine(f, stalling, checks)
    ensures AllFine(Without(f, peer), stalling, checks)
  {
    FineOpened(f, stalling, checks);
    NextBounded(f, ClearPeer(peer), 0, BLOCK_LIMITS);
  }

  lemma FineOpened(f: Flight, stalling: Times, checks: seq<Check>)
    requires AllFine(f, stalling, checks)
    ensures Bounded(f, BLOCK_LIMITS)
    ensures |stalling| <= 1 && forall p :: p in stalling ==> HeldUpSince(checks, p, stalling[p])
  {
    assert Fine(Requests, f, stalling, checks);
    assert Fine(Stalls, f, stalling, checks);
  }

  lemma FineAfterRequest(f: Flight, stalling: Times, checks: seq<Check>, e: Event, now: int)
    requires AllFine(f, stalling, checks)
    ensures AllFine(Next(f, e, now, BLOCK_LIMITS), stalling, checks)
  {
    FineOpened(f, stalling, checks);
    NextBounded(f, e, now, BLOCK_LIMITS);
  }

  lemma StallGoesOn(stalling: Times, checks: seq<Check>, blocker: NodeId, now: int)
    requires forall p :: p in stalling ==> HeldUpSince(checks, p, stalling[p])
    ensures HeldUpSince(checks + [Check(now, Peer(blocker))], blocker, if blocker in stalling then stalling[blocker] else now)
  {
    var after := checks + [Check(now, Peer(blocker))];
    if blocker in stalling {
      var m :| StallFrom(checks, blocker, stalling[blocker], m);
      assert StallFrom(after, blocker, stalling[blocker], m);
    } else {
      assert StallFrom(after, blocker, now, |checks|);
    }
  }

  /** The blocker, if b is right about who it is. */
  ghost predicate Holds(o: Times, now: int, b: Blocker) {
    if exists p :: p in o && o[p] <= now then b.Peer? && IsBlocker(o, now, b.id) else b == AllAhead
  }

  /** The marks after a check: the blocker's alone; none is new when there is none. */
  function Marked(stalling: Times, o: Times, now: int, b: Blocker): Times {
    if b.Peer? then map[b.id := if b.id in stalling then stalling[b.id] else now] else Kept(stalling, o)
  }

  function Kept(stalling: Times, o: Times): Times {
    map p | p in stalling && p in o :: stalling[p]
  }

  /** The loop that forgets peers without requests. */
  method KeepDownloading(stalling: Times, o: Times) returns (r: Times)
    ensures r == Kept(stalling, o)
  {
    r := stalling;
    var todo := stalling.Keys;
    while todo != {}
      invariant todo <= stalling.Keys
      invariant forall p :: p in r <==> p in stalling && (p in todo || p in o)
      invariant forall p :: p in r ==> r[p] == stalling[p]
      decreases |todo|
    {
      var p :| p in todo;
      if p !in o { r := r - {p}; }
      todo := todo - {p};
    }
  }

  lemma StallNotSeen(stalling: Times, checks: seq<Check>, o: Times, now: int)
    requires |stalling| <= 1 && forall p :: p in stalling ==> HeldUpSince(checks, p, stalling[p])
    ensures |Kept(stalling, o)| <= 1
    ensures forall p :: p in Kept(stalling, o) ==> HeldUpSince(checks + [Check(now, AllAhead)], p, Kept(stalling, o)[p])
  {
    SubsetSize(Kept(stalling, o).Keys, stalling.Keys);
    forall p | p in Kept(stalling, o)
      ensures HeldUpSince(checks + [Check(now, AllAhead)], p, stalling[p])
    {
      var m :| StallFrom(checks, p, stalling[p], m);
      assert StallFrom(checks + [Check(now, AllAhead)], p, stalling[p], m);
    }
  }

  lemma NotedFine(f: Flight, stalling: Times, checks: seq<Check>, o: Times, now: int, b: Blocker)
    requires AllFine(f, stalling, checks) && Holds(o, now, b)
    ensures AllFine(f, Marked(stalling, o, now, b), checks + [Check(now, b)])
    ensures b.Peer? ==> HeldUpSince(checks + [Check(now, b)], b.id, Marked(stalling, o, now, b)[b.id])
  {
    FineOpened(f, stalling, checks);
    if b.Peer? {
      StallGoesOn(stalling, checks, b.id, now);
    } else {
      StallNotSeen(stalling, checks, o, now);
    }
  }

  class Monitor {
    var mBlocksInFlight: Flight
    var mStallingSince: Times
    var mNodes: set<NodeId>

    /** The checks made, and who held the oldest request. */
    ghost var checks: seq<Check>

    ghost predicate Valid()
      reads this
    {
      AllFine(mBlocksInFlight, mStallingSince, checks)
    }

    constructor ()
      ensures Valid() && mBlocksInFlight == map[] && mStallingSince == map[] && mNodes == {} && checks == []
    {
      mBlocksInFlight, mStallingSince, mNodes := map[], map[], {};
      checks := [];
      new;
      NothingBounded(BLOCK_LIMITS);
    }

    method Connect(peer: NodeId)
      requires Valid()
      modifies this`mNodes
      ensures Valid() && mNodes == old(mNodes) + {peer}
    {
      mNodes := mNodes + {peer};
    }

    method ShouldRequestBlock(hash: Bytes32, from: NodeId, now: int) returns (ok: bool)
      requires Valid()
      modifies this`mBlocksInFlight
      ensures Valid()
      ensures ok == Grants(old(mBlocksInFlight), Ask(hash, from), now, BLOCK_LIMITS)
      ensures mBlocksInFlight == Next(old(mBlocksInFlight), Ask(hash, from), now, BLOCK_LIMITS)
    {
      FineAfterRequest(mBlocksInFlight, mStallingSince, checks, Ask(hash, from), now);
      var tracker := new Tracker();
      tracker.mBlocksInFlight := mBlocksInFlight;
      ok := tracker.ShouldRequestBlock(hash, from, now);
      mBlocksInFlight := tracker.mBlocksInFlight;
    }

    method ClearInFlight(hash: Bytes32)
      requires Valid()
      modifies this`mBlocksInFlight
      ensures Valid() && mBlocksInFlight == old(mBlocksInFlight) - {hash}
    {
      FineAfterRequest(mBlocksInFlight, mStallingSince, checks, Clear(hash), 0);
      mBlocksInFlight := mBlocksInFlight - {hash};
    }

    method DisconnectNode(peer: NodeId)
      requires Valid()
      modifies this`mBlocksInFlight, this`mNodes
      ensures Valid() && mNodes == old(mNodes) - {peer}
      ensures mBlocksInFlight == if peer in old(mNodes) then Without(old(mBlocksInFlight), peer) else old(mBlocksInFlight)
    {
      if peer !in mNodes {
        return;
      }
      FineWithout(mBlocksInFlight, mStallingSince, checks, peer);
      mBlocksInFlight := DropPeer(mBlocksInFlight, peer);
      mNodes := mNodes - {peer};
    }

    /** Note who holds the download up now; true when that has lasted too long. */
    method NoteBlocker(o: Times, now: int) returns (stalled: bool, blocker: Blocker)
      requires Valid() && OldestOf(mBlocksInFlight, o)
      modifies this`mStallingSince, this`checks
      ensures Valid() && Holds(o, now, blocker)
      ensures checks == old(checks) + [Check(now, blocker)]
      ensures stalled ==>
        (blocker.Peer? && exists since :: now - since > BLOCK_STALL_TIMEOUT_SEC && HeldUpSince(checks, blocker.id, since))
      ensures mStallingSince == Marked(old(mStallingSince), o, now, blocker)
      ensures stalled <==> blocker.Peer? && now - mStallingSince[blocker.id] > BLOCK_STALL_TIMEOUT_SEC
    {
      ghost var stalling, before := mStallingSince, checks;
      mStallingSince := KeepDownloading(mStallingSince, o);
      var have, id := FindBlocker(o, now);
      blocker := if have then Peer(id) else AllAhead;
      NotedFine(mBlocksInFlight, stalling, before, o, now, blocker);
      checks := checks + [Check(now, blocker)];
      if !have {
        return false, blocker;
      }
      var since := if id in mStallingSince then mStallingSince[id] else now;
      mStallingSince := map[id := since];
      stalled := now - since > BLOCK_STALL_TIMEOUT_SEC;
    }

    /** The loop that disconnects the peers picked, as far as they are still there. */
    method DropAll(toDrop: seq<Drop>) returns (dropped: seq<Drop>)
      requires Valid()
      modifies this`mBlocksInFlight, this`mNodes, this`mStallingSince
      ensures Valid()
      ensures forall d :: d in dropped ==> d in toDrop && d.peer in old(mNodes) && d.peer !in mNodes
      ensures forall d :: d in toDrop ==> d.peer !in mNodes
      ensures forall p :: p in old(mNodes) && p !in mNodes ==> DroppedPeer(dropped, p)
      ensures Left(old(mBlocksInFlight), dropped, mBlocksInFlight)
    {
      dropped := [];
      for i := 0 to |toDrop|
        invariant Valid()
        invariant forall d :: d in dropped ==> d in toDrop && d.peer in old(mNodes) && d.peer !in mNodes
        invariant forall k :: 0 <= k < i ==> toDrop[k].peer !in mNodes
        invariant mNodes <= old(mNodes)
        invariant forall p :: p in old(mNodes) && p !in mNodes ==> DroppedPeer(dropped, p)
        invariant Left(old(mBlocksInFlight), dropped, mBlocksInFlight)
      {
        var peer := toDrop[i].peer;
        if peer in mNodes {
          ghost var f := mBlocksInFlight;
          DisconnectNode(peer);
          FineWithout(mBlocksInFlight, mStallingSince, checks, peer);
          mStallingSince := mStallingSince - {peer};
          LeftOneMore(old(mBlocksInFlight), dropped, f, toDrop[i], mBlocksInFlight);
          DroppedGrows(dropped, toDrop[i]);
          dropped := dropped + [toDrop[i]];
        }
      }
    }

    /** The peers to drop at this check. */
    method PickPeers(now: int) returns (toDrop: seq<Drop>)
      requires Valid()
      modifies this`mStallingSince, this`checks
      ensures Valid() && Picked(mBlocksInFlight, checks, now, toDrop)
    {
      var o := OldestPerPeer(mBlocksInFlight);
      var stalled, blocker := NoteBlocker(o, now);
      var first := if stalled then [Drop(blocker.id, Stalling)] else [];
      toDrop := CollectTimedOut(o, now, DownloadLimit(|o|), first);
      PickedBy(mBlocksInFlight, o, checks, now, first, toDrop);
    }

    /** Drop a peer that has held up the download for too long, and those whose requests are too old. */
    method CheckDownloadProgress(now: int) returns (dropped: seq<Drop>)
      requires Valid()
      modifies this
      ensures Valid()
      ensures old(mBlocksInFlight) == map[] ==> dropped == [] && mStallingSince == map[]
      ensures forall d :: d in dropped ==> d.peer in old(mNodes) && d.peer !in mNodes
      ensures |mStallingSince| <= 1
      ensures forall d :: d in dropped ==> Justified(old(mBlocksInFlight), checks, now, d)
      ensures forall p :: p in old(mNodes) && p !in mNodes ==> DroppedPeer(dropped, p)
      ensures forall p :: p in old(mNodes) && TooOld(old(mBlocksInFlight), now, p) ==> p !in mNodes
      ensures Left(old(mBlocksInFlight), dropped, mBlocksInFlight)
    {
      dropped := [];
      FineOpened(mBlocksInFlight, mStallingSince, checks);
      if mBlocksInFlight == map[] {
        mStallingSince := map[];
        checks := checks + [Check(now, Nobody)];
        return;
      }
      var toDrop := PickPeers(now);
      dropped := DropAll(toDrop);
      FineOpened(mBlocksInFlight, mStallingSince, checks);
    }
  }

  /** Only the requests to peers not dropped are left. */
  ghost predicate Left(f: Flight, dropped: seq<Drop>, g: Flight) {
    && (forall h :: h in g ==> h in f && g[h] == f[h])
    && (forall h :: h in f ==> (h in g <==> !DroppedPeer(dropped, f[h].peer)))
  }

  ghost predicate DroppedPeer(dropped: seq<Drop>, peer: NodeId) {
    exists d :: d in dropped && d.peer == peer
  }

  lemma DroppedGrows(dropped: seq<Drop>, d: Drop)
    ensures forall p :: DroppedPeer(dropped + [d], p) <==> DroppedPeer(dropped, p) || p == d.peer
  {
    forall p
      ensures DroppedPeer(dropped + [d], p) <==> DroppedPeer(dropped, p) || p == d.peer
    {
      assert d in dropped + [d];
      if DroppedPeer(dropped, p) {
        var x :| x in dropped && x.peer == p;
        assert x in dropped + [d];
      }
    }
  }

  lemma LeftOneMore(f: Flight, dropped: seq<Drop>, g: Flight, d: Drop, r: Flight)
    requires Left(f, dropped, g) && r == Without(g, d.peer)
    ensures Left(f, dropped + [d], r)
  {
    DroppedGrows(dropped, d);
  }

  /** Everyone picked is picked for a reason, and everyone too slow is picked. */
  ghost predicate Picked(f: Flight, checks: seq<Check>, now: int, drops: seq<Drop>) {
    && (forall d :: d in drops ==> Justified(f, checks, now, d))
    && (forall p :: TooOld(f, now, p) ==> DroppedPeer(drops, p))
  }

  lemma OldestPeers(f: Flight, o: Times)
    requires OldestOf(f, o)
    ensures o.Keys == Downloading(f) && |o| == |Downloading(f)|
  {
    forall p
      ensures p in o.Keys <==> p in Downloading(f)
    {}
  }

  /** The oldest request decides whether a peer is too slow. */
  lemma TooOldByOldest(f: Flight, o: Times, now: int, p: NodeId)
    requires OldestOf(f, o)
    ensures TooOld(f, now, p) <==> p in o && (now - o[p]) as real > DownloadLimit(|o|)
  {
    OldestPeers(f, o);
    if p in o && (now - o[p]) as real > DownloadLimit(|o|) {
      var h :| h in f && f[h] == Request(p, o[p]);
      assert h in f && f[h].peer == p && (now - f[h].requestedAt) as real > DownloadLimit(|Downloading(f)|);
    }
  }

  lemma PickedBy(f: Flight, o: Times, checks: seq<Check>, now: int, first: seq<Drop>, drops: seq<Drop>)
    requires OldestOf(f, o) && forall d :: d in first ==> Justified(f, checks, now, d)
    requires forall d :: d in drops && d !in first ==> d.reason == TimedOut && d.peer in o && (now - o[d.peer]) as real > DownloadLimit(|o|)
    requires forall p :: p in o && (now - o[p]) as real > DownloadLimit(|o|) ==> DroppedPeer(drops, p)
    ensures Picked(f, checks, now, drops)
  {
    forall p
      ensures TooOld(f, now, p) <==> p in o && (now - o[p]) as real > DownloadLimit(|o|)
    {
      TooOldByOldest(f, o, now, p);
    }
  }

  lemma FewerStalling(m: Times, peer: NodeId)
    ensures |m - {peer}| <= |m|
  {
    SubsetSize((m - {peer}).Keys, m.Keys);
  }

  /** Peers with requests outstanding. */
  ghost function Downloading(f: Flight): set<NodeId> {
    set h | h in f :: f[h].peer
  }

  ghost predicate TooOld(f: Flight, now: int, p: NodeId) {
    exists h :: h in f && f[h].peer == p && (now - f[h].requestedAt) as real > DownloadLimit(|Downloading(f)|)
  }

  /** Nobody is dropped for stalling who was not the oldest holder at every check for over a minute. */
  ghost predicate Justified(f: Flight, checks: seq<Check>, now: int, d: Drop) {
    match d.reason
    case Stalling => exists since :: now - since > BLOCK_STALL_TIMEOUT_SEC && HeldUpSince(checks, d.peer, since)
    case TimedOut => TooOld(f, now, d.peer)
  }
}
