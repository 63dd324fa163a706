/** What peers may take: addresses by a token bucket, and connections by address. */
module NetPeers {
  import opened Bytes
  import NetEviction
  import NetInFlight

  const ADDR_TOKENS_PER_SECOND := 0.1
  const ADDR_TOKEN_BUCKET_CAP := 1000.0
  const MAX_ADDR_TO_SEND := 1000
  const MAX_CONNECTIONS_PER_IP := 3

  datatype Address = Address(port: nat, ip: seq<Byte>)

  // ---- The address message ----

  /** The entry at an offset and where it ends, or nothing when it is cut off or its length is refused. */
  datatype Entry = Entry(address: Address, end: nat) | Broken

  function EntryAt(payload: seq<Byte>, offset: nat): (r: Entry)
    ensures r.Entry? ==> offset < r.end <= |payload| && r.address.ip != []
  {
    if offset + 6 > |payload| then Broken
    else
      var port, ipLen := FromLE(payload[offset..offset + 2]), FromLE(payload[offset + 2..offset + 6]);
      if ipLen == 0 || ipLen > 64 || offset + 6 + ipLen > |payload| then Broken
      else Entry(Address(port, payload[offset + 6..offset + 6 + ipLen]), offset + 6 + ipLen)
  }

  predicate Acceptable(a: Address) {
    0 < a.port < 65535
  }

  /** The acceptable addresses among the next n entries, up to the first broken one. */
  function Listed(payload: seq<Byte>, offset: nat, n: nat): seq<Address>
    decreases n
  {
    if n == 0 then []
    else
      match EntryAt(payload, offset)
      case Broken => []
      case Entry(address, end) => (if Acceptable(address) then [address] else []) + Listed(payload, end, n - 1)
  }

  class AddrQuota {
    var addrTokens: real
    var addrTokenTimestamp: int
    var misbehavior: nat

    /** When the first address message came, and how many addresses have been accepted in all. */
    ghost var first: int
    ghost var accepted: nat

    /** Tokens and accepted addresses together never exceed a full bucket and what has trickled in. */
    ghost predicate Valid()
      reads this
    {
      && 0.0 <= addrTokens <= ADDR_TOKEN_BUCKET_CAP
      && (addrTokenTimestamp == 0 ==> accepted == 0)
      && (addrTokenTimestamp != 0 ==>
            first <= addrTokenTimestamp
            && accepted as real + addrTokens <= ADDR_TOKEN_BUCKET_CAP + ADDR_TOKENS_PER_SECOND * (addrTokenTimestamp - first) as real)
    }

    constructor ()
      ensures Valid() && accepted == 0 && addrTokenTimestamp == 0
    {
      addrTokens, addrTokenTimestamp, misbehavior := ADDR_TOKEN_BUCKET_CAP, 0, 0;
      first, accepted := 0, 0;
    }

    method Refill(now: int)
      requires Valid() && now > 0
      modifies this`addrTokens, this`addrTokenTimestamp, this`first
      ensures Valid() && addrTokenTimestamp != 0
      ensures Ticked(old(addrTokenTimestamp), old(first), now, addrTokenTimestamp, first)
    {
      if addrTokenTimestamp == 0 {
        addrTokenTimestamp := now;
        first := now;
      }
      if now > addrTokenTimestamp {
        var elapsed := (now - addrTokenTimestamp) as real;
        Trickle(addrTokenTimestamp - first, now - addrTokenTimestamp);
        addrTokens := addrTokens + elapsed * ADDR_TOKENS_PER_SECOND;
        if addrTokens > ADDR_TOKEN_BUCKET_CAP {
          addrTokens := ADDR_TOKEN_BUCKET_CAP;
        }
        addrTokenTimestamp := now;
      }
    }

    /** Take in an address message. The addresses accepted are the first acceptable ones listed, as far
        as the tokens last. */
    method HandleAddr(payload: seq<Byte>, now: int) returns (learned: seq<Address>)
      requires Valid() && now > 0
      modifies this
      ensures Valid() && accepted == old(accepted) + |learned|
      ensures (addrTokenTimestamp == old(addrTokenTimestamp) && first == old(first))
           || Ticked(old(addrTokenTimestamp), old(first), now, addrTokenTimestamp, first)
      ensures |payload| < 4 ==> learned == [] && misbehavior == old(misbehavior) + 5
      ensures |payload| >= 4 && FromLE(payload[..4]) > MAX_ADDR_TO_SEND ==> learned == [] && misbehavior == old(misbehavior) + 20
      ensures |payload| >= 4 && FromLE(payload[..4]) <= MAX_ADDR_TO_SEND ==>
        var listed := Listed(payload, 4, FromLE(payload[..4]));
        misbehavior == old(misbehavior) && learned <= listed && (|learned| < |listed| ==> addrTokens < 1.0)
    {
      learned := [];
      if |payload| < 4 {
        misbehavior := misbehavior + 5;
        return;
      }
      var count := FromLE(payload[..4]);
      if count > MAX_ADDR_TO_SEND {
        misbehavior := misbehavior + 20;
        return;
      }
      Refill(now);
      learned := TakeAddresses(payload, count);
    }

    /** The loop over the entries. */
    method TakeAddresses(payload: seq<Byte>, count: nat) returns (learned: seq<Address>)
      requires Valid() && addrTokenTimestamp != 0
      modifies this`addrTokens, this`accepted
      ensures Valid() && accepted == old(accepted) + |learned|
      ensures learned <= Listed(payload, 4, count) && (|learned| < |Listed(payload, 4, count)| ==> addrTokens < 1.0)
    {
      learned := [];
      ghost var listed := Listed(payload, 4, count);
      ghost var seen: seq<Address> := [];
      var offset := 4;
      for i := 0 to count
        invariant Valid() && accepted == old(accepted) + |learned|
        invariant listed == seen + Listed(payload, offset, count - i)
        invariant learned <= seen && (|learned| < |seen| ==> addrTokens < 1.0)
      {
        var entry := EntryAt(payload, offset);
        if entry.Broken? {
          assert Listed(payload, offset, count - i) == [];
          return;
        }
        ListedStep(payload, offset, count - i, seen);
        offset := entry.end;
        if Acceptable(entry.address) {
          seen := seen + [entry.address];
          if addrTokens >= 1.0 {
            addrTokens := addrTokens - 1.0;
            learned := learned + [entry.address];
            accepted := accepted + 1;
          }
        }
      }
      assert Listed(payload, offset, 0) == [];
    }
  }

  lemma ListedStep(payload: seq<Byte>, offset: nat, n: nat, seen: seq<Address>)
    requires n > 0 && EntryAt(payload, offset).Entry?
    ensures var e := EntryAt(payload, offset);
      seen + Listed(payload, offset, n) == (if Acceptable(e.address) then seen + [e.address] else seen) + Listed(payload, e.end, n - 1)
  {}

  /** How a message moves the time stamp. */
  predicate Ticked(stamp: int, first: int, now: int, stamp': int, first': int) {
    if stamp == 0 then stamp' == now && first' == now
    else first' == first && stamp' == (if now > stamp then now else stamp)
  }

  lemma Trickle(x: int, y: int)
    ensures ADDR_TOKENS_PER_SECOND * (x + y) as real == ADDR_TOKENS_PER_SECOND * x as real + y as real * ADDR_TOKENS_PER_SECOND
  {
    assert (x + y) as real == x as real + y as real;
  }

  /** Over any run of address messages: at most a full bucket and a tenth of an address per second. */
  method AddrRun(messages: seq<(seq<Byte>, int)>) returns (learned: seq<Address>)
    requires forall i :: 0 <= i < |messages| ==> messages[i].1 > 0
    requires forall i, j :: 0 <= i <= j < |messages| ==> messages[i].1 <= messages[j].1
    ensures |messages| > 0 ==>
      |learned| as real <= ADDR_TOKEN_BUCKET_CAP
                         + ADDR_TOKENS_PER_SECOND * (messages[|messages| - 1].1 - messages[0].1) as real
    ensures |messages| == 0 ==> learned == []
  {
    var quota := new AddrQuota();
    learned := [];
    for i := 0 to |messages|
      invariant fresh(quota) && quota.Valid() && quota.accepted == |learned|
      invariant quota.addrTokenTimestamp != 0 ==> i > 0 && messages[0].1 <= quota.first && quota.addrTokenTimestamp <= messages[i - 1].1
    {
      var more := quota.HandleAddr(messages[i].0, messages[i].1);
      learned := learned + more;
    }
    if |messages| > 0 && quota.addrTokenTimestamp != 0 {
      MoreTime(quota.addrTokenTimestamp - quota.first, messages[|messages| - 1].1 - messages[0].1);
    }
  }

  lemma MoreTime(x: int, y: int)
    requires x <= y
    ensures ADDR_TOKENS_PER_SECOND * x as real <= ADDR_TOKENS_PER_SECOND * y as real
  {
    assert x as real <= y as real;
  }

  // ---- Connections per address ----

  type NodeId = NetInFlight.NodeId

  /** The nodes connected from one address. */
  function From(nodes: map<NodeId, string>, ip: string): set<NodeId> {
    set id | id in nodes && nodes[id] == ip
  }

  /** The counter of an address; none means zero. */
  function CountOf(counts: map<string, int>, ip: string): int {
    if ip in counts then counts[ip] else 0
  }

  /** Every counter is the number of connections from its address, one more for an address whose
      connection is still being made. */
  ghost predicate Counted(counts: map<string, int>, nodes: map<NodeId, string>, pending: seq<string>) {
    && (forall ip :: ip in counts ==> 0 < counts[ip] <= MAX_CONNECTIONS_PER_IP)
    && (forall ip :: CountOf(counts, ip) == |From(nodes, ip)| + multiset(pending)[ip])
  }

  /** A peer picked to make room: of those the rounds of protection leave, the newest of the group that holds
      the most slots. */
  ghost predicate Evicted(inbound: set<NetEviction.Candidate>, v: NetEviction.Candidate) {
    exists left :: NetEviction.IsVictim(inbound, left, v)
  }

  class Connections {
    var mConnectionsPerIP: map<string, int>
    var mNodes: map<NodeId, string>

    ghost predicate Valid()
      reads this
    {
      Counted(mConnectionsPerIP, mNodes, [])
    }

    constructor ()
      ensures Valid() && mNodes == map[]
    {
      mConnectionsPerIP, mNodes := map[], map[];
      new;
      forall ip
        ensures |From(map[], ip)| == 0
      {
        assert From(map[], ip) == {};
      }
    }

    method CheckConnectionLimitForIP(ip: string) returns (ok: bool)
      requires Valid()
      modifies this`mConnectionsPerIP
      ensures ok <==> |From(mNodes, ip)| < MAX_CONNECTIONS_PER_IP
      ensures ok ==> Counted(mConnectionsPerIP, mNodes, [ip])
      ensures !ok ==> Valid() && mConnectionsPerIP == old(mConnectionsPerIP)
    {
      if ip in mConnectionsPerIP {
        if mConnectionsPerIP[ip] >= MAX_CONNECTIONS_PER_IP {
          return false;
        }
        mConnectionsPerIP := mConnectionsPerIP[ip := mConnectionsPerIP[ip] + 1];
      } else {
        mConnectionsPerIP := mConnectionsPerIP[ip := 1];
      }
      ok := true;
    }

    method DecrementConnectionCount(ip: string)
      modifies this`mConnectionsPerIP
      ensures mConnectionsPerIP == Decremented(old(mConnectionsPerIP), ip)
    {
      if ip in mConnectionsPerIP {
        var left := mConnectionsPerIP[ip] - 1;
        mConnectionsPerIP := mConnectionsPerIP[ip := left];
        if left <= 0 {
          mConnectionsPerIP := mConnectionsPerIP - {ip};
        }
      }
    }

    /** Take a node off the list; a node not on it is left alone. */
    method DisconnectNode(id: NodeId, ghost pending: seq<string>)
      requires Counted(mConnectionsPerIP, mNodes, pending)
      modifies this
      ensures Counted(mConnectionsPerIP, mNodes, pending) && mNodes == old(mNodes) - {id}
    {
      if id in mNodes {
        var ip := mNodes[id];
        NodeGone(mConnectionsPerIP, mNodes, pending, id);
        DecrementConnectionCount(ip);
        mNodes := mNodes - {id};
      }
    }

    /** Accept a connection: within the limit of its address, and evicting a peer when full. */
    method Accept(id: NodeId, ip: string, atCapacity: bool, inbound: set<NetEviction.Candidate>) returns (ok: bool)
      requires Valid() && id !in mNodes && forall c :: c in inbound ==> c.id in mNodes
      modifies this
      ensures Valid()
      ensures ok ==> |From(old(mNodes), ip)| < MAX_CONNECTIONS_PER_IP
      ensures ok && atCapacity ==> |inbound| > NetEviction.AlwaysProtected()
      ensures |From(old(mNodes), ip)| < MAX_CONNECTIONS_PER_IP ==>
        (!atCapacity || (|inbound| > NetEviction.AlwaysProtected() && NetEviction.Known(inbound))) ==> ok
      ensures ok && !atCapacity ==> mNodes == old(mNodes)[id := ip]
      ensures ok && atCapacity ==> exists v :: Evicted(inbound, v) && mNodes == (old(mNodes) - {v.id})[id := ip]
      ensures !ok ==> mNodes == old(mNodes)
    {
      ok := CheckConnectionLimitForIP(ip);
      if !ok {
        return;
      }
      if atCapacity {
        var victim := NetEviction.EvictOneInboundPeer(inbound);
        if victim.None? {
          PendingGone(mConnectionsPerIP, mNodes, ip);
          DecrementConnectionCount(ip);
          return false;
        }
        DisconnectNode(victim.value.id, [ip]);
        assert Evicted(inbound, victim.value);
      }
      PendingDone(mConnectionsPerIP, mNodes, ip, id);
      mNodes := mNodes[id := ip];
    }

    /** Connect out; a failure to resolve or connect gives the slot back. */
    method ConnectToAddress(id: NodeId, ip: string, reached: bool) returns (ok: bool)
      requires Valid() && id !in mNodes
      modifies this
      ensures Valid()
      ensures ok <==> reached && |From(old(mNodes), ip)| < MAX_CONNECTIONS_PER_IP
      ensures mNodes == if ok then old(mNodes)[id := ip] else old(mNodes)
    {
      ok := CheckConnectionLimitForIP(ip);
      if !ok {
        return;
      }
      if !reached {
        PendingGone(mConnectionsPerIP, mNodes, ip);
        DecrementConnectionCount(ip);
        return false;
      }
      PendingDone(mConnectionsPerIP, mNodes, ip, id);
      mNodes := mNodes[id := ip];
    }
  }

  function Decremented(counts: map<string, int>, ip: string): map<string, int> {
    if ip !in counts then counts
    else if counts[ip] <= 1 then counts - {ip}
    else counts[ip := counts[ip] - 1]
  }

  lemma NodeGone(counts: map<string, int>, nodes: map<NodeId, string>, pending: seq<string>, id: NodeId)
    requires Counted(counts, nodes, pending) && id in nodes
    ensures Counted(Decremented(counts, nodes[id]), nodes - {id}, pending)
  {
    var gone := nodes[id];
    forall ip
      ensures CountOf(Decremented(counts, gone), ip) == |From(nodes - {id}, ip)| + multiset(pending)[ip]
    {
      if ip == gone {
        assert From(nodes, ip) == From(nodes - {id}, ip) + {id};
      } else {
        assert From(nodes, ip) == From(nodes - {id}, ip);
      }
    }
  }

  lemma PendingGone(counts: map<string, int>, nodes: map<NodeId, string>, ip: string)
    requires Counted(counts, nodes, [ip])
    ensures Counted(Decremented(counts, ip), nodes, [])
  {
    forall x
      ensures CountOf(Decremented(counts, ip), x) == |From(nodes, x)| + multiset([])[x]
    {
      assert CountOf(counts, x) == |From(nodes, x)| + multiset([ip])[x];
    }
  }

  lemma PendingDone(counts: map<string, int>, nodes: map<NodeId, string>, ip: string, id: NodeId)
    requires Counted(counts, nodes, [ip]) && id !in nodes
    ensures Counted(counts, nodes[id := ip], [])
  {
    forall x
      ensures CountOf(counts, x) == |From(nodes[id := ip], x)| + multiset([])[x]
    {
      assert CountOf(counts, x) == |From(nodes, x)| + multiset([ip])[x];
      OneMoreNode(nodes, ip, id, x);
    }
  }

  lemma OneMoreNode(nodes: map<NodeId, string>, ip: string, id: NodeId, x: string)
    requires id !in nodes
    ensures |From(nodes[id := ip], x)| == |From(nodes, x)| + multiset([ip])[x]
  {
    if x == ip {
      assert From(nodes[id := ip], x) == From(nodes, x) + {id};
    } else {
      assert From(nodes[id := ip], x) == From(nodes, x);
    }
  }

  /** So no address ever holds more than three connections. */
  lemma LimitHolds(counts: map<string, int>, nodes: map<NodeId, string>, pending: seq<string>, ip: string)
    requires Counted(counts, nodes, pending)
    ensures |From(nodes, ip)| <= MAX_CONNECTIONS_PER_IP
  {
    assert CountOf(counts, ip) == |From(nodes, ip)| + multiset(pending)[ip];
  }
}
