/** Making room for a new connection: who is protected and who is evicted. */
module NetEviction {
  import opened Bytes
  import opened Graph
  import opened Wrappers
  import NetInFlight

  const EVICT_PROTECT_BY_NETGROUP := 4
  const EVICT_PROTECT_BY_PING := 8
  const EVICT_PROTECT_BY_TX := 4
  const EVICT_PROTECT_BY_BLOCKS := 4

  /** An inbound peer, fully connected. */
  datatype Candidate = Candidate(
    id: NetInFlight.NodeId, group: string, keyedGroup: U64, connTime: I64, minPing: I64, lastBlock: I64, lastTx: I64)

  datatype Criterion = NetGroup | Ping | Tx | Blocks | Age

  /** The order in which a criterion protects: the lower the earlier. */
  function Rank(rule: Criterion, c: Candidate): int {
    match rule
    case NetGroup => c.keyedGroup
    case Ping => c.minPing
    case Tx => -(c.lastTx as int)
    case Blocks => -(c.lastBlock as int)
    case Age => c.connTime
  }

  /** How many each criterion protects; the last protects half of those left. */
  function Quota(rule: Criterion, all: nat): nat {
    match rule
    case NetGroup => EVICT_PROTECT_BY_NETGROUP
    case Ping => EVICT_PROTECT_BY_PING
    case Tx => EVICT_PROTECT_BY_TX
    case Blocks => EVICT_PROTECT_BY_BLOCKS
    case Age => if all <= AlwaysProtected() then 0 else (all - AlwaysProtected()) / 2
  }

  function AlwaysProtected(): nat {
    EVICT_PROTECT_BY_NETGROUP + EVICT_PROTECT_BY_PING + EVICT_PROTECT_BY_TX + EVICT_PROTECT_BY_BLOCKS
  }

  /** The others that a criterion protects no later than v. */
  ghost function NoWorse(rule: Criterion, s: set<Candidate>, v: Candidate): set<Candidate> {
    set a | a in s && a != v && Rank(rule, a) <= Rank(rule, v)
  }

  // ---- Protecting the best ----

  method Best(rule: Criterion, s: set<Candidate>) returns (best: Candidate)
    requires s != {}
    ensures best in s && forall a :: a in s ==> Rank(rule, best) <= Rank(rule, a)
  {
    best :| best in s;
    var todo := s - {best};
    while todo != {}
      invariant todo <= s && best in s && forall a :: a in s && a !in todo ==> Rank(rule, best) <= Rank(rule, a)
      decreases |todo|
    {
      var a :| a in todo;
      if Rank(rule, a) < Rank(rule, best) { best := a; }
      todo := todo - {a};
    }
  }

  /** The k best are off the list, or all; of candidates of the same rank it may be any. */
  ghost predicate Round(k: nat, rule: Criterion, s: set<Candidate>, rest: set<Candidate>) {
    && rest <= s && |rest| == (if |s| <= k then 0 else |s| - k)
    && forall a, b :: a in s && a !in rest && b in rest ==> Rank(rule, a) <= Rank(rule, b)
  }

  method ProtectBest(k: nat, rule: Criterion, s: set<Candidate>) returns (rest: set<Candidate>)
    ensures Round(k, rule, s, rest)
  {
    if |s| <= k {
      return {};
    }
    rest := s;
    for i := 0 to k
      invariant rest <= s && |rest| == |s| - i
      invariant forall a, b :: a in s && a !in rest && b in rest ==> Rank(rule, a) <= Rank(rule, b)
    {
      var best := Best(rule, rest);
      rest := rest - {best};
    }
  }

  /** Whoever is left is behind the k protected. */
  lemma BehindProtected(k: nat, rule: Criterion, s: set<Candidate>, rest: set<Candidate>, all: set<Candidate>, v: Candidate)
    requires Round(k, rule, s, rest) && s <= all && v in rest
    ensures |NoWorse(rule, all, v)| >= k
  {
    var taken := s - rest;
    assert s == taken + rest && |s| == |taken| + |rest|;
    SubsetSize(taken, NoWorse(rule, all, v));
  }

  // ---- The group that holds the most slots ----

  function Members(s: set<Candidate>, group: string): set<Candidate> {
    set c | c in s && c.group == group
  }

  ghost predicate OldestIs(s: set<Candidate>, t: int) {
    (exists c :: c in s && c.connTime == t) && forall c :: c in s ==> t <= c.connTime
  }

  lemma OldestUnique(s: set<Candidate>, t: int)
    requires OldestIs(s, t)
    ensures forall u :: OldestIs(s, u) ==> u == t
  {
    forall u | OldestIs(s, u)
      ensures u == t
    {
      var c :| c in s && c.connTime == t;
      var d :| d in s && d.connTime == u;
    }
  }

  method Oldest(s: set<Candidate>) returns (t: int)
    requires s != {}
    ensures OldestIs(s, t)
  {
    var c := Best(Age, s);
    assert forall a :: a in s ==> Rank(Age, c) <= Rank(Age, a);
    t := c.connTime;
  }

  /** No group has more members, and of those with as many none has a younger oldest member. */
  ghost predicate IsWorst(s: set<Candidate>, group: string, oldest: int) {
    && OldestIs(Members(s, group), oldest)
    && forall c, t :: c in s && OldestIs(Members(s, c.group), t) ==>
         (|Members(s, c.group)| < |Members(s, group)| || (|Members(s, c.group)| == |Members(s, group)| && t <= oldest))
  }

  method WorstGroup(s: set<Candidate>) returns (group: string, ghost oldest: int)
    requires s != {}
    ensures IsWorst(s, group, oldest)
  {
    var todo := set c | c in s :: c.group;
    var worstCount: nat, worstOldest: int := 0, 0;
    group := "";
    while todo != {}
      invariant forall g :: g in todo ==> exists c :: c in s && c.group == g
      invariant worstCount == 0 ==> forall c :: c in s ==> c.group in todo
      invariant worstCount > 0 ==> worstCount == |Members(s, group)| && OldestIs(Members(s, group), worstOldest)
      invariant worstCount > 0 ==> forall c, t :: c in s && c.group !in todo && OldestIs(Members(s, c.group), t) ==>
          (|Members(s, c.group)| < worstCount || (|Members(s, c.group)| == worstCount && t <= worstOldest))
      decreases |todo|
    {
      var g :| g in todo;
      var members := Members(s, g);
      assert members != {} by {
        var c :| c in s && c.group == g;
        assert c in members;
      }
      var t := Oldest(members);
      OldestUnique(members, t);
      if |members| > worstCount || (|members| == worstCount && t > worstOldest) {
        worstCount, worstOldest, group := |members|, t, g;
      }
      todo := todo - {g};
    }
    assert worstCount > 0 by {
      var c :| c in s;
      assert worstCount == 0 ==> c.group in todo;
    }
    oldest := worstOldest;
  }

  /** The member of the group that connected last. */
  method Newest(s: set<Candidate>, group: string) returns (victim: Option<Candidate>)
    ensures victim.Some? <==> exists c :: c in s && c.group == group && c.connTime > -1
    ensures victim.Some? ==> victim.value in s && victim.value.group == group
    ensures victim.Some? ==> forall c :: c in s && c.group == group ==> c.connTime <= victim.value.connTime
  {
    victim := None;
    var newest: int := -1;
    var todo := s;
    while todo != {}
      invariant todo <= s
      invariant victim.None? ==> newest == -1
      invariant victim.Some? ==> victim.value in s && victim.value.group == group && victim.value.connTime == newest > -1
      invariant forall c :: c in s && c !in todo && c.group == group ==> c.connTime <= newest
      decreases |todo|
    {
      var c :| c in todo;
      if c.group == group && c.connTime > newest {
        newest := c.connTime;
        victim := Some(c);
      }
      todo := todo - {c};
    }
  }

  // ---- Eviction ----

  /** Enough others are at least as well protected by every criterion. */
  ghost predicate Unprotected(all: set<Candidate>, v: Candidate) {
    forall rule :: |NoWorse(rule, all, v)| >= Quota(rule, |all|)
  }

  /** What the five rounds of protection leave. */
  ghost predicate Rounds(all: set<Candidate>, left: set<Candidate>) {
    exists first, second, third, fourth ::
      && Round(EVICT_PROTECT_BY_NETGROUP, NetGroup, all, first)
      && Round(EVICT_PROTECT_BY_PING, Ping, first, second)
      && Round(EVICT_PROTECT_BY_TX, Tx, second, third)
      && Round(EVICT_PROTECT_BY_BLOCKS, Blocks, third, fourth)
      && Round(|fourth| / 2, Age, fourth, left)
  }

  /** Of those the rounds leave, the newest in the group that holds the most slots. */
  ghost predicate IsVictim(all: set<Candidate>, left: set<Candidate>, v: Candidate) {
    && Rounds(all, left) && v in left
    && (exists oldest :: IsWorst(left, v.group, oldest))
    && forall c :: c in left && c.group == v.group ==> c.connTime <= v.connTime
  }

  /** Whoever is left is unprotected, and half of those beyond the fixed quotas are left. */
  lemma RoundsLeave(all: set<Candidate>, left: set<Candidate>)
    requires Rounds(all, left)
    ensures left <= all && forall v :: v in left ==> Unprotected(all, v)
    ensures |left| == if |all| <= AlwaysProtected() then 0 else (|all| - AlwaysProtected() + 1) / 2
  {
    var first, second, third, fourth :|
      && Round(EVICT_PROTECT_BY_NETGROUP, NetGroup, all, first)
      && Round(EVICT_PROTECT_BY_PING, Ping, first, second)
      && Round(EVICT_PROTECT_BY_TX, Tx, second, third)
      && Round(EVICT_PROTECT_BY_BLOCKS, Blocks, third, fourth)
      && Round(|fourth| / 2, Age, fourth, left);
    forall v | v in left
      ensures Unprotected(all, v)
    {
      BehindProtected(EVICT_PROTECT_BY_NETGROUP, NetGroup, all, first, all, v);
      BehindProtected(EVICT_PROTECT_BY_PING, Ping, first, second, all, v);
      BehindProtected(EVICT_PROTECT_BY_TX, Tx, second, third, all, v);
      BehindProtected(EVICT_PROTECT_BY_BLOCKS, Blocks, third, fourth, all, v);
      BehindProtected(|fourth| / 2, Age, fourth, left, all, v);
      forall rule
        ensures |NoWorse(rule, all, v)| >= Quota(rule, |all|)
      {
        match rule
        case NetGroup =>
        case Ping =>
        case Tx =>
        case Blocks =>
        case Age =>
      }
    }
  }

  /** The five rounds; the code stops early when nobody is left. */
  method Protect(all: set<Candidate>) returns (left: set<Candidate>)
    ensures Rounds(all, left)
  {
    var first := ProtectBest(EVICT_PROTECT_BY_NETGROUP, NetGroup, all);
    var second, third, fourth := {}, {}, {};
    left := {};
    if first != {} {
      second := ProtectBest(EVICT_PROTECT_BY_PING, Ping, first);
    }
    if second != {} {
      third := ProtectBest(EVICT_PROTECT_BY_TX, Tx, second);
    }
    if third != {} {
      fourth := ProtectBest(EVICT_PROTECT_BY_BLOCKS, Blocks, third);
    }
    if fourth != {} {
      left := ProtectBest(|fourth| / 2, Age, fourth);
    }
    assert Round(EVICT_PROTECT_BY_PING, Ping, first, second);
    assert Round(EVICT_PROTECT_BY_TX, Tx, second, third);
    assert Round(EVICT_PROTECT_BY_BLOCKS, Blocks, third, fourth);
    assert Round(|fourth| / 2, Age, fourth, left);
  }

  /** Every peer is in a group and has a time of connection. */
  predicate Known(all: set<Candidate>) {
    forall c :: c in all ==> c.group != "" && c.connTime >= 0
  }

  /** The peer to evict, if there is one. A peer with fewer others at least as good by some criterion than
      that criterion protects is never it. */
  method EvictOneInboundPeer(all: set<Candidate>) returns (victim: Option<Candidate>)
    ensures victim.Some? ==> exists left :: IsVictim(all, left, victim.value)
    ensures victim.Some? ==> Unprotected(all, victim.value)
    ensures |all| <= AlwaysProtected() ==> victim.None?
    ensures |all| > AlwaysProtected() && Known(all) ==> victim.Some?
  {
    var left := Protect(all);
    RoundsLeave(all, left);
    if left == {} {
      return None;
    }
    var group, oldest := WorstGroup(left);
    assert exists c :: c in left && c.group == group by {
      var c :| c in Members(left, group) && c.connTime == oldest;
    }
    if group == "" {
      return None;
    }
    victim := Newest(left, group);
    if victim.Some? {
      assert IsVictim(all, left, victim.value);
    }
  }
}
