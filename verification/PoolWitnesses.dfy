/** Runs of the pool that show where its limits and its order end. */
module PoolWitnesses {
  import opened Bytes
  import opened Graph
  import opened PoolModel
  import opened PoolGraph
  import opened MempoolPolicy
  import opened PoolRuns
  import opened Transactions

  /** The length of the chain: one more than an ancestry may have. */
  const LAST := MAX_ANCESTORS + 1

  /** A name for each transaction of the chain; name 0 is a confirmed one. */
  function Name(k: nat): Bytes32
    requires k <= LAST
  {
    [k] + Zeros(31)
  }

  lemma NamesDiffer(i: nat, j: nat)
    requires i <= LAST && j <= LAST
    ensures Name(i) == Name(j) <==> i == j
  {
    assert Name(i)[0] == i && Name(j)[0] == j;
  }

  /** An input that spends the first output of a transaction and proves nothing. */
  function Spending(h: Bytes32): PoolIn {
    TxIn(OutPoint(h, 0), Zeros(32), Zeros(32), Zeros(64), NoiseBlob([], true))
  }

  /** Transaction k spends the only output of transaction k - 1. */
  function Link(k: nat): Transaction
    requires 1 <= k <= LAST
  {
    Transaction(Name(k), [Spending(Name(k - 1))], 1, DUST_THRESHOLD, 1000, false, true)
  }

  function Add(k: nat): Event
    requires 1 <= k <= LAST
  {
    Added(Link(k), 1000, 0, 1000)
  }

  lemma LinkNames(k: nat, a: Bytes32)
    requires 1 <= k <= LAST
    ensures NamesParent(Link(k), a) <==> a == Name(k - 1)
    ensures forall o :: SpendsOutPoint(Link(k), o) <==> o == OutPoint(Name(k - 1), 0)
  {
    var o := OutPoint(Name(k - 1), 0);
    assert Link(k).inputs[0].prevOut == o;
    assert SpendsOutPoint(Link(k), o);
  }

  ghost predicate IsLink(e: Entry, k: nat)
    requires 1 <= k <= LAST
  {
    e.tx == Link(k) && e.size == 1000 && e.entryTime == 0 && e.leafKeys == [] && e.feePerK == 1000
  }

  ghost predicate IsLinkOf(ix: Index, s: set<int>, h: Bytes32) {
    exists k :: k in s && 1 <= k <= LAST && h == Name(k)
  }

  /** The pool holds exactly the transactions of the chain with these numbers. */
  ghost predicate HoldsLinks(ix: Index, s: set<int>) {
    && (forall k {:trigger k in s} :: k in s ==> 1 <= k <= LAST && Name(k) in ix && IsLink(ix[Name(k)], k))
    && (forall h :: h in ix ==> IsLinkOf(ix, s, h))
  }

  ghost function Names(lo: nat, hi: nat): set<Bytes32>
    requires hi <= LAST + 1
  {
    set k | lo <= k < hi :: Name(k)
  }

  lemma {:induction false} NamesCount(lo: nat, hi: nat)
    requires lo <= hi <= LAST + 1
    ensures |Names(lo, hi)| == hi - lo
    decreases hi - lo
  {
    if lo < hi {
      NamesCount(lo, hi - 1);
      assert Name(hi - 1) !in Names(lo, hi - 1) by {
        if Name(hi - 1) in Names(lo, hi - 1) {
          var k :| lo <= k < hi - 1 && Name(k) == Name(hi - 1);
          NamesDiffer(k, hi - 1);
        }
      }
      assert Names(lo, hi) == Names(lo, hi - 1) + {Name(hi - 1)};
    } else {
      assert Names(lo, hi) == {};
    }
  }

  // ---- Ancestors and descendants in the chain ----

  /** An entry named by another is the one before it. */
  lemma EdgeDown(ix: Index, s: set<int>, a: Bytes32, b: Bytes32) returns (k: nat)
    requires HoldsLinks(ix, s) && Edge(ParentGraph(ix), a, b)
    ensures k in s && 2 <= k <= LAST && k - 1 in s && a == Name(k) && b == Name(k - 1)
  {
    assert IsLinkOf(ix, s, a);
    k :| k in s && 1 <= k <= LAST && a == Name(k);
    LinkNames(k, b);
    KeyOfLink(ix, s, k - 1);
  }

  lemma KeyOfLink(ix: Index, s: set<int>, k: nat)
    requires HoldsLinks(ix, s) && k <= LAST
    ensures Name(k) in ix <==> k in s
    ensures Name(k) in ix ==> k >= 1
  {
    if Name(k) in ix {
      assert IsLinkOf(ix, s, Name(k));
      var j :| j in s && 1 <= j <= LAST && Name(k) == Name(j);
      NamesDiffer(k, j);
    }
  }

  /** Where the chain is broken, the ancestry ends. */
  lemma AncestorsEnd(ix: Index, s: set<int>, k: nat, lo: nat)
    requires HoldsLinks(ix, s) && 1 <= lo <= k <= LAST && lo - 1 !in s
    ensures Ancestors(ix, Link(k)) <= Names(lo, k) && |Ancestors(ix, Link(k))| <= k - lo
  {
    var all := Names(lo, k);
    forall a, b | a in all && Edge(ParentGraph(ix), a, b)
      ensures b in all
    {
      var j := EdgeDown(ix, s, a, b);
      var i :| lo <= i < k && a == Name(i);
      NamesDiffer(i, j);
    }
    forall b | b in DirectParents(ix, Link(k))
      ensures b in all
    {
      LinkNames(k, b);
      KeyOfLink(ix, s, k - 1);
    }
    ReachLeast(ParentGraph(ix), DirectParents(ix, Link(k)), all);
    NamesCount(lo, k);
    SubsetSize(Ancestors(ix, Link(k)), all);
  }

  /** Where it is whole, the ancestry goes on. */
  lemma {:induction false} AncestorsGoOn(ix: Index, s: set<int>, k: nat, j: nat, all: set<Bytes32>)
    requires HoldsLinks(ix, s) && 1 <= j < k <= LAST && (forall i :: j <= i < k ==> i in s) && all == Ancestors(ix, Link(k))
    ensures Name(j) in all
    decreases k - j
  {
    assert j in s;
    if j == k - 1 {
      LastIsParent(ix, s, k, j, all);
    } else {
      AncestorsGoOn(ix, s, k, j + 1, all);
      assert j + 1 in s;
      PreviousIsAncestor(ix, s, k, j + 1, j, all);
    }
  }

  lemma LastIsParent(ix: Index, s: set<int>, k: nat, j: nat, all: set<Bytes32>)
    requires HoldsLinks(ix, s) && 1 <= j < k <= LAST && j == k - 1 && j in s && all == Ancestors(ix, Link(k))
    ensures Name(j) in all
  {
    LinkNames(k, Name(j));
    ParentIsAncestor(ix, Link(k), Name(j));
  }

  lemma PreviousIsAncestor(ix: Index, s: set<int>, k: nat, i: nat, j: nat, all: set<Bytes32>)
    requires HoldsLinks(ix, s) && 1 <= j < i < k <= LAST && i == j + 1 && i in s && j in s
    requires all == Ancestors(ix, Link(k)) && Name(i) in all
    ensures Name(j) in all
  {
    EdgeToPrevious(ix, s, i);
    AncestorOfAncestor(ix, Link(k), Name(i), Name(j));
  }

  lemma EdgeToPrevious(ix: Index, s: set<int>, k: nat)
    requires HoldsLinks(ix, s) && 1 < k <= LAST && k in s && k - 1 in s
    ensures Edge(ParentGraph(ix), Name(k), Name(k - 1))
  {
    LinkNames(k, Name(k - 1));
  }

  lemma NotSpent(ix: Index, s: set<int>, k: nat, b: Bytes32)
    requires HoldsLinks(ix, s) && k <= LAST && k + 1 !in s
    ensures !SpendsFrom(ix, Name(k), b)
  {
    if b in ix {
      assert IsLinkOf(ix, s, b);
      var j :| j in s && 1 <= j <= LAST && b == Name(j);
      LinkNames(j, Name(k));
      NamesDiffer(j - 1, k);
    }
  }

  /** An entry nobody spends has no descendants but itself. */
  lemma NoDescendants(ix: Index, s: set<int>, k: nat)
    requires HoldsLinks(ix, s) && k <= LAST && k + 1 !in s
    ensures |Descendants(ix, Name(k))| <= 1
  {
    var alone := {Name(k)};
    forall b
      ensures !Edge(ChildGraph(ix), Name(k), b)
    {
      NotSpent(ix, s, k, b);
    }
    ReachLeast(ChildGraph(ix), alone, alone);
    SubsetSize(Descendants(ix, Name(k)), alone);
  }

  // ---- One admission ----

  lemma NoLeafKeys(k: nat)
    requires 1 <= k <= LAST
    ensures LeafKeysOf(Link(k).inputs) == []
  {
    assert Link(k).inputs[..0] == [];
  }

  lemma LinkContestsNothing(ix: Index, s: set<int>, k: nat, h: Bytes32)
    requires HoldsLinks(ix, s) && 1 <= k <= LAST && k !in s && h in ix
    ensures !ConflictsOn(ix[h], Link(k)) && !SharesLeaf(ix[h], Link(k))
  {
    assert IsLinkOf(ix, s, h);
    var j :| j in s && 1 <= j <= LAST && h == Name(j);
    LinkNames(j, h);
    LinkNames(k, h);
    NamesDiffer(j - 1, k - 1);
  }

  lemma LinkFamilyFits(ix: Index, s: set<int>, k: nat, lo: nat)
    requires HoldsLinks(ix, s) && 1 <= lo <= k <= LAST && lo - 1 !in s && k !in s && k - lo < MAX_ANCESTORS
    ensures FamilyLimitsOk(ix, Link(k))
  {
    AncestorsEnd(ix, s, k, lo);
    NoDescendants(ix, s, k - 1);
    forall a | a in DirectParents(ix, Link(k))
      ensures |Descendants(ix, a)| + 1 <= MAX_DESCENDANTS
    {
      LinkNames(k, a);
    }
  }

  lemma LinkFits(ix: Index, s: set<int>, k: nat, lo: nat)
    requires HoldsLinks(ix, s) && 1 <= lo <= k <= LAST && lo - 1 !in s && k !in s && k - lo < MAX_ANCESTORS
    ensures Admissible(ix, Link(k), 1000, 1000)
  {
    KeyOfLink(ix, s, k);
    NoLeafKeys(k);
    forall h | h in ix
      ensures !ConflictsOn(ix[h], Link(k)) && !SharesLeaf(ix[h], Link(k))
    {
      LinkContestsNothing(ix, s, k, h);
    }
    LinkFamilyFits(ix, s, k, lo);
  }

  lemma {:induction false} SizesOfLinks(ix: Index)
    requires forall h :: h in ix ==> ix[h].size == 1000
    ensures SumSizes(ix) == 1000 * |ix|
    decreases |ix|
  {
    if ix != map[] {
      var h :| h in ix;
      var rest := ix - {h};
      SumSizesRemove(ix, h);
      assert rest.Keys == ix.Keys - {h};
      assert |rest| == |ix| - 1;
      SizesOfLinks(rest);
    }
  }

  lemma LinksFit(ix: Index, s: set<int>)
    requires HoldsLinks(ix, s)
    ensures SumSizes(ix) <= 1000 * LAST
  {
    forall h | h in ix
      ensures ix[h].size == 1000 && h in Names(1, LAST + 1)
    {
      assert IsLinkOf(ix, s, h);
    }
    SizesOfLinks(ix);
    NamesCount(1, LAST + 1);
    SubsetSize(ix.Keys, Names(1, LAST + 1));
  }

  lemma OneLinkMore(ix: Index, s: set<int>, k: nat, e: Entry)
    requires HoldsLinks(ix, s) && 1 <= k <= LAST && IsLink(e, k)
    ensures HoldsLinks(ix[Name(k) := e], s + {k})
  {
    var ix' := ix[Name(k) := e];
    forall j | j in s + {k}
      ensures 1 <= j <= LAST && Name(j) in ix' && IsLink(ix'[Name(j)], j)
    {
      NamesDiffer(j, k);
    }
    forall h | h in ix'
      ensures IsLinkOf(ix', s + {k}, h)
    {
      if h != Name(k) {
        assert IsLinkOf(ix, s, h);
        var j :| j in s && 1 <= j <= LAST && h == Name(j);
        assert j in s + {k};
      } else {
        assert k in s + {k};
      }
    }
  }

  lemma AllUnexpired(ix: Index, s: set<int>)
    requires HoldsLinks(ix, s)
    ensures Unexpired(ix, 0) == ix
  {
    forall h | h in ix
      ensures h in Unexpired(ix, 0)
    {
      assert IsLinkOf(ix, s, h);
    }
  }

  /** Link k is admitted when its ancestry within the pool is short enough. */
  lemma LinkAdmitted(st: State, s: set<int>, k: nat, lo: nat, maxBytes: nat)
    requires Sound(st) && HoldsLinks(st.index, s) && maxBytes >= 1000 * LAST
    requires 1 <= lo <= k <= LAST && lo - 1 !in s && k !in s && k - lo < MAX_ANCESTORS
    ensures var next := Next(st, maxBytes, Add(k));
      && next == State(st.index[Name(k) := Admitted(Link(k), 1000, 0, st.counter + 1)], st.counter + 1)
      && Sound(next) && HoldsLinks(next.index, s + {k})
  {
    var e := Admitted(Link(k), 1000, 0, st.counter + 1);
    AllUnexpired(st.index, s);
    LinkFits(st.index, s, k, lo);
    AddedOutcome(st, st, maxBytes, Add(k));
    NoLeafKeys(k);
    OneLinkMore(st.index, s, k, e);
    LinksFit(st.index[Name(k) := e], s + {k});
    SoundAfterInsert(st, e);
  }

  // ---- The run ----

  /** The first n transactions of the chain, in order. */
  function Adds(n: nat): (events: seq<Event>)
    requires n <= LAST
  {
    seq(n, i requires 0 <= i < n => Add(i + 1))
  }

  lemma AddsMore(n: nat)
    requires 1 <= n <= LAST
    ensures Adds(n) == Adds(n - 1) + [Add(n)]
  {}

  ghost predicate UpTo(s: set<int>, n: nat) {
    forall k :: k in s <==> 1 <= k <= n
  }

  lemma RunMore(events: seq<Event>, e: Event, maxBytes: nat)
    ensures Run(events + [e], maxBytes) == Next(Run(events, maxBytes), maxBytes, e)
  {
    assert (events + [e])[..|events|] == events;
  }

  lemma {:induction false} ChainBuilt(n: nat, events: seq<Event>, maxBytes: nat) returns (s: set<int>)
    requires n <= MAX_ANCESTORS && maxBytes >= 1000 * LAST && events == Adds(n)
    ensures UpTo(s, n) && HoldsLinks(Run(events, maxBytes).index, s)
  {
    if n == 0 {
      s := {};
    } else {
      var fewer := ChainBuilt(n - 1, Adds(n - 1), maxBytes);
      s := ChainLonger(n, Adds(n - 1), events, fewer, maxBytes);
    }
  }

  lemma ChainLonger(n: nat, shorter: seq<Event>, events: seq<Event>, fewer: set<int>, maxBytes: nat) returns (s: set<int>)
    requires 1 <= n <= MAX_ANCESTORS && maxBytes >= 1000 * LAST
    requires shorter == Adds(n - 1) && events == Adds(n) && UpTo(fewer, n - 1)
    requires HoldsLinks(Run(shorter, maxBytes).index, fewer)
    ensures UpTo(s, n) && HoldsLinks(Run(events, maxBytes).index, s)
  {
    AddsMore(n);
    LinkAfter(shorter, fewer, n, maxBytes);
    s := fewer + {n};
  }

  lemma LinkAfter(events: seq<Event>, s: set<int>, n: nat, maxBytes: nat)
    requires 1 <= n <= MAX_ANCESTORS && maxBytes >= 1000 * LAST && 0 !in s && n !in s
    requires HoldsLinks(Run(events, maxBytes).index, s)
    ensures HoldsLinks(Run(events + [Add(n)], maxBytes).index, s + {n})
  {
    LinkStep(Run(events, maxBytes), s, n, 1, maxBytes);
    RunMore(events, Add(n), maxBytes);
  }

  lemma LinkRemoved(ix: Index, s: set<int>, k: nat)
    requires HoldsLinks(ix, s) && 1 <= k <= LAST
    ensures HoldsLinks(ix - {Name(k)}, s - {k})
  {
    var ix' := ix - {Name(k)};
    forall j | j in s - {k}
      ensures 1 <= j <= LAST && Name(j) in ix' && IsLink(ix'[Name(j)], j)
    {
      NamesDiffer(j, k);
    }
    forall h | h in ix'
      ensures IsLinkOf(ix', s - {k}, h)
    {
      assert IsLinkOf(ix, s, h);
      var j :| j in s && 1 <= j <= LAST && h == Name(j);
      assert j in s - {k};
    }
  }

  /** A chain of n, one of its transactions removed, the chain extended at its end, and that transaction
      admitted again. */
  function BreakingRun(n: nat, cut: nat): seq<Event>
    requires 1 <= cut <= n < LAST
  {
    Adds(n) + [Removed(Name(cut))] + [Add(n + 1)] + [Add(cut)]
  }

  /** Every admission passes its check, and in the end the last transaction of the chain has 25 unconfirmed
      ancestors, whichever was removed meanwhile. */
  lemma BreaksAncestorBound(n: nat, cut: nat, maxBytes: nat)
    requires n == MAX_ANCESTORS && 1 <= cut <= n && maxBytes >= 1000 * LAST
    ensures !AncestorsBounded(Run(BreakingRun(n, cut), maxBytes).index)
  {
    var all := ChainBuilt(n, Adds(n), maxBytes);
    CutAndExtended(Adds(n), all, n, cut, maxBytes);
  }

  lemma CutAndExtended(built: seq<Event>, all: set<int>, n: nat, cut: nat, maxBytes: nat)
    requires n == MAX_ANCESTORS && 1 <= cut <= n && maxBytes >= 1000 * LAST
    requires HoldsLinks(Run(built, maxBytes).index, all) && UpTo(all, n)
    ensures !AncestorsBounded(Run(built + [Removed(Name(cut))] + [Add(n + 1)] + [Add(cut)], maxBytes).index)
  {
    var broken := built + [Removed(Name(cut))];
    RunMore(built, Removed(Name(cut)), maxBytes);
    RunMore(broken, Add(n + 1), maxBytes);
    RunMore(broken + [Add(n + 1)], Add(cut), maxBytes);
    ThreeSteps(Run(built, maxBytes), all, n, cut, maxBytes);
  }

  lemma ThreeSteps(st: State, all: set<int>, n: nat, cut: nat, maxBytes: nat)
    requires n == MAX_ANCESTORS && 1 <= cut <= n && maxBytes >= 1000 * LAST
    requires Sound(st) && HoldsLinks(st.index, all) && UpTo(all, n)
    ensures Sound(Next(st, maxBytes, Removed(Name(cut))))
    ensures var broken := Next(st, maxBytes, Removed(Name(cut)));
      Sound(Next(broken, maxBytes, Add(n + 1)))
      && !AncestorsBounded(Next(Next(broken, maxBytes, Add(n + 1)), maxBytes, Add(cut)).index)
  {
    RemovedStep(st, all, cut, maxBytes);
    LastTwoSteps(Next(st, maxBytes, Removed(Name(cut))), all - {cut}, n, cut, maxBytes);
  }

  lemma RemovedStep(st: State, s: set<int>, k: nat, maxBytes: nat)
    requires Sound(st) && HoldsLinks(st.index, s) && 1 <= k <= LAST
    ensures var next := Next(st, maxBytes, Removed(Name(k)));
      Sound(next) && HoldsLinks(next.index, s - {k})
  {
    LinkRemoved(st.index, s, k);
  }

  lemma LastTwoSteps(st: State, s: set<int>, n: nat, cut: nat, maxBytes: nat)
    requires n == MAX_ANCESTORS && 1 <= cut <= n && maxBytes >= 1000 * LAST
    requires Sound(st) && HoldsLinks(st.index, s) && (forall k :: k in s <==> 1 <= k <= n && k != cut)
    ensures Sound(Next(st, maxBytes, Add(n + 1)))
    ensures !AncestorsBounded(Next(Next(st, maxBytes, Add(n + 1)), maxBytes, Add(cut)).index)
  {
    var longer := s + {n + 1};
    assert forall k :: k in longer <==> 1 <= k <= LAST && k != cut;
    LinkStep(st, s, n + 1, cut + 1, maxBytes);
    LastStep(Next(st, maxBytes, Add(n + 1)), longer, n, cut, maxBytes);
  }

  lemma LastStep(st: State, s: set<int>, n: nat, cut: nat, maxBytes: nat)
    requires n == MAX_ANCESTORS && 1 <= cut <= n && maxBytes >= 1000 * LAST
    requires Sound(st) && HoldsLinks(st.index, s) && (forall k :: k in s <==> 1 <= k <= LAST && k != cut)
    ensures !AncestorsBounded(Next(st, maxBytes, Add(cut)).index)
  {
    LinkStep(st, s, cut, 1, maxBytes);
    WholeChainTooLong(Next(st, maxBytes, Add(cut)).index, s + {cut});
  }

  lemma LinkStep(st: State, s: set<int>, k: nat, lo: nat, maxBytes: nat)
    requires Sound(st) && HoldsLinks(st.index, s) && maxBytes >= 1000 * LAST
    requires 1 <= lo <= k <= LAST && lo - 1 !in s && k !in s && k - lo < MAX_ANCESTORS
    ensures Sound(Next(st, maxBytes, Add(k))) && HoldsLinks(Next(st, maxBytes, Add(k)).index, s + {k})
  {
    LinkAdmitted(st, s, k, lo, maxBytes);
  }

  lemma WholeChainTooLong(ix: Index, s: set<int>)
    requires HoldsLinks(ix, s) && forall k :: 1 <= k <= LAST ==> k in s
    ensures !AncestorsBounded(ix)
  {
    KeyOfLink(ix, s, LAST);
    assert LAST in s;
    LongAncestry(ix, s, LAST, Ancestors(ix, Link(LAST)));
    assert ix[Name(LAST)].tx == Link(LAST);
  }

  lemma LongAncestry(ix: Index, s: set<int>, k: nat, all: set<Bytes32>)
    requires HoldsLinks(ix, s) && 1 <= k <= LAST && (forall i :: 1 <= i <= k ==> i in s)
    requires all == Ancestors(ix, Link(k))
    ensures |all + {Name(k)}| >= k
  {
    var names, long := Names(1, k + 1), all + {Name(k)};
    forall a | a in names
      ensures a in long
    {
      NamedInAncestry(ix, s, k, a);
    }
    NamesCount(1, k + 1);
    SubsetSize(names, long);
  }

  lemma NamedInAncestry(ix: Index, s: set<int>, k: nat, a: Bytes32)
    requires HoldsLinks(ix, s) && 1 <= k <= LAST && (forall i :: 1 <= i <= k ==> i in s) && a in Names(1, k + 1)
    ensures a in Ancestors(ix, Link(k)) || a == Name(k)
  {
    var i :| 1 <= i < k + 1 && a == Name(i);
    if i < k { AncestorsGoOn(ix, s, k, i, Ancestors(ix, Link(k))); }
  }

  // ---- Two entries that pay the same ----

  lemma FirstLink(maxBytes: nat) returns (one: State)
    requires maxBytes >= 1000 * LAST
    ensures one == Run([Add(1)], maxBytes) && HoldsLinks(one.index, {1})
    ensures one.index.Keys == {Name(1)} && one.counter == one.index[Name(1)].seqNo
  {
    one := Run([Add(1)], maxBytes);
    assert [] + [Add(1)] == [Add(1)];
    RunMore([], Add(1), maxBytes);
    assert {} + {1} == {1};
    LinkAdmitted(Run([], maxBytes), {}, 1, 1, maxBytes);
  }

  /** Two entries that pay the same, admitted one after the other. */
  ghost predicate TiedInOrder(ix: Index, a: Bytes32, b: Bytes32) {
    ix.Keys == {a, b} && a != b && ix[a].feePerK == ix[b].feePerK && ix[a].seqNo < ix[b].seqNo
  }

  lemma SecondLink(one: State, next: State, e: Entry)
    requires HoldsLinks(one.index, {1}) && one.index.Keys == {Name(1)} && one.counter == one.index[Name(1)].seqNo
    requires e == Admitted(Link(2), 1000, 0, one.counter + 1) && next.index == one.index[Name(2) := e]
    requires HoldsLinks(next.index, {1} + {2})
    ensures TiedInOrder(next.index, Name(1), Name(2))
  {
    NamesDiffer(1, 2);
    assert 1 in {1} && IsLink(one.index[Name(1)], 1);
  }

  /** The pool after the first two transactions of the chain. */
  lemma TwoTied(maxBytes: nat)
    requires maxBytes >= 1000 * LAST
    ensures TiedInOrder(Run([Add(1)] + [Add(2)], maxBytes).index, Name(1), Name(2))
  {
    var one := FirstLink(maxBytes);
    RunMore([Add(1)], Add(2), maxBytes);
    LinkAdmitted(one, {1}, 2, 1, maxBytes);
    SecondLink(one, Next(one, maxBytes, Add(2)), Admitted(Link(2), 1000, 0, one.counter + 1));
  }

  /** They are handed out newest first: no order of arrival. */
  lemma TiesNewestFirst(maxBytes: nat, order: seq<Bytes32>)
    requires maxBytes >= 1000 * LAST
    requires var ix := Run([Add(1)] + [Add(2)], maxBytes).index; BestFirst(ix, order) && |order| == |ix|
    ensures order == [Name(2), Name(1)]
    ensures !ArrivalOrder(Run([Add(1)] + [Add(2)], maxBytes).index, order)
  {
    TwoTied(maxBytes);
    TiedPair(Run([Add(1)] + [Add(2)], maxBytes).index, Name(1), Name(2), order);
  }

  lemma TiedPair(ix: Index, a: Bytes32, b: Bytes32, order: seq<Bytes32>)
    requires TiedInOrder(ix, a, b) && BestFirst(ix, order) && |order| == |ix|
    ensures order == [b, a] && !ArrivalOrder(ix, order)
  {
    assert |ix| == |ix.Keys| == 2;
    assert order[0] in ix.Keys && order[1] in ix.Keys;
    assert Less(FeeKey(ix[order[1]]), FeeKey(ix[order[0]]));
    assert Tied(ix, order[0], order[1]);
  }
}
