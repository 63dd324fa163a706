/** The pool as a state machine over its entries, and what holds in every state it reaches. */
module PoolRuns {
  import opened Bytes
  import opened Graph
  import opened PoolModel
  import opened PoolEviction
  import opened PoolGraph
  import opened MempoolPolicy

  /** The entries and the admission counter; everything else follows from the entries. */
  datatype State = State(index: Index, counter: nat)

  datatype Event =
    | Added(tx: Transaction, fee: int, now: int, minRate: int)
    | Removed(hash: Bytes32)
    | Connected(blockTxs: seq<Transaction>)
    | Cleared

  ghost function Admitted(tx: Transaction, fee: int, now: int, number: nat): Entry
    requires fee >= 0 && tx.size > 0
  {
    Entry(tx, fee, tx.size, FeePerK(fee, tx.size), number, now, LeafKeysOf(tx.inputs))
  }

  ghost predicate Sound(s: State) {
    EntriesOk(s.index, s.counter)
  }

  lemma SoundAfterInsert(s: State, e: Entry)
    requires Sound(s) && e.tx.hash !in s.index && e.seqNo == s.counter + 1
    ensures Sound(State(s.index[e.tx.hash := e], s.counter + 1))
  {}

  lemma SubIndexSound(s: State, small: Index)
    requires Sound(s) && SubIndex(small, s.index)
    ensures Sound(State(small, s.counter)) && Numbered(small)
  {}

  /** Filing a new entry and trimming. */
  ghost function Filed(base: State, maxBytes: nat, n: Entry): State
    requires Sound(base) && n.tx.hash !in base.index && n.seqNo == base.counter + 1
  {
    SoundAfterInsert(base, n);
    State(Trimmed(base.index[n.tx.hash := n], maxBytes), base.counter + 1)
  }

  ghost function NextAdded(s: State, maxBytes: nat, tx: Transaction, fee: int, now: int, minRate: int): State
    requires Sound(s)
  {
    SubIndexSound(s, Unexpired(s.index, now));
    Decided(State(Unexpired(s.index, now), s.counter), maxBytes, tx, fee, now, minRate)
  }

  /** The checks, and what follows from them. */
  ghost function Decided(base: State, maxBytes: nat, tx: Transaction, fee: int, now: int, minRate: int): State
    requires Sound(base)
  {
    if Admissible(base.index, tx, fee, minRate) then Filed(base, maxBytes, Admitted(tx, fee, now, base.counter + 1)) else base
  }

  ghost function Next(s: State, maxBytes: nat, e: Event): State
    requires Sound(s)
  {
    match e
    case Added(tx, fee, now, minRate) => NextAdded(s, maxBytes, tx, fee, now, minRate)
    case Removed(h) => State(s.index - {h}, s.counter)
    case Connected(txs) => State(s.index - DescendantsOfAll(s.index, Struck(s.index, txs)), s.counter)
    case Cleared => State(map[], s.counter)
  }

  /** Nothing in the pool, nor the newcomer itself, spends the newcomer. */
  ghost predicate NotYetSpent(s: State, e: Event) {
    e.Added? ==> !NamesParent(e.tx, e.tx.hash) && forall h :: h in s.index ==> !NamesParent(s.index[h].tx, e.tx.hash)
  }

  ghost predicate Fits(ix: Index, maxBytes: nat) {
    SumSizes(ix) <= maxBytes
  }

  lemma FiledKeeps(base: State, maxBytes: nat, n: Entry)
    requires Sound(base) && n.tx.hash !in base.index && n.seqNo == base.counter + 1
    ensures Sound(Filed(base, maxBytes, n)) && Fits(Filed(base, maxBytes, n).index, maxBytes)
  {
    var full := State(base.index[n.tx.hash := n], base.counter + 1);
    SoundAfterInsert(base, n);
    TrimFitsAndNeverOrphans(full.index, maxBytes);
    SubIndexSound(full, Trimmed(full.index, maxBytes));
  }

  /** The condition over the pool before keeps the ancestor bound; when nothing has to be evicted, nothing
      less does. */
  lemma FiledBoundExactly(base: State, maxBytes: nat, n: Entry)
    requires Sound(base) && n.tx.hash !in base.index && n.seqNo == base.counter + 1 && AncestorsBounded(base.index)
    ensures StaysBounded(base.index, n) ==> AncestorsBounded(Filed(base, maxBytes, n).index)
    ensures SumSizes(base.index) + n.size <= maxBytes ==>
      (AncestorsBounded(Filed(base, maxBytes, n).index) <==> StaysBounded(base.index, n))
  {
    var full := base.index[n.tx.hash := n];
    SoundAfterInsert(base, n);
    BoundExactly(base.index, n);
    SumSizesAdd(base.index, n.tx.hash, n);
    if StaysBounded(base.index, n) {
      TrimFitsAndNeverOrphans(full, maxBytes);
      RemovalKeepsAncestorBound(Trimmed(full, maxBytes), full);
    }
  }

  /** Whatever has to be evicted, the condition is one over the pool before. */
  lemma EvictedBoundExactly(base: State, maxBytes: nat, n: Entry)
    requires Sound(base) && n.tx.hash !in base.index && n.seqNo == base.counter + 1 && AncestorsBounded(base.index)
    ensures AncestorsBounded(Filed(base, maxBytes, n).index) <==> BoundSurvivesTrim(base.index, n, maxBytes)
  {
    SoundAfterInsert(base, n);
    TrimBoundExactly(base.index, n, maxBytes);
  }

  /** An admission is refused, or what it files and evicts leaves the bound in place. */
  ghost predicate DecidedKeepsBound(base: State, maxBytes: nat, tx: Transaction, fee: int, now: int, minRate: int) {
    Admissible(base.index, tx, fee, minRate) ==> BoundSurvivesTrim(base.index, Admitted(tx, fee, now, base.counter + 1), maxBytes)
  }

  ghost predicate KeepsBound(s: State, maxBytes: nat, e: Event) {
    e.Added? ==> DecidedKeepsBound(State(Unexpired(s.index, e.now), s.counter), maxBytes, e.tx, e.fee, e.now, e.minRate)
  }

  lemma DecidedBoundExactly(base: State, maxBytes: nat, tx: Transaction, fee: int, now: int, minRate: int)
    requires Sound(base) && AncestorsBounded(base.index)
    ensures AncestorsBounded(Decided(base, maxBytes, tx, fee, now, minRate).index)
      <==> DecidedKeepsBound(base, maxBytes, tx, fee, now, minRate)
  {
    if Admissible(base.index, tx, fee, minRate) {
      var n := Admitted(tx, fee, now, base.counter + 1);
      assert Decided(base, maxBytes, tx, fee, now, minRate) == Filed(base, maxBytes, n);
      EvictedBoundExactly(base, maxBytes, n);
    } else {
      assert Decided(base, maxBytes, tx, fee, now, minRate) == base;
    }
  }

  /** For a whole admission, from expiry to eviction, admitted or refused. */
  lemma AdmittedBoundExactly(s: State, maxBytes: nat, e: Event)
    requires Sound(s) && AncestorsBounded(s.index) && e.Added?
    ensures AncestorsBounded(Next(s, maxBytes, e).index) <==> KeepsBound(s, maxBytes, e)
  {
    var base := State(Unexpired(s.index, e.now), s.counter);
    ShrinkingKeeps(s, base.index, maxBytes);
    DecidedBoundExactly(base, maxBytes, e.tx, e.fee, e.now, e.minRate);
  }

  lemma FiledKeepsAncestorBound(base: State, maxBytes: nat, n: Entry)
    requires Sound(base) && n.tx.hash !in base.index && n.seqNo == base.counter + 1
    requires AncestorsBounded(base.index) && |Ancestors(base.index, n.tx)| + 1 <= MAX_ANCESTORS
    requires !NamesParent(n.tx, n.tx.hash)
    requires forall h :: h in base.index ==> !NamesParent(base.index[h].tx, n.tx.hash)
    ensures AncestorsBounded(Filed(base, maxBytes, n).index)
  {
    var full := base.index[n.tx.hash := n];
    SoundAfterInsert(base, n);
    AdmissionKeepsAncestorBound(base.index, n);
    TrimFitsAndNeverOrphans(full, maxBytes);
    RemovalKeepsAncestorBound(Trimmed(full, maxBytes), full);
  }

  /** What is left when entries are only taken away. */
  lemma ShrinkingKeeps(s: State, small: Index, maxBytes: nat)
    requires Sound(s) && SubIndex(small, s.index)
    ensures Sound(State(small, s.counter))
    ensures Fits(s.index, maxBytes) ==> Fits(small, maxBytes)
    ensures AncestorsBounded(s.index) ==> AncestorsBounded(small)
  {
    SubIndexSound(s, small);
    SumSizesMonotone(small, s.index);
    if AncestorsBounded(s.index) { RemovalKeepsAncestorBound(small, s.index); }
  }

  lemma AddedOutcome(s: State, base: State, maxBytes: nat, e: Event)
    requires Sound(s) && e.Added? && base == State(Unexpired(s.index, e.now), s.counter)
    ensures Sound(base) && Next(s, maxBytes, e) == Decided(base, maxBytes, e.tx, e.fee, e.now, e.minRate)
    ensures !Admissible(base.index, e.tx, e.fee, e.minRate) ==> Next(s, maxBytes, e) == base
    ensures Admissible(base.index, e.tx, e.fee, e.minRate)
            ==> Next(s, maxBytes, e) == Filed(base, maxBytes, Admitted(e.tx, e.fee, e.now, s.counter + 1))
  {
    SubIndexSound(s, base.index);
  }

  lemma AddedKeeps(s: State, maxBytes: nat, tx: Transaction, fee: int, now: int, minRate: int)
    requires Sound(s) && Fits(s.index, maxBytes)
    ensures Sound(NextAdded(s, maxBytes, tx, fee, now, minRate))
    ensures Fits(NextAdded(s, maxBytes, tx, fee, now, minRate).index, maxBytes)
  {
    var base := State(Unexpired(s.index, now), s.counter);
    if Admissible(base.index, tx, fee, minRate) {
      AddedOutcome(s, base, maxBytes, Added(tx, fee, now, minRate));
      FiledKeeps(base, maxBytes, Admitted(tx, fee, now, s.counter + 1));
    } else {
      AddedOutcome(s, base, maxBytes, Added(tx, fee, now, minRate));
      ShrinkingKeeps(s, base.index, maxBytes);
    }
  }

  lemma AddedKeepsAncestorBound(s: State, maxBytes: nat, tx: Transaction, fee: int, now: int, minRate: int)
    requires Sound(s) && AncestorsBounded(s.index) && NotYetSpent(s, Added(tx, fee, now, minRate))
    ensures AncestorsBounded(NextAdded(s, maxBytes, tx, fee, now, minRate).index)
  {
    var base := State(Unexpired(s.index, now), s.counter);
    ShrinkingKeeps(s, base.index, maxBytes);
    if Admissible(base.index, tx, fee, minRate) {
      AddedOutcome(s, base, maxBytes, Added(tx, fee, now, minRate));
      FiledKeepsAncestorBound(base, maxBytes, Admitted(tx, fee, now, s.counter + 1));
    } else {
      AddedOutcome(s, base, maxBytes, Added(tx, fee, now, minRate));
    }
  }

  lemma RemovedKeeps(s: State, maxBytes: nat, cut: set<Bytes32>)
    requires Sound(s) && Fits(s.index, maxBytes)
    ensures Sound(State(s.index - cut, s.counter)) && Fits(s.index - cut, maxBytes)
    ensures AncestorsBounded(s.index) ==> AncestorsBounded(s.index - cut)
  {
    ShrinkingKeeps(s, s.index - cut, maxBytes);
  }

  /** One step: entries stay sound and the byte limit is never exceeded between calls. */
  lemma NextKeeps(s: State, maxBytes: nat, e: Event)
    requires Sound(s) && Fits(s.index, maxBytes)
    ensures Sound(Next(s, maxBytes, e)) && Fits(Next(s, maxBytes, e).index, maxBytes)
  {
    match e
    case Added(tx, fee, now, minRate) => AddedKeeps(s, maxBytes, tx, fee, now, minRate);
    case Removed(h) => RemovedKeeps(s, maxBytes, {h});
    case Connected(txs) => RemovedKeeps(s, maxBytes, DescendantsOfAll(s.index, Struck(s.index, txs)));
    case Cleared =>
  }

  /** The ancestor bound survives unless a transaction comes in after one that spends it. */
  lemma NextKeepsAncestorBound(s: State, maxBytes: nat, e: Event)
    requires Sound(s) && Fits(s.index, maxBytes) && AncestorsBounded(s.index) && NotYetSpent(s, e)
    ensures AncestorsBounded(Next(s, maxBytes, e).index)
  {
    match e
    case Added(tx, fee, now, minRate) => AddedKeepsAncestorBound(s, maxBytes, tx, fee, now, minRate);
    case Removed(h) => RemovedKeeps(s, maxBytes, {h});
    case Connected(txs) => RemovedKeeps(s, maxBytes, DescendantsOfAll(s.index, Struck(s.index, txs)));
    case Cleared =>
  }

  /** One step, whatever it is: when exactly the bound survives it. */
  lemma NextBoundExactly(s: State, maxBytes: nat, e: Event)
    requires Sound(s) && Fits(s.index, maxBytes) && AncestorsBounded(s.index)
    ensures AncestorsBounded(Next(s, maxBytes, e).index) <==> KeepsBound(s, maxBytes, e)
  {
    if e.Added? {
      AdmittedBoundExactly(s, maxBytes, e);
    } else {
      NextKeepsAncestorBound(s, maxBytes, e);
    }
  }

  // ---- Whole runs ----

  /** The pool after a run from empty. In every state so reached the entries are sound and
      within the byte limit. */
  ghost function Run(events: seq<Event>, maxBytes: nat): (s: State)
    ensures Sound(s) && Fits(s.index, maxBytes)
  {
    if events == [] then State(map[], 0)
    else
      var before := Run(events[..|events| - 1], maxBytes);
      NextKeeps(before, maxBytes, events[|events| - 1]);
      Next(before, maxBytes, events[|events| - 1])
  }

  /** Nothing in the run is admitted after a transaction that spends it. */
  ghost predicate ParentsFirst(events: seq<Event>, maxBytes: nat) {
    events == []
    || (var n := |events| - 1;
        ParentsFirst(events[..n], maxBytes) && NotYetSpent(Run(events[..n], maxBytes), events[n]))
  }

  /** Then no entry ever has more than 25 unconfirmed transactions in its ancestry, itself
      counted, even though funding transactions may expire, be removed or be evicted. */
  lemma {:induction false} RunKeepsAncestorBound(events: seq<Event>, maxBytes: nat)
    requires ParentsFirst(events, maxBytes)
    ensures AncestorsBounded(Run(events, maxBytes).index)
  {
    if events != [] {
      var n := |events| - 1;
      RunKeepsAncestorBound(events[..n], maxBytes);
      NextKeepsAncestorBound(Run(events[..n], maxBytes), maxBytes, events[n]);
    }
  }

  /** Every admission of the run leaves the bound in place. */
  ghost predicate AllKeepBound(events: seq<Event>, maxBytes: nat) {
    events == []
    || (var n := |events| - 1;
        AllKeepBound(events[..n], maxBytes) && KeepsBound(Run(events[..n], maxBytes), maxBytes, events[n]))
  }

  /** The bound holds in every state on the way. */
  ghost predicate AlwaysBounded(events: seq<Event>, maxBytes: nat) {
    && AncestorsBounded(Run(events, maxBytes).index)
    && (events == [] || AlwaysBounded(events[..|events| - 1], maxBytes))
  }

  /** Over whole runs: exactly then. */
  lemma {:induction false} RunBoundExactly(events: seq<Event>, maxBytes: nat)
    ensures AlwaysBounded(events, maxBytes) <==> AllKeepBound(events, maxBytes)
  {
    if events != [] {
      var n := |events| - 1;
      RunBoundExactly(events[..n], maxBytes);
      if AlwaysBounded(events[..n], maxBytes) {
        NextBoundExactly(Run(events[..n], maxBytes), maxBytes, events[n]);
      }
    }
  }

  // ---- After a block ----

  /** Once a block is connected nothing it confirms or contradicts is left, and whatever was
      removed descends from an entry the block struck. */
  lemma BlockLeavesNoConflict(s: State, maxBytes: nat, blockTxs: seq<Transaction>)
    requires Sound(s)
    ensures var out := Next(s, maxBytes, Connected(blockTxs)).index;
      && (forall h, i :: h in out && 0 <= i < |blockTxs| ==> !StruckBy(out, h, blockTxs[i]))
      && (forall h :: h in s.index && h !in out <==> h in s.index && ReachedFrom(ChildGraph(s.index), Struck(s.index, blockTxs), h))
  {
    var struck := Struck(s.index, blockTxs);
    var out := Next(s, maxBytes, Connected(blockTxs)).index;
    RootsReached(ChildGraph(s.index), struck);
    forall h, i | h in out && 0 <= i < |blockTxs| ensures !StruckBy(out, h, blockTxs[i]) {
      assert StruckBy(out, h, blockTxs[i]) ==> StruckBy(s.index, h, blockTxs[i]);
    }
  }
}
