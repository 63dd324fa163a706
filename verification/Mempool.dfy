/** The transaction pool object: five maps and a byte counter updated in place. */
module MempoolObject {
  import opened Bytes
  import opened Graph
  import opened PoolModel
  import opened PoolGraph
  import opened MempoolPolicy
  import opened RollingFee
  import opened Transactions
  import Runs = PoolRuns

  class Mempool {
    var mIndex: Index
    var mByFeeRate: map<OrdKey, Bytes32>
    var mByTime: map<OrdKey, Bytes32>
    var mSpends: map<OutPoint<Bytes32>, Bytes32>
    var mLeafSpends: map<LeafKey, Bytes32>
    var mSequenceCounter: nat
    const mMaxBytes: nat
    var mTotalBytes: nat
    var mRollingMinFeeRate: real
    var mLastRollingFeeUpdate: int
    var mBlockSinceFeeBump: bool

    ghost function View(): Pool
      reads this
    {
      Pool(mIndex, mByFeeRate, mByTime, mSpends, mLeafSpends, mSequenceCounter, mTotalBytes)
    }

    ghost function Entries(): Runs.State
      reads this
    {
      Runs.State(mIndex, mSequenceCounter)
    }

    /** The rolling fee. */
    function Fee(): Rolling
      reads this
    {
      Rolling(mRollingMinFeeRate, mLastRollingFeeUpdate, mBlockSinceFeeBump)
    }

    ghost predicate Valid()
      reads this
    {
      Consistent(View()) && mRollingMinFeeRate >= 0.0
    }

    constructor (maxBytes: nat)
      ensures Valid() && mMaxBytes == maxBytes && Entries() == Runs.State(map[], 0)
    {
      mIndex := map[];
      mByFeeRate := map[];
      mByTime := map[];
      mSpends := map[];
      mLeafSpends := map[];
      mSequenceCounter := 0;
      mMaxBytes := maxBytes;
      mTotalBytes := 0;
      mRollingMinFeeRate := 0.0;
      mLastRollingFeeUpdate := 0;
      mBlockSinceFeeBump := false;
      new;
      EmptyConsistent(View());
    }

    // ---- Removal ----

    method EraseSpends(inputs: seq<PoolIn>)
      modifies this`mSpends
      ensures ErasedOutPoints(old(mSpends), mSpends, inputs)
    {
      for i := 0 to |inputs|
        invariant ErasedOutPoints(old(mSpends), mSpends, inputs[..i])
      {
        assert inputs[..i + 1] == inputs[..i] + [inputs[i]];
        SpendsInMore(inputs[..i], inputs[i]);
        mSpends := mSpends - {inputs[i].prevOut};
      }
      assert inputs[..|inputs|] == inputs;
    }

    method EraseLeafSpends(leafKeys: seq<LeafKey>)
      modifies this`mLeafSpends
      ensures ErasedLeaves(old(mLeafSpends), mLeafSpends, leafKeys)
    {
      for i := 0 to |leafKeys|
        invariant ErasedLeaves(old(mLeafSpends), mLeafSpends, leafKeys[..i])
      {
        mLeafSpends := mLeafSpends - {leafKeys[i]};
      }
      assert leafKeys[..|leafKeys|] == leafKeys;
    }

    method RemoveLocked(hashKey: Bytes32) returns (ok: bool)
      requires Valid()
      modifies this`mIndex, this`mByFeeRate, this`mByTime, this`mSpends, this`mLeafSpends, this`mTotalBytes
      ensures Valid()
      ensures ok <==> hashKey in old(mIndex)
      ensures mIndex == old(mIndex) - {hashKey}
    {
      if hashKey !in mIndex {
        assert mIndex - {hashKey} == mIndex;
        return false;
      }
      var e := mIndex[hashKey];
      ghost var was := View();
      mByFeeRate := mByFeeRate - {FeeKey(e)};
      mByTime := mByTime - {TimeKey(e)};
      EraseSpends(e.tx.inputs);
      EraseLeafSpends(e.leafKeys);
      assert Agrees(was, Total);
      SumSizesRemove(mIndex, hashKey);
      mTotalBytes := mTotalBytes - e.size;
      mIndex := mIndex - {hashKey};
      RemovalConsistent(was, hashKey, View());
      ok := true;
    }

    /** The source's `seen` set always holds the elements of the work list, so membership in
        the list stands for it here. */
    method CollectDescendantsLocked(hashKey: Bytes32) returns (out: seq<Bytes32>)
      requires Valid()
      ensures NoDuplicates(out) && Elems(out) == Descendants(mIndex, hashKey)
    {
      ghost var g, roots := ChildGraph(mIndex), {hashKey};
      ghost var all := mIndex.Keys + roots;
      GraphsWellFormed(mIndex);
      RootsReached(g, roots);
      out := [hashKey];
      var head := 0;
      while head < |out|
        invariant WorkList(g, roots, out, head)
        decreases |all| + 1 - head
      {
        WorkListBound(g, roots, out, head, all);
        var next := EnqueueChildren(out, head);
        WorkListTurn(g, roots, out, head, next);
        out, head := next, head + 1;
      }
      WorkListDone(g, roots, out);
    }

    /** The body of the work-list loop: look up every output of the entry at `head`. */
    method EnqueueChildren(queue: seq<Bytes32>, head: nat) returns (out: seq<Bytes32>)
      requires Valid() && head < |queue| && NoDuplicates(queue)
      ensures NoDuplicates(out) && queue <= out
      ensures forall b :: b in out ==> b in queue || Edge(ChildGraph(mIndex), queue[head], b)
      ensures forall b :: Edge(ChildGraph(mIndex), queue[head], b) ==> b in out
    {
      var h := queue[head];
      out := queue;
      if h !in mIndex {
        return;
      }
      var txid, outCount := mIndex[h].tx.hash, mIndex[h].tx.outputCount;
      assert Agrees(View(), Aspect.Entries) && Agrees(View(), Spends);
      for i := 0 to outCount
        invariant queue <= out && NoDuplicates(out)
        invariant forall b :: b in out ==> b in queue || SpendsFrom(mIndex, h, b)
        invariant Enqueued(mSpends, h, i, out)
      {
        var o := OutPoint(txid, i % WORD);
        ghost var before := out;
        if o in mSpends && mSpends[o] !in out {
          SpenderIsChild(mIndex, mSpends, h, o);
          out := out + [mSpends[o]];
        }
        EnqueuedMore(mSpends, h, i, before, out);
      }
      ChildrenFound(mIndex, mSpends, h, out);
    }

    /** Removes the whole family of an entry, last found first, and nothing else. */
    method RemoveRecursiveLocked(hashKey: Bytes32) returns (removed: nat)
      requires Valid()
      modifies this`mIndex, this`mByFeeRate, this`mByTime, this`mSpends, this`mLeafSpends, this`mTotalBytes
      ensures Valid()
      ensures mIndex == old(mIndex) - Descendants(old(mIndex), hashKey)
      ensures removed == |old(mIndex)| - |mIndex|
    {
      var doomed := CollectDescendantsLocked(hashKey);
      removed := 0;
      var i := |doomed|;
      WithoutNone(mIndex, doomed);
      while i > 0
        invariant 0 <= i <= |doomed|
        invariant Valid()
        invariant mIndex == Without(old(mIndex), doomed, i)
        invariant removed == |old(mIndex)| - |mIndex|
      {
        i := i - 1;
        WithoutOneMore(old(mIndex), doomed, i);
        SizeAfterRemoval(mIndex, doomed[i]);
        var ok := RemoveLocked(doomed[i]);
        if ok {
          removed := removed + 1;
        }
      }
      WithoutAll(old(mIndex), doomed);
    }

    method CountDescendantsLocked(hashKey: Bytes32) returns (n: nat)
      requires Valid()
      ensures n == |Descendants(mIndex, hashKey)|
    {
      var all := CollectDescendantsLocked(hashKey);
      DistinctSize(all);
      n := |all|;
    }

    /** Append the pool entries that tx names as funding transactions, each once. */
    method EnqueueParents(tx: Transaction, queue: seq<Bytes32>) returns (out: seq<Bytes32>)
      requires NoDuplicates(queue)
      ensures NoDuplicates(out) && queue <= out
      ensures forall a :: a in out ==> a in queue || a in DirectParents(mIndex, tx)
      ensures forall a :: a in DirectParents(mIndex, tx) ==> a in out
    {
      out := queue;
      for i := 0 to |tx.inputs|
        invariant queue <= out && NoDuplicates(out)
        invariant forall a :: a in out ==> a in queue || (a in mIndex && NamesParent(tx, a))
        invariant forall k :: 0 <= k < i && tx.inputs[k].prevOut.hash in mIndex ==> tx.inputs[k].prevOut.hash in out
      {
        var parent := tx.inputs[i].prevOut.hash;
        if parent in mIndex && parent !in out {
          assert SpendsOutPoint(tx, tx.inputs[i].prevOut);
          out := out + [parent];
        }
      }
    }

    /** The size of the family a transaction would sit on top of, itself included. */
    method CountAncestorsLocked(tx: Transaction) returns (n: nat)
      requires Valid()
      ensures n == |Ancestors(mIndex, tx)| + 1
    {
      ghost var g, roots := ParentGraph(mIndex), DirectParents(mIndex, tx);
      GraphsWellFormed(mIndex);
      RootsReached(g, roots);
      AncestorsInPool(mIndex, tx);
      var queue := EnqueueParents(tx, []);
      assert Elems(queue) == roots;
      var head := 0;
      while head < |queue|
        invariant WorkList(g, roots, queue, head)
        decreases |mIndex.Keys| + 1 - head
      {
        WorkListBound(g, roots, queue, head, mIndex.Keys);
        assert queue[head] in Elems(queue);
        var next := EnqueueParents(mIndex[queue[head]].tx, queue);
        assert g[queue[head]] == DirectParents(mIndex, mIndex[queue[head]].tx);
        WorkListTurn(g, roots, queue, head, next);
        queue, head := next, head + 1;
      }
      WorkListDone(g, roots, queue);
      DistinctSize(queue);
      n := |queue| + 1;
    }

    // ---- Eviction and expiry ----

    /** Coming back after an eviction must cost strictly more than what was evicted. */
    method BumpRollingFee(evictedRate: int, now: int)
      requires Valid()
      modifies this`mRollingMinFeeRate, this`mLastRollingFeeUpdate, this`mBlockSinceFeeBump
      ensures Valid()
      ensures Fee() == Bumped(old(Fee()), evictedRate, now)
    {
      var bumped := (evictedRate + INCREMENTAL_FEE_PER_K) as real;
      if bumped > mRollingMinFeeRate {
        mRollingMinFeeRate := bumped;
        mLastRollingFeeUpdate := now;
        mBlockSinceFeeBump := false;
      }
    }

    /** Evicts the family of the cheapest entry until the rest fits, and remembers the price. */
    method TrimLocked(now: int)
      requires Valid()
      modifies this
      ensures Valid() && mSequenceCounter == old(mSequenceCounter)
      ensures Numbered(old(mIndex)) && mIndex == Trimmed(old(mIndex), mMaxBytes)
      ensures mTotalBytes <= mMaxBytes
      ensures Fee() == TrimmedFee(old(mIndex), mMaxBytes, old(Fee()), now)
    {
      NumberedApart(View());
      while mTotalBytes > mMaxBytes && mByFeeRate != map[]
        invariant Valid() && mSequenceCounter == old(mSequenceCounter)
        invariant Numbered(mIndex) && Trimmed(mIndex, mMaxBytes) == Trimmed(old(mIndex), mMaxBytes)
        invariant TrimmedFee(mIndex, mMaxBytes, Fee(), now) == TrimmedFee(old(mIndex), mMaxBytes, old(Fee()), now)
        decreases |mIndex|
      {
        var cheapest := FirstKey(mByFeeRate);
        var evictedRate, hashKey := cheapest.major, mByFeeRate[cheapest];
        ghost var was, fee := View(), Fee();
        BumpRollingFee(evictedRate, now);
        var _ := RemoveRecursiveLocked(hashKey);
        TrimTurn(was, mMaxBytes, cheapest, mIndex, fee, now);
      }
      TrimEnd(View(), mMaxBytes, Fee(), now);
    }

    method ExpireLocked(now: int) returns (removed: nat)
      requires Valid()
      modifies this`mIndex, this`mByFeeRate, this`mByTime, this`mSpends, this`mLeafSpends, this`mTotalBytes
      ensures Valid()
      ensures mIndex == Unexpired(old(mIndex), now)
      ensures removed == |old(mIndex)| - |mIndex|
    {
      removed := 0;
      var cutoff := now - MEMPOOL_EXPIRY_SECONDS;
      while mByTime != map[]
        invariant Valid()
        invariant SubIndex(mIndex, old(mIndex))
        invariant forall h :: h in old(mIndex) && old(mIndex)[h].entryTime >= cutoff ==> h in mIndex
        invariant removed == |old(mIndex)| - |mIndex|
        decreases |mIndex|
      {
        assert Agrees(View(), Times);
        var oldest := FirstKey(mByTime);
        if oldest.major >= cutoff {
          OldestIsFirst(mIndex, mByTime, oldest);
          break;
        }
        ghost var was := mIndex;
        SizeAfterRemoval(mIndex, mByTime[oldest]);
        var _ := RemoveLocked(mByTime[oldest]);
        removed := removed + 1;
      }
      assert Agrees(View(), Times);
      assert mIndex == Unexpired(old(mIndex), now);
    }

    // ---- Admission ----

    /** The admission threshold. `power` is two to the power of a number. */
    method GetMinFeeRateLocked(now: int, power: real -> real) returns (rate: int)
      requires Valid() && IsPowerOfTwo(power)
      modifies this`mRollingMinFeeRate, this`mLastRollingFeeUpdate
      ensures Valid()
      ensures rate == Asked(old(Fee()), mTotalBytes, mMaxBytes, now, power)
      ensures Fee() == Decayed(old(Fee()), mTotalBytes, mMaxBytes, now, power)
    {
      DecayNeverRaises(Fee(), mTotalBytes, mMaxBytes, now, power);
      if !mBlockSinceFeeBump || mRollingMinFeeRate == 0.0 {
        return Round(mRollingMinFeeRate);
      }
      if now > mLastRollingFeeUpdate + 10 {
        var halflife := ROLLING_FEE_HALFLIFE as real;
        if mTotalBytes < mMaxBytes / 4 {
          halflife := halflife / 4.0;
        } else if mTotalBytes < mMaxBytes / 2 {
          halflife := halflife / 2.0;
        }
        ElapsedPositive(Fee(), mTotalBytes, mMaxBytes, now);
        mRollingMinFeeRate := mRollingMinFeeRate / power((now - mLastRollingFeeUpdate) as real / halflife);
        mLastRollingFeeUpdate := now;
        if mRollingMinFeeRate < INCREMENTAL_FEE_PER_K as real / 2.0 {
          mRollingMinFeeRate := 0.0;
          return 0;
        }
      }
      rate := Max(Round(mRollingMinFeeRate), INCREMENTAL_FEE_PER_K);
    }

    method ValidateForPool(tx: Transaction, fee: int) returns (ok: bool)
      ensures ok <==> WellFormedForPool(mIndex, tx, fee)
    {
      if !tx.valid { return false; }
      if tx.coinbase { return false; }
      if fee < 0 { return false; }
      if tx.hash in mIndex { return false; }
      if tx.valueOut < 0 { return false; }
      if tx.valueOut < DUST_THRESHOLD { return false; }
      ok := true;
    }

    /** No pool entry spends an outpoint that tx spends. */
    method OutPointsFree(tx: Transaction) returns (ok: bool)
      requires Valid()
      ensures ok <==> forall h :: h in mIndex ==> !ConflictsOn(mIndex[h], tx)
    {
      assert Agrees(View(), Spends);
      for i := 0 to |tx.inputs|
        invariant forall k :: 0 <= k < i ==> tx.inputs[k].prevOut !in mSpends
      {
        var o := tx.inputs[i].prevOut;
        if o in mSpends {
          assert SpendsOutPoint(tx, o);
          assert ConflictsOn(mIndex[mSpends[o]], tx);
          return false;
        }
      }
      assert forall o :: SpendsOutPoint(tx, o) ==> o !in mSpends;
      ok := true;
    }

    /** No leaf that tx consumes is held by a pool entry, or consumed twice by tx itself. */
    method LeavesFree(tx: Transaction) returns (ok: bool, leafKeys: seq<LeafKey>)
      requires Valid()
      ensures leafKeys == LeafKeysOf(tx.inputs)
      ensures ok <==> NoDuplicates(leafKeys) && forall h :: h in mIndex ==> !SharesLeaf(mIndex[h], tx)
    {
      assert Agrees(View(), Leaves);
      var parsed;
      parsed, leafKeys := ExtractLeafKeys(tx);
      ForallLeafKeys(tx);
      for i := 0 to |leafKeys|
        invariant forall k :: 0 <= k < i ==> leafKeys[k] !in mLeafSpends
        invariant NoDuplicates(leafKeys[..i])
      {
        if leafKeys[i] in mLeafSpends {
          assert SharesLeaf(mIndex[mLeafSpends[leafKeys[i]]], tx);
          return false, leafKeys;
        }
        for j := 0 to i
          invariant leafKeys[i] !in leafKeys[..j]
        {
          if leafKeys[j] == leafKeys[i] {
            return false, leafKeys;
          }
        }
      }
      assert leafKeys[..|leafKeys|] == leafKeys;
      ok := true;
    }

    method FamilyFits(tx: Transaction) returns (ok: bool)
      requires Valid()
      ensures ok <==> FamilyLimitsOk(mIndex, tx)
    {
      var ancestors := CountAncestorsLocked(tx);
      if ancestors > MAX_ANCESTORS {
        return false;
      }
      for i := 0 to |tx.inputs|
        invariant forall k :: 0 <= k < i && tx.inputs[k].prevOut.hash in mIndex ==>
                    |Descendants(mIndex, tx.inputs[k].prevOut.hash)| + 1 <= MAX_DESCENDANTS
      {
        var parent := tx.inputs[i].prevOut.hash;
        if parent in mIndex {
          var n := CountDescendantsLocked(parent);
          if n + 1 > MAX_DESCENDANTS {
            assert SpendsOutPoint(tx, tx.inputs[i].prevOut);
            assert parent in DirectParents(mIndex, tx);
            return false;
          }
        }
      }
      ok := true;
    }

    method FileSpends(inputs: seq<PoolIn>, hashKey: Bytes32)
      modifies this`mSpends
      ensures FiledOutPoints(old(mSpends), mSpends, inputs, hashKey)
    {
      for i := 0 to |inputs|
        invariant FiledOutPoints(old(mSpends), mSpends, inputs[..i], hashKey)
      {
        assert inputs[..i + 1] == inputs[..i] + [inputs[i]];
        SpendsInMore(inputs[..i], inputs[i]);
        mSpends := mSpends[inputs[i].prevOut := hashKey];
      }
      assert inputs[..|inputs|] == inputs;
    }

    method FileLeafSpends(leafKeys: seq<LeafKey>, hashKey: Bytes32)
      modifies this`mLeafSpends
      ensures FiledLeaves(old(mLeafSpends), mLeafSpends, leafKeys, hashKey)
    {
      for i := 0 to |leafKeys|
        invariant FiledLeaves(old(mLeafSpends), mLeafSpends, leafKeys[..i], hashKey)
      {
        mLeafSpends := mLeafSpends[leafKeys[i] := hashKey];
      }
      assert leafKeys[..|leafKeys|] == leafKeys;
    }

    /** File an entry in all five maps. */
    method InsertEntry(e: Entry)
      requires Valid() && e.tx.hash !in mIndex && e.seqNo == mSequenceCounter
      requires forall h :: h in mIndex ==> mIndex[h].seqNo < e.seqNo
      requires e.leafKeys == LeafKeysOf(e.tx.inputs) && e.size == e.tx.size
      requires forall h :: h in mIndex ==> !ConflictsOn(mIndex[h], e.tx) && !SharesLeaf(mIndex[h], e.tx)
      modifies this`mIndex, this`mByFeeRate, this`mByTime, this`mSpends, this`mLeafSpends, this`mTotalBytes
      ensures Valid()
      ensures mIndex == old(mIndex)[e.tx.hash := e]
    {
      var hashKey := e.tx.hash;
      ghost var was := View();
      mIndex := mIndex[hashKey := e];
      mByFeeRate := mByFeeRate[FeeKey(e) := hashKey];
      mByTime := mByTime[TimeKey(e) := hashKey];
      FileSpends(e.tx.inputs, hashKey);
      FileLeafSpends(e.leafKeys, hashKey);
      mTotalBytes := mTotalBytes + e.size;
      InsertionConsistent(was, e, View());
    }

    /** The checks of admission, in the source's order. */
    method CheckAdmission(tx: Transaction, fee: int, now: int, power: real -> real) returns (ok: bool, leafKeys: seq<LeafKey>)
      requires Valid() && IsPowerOfTwo(power)
      modifies this`mRollingMinFeeRate, this`mLastRollingFeeUpdate
      ensures Valid()
      ensures ok <==> Admissible(mIndex, tx, fee, Asked(old(Fee()), mTotalBytes, mMaxBytes, now, power))
      ensures ok ==> Fileable(mIndex, tx, fee) && leafKeys == LeafKeysOf(tx.inputs)
    {
      leafKeys := [];
      var wellFormed := ValidateForPool(tx, fee);
      if !wellFormed { return false, leafKeys; }
      var outPointsFree := OutPointsFree(tx);
      if !outPointsFree { return false, leafKeys; }
      var leavesFree;
      leavesFree, leafKeys := LeavesFree(tx);
      if !leavesFree { return false, leafKeys; }
      if tx.size == 0 { return false, leafKeys; }
      var minRate := GetMinFeeRateLocked(now, power);
      if FeePerK(fee, tx.size) < minRate { return false, leafKeys; }
      ok := FamilyFits(tx);
    }

    /** The tail of admission: number the entry, file it, trim. */
    method FileAndTrim(tx: Transaction, fee: int, now: int, leafKeys: seq<LeafKey>)
      requires Valid() && Fileable(mIndex, tx, fee) && leafKeys == LeafKeysOf(tx.inputs)
      modifies this
      ensures Valid() && mTotalBytes <= mMaxBytes
      ensures Runs.Sound(old(Entries()))
      ensures Entries() == Runs.Filed(old(Entries()), mMaxBytes, Runs.Admitted(tx, fee, now, old(mSequenceCounter) + 1))
    {
      EntriesSound(View());
      CountedUp(View());
      mSequenceCounter := mSequenceCounter + 1;
      InsertEntry(Entry(tx, fee, tx.size, FeePerK(fee, tx.size), mSequenceCounter, now, leafKeys));
      TrimLocked(now);
    }

    /** The rate asked for, the pool being as full as it is without expired entries. */
    ghost function AskedAfterExpiry(ix: Index, f: Rolling, now: int, power: real -> real): int
      requires IsPowerOfTwo(power)
    {
      Asked(f, SumSizes(Unexpired(ix, now)), mMaxBytes, now, power)
    }

    /** Admission into a pool without expired entries. `taken` says whether the transaction
        passed the checks; it may still be trimmed away at once. */
    method CheckAndFile(tx: Transaction, fee: int, now: int, power: real -> real) returns (taken: bool)
      requires Valid() && IsPowerOfTwo(power)
      modifies this
      ensures Valid()
      ensures taken <==> Admissible(old(mIndex), tx, fee, Asked(old(Fee()), old(mTotalBytes), mMaxBytes, now, power))
      ensures taken ==> mTotalBytes <= mMaxBytes
      ensures Runs.Sound(old(Entries()))
      ensures Entries() == Runs.Decided(old(Entries()), mMaxBytes, tx, fee, now, Asked(old(Fee()), old(mTotalBytes), mMaxBytes, now, power))
    {
      EntriesSound(View());
      var leafKeys;
      taken, leafKeys := CheckAdmission(tx, fee, now, power);
      if taken {
        FileAndTrim(tx, fee, now, leafKeys);
      }
    }

    /** Admission: expire, check everything, file the entry, then trim. */
    method AddTransaction(tx: Transaction, fee: int, now: int, power: real -> real) returns (ok: bool, ghost taken: bool)
      requires Valid() && IsPowerOfTwo(power)
      modifies this
      ensures Valid()
      ensures Runs.Sound(old(Entries()))
      ensures Entries() == Runs.Next(old(Entries()), mMaxBytes, Runs.Added(tx, fee, now, AskedAfterExpiry(old(mIndex), old(Fee()), now, power)))
      ensures taken <==> Admissible(Unexpired(old(mIndex), now), tx, fee, AskedAfterExpiry(old(mIndex), old(Fee()), now, power))
      ensures taken ==> mTotalBytes <= mMaxBytes
      ensures ok <==> taken && tx.hash in mIndex
    {
      ghost var was, event := Entries(), Runs.Added(tx, fee, now, AskedAfterExpiry(mIndex, Fee(), now, power));
      EntriesSound(View());
      var _ := ExpireLocked(now);
      assert Agrees(View(), Total);
      Runs.AddedOutcome(was, Entries(), mMaxBytes, event);
      var admitted := CheckAndFile(tx, fee, now, power);
      taken := admitted;
      ok := admitted && tx.hash in mIndex;
    }

    method RemoveTransaction(txHash: Bytes32) returns (ok: bool)
      requires Valid()
      modifies this
      ensures Valid()
      ensures ok <==> txHash in old(mIndex)
      ensures Runs.Sound(old(Entries()))
      ensures Entries() == Runs.Next(old(Entries()), mMaxBytes, Runs.Removed(txHash))
    {
      EntriesSound(View());
      ok := RemoveLocked(txHash);
    }

    // ---- Block connection ----

    /** Drop one family. `base` is the pool before the block, `roots` the families dropped so far. */
    method StrikeFamily(hashKey: Bytes32, ghost base: Index, ghost roots: seq<Bytes32>) returns (ghost more: seq<Bytes32>)
      requires Valid() && mIndex == WithoutFamilies(base, roots) && hashKey in mIndex
      modifies this`mIndex, this`mByFeeRate, this`mByTime, this`mSpends, this`mLeafSpends, this`mTotalBytes
      ensures Valid() && mIndex == WithoutFamilies(base, more)
      ensures SubIndex(mIndex, old(mIndex)) && hashKey !in mIndex
      ensures more == roots + [hashKey]
    {
      more := roots + [hashKey];
      assert more[..|more| - 1] == roots;
      DescendantsInPool(mIndex, hashKey);
      var _ := RemoveRecursiveLocked(hashKey);
    }

    /** Drop whatever spends an outpoint that tx spends. */
    method StrikeOutPoints(tx: Transaction, ghost base: Index, ghost roots: seq<Bytes32>) returns (ghost more: seq<Bytes32>)
      requires Valid() && mIndex == WithoutFamilies(base, roots) && !tx.coinbase
      modifies this`mIndex, this`mByFeeRate, this`mByTime, this`mSpends, this`mLeafSpends, this`mTotalBytes
      ensures Valid() && mIndex == WithoutFamilies(base, more)
      ensures SubIndex(mIndex, old(mIndex))
      ensures RootsAdded(base, tx, roots, more)
      ensures forall h :: h in mIndex ==> !ConflictsOn(mIndex[h], tx)
    {
      more := roots;
      SubIndexOfBase(base, roots);
      for i := 0 to |tx.inputs|
        invariant Valid() && mIndex == WithoutFamilies(base, more) && SubIndex(mIndex, base)
        invariant SubIndex(mIndex, old(mIndex))
        invariant RootsAdded(base, tx, roots, more)
        invariant SpendFree(mIndex, tx.inputs, i)
      {
        ghost var before, known := mIndex, more;
        more := StrikeSpender(tx, i, base, more);
        SubIndexTwice(mIndex, before, base);
        SubIndexTwice(mIndex, before, old(mIndex));
        RootsAddedTwice(base, tx, roots, known, more);
        SpendFreeMore(before, mIndex, tx.inputs, i);
      }
      NoConflictLeft(mIndex, tx);
    }

    /** Drop the entry that spends one outpoint of tx, if there is one. */
    method StrikeSpender(tx: Transaction, i: nat, ghost base: Index, ghost roots: seq<Bytes32>) returns (ghost more: seq<Bytes32>)
      requires Valid() && mIndex == WithoutFamilies(base, roots) && SubIndex(mIndex, base) && !tx.coinbase && i < |tx.inputs|
      modifies this`mIndex, this`mByFeeRate, this`mByTime, this`mSpends, this`mLeafSpends, this`mTotalBytes
      ensures Valid() && mIndex == WithoutFamilies(base, more) && SubIndex(mIndex, old(mIndex))
      ensures RootsAdded(base, tx, roots, more)
      ensures forall h :: h in mIndex ==> !SpendsOutPoint(mIndex[h].tx, tx.inputs[i].prevOut)
    {
      var o := tx.inputs[i].prevOut;
      more := roots;
      SpenderOf(View(), o);
      if o in mSpends {
        var conflicting := mSpends[o];
        SpenderConflicts(mIndex[conflicting], tx, i);
        more := StrikeFamily(conflicting, base, roots);
      }
    }

    /** Drop whatever holds a leaf that tx consumes. */
    method StrikeLeaves(tx: Transaction, leafKeys: seq<LeafKey>, ghost base: Index, ghost roots: seq<Bytes32>)
        returns (ghost more: seq<Bytes32>)
      requires Valid() && mIndex == WithoutFamilies(base, roots) && !tx.coinbase
      requires leafKeys == LeafKeysOf(tx.inputs) && ProofsParse(tx.inputs)
      modifies this`mIndex, this`mByFeeRate, this`mByTime, this`mSpends, this`mLeafSpends, this`mTotalBytes
      ensures Valid() && mIndex == WithoutFamilies(base, more)
      ensures SubIndex(mIndex, old(mIndex))
      ensures RootsAdded(base, tx, roots, more)
      ensures forall h :: h in mIndex ==> !SharesLeaf(mIndex[h], tx)
    {
      more := roots;
      SubIndexOfBase(base, roots);
      for i := 0 to |leafKeys|
        invariant Valid() && mIndex == WithoutFamilies(base, more) && SubIndex(mIndex, base)
        invariant SubIndex(mIndex, old(mIndex))
        invariant RootsAdded(base, tx, roots, more)
        invariant LeafFree(mIndex, leafKeys, i)
      {
        ghost var before, known := mIndex, more;
        more := StrikeHolder(tx, leafKeys[i], base, more);
        SubIndexTwice(mIndex, before, base);
        SubIndexTwice(mIndex, before, old(mIndex));
        RootsAddedTwice(base, tx, roots, known, more);
        LeafFreeMore(before, mIndex, leafKeys, i);
      }
      NoLeafLeft(mIndex, tx, leafKeys);
    }

    /** Drop the entry that holds one leaf of tx, if there is one. */
    method StrikeHolder(tx: Transaction, l: LeafKey, ghost base: Index, ghost roots: seq<Bytes32>) returns (ghost more: seq<Bytes32>)
      requires Valid() && mIndex == WithoutFamilies(base, roots) && SubIndex(mIndex, base)
      requires !tx.coinbase && ProofsParse(tx.inputs) && l in LeafKeysOf(tx.inputs)
      modifies this`mIndex, this`mByFeeRate, this`mByTime, this`mSpends, this`mLeafSpends, this`mTotalBytes
      ensures Valid() && mIndex == WithoutFamilies(base, more) && SubIndex(mIndex, old(mIndex))
      ensures RootsAdded(base, tx, roots, more)
      ensures forall h :: h in mIndex ==> l !in mIndex[h].leafKeys
    {
      more := roots;
      HolderOf(View(), l);
      if l in mLeafSpends {
        var conflicting := mLeafSpends[l];
        HolderConflicts(mIndex[conflicting], tx, l);
        more := StrikeFamily(conflicting, base, roots);
      }
    }

    method StrikeTransaction(tx: Transaction, ghost base: Index, ghost roots: seq<Bytes32>) returns (ghost more: seq<Bytes32>)
      requires Valid() && mIndex == WithoutFamilies(base, roots)
      modifies this`mIndex, this`mByFeeRate, this`mByTime, this`mSpends, this`mLeafSpends, this`mTotalBytes
      ensures Valid() && mIndex == WithoutFamilies(base, more)
      ensures SubIndex(mIndex, old(mIndex))
      ensures RootsAdded(base, tx, roots, more)
      ensures forall h :: h in mIndex ==> !StruckBy(base, h, tx)
    {
      more := roots;
      SubIndexOfBase(base, roots);
      if tx.coinbase {
        return;
      }
      more := StrikeConfirmed(tx, base, roots);
      more := StrikeOutPoints(tx, base, more);
      var parsed, leafKeys := ExtractLeafKeys(tx);
      if parsed {
        more := StrikeLeaves(tx, leafKeys, base, more);
      }
      SubIndexOfBase(base, more);
      NotStruck(base, mIndex, tx);
    }

    /** Drop the confirmed transaction itself. */
    method StrikeConfirmed(tx: Transaction, ghost base: Index, ghost roots: seq<Bytes32>) returns (ghost more: seq<Bytes32>)
      requires Valid() && mIndex == WithoutFamilies(base, roots) && !tx.coinbase
      modifies this`mIndex, this`mByFeeRate, this`mByTime, this`mSpends, this`mLeafSpends, this`mTotalBytes
      ensures Valid() && mIndex == WithoutFamilies(base, more)
      ensures SubIndex(mIndex, old(mIndex)) && tx.hash !in mIndex
      ensures RootsAdded(base, tx, roots, more)
    {
      more := roots;
      SubIndexOfBase(base, roots);
      if tx.hash in mIndex {
        more := StrikeFamily(tx.hash, base, roots);
      } else {
        NoFamilyWithoutEntry(mIndex, tx.hash);
        var _ := RemoveRecursiveLocked(tx.hash);
      }
    }

    /** Drop everything a connected block confirms or contradicts, families included. */
    method RemoveForBlock(blockTxs: seq<Transaction>)
      requires Valid()
      modifies this
      ensures Valid() && mBlockSinceFeeBump
      ensures Runs.Sound(old(Entries()))
      ensures Entries() == Runs.Next(old(Entries()), mMaxBytes, Runs.Connected(blockTxs))
    {
      EntriesSound(View());
      ghost var base, roots: seq<Bytes32> := mIndex, [];
      for i := 0 to |blockTxs|
        invariant Valid() && mSequenceCounter == old(mSequenceCounter)
        invariant mIndex == WithoutFamilies(base, roots)
        invariant forall r :: r in roots ==> StruckBySome(base, r, blockTxs[..i])
        invariant forall h :: h in mIndex ==> !StruckBySome(base, h, blockTxs[..i])
      {
        StruckBySomeMore(base, blockTxs[..i], blockTxs[i]);
        assert blockTxs[..i + 1] == blockTxs[..i] + [blockTxs[i]];
        roots := StrikeTransaction(blockTxs[i], base, roots);
      }
      assert blockTxs[..|blockTxs|] == blockTxs;
      StruckExactly(base, roots, blockTxs);
      mBlockSinceFeeBump := true;
    }

    // ---- Queries ----

    method HasTransaction(txHash: Bytes32) returns (found: bool)
      ensures found <==> txHash in mIndex
    {
      found := txHash in mIndex;
    }

    /** Highest fee rate first. Among equal rates the later admission comes first, because the
        fee index is walked backwards. */
    method GetTransactions(maxCount: nat) returns (out: seq<Transaction>)
      requires Valid()
      ensures |out| == if maxCount < |mIndex| then maxCount else |mIndex|
      ensures exists order :: BestFirst(mIndex, order) && Lists(mIndex, order, out)
    {
      ListedStart(View());
      out := WalkBackwards(mIndex, mByFeeRate, maxCount);
    }

    method Size() returns (n: nat)
      ensures n == |mIndex|
    {
      n := |mIndex|;
    }

    method SizeBytes() returns (n: nat)
      requires Valid()
      ensures n == SumSizes(mIndex)
    {
      assert Agrees(View(), Total);
      n := mTotalBytes;
    }

    method Clear()
      requires Valid()
      modifies this`mIndex, this`mByFeeRate, this`mByTime, this`mSpends, this`mLeafSpends, this`mTotalBytes
      ensures Valid() && Runs.Sound(old(Entries()))
      ensures Entries() == Runs.Next(old(Entries()), mMaxBytes, Runs.Cleared)
    {
      EntriesSound(View());
      mIndex := map[];
      mByFeeRate := map[];
      mByTime := map[];
      mSpends := map[];
      mLeafSpends := map[];
      mTotalBytes := 0;
      EmptyConsistent(View());
    }
  }

  /** The entries left once the list from position i on has been removed. */
  ghost function Without(ix: Index, doomed: seq<Bytes32>, i: nat): Index
    requires i <= |doomed|
  {
    ix - Elems(doomed[i..])
  }

  lemma WithoutNone(ix: Index, doomed: seq<Bytes32>)
    ensures Without(ix, doomed, |doomed|) == ix
  {
    assert Elems(doomed[|doomed|..]) == {};
  }

  lemma WithoutAll(ix: Index, doomed: seq<Bytes32>)
    ensures Without(ix, doomed, 0) == ix - Elems(doomed)
  {
    assert doomed[0..] == doomed;
  }

  lemma WithoutOneMore(ix: Index, doomed: seq<Bytes32>, i: nat)
    requires i < |doomed|
    ensures Without(ix, doomed, i + 1) - {doomed[i]} == Without(ix, doomed, i)
  {
    assert doomed[i..] == [doomed[i]] + doomed[i + 1..];
    assert Elems(doomed[i..]) == {doomed[i]} + Elems(doomed[i + 1..]);
  }

  lemma SizeAfterRemoval(ix: Index, h: Bytes32)
    ensures |ix - {h}| == |ix| - if h in ix then 1 else 0
  {
    assert (ix - {h}).Keys == ix.Keys - {h};
    if h in ix {
      assert |ix.Keys - {h}| == |ix.Keys| - 1;
    } else {
      assert ix - {h} == ix;
    }
  }

  lemma NumberedApart(p: Pool)
    requires Consistent(p)
    ensures Numbered(p.index)
  {
    assert Agrees(p, Aspect.Entries);
  }

  lemma EntriesSound(p: Pool)
    requires Consistent(p)
    ensures Runs.Sound(Runs.State(p.index, p.counter))
    ensures forall h :: h in p.index ==> p.index[h].seqNo < p.counter + 1
  {
    assert Agrees(p, Aspect.Entries);
  }

  /** A counter increase alone breaks nothing. */
  lemma CountedUp(p: Pool)
    requires Consistent(p)
    ensures Consistent(p.(counter := p.counter + 1))
  {
    var q := p.(counter := p.counter + 1);
    forall a ensures Agrees(q, a) {
      assert Agrees(p, a);
      match a case Entries => case Fees => case Times => case Spends => case Leaves => case Total =>
    }
  }

  lemma NoFamilyWithoutEntry(ix: Index, h: Bytes32)
    requires h !in ix
    ensures ix - Descendants(ix, h) == ix
  {
    assert forall b :: !Edge(ChildGraph(ix), h, b);
    ReachLeast(ChildGraph(ix), {h}, {h});
    assert Descendants(ix, h) <= {h};
  }

  /** Families taken out one after another, each from what the earlier ones left. */
  ghost function WithoutFamilies(base: Index, roots: seq<Bytes32>): Index {
    if roots == [] then base
    else
      var left := WithoutFamilies(base, roots[..|roots| - 1]);
      left - Descendants(left, roots[|roots| - 1])
  }

  lemma {:induction false} WithoutFamiliesAtOnce(base: Index, roots: seq<Bytes32>)
    ensures WithoutFamilies(base, roots) == base - DescendantsOfAll(base, Elems(roots))
  {
    if roots == [] {
      ReachLeast(ChildGraph(base), {}, {});
      assert DescendantsOfAll(base, Elems(roots)) == {};
    } else {
      var n := |roots| - 1;
      WithoutFamiliesAtOnce(base, roots[..n]);
      RemoveFamilyAfterOthers(base, Elems(roots[..n]), roots[n]);
      assert Elems(roots) == Elems(roots[..n]) + {roots[n]};
    }
  }

  lemma {:induction false} SubIndexOfBase(base: Index, roots: seq<Bytes32>)
    ensures SubIndex(WithoutFamilies(base, roots), base)
  {
    if roots != [] {
      SubIndexOfBase(base, roots[..|roots| - 1]);
    }
  }

  ghost predicate RootsAdded(base: Index, tx: Transaction, roots: seq<Bytes32>, more: seq<Bytes32>) {
    roots <= more && forall i :: |roots| <= i < |more| ==> StruckBy(base, more[i], tx)
  }

  lemma RootsAddedTwice(base: Index, tx: Transaction, roots: seq<Bytes32>, known: seq<Bytes32>, more: seq<Bytes32>)
    requires RootsAdded(base, tx, roots, known) && RootsAdded(base, tx, known, more)
    ensures RootsAdded(base, tx, roots, more)
  {
    forall i | |roots| <= i < |more| ensures StruckBy(base, more[i], tx) {
      if i < |known| { assert known[i] == more[i]; }
    }
  }

  lemma SubIndexTwice(a: Index, b: Index, c: Index)
    requires SubIndex(a, b) && SubIndex(b, c)
    ensures SubIndex(a, c)
  {}

  /** No entry spends what the first n inputs spend. */
  ghost predicate SpendFree(ix: Index, inputs: seq<PoolIn>, n: nat) {
    n <= |inputs| && forall h, i :: h in ix && 0 <= i < n ==> !SpendsOutPoint(ix[h].tx, inputs[i].prevOut)
  }

  lemma SpendFreeMore(before: Index, after: Index, inputs: seq<PoolIn>, n: nat)
    requires SpendFree(before, inputs, n) && n < |inputs| && SubIndex(after, before)
    requires forall h :: h in after ==> !SpendsOutPoint(after[h].tx, inputs[n].prevOut)
    ensures SpendFree(after, inputs, n + 1)
  {}

  lemma NoConflictLeft(ix: Index, tx: Transaction)
    requires SpendFree(ix, tx.inputs, |tx.inputs|) && !tx.coinbase
    ensures forall h :: h in ix ==> !ConflictsOn(ix[h], tx)
  {}

  /** No entry holds one of the first n leaves. */
  ghost predicate LeafFree(ix: Index, keys: seq<LeafKey>, n: nat) {
    n <= |keys| && forall h, i :: h in ix && 0 <= i < n ==> keys[i] !in ix[h].leafKeys
  }

  lemma LeafFreeMore(before: Index, after: Index, keys: seq<LeafKey>, n: nat)
    requires LeafFree(before, keys, n) && n < |keys| && SubIndex(after, before)
    requires forall h :: h in after ==> keys[n] !in after[h].leafKeys
    ensures LeafFree(after, keys, n + 1)
  {}

  lemma NoLeafLeft(ix: Index, tx: Transaction, keys: seq<LeafKey>)
    requires keys == LeafKeysOf(tx.inputs) && LeafFree(ix, keys, |keys|)
    ensures forall h :: h in ix ==> !SharesLeaf(ix[h], tx)
  {
    ForallLeafKeys(tx);
    forall h, l | h in ix && l in keys
      ensures l !in ix[h].leafKeys
    {
      var i :| 0 <= i < |keys| && keys[i] == l;
    }
  }

  lemma NotStruck(base: Index, left: Index, tx: Transaction)
    requires SubIndex(left, base) && tx.hash !in left
    requires forall h :: h in left ==> !ConflictsOn(left[h], tx)
    requires ProofsParse(tx.inputs) ==> forall h :: h in left ==> !SharesLeaf(left[h], tx)
    ensures forall h :: h in left ==> !StruckBy(base, h, tx)
  {
    forall h | h in left
      ensures !StruckBy(base, h, tx)
    {
      assert base[h] == left[h];
    }
  }

  /** The spend index names the one entry that spends an outpoint. */
  lemma SpenderOf(p: Pool, o: OutPoint<Bytes32>)
    requires Consistent(p)
    ensures o in p.spends ==> p.spends[o] in p.index && SpendsOutPoint(p.index[p.spends[o]].tx, o)
    ensures forall h :: h in p.index && SpendsOutPoint(p.index[h].tx, o) ==> o in p.spends && p.spends[o] == h
  {
    assert Agrees(p, Spends);
  }

  /** The spenders of the first n outputs of h are listed. */
  ghost predicate Enqueued(spends: map<OutPoint<Bytes32>, Bytes32>, h: Bytes32, n: nat, out: seq<Bytes32>) {
    forall o :: o in spends && o.hash == h && o.index < n ==> spends[o] in out
  }

  lemma EnqueuedMore(spends: map<OutPoint<Bytes32>, Bytes32>, h: Bytes32, n: nat, before: seq<Bytes32>, out: seq<Bytes32>)
    requires Enqueued(spends, h, n, before) && before <= out
    requires var o := OutPoint(h, n % WORD); o in spends ==> spends[o] in out
    ensures Enqueued(spends, h, n + 1, out)
  {
    forall o | o in spends && o.hash == h && o.index < n + 1
      ensures spends[o] in out
    {
      if o.index < n {
        var i :| 0 <= i < |before| && before[i] == spends[o];
        assert out[i] == spends[o];
      } else {
        assert o == OutPoint(h, n % WORD);
      }
    }
  }

  lemma SpenderIsChild(ix: Index, spends: map<OutPoint<Bytes32>, Bytes32>, h: Bytes32, o: OutPoint<Bytes32>)
    requires SpendIndexOk(ix, spends) && h in ix && o in spends && o.hash == h && o.index < ix[h].tx.outputCount
    ensures SpendsFrom(ix, h, spends[o])
  {}

  /** Looking up every output of h in the spend index finds all its children. */
  lemma ChildrenFound(ix: Index, spends: map<OutPoint<Bytes32>, Bytes32>, h: Bytes32, out: seq<Bytes32>)
    requires SpendIndexOk(ix, spends) && h in ix
    requires Enqueued(spends, h, ix[h].tx.outputCount, out)
    ensures forall b :: SpendsFrom(ix, h, b) ==> b in out
  {
    forall b | SpendsFrom(ix, h, b) ensures b in out {
      var o :| SpendsOutPoint(ix[b].tx, o) && o.hash == h && o.index < ix[h].tx.outputCount;
      assert spends[o] == b;
    }
  }

  lemma SpenderConflicts(e: Entry, tx: Transaction, i: nat)
    requires i < |tx.inputs| && SpendsOutPoint(e.tx, tx.inputs[i].prevOut)
    ensures ConflictsOn(e, tx)
  {
    assert SpendsOutPoint(tx, tx.inputs[i].prevOut);
  }

  lemma HolderOf(p: Pool, l: LeafKey)
    requires Consistent(p)
    ensures l in p.leafSpends ==> p.leafSpends[l] in p.index && l in p.index[p.leafSpends[l]].leafKeys
    ensures forall h :: h in p.index && l in p.index[h].leafKeys ==> l in p.leafSpends && p.leafSpends[l] == h
  {
    assert Agrees(p, Leaves);
  }

  lemma HolderConflicts(e: Entry, tx: Transaction, l: LeafKey)
    requires l in e.leafKeys && l in LeafKeysOf(tx.inputs)
    ensures SharesLeaf(e, tx)
  {
    LeafKeysMembership(tx.inputs, l);
  }

  ghost predicate StruckBySome(base: Index, h: Bytes32, txs: seq<Transaction>) {
    exists i :: 0 <= i < |txs| && StruckBy(base, h, txs[i])
  }

  lemma StruckBySomeMore(base: Index, txs: seq<Transaction>, tx: Transaction)
    ensures forall h :: StruckBySome(base, h, txs + [tx]) <==> StruckBySome(base, h, txs) || StruckBy(base, h, tx)
  {
    var more := txs + [tx];
    forall h ensures StruckBySome(base, h, more) <==> StruckBySome(base, h, txs) || StruckBy(base, h, tx) {
      if StruckBySome(base, h, txs) {
        var i :| 0 <= i < |txs| && StruckBy(base, h, txs[i]);
        assert more[i] == txs[i];
      }
      if StruckBy(base, h, tx) { assert more[|txs|] == tx; }
    }
  }

  /** The families dropped one by one are exactly the families of everything the block struck. */
  lemma StruckExactly(base: Index, roots: seq<Bytes32>, blockTxs: seq<Transaction>)
    requires forall r :: r in roots ==> StruckBySome(base, r, blockTxs)
    requires forall h :: h in WithoutFamilies(base, roots) ==> !StruckBySome(base, h, blockTxs)
    ensures WithoutFamilies(base, roots) == base - DescendantsOfAll(base, Struck(base, blockTxs))
  {
    WithoutFamiliesAtOnce(base, roots);
    var cut := DescendantsOfAll(base, Elems(roots));
    forall h | h in Struck(base, blockTxs) ensures h in cut {
      assert StruckBySome(base, h, blockTxs);
    }
    forall h | h in Elems(roots) ensures h in Struck(base, blockTxs) {
      assert StruckBySome(base, h, blockTxs);
    }
    FamiliesOfStruck(base, Elems(roots), Struck(base, blockTxs));
  }

  lemma FamiliesOfStruck(base: Index, roots: set<Bytes32>, struck: set<Bytes32>)
    requires roots <= struck <= DescendantsOfAll(base, roots)
    ensures DescendantsOfAll(base, roots) == DescendantsOfAll(base, struck)
  {
    GraphsWellFormed(base);
    ReachMoreRoots(ChildGraph(base), roots, struck);
    ReachClosed(ChildGraph(base), roots);
    ReachLeast(ChildGraph(base), struck, DescendantsOfAll(base, roots));
  }

  /** `order` holds the entries with the largest fee keys, largest first; `rest` files the others. */
  ghost predicate Listed(ix: Index, rest: map<OrdKey, Bytes32>, order: seq<Bytes32>) {
    && (forall i :: 0 <= i < |order| ==> order[i] in ix)
    && (forall k :: k in rest ==> rest[k] in ix && FeeKey(ix[rest[k]]) == k)
    && (forall h :: h in ix ==> h in order || (FeeKey(ix[h]) in rest && rest[FeeKey(ix[h])] == h))
    && (forall i, j :: 0 <= i < j < |order| ==> Less(FeeKey(ix[order[j]]), FeeKey(ix[order[i]])))
    && (forall k, i :: k in rest && 0 <= i < |order| ==> Less(k, FeeKey(ix[order[i]])))
  }

  lemma ListedStart(p: Pool)
    requires Consistent(p)
    ensures Listed(p.index, p.byFee, []) && |p.byFee| == |p.index|
  {
    assert Agrees(p, Fees) && Agrees(p, Times);
    OrderedIndexSizes(p.index, p.byFee, p.byTime);
  }

  /** The transactions of these entries, in this order. */
  ghost predicate Lists(ix: Index, order: seq<Bytes32>, out: seq<Transaction>) {
    |out| == |order| && forall i :: 0 <= i < |out| ==> order[i] in ix && out[i] == ix[order[i]].tx
  }

  lemma ListsMore(ix: Index, order: seq<Bytes32>, out: seq<Transaction>, h: Bytes32)
    requires Lists(ix, order, out) && h in ix
    ensures Lists(ix, order + [h], out + [ix[h].tx])
  {}

  method WalkBackwards(ix: Index, byFee: map<OrdKey, Bytes32>, maxCount: nat) returns (out: seq<Transaction>)
    requires Listed(ix, byFee, [])
    ensures |out| == if maxCount < |byFee| then maxCount else |byFee|
    ensures exists order :: BestFirst(ix, order) && Lists(ix, order, out)
  {
    ghost var order: seq<Bytes32> := [];
    out := [];
    var rest := byFee;
    while rest != map[] && |out| < maxCount
      invariant |out| <= maxCount && |rest| == |byFee| - |out|
      invariant Listed(ix, rest, order)
      invariant Lists(ix, order, out)
      decreases |rest|
    {
      var k := LastKey(rest);
      ListOneMore(ix, rest, order, k);
      RestShrinks(rest, k);
      ListsMore(ix, order, out, rest[k]);
      out, order := out + [ix[rest[k]].tx], order + [rest[k]];
      rest := rest - {k};
    }
    ListedEnd(ix, rest, order);
  }

  lemma ListedEnd(ix: Index, rest: map<OrdKey, Bytes32>, order: seq<Bytes32>)
    requires Listed(ix, rest, order)
    ensures BestFirst(ix, order)
  {}

  lemma ListOneMore(ix: Index, rest: map<OrdKey, Bytes32>, order: seq<Bytes32>, k: OrdKey)
    requires Listed(ix, rest, order) && IsLast(rest.Keys, k)
    ensures Listed(ix, rest - {k}, order + [rest[k]])
  {
    var more := order + [rest[k]];
    assert more[|order|] == rest[k];
    forall h | h in ix && h !in more ensures FeeKey(ix[h]) in rest - {k} {
      assert h !in order;
    }
  }

  lemma RestShrinks(rest: map<OrdKey, Bytes32>, k: OrdKey)
    requires k in rest
    ensures |rest - {k}| == |rest| - 1
  {
    assert (rest - {k}).Keys == rest.Keys - {k};
    assert |rest.Keys - {k}| == |rest.Keys| - 1;
  }

  /** One eviction: the first key of the fee index names the cheapest entry. */
  lemma TrimTurn(p: Pool, maxBytes: nat, k: OrdKey, left: Index, f: Rolling, now: int)
    requires Consistent(p) && p.totalBytes > maxBytes && IsFirst(p.byFee.Keys, k)
    requires left == p.index - Descendants(p.index, p.byFee[k])
    ensures |left| < |p.index| && Numbered(left) && Numbered(p.index)
    ensures Trimmed(left, maxBytes) == Trimmed(p.index, maxBytes)
    ensures TrimmedFee(left, maxBytes, Bumped(f, k.major, now), now) == TrimmedFee(p.index, maxBytes, f, now)
  {
    assert Agrees(p, Aspect.Entries) && Agrees(p, Fees) && Agrees(p, Total);
    var h := p.byFee[k];
    FirstIsCheapest(p.index, p.byFee, k);
    TrimUnfold(p.index, maxBytes, h);
    TrimFeeUnfold(p.index, maxBytes, f, now, h);
  }

  lemma TrimEnd(p: Pool, maxBytes: nat, f: Rolling, now: int)
    requires Consistent(p) && (p.totalBytes <= maxBytes || p.byFee == map[])
    ensures Numbered(p.index) && Trimmed(p.index, maxBytes) == p.index && p.totalBytes <= maxBytes
    ensures TrimmedFee(p.index, maxBytes, f, now) == f
  {
    assert Agrees(p, Times);
    assert Agrees(p, Aspect.Entries) && Agrees(p, Fees) && Agrees(p, Total);
    if p.byFee == map[] {
      OrderedIndexSizes(p.index, p.byFee, p.byTime);
      assert |p.index| == 0;
    }
  }

  lemma FirstIsCheapest(ix: Index, byFee: map<OrdKey, Bytes32>, k: OrdKey)
    requires FeeIndexOk(ix, byFee) && IsFirst(byFee.Keys, k)
    ensures IsCheapest(ix, byFee[k])
  {
    var h := byFee[k];
    forall o | o in ix && o != h ensures Less(FeeKey(ix[h]), FeeKey(ix[o])) {
      assert FeeKey(ix[o]) in byFee && byFee[FeeKey(ix[o])] == o;
    }
  }

  lemma OldestIsFirst(ix: Index, byTime: map<OrdKey, Bytes32>, k: OrdKey)
    requires TimeIndexOk(ix, byTime) && IsFirst(byTime.Keys, k)
    ensures forall h :: h in ix ==> ix[h].entryTime >= k.major
  {
    forall h | h in ix ensures ix[h].entryTime >= k.major {
      assert TimeKey(ix[h]) in byTime;
    }
  }

  lemma EmptyConsistent(p: Pool)
    requires p == Pool(map[], map[], map[], map[], map[], p.counter, 0)
    ensures Consistent(p)
  {
    forall a ensures Agrees(p, a) {
      match a case Entries => case Fees => case Times => case Spends => case Leaves => case Total =>
    }
  }

  ghost predicate ErasedOutPoints(before: map<OutPoint<Bytes32>, Bytes32>, after: map<OutPoint<Bytes32>, Bytes32>, inputs: seq<PoolIn>) {
    && (forall o :: o in after <==> o in before && !SpendsIn(inputs, o))
    && (forall o :: o in after ==> after[o] == before[o])
  }

  ghost predicate ErasedLeaves(before: map<LeafKey, Bytes32>, after: map<LeafKey, Bytes32>, keys: seq<LeafKey>) {
    && (forall l :: l in after <==> l in before && l !in keys)
    && (forall l :: l in after ==> after[l] == before[l])
  }

  ghost predicate FiledOutPoints(before: map<OutPoint<Bytes32>, Bytes32>, after: map<OutPoint<Bytes32>, Bytes32>,
                                 inputs: seq<PoolIn>, h: Bytes32) {
    && (forall o :: o in after <==> o in before || SpendsIn(inputs, o))
    && (forall o :: o in after ==> after[o] == if SpendsIn(inputs, o) then h else before[o])
  }

  ghost predicate FiledLeaves(before: map<LeafKey, Bytes32>, after: map<LeafKey, Bytes32>, keys: seq<LeafKey>, h: Bytes32) {
    && (forall l :: l in after <==> l in before || l in keys)
    && (forall l :: l in after ==> after[l] == if l in keys then h else before[l])
  }

  /** Leaf conflicts in terms of the extracted keys. */
  lemma ForallLeafKeys(tx: Transaction)
    ensures forall l :: l in LeafKeysOf(tx.inputs) <==> ConsumesLeaf(tx.inputs, l)
  {
    forall l ensures l in LeafKeysOf(tx.inputs) <==> ConsumesLeaf(tx.inputs, l) {
      LeafKeysMembership(tx.inputs, l);
    }
  }

  ghost predicate FiledEntry(p: Pool, e: Entry, q: Pool) {
    && e.tx.hash !in p.index && e.seqNo == p.counter == q.counter
    && (forall h :: h in p.index ==> p.index[h].seqNo < e.seqNo)
    && (forall h :: h in p.index ==> !ConflictsOn(p.index[h], e.tx) && !SharesLeaf(p.index[h], e.tx))
    && e.leafKeys == LeafKeysOf(e.tx.inputs)
    && q.index == p.index[e.tx.hash := e]
    && q.byFee == p.byFee[FeeKey(e) := e.tx.hash]
    && q.byTime == p.byTime[TimeKey(e) := e.tx.hash]
    && FiledOutPoints(p.spends, q.spends, e.tx.inputs, e.tx.hash)
    && FiledLeaves(p.leafSpends, q.leafSpends, e.leafKeys, e.tx.hash)
    && q.totalBytes == p.totalBytes + e.size
  }

  /** Filing a conflict-free entry with a fresh number keeps the indexes in agreement. */
  lemma InsertionConsistent(p: Pool, e: Entry, q: Pool)
    requires Consistent(p) && FiledEntry(p, e, q)
    ensures Consistent(q)
  {
    forall a ensures Agrees(q, a) {
      assert Agrees(p, a);
      match a
      case Entries =>
      case Fees => FeeAfterInsertion(p.index, p.byFee, e);
      case Times => TimeAfterInsertion(p.index, p.byTime, e);
      case Spends =>
        NoConflictOnSpends(p.index, p.spends, e.tx);
        SpendsAfterInsertion(p.index, p.spends, e, q.spends);
      case Leaves =>
        NoSharedLeafSpends(p.index, p.leafSpends, e);
        LeavesAfterInsertion(p.index, p.leafSpends, e, q.leafSpends);
      case Total => SumSizesAdd(p.index, e.tx.hash, e);
    }
  }

  lemma FeeAfterInsertion(ix: Index, byFee: map<OrdKey, Bytes32>, e: Entry)
    requires FeeIndexOk(ix, byFee) && e.tx.hash !in ix
    requires forall h :: h in ix ==> ix[h].seqNo < e.seqNo
    ensures FeeIndexOk(ix[e.tx.hash := e], byFee[FeeKey(e) := e.tx.hash])
  {
    forall k | k in byFee ensures k.seqNo < e.seqNo { assert FeeKey(ix[byFee[k]]) == k; }
  }

  lemma TimeAfterInsertion(ix: Index, byTime: map<OrdKey, Bytes32>, e: Entry)
    requires TimeIndexOk(ix, byTime) && e.tx.hash !in ix
    requires forall h :: h in ix ==> ix[h].seqNo < e.seqNo
    ensures TimeIndexOk(ix[e.tx.hash := e], byTime[TimeKey(e) := e.tx.hash])
  {
    forall k | k in byTime ensures k.seqNo < e.seqNo { assert TimeKey(ix[byTime[k]]) == k; }
  }

  lemma NoConflictOnSpends(ix: Index, spends: map<OutPoint<Bytes32>, Bytes32>, tx: Transaction)
    requires SpendIndexOk(ix, spends) && forall h :: h in ix ==> !ConflictsOn(ix[h], tx)
    ensures forall o :: o in spends ==> !SpendsIn(tx.inputs, o)
  {
    forall o | o in spends ensures !SpendsIn(tx.inputs, o) {
      assert !ConflictsOn(ix[spends[o]], tx);
      assert SpendsOutPoint(ix[spends[o]].tx, o);
    }
  }

  lemma SpendsAfterInsertion(ix: Index, spends: map<OutPoint<Bytes32>, Bytes32>, e: Entry, after: map<OutPoint<Bytes32>, Bytes32>)
    requires SpendIndexOk(ix, spends) && e.tx.hash !in ix
    requires forall o :: o in spends ==> !SpendsIn(e.tx.inputs, o)
    requires FiledOutPoints(spends, after, e.tx.inputs, e.tx.hash)
    ensures SpendIndexOk(ix[e.tx.hash := e], after)
  {}

  lemma NoSharedLeafSpends(ix: Index, leafSpends: map<LeafKey, Bytes32>, e: Entry)
    requires LeafIndexOk(ix, leafSpends) && e.leafKeys == LeafKeysOf(e.tx.inputs)
    requires forall h :: h in ix ==> !SharesLeaf(ix[h], e.tx)
    ensures forall l :: l in leafSpends ==> l !in e.leafKeys
  {
    forall l | l in leafSpends ensures l !in e.leafKeys {
      LeafKeysMembership(e.tx.inputs, l);
      assert !SharesLeaf(ix[leafSpends[l]], e.tx);
    }
  }

  lemma LeavesAfterInsertion(ix: Index, leafSpends: map<LeafKey, Bytes32>, e: Entry, after: map<LeafKey, Bytes32>)
    requires LeafIndexOk(ix, leafSpends) && e.tx.hash !in ix
    requires forall l :: l in leafSpends ==> l !in e.leafKeys
    requires FiledLeaves(leafSpends, after, e.leafKeys, e.tx.hash)
    ensures LeafIndexOk(ix[e.tx.hash := e], after)
  {}

  /** Every index after the entry's own keys were erased from it. */
  ghost predicate ErasedEntry(p: Pool, h: Bytes32, q: Pool) {
    && h in p.index
    && q.index == p.index - {h} && q.counter == p.counter
    && q.byFee == p.byFee - {FeeKey(p.index[h])}
    && q.byTime == p.byTime - {TimeKey(p.index[h])}
    && ErasedOutPoints(p.spends, q.spends, p.index[h].tx.inputs)
    && ErasedLeaves(p.leafSpends, q.leafSpends, p.index[h].leafKeys)
    && q.totalBytes == p.totalBytes - p.index[h].size
  }

  /** Erasing an entry's own keys from every index keeps the indexes in agreement. */
  lemma RemovalConsistent(p: Pool, h: Bytes32, q: Pool)
    requires Consistent(p) && ErasedEntry(p, h, q)
    ensures Consistent(q)
  {
    forall a ensures Agrees(q, a) {
      assert Agrees(p, a);
      match a
      case Entries =>
      case Fees => FeeAfterRemoval(p.index, p.byFee, h);
      case Times => TimeAfterRemoval(p.index, p.byTime, h);
      case Spends => SpendsAfterRemoval(p.index, p.spends, h, q.spends);
      case Leaves => LeavesAfterRemoval(p.index, p.leafSpends, h, q.leafSpends);
      case Total => SumSizesRemove(p.index, h);
    }
  }

  lemma FeeAfterRemoval(ix: Index, byFee: map<OrdKey, Bytes32>, h: Bytes32)
    requires FeeIndexOk(ix, byFee) && h in ix
    ensures FeeIndexOk(ix - {h}, byFee - {FeeKey(ix[h])})
  {}

  lemma TimeAfterRemoval(ix: Index, byTime: map<OrdKey, Bytes32>, h: Bytes32)
    requires TimeIndexOk(ix, byTime) && h in ix
    ensures TimeIndexOk(ix - {h}, byTime - {TimeKey(ix[h])})
  {}

  lemma SpendsAfterRemoval(ix: Index, spends: map<OutPoint<Bytes32>, Bytes32>, h: Bytes32, after: map<OutPoint<Bytes32>, Bytes32>)
    requires SpendIndexOk(ix, spends) && h in ix && ErasedOutPoints(spends, after, ix[h].tx.inputs)
    ensures SpendIndexOk(ix - {h}, after)
  {
    forall o ensures o in after <==> o in spends && !SpendsOutPoint(ix[h].tx, o) {}
    forall k, o | k in ix - {h} && SpendsOutPoint(ix[k].tx, o) ensures o in after && after[o] == k {
      assert spends[o] == k;
    }
    forall o | o in after ensures after[o] in ix - {h} && SpendsOutPoint(ix[after[o]].tx, o) {
      assert spends[o] in ix;
    }
  }

  lemma LeavesAfterRemoval(ix: Index, leafSpends: map<LeafKey, Bytes32>, h: Bytes32, after: map<LeafKey, Bytes32>)
    requires LeafIndexOk(ix, leafSpends) && h in ix && ErasedLeaves(leafSpends, after, ix[h].leafKeys)
    ensures LeafIndexOk(ix - {h}, after)
  {
    forall k, l | k in ix - {h} && l in ix[k].leafKeys ensures l in after && after[l] == k {
      assert leafSpends[l] == k;
    }
  }

  // ---- Runs of the object ----

  /** A call from outside. An admission comes with the time. */
  datatype Call =
    | AddCall(tx: Transaction, fee: int, now: int)
    | RemoveCall(hash: Bytes32)
    | BlockCall(blockTxs: seq<Transaction>)
    | ClearCall

  /** The event of the run model that a call amounts to, whatever fee rate was asked for at the time. */
  ghost predicate IsEvent(call: Call, e: Runs.Event) {
    match call
    case AddCall(tx, fee, now) => e.Added? && e == Runs.Added(tx, fee, now, e.minRate)
    case RemoveCall(hash) => e == Runs.Removed(hash)
    case BlockCall(blockTxs) => e == Runs.Connected(blockTxs)
    case ClearCall => e == Runs.Cleared
  }

  /** The events the first calls amount to. */
  ghost predicate Amounting(calls: seq<Call>, events: seq<Runs.Event>) {
    |events| <= |calls| && forall i :: 0 <= i < |events| ==> IsEvent(calls[i], events[i])
  }

  method MakeCall(pool: Mempool, call: Call, power: real -> real) returns (ghost e: Runs.Event)
    requires pool.Valid() && IsPowerOfTwo(power)
    modifies pool
    ensures pool.Valid() && IsEvent(call, e) && Runs.Sound(old(pool.Entries()))
    ensures pool.Entries() == Runs.Next(old(pool.Entries()), pool.mMaxBytes, e)
  {
    match call
    case AddCall(tx, fee, now) =>
      e := Runs.Added(tx, fee, now, pool.AskedAfterExpiry(pool.mIndex, pool.Fee(), now, power));
      var ok, taken := pool.AddTransaction(tx, fee, now, power);
    case RemoveCall(hash) =>
      e := Runs.Removed(hash);
      var ok := pool.RemoveTransaction(hash);
    case BlockCall(blockTxs) =>
      e := Runs.Connected(blockTxs);
      pool.RemoveForBlock(blockTxs);
    case ClearCall =>
      e := Runs.Cleared;
      pool.Clear();
  }

  /** A new pool put through any calls is in the state of the run model. */
  method Run(maxBytes: nat, calls: seq<Call>, power: real -> real) returns (pool: Mempool, ghost events: seq<Runs.Event>)
    requires IsPowerOfTwo(power)
    ensures fresh(pool) && pool.Valid()
    ensures |events| == |calls| && Amounting(calls, events)
    ensures pool.Entries() == Runs.Run(events, maxBytes)
  {
    pool := new Mempool(maxBytes);
    events := [];
    for i := 0 to |calls|
      invariant fresh(pool) && pool.Valid() && pool.mMaxBytes == maxBytes && |events| == i
      invariant Amounting(calls, events)
      invariant pool.Entries() == Runs.Run(events, maxBytes)
    {
      ghost var e := MakeCall(pool, calls[i], power);
      OneMoreEvent(calls, events, e, maxBytes);
      events := events + [e];
    }
  }

  lemma OneMoreEvent(calls: seq<Call>, events: seq<Runs.Event>, e: Runs.Event, maxBytes: nat)
    requires Amounting(calls, events) && |events| < |calls| && IsEvent(calls[|events|], e)
    ensures Amounting(calls, events + [e])
    ensures Runs.Run(events + [e], maxBytes) == Runs.Next(Runs.Run(events, maxBytes), maxBytes, e)
  {
    assert (events + [e])[..|events|] == events;
  }
}
