/** The transaction pool as a value: its entries, the four derived indexes, and what
    it means for them to describe the same set of transactions. */
module PoolModel {
  import opened Bytes
  import opened Transactions

  const INT64_MAX := 0x7fff_ffff_ffff_ffff
  const MEMPOOL_EXPIRY_SECONDS := 336 * 3600
  const INCREMENTAL_FEE_PER_K := 1000
  const MAX_ANCESTORS := 25
  const MAX_DESCENDANTS := 25

  datatype LeafKey = LeafKey(kps: Bytes32, leaf: U32)

  /** A noise proof blob after parsing: the leaf indexes read before the end of the blob or
      before the parser gave up, and whether it got to the end. An empty blob is ([], true). */
  datatype NoiseBlob = NoiseBlob(leaves: seq<U32>, wellFormed: bool)

  type PoolIn = TxIn<Bytes32, NoiseBlob>

  /** What the pool reads of a transaction. */
  datatype Transaction = Transaction(
    hash: Bytes32, inputs: seq<PoolIn>, outputCount: nat, valueOut: int, size: nat, coinbase: bool, valid: bool)

  datatype Entry = Entry(
    tx: Transaction, fee: int, size: nat, feePerK: int, seqNo: nat, entryTime: int, leafKeys: seq<LeafKey>)

  /** {feePerK, seq} and {entryTime, seq}: ordered by the first component, then the second. */
  datatype OrdKey = OrdKey(major: int, seqNo: nat)

  predicate Less(a: OrdKey, b: OrdKey) {
    a.major < b.major || (a.major == b.major && a.seqNo < b.seqNo)
  }

  function FeeKey(e: Entry): OrdKey { OrdKey(e.feePerK, e.seqNo) }

  function TimeKey(e: Entry): OrdKey { OrdKey(e.entryTime, e.seqNo) }

  type Index = map<Bytes32, Entry>

  datatype Pool = Pool(
    index: Index,
    byFee: map<OrdKey, Bytes32>,
    byTime: map<OrdKey, Bytes32>,
    spends: map<OutPoint<Bytes32>, Bytes32>,
    leafSpends: map<LeafKey, Bytes32>,
    counter: nat,
    totalBytes: nat)

  predicate SpendsIn(inputs: seq<PoolIn>, o: OutPoint<Bytes32>) {
    exists i :: 0 <= i < |inputs| && inputs[i].prevOut == o
  }

  predicate SpendsOutPoint(tx: Transaction, o: OutPoint<Bytes32>) {
    SpendsIn(tx.inputs, o)
  }

  lemma SpendsInMore(inputs: seq<PoolIn>, input: PoolIn)
    ensures forall o :: SpendsIn(inputs + [input], o) <==> SpendsIn(inputs, o) || o == input.prevOut
  {
    var more := inputs + [input];
    forall o ensures SpendsIn(more, o) <==> SpendsIn(inputs, o) || o == input.prevOut {
      if SpendsIn(inputs, o) {
        var i :| 0 <= i < |inputs| && inputs[i].prevOut == o;
        assert more[i].prevOut == o;
      }
      if o == input.prevOut { assert more[|inputs|].prevOut == o; }
    }
  }

  // ---- Sizes ----

  ghost function SumSizes(ix: Index): nat {
    if ix == map[] then 0 else var h :| h in ix; ix[h].size + SumSizes(ix - {h})
  }

  lemma {:induction false} SumSizesRemove(ix: Index, h: Bytes32)
    requires h in ix
    ensures SumSizes(ix) == ix[h].size + SumSizes(ix - {h})
    decreases |ix|
  {
    var k :| k in ix && SumSizes(ix) == ix[k].size + SumSizes(ix - {k});
    if k != h {
      SumSizesRemove(ix - {k}, h);
      SumSizesRemove(ix - {h}, k);
      assert ix - {k} - {h} == ix - {h} - {k};
    }
  }

  lemma SumSizesAdd(ix: Index, h: Bytes32, e: Entry)
    requires h !in ix
    ensures SumSizes(ix[h := e]) == SumSizes(ix) + e.size
  {
    SumSizesRemove(ix[h := e], h);
    assert ix[h := e] - {h} == ix;
  }

  // ---- Agreement of the indexes ----

  /** The entries themselves: filed under their transaction hash, numbered apart. */
  ghost predicate EntriesOk(ix: Index, counter: nat) {
    && (forall h :: h in ix ==> ix[h].tx.hash == h && ix[h].seqNo <= counter)
    && (forall h, k :: h in ix && k in ix && h != k ==> ix[h].seqNo != ix[k].seqNo)
  }

  ghost predicate FeeIndexOk(ix: Index, byFee: map<OrdKey, Bytes32>) {
    && (forall h :: h in ix ==> FeeKey(ix[h]) in byFee && byFee[FeeKey(ix[h])] == h)
    && (forall k :: k in byFee ==> byFee[k] in ix && FeeKey(ix[byFee[k]]) == k)
  }

  ghost predicate TimeIndexOk(ix: Index, byTime: map<OrdKey, Bytes32>) {
    && (forall h :: h in ix ==> TimeKey(ix[h]) in byTime && byTime[TimeKey(ix[h])] == h)
    && (forall k :: k in byTime ==> byTime[k] in ix && TimeKey(ix[byTime[k]]) == k)
  }

  ghost predicate SpendIndexOk(ix: Index, spends: map<OutPoint<Bytes32>, Bytes32>) {
    && (forall h, o :: h in ix && SpendsOutPoint(ix[h].tx, o) ==> o in spends && spends[o] == h)
    && (forall o :: o in spends ==> spends[o] in ix && SpendsOutPoint(ix[spends[o]].tx, o))
  }

  ghost predicate LeafIndexOk(ix: Index, leafSpends: map<LeafKey, Bytes32>) {
    && (forall h, l :: h in ix && l in ix[h].leafKeys ==> l in leafSpends && leafSpends[l] == h)
    && (forall l :: l in leafSpends ==> leafSpends[l] in ix && l in ix[leafSpends[l]].leafKeys)
  }

  /** The ways in which the parts of the pool must agree with its entries. */
  datatype Aspect = Entries | Fees | Times | Spends | Leaves | Total

  ghost predicate Agrees(p: Pool, a: Aspect) {
    match a
    case Entries => EntriesOk(p.index, p.counter)
    case Fees => FeeIndexOk(p.index, p.byFee)
    case Times => TimeIndexOk(p.index, p.byTime)
    case Spends => SpendIndexOk(p.index, p.spends)
    case Leaves => LeafIndexOk(p.index, p.leafSpends)
    case Total => p.totalBytes == SumSizes(p.index)
  }

  ghost predicate Consistent(p: Pool) {
    forall a :: Agrees(p, a)
  }

  lemma FeeIndexDerived(ix: Index, a: map<OrdKey, Bytes32>, b: map<OrdKey, Bytes32>)
    requires FeeIndexOk(ix, a) && FeeIndexOk(ix, b)
    ensures a == b
  {
    forall k ensures k in a <==> k in b {
      if k in a { assert FeeKey(ix[a[k]]) == k; }
      if k in b { assert FeeKey(ix[b[k]]) == k; }
    }
    forall k | k in a ensures a[k] == b[k] {
      assert FeeKey(ix[a[k]]) == k;
    }
  }

  lemma TimeIndexDerived(ix: Index, a: map<OrdKey, Bytes32>, b: map<OrdKey, Bytes32>)
    requires TimeIndexOk(ix, a) && TimeIndexOk(ix, b)
    ensures a == b
  {
    forall k ensures k in a <==> k in b {
      if k in a { assert TimeKey(ix[a[k]]) == k; }
      if k in b { assert TimeKey(ix[b[k]]) == k; }
    }
    forall k | k in a ensures a[k] == b[k] {
      assert TimeKey(ix[a[k]]) == k;
    }
  }

  lemma SpendIndexDerived(ix: Index, a: map<OutPoint<Bytes32>, Bytes32>, b: map<OutPoint<Bytes32>, Bytes32>)
    requires SpendIndexOk(ix, a) && SpendIndexOk(ix, b)
    ensures a == b
  {
    forall o | o in a ensures o in b && a[o] == b[o] {
      assert SpendsOutPoint(ix[a[o]].tx, o);
    }
    forall o | o in b ensures o in a && a[o] == b[o] {
      assert SpendsOutPoint(ix[b[o]].tx, o);
    }
  }

  lemma LeafIndexDerived(ix: Index, a: map<LeafKey, Bytes32>, b: map<LeafKey, Bytes32>)
    requires LeafIndexOk(ix, a) && LeafIndexOk(ix, b)
    ensures a == b
  {
    forall l | l in a ensures l in b && a[l] == b[l] {}
    forall l | l in b ensures l in a && a[l] == b[l] {}
  }

  /** The four indexes and the byte count carry no information of their own: pools with the
      same entries agree in all of them. */
  lemma IndexesAreDerived(p: Pool, q: Pool)
    requires Consistent(p) && Consistent(q) && p.index == q.index
    ensures p == q.(counter := p.counter)
  {
    assert forall a :: Agrees(p, a) && Agrees(q, a);
    assert Agrees(p, Fees) && Agrees(p, Times) && Agrees(p, Spends) && Agrees(p, Leaves) && Agrees(p, Total);
    assert Agrees(q, Fees) && Agrees(q, Times) && Agrees(q, Spends) && Agrees(q, Leaves) && Agrees(q, Total);
    FeeIndexDerived(p.index, p.byFee, q.byFee);
    TimeIndexDerived(p.index, p.byTime, q.byTime);
    SpendIndexDerived(p.index, p.spends, q.spends);
    LeafIndexDerived(p.index, p.leafSpends, q.leafSpends);
  }

  /** No outpoint and no noise leaf is claimed by two entries. */
  lemma NothingShared(ix: Index, spends: map<OutPoint<Bytes32>, Bytes32>, leafSpends: map<LeafKey, Bytes32>, h: Bytes32, k: Bytes32)
    requires SpendIndexOk(ix, spends) && LeafIndexOk(ix, leafSpends)
    requires h in ix && k in ix && h != k
    ensures forall o :: SpendsOutPoint(ix[h].tx, o) ==> !SpendsOutPoint(ix[k].tx, o)
    ensures forall l :: l in ix[h].leafKeys ==> l !in ix[k].leafKeys
  {
    forall o | SpendsOutPoint(ix[h].tx, o) ensures !SpendsOutPoint(ix[k].tx, o) {
      assert spends[o] == h;
    }
    forall l | l in ix[h].leafKeys ensures l !in ix[k].leafKeys {
      assert leafSpends[l] == h;
    }
  }

  /** The fee and time indexes hold one key per entry. */
  lemma OrderedIndexSizes(ix: Index, byFee: map<OrdKey, Bytes32>, byTime: map<OrdKey, Bytes32>)
    requires FeeIndexOk(ix, byFee) && TimeIndexOk(ix, byTime)
    ensures |byFee| == |ix| && |byTime| == |ix|
  {
    Bijection(ix, byFee, map a | a in ix :: FeeKey(ix[a]));
    Bijection(ix, byTime, map a | a in ix :: TimeKey(ix[a]));
  }

  lemma {:induction false} Bijection(ix: Index, byKey: map<OrdKey, Bytes32>, keyOf: map<Bytes32, OrdKey>)
    requires keyOf.Keys == ix.Keys
    requires forall h :: h in ix ==> keyOf[h] in byKey && byKey[keyOf[h]] == h
    requires forall k :: k in byKey ==> byKey[k] in ix && keyOf[byKey[k]] == k
    ensures |byKey| == |ix|
    decreases |ix|
  {
    if ix == map[] {
      assert byKey == map[] by {
        if k :| k in byKey { assert byKey[k] in ix; }
      }
    } else {
      var h :| h in ix;
      var k := keyOf[h];
      forall a | a in ix && a != h ensures keyOf[a] != k {}
      Bijection(ix - {h}, byKey - {k}, keyOf - {h});
      assert |ix - {h}| == |ix| - 1 by { assert (ix - {h}).Keys == ix.Keys - {h}; assert |ix.Keys - {h}| == |ix.Keys| - 1; }
      assert |byKey - {k}| == |byKey| - 1 by { assert (byKey - {k}).Keys == byKey.Keys - {k}; assert |byKey.Keys - {k}| == |byKey.Keys| - 1; }
    }
  }
}
