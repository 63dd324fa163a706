/** What the pool takes in, what a block strikes out, and the order of the ordered maps. */
module MempoolPolicy {
  import opened Bytes
  import opened Graph
  import opened PoolModel
  import opened PoolGraph
  import opened Transactions

  // ---- Noise leaves ----

  function KeysOf(kps: Bytes32, leaves: seq<U32>): (r: seq<LeafKey>) {
    seq(|leaves|, i requires 0 <= i < |leaves| => LeafKey(kps, leaves[i]))
  }

  ghost predicate ConsumesLeafAt(inputs: seq<PoolIn>, l: LeafKey, i: nat)
    requires i < |inputs|
  {
    && l.kps == inputs[i].kps
    && l.leaf in inputs[i].noiseProof.leaves
    && ProofsParse(inputs[..i])
  }

  /** Every input up to the first malformed proof, that one included, contributes leaves. */
  ghost predicate ConsumesLeaf(inputs: seq<PoolIn>, l: LeafKey) {
    exists i :: 0 <= i < |inputs| && ConsumesLeafAt(inputs, l, i)
  }

  ghost predicate ProofsParse(inputs: seq<PoolIn>) {
    forall i :: 0 <= i < |inputs| ==> inputs[i].noiseProof.wellFormed
  }

  ghost function LeafKeysOf(inputs: seq<PoolIn>): seq<LeafKey> {
    if inputs == [] then []
    else
      var last := inputs[|inputs| - 1];
      var front := inputs[..|inputs| - 1];
      if ProofsParse(front) then LeafKeysOf(front) + KeysOf(last.kps, last.noiseProof.leaves) else LeafKeysOf(front)
  }

  lemma KeysOfMembership(kps: Bytes32, leaves: seq<U32>, l: LeafKey)
    ensures l in KeysOf(kps, leaves) <==> l.kps == kps && l.leaf in leaves
  {
    if l.kps == kps && l.leaf in leaves {
      var i :| 0 <= i < |leaves| && leaves[i] == l.leaf;
      assert KeysOf(kps, leaves)[i] == l;
    }
  }

  lemma ConsumesLeafSplit(inputs: seq<PoolIn>, l: LeafKey)
    requires inputs != []
    ensures var n := |inputs| - 1;
      ConsumesLeaf(inputs, l) <==> ConsumesLeaf(inputs[..n], l) || ConsumesLeafAt(inputs, l, n)
  {
    var n := |inputs| - 1;
    forall i | 0 <= i < n ensures ConsumesLeafAt(inputs[..n], l, i) <==> ConsumesLeafAt(inputs, l, i) {
      assert inputs[..n][..i] == inputs[..i];
    }
    if ConsumesLeaf(inputs[..n], l) {
      var i :| 0 <= i < n && ConsumesLeafAt(inputs[..n], l, i);
      assert ConsumesLeafAt(inputs, l, i);
    }
    if ConsumesLeaf(inputs, l) && !ConsumesLeafAt(inputs, l, n) {
      var i :| 0 <= i < |inputs| && ConsumesLeafAt(inputs, l, i);
      assert ConsumesLeafAt(inputs[..n], l, i);
    }
  }

  lemma {:induction false} LeafKeysMembership(inputs: seq<PoolIn>, l: LeafKey)
    ensures l in LeafKeysOf(inputs) <==> ConsumesLeaf(inputs, l)
  {
    if inputs != [] {
      var n := |inputs| - 1;
      LeafKeysMembership(inputs[..n], l);
      ConsumesLeafSplit(inputs, l);
      KeysOfMembership(inputs[n].kps, inputs[n].noiseProof.leaves, l);
    }
  }

  method ExtractLeafKeys(tx: Transaction) returns (ok: bool, leafKeys: seq<LeafKey>)
    ensures leafKeys == LeafKeysOf(tx.inputs)
    ensures ok <==> ProofsParse(tx.inputs)
  {
    leafKeys := [];
    for n := 0 to |tx.inputs|
      invariant leafKeys == LeafKeysOf(tx.inputs[..n])
      invariant ProofsParse(tx.inputs[..n])
    {
      var input := tx.inputs[n];
      var start := leafKeys;
      assert tx.inputs[..n + 1][..n] == tx.inputs[..n];
      for k := 0 to |input.noiseProof.leaves|
        invariant leafKeys == start + KeysOf(input.kps, input.noiseProof.leaves)[..k]
      {
        leafKeys := leafKeys + [LeafKey(input.kps, input.noiseProof.leaves[k])];
      }
      assert leafKeys == LeafKeysOf(tx.inputs[..n + 1]);
      if !input.noiseProof.wellFormed {
        LeafKeysStop(tx.inputs, n + 1);
        return false, leafKeys;
      }
    }
    assert tx.inputs[..|tx.inputs|] == tx.inputs;
    ok := true;
  }

  lemma {:induction false} LeafKeysStop(inputs: seq<PoolIn>, n: nat)
    requires 0 < n <= |inputs| && !inputs[n - 1].noiseProof.wellFormed
    ensures LeafKeysOf(inputs) == LeafKeysOf(inputs[..n]) && !ProofsParse(inputs)
    decreases |inputs|
  {
    if n == |inputs| {
      assert inputs[..n] == inputs;
    } else {
      var front := inputs[..|inputs| - 1];
      assert !front[n - 1].noiseProof.wellFormed;
      LeafKeysStop(front, n);
      assert front[..n] == inputs[..n];
    }
  }

  // ---- Admission policy ----

  function FeePerK(fee: int, size: nat): int
    requires fee >= 0 && size > 0
  {
    if fee > INT64_MAX / 1000 then INT64_MAX else (fee * 1000) / size
  }

  ghost predicate ConflictsOn(e: Entry, tx: Transaction) {
    exists o :: SpendsOutPoint(e.tx, o) && SpendsOutPoint(tx, o)
  }

  ghost predicate SharesLeaf(e: Entry, tx: Transaction) {
    exists l :: l in e.leafKeys && ConsumesLeaf(tx.inputs, l)
  }

  ghost predicate WellFormedForPool(ix: Index, tx: Transaction, fee: int) {
    tx.valid && !tx.coinbase && fee >= 0 && tx.hash !in ix && tx.valueOut >= DUST_THRESHOLD
  }

  ghost predicate ConflictFree(ix: Index, tx: Transaction) {
    && (forall h :: h in ix ==> !ConflictsOn(ix[h], tx))
    && (forall h :: h in ix ==> !SharesLeaf(ix[h], tx))
    && NoDuplicates(LeafKeysOf(tx.inputs))
  }

  /** What filing an entry needs: a new hash, a defined fee rate, nothing contested. */
  ghost predicate Fileable(ix: Index, tx: Transaction, fee: int) {
    && tx.hash !in ix && fee >= 0 && tx.size > 0
    && forall h :: h in ix ==> !ConflictsOn(ix[h], tx) && !SharesLeaf(ix[h], tx)
  }

  ghost predicate FamilyLimitsOk(ix: Index, tx: Transaction) {
    && |Ancestors(ix, tx)| + 1 <= MAX_ANCESTORS
    && forall a :: a in DirectParents(ix, tx) ==> |Descendants(ix, a)| + 1 <= MAX_DESCENDANTS
  }

  /** Exactly the transactions the pool takes in, given its minimum fee rate. */
  ghost predicate Admissible(ix: Index, tx: Transaction, fee: int, minRate: int) {
    && WellFormedForPool(ix, tx, fee)
    && ConflictFree(ix, tx)
    && tx.size > 0
    && FeePerK(fee, tx.size) >= minRate
    && FamilyLimitsOk(ix, tx)
  }

  ghost function Unexpired(ix: Index, now: int): Index {
    map h | h in ix && ix[h].entryTime >= now - MEMPOOL_EXPIRY_SECONDS :: ix[h]
  }

  // ---- Block connection ----

  /** A pool entry the block makes impossible: it is confirmed by tx, spends an outpoint tx
      spends, or holds a noise leaf tx consumes (when all of tx's proofs parse). */
  ghost predicate StruckBy(ix: Index, h: Bytes32, tx: Transaction) {
    && h in ix && !tx.coinbase
    && (h == tx.hash || ConflictsOn(ix[h], tx) || (ProofsParse(tx.inputs) && SharesLeaf(ix[h], tx)))
  }

  ghost function Struck(ix: Index, blockTxs: seq<Transaction>): set<Bytes32> {
    set h | h in ix && exists i :: 0 <= i < |blockTxs| && StruckBy(ix, h, blockTxs[i])
  }

  // ---- Order of block assembly ----

  ghost predicate IsFirst(keys: set<OrdKey>, k: OrdKey) {
    k in keys && forall o :: o in keys && o != k ==> Less(k, o)
  }

  lemma {:induction false} FirstExists(keys: set<OrdKey>)
    requires keys != {}
    ensures exists k :: IsFirst(keys, k)
  {
    var k :| k in keys;
    var rest := keys - {k};
    if rest != {} {
      FirstExists(rest);
      var m :| IsFirst(rest, m);
      FirstOfMore(keys, k, m);
    } else {
      assert keys == {k};
      assert IsFirst(keys, k);
    }
  }

  lemma FirstOfMore(keys: set<OrdKey>, k: OrdKey, m: OrdKey)
    requires k in keys && IsFirst(keys - {k}, m)
    ensures IsFirst(keys, if Less(k, m) then k else m)
  {
    forall o | o in keys && o != k && o != m ensures Less(m, o) {
      assert o in keys - {k};
    }
  }

  /** `begin()` of an ordered map. */
  method FirstKey(m: map<OrdKey, Bytes32>) returns (k: OrdKey)
    requires m != map[]
    ensures IsFirst(m.Keys, k)
  {
    assert m.Keys != {};
    FirstExists(m.Keys);
    k :| k in m.Keys && forall o :: o in m.Keys && o != k ==> Less(k, o);
  }

  ghost predicate IsLast(keys: set<OrdKey>, k: OrdKey) {
    k in keys && forall o :: o in keys && o != k ==> Less(o, k)
  }

  lemma {:induction false} LastExists(keys: set<OrdKey>)
    requires keys != {}
    ensures exists k :: IsLast(keys, k)
  {
    var k :| k in keys;
    var rest := keys - {k};
    if rest != {} {
      LastExists(rest);
      var m :| IsLast(rest, m);
      LastOfMore(keys, k, m);
    } else {
      assert keys == {k};
      assert IsLast(keys, k);
    }
  }

  lemma LastOfMore(keys: set<OrdKey>, k: OrdKey, m: OrdKey)
    requires k in keys && IsLast(keys - {k}, m)
    ensures IsLast(keys, if Less(m, k) then k else m)
  {
    forall o | o in keys && o != k && o != m ensures Less(o, m) {
      assert o in keys - {k};
    }
  }

  /** `rbegin()` of an ordered map. */
  method LastKey(m: map<OrdKey, Bytes32>) returns (k: OrdKey)
    requires m != map[]
    ensures IsLast(m.Keys, k)
  {
    assert m.Keys != {};
    LastExists(m.Keys);
    k :| k in m.Keys && forall o :: o in m.Keys && o != k ==> Less(o, k);
  }

  /** Entries in falling order of fee rate (later admission first among equals), none of the
      entries left out paying more than one listed. */
  ghost predicate BestFirst(ix: Index, order: seq<Bytes32>) {
    && (forall i :: 0 <= i < |order| ==> order[i] in ix)
    && (forall i, j :: 0 <= i < j < |order| ==> Less(FeeKey(ix[order[j]]), FeeKey(ix[order[i]])))
    && (forall h, i :: h in ix && h !in order && 0 <= i < |order| ==> Less(FeeKey(ix[h]), FeeKey(ix[order[i]])))
  }

  /** Equal fee rates come in the order in which they were admitted. */
  ghost predicate ArrivalOrder(ix: Index, order: seq<Bytes32>) {
    forall i, j :: 0 <= i < j < |order| && Tied(ix, order[i], order[j]) ==> ix[order[i]].seqNo < ix[order[j]].seqNo
  }

  ghost predicate Tied(ix: Index, h: Bytes32, k: Bytes32) {
    h in ix && k in ix && ix[h].feePerK == ix[k].feePerK
  }

  /** Best first is in order of arrival exactly when no two of the entries listed pay the same rate. */
  lemma ArrivalOrderExactly(ix: Index, order: seq<Bytes32>)
    requires BestFirst(ix, order)
    ensures ArrivalOrder(ix, order) <==> forall i, j :: 0 <= i < j < |order| ==> !Tied(ix, order[i], order[j])
  {
    forall i, j | 0 <= i < j < |order| && Tied(ix, order[i], order[j])
      ensures ix[order[j]].seqNo < ix[order[i]].seqNo
    {
      assert Less(FeeKey(ix[order[j]]), FeeKey(ix[order[i]]));
    }
  }

  /** And when all of them are listed, exactly when no two entries of the pool pay the same rate. */
  lemma WholeArrivalOrderExactly(ix: Index, order: seq<Bytes32>)
    requires BestFirst(ix, order) && |order| == |ix|
    ensures ArrivalOrder(ix, order) <==> forall h, k :: h in ix && k in ix && h != k ==> !Tied(ix, h, k)
  {
    ArrivalOrderExactly(ix, order);
    AllListed(ix, order);
    forall i, j | 0 <= i < j < |order|
      ensures order[i] != order[j] && order[i] in ix && order[j] in ix
    {
      assert Less(FeeKey(ix[order[j]]), FeeKey(ix[order[i]]));
    }
    forall h, k | h in ix && k in ix && h != k && Tied(ix, h, k)
      ensures exists i, j :: 0 <= i < j < |order| && Tied(ix, order[i], order[j])
    {
      var i :| 0 <= i < |order| && order[i] == h;
      var j :| 0 <= j < |order| && order[j] == k;
      if i < j { assert Tied(ix, order[i], order[j]); } else { assert Tied(ix, order[j], order[i]); }
    }
  }

  lemma AllListed(ix: Index, order: seq<Bytes32>)
    requires BestFirst(ix, order) && |order| == |ix|
    ensures forall h :: h in ix ==> h in order
  {
    forall i, j | 0 <= i < j < |order|
      ensures order[i] != order[j]
    {
      assert Less(FeeKey(ix[order[j]]), FeeKey(ix[order[i]]));
    }
    DistinctSize(order);
    forall h | h in Elems(order)
      ensures h in ix.Keys
    {
      var i :| 0 <= i < |order| && order[i] == h;
    }
    SameSize(Elems(order), ix.Keys);
  }
}
