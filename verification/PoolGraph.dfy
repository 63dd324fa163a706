/** Spending relations between pool entries, and what removal, eviction and admission do
    to the set of entries. Everything here is about the entries alone; `PoolModel` shows
    that the other indexes follow from them. */
module PoolGraph {
  import opened Bytes
  import opened Graph
  import opened PoolModel

  // ---- Descendants: through the outputs a transaction really has ----

  /** Spends one of the outputs of the transaction with this hash and so many outputs. */
  ghost predicate SpendsOutputOf(tx: Transaction, a: Bytes32, outputs: nat) {
    exists o :: SpendsOutPoint(tx, o) && o.hash == a && o.index < outputs
  }

  ghost predicate SpendsFrom(ix: Index, a: Bytes32, b: Bytes32) {
    a in ix && b in ix && SpendsOutputOf(ix[b].tx, a, ix[a].tx.outputCount)
  }

  ghost function ChildGraph(ix: Index): G<Bytes32> {
    map a | a in ix :: set b | b in ix && SpendsFrom(ix, a, b)
  }

  ghost function Descendants(ix: Index, h: Bytes32): set<Bytes32> {
    Reach(ChildGraph(ix), {h})
  }

  // ---- Ancestors: through the transaction hashes the inputs name ----

  ghost predicate NamesParent(tx: Transaction, a: Bytes32) {
    exists o :: SpendsOutPoint(tx, o) && o.hash == a
  }

  ghost function DirectParents(ix: Index, tx: Transaction): set<Bytes32> {
    set a | a in ix && NamesParent(tx, a)
  }

  ghost function ParentGraph(ix: Index): G<Bytes32> {
    map b | b in ix :: DirectParents(ix, ix[b].tx)
  }

  ghost function Ancestors(ix: Index, tx: Transaction): set<Bytes32> {
    Reach(ParentGraph(ix), DirectParents(ix, tx))
  }

  lemma GraphsWellFormed(ix: Index)
    ensures WellFormed(ChildGraph(ix)) && WellFormed(ParentGraph(ix))
  {}

  lemma DescendantsInPool(ix: Index, h: Bytes32)
    ensures h in Descendants(ix, h) && Descendants(ix, h) <= ix.Keys + {h}
  {
    RootsReached(ChildGraph(ix), {h});
  }

  lemma AncestorsInPool(ix: Index, tx: Transaction)
    ensures Ancestors(ix, tx) <= ix.Keys
  {}

  lemma ParentIsAncestor(ix: Index, tx: Transaction, a: Bytes32)
    requires a in DirectParents(ix, tx)
    ensures a in Ancestors(ix, tx)
  {
    RootsReached(ParentGraph(ix), DirectParents(ix, tx));
  }

  lemma AncestorOfAncestor(ix: Index, tx: Transaction, a: Bytes32, b: Bytes32)
    requires a in Ancestors(ix, tx) && Edge(ParentGraph(ix), a, b)
    ensures b in Ancestors(ix, tx)
  {
    GraphsWellFormed(ix);
    ReachStep(ParentGraph(ix), DirectParents(ix, tx), a, b);
  }

  lemma ChildEdgesAfterCut(ix: Index, cut: set<Bytes32>)
    ensures forall a, b :: Edge(ChildGraph(ix - cut), a, b) <==> Edge(ChildGraph(ix), a, b) && a !in cut && b !in cut
  {
    forall a, b ensures Edge(ChildGraph(ix - cut), a, b) <==> Edge(ChildGraph(ix), a, b) && a !in cut && b !in cut {
      assert Edge(ChildGraph(ix), a, b) <==> SpendsFrom(ix, a, b);
      assert Edge(ChildGraph(ix - cut), a, b) <==> SpendsFrom(ix - cut, a, b);
    }
  }

  /** No survivor descends from an entry that was taken out: the set is closed downwards. */
  ghost predicate DownClosed(ix: Index, cut: set<Bytes32>) {
    Closed(ChildGraph(ix), cut)
  }

  // ---- Removing several families, one after another ----

  ghost function DescendantsOfAll(ix: Index, roots: set<Bytes32>): set<Bytes32> {
    Reach(ChildGraph(ix), roots)
  }

  /** Taking out the family of r from what is left of the pool, after the families of `roots`
      went, is the same as taking out the families of roots and r from the whole pool. */
  lemma RemoveFamilyAfterOthers(ix: Index, roots: set<Bytes32>, r: Bytes32)
    ensures var left := ix - DescendantsOfAll(ix, roots);
      left - Descendants(left, r) == ix - DescendantsOfAll(ix, roots + {r})
  {
    var cut := DescendantsOfAll(ix, roots);
    GraphsWellFormed(ix);
    GraphsWellFormed(ix - cut);
    ChildEdgesAfterCut(ix, cut);
    ReachOneMore(ChildGraph(ix), ChildGraph(ix - cut), cut, roots, r);
  }

  // ---- Eviction ----

  ghost predicate Numbered(ix: Index) {
    forall h, k :: h in ix && k in ix && h != k ==> ix[h].seqNo != ix[k].seqNo
  }

  ghost predicate IsCheapest(ix: Index, h: Bytes32) {
    h in ix && forall k :: k in ix && k != h ==> Less(FeeKey(ix[h]), FeeKey(ix[k]))
  }

  lemma {:induction false} CheapestExists(ix: Index)
    requires Numbered(ix) && ix != map[]
    ensures exists h :: IsCheapest(ix, h)
    decreases |ix|
  {
    var h :| h in ix;
    var rest := ix - {h};
    if rest == map[] {
      assert forall k :: k in ix ==> k == h || k in rest;
      assert IsCheapest(ix, h);
    } else {
      CheapestExists(rest);
      var m :| IsCheapest(rest, m);
      var best := if Less(FeeKey(ix[h]), FeeKey(ix[m])) then h else m;
      forall k | k in ix && k != best ensures Less(FeeKey(ix[best]), FeeKey(ix[k])) {
        if k != h { assert k in rest; }
      }
      assert IsCheapest(ix, best);
    }
  }

  ghost function Cheapest(ix: Index): Bytes32
    requires Numbered(ix) && ix != map[]
  {
    CheapestExists(ix);
    var h :| IsCheapest(ix, h); h
  }

  lemma CheapestUnique(ix: Index, h: Bytes32)
    requires Numbered(ix) && IsCheapest(ix, h)
    ensures Cheapest(ix) == h
  {
    CheapestExists(ix);
    var c := Cheapest(ix);
    assert IsCheapest(ix, c);
  }

  lemma RemovalShrinks(ix: Index, cut: set<Bytes32>, h: Bytes32)
    requires h in ix && h in cut
    ensures |ix - cut| < |ix|
  {
    var k := (ix - cut).Keys;
    assert k <= ix.Keys - {h};
    SubsetSize(k, ix.Keys - {h});
  }

  /** Evict the family of the cheapest entry until the rest fits. */
  ghost function Trimmed(ix: Index, maxBytes: nat): Index
    requires Numbered(ix)
    decreases |ix|
  {
    if SumSizes(ix) <= maxBytes || ix == map[] then ix
    else
      var c := Cheapest(ix);
      DescendantsInPool(ix, c);
      RemovalShrinks(ix, Descendants(ix, c), c);
      Trimmed(ix - Descendants(ix, c), maxBytes)
  }

  lemma TrimUnfold(ix: Index, maxBytes: nat, h: Bytes32)
    requires Numbered(ix) && IsCheapest(ix, h) && SumSizes(ix) > maxBytes
    ensures var left := ix - Descendants(ix, h);
      && Numbered(left) && |left| < |ix|
      && Trimmed(left, maxBytes) == Trimmed(ix, maxBytes)
  {
    CheapestUnique(ix, h);
    DescendantsInPool(ix, h);
    RemovalShrinks(ix, Descendants(ix, h), h);
  }

  ghost predicate SubIndex(small: Index, big: Index) {
    forall h :: h in small ==> h in big && small[h] == big[h]
  }

  /** Eviction stops under the limit, keeps entries as they were, and never leaves behind
      a transaction whose funding transaction it threw out. */
  lemma {:induction false} TrimFitsAndNeverOrphans(ix: Index, maxBytes: nat)
    requires Numbered(ix)
    ensures SumSizes(Trimmed(ix, maxBytes)) <= maxBytes
    ensures SubIndex(Trimmed(ix, maxBytes), ix)
    ensures DownClosed(ix, ix.Keys - Trimmed(ix, maxBytes).Keys)
    decreases |ix|
  {
    var out := Trimmed(ix, maxBytes);
    if !(SumSizes(ix) <= maxBytes || ix == map[]) {
      var c := Cheapest(ix);
      var cut := Descendants(ix, c);
      var left := ix - cut;
      DescendantsInPool(ix, c);
      RemovalShrinks(ix, cut, c);
      TrimFitsAndNeverOrphans(left, maxBytes);
      GraphsWellFormed(ix);
      ReachClosed(ChildGraph(ix), {c});
      ChildEdgesAfterCut(ix, cut);
      forall a, b | a in ix.Keys - out.Keys && Edge(ChildGraph(ix), a, b) ensures b in ix.Keys - out.Keys {
        if a !in cut && b !in cut {
          assert Edge(ChildGraph(left), a, b);
          assert a in left.Keys - out.Keys;
        }
      }
    }
  }

  ghost predicate EvictedFor(ix: Index, out: Index, e: Bytes32, root: Bytes32) {
    && root in ix && root !in out && e in Descendants(ix, root)
    && forall s :: s in out ==> Less(FeeKey(ix[root]), FeeKey(out[s]))
  }

  /** Nothing is evicted except along with an entry that pays less than every survivor. */
  lemma {:induction false} TrimTakesCheapestFamilies(ix: Index, maxBytes: nat, e: Bytes32)
    requires Numbered(ix) && e in ix && e !in Trimmed(ix, maxBytes)
    ensures exists root :: EvictedFor(ix, Trimmed(ix, maxBytes), e, root)
    decreases |ix|
  {
    var out := Trimmed(ix, maxBytes);
    var c := Cheapest(ix);
    CheapestExists(ix);
    assert IsCheapest(ix, c);
    var cut := Descendants(ix, c);
    var left := ix - cut;
    DescendantsInPool(ix, c);
    RemovalShrinks(ix, cut, c);
    TrimFitsAndNeverOrphans(left, maxBytes);
    if e in cut {
      assert EvictedFor(ix, out, e, c);
    } else {
      TrimTakesCheapestFamilies(left, maxBytes, e);
      var root :| EvictedFor(left, out, e, root);
      DescendantsShrink(ix, cut, root);
      assert EvictedFor(ix, out, e, root);
    }
  }

  lemma DescendantsShrink(ix: Index, cut: set<Bytes32>, h: Bytes32)
    ensures Descendants(ix - cut, h) <= Descendants(ix, h)
  {
    ChildEdgesAfterCut(ix, cut);
    GraphsWellFormed(ix);
    ReachMonotone(ChildGraph(ix - cut), ChildGraph(ix), {h}, {h});
  }

  // ---- Unconfirmed ancestors ----

  ghost predicate AncestorsBounded(ix: Index) {
    forall h :: h in ix ==> |Ancestors(ix, ix[h].tx) + {h}| <= MAX_ANCESTORS
  }

  lemma AncestorsShrink(small: Index, big: Index, tx: Transaction)
    requires SubIndex(small, big)
    ensures Ancestors(small, tx) <= Ancestors(big, tx)
  {
    GraphsWellFormed(big);
    assert DirectParents(small, tx) <= DirectParents(big, tx);
    forall a, b | Edge(ParentGraph(small), a, b) ensures Edge(ParentGraph(big), a, b) {
      assert NamesParent(small[a].tx, b);
      assert b in DirectParents(big, big[a].tx);
    }
    ReachMonotone(ParentGraph(small), ParentGraph(big), DirectParents(small, tx), DirectParents(big, tx));
  }

  /** Every kind of removal, single, recursive, expiry or eviction, keeps the ancestor bound. */
  lemma RemovalKeepsAncestorBound(small: Index, big: Index)
    requires SubIndex(small, big) && AncestorsBounded(big)
    ensures AncestorsBounded(small)
  {
    forall h | h in small ensures |Ancestors(small, small[h].tx) + {h}| <= MAX_ANCESTORS {
      AncestorsShrink(small, big, small[h].tx);
      SubsetSize(Ancestors(small, small[h].tx) + {h}, Ancestors(big, big[h].tx) + {h});
    }
  }

  /** The transaction itself, or one of its ancestors, spends the transaction with this hash. */
  ghost predicate Meets(ix: Index, tx: Transaction, n: Bytes32) {
    NamesParent(tx, n) || exists a :: a in Ancestors(ix, tx) && a in ix && NamesParent(ix[a].tx, n)
  }

  /** The ancestry a transaction will have once e is filed, in terms of the pool before. */
  ghost function After(ix: Index, e: Entry, tx: Transaction): set<Bytes32> {
    Ancestors(ix, tx) + if Meets(ix, tx, e.tx.hash) then {e.tx.hash} + Ancestors(ix, e.tx) else {}
  }

  lemma EdgesGrow(ix: Index, e: Entry)
    requires e.tx.hash !in ix
    ensures var n := e.tx.hash;
      var ix' := ix[n := e];
      && WellFormed(ParentGraph(ix')) && SubIndex(ix, ix')
      && forall a, b :: Edge(ParentGraph(ix'), a, b)
           <==> a in ix' && (Edge(ParentGraph(ix), a, b) || (a == n && b in DirectParents(ix, e.tx)) || (b == n && NamesParent(ix'[a].tx, n)))
  {
    var n := e.tx.hash;
    var ix' := ix[n := e];
    GraphsWellFormed(ix');
    forall a, b
      ensures Edge(ParentGraph(ix'), a, b)
        <==> a in ix' && (Edge(ParentGraph(ix), a, b) || (a == n && b in DirectParents(ix, e.tx)) || (b == n && NamesParent(ix'[a].tx, n)))
    {
      if a in ix' {
        assert Edge(ParentGraph(ix'), a, b) <==> b in ix' && NamesParent(ix'[a].tx, b);
        assert Edge(ParentGraph(ix), a, b) <==> a in ix && b in ix && NamesParent(ix[a].tx, b);
      }
    }
  }

  lemma AfterIsClosed(ix: Index, e: Entry, tx: Transaction)
    requires e.tx.hash !in ix
    ensures Closed(ParentGraph(ix[e.tx.hash := e]), After(ix, e, tx))
  {
    var n := e.tx.hash;
    var ix', out := ix[n := e], After(ix, e, tx);
    EdgesGrow(ix, e);
    GraphsWellFormed(ix);
    AncestorsInPool(ix, tx);
    AncestorsInPool(ix, e.tx);
    ReachClosed(ParentGraph(ix), DirectParents(ix, tx));
    ReachClosed(ParentGraph(ix), DirectParents(ix, e.tx));
    RootsReached(ParentGraph(ix), DirectParents(ix, e.tx));
    forall a, b | a in out && Edge(ParentGraph(ix'), a, b)
      ensures b in out
    {
      if Edge(ParentGraph(ix), a, b) {
        assert a != n;
      }
    }
  }

  lemma UpperAfter(ix: Index, e: Entry, tx: Transaction)
    requires e.tx.hash !in ix
    ensures Ancestors(ix[e.tx.hash := e], tx) <= After(ix, e, tx)
  {
    var ix' := ix[e.tx.hash := e];
    AfterIsClosed(ix, e, tx);
    RootsReached(ParentGraph(ix), DirectParents(ix, tx));
    ReachLeast(ParentGraph(ix'), DirectParents(ix', tx), After(ix, e, tx));
  }

  lemma MetIsAncestor(ix: Index, e: Entry, tx: Transaction)
    requires e.tx.hash !in ix && Meets(ix, tx, e.tx.hash)
    ensures e.tx.hash in Ancestors(ix[e.tx.hash := e], tx)
  {
    var n := e.tx.hash;
    var ix' := ix[n := e];
    EdgesGrow(ix, e);
    RootsReached(ParentGraph(ix'), DirectParents(ix', tx));
    if !NamesParent(tx, n) {
      var a :| a in Ancestors(ix, tx) && a in ix && NamesParent(ix[a].tx, n);
      AncestorsShrink(ix, ix', tx);
      assert Edge(ParentGraph(ix'), a, n);
      ReachStep(ParentGraph(ix'), DirectParents(ix', tx), a, n);
    }
  }

  /** Whatever has e as an ancestor has the ancestors of e. */
  lemma AncestorsBeyond(ix: Index, e: Entry, tx: Transaction)
    requires e.tx.hash !in ix && e.tx.hash in Ancestors(ix[e.tx.hash := e], tx)
    ensures Ancestors(ix, e.tx) <= Ancestors(ix[e.tx.hash := e], tx)
  {
    var n := e.tx.hash;
    var ix' := ix[n := e];
    var all := Ancestors(ix', tx);
    EdgesGrow(ix, e);
    ReachClosed(ParentGraph(ix'), DirectParents(ix', tx));
    forall a, b | a in all && Edge(ParentGraph(ix), a, b)
      ensures b in all
    {
      assert Edge(ParentGraph(ix'), a, b);
    }
    forall b | b in DirectParents(ix, e.tx)
      ensures b in all
    {
      assert Edge(ParentGraph(ix'), n, b);
    }
    ReachLeast(ParentGraph(ix), DirectParents(ix, e.tx), all);
  }

  lemma AncestorsAfter(ix: Index, e: Entry, tx: Transaction)
    requires e.tx.hash !in ix
    ensures Ancestors(ix[e.tx.hash := e], tx) == After(ix, e, tx)
  {
    var ix' := ix[e.tx.hash := e];
    UpperAfter(ix, e, tx);
    EdgesGrow(ix, e);
    AncestorsShrink(ix, ix', tx);
    if Meets(ix, tx, e.tx.hash) {
      MetIsAncestor(ix, e, tx);
      AncestorsBeyond(ix, e, tx);
    }
  }

  /** With e filed, no entry and not e itself will have too large an ancestry. */
  ghost predicate StaysBounded(ix: Index, e: Entry) {
    && |After(ix, e, e.tx) + {e.tx.hash}| <= MAX_ANCESTORS
    && forall h :: h in ix ==> |After(ix, e, ix[h].tx) + {h}| <= MAX_ANCESTORS
  }

  /** When filing an entry keeps the ancestor bound, said over the pool before. The admission check looks
      at the ancestry of e alone. */
  lemma BoundExactly(ix: Index, e: Entry)
    requires e.tx.hash !in ix
    ensures AncestorsBounded(ix[e.tx.hash := e]) <==> StaysBounded(ix, e)
  {
    var n := e.tx.hash;
    var ix' := ix[n := e];
    AncestorsAfter(ix, e, e.tx);
    assert ix'[n] == e;
    forall h | h in ix
      ensures ix'[h] == ix[h] && Ancestors(ix', ix[h].tx) == After(ix, e, ix[h].tx)
    {
      AncestorsAfter(ix, e, ix[h].tx);
    }
    if StaysBounded(ix, e) {
      forall h | h in ix'
        ensures |Ancestors(ix', ix'[h].tx) + {h}| <= MAX_ANCESTORS
      {
        assert h == n || h in ix;
      }
    }
    if AncestorsBounded(ix') {
      assert n in ix';
      forall h | h in ix
        ensures |After(ix, e, ix[h].tx) + {h}| <= MAX_ANCESTORS
      {
        assert h in ix';
      }
    }
  }

  /** So admission keeps the bound when nothing in the pool already spends the newcomer. */
  lemma AdmissionKeepsAncestorBound(ix: Index, e: Entry)
    requires AncestorsBounded(ix) && e.tx.hash !in ix
    requires |Ancestors(ix, e.tx)| + 1 <= MAX_ANCESTORS
    requires !NamesParent(e.tx, e.tx.hash)
    requires forall h :: h in ix ==> !NamesParent(ix[h].tx, e.tx.hash)
    ensures AncestorsBounded(ix[e.tx.hash := e])
  {
    var n := e.tx.hash;
    OneMoreElement(Ancestors(ix, e.tx), n);
    UnmetUnchanged(ix, e, e.tx);
    forall h | h in ix
      ensures |After(ix, e, ix[h].tx) + {h}| <= MAX_ANCESTORS
    {
      UnmetUnchanged(ix, e, ix[h].tx);
    }
    BoundExactly(ix, e);
  }

  lemma UnmetUnchanged(ix: Index, e: Entry, tx: Transaction)
    requires !NamesParent(tx, e.tx.hash) && forall h :: h in ix ==> !NamesParent(ix[h].tx, e.tx.hash)
    ensures After(ix, e, tx) == Ancestors(ix, tx)
  {}

  lemma OneMoreElement<T>(s: set<T>, x: T)
    ensures |s + {x}| <= |s| + 1
  {
    if x in s { assert s + {x} == s; }
  }
}
