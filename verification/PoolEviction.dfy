/** What eviction takes out, said at once instead of step by step, and what filing an entry makes it take out,
    said over the pool before the filing. */
module PoolEviction {
  import opened Bytes
  import opened Graph
  import opened PoolModel
  import opened PoolGraph

  lemma {:induction false} SumSizesMonotone(small: Index, big: Index)
    requires SubIndex(small, big)
    ensures SumSizes(small) <= SumSizes(big)
    decreases |small|
  {
    if small != map[] {
      var h :| h in small;
      SumSizesRemove(small, h);
      SumSizesRemove(big, h);
      SumSizesMonotone(small - {h}, big - {h});
    }
  }

  // ---- The fewest families ----

  /** Every entry among the roots pays less than every other. */
  ghost predicate CheapestFirst(ix: Index, roots: set<Bytes32>) {
    && roots <= ix.Keys
    && forall a, b :: a in roots && b in ix && b !in roots ==> Less(FeeKey(ix[a]), FeeKey(ix[b]))
  }

  ghost function Left(ix: Index, roots: set<Bytes32>): Index {
    ix - DescendantsOfAll(ix, roots)
  }

  ghost predicate Enough(ix: Index, maxBytes: nat, roots: set<Bytes32>) {
    CheapestFirst(ix, roots) && SumSizes(Left(ix, roots)) <= maxBytes
  }

  /** The fewest of the cheapest entries without whose families the rest fits. */
  ghost predicate Fewest(ix: Index, maxBytes: nat, roots: set<Bytes32>) {
    Enough(ix, maxBytes, roots) && forall r :: Enough(ix, maxBytes, r) ==> roots <= r
  }

  /** An entry and all that pay less. */
  ghost function UpTo(ix: Index, c: Bytes32): set<Bytes32>
    requires c in ix
  {
    set h | h in ix && (h == c || Less(FeeKey(ix[h]), FeeKey(ix[c])))
  }

  lemma UpToIsFirst(ix: Index, c: Bytes32)
    requires Numbered(ix) && c in ix
    ensures CheapestFirst(ix, UpTo(ix, c))
  {}

  /** Everything cheaper than the cheapest that is left is gone already. */
  lemma CheaperIsGone(ix: Index, done: set<Bytes32>, c: Bytes32)
    requires IsCheapest(Left(ix, done), c)
    ensures UpTo(ix, c) - {c} <= DescendantsOfAll(ix, done)
  {
    forall h | h in UpTo(ix, c) - {c}
      ensures h in DescendantsOfAll(ix, done)
    {
      assert h in Left(ix, done) ==> Less(FeeKey(ix[c]), FeeKey(ix[h]));
    }
  }

  lemma FamiliesWithin(ix: Index, roots: set<Bytes32>, more: set<Bytes32>)
    requires roots <= DescendantsOfAll(ix, more)
    ensures DescendantsOfAll(ix, roots) <= DescendantsOfAll(ix, more)
  {
    GraphsWellFormed(ix);
    ReachClosed(ChildGraph(ix), more);
    ReachLeast(ChildGraph(ix), roots, DescendantsOfAll(ix, more));
  }

  lemma DoneIsCheaper(ix: Index, done: set<Bytes32>, c: Bytes32)
    requires CheapestFirst(ix, done) && IsCheapest(Left(ix, done), c)
    ensures c !in done && done < UpTo(ix, c)
  {
    RootsReached(ChildGraph(ix), done);
    assert c in UpTo(ix, c);
  }

  lemma SameFamilies(ix: Index, done: set<Bytes32>, c: Bytes32, next: set<Bytes32>)
    requires done + {c} <= next && next - {c} <= DescendantsOfAll(ix, done)
    ensures DescendantsOfAll(ix, next) == DescendantsOfAll(ix, done + {c})
  {
    var more := done + {c};
    RootsReached(ChildGraph(ix), more);
    RootsReached(ChildGraph(ix), next);
    GraphsWellFormed(ix);
    ReachMoreRoots(ChildGraph(ix), done, more);
    ReachMoreRoots(ChildGraph(ix), more, next);
    RootsWithin(next, done, c, DescendantsOfAll(ix, done), DescendantsOfAll(ix, more));
    FamiliesWithin(ix, next, more);
    SameSet(DescendantsOfAll(ix, next), DescendantsOfAll(ix, more));
  }

  lemma SameSet<T>(a: set<T>, b: set<T>)
    requires a <= b <= a
    ensures a == b
  {}

  lemma RootsWithin<T>(next: set<T>, done: set<T>, c: T, gone: set<T>, all: set<T>)
    requires next - {c} <= gone <= all && done + {c} <= all
    ensures next <= all
  {}

  lemma CheaperThanMissing(ix: Index, c: Bytes32, r: set<Bytes32>, x: Bytes32)
    requires c in ix && CheapestFirst(ix, r) && x in UpTo(ix, c) && x !in r
    ensures r <= UpTo(ix, c) - {c}
  {
    forall a | a in r
      ensures a in UpTo(ix, c) - {c}
    {
      assert Less(FeeKey(ix[a]), FeeKey(ix[x]));
    }
  }

  /** Whatever is enough holds the cheapest that is left. */
  lemma CheapestMustGo(ix: Index, maxBytes: nat, done: set<Bytes32>, c: Bytes32, r: set<Bytes32>)
    requires Numbered(ix) && IsCheapest(Left(ix, done), c) && SumSizes(Left(ix, done)) > maxBytes && Enough(ix, maxBytes, r)
    ensures UpTo(ix, c) <= r
  {
    if !(UpTo(ix, c) <= r) {
      var x :| x in UpTo(ix, c) && x !in r;
      CheaperIsGone(ix, done, c);
      CheaperThanMissing(ix, c, r, x);
      FamiliesWithin(ix, r, done);
      SumSizesMonotone(Left(ix, done), Left(ix, r));
    }
  }

  lemma LeftNumbered(ix: Index, roots: set<Bytes32>)
    requires Numbered(ix)
    ensures Numbered(Left(ix, roots))
  {}

  /** One eviction. */
  lemma OneFamilyMore(ix: Index, maxBytes: nat, done: set<Bytes32>) returns (next: set<Bytes32>)
    requires Numbered(ix) && CheapestFirst(ix, done) && SumSizes(Left(ix, done)) > maxBytes
    ensures CheapestFirst(ix, next) && done < next
    ensures Numbered(Left(ix, done)) && Numbered(Left(ix, next))
    ensures Trimmed(Left(ix, done), maxBytes) == Trimmed(Left(ix, next), maxBytes)
    ensures forall r :: Enough(ix, maxBytes, r) ==> next <= r
  {
    var left := Left(ix, done);
    LeftNumbered(ix, done);
    CheapestExists(left);
    var c :| IsCheapest(left, c);
    next := UpTo(ix, c);
    UpToIsFirst(ix, c);
    DoneIsCheaper(ix, done, c);
    CheaperIsGone(ix, done, c);
    SameFamilies(ix, done, c, next);
    RemoveFamilyAfterOthers(ix, done, c);
    TrimUnfold(left, maxBytes, c);
    forall r | Enough(ix, maxBytes, r)
      ensures next <= r
    {
      CheapestMustGo(ix, maxBytes, done, c, r);
    }
  }

  lemma {:induction false} TrimmedFrom(ix: Index, maxBytes: nat, done: set<Bytes32>) returns (roots: set<Bytes32>)
    requires Numbered(ix) && CheapestFirst(ix, done) && forall r :: Enough(ix, maxBytes, r) ==> done <= r
    ensures Fewest(ix, maxBytes, roots)
    ensures Numbered(Left(ix, done)) && Trimmed(Left(ix, done), maxBytes) == Left(ix, roots)
    decreases ix.Keys - done
  {
    LeftNumbered(ix, done);
    if SumSizes(Left(ix, done)) <= maxBytes {
      roots := done;
    } else {
      var next := OneFamilyMore(ix, maxBytes, done);
      roots := TrimmedFrom(ix, maxBytes, next);
    }
  }

  /** Evicting family after family takes the families of the fewest cheapest entries, at once. */
  lemma TrimmedExactly(ix: Index, maxBytes: nat)
    requires Numbered(ix)
    ensures exists roots :: Fewest(ix, maxBytes, roots)
    ensures forall roots :: Fewest(ix, maxBytes, roots) ==> Trimmed(ix, maxBytes) == Left(ix, roots)
  {
    NoRoots(ix);
    var found := TrimmedFrom(ix, maxBytes, {});
    forall roots | Fewest(ix, maxBytes, roots)
      ensures roots == found
    {
      assert Enough(ix, maxBytes, roots) && Enough(ix, maxBytes, found);
    }
  }

  lemma NoRoots(ix: Index)
    ensures Left(ix, {}) == ix
  {
    ReachLeast(ChildGraph(ix), {}, {});
  }

  // ---- The same over the pool before an entry is filed ----

  /** What e spends of an entry that goes. */
  ghost predicate SpendsOneOf(ix: Index, e: Entry, gone: set<Bytes32>) {
    exists a :: a in gone && a in ix && SpendsOutputOf(e.tx, a, ix[a].tx.outputCount)
  }

  ghost function SpendersOf(ix: Index, e: Entry): set<Bytes32> {
    set b | b in ix && SpendsOutputOf(ix[b].tx, e.tx.hash, e.tx.outputCount)
  }

  /** The families of some roots once e is filed: with e go those that spend it. */
  ghost function FamiliesWith(ix: Index, e: Entry, roots: set<Bytes32>): set<Bytes32> {
    var n := e.tx.hash;
    var gone := DescendantsOfAll(ix, roots - {n});
    if n in roots || SpendsOneOf(ix, e, gone) then gone + {n} + DescendantsOfAll(ix, SpendersOf(ix, e)) else gone
  }

  ghost predicate CheapestFirstWith(ix: Index, e: Entry, roots: set<Bytes32>) {
    var n := e.tx.hash;
    && roots <= ix.Keys + {n}
    && (forall a, b :: a in roots && a in ix && b in ix && b !in roots ==> Less(FeeKey(ix[a]), FeeKey(ix[b])))
    && (n in roots ==> forall b :: b in ix && b !in roots ==> Less(FeeKey(e), FeeKey(ix[b])))
    && (n !in roots ==> forall a :: a in roots && a in ix ==> Less(FeeKey(ix[a]), FeeKey(e)))
  }

  ghost function SizeLeftWith(ix: Index, e: Entry, roots: set<Bytes32>): nat {
    var gone := FamiliesWith(ix, e, roots);
    SumSizes(ix - gone) + if e.tx.hash in gone then 0 else e.size
  }

  ghost predicate EnoughWith(ix: Index, e: Entry, maxBytes: nat, roots: set<Bytes32>) {
    CheapestFirstWith(ix, e, roots) && SizeLeftWith(ix, e, roots) <= maxBytes
  }

  ghost predicate FewestWith(ix: Index, e: Entry, maxBytes: nat, roots: set<Bytes32>) {
    EnoughWith(ix, e, maxBytes, roots) && forall r :: EnoughWith(ix, e, maxBytes, r) ==> roots <= r
  }

  lemma ChildEdgesGrow(ix: Index, e: Entry)
    requires e.tx.hash !in ix
    ensures var n := e.tx.hash;
      var ix' := ix[n := e];
      && WellFormed(ChildGraph(ix'))
      && (forall a, b :: Edge(ChildGraph(ix), a, b) ==> Edge(ChildGraph(ix'), a, b))
      && (forall a, b :: Edge(ChildGraph(ix'), a, b) && a != n && b != n ==> Edge(ChildGraph(ix), a, b))
      && (forall a :: a in ix ==> (Edge(ChildGraph(ix'), a, n) <==> SpendsOutputOf(e.tx, a, ix[a].tx.outputCount)))
      && (forall b :: b in ix ==> (Edge(ChildGraph(ix'), n, b) <==> b in SpendersOf(ix, e)))
  {
    var n := e.tx.hash;
    var ix' := ix[n := e];
    GraphsWellFormed(ix');
    forall a, b
      ensures Edge(ChildGraph(ix'), a, b) <==> SpendsFrom(ix', a, b)
      ensures Edge(ChildGraph(ix), a, b) <==> SpendsFrom(ix, a, b)
    {}
  }

  lemma FamiliesWithClosed(ix: Index, e: Entry, roots: set<Bytes32>)
    requires e.tx.hash !in ix && roots <= ix.Keys + {e.tx.hash}
    ensures Closed(ChildGraph(ix[e.tx.hash := e]), FamiliesWith(ix, e, roots))
  {
    var n := e.tx.hash;
    var g, g', all := ChildGraph(ix), ChildGraph(ix[n := e]), FamiliesWith(ix, e, roots);
    ChildEdgesGrow(ix, e);
    GraphsWellFormed(ix);
    RootsReached(g, SpendersOf(ix, e));
    ReachClosed(g, roots - {n});
    ReachClosed(g, SpendersOf(ix, e));
    forall a, b | a in all && Edge(g', a, b)
      ensures b in all
    {
      if a != n && b != n {
        assert Edge(g, a, b);
      }
    }
  }

  lemma FamiliesWithAtMost(ix: Index, e: Entry, roots: set<Bytes32>)
    requires e.tx.hash !in ix && roots <= ix.Keys + {e.tx.hash}
    ensures DescendantsOfAll(ix[e.tx.hash := e], roots) <= FamiliesWith(ix, e, roots)
  {
    FamiliesWithClosed(ix, e, roots);
    RootsReached(ChildGraph(ix), roots - {e.tx.hash});
    ReachLeast(ChildGraph(ix[e.tx.hash := e]), roots, FamiliesWith(ix, e, roots));
  }

  lemma FamiliesWithAtLeast(ix: Index, e: Entry, roots: set<Bytes32>)
    requires e.tx.hash !in ix && roots <= ix.Keys + {e.tx.hash}
    ensures FamiliesWith(ix, e, roots) <= DescendantsOfAll(ix[e.tx.hash := e], roots)
  {
    var n := e.tx.hash;
    var g, g' := ChildGraph(ix), ChildGraph(ix[n := e]);
    var all, gone := Reach(g', roots), DescendantsOfAll(ix, roots - {n});
    ChildEdgesGrow(ix, e);
    RootsReached(g', roots);
    ReachMonotone(g, g', roots - {n}, roots);
    if n in roots || SpendsOneOf(ix, e, gone) {
      if n !in roots {
        var a :| a in gone && a in ix && SpendsOutputOf(e.tx, a, ix[a].tx.outputCount);
        ReachStep(g', roots, a, n);
      }
      ReachClosed(g', roots);
      forall b | b in SpendersOf(ix, e)
        ensures b in all
      {
        assert Edge(g', n, b);
      }
      ReachLeast(g, SpendersOf(ix, e), all);
    }
  }

  /** Families over the pool before are the families in the pool with e. */
  lemma FamiliesWithExactly(ix: Index, e: Entry, roots: set<Bytes32>)
    requires e.tx.hash !in ix && roots <= ix.Keys + {e.tx.hash}
    ensures DescendantsOfAll(ix[e.tx.hash := e], roots) == FamiliesWith(ix, e, roots)
  {
    FamiliesWithAtMost(ix, e, roots);
    FamiliesWithAtLeast(ix, e, roots);
  }

  lemma CheapestFirstWithExactly(ix: Index, e: Entry, roots: set<Bytes32>)
    requires e.tx.hash !in ix
    ensures CheapestFirst(ix[e.tx.hash := e], roots) <==> CheapestFirstWith(ix, e, roots)
  {}

  ghost function LeftWith(ix: Index, e: Entry, gone: set<Bytes32>): Index {
    if e.tx.hash in gone then ix - gone else (ix - gone)[e.tx.hash := e]
  }

  lemma LeftWithExactly(ix: Index, e: Entry, gone: set<Bytes32>)
    requires e.tx.hash !in ix
    ensures ix[e.tx.hash := e] - gone == LeftWith(ix, e, gone)
    ensures SumSizes(LeftWith(ix, e, gone)) == SumSizes(ix - gone) + if e.tx.hash in gone then 0 else e.size
  {
    if e.tx.hash !in gone {
      SumSizesAdd(ix - gone, e.tx.hash, e);
    }
  }

  lemma EnoughWithExactly(ix: Index, e: Entry, maxBytes: nat, roots: set<Bytes32>)
    requires e.tx.hash !in ix
    ensures Enough(ix[e.tx.hash := e], maxBytes, roots) <==> EnoughWith(ix, e, maxBytes, roots)
  {
    CheapestFirstWithExactly(ix, e, roots);
    if CheapestFirstWith(ix, e, roots) {
      FamiliesWithExactly(ix, e, roots);
      LeftWithExactly(ix, e, FamiliesWith(ix, e, roots));
    }
  }

  lemma FewestWithExactly(ix: Index, e: Entry, maxBytes: nat, roots: set<Bytes32>)
    requires e.tx.hash !in ix
    ensures Fewest(ix[e.tx.hash := e], maxBytes, roots) <==> FewestWith(ix, e, maxBytes, roots)
  {
    forall r
      ensures Enough(ix[e.tx.hash := e], maxBytes, r) <==> EnoughWith(ix, e, maxBytes, r)
    {
      EnoughWithExactly(ix, e, maxBytes, r);
    }
  }

  /** What filing an entry and trimming leave of the pool before, and whether the entry itself stays. */
  lemma FiledAndTrimmed(ix: Index, e: Entry, maxBytes: nat)
    requires e.tx.hash !in ix && Numbered(ix[e.tx.hash := e])
    ensures exists roots :: FewestWith(ix, e, maxBytes, roots)
    ensures forall roots :: FewestWith(ix, e, maxBytes, roots) ==>
      Trimmed(ix[e.tx.hash := e], maxBytes) == LeftWith(ix, e, FamiliesWith(ix, e, roots))
  {
    var ix' := ix[e.tx.hash := e];
    TrimmedExactly(ix', maxBytes);
    var found :| Fewest(ix', maxBytes, found);
    FewestWithExactly(ix, e, maxBytes, found);
    forall roots | FewestWith(ix, e, maxBytes, roots)
      ensures Trimmed(ix', maxBytes) == LeftWith(ix, e, FamiliesWith(ix, e, roots))
    {
      FewestWithExactly(ix, e, maxBytes, roots);
      FamiliesWithExactly(ix, e, roots);
      LeftWithExactly(ix, e, FamiliesWith(ix, e, roots));
    }
  }

  // ---- The ancestor bound ----

  /** The entry goes again, or nothing that stays has too large an ancestry with it. */
  ghost predicate BoundSurvives(ix: Index, e: Entry, gone: set<Bytes32>) {
    e.tx.hash in gone || StaysBounded(ix - gone, e)
  }

  lemma LeftBoundExactly(ix: Index, e: Entry, gone: set<Bytes32>)
    requires e.tx.hash !in ix && AncestorsBounded(ix)
    ensures AncestorsBounded(LeftWith(ix, e, gone)) <==> BoundSurvives(ix, e, gone)
  {
    if e.tx.hash in gone {
      RemovalKeepsAncestorBound(ix - gone, ix);
    } else {
      BoundExactly(ix - gone, e);
    }
  }

  /** With e filed and whatever must go evicted, the ancestor bound holds. */
  ghost predicate BoundSurvivesTrim(ix: Index, e: Entry, maxBytes: nat) {
    exists roots :: FewestWith(ix, e, maxBytes, roots) && BoundSurvives(ix, e, FamiliesWith(ix, e, roots))
  }

  lemma TrimBoundExactly(ix: Index, e: Entry, maxBytes: nat)
    requires e.tx.hash !in ix && Numbered(ix[e.tx.hash := e]) && AncestorsBounded(ix)
    ensures AncestorsBounded(Trimmed(ix[e.tx.hash := e], maxBytes)) <==> BoundSurvivesTrim(ix, e, maxBytes)
  {
    FiledAndTrimmed(ix, e, maxBytes);
    forall roots | FewestWith(ix, e, maxBytes, roots)
      ensures AncestorsBounded(Trimmed(ix[e.tx.hash := e], maxBytes)) <==> BoundSurvives(ix, e, FamiliesWith(ix, e, roots))
    {
      LeftBoundExactly(ix, e, FamiliesWith(ix, e, roots));
    }
  }
}
