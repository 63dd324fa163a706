/** Reachability in a finite directed graph given as a successor map.
    The pool's descendant and ancestor sets are instances of `Reach`. */
module Graph {
  import opened Bytes

  type G<!T> = map<T, set<T>>

  ghost predicate Edge<T(!new)>(g: G<T>, a: T, b: T) {
    a in g && b in g[a]
  }

  /** Every successor is itself a node. */
  ghost predicate WellFormed<T(!new)>(g: G<T>) {
    forall a, b :: Edge(g, a, b) ==> b in g
  }

  ghost predicate IsPath<T(!new)>(g: G<T>, p: seq<T>) {
    && |p| > 0
    && forall i, j :: 0 <= i && j == i + 1 < |p| ==> Edge(g, p[i], p[j])
  }

  ghost predicate PathFromTo<T(!new)>(g: G<T>, p: seq<T>, a: T, b: T) {
    IsPath(g, p) && p[0] == a && p[|p| - 1] == b
  }

  ghost predicate Reaches<T(!new)>(g: G<T>, a: T, b: T) {
    exists p :: PathFromTo(g, p, a, b)
  }

  ghost predicate ReachedFrom<T(!new)>(g: G<T>, roots: set<T>, b: T) {
    exists a :: a in roots && Reaches(g, a, b)
  }

  /** Everything some root reaches, the roots included. */
  ghost function Reach<T(!new)>(g: G<T>, roots: set<T>): set<T> {
    set b | b in roots + g.Keys && ReachedFrom(g, roots, b)
  }

  ghost predicate Closed<T(!new)>(g: G<T>, s: set<T>) {
    forall a, b :: a in s && Edge(g, a, b) ==> b in s
  }

  lemma RootsReached<T(!new)>(g: G<T>, roots: set<T>)
    ensures roots <= Reach(g, roots)
  {
    forall a | a in roots ensures a in Reach(g, roots) {
      assert PathFromTo(g, [a], a, a);
      assert Reaches(g, a, a);
    }
  }

  lemma ReachStep<T(!new)>(g: G<T>, roots: set<T>, a: T, b: T)
    requires WellFormed(g)
    requires a in Reach(g, roots) && Edge(g, a, b)
    ensures b in Reach(g, roots)
  {
    var r :| r in roots && Reaches(g, r, a);
    var p :| PathFromTo(g, p, r, a);
    assert PathFromTo(g, p + [b], r, b);
    assert Reaches(g, r, b);
  }

  lemma ReachClosed<T(!new)>(g: G<T>, roots: set<T>)
    requires WellFormed(g)
    ensures Closed(g, Reach(g, roots))
  {
    forall a, b | a in Reach(g, roots) && Edge(g, a, b) ensures b in Reach(g, roots) {
      ReachStep(g, roots, a, b);
    }
  }

  lemma {:induction false} PathStaysInside<T(!new)>(g: G<T>, s: set<T>, p: seq<T>)
    requires Closed(g, s) && IsPath(g, p) && p[0] in s
    ensures p[|p| - 1] in s
    decreases |p|
  {
    if |p| > 1 {
      assert Edge(g, p[0], p[1]);
      var q := p[1..];
      forall i, j | 0 <= i && j == i + 1 < |q| ensures Edge(g, q[i], q[j]) {
        assert q[i] == p[i + 1] && q[j] == p[j + 1];
      }
      PathStaysInside(g, s, q);
    }
  }

  /** `Reach` is the least closed set holding the roots. */
  lemma ReachLeast<T(!new)>(g: G<T>, roots: set<T>, s: set<T>)
    requires Closed(g, s) && roots <= s
    ensures Reach(g, roots) <= s
  {
    forall b | b in Reach(g, roots) ensures b in s {
      var a :| a in roots && Reaches(g, a, b);
      var p :| PathFromTo(g, p, a, b);
      PathStaysInside(g, s, p);
    }
  }

  /** A graph with fewer edges reaches less. */
  lemma ReachMonotone<T(!new)>(g: G<T>, h: G<T>, roots: set<T>, more: set<T>)
    requires WellFormed(h) && roots <= more
    requires forall a, b :: Edge(g, a, b) ==> Edge(h, a, b)
    ensures Reach(g, roots) <= Reach(h, more)
  {
    RootsReached(h, more);
    ReachClosed(h, more);
    ReachLeast(g, roots, Reach(h, more));
  }

  /** What r reaches outside a closed set, together with that set, is closed again. */
  lemma ReachOutsideCutClosed<T(!new)>(g: G<T>, h: G<T>, cut: set<T>, r: T)
    requires WellFormed(h) && Closed(g, cut)
    requires forall a, b :: Edge(g, a, b) && a !in cut && b !in cut ==> Edge(h, a, b)
    ensures Closed(g, cut + Reach(h, {r}))
  {
    var s := cut + Reach(h, {r});
    forall a, b | a in s && Edge(g, a, b) ensures b in s {
      if a !in cut && b !in cut {
        ReachStep(h, {r}, a, b);
      }
    }
  }

  lemma ReachWithinCut<T(!new)>(g: G<T>, h: G<T>, cut: set<T>, roots: set<T>, r: T)
    requires WellFormed(h) && Closed(g, cut) && roots <= cut
    requires forall a, b :: Edge(g, a, b) && a !in cut && b !in cut ==> Edge(h, a, b)
    ensures Reach(g, roots + {r}) <= cut + Reach(h, {r})
  {
    ReachOutsideCutClosed(g, h, cut, r);
    var inner := Reach(h, {r});
    assert r in inner by { RootsReached(h, {r}); }
    ReachLeast(g, roots + {r}, cut + inner);
  }

  lemma ReachMoreRoots<T(!new)>(g: G<T>, roots: set<T>, more: set<T>)
    requires WellFormed(g) && roots <= more
    ensures Reach(g, roots) <= Reach(g, more)
  {
    ReachMonotone(g, g, roots, more);
  }

  /** The families of `roots`, and then the family of r in what is left, are together the
      families of roots and r. */
  lemma ReachOneMore<T(!new)>(g: G<T>, h: G<T>, cut: set<T>, roots: set<T>, r: T)
    requires WellFormed(g) && WellFormed(h) && cut == Reach(g, roots)
    requires forall a, b :: Edge(h, a, b) <==> Edge(g, a, b) && a !in cut && b !in cut
    ensures Reach(g, roots + {r}) == cut + Reach(h, {r})
  {
    var lower, upper := Reach(g, roots + {r}), cut + Reach(h, {r});
    assert lower <= upper by {
      ReachClosed(g, roots);
      RootsReached(g, roots);
      ReachWithinCut(g, h, cut, roots, r);
    }
    assert Reach(h, {r}) <= lower by {
      ReachClosed(g, roots);
      RootsReached(g, roots);
      ReachMonotone(h, g, {r}, roots + {r});
    }
    assert cut <= lower by {
      ReachMoreRoots(g, roots, roots + {r});
    }
  }

  // ---- Breadth-first work lists ----

  ghost function Elems<T(!new)>(s: seq<T>): set<T> {
    set x | x in s
  }

  /** All successors of the first `head` queue elements have been queued. */
  ghost predicate Expanded<T(!new)>(g: G<T>, queue: seq<T>, head: nat) {
    forall k, b :: 0 <= k < head && k < |queue| && Edge(g, queue[k], b) ==> b in queue
  }

  ghost predicate WorkList<T(!new)>(g: G<T>, roots: set<T>, queue: seq<T>, head: nat) {
    && NoDuplicates(queue) && head <= |queue|
    && roots <= Elems(queue) <= Reach(g, roots)
    && Expanded(g, queue, head)
  }

  /** One turn of the loop: append the successors of queue[head] not queued before. */
  lemma WorkListTurn<T(!new)>(g: G<T>, roots: set<T>, queue: seq<T>, head: nat, out: seq<T>)
    requires WellFormed(g) && WorkList(g, roots, queue, head) && head < |queue|
    requires NoDuplicates(out) && queue <= out
    requires forall b :: b in out ==> b in queue || Edge(g, queue[head], b)
    requires forall b :: Edge(g, queue[head], b) ==> b in out
    ensures WorkList(g, roots, out, head + 1)
  {
    assert queue[head] in Elems(queue);
    forall b | b in out ensures b in Reach(g, roots) {
      if b in queue { assert b in Elems(queue); } else { ReachStep(g, roots, queue[head], b); }
    }
    forall b | b in queue ensures b in out {}
    forall b | b in roots ensures b in out { assert b in Elems(queue); }
  }

  /** When the work list runs out it holds exactly what the roots reach. */
  lemma WorkListDone<T(!new)>(g: G<T>, roots: set<T>, queue: seq<T>)
    requires WorkList(g, roots, queue, |queue|)
    ensures Elems(queue) == Reach(g, roots)
  {
    forall a, b | a in Elems(queue) && Edge(g, a, b) ensures b in Elems(queue) {
      var k :| 0 <= k < |queue| && queue[k] == a;
    }
    ReachLeast(g, roots, Elems(queue));
  }

  lemma {:induction false} DistinctSize<T(!new)>(s: seq<T>)
    requires NoDuplicates(s)
    ensures |Elems(s)| == |s|
  {
    if s != [] {
      var n := |s| - 1;
      DistinctSize(s[..n]);
      assert Elems(s) == Elems(s[..n]) + {s[n]};
    }
  }

  lemma {:induction false} SubsetSize<T>(a: set<T>, b: set<T>)
    requires a <= b
    ensures |a| <= |b|
  {
    if a != {} {
      var x :| x in a;
      SubsetSize(a - {x}, b - {x});
    }
  }

  lemma SameSize<T>(a: set<T>, b: set<T>)
    requires a <= b && |a| == |b|
    ensures a == b
  {
    if x :| x in b && x !in a {
      SubsetSize(a, b - {x});
    }
  }

  /** A work list never outgrows the set it fills. */
  lemma WorkListBound<T(!new)>(g: G<T>, roots: set<T>, queue: seq<T>, head: nat, all: set<T>)
    requires WorkList(g, roots, queue, head) && Reach(g, roots) <= all
    ensures |queue| <= |all|
  {
    DistinctSize(queue);
    SubsetSize(Elems(queue), all);
  }
}
