/** Merkle roots: the level-by-level loop, the tree it stands for, and what the root binds. */
module Merkle {
  import opened Bytes

  /** The hash of two nodes side by side. */
  type PairHash<!H> = (H, H) -> H

  // ---- The tree ----

  /** The root of a tree of height k over the leaves, a missing right half standing for a copy of
      the left one. */
  function Tree<H>(hash: PairHash<H>, leaves: seq<H>, k: nat): H
    requires leaves != []
    decreases k
  {
    if k == 0 then leaves[0]
    else
      var half := Pow(2, k - 1);
      if |leaves| <= half then
        var left := Tree(hash, leaves, k - 1);
        hash(left, left)
      else hash(Tree(hash, leaves[..half], k - 1), Tree(hash, leaves[half..], k - 1))
  }

  /** The height that just fits so many leaves. */
  function Height(n: nat): (k: nat)
    requires n > 0
    ensures n <= Pow(2, k) && (k > 0 ==> n > Pow(2, k - 1))
  {
    if n == 1 then 0
    else
      var k := Height((n + 1) / 2);
      assert k > 0 ==> Pow(2, k) == 2 * Pow(2, k - 1);
      k + 1
  }

  /** The definition the loop is held against: the zero hash for no leaves, else the root of the tree that
      just fits them. */
  function Root<H>(hash: PairHash<H>, zero: H, leaves: seq<H>): H {
    if leaves == [] then zero else Tree(hash, leaves, Height(|leaves|))
  }

  // ---- Levels ----

  /** The next level: neighbours hashed together, a last one without a neighbour with itself. */
  function Paired<H>(hash: PairHash<H>, level: seq<H>): (r: seq<H>)
    ensures |r| == (|level| + 1) / 2
  {
    seq((|level| + 1) / 2, i requires 0 <= i < (|level| + 1) / 2 =>
      hash(level[2 * i], if 2 * i + 1 < |level| then level[2 * i + 1] else level[2 * i]))
  }

  /** Going up one level keeps the root of the tree. */
  lemma {:induction false} TreeOfPaired<H>(hash: PairHash<H>, level: seq<H>, k: nat)
    requires 0 < |level| <= Pow(2, k + 1)
    ensures Tree(hash, level, k + 1) == Tree(hash, Paired(hash, level), k)
    decreases k, 2
  {
    if k == 0 {
      PairedLeaves(hash, level);
    } else {
      DoubleQuarter(k);
      if |level| <= Pow(2, k) {
        LeftOfPaired(hash, level, k, Pow(2, k), Pow(2, k - 1));
      } else {
        BothOfPaired(hash, level, k, Pow(2, k), Pow(2, k - 1), level[..Pow(2, k)], level[Pow(2, k)..]);
      }
    }
  }

  lemma {:induction false} BelowOfPaired<H>(hash: PairHash<H>, level: seq<H>, k: nat)
    requires k > 0 && 0 < |level| <= Pow(2, k)
    ensures Tree(hash, level, k) == Tree(hash, Paired(hash, level), k - 1)
    decreases k, 0
  {
    TreeOfPaired(hash, level, k - 1);
  }

  lemma {:induction false} LeftOfPaired<H>(hash: PairHash<H>, level: seq<H>, k: nat, half: nat, quarter: nat)
    requires k > 0 && half == Pow(2, k) && quarter == Pow(2, k - 1) && half == 2 * quarter && 0 < |level| <= half
    ensures Tree(hash, level, k + 1) == Tree(hash, Paired(hash, level), k)
    decreases k, 1
  {
    BelowOfPaired(hash, level, k);
    WholeOfPaired(hash, level, k, half, quarter);
  }

  lemma {:induction false} BothOfPaired<H>(hash: PairHash<H>, level: seq<H>, k: nat, half: nat, quarter: nat, a: seq<H>, b: seq<H>)
    requires k > 0 && half == Pow(2, k) && quarter == Pow(2, k - 1) && half == 2 * quarter && half < |level| <= 2 * half
    requires a == level[..half] && b == level[half..]
    ensures Tree(hash, level, k + 1) == Tree(hash, Paired(hash, level), k)
    decreases k, 1
  {
    BelowOfPaired(hash, a, k);
    BelowOfPaired(hash, b, k);
    SplitOfPaired(hash, level, k, half, quarter, a, b);
  }

  lemma DoubleQuarter(k: nat)
    requires k > 0
    ensures Pow(2, k) == 2 * Pow(2, k - 1) > 0 && Pow(2, k + 1) == 2 * Pow(2, k)
  {}

  lemma WholeOfPaired<H>(hash: PairHash<H>, level: seq<H>, k: nat, half: nat, quarter: nat)
    requires k > 0 && half == Pow(2, k) && quarter == Pow(2, k - 1) && half == 2 * quarter && 0 < |level| <= half
    requires Tree(hash, level, k) == Tree(hash, Paired(hash, level), k - 1)
    ensures Tree(hash, level, k + 1) == Tree(hash, Paired(hash, level), k)
  {
    TreeLeft(hash, level, k + 1, half);
    TreeLeft(hash, Paired(hash, level), k, quarter);
  }

  lemma SplitOfPaired<H>(hash: PairHash<H>, level: seq<H>, k: nat, half: nat, quarter: nat, a: seq<H>, b: seq<H>)
    requires k > 0 && half == Pow(2, k) && quarter == Pow(2, k - 1) && half == 2 * quarter && half < |level|
    requires a == level[..half] && b == level[half..]
    requires Tree(hash, a, k) == Tree(hash, Paired(hash, a), k - 1)
    requires Tree(hash, b, k) == Tree(hash, Paired(hash, b), k - 1)
    ensures Tree(hash, level, k + 1) == Tree(hash, Paired(hash, level), k)
  {
    PairedHalves(hash, level, quarter);
    TreeSplit(hash, level, k + 1, half);
    TreeSplit(hash, Paired(hash, level), k, quarter);
  }

  lemma TreeLeft<H>(hash: PairHash<H>, leaves: seq<H>, k: nat, half: nat)
    requires k > 0 && half == Pow(2, k - 1) && 0 < |leaves| <= half
    ensures Tree(hash, leaves, k) == hash(Tree(hash, leaves, k - 1), Tree(hash, leaves, k - 1))
  {}

  lemma TreeSplit<H>(hash: PairHash<H>, leaves: seq<H>, k: nat, half: nat)
    requires k > 0 && half == Pow(2, k - 1) && 0 < half < |leaves|
    ensures Tree(hash, leaves, k) == hash(Tree(hash, leaves[..half], k - 1), Tree(hash, leaves[half..], k - 1))
  {}

  lemma PairedLeaves<H>(hash: PairHash<H>, level: seq<H>)
    requires 0 < |level| <= Pow(2, 1)
    ensures Tree(hash, level, 1) == Tree(hash, Paired(hash, level), 0)
  {
    assert Pow(2, 0) == 1;
    if |level| == 2 {
      assert level[..1][0] == level[0] && level[1..][0] == level[1];
    }
  }

  /** The pairs of each half stay in that half, whose size is even. */
  lemma PairedHalves<H>(hash: PairHash<H>, level: seq<H>, quarter: nat)
    requires 2 * quarter < |level|
    ensures quarter < |Paired(hash, level)|
    ensures Paired(hash, level)[..quarter] == Paired(hash, level[..2 * quarter])
    ensures Paired(hash, level)[quarter..] == Paired(hash, level[2 * quarter..])
  {}

  /** So does going up one level with the whole root. */
  lemma RootOfPaired<H>(hash: PairHash<H>, zero: H, level: seq<H>)
    requires |level| > 1
    ensures Root(hash, zero, level) == Root(hash, zero, Paired(hash, level)) && Paired(hash, level) != []
  {
    var k := Height((|level| + 1) / 2);
    HeightStep(|level|);
    TreeOfPaired(hash, level, k);
  }

  lemma HeightStep(n: nat)
    requires n > 0
    ensures n > 1 ==> Height(n) == Height((n + 1) / 2) + 1
  {}

  method ComputeMerkleRoot<H>(hash: PairHash<H>, zero: H, hashes: seq<H>) returns (root: H)
    ensures root == Root(hash, zero, hashes)
  {
    if |hashes| == 0 {
      return zero;
    }
    if |hashes| == 1 {
      RootOfOne(hash, zero, hashes);
      return hashes[0];
    }
    var level := hashes;
    while |level| > 1
      invariant |level| > 0 && Root(hash, zero, level) == Root(hash, zero, hashes)
      decreases |level|
    {
      RootOfPaired(hash, zero, level);
      level := NextLevel(hash, level);
    }
    RootOfOne(hash, zero, level);
    root := level[0];
  }

  /** The inner loop: one level up. */
  method NextLevel<H>(hash: PairHash<H>, level: seq<H>) returns (next: seq<H>)
    ensures next == Paired(hash, level)
  {
    next := [];
    var i := 0;
    while i < |level|
      invariant 0 <= i <= |level| + 1 && i == 2 * |next| && |next| <= (|level| + 1) / 2
      invariant next == Paired(hash, level)[..|next|]
    {
      var right := if i + 1 < |level| then level[i + 1] else level[i];
      next := next + [hash(level[i], right)];
      i := i + 2;
    }
  }

  lemma RootOfOne<H>(hash: PairHash<H>, zero: H, level: seq<H>)
    requires |level| == 1
    ensures Root(hash, zero, level) == level[0]
  {}

  // ---- What the root binds ----

  /** Two nodes are hashed together on the way to the root. */
  ghost predicate Hashed<H>(hash: PairHash<H>, leaves: seq<H>, x: H, y: H)
    decreases |leaves|
  {
    |leaves| > 1 && (HashedHere(leaves, x, y) || Hashed(hash, Paired(hash, leaves), x, y))
  }

  ghost predicate HashedHere<H>(level: seq<H>, x: H, y: H) {
    exists i: nat :: 2 * i < |level| && x == level[2 * i] && y == (if 2 * i + 1 < |level| then level[2 * i + 1] else level[2 * i])
  }

  /** No two different pairs hashed on the way to the two roots collide. */
  ghost predicate NoCollision<H(!new)>(hash: PairHash<H>, a: seq<H>, b: seq<H>) {
    forall x: H, y: H, u: H, v: H ::
      Hashed(hash, a, x, y) && Hashed(hash, b, u, v) && hash(x, y) == hash(u, v) ==> x == u && y == v
  }

  lemma PairedInjective<H(!new)>(hash: PairHash<H>, a: seq<H>, b: seq<H>)
    requires |a| == |b| > 1 && NoCollision(hash, a, b) && Paired(hash, a) == Paired(hash, b)
    ensures a == b
  {
    forall k | 0 <= k < |a|
      ensures a[k] == b[k]
    {
      var i := k / 2;
      var x, u := a[2 * i], b[2 * i];
      var y, w := if 2 * i + 1 < |a| then a[2 * i + 1] else x, if 2 * i + 1 < |b| then b[2 * i + 1] else u;
      assert HashedHere(a, x, y) && HashedHere(b, u, w);
      assert Paired(hash, a)[i] == Paired(hash, b)[i];
    }
  }

  /** Lists of one length with the same root are the same. */
  lemma {:induction false} RootBinds<H(!new)>(hash: PairHash<H>, zero: H, a: seq<H>, b: seq<H>)
    requires |a| == |b| && NoCollision(hash, a, b) && Root(hash, zero, a) == Root(hash, zero, b)
    ensures a == b
    decreases |a|
  {
    if |a| > 1 {
      RootOfPaired(hash, zero, a);
      RootOfPaired(hash, zero, b);
      RootBinds(hash, zero, Paired(hash, a), Paired(hash, b));
      PairedInjective(hash, a, b);
    } else if |a| == 1 {
      RootOfOne(hash, zero, a);
      RootOfOne(hash, zero, b);
    }
  }

  /** Lists of different lengths can share a root: repeating the last of an odd number of leaves
      changes nothing. */
  lemma RepeatedLastLeaf<H>(hash: PairHash<H>, zero: H, a: seq<H>)
    requires |a| > 1 && |a| % 2 == 1
    ensures Root(hash, zero, a + [a[|a| - 1]]) == Root(hash, zero, a)
  {
    var b := a + [a[|a| - 1]];
    assert Paired(hash, a) == Paired(hash, b);
    RootOfPaired(hash, zero, a);
    RootOfPaired(hash, zero, b);
  }

  // ---- Which lengths a root tells apart ----

  /** x hashed with itself, k times over. */
  function Doubled<H>(hash: PairHash<H>, x: H, k: nat): H {
    if k == 0 then x else var y := Doubled(hash, x, k - 1); hash(y, y)
  }

  lemma {:induction false} DoubledTwice<H>(hash: PairHash<H>, x: H, i: nat, j: nat)
    ensures Doubled(hash, Doubled(hash, x, i), j) == Doubled(hash, x, i + j)
  {
    if j > 0 {
      DoubledTwice(hash, x, i, j - 1);
      assert i + j - 1 == i + (j - 1);
    }
  }

  function Copies<H>(n: nat, x: H): (s: seq<H>)
    ensures |s| == n
  {
    seq(n, _ => x)
  }

  lemma PairedCopies<H>(hash: PairHash<H>, n: nat, x: H)
    ensures Paired(hash, Copies(n, x)) == Copies((n + 1) / 2, hash(x, x))
  {}

  /** However many copies of x: their root depends on the height of the tree alone. */
  lemma {:induction false} RootOfCopies<H>(hash: PairHash<H>, zero: H, n: nat, x: H)
    requires n > 0
    ensures Root(hash, zero, Copies(n, x)) == Doubled(hash, x, Height(n))
    decreases n
  {
    if n == 1 {
      RootOfOne(hash, zero, Copies(n, x));
    } else {
      var k := Height((n + 1) / 2);
      RootOfPaired(hash, zero, Copies(n, x));
      PairedCopies(hash, n, x);
      HeightStep(n);
      RootOfCopies(hash, zero, (n + 1) / 2, hash(x, x));
      DoubledOnce(hash, x);
      DoubledTwice(hash, x, 1, k);
    }
  }

  lemma DoubledOnce<H>(hash: PairHash<H>, x: H)
    ensures Doubled(hash, x, 1) == hash(x, x)
  {
    assert Doubled(hash, x, 0) == x;
  }

  /** For any hash and any two lengths there are lists of those lengths with one root. */
  lemma SharedRoot<H>(hash: PairHash<H>, zero: H, m: nat, n: nat, x: H)
    requires 0 < m && 0 < n && Height(m) <= Height(n)
    ensures Root(hash, zero, Copies(m, Doubled(hash, x, Height(n) - Height(m)))) == Root(hash, zero, Copies(n, x))
  {
    var d := Height(n) - Height(m);
    SharedRootOf(hash, zero, Copies(m, Doubled(hash, x, d)), Copies(n, x), x, Doubled(hash, x, d), d);
  }

  lemma SharedRootOf<H>(hash: PairHash<H>, zero: H, a: seq<H>, b: seq<H>, x: H, y: H, d: nat)
    requires a != [] && b != [] && a == Copies(|a|, y) && b == Copies(|b|, x)
    requires y == Doubled(hash, x, d) && d + Height(|a|) == Height(|b|)
    ensures Root(hash, zero, a) == Root(hash, zero, b)
  {
    RootOfCopies(hash, zero, |a|, y);
    RootOfCopies(hash, zero, |b|, x);
    DoubledTwice(hash, x, d, Height(|a|));
  }

  /** A root of m leaves and a root of n leaves are equal only for equal lists, unless pairs collide. */
  ghost predicate RootsBind<H(!new)>(hash: PairHash<H>, zero: H, m: nat, n: nat) {
    forall a: seq<H>, b: seq<H> ::
      |a| == m && |b| == n && NoCollision(hash, a, b) && Root(hash, zero, a) == Root(hash, zero, b) ==> a == b
  }

  /** The doubles of x below height k do not collide. */
  ghost predicate DoublesApart<H>(hash: PairHash<H>, x: H, k: nat) {
    forall i: nat, j: nat :: i < k && j < k && SelfHash(hash, Doubled(hash, x, i)) == SelfHash(hash, Doubled(hash, x, j))
      ==> Doubled(hash, x, i) == Doubled(hash, x, j)
  }

  function SelfHash<H>(hash: PairHash<H>, x: H): H {
    hash(x, x)
  }

  lemma HashedHereCopies<H>(n: nat, x: H, u: H, v: H)
    requires HashedHere(Copies(n, x), u, v)
    ensures u == v == x
  {}

  /** What is hashed above copies of x is a double of x with itself. */
  lemma {:induction false} HashedAboveCopies<H>(hash: PairHash<H>, leaves: seq<H>, x: H, u: H, v: H) returns (i: nat)
    requires leaves != [] && leaves == Copies(|leaves|, x) && Hashed(hash, leaves, u, v)
    ensures i < Height(|leaves|) && u == v == Doubled(hash, x, i)
    decreases |leaves|
  {
    var n, next := |leaves|, Paired(hash, leaves);
    HeightStep(n);
    if HashedHere(leaves, u, v) {
      HashedHereCopies(n, x, u, v);
      i := 0;
    } else {
      PairedCopies(hash, n, x);
      var j := HashedAboveCopies(hash, next, hash(x, x), u, v);
      i := OneDoubleMore(hash, x, j);
    }
  }

  lemma OneDoubleMore<H>(hash: PairHash<H>, x: H, j: nat) returns (i: nat)
    ensures i == j + 1 && Doubled(hash, x, i) == Doubled(hash, hash(x, x), j)
  {
    i := j + 1;
    DoubledOnce(hash, x);
    DoubledTwice(hash, x, 1, j);
  }

  /** Copies of x, and copies of its double of degree d, under roots of one height. */
  lemma CopiesDoNotCollide<H(!new)>(hash: PairHash<H>, a: seq<H>, b: seq<H>, x: H, y: H, d: nat)
    requires a != [] && b != [] && a == Copies(|a|, y) && b == Copies(|b|, x) && y == Doubled(hash, x, d)
    requires d + Height(|a|) == Height(|b|) && DoublesApart(hash, x, Height(|b|))
    ensures NoCollision(hash, a, b) && NoCollision(hash, b, a)
  {
    forall x1: H, y1: H, u: H, v: H | Hashed(hash, a, x1, y1) && Hashed(hash, b, u, v) && hash(x1, y1) == hash(u, v)
      ensures x1 == u && y1 == v
    {
      PairsAgree(hash, a, b, x, y, d, x1, y1, u, v);
    }
    NoCollisionSymmetric(hash, a, b);
  }

  lemma PairsAgree<H>(hash: PairHash<H>, a: seq<H>, b: seq<H>, x: H, y: H, d: nat, x1: H, y1: H, u: H, v: H)
    requires a != [] && b != [] && a == Copies(|a|, y) && b == Copies(|b|, x) && y == Doubled(hash, x, d)
    requires d + Height(|a|) == Height(|b|) && DoublesApart(hash, x, Height(|b|))
    requires Hashed(hash, a, x1, y1) && Hashed(hash, b, u, v) && hash(x1, y1) == hash(u, v)
    ensures x1 == u && y1 == v
  {
    var i := HashedAboveCopies(hash, a, y, x1, y1);
    var j := HashedAboveCopies(hash, b, x, u, v);
    DoubledTwice(hash, x, d, i);
    SameDoubles(hash, x, Height(|b|), d + i, j, x1, u);
  }

  lemma NoCollisionSymmetric<H(!new)>(hash: PairHash<H>, a: seq<H>, b: seq<H>)
    requires NoCollision(hash, a, b)
    ensures NoCollision(hash, b, a)
  {}

  lemma SameDoubles<H>(hash: PairHash<H>, x: H, k: nat, i: nat, j: nat, u: H, v: H)
    requires DoublesApart(hash, x, k) && i < k && j < k && u == Doubled(hash, x, i) && v == Doubled(hash, x, j)
    requires hash(u, u) == hash(v, v)
    ensures u == v
  {
    assert SelfHash(hash, u) == SelfHash(hash, v);
  }

  lemma EqualLengths<H(!new)>(hash: PairHash<H>, zero: H, n: nat)
    ensures RootsBind(hash, zero, n, n)
  {
    forall a: seq<H>, b: seq<H> | |a| == n && |b| == n && NoCollision(hash, a, b) && Root(hash, zero, a) == Root(hash, zero, b)
      ensures a == b
    {
      RootBinds(hash, zero, a, b);
    }
  }

  lemma UnequalLengths<H(!new)>(hash: PairHash<H>, zero: H, m: nat, n: nat, x: H)
    requires 0 < m && 0 < n && m != n && Height(m) <= Height(n) && DoublesApart(hash, x, Height(n))
    ensures !RootsBind(hash, zero, m, n) && !RootsBind(hash, zero, n, m)
  {
    var d := Height(n) - Height(m);
    var y := Doubled(hash, x, d);
    var a, b := Copies(m, y), Copies(n, x);
    SharedRootOf(hash, zero, a, b, x, y, d);
    CopiesDoNotCollide(hash, a, b, x, y, d);
    NotBound(hash, zero, a, b, m, n);
    NotBound(hash, zero, b, a, n, m);
  }

  lemma NotBound<H(!new)>(hash: PairHash<H>, zero: H, a: seq<H>, b: seq<H>, m: nat, n: nat)
    requires |a| == m && |b| == n && m != n && NoCollision(hash, a, b) && Root(hash, zero, a) == Root(hash, zero, b)
    ensures !RootsBind(hash, zero, m, n)
  {}

  /** So a root binds lists of lengths m and n exactly when m and n are the same. */
  lemma RootsBindEqualLengths<H(!new)>(hash: PairHash<H>, zero: H, m: nat, n: nat, x: H)
    requires 0 < m && 0 < n && DoublesApart(hash, x, Height(m)) && DoublesApart(hash, x, Height(n))
    ensures RootsBind(hash, zero, m, n) <==> m == n
  {
    if m == n {
      EqualLengths(hash, zero, m);
    } else if Height(m) <= Height(n) {
      UnequalLengths(hash, zero, m, n, x);
    } else {
      UnequalLengths(hash, zero, n, m, x);
    }
  }
}
