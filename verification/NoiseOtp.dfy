/** Single-use leaves and their authentication paths: a proof is accepted exactly when it is the proof
    made for that leaf and that transaction. */
module NoiseProofs {
  import opened Bytes
  import opened Merkle
  import opened Wrappers

  /** The hash of a leaf, of two nodes, and of a leaf with the transaction it authorises. */
  datatype Scheme<!H, !T> = Scheme(commit: H -> H, pair: (H, H) -> H, bind: (H, T) -> H)

  datatype NoiseProof<H> = NoiseProof(leafIndex: nat, leaf: H, boundProof: H, merklePath: seq<H>, pathDirs: seq<Byte>)

  // ---- Paths ----

  /** The number of levels above n nodes. */
  function Depth(n: nat): nat {
    if n <= 1 then 0 else 1 + Depth((n + 1) / 2)
  }

  function Sibling<H>(level: seq<H>, idx: nat): H
    requires idx < |level|
  {
    if idx % 2 == 1 then level[idx - 1] else if idx + 1 < |level| then level[idx + 1] else level[idx]
  }

  /** The siblings met on the way up. */
  function Path<H>(pair: PairHash<H>, level: seq<H>, idx: nat): (p: seq<H>)
    requires idx < |level|
    ensures |p| == Depth(|level|)
    decreases |level|
  {
    if |level| == 1 then [] else [Sibling(level, idx)] + Path(pair, Paired(pair, level), idx / 2)
  }

  /** On which side they stand: 0 when the node itself is on the left. */
  function Dirs(n: nat, idx: nat): (d: seq<Byte>)
    ensures |d| == Depth(n)
  {
    if n <= 1 then [] else [idx % 2] + Dirs((n + 1) / 2, idx / 2)
  }

  function Joined<H>(pair: PairHash<H>, acc: H, other: H, dir: Byte): H {
    if dir == 0 then pair(acc, other) else pair(other, acc)
  }

  function Up<H>(pair: PairHash<H>, acc: H, path: seq<H>, dirs: seq<Byte>): H
    requires |path| == |dirs|
  {
    if path == [] then acc else Up(pair, Joined(pair, acc, path[0], dirs[0]), path[1..], dirs[1..])
  }

  lemma OneUp<H>(pair: PairHash<H>, level: seq<H>, idx: nat)
    requires idx < |level|
    ensures idx / 2 < |Paired(pair, level)|
    ensures Joined(pair, level[idx], Sibling(level, idx), idx % 2) == Paired(pair, level)[idx / 2]
  {
    assert idx == 2 * (idx / 2) + idx % 2;
  }

  /** The path of a node leads to the root. */
  lemma {:induction false} PathReaches<H>(pair: PairHash<H>, zero: H, level: seq<H>, idx: nat)
    requires idx < |level|
    ensures Up(pair, level[idx], Path(pair, level, idx), Dirs(|level|, idx)) == Root(pair, zero, level)
    decreases |level|
  {
    if |level| == 1 {
      RootOfOne(pair, zero, level);
    } else {
      var next := Paired(pair, level);
      OneUp(pair, level, idx);
      PathReaches(pair, zero, next, idx / 2);
      RootOfPaired(pair, zero, level);
      var path, dirs := Path(pair, level, idx), Dirs(|level|, idx);
      assert path[1..] == Path(pair, next, idx / 2) && dirs[1..] == Dirs(|next|, idx / 2);
    }
  }

  /** Two nodes are hashed together on the way up from a node along a path. */
  ghost predicate HashedUp<H>(pair: PairHash<H>, acc: H, path: seq<H>, dirs: seq<Byte>, x: H, y: H)
    requires |path| == |dirs|
    decreases |path|
  {
    path != []
    && ((if dirs[0] == 0 then x == acc && y == path[0] else x == path[0] && y == acc)
        || HashedUp(pair, Joined(pair, acc, path[0], dirs[0]), path[1..], dirs[1..], x, y))
  }

  /** No pair hashed on the way up from a node collides with a different pair hashed above the level. */
  ghost predicate PathApart<H(!new)>(pair: PairHash<H>, level: seq<H>, acc: H, path: seq<H>, dirs: seq<Byte>)
    requires |path| == |dirs|
  {
    forall x: H, y: H, u: H, v: H ::
      HashedUp(pair, acc, path, dirs, x, y) && Hashed(pair, level, u, v) && pair(x, y) == pair(u, v) ==> x == u && y == v
  }

  /** Nothing else at that position leads there. */
  lemma {:induction false} PathForced<H(!new)>(pair: PairHash<H>, zero: H, level: seq<H>, idx: nat, acc: H, path: seq<H>)
    requires idx < |level| && |path| == Depth(|level|) && PathApart(pair, level, acc, path, Dirs(|level|, idx))
    requires Up(pair, acc, path, Dirs(|level|, idx)) == Root(pair, zero, level)
    ensures acc == level[idx] && path == Path(pair, level, idx)
    decreases |level|
  {
    if |level| == 1 {
      RootOfOne(pair, zero, level);
    } else {
      var next, dirs, up := Paired(pair, level), Dirs(|level|, idx), Joined(pair, acc, path[0], idx % 2);
      OneUp(pair, level, idx);
      RootOfPaired(pair, zero, level);
      assert dirs[0] == idx % 2 && dirs[1..] == Dirs(|next|, idx / 2);
      ApartFurtherUp(pair, level, acc, path, dirs);
      PathForced(pair, zero, next, idx / 2, up, path[1..]);
      FirstStepForced(pair, level, idx, acc, path, dirs);
      assert path == [path[0]] + path[1..];
    }
  }

  lemma ApartFurtherUp<H(!new)>(pair: PairHash<H>, level: seq<H>, acc: H, path: seq<H>, dirs: seq<Byte>)
    requires |level| > 1 && |path| == |dirs| > 0 && PathApart(pair, level, acc, path, dirs)
    ensures PathApart(pair, Paired(pair, level), Joined(pair, acc, path[0], dirs[0]), path[1..], dirs[1..])
  {}

  lemma FirstStepForced<H(!new)>(pair: PairHash<H>, level: seq<H>, idx: nat, acc: H, path: seq<H>, dirs: seq<Byte>)
    requires |level| > 1 && idx < |level| && |path| == |dirs| > 0 && dirs[0] == idx % 2
    requires PathApart(pair, level, acc, path, dirs)
    requires Joined(pair, acc, path[0], idx % 2) == Joined(pair, level[idx], Sibling(level, idx), idx % 2)
    ensures acc == level[idx] && path[0] == Sibling(level, idx)
  {
    var i := idx / 2;
    var u, v := level[2 * i], if 2 * i + 1 < |level| then level[2 * i + 1] else level[2 * i];
    assert HashedHere(level, u, v);
    assert Hashed(pair, level, u, v);
    if idx % 2 == 0 {
      assert HashedUp(pair, acc, path, dirs, acc, path[0]);
    } else {
      assert HashedUp(pair, acc, path, dirs, path[0], acc);
    }
  }

  // ---- Proofs ----

  function Commitments<H, T>(s: Scheme<H, T>, leaves: seq<H>): (level: seq<H>)
    ensures |level| == |leaves|
  {
    seq(|leaves|, i requires 0 <= i < |leaves| => s.commit(leaves[i]))
  }

  function ProofFor<H, T>(s: Scheme<H, T>, leaves: seq<H>, index: nat, tx: T): NoiseProof<H>
    requires index < |leaves|
  {
    NoiseProof(index, leaves[index], s.bind(leaves[index], tx), Path(s.pair, Commitments(s, leaves), index),
               Dirs(|leaves|, index))
  }

  predicate Accepts<H(==), T>(s: Scheme<H, T>, root: H, tx: T, proof: NoiseProof<H>, leafCount: nat) {
    && proof.leafIndex < leafCount
    && |proof.merklePath| == |proof.pathDirs| == Depth(leafCount)
    && proof.pathDirs == Dirs(leafCount, proof.leafIndex)
    && proof.boundProof == s.bind(proof.leaf, tx)
    && Up(s.pair, s.commit(proof.leaf), proof.merklePath, proof.pathDirs) == root
  }

  /** The leaf of a proof does not collide with a different leaf of the pool, nor a pair hashed in
      checking the proof with a different pair hashed in building the tree. */
  ghost predicate ProofApart<H(!new), T>(s: Scheme<H, T>, leaves: seq<H>, proof: NoiseProof<H>) {
    && (forall l :: l in leaves && s.commit(l) == s.commit(proof.leaf) ==> l == proof.leaf)
    && (|proof.merklePath| == |proof.pathDirs| ==>
        PathApart(s.pair, Commitments(s, leaves), s.commit(proof.leaf), proof.merklePath, proof.pathDirs))
  }

  /** When hashes do not collide, a pool accepts for a transaction exactly the proofs it makes for it. */
  lemma AcceptedExactly<H(!new), T>(s: Scheme<H, T>, zero: H, leaves: seq<H>, tx: T, proof: NoiseProof<H>)
    requires ProofApart(s, leaves, proof)
    ensures Accepts(s, Root(s.pair, zero, Commitments(s, leaves)), tx, proof, |leaves|)
      <==> proof.leafIndex < |leaves| && proof == ProofFor(s, leaves, proof.leafIndex, tx)
  {
    var level := Commitments(s, leaves);
    if proof.leafIndex < |leaves| {
      PathReaches(s.pair, zero, level, proof.leafIndex);
      if Accepts(s, Root(s.pair, zero, level), tx, proof, |leaves|) {
        PathForced(s.pair, zero, level, proof.leafIndex, s.commit(proof.leaf), proof.merklePath);
      }
    }
  }

  // ---- The file ----

  class NoiseFile<H(==), T> {
    const s: Scheme<H, T>
    const zero: H
    var leaves: seq<H>
    var levels: seq<seq<H>>
    var root: H

    ghost predicate Valid()
      reads this
    {
      && root == Root(s.pair, zero, Commitments(s, leaves))
      && (leaves != [] ==> Levels(s.pair, levels) && levels[0] == Commitments(s, leaves))
    }

    constructor (s: Scheme<H, T>, zero: H, leaves: seq<H>)
      ensures Valid() && this.s == s && this.leaves == leaves
    {
      this.s, this.zero, this.leaves, this.levels, this.root := s, zero, leaves, [], zero;
      new;
      BuildTree();
    }

    method BuildTree()
      modifies this`levels, this`root
      ensures Valid()
    {
      levels := [];
      if leaves == [] {
        root := zero;
        return;
      }
      ghost var bottom := Commitments(s, leaves);
      var cur: seq<H> := [];
      for i := 0 to |leaves|
        invariant cur == bottom[..i] && levels == []
      {
        cur := cur + [s.commit(leaves[i])];
      }
      levels := [cur];
      while |cur| > 1
        invariant levels != [] && levels[0] == bottom && levels[|levels| - 1] == cur && |cur| > 0
        invariant forall k :: 0 <= k < |levels| - 1 ==> GoesUp(s.pair, levels, k)
        invariant Root(s.pair, zero, cur) == Root(s.pair, zero, bottom)
        decreases |cur|
      {
        RootOfPaired(s.pair, zero, cur);
        cur := NextLevel(s.pair, cur);
        OneLevelMore(s.pair, levels, cur);
        levels := levels + [cur];
      }
      RootOfOne(s.pair, zero, cur);
      root := cur[0];
    }

    /** The proof that a leaf belongs to this pool, bound to a transaction. */
    method CreateProofAt(index: nat, tx: T) returns (r: Result<NoiseProof<H>>)
      requires Valid()
      ensures r.Ok? <==> index < |leaves|
      ensures r.Ok? ==> r.value == ProofFor(s, leaves, index, tx)
    {
      if index >= |leaves| {
        return Err("NoiseFile: leaf index out of range");
      }
      var path, dirs := Climb(index);
      r := Ok(NoiseProof(index, leaves[index], s.bind(leaves[index], tx), path, dirs));
    }

    /** Collect the siblings level by level. */
    method Climb(index: nat) returns (path: seq<H>, dirs: seq<Byte>)
      requires Valid() && index < |leaves|
      ensures path == Path(s.pair, Commitments(s, leaves), index) && dirs == Dirs(|leaves|, index)
    {
      path, dirs := [], [];
      var idx: nat := index;
      ghost var bottom := levels[0];
      for lvl := 0 to |levels| - 1
        invariant idx < |levels[lvl]|
        invariant path + Path(s.pair, levels[lvl], idx) == Path(s.pair, bottom, index)
        invariant dirs + Dirs(|levels[lvl]|, idx) == Dirs(|bottom|, index)
      {
        var cur := levels[lvl];
        assert GoesUp(s.pair, levels, lvl);
        OneStep(s.pair, cur, idx, path, dirs);
        var sibling := FindSibling(cur, idx);
        path := path + [sibling];
        dirs := dirs + [idx % 2];
        idx := idx / 2;
      }
      assert path + [] == path && dirs + [] == dirs;
    }
  }

  method FindSibling<H>(cur: seq<H>, idx: nat) returns (h: H)
    requires idx < |cur|
    ensures h == Sibling(cur, idx)
  {
    var sibling := if idx % 2 == 0 then idx + 1 else idx - 1;
    if sibling >= |cur| { sibling := idx; }
    h := cur[sibling];
  }

  /** One sibling and one side more. */
  lemma OneStep<H>(pair: PairHash<H>, cur: seq<H>, idx: nat, path: seq<H>, dirs: seq<Byte>)
    requires idx < |cur| && |cur| > 1
    ensures idx / 2 < |Paired(pair, cur)|
    ensures path + Path(pair, cur, idx) == (path + [Sibling(cur, idx)]) + Path(pair, Paired(pair, cur), idx / 2)
    ensures dirs + Dirs(|cur|, idx) == (dirs + [idx % 2]) + Dirs(|Paired(pair, cur)|, idx / 2)
  {}

  lemma OneLevelMore<H>(pair: PairHash<H>, levels: seq<seq<H>>, cur: seq<H>)
    requires levels != [] && |levels[|levels| - 1]| > 1 && cur == Paired(pair, levels[|levels| - 1])
    requires forall k :: 0 <= k < |levels| - 1 ==> GoesUp(pair, levels, k)
    ensures forall k :: 0 <= k < |levels| ==> GoesUp(pair, levels + [cur], k)
  {
    forall k | 0 <= k < |levels|
      ensures GoesUp(pair, levels + [cur], k)
    {
      if k < |levels| - 1 { assert GoesUp(pair, levels, k); }
    }
  }

  /** Levels up to a single node, each made of the one below. */
  predicate Levels<H(==)>(pair: PairHash<H>, levels: seq<seq<H>>) {
    && levels != [] && |levels[|levels| - 1]| == 1
    && forall k :: 0 <= k < |levels| - 1 ==> GoesUp(pair, levels, k)
  }

  predicate GoesUp<H(==)>(pair: PairHash<H>, levels: seq<seq<H>>, k: nat)
    requires k + 1 < |levels|
  {
    |levels[k]| > 1 && levels[k + 1] == Paired(pair, levels[k])
  }

  method RootFromPath<H>(pair: PairHash<H>, commitment: H, path: seq<H>, dirs: seq<Byte>) returns (acc: H)
    requires |path| == |dirs|
    ensures acc == Up(pair, commitment, path, dirs)
  {
    acc := commitment;
    for i := 0 to |path|
      invariant Up(pair, acc, path[i..], dirs[i..]) == Up(pair, commitment, path, dirs)
    {
      assert path[i..][1..] == path[i + 1..] && dirs[i..][1..] == dirs[i + 1..];
      acc := if dirs[i] == 0 then pair(acc, path[i]) else pair(path[i], acc);
    }
  }

  /** Shape, sides, binding and root, in that order. */
  method VerifyProof<H(==), T>(s: Scheme<H, T>, root: H, tx: T, proof: NoiseProof<H>, leafCount: nat) returns (ok: bool)
    ensures ok <==> Accepts(s, root, tx, proof, leafCount)
  {
    if leafCount == 0 { return false; }
    if proof.leafIndex >= leafCount { return false; }
    if |proof.merklePath| != |proof.pathDirs| { return false; }
    var expectedDepth, width := 0, leafCount;
    while width > 1
      invariant expectedDepth + Depth(width) == Depth(leafCount)
    {
      width := (width + 1) / 2;
      expectedDepth := expectedDepth + 1;
    }
    if |proof.merklePath| != expectedDepth { return false; }
    for i := 0 to |proof.pathDirs|
      invariant forall k :: 0 <= k < i ==> proof.pathDirs[k] <= 1
    {
      if proof.pathDirs[i] > 1 {
        DirsAreBits(leafCount, proof.leafIndex);
        return false;
      }
    }
    ok := RightSides(leafCount, proof.leafIndex, proof.pathDirs);
    if !ok { return; }
    if s.bind(proof.leaf, tx) != proof.boundProof { return false; }
    var computed := RootFromPath(s.pair, s.commit(proof.leaf), proof.merklePath, proof.pathDirs);
    ok := computed == root;
  }

  method RightSides(n: nat, index: nat, dirs: seq<Byte>) returns (ok: bool)
    requires |dirs| == Depth(n)
    ensures ok <==> dirs == Dirs(n, index)
  {
    var walk := index;
    ghost var width := n;
    for i := 0 to |dirs|
      invariant |dirs| - i == Depth(width)
      invariant dirs == Dirs(n, index) <==> dirs[i..] == Dirs(width, walk)
    {
      var expected := if walk % 2 == 0 then 0 else 1;
      if dirs[i] != expected {
        assert dirs[i..][0] != Dirs(width, walk)[0];
        return false;
      }
      SidesStep(dirs[i..], width, walk);
      assert dirs[i..][1..] == dirs[i + 1..];
      walk, width := walk / 2, (width + 1) / 2;
    }
    ok := true;
  }

  lemma SidesStep(dirs: seq<Byte>, n: nat, idx: nat)
    requires dirs != [] && |dirs| == Depth(n) && dirs[0] == idx % 2
    ensures dirs == Dirs(n, idx) <==> dirs[1..] == Dirs((n + 1) / 2, idx / 2)
  {
    assert dirs == [dirs[0]] + dirs[1..];
    assert Dirs(n, idx)[1..] == Dirs((n + 1) / 2, idx / 2);
  }

  lemma {:induction false} DirsAreBits(n: nat, idx: nat)
    ensures forall k :: 0 <= k < |Dirs(n, idx)| ==> Dirs(n, idx)[k] <= 1
  {
    if n > 1 { DirsAreBits((n + 1) / 2, idx / 2); }
  }
}
