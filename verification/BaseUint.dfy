/** Unsigned arithmetic on a fixed number of 32-bit limbs, updated in place. The width is that of
    the array, as the source's template leaves it open. Every operation may be given the same
    array twice. */
module BaseUint {
  import opened Bytes
  import opened Limbs

  /** v modulo what `width` limbs can hold: wrap around until it fits. */
  function Wrap(v: int, width: nat): (r: nat)
    ensures r < P(width)
    decreases if v < 0 then 1 else 0, if v < 0 then -v else v
  {
    if v < 0 then Wrap(v + P(width), width)
    else if v < P(width) then v
    else Wrap(v - P(width), width)
  }

  lemma {:induction false} WrapIsMod(v: int, width: nat)
    ensures Wrap(v, width) == v % P(width)
    decreases if v < 0 then 1 else 0, if v < 0 then -v else v
  {
    var p := P(width);
    if v < 0 {
      WrapIsMod(v + p, width);
      ModShift(v, p);
    } else if v < p {
      DivModUnique(v, p, 0, v);
    } else {
      WrapIsMod(v - p, width);
      ModShift(v - p, p);
    }
  }

  lemma ModShift(v: int, p: nat)
    requires p > 0
    ensures (v + p) % p == v % p
  {
    var q, r := v / p, v % p;
    var q', r' := (v + p) / p, (v + p) % p;
    assert v == p * q + r && v + p == p * q' + r';
    assert p * (q' - q - 1) == p * q' - p * q - p;
    SmallMultipleIsZero(q' - q - 1, p, r - r');
  }

  /** The remainder is determined by its defining equation. */
  lemma WrapUnique(v: int, width: nat, q: int, r: nat)
    requires v == P(width) * q + r && r < P(width)
    ensures Wrap(v, width) == r
  {
    WrapIsMod(v, width);
    var p := P(width);
    assert v == p * (v / p) + v % p;
    assert p * (v / p - q) == p * (v / p) - p * q;
    SmallMultipleIsZero(v / p - q, p, r - v % p);
  }

  // ---- Limbs finished so far, and the carry out of them ----

  /** The finished limbs have replaced the first ones; the others are as they were. */
  ghost predicate Progress(was: seq<U32>, now: seq<U32>, done: seq<U32>) {
    && |done| <= |now| == |was|
    && (forall k :: 0 <= k < |done| ==> now[k] == done[k])
    && (forall k :: |done| <= k < |now| ==> now[k] == was[k])
  }

  /** The place value of the limb after `w` limbs. */
  function Weight(w: nat): nat { P(w) }

  /** The finished limbs and the carry out of them hold v. (Stated for every w equal to the
      length, so that the product stays out of proofs that do not ask for the weight.) */
  ghost predicate Holds(done: seq<U32>, carry: nat, v: int) {
    forall w :: w == |done| ==> LVal(done) + Weight(w) * carry == v
  }

  lemma HoldsOpen(done: seq<U32>, carry: nat, v: int)
    ensures Holds(done, carry, v) <==> LVal(done) + P(|done|) * carry == v
  {
    var w := Weight(|done|);
  }

  lemma HoldsNothing(v: nat)
    ensures Holds([], v, v)
  {}

  /** Finish one more limb: its part of the carry-in total stays, the rest is carried on. */
  lemma HoldsStep(done: seq<U32>, carry: nat, v: int, add: int, d: U32, carry': nat, v': int)
    requires Holds(done, carry, v) && carry + add == d + WORD * carry'
    requires v' == v + P(|done|) * add
    ensures Holds(done + [d], carry', v')
  {
    HoldsOpen(done, carry, v);
    HoldsOpen(done + [d], carry', v');
    LValAppend(done, d);
    StepArithmetic(LVal(done), P(|done|), carry, v, add, d, carry');
  }

  lemma StepArithmetic(dv: nat, p: nat, carry: nat, v: int, add: int, d: nat, carry': nat)
    requires dv + p * carry == v && carry + add == d + WORD * carry'
    ensures dv + p * d + (WORD * p) * carry' == v + p * add
  {
    assert p * (carry + add) == p * carry + p * add;
    assert p * (d + WORD * carry') == p * d + p * (WORD * carry');
    assert p * (WORD * carry') == (WORD * p) * carry';
  }

  /** With every limb finished, what is held is the total modulo what the limbs can hold. */
  lemma HoldsAll(done: seq<U32>, carry: nat, v: int)
    requires Holds(done, carry, v)
    ensures LVal(done) == Wrap(v, |done|)
  {
    HoldsOpen(done, carry, v);
    LValBound(done);
    WrapUnique(v, |done|, carry, LVal(done));
  }

  lemma HoldsMore(s: seq<U32>, i: nat)
    requires i < |s|
    ensures LVal(s[..i + 1]) == LVal(s[..i]) + P(i) * s[i]
  {
    assert s[..i + 1] == s[..i] + [s[i]];
    LValAppend(s[..i], s[i]);
  }

  // ---- Addition, negation, subtraction ----

  /** `++x`: add one, wrapping around. */
  method Increment(pn: array<U32>)
    modifies pn
    ensures LVal(pn[..]) == Wrap(LVal(old(pn[..])) + 1, pn.Length)
  {
    ghost var was, done: seq<U32> := pn[..], [];
    HoldsNothing(1);
    var i := 0;
    while i < pn.Length
      invariant i <= pn.Length && |done| == i && Progress(was, pn[..], done)
      invariant Holds(done, 1, LVal(was[..i]) + 1)
    {
      assert pn[i] == was[i];
      pn[i] := (pn[i] + 1) % WORD;
      IncrementStep(was, done, i, pn[i]);
      done := done + [pn[i]];
      if pn[i] != 0 {
        CarryAbsorbed(was, done);
        assert pn[..] == done + was[|done|..];
        return;
      }
      i := i + 1;
    }
    assert pn[..] == done && was[..pn.Length] == was;
    HoldsAll(done, 1, LVal(was) + 1);
  }

  lemma IncrementStep(was: seq<U32>, done: seq<U32>, i: nat, d: U32)
    requires i < |was| && |done| == i && Holds(done, 1, LVal(was[..i]) + 1)
    requires d == (was[i] + 1) % WORD
    ensures Holds(done + [d], if d == 0 then 1 else 0, LVal(was[..i + 1]) + 1)
  {
    HoldsMore(was, i);
    HoldsStep(done, 1, LVal(was[..i]) + 1, was[i], d, if d == 0 then 1 else 0, LVal(was[..i + 1]) + 1);
  }

  lemma RestCompletes(was: seq<U32>, done: seq<U32>)
    requires |done| <= |was| && LVal(done) == LVal(was[..|done|]) + 1
    ensures LVal(done + was[|done|..]) == LVal(was) + 1
  {
    LValConcat(done, was[|done|..]);
    LValSplit(was, |done|);
  }

  lemma WrapFits(s: seq<U32>, v: nat)
    requires LVal(s) == v
    ensures LVal(s) == Wrap(v, |s|)
  {
    LValBound(s);
  }

  lemma NothingCarried(done: seq<U32>, v: nat)
    requires Holds(done, 0, v)
    ensures LVal(done) == v
  {
    HoldsOpen(done, 0, v);
  }

  /** Once nothing is carried, the untouched limbs complete the sum. */
  lemma CarryAbsorbed(was: seq<U32>, done: seq<U32>)
    requires |done| <= |was| && Holds(done, 0, LVal(was[..|done|]) + 1)
    ensures LVal(done + was[|done|..]) == Wrap(LVal(was) + 1, |was|)
  {
    var all := done + was[|done|..];
    assert |all| == |was|;
    NothingCarried(done, LVal(was[..|done|]) + 1);
    RestCompletes(was, done);
    WrapFits(all, LVal(was) + 1);
  }

  /** `+=`. */
  method AddAssign(pn: array<U32>, b: array<U32>)
    requires pn.Length == b.Length
    modifies pn
    ensures LVal(pn[..]) == Wrap(LVal(old(pn[..])) + LVal(old(b[..])), pn.Length)
  {
    ghost var was, add, done: seq<U32> := pn[..], b[..], [];
    var carry: nat := 0;
    HoldsNothing(0);
    for i := 0 to pn.Length
      invariant |done| == i && Progress(was, pn[..], done)
      invariant forall k :: i <= k < b.Length ==> b[k] == add[k]
      invariant Holds(done, carry, LVal(was[..i]) + LVal(add[..i]))
    {
      assert pn[i] == was[i];
      ghost var c := carry;
      var n := carry + pn[i] + b[i];
      pn[i] := n % WORD;
      carry := n / WORD;
      AddStep(was, add, done, i, c, pn[i], carry);
      done := done + [pn[i]];
    }
    assert pn[..] == done && was[..pn.Length] == was && add[..pn.Length] == add;
    HoldsAll(done, carry, LVal(was) + LVal(add));
  }

  lemma AddStep(was: seq<U32>, add: seq<U32>, done: seq<U32>, i: nat, c: nat, d: U32, carry: nat)
    requires i < |was| == |add| && |done| == i && Holds(done, c, LVal(was[..i]) + LVal(add[..i]))
    requires c + was[i] + add[i] == d + WORD * carry
    ensures Holds(done + [d], carry, LVal(was[..i + 1]) + LVal(add[..i + 1]))
  {
    HoldsMore(was, i);
    HoldsMore(add, i);
    DistributeSum(P(i), was[i], add[i]);
    var sum: nat := was[i] as nat + add[i];
    HoldsStep(done, c, LVal(was[..i]) + LVal(add[..i]), sum, d, carry,
              LVal(was[..i + 1]) + LVal(add[..i + 1]));
  }

  lemma DistributeSum(p: nat, x: nat, y: nat)
    ensures p * (x + y) == p * x + p * y
  {}

  /** `-x`: complement every limb and add one. */
  method Negated(b: array<U32>) returns (ret: array<U32>)
    ensures fresh(ret) && ret.Length == b.Length
    ensures LVal(ret[..]) == Wrap(0 - LVal(b[..]), b.Length)
  {
    ret := new U32[b.Length](_ => 0);
    for i := 0 to b.Length
      invariant forall k :: 0 <= k < i ==> ret[k] == 0xffff_ffff - b[k]
    {
      ret[i] := 0xffff_ffff - b[i];
    }
    ComplementValue(b[..], ret[..]);
    LValBound(b[..]);
    Increment(ret);
  }

  lemma {:induction false} ComplementValue(a: seq<U32>, c: seq<U32>)
    requires |a| == |c| && forall k :: 0 <= k < |a| ==> c[k] == 0xffff_ffff - a[k]
    ensures LVal(a) + LVal(c) + 1 == P(|a|)
  {
    if a != [] { ComplementValue(a[1..], c[1..]); }
  }

  /** `-=`. */
  method SubAssign(pn: array<U32>, b: array<U32>)
    requires pn.Length == b.Length
    modifies pn
    ensures LVal(pn[..]) == Wrap(LVal(old(pn[..])) - LVal(old(b[..])), pn.Length)
  {
    LValBound(pn[..]);
    LValBound(b[..]);
    ghost var x, y := LVal(pn[..]), LVal(b[..]);
    var minus := Negated(b);
    AddAssign(pn, minus);
    SubtractionWraps(x, y, pn.Length);
  }

  lemma SubtractionWraps(x: nat, y: nat, width: nat)
    requires x < P(width) && y < P(width)
    ensures Wrap(x + Wrap(0 - y, width), width) == Wrap(x - y, width)
  {}

  // ---- Multiplication ----

  lemma ProductFits(x: U32, y: U32)
    ensures 0 <= x * y <= 0xffff_ffff * 0xffff_ffff
  {
    MulMonotone(x, y, 0xffff_ffff);
    MulMonotone(0xffff_ffff, x, 0xffff_ffff);
  }

  /** `*=` by a 32-bit number. */
  method MulSmallAssign(pn: array<U32>, b32: U32)
    modifies pn
    ensures LVal(pn[..]) == Wrap(LVal(old(pn[..])) * b32, pn.Length)
  {
    ghost var was, done: seq<U32> := pn[..], [];
    var carry: nat := 0;
    HoldsNothing(0);
    for i := 0 to pn.Length
      invariant |done| == i && Progress(was, pn[..], done)
      invariant carry < WORD && Holds(done, carry, LVal(was[..i]) * b32)
    {
      assert pn[i] == was[i];
      ProductFits(b32, was[i]);
      ghost var c := carry;
      var n: nat := carry + b32 * pn[i];
      assert n <= 0xffff_ffff_ffff_ffff;
      pn[i] := n % WORD;
      carry := n / WORD;
      MulStep(was, done, i, b32, c, pn[i], carry);
      done := done + [pn[i]];
    }
    assert pn[..] == done && was[..pn.Length] == was;
    HoldsAll(done, carry, LVal(was) * b32);
  }

  lemma MulStep(was: seq<U32>, done: seq<U32>, i: nat, b: U32, c: nat, d: U32, carry: nat)
    requires i < |was| && |done| == i && Holds(done, c, LVal(was[..i]) * b)
    requires c + b * was[i] == d + WORD * carry
    ensures Holds(done + [d], carry, LVal(was[..i + 1]) * b)
  {
    HoldsMore(was, i);
    ScaleAppend(P(i), LVal(was[..i]), was[i], b);
    HoldsStep(done, c, LVal(was[..i]) * b, b * was[i], d, carry, LVal(was[..i + 1]) * b);
  }

  lemma ScaleAppend(p: nat, wv: nat, x: nat, b: nat)
    ensures (wv + p * x) * b == wv * b + p * (b * x)
  {
    assert (wv + p * x) * b == wv * b + (p * x) * b;
    assert (p * x) * b == p * (b * x);
  }

  /** `*=`: schoolbook multiplication into a fresh number, then copied back. */
  method MulAssign(pn: array<U32>, b: array<U32>)
    requires pn.Length == b.Length
    modifies pn
    ensures LVal(pn[..]) == Wrap(LVal(old(pn[..])) * LVal(old(b[..])), pn.Length)
  {
    ghost var was, mul, q: int := pn[..], b[..], 0;
    var a := new U32[pn.Length](_ => 0);
    assert a[..] == seq(a.Length, _ => 0);
    LValZeros(a.Length);
    for j := 0 to pn.Length
      invariant pn[..] == was && b[..] == mul
      invariant LVal(a[..]) + P(a.Length) * q == LVal(was[..j]) * LVal(mul)
    {
      ghost var before := a[..];
      ghost var carry := MulRow(a, j, pn[j], b);
      q := RowAdded(before, a[..], mul, was, j, carry, q);
    }
    assert was[..pn.Length] == was;
    LValBound(a[..]);
    WrapUnique(LVal(was) * LVal(mul), pn.Length, q, LVal(a[..]));
    CopyLimbs(pn, a);
  }

  /** Plain assignment. */
  method CopyLimbs(pn: array<U32>, a: array<U32>)
    requires pn.Length == a.Length
    modifies pn
    ensures pn[..] == old(a[..])
  {
    for i := 0 to pn.Length
      invariant a[..] == old(a[..]) || a == pn
      invariant forall k :: 0 <= k < i ==> pn[k] == old(a[k])
      invariant forall k :: i <= k < pn.Length ==> a[k] == old(a[k])
    {
      pn[i] := a[i];
    }
  }

  /** The product row of one limb x is added to `a` from limb j on; `carry` falls off the end. */
  ghost predicate RowDone(before: seq<U32>, after: seq<U32>, j: nat, x: U32, mul: seq<U32>, carry: nat) {
    && |before| == |after| == |mul| && j <= |mul|
    && after[..j] == before[..j]
    && Holds(after[j..], carry, LVal(before[j..]) + x * LVal(mul[..|mul| - j]))
  }

  /** The inner loop of the product. */
  method MulRow(a: array<U32>, j: nat, x: U32, b: array<U32>) returns (ghost out: nat)
    requires a.Length == b.Length && j < a.Length && a != b
    modifies a
    ensures RowDone(old(a[..]), a[..], j, x, b[..], out)
  {
    ghost var before, was, done: seq<U32>, mul := a[..], a[j..], [], b[..];
    var carry: nat := 0;
    HoldsNothing(0);
    var i := 0;
    while i + j < a.Length
      invariant |done| == i <= a.Length - j && a[..j] == before[..j] && Progress(was, a[j..], done)
      invariant carry < WORD && Holds(done, carry, LVal(was[..i]) + x * LVal(mul[..i]))
    {
      assert a[i + j] == a[j..][i] == was[i];
      ProductFits(x, b[i]);
      ghost var c := carry;
      var n: nat := carry + a[i + j] + x * b[i];
      assert n <= 0xffff_ffff_ffff_ffff;
      a[i + j] := n % WORD;
      carry := n / WORD;
      RowStep(was, mul, done, i, x, c, a[i + j], carry);
      done := done + [a[i + j]];
      i := i + 1;
    }
    assert a[j..] == done && was[..i] == was;
    out := carry;
  }

  lemma RowStep(was: seq<U32>, mul: seq<U32>, done: seq<U32>, i: nat, x: U32, c: nat, d: U32, carry: nat)
    requires i < |was| && i < |mul| && |done| == i
    requires Holds(done, c, LVal(was[..i]) + x * LVal(mul[..i]))
    requires c + was[i] + x * mul[i] == d + WORD * carry
    ensures Holds(done + [d], carry, LVal(was[..i + 1]) + x * LVal(mul[..i + 1]))
  {
    HoldsMore(was, i);
    HoldsMore(mul, i);
    var p: nat, bv: nat, y: nat := P(i), LVal(mul[..i]), mul[i];
    RowDistribute(p, x, bv, y, was[i]);
    HoldsStep(done, c, LVal(was[..i]) + x * bv, was[i] + x * y, d, carry, LVal(was[..i + 1]) + x * LVal(mul[..i + 1]));
  }

  lemma RowDistribute(p: nat, x: nat, bv: nat, y: nat, w: nat)
    ensures x * (bv + p * y) == x * bv + p * (x * y)
    ensures p * (w + x * y) == p * w + p * (x * y)
  {
    assert x * (p * y) == p * (x * y);
  }

  /** Adding row j keeps the running product right modulo what the limbs can hold. */
  lemma RowAdded(before: seq<U32>, after: seq<U32>, mul: seq<U32>, was: seq<U32>, j: nat, carry: nat, q: int) returns (more: int)
    requires j < |was| == |mul| && RowDone(before, after, j, was[j], mul, carry)
    requires LVal(before) + P(|mul|) * q == LVal(was[..j]) * LVal(mul)
    ensures LVal(after) + P(|mul|) * more == LVal(was[..j + 1]) * LVal(mul)
  {
    var r := |mul| - j;
    more := q + carry + was[j] * LVal(mul[r..]);
    HoldsOpen(after[j..], carry, LVal(before[j..]) + was[j] * LVal(mul[..r]));
    LValSplit(before, j);
    LValSplit(after, j);
    LValSplit(mul, r);
    HoldsMore(was, j);
    PowAdd(WORD, j, r);
    RowArithmetic(LVal(before[..j]), LVal(before[j..]), LVal(after[j..]), P(j), P(r), carry, was[j],
                  LVal(mul[..r]), LVal(mul[r..]), q, LVal(was[..j]));
  }

  lemma RowArithmetic(low: nat, bv: nat, av: nat, pj: nat, pr: nat, carry: nat, x: nat, b0: nat, b1: nat, q: int, wv: nat)
    requires av + pr * carry == bv + x * b0
    requires low + pj * bv + (pj * pr) * q == wv * (b0 + pr * b1)
    ensures low + pj * av + (pj * pr) * (q + carry + x * b1) == (wv + pj * x) * (b0 + pr * b1)
  {
    var b := b0 + pr * b1;
    assert pj * (av + pr * carry) == pj * av + (pj * pr) * carry by { MulAssociative(pj, pr, carry); }
    assert pj * (bv + x * b0) == pj * bv + pj * (x * b0);
    assert (wv + pj * x) * b == wv * b + (pj * x) * b;
    assert (pj * x) * b == pj * (x * b0) + (pj * pr) * (x * b1) by { CrossTerms(pj, x, b0, pr, b1); }
    assert (pj * pr) * (q + carry + x * b1) == (pj * pr) * q + (pj * pr) * carry + (pj * pr) * (x * b1) by {
      ThreeTerms(pj * pr, q, carry, x * b1);
    }
  }

  lemma CrossTerms(p: nat, x: nat, b0: nat, r: nat, b1: nat)
    ensures (p * x) * (b0 + r * b1) == p * (x * b0) + (p * r) * (x * b1)
  {
    assert (p * x) * (b0 + r * b1) == (p * x) * b0 + (p * x) * (r * b1);
    assert (p * x) * (r * b1) == (p * r) * (x * b1);
  }

  lemma ThreeTerms(m: int, a: int, b: int, c: int)
    ensures m * (a + b + c) == m * a + m * b + m * c
  {}

  // ---- Shifts ----

  /** `x >> s` and `x << s` on one 32-bit limb. */
  function Down(x: U32, s: nat): nat {
    DivFacts(x, Pow(2, s));
    x / Pow(2, s)
  }

  function Up(x: U32, s: nat): nat {
    Lo(x, Pow(2, s))
  }

  /** `<<=`. */
  method ShlAssign(pn: array<U32>, shift: nat)
    modifies pn
    ensures LVal(pn[..]) == Wrap(LVal(old(pn[..])) * Pow(2, shift), pn.Length)
  {
    var a := pn[..];
    SetZero(pn);
    var k, s := shift / 32, shift % 32;
    for i := 0 to pn.Length
      invariant ShlUpTo(a, pn[..], k, s, i)
    {
      ShlTurn(pn, a, k, s, i);
    }
    ShlValue(a, pn[..], k, s);
    WrapIsMod(LVal(a) * Pow(2, shift), pn.Length);
  }

  /** The limbs after the first i turns of the left-shift loop. */
  ghost predicate ShlUpTo(a: seq<U32>, r: seq<U32>, k: nat, s: nat, i: nat) {
    forall p :: 0 <= p < |r| ==> r[p] == ShlLimb(a, k, Pow(2, s), i, p)
  }

  method ShlTurn(pn: array<U32>, a: seq<U32>, k: nat, s: nat, i: nat)
    requires |a| == pn.Length && s < 32 && i < |a| && ShlUpTo(a, pn[..], k, s, i)
    modifies pn
    ensures ShlUpTo(a, pn[..], k, s, i + 1)
  {
    ShlStep(a, k, s, i);
    if i + k + 1 < pn.Length && s != 0 {
      assert pn[..][i + k + 1] == 0;
      pn[i + k + 1] := Or(pn[i + k + 1], Down(a[i], 32 - s));
    }
    if i + k < pn.Length {
      assert pn[..][i + k] == ShlLimb(a, k, Pow(2, s), i, i + k);
      pn[i + k] := Or(pn[i + k], Up(a[i], s));
    }
  }

  /** What one turn of the left-shift loop adds: the high part of limb i to position i+k+1, and
      the low part to position i+k, where it meets no bit already set. */
  lemma ShlStep(a: seq<U32>, k: nat, s: nat, i: nat)
    requires s < 32 && i < |a|
    ensures var m := Pow(2, s);
      && ShlLimb(a, k, m, i, i + k + 1) == 0
      && (s != 0 ==> Or(0, Down(a[i], 32 - s)) == ShlLimb(a, k, m, i + 1, i + k + 1) < WORD)
      && (s == 0 ==> ShlLimb(a, k, m, i + 1, i + k + 1) == 0)
      && Or(ShlLimb(a, k, m, i, i + k), Up(a[i], s)) == ShlLimb(a, k, m, i + 1, i + k) < WORD
    ensures forall p :: p != i + k && p != i + k + 1 ==> ShlLimb(a, k, Pow(2, s), i + 1, p) == ShlLimb(a, k, Pow(2, s), i, p)
  {
    var m, n := Pow(2, s), Pow(2, 32 - s);
    Pow2Word(s);
    LoHi(a[i], m, n);
    OrZero(a[i] / n);
    ShlLimbFits(a, k, s, i + 1, i + k);
    ShlLimbFits(a, k, s, i + 1, i + k + 1);
    var h: nat := a[i] - Hi(a[i], m) * n;
    if i > 0 {
      LoHi(a[i - 1], m, n);
      OrDisjoint(Hi(a[i - 1], m), h, s);
    } else {
      OrZero(Lo(a[i], m));
    }
  }

  /** `>>=`. */
  method ShrAssign(pn: array<U32>, shift: nat)
    modifies pn
    ensures Pow(2, shift) > 0 && LVal(pn[..]) == LVal(old(pn[..])) / Pow(2, shift)
  {
    var a := pn[..];
    for i := 0 to pn.Length
      invariant forall p :: 0 <= p < i ==> pn[p] == 0
    {
      pn[i] := 0;
    }
    var k, s := shift / 32, shift % 32;
    ghost var n := Pow(2, 32 - s);
    for i := 0 to pn.Length
      invariant forall p :: 0 <= p < pn.Length ==> pn[p] == ShrLimb(a, k, n, i, p)
    {
      ShrStepElsewhere(a, k, n, i);
      if i >= k { ShrStepLow(a, k, s, i); }
      if i >= k + 1 && s != 0 { ShrStepHigh(a, k, s, i); }
      if i >= k + 1 && s == 0 { ShrStepWhole(a, k, i); }
      if i - k - 1 >= 0 && s != 0 {
        pn[i - k - 1] := Or(pn[i - k - 1], Up(a[i], 32 - s));
      }
      if i - k >= 0 {
        pn[i - k] := Or(pn[i - k], Down(a[i], s));
      }
    }
    ShrValue(a, pn[..], k, s);
  }

  lemma ShrStepLow(a: seq<U32>, k: nat, s: nat, i: nat)
    requires s < 32 && k <= i < |a|
    ensures var n := Pow(2, 32 - s);
      ShrLimb(a, k, n, i, i - k) == 0 && Or(0, Down(a[i], s)) == ShrLimb(a, k, n, i + 1, i - k) < WORD
  {
    Pow2Word(s);
    LoHi(a[i], Pow(2, 32 - s), Pow(2, s));
    OrZero(Down(a[i], s));
    ShrLimbFits(a, k, s, i + 1, i - k);
  }

  lemma ShrStepHigh(a: seq<U32>, k: nat, s: nat, i: nat)
    requires 0 < s < 32 && k + 1 <= i < |a|
    ensures var n := Pow(2, 32 - s);
      Or(ShrLimb(a, k, n, i, i - k - 1), Up(a[i], 32 - s)) == ShrLimb(a, k, n, i + 1, i - k - 1) < WORD
  {
    var m, n := Pow(2, s), Pow(2, 32 - s);
    Pow2Word(s);
    LoHi(a[i], n, m);
    LoHi(a[i - 1], n, m);
    ShrLimbFits(a, k, s, i + 1, i - k - 1);
    var h: nat := a[i] - Hi(a[i], n) * m;
    OrDisjoint(Hi(a[i - 1], n), h, 32 - s);
  }

  lemma ShrStepWhole(a: seq<U32>, k: nat, i: nat)
    requires k + 1 <= i < |a|
    ensures ShrLimb(a, k, Pow(2, 32), i, i - k - 1) == ShrLimb(a, k, Pow(2, 32), i + 1, i - k - 1)
  {
    Pow2Word(32);
    assert Lo(a[i], WORD) == 0;
  }

  lemma ShrStepElsewhere(a: seq<U32>, k: nat, n: nat, i: nat)
    requires i < |a|
    ensures forall p: nat :: p != i - k && p != i - k - 1 ==> ShrLimb(a, k, n, i + 1, p) == ShrLimb(a, k, n, i, p)
  {}

  // ---- Comparison and size ----

  /** Negative, zero or positive as a is below, equal to or above b. */
  method CompareTo(a: array<U32>, b: array<U32>) returns (r: int)
    requires a.Length == b.Length
    ensures r < 0 <==> LVal(a[..]) < LVal(b[..])
    ensures r == 0 <==> a[..] == b[..]
    ensures r > 0 <==> LVal(a[..]) > LVal(b[..])
  {
    var i := a.Length;
    while i > 0
      invariant 0 <= i <= a.Length && a[i..] == b[i..]
    {
      i := i - 1;
      if a[i] < b[i] {
        HighLimbDecides(a[..], b[..], i);
        return -1;
      }
      if a[i] > b[i] {
        HighLimbDecides(b[..], a[..], i);
        return 1;
      }
    }
    assert a[0..] == a[..] && b[0..] == b[..];
    r := 0;
  }

  lemma HighLimbDecides(x: seq<U32>, y: seq<U32>, i: nat)
    requires |x| == |y| && i < |x| && x[i] < y[i] && x[i + 1..] == y[i + 1..]
    ensures LVal(x) < LVal(y)
  {
    LValSplit(x, i + 1);
    LValSplit(y, i + 1);
    HoldsMore(x, i);
    HoldsMore(y, i);
    LValBound(x[..i]);
    MulMonotone(P(i), x[i] + 1, y[i]);
    assert P(i) * (x[i] + 1) == P(i) * x[i] + P(i);
  }

  /** Equality with a 64-bit number. */
  method EqualTo(a: array<U32>, b: U64) returns (r: bool)
    requires a.Length >= 2
    ensures r <==> LVal(a[..]) == b
  {
    var i := a.Length;
    while i > 2
      invariant 2 <= i <= a.Length && forall k :: i <= k < a.Length ==> a[k] == 0
    {
      i := i - 1;
      if a[i] != 0 {
        LimbAtLeast(a[..], i);
        return false;
      }
    }
    assert a[2..] == seq(a.Length - 2, _ => 0);
    LValZeros(a.Length - 2);
    LValSplit(a[..], 2);
    assert a[..2] == [a[0], a[1]];
    assert LVal([a[0], a[1]]) == a[0] + WORD * a[1] by {
      assert [a[0], a[1]][1..] == [a[1]] && ([a[1]])[1..] == [];
    }
    r := a[1] == b / WORD && a[0] == b % WORD;
  }

  lemma LimbAtLeast(s: seq<U32>, i: nat)
    requires 2 <= i < |s| && s[i] != 0
    ensures LVal(s) >= TWO64
  {
    LValSplit(s, i);
    PowMonotone(WORD, 2, i);
    assert Pow(WORD, 2) == TWO64 by { assert Pow(WORD, 1) == WORD; }
    assert LVal(s[i..]) >= 1;
    MulMonotone(P(i), 1, LVal(s[i..]));
  }

  /** One more than the position of the highest set bit, or 0. */
  method Bits(a: array<U32>) returns (r: nat)
    ensures r <= 32 * a.Length
    ensures r == 0 <==> LVal(a[..]) == 0
    ensures r > 0 ==> Pow(2, r - 1) <= LVal(a[..]) < Pow(2, r)
  {
    var pos := a.Length;
    while pos > 0
      invariant 0 <= pos <= a.Length && forall k :: pos <= k < a.Length ==> a[k] == 0
    {
      pos := pos - 1;
      if a[pos] != 0 {
        var nbits := 31;
        assert Pow(2, 32) == WORD by { Pow2Word(32); }
        while nbits > 0
          invariant 0 <= nbits <= 31 && a[pos] < Pow(2, nbits + 1)
        {
          if Down(a[pos], nbits) % 2 != 0 {
            TopBit(a[pos], nbits);
            BitsFound(a[..], pos, nbits);
            return 32 * pos + nbits + 1;
          }
          BitClear(a[pos], nbits);
          nbits := nbits - 1;
        }
        BitsFound(a[..], pos, 0);
        return 32 * pos + 1;
      }
    }
    assert a[..] == seq(a.Length, _ => 0);
    LValZeros(a.Length);
    r := 0;
  }

  lemma TopBit(x: U32, n: nat)
    requires Down(x, n) % 2 != 0
    ensures Pow(2, n) <= x
  {
    DivFacts(x, Pow(2, n));
    MulMonotone(Pow(2, n), 1, Down(x, n));
  }

  lemma BitClear(x: U32, n: nat)
    requires x < Pow(2, n + 1) && Down(x, n) % 2 == 0
    ensures x < Pow(2, n)
  {
    var p := Pow(2, n);
    DivFacts(x, p);
    if Down(x, n) >= 2 { MulMonotone(p, 2, Down(x, n)); }
  }

  /** The highest nonzero limb and its highest bit bound the whole number. */
  lemma BitsFound(s: seq<U32>, pos: nat, nbits: nat)
    requires pos < |s| && (forall k :: pos < k < |s| ==> s[k] == 0)
    requires Pow(2, nbits) <= s[pos] < Pow(2, nbits + 1)
    ensures Pow(2, 32 * pos + nbits) <= LVal(s) < Pow(2, 32 * pos + nbits + 1)
  {
    TopLimb(s, pos);
    LValBound(s[..pos]);
    Pow2Limbs(pos);
    PowAdd(2, 32 * pos, nbits);
    PowAdd(2, 32 * pos, nbits + 1);
    TopLimbBounds(LVal(s[..pos]), P(pos), s[pos], Pow(2, nbits), Pow(2, nbits + 1));
  }

  lemma TopLimb(s: seq<U32>, pos: nat)
    requires pos < |s| && (forall k :: pos < k < |s| ==> s[k] == 0)
    ensures LVal(s) == LVal(s[..pos]) + P(pos) * s[pos]
  {
    assert s[pos + 1..] == seq(|s| - pos - 1, _ => 0);
    LValZeros(|s| - pos - 1);
    LValSplit(s, pos + 1);
    HoldsMore(s, pos);
  }

  lemma TopLimbBounds(low: nat, p: nat, x: nat, lo: nat, hi: nat)
    requires low < p && lo <= x < hi
    ensures p * lo <= low + p * x < p * hi
  {
    MulMonotone(p, lo, x);
    MulMonotone(p, x + 1, hi);
    DistributeSum(p, x, 1);
  }

  // ---- Division ----

  /** `/=`: shift-subtract long division. False, with the quotient left at zero, for a zero divisor. */
  method DivAssign(pn: array<U32>, b: array<U32>) returns (ok: bool)
    requires pn.Length == b.Length
    modifies pn
    ensures ok <==> LVal(old(b[..])) != 0
    ensures ok ==> LVal(pn[..]) == LVal(old(pn[..])) / LVal(old(b[..]))
    ensures !ok ==> LVal(pn[..]) == 0
  {
    ghost var n, d := LVal(pn[..]), LVal(b[..]);
    var div := Copy(b);
    var num := Copy(pn);
    SetZero(pn);
    var numBits := Bits(num);
    var divBits := Bits(div);
    if divBits == 0 {
      return false;
    }
    if divBits > numBits {
      BelowPower(n, d, numBits, divBits);
      DivModUnique(n, d, 0, n);
      return true;
    }
    var shift: int := numBits - divBits;
    AlignedFits(n, d, numBits, divBits, pn.Length);
    ShlAssign(div, shift);
    LongDivision(pn, num, div, shift, n, d);
    ok := true;
  }

  method Copy(b: array<U32>) returns (r: array<U32>)
    ensures fresh(r) && r[..] == b[..]
  {
    r := new U32[b.Length](_ => 0);
    CopyLimbs(r, b);
  }

  method SetZero(pn: array<U32>)
    modifies pn
    ensures LVal(pn[..]) == 0 && forall p :: 0 <= p < pn.Length ==> pn[p] == 0
  {
    for i := 0 to pn.Length
      invariant forall p :: 0 <= p < i ==> pn[p] == 0
    {
      pn[i] := 0;
    }
    assert pn[..] == seq(pn.Length, _ => 0);
    LValZeros(pn.Length);
  }

  lemma BelowPower(n: nat, d: nat, nb: nat, db: nat)
    requires db > nb && (nb == 0 <==> n == 0) && (nb > 0 ==> n < Pow(2, nb)) && d >= Pow(2, db - 1)
    ensures n < d
  {
    PowMonotone(2, nb, db - 1);
  }

  /** Aligning the divisor under the dividend loses no bits and overshoots by less than a factor two. */
  lemma AlignedFits(n: nat, d: nat, nb: nat, db: nat, width: nat)
    requires 0 < db <= nb <= 32 * width
    requires Pow(2, nb - 1) <= n < Pow(2, nb) && Pow(2, db - 1) <= d < Pow(2, db)
    ensures Wrap(d * Pow(2, nb - db), width) == d * Pow(2, nb - db)
    ensures n < d * Pow(2, nb - db + 1)
  {
    NoBitsLost(d, nb, db, width);
    PowAdd(2, db - 1, nb - db + 1);
    ScaledAtLeast(Pow(2, db - 1), d, Pow(2, nb - db + 1));
  }

  lemma NoBitsLost(d: nat, nb: nat, db: nat, width: nat)
    requires db <= nb <= 32 * width && d < Pow(2, db)
    ensures Wrap(d * Pow(2, nb - db), width) == d * Pow(2, nb - db)
  {
    PowAdd(2, db, nb - db);
    PowMonotone(2, nb, 32 * width);
    Pow2Limbs(width);
    ScaledBelow(d, Pow(2, db), Pow(2, nb - db));
    SmallWraps(d * Pow(2, nb - db), width);
  }

  lemma ScaledBelow(x: nat, y: nat, p: nat)
    requires x < y && p > 0
    ensures x * p < y * p
  {
    assert (y - x) * p >= p by { MulMonotone(p, 1, y - x); }
    assert (y - x) * p == y * p - x * p;
  }

  lemma ScaledAtLeast(x: nat, y: nat, p: nat)
    requires x <= y
    ensures x * p <= y * p
  {
    MulMonotone(p, x, y);
  }

  lemma SmallWraps(v: nat, width: nat)
    requires v < P(width)
    ensures Wrap(v, width) == v
  {}

  /** The state of the long division before the bit at `shift` is decided. */
  ghost predicate Dividing(n: nat, d: nat, q: nat, num: nat, shift: int)
    requires shift >= -1
  {
    && n == q * d + num
    && num < d * Pow(2, shift + 1)
    && q % Pow(2, shift + 1) == 0
  }

  lemma DividingStep(n: nat, d: nat, q: nat, num: nat, shift: nat, take: bool)
    requires Dividing(n, d, q, num, shift)
    requires take <==> num >= d * Pow(2, shift)
    ensures take ==> num - d * Pow(2, shift) >= 0 && Dividing(n, d, q + Pow(2, shift), num - d * Pow(2, shift), shift - 1)
    ensures !take ==> Dividing(n, d, q, num, shift - 1)
  {
    var p := Pow(2, shift);
    assert Pow(2, shift + 1) == 2 * p;
    assert d * (2 * p) == 2 * (d * p);
    DivFacts(q, 2 * p);
    var z := q / (2 * p);
    assert q == (2 * z) * p by { assert (2 * p) * z == (2 * z) * p; }
    DivModUnique(q, p, 2 * z, 0);
    assert (q + p) * d == q * d + d * p;
    assert q + p == (2 * z + 1) * p;
    DivModUnique(q + p, p, 2 * z + 1, 0);
  }

  lemma DividingDone(n: nat, d: nat, q: nat, num: nat)
    requires d > 0 && Dividing(n, d, q, num, -1)
    ensures q == n / d
  {
    assert d * Pow(2, 0) == d;
    DivModUnique(n, d, q, num);
  }

  method LongDivision(pn: array<U32>, num: array<U32>, div: array<U32>, from: nat, ghost n: nat, ghost d: nat)
    requires pn.Length == num.Length == div.Length && pn != num && num != div && div != pn
    requires d > 0 && LVal(pn[..]) == 0 && LVal(num[..]) == n && LVal(div[..]) == d * Pow(2, from)
    requires n < d * Pow(2, from + 1) && from < 32 * pn.Length
    modifies pn, num, div
    ensures LVal(pn[..]) == n / d
  {
    var shift: int := from;
    DivModUnique(0, Pow(2, from + 1), 0, 0);
    while shift >= 0
      invariant -1 <= shift <= from
      invariant Dividing(n, d, LVal(pn[..]), LVal(num[..]), shift)
      invariant shift >= 0 ==> LVal(div[..]) == d * Pow(2, shift)
    {
      var c := CompareTo(num, div);
      DividingStep(n, d, LVal(pn[..]), LVal(num[..]), shift, c >= 0);
      if c >= 0 {
        NoBorrow(num[..], div[..]);
        SubAssign(num, div);
        SetBit(pn, shift);
      }
      Halve(div, d, shift);
      shift := shift - 1;
    }
    DividingDone(n, d, LVal(pn[..]), LVal(num[..]));
  }

  lemma NoBorrow(x: seq<U32>, y: seq<U32>)
    requires |x| == |y| && LVal(x) >= LVal(y)
    ensures Wrap(LVal(x) - LVal(y), |x|) == LVal(x) - LVal(y)
  {
    LValBound(x);
  }

  /** `div >>= 1`. */
  method Halve(div: array<U32>, ghost d: nat, ghost shift: nat)
    requires LVal(div[..]) == d * Pow(2, shift)
    modifies div
    ensures shift > 0 ==> LVal(div[..]) == d * Pow(2, shift - 1)
  {
    ShrAssign(div, 1);
    assert Pow(2, 1) == 2 by { assert Pow(2, 0) == 1; }
    if shift > 0 {
      HalfOf(d, Pow(2, shift - 1));
    }
  }

  lemma HalfOf(d: nat, p: nat)
    ensures (d * (2 * p)) / 2 == d * p
  {
    assert d * (2 * p) == 2 * (d * p);
  }

  /** `pn[shift / 32] |= 1 << (shift & 31)`, on a number whose lower bits are still clear. */
  method SetBit(pn: array<U32>, shift: nat)
    requires shift < 32 * pn.Length && LVal(pn[..]) % Pow(2, shift + 1) == 0
    modifies pn
    ensures LVal(pn[..]) == LVal(old(pn[..])) + Pow(2, shift)
  {
    var i, t := shift / 32, shift % 32;
    ghost var was := pn[..];
    var h := LimbIsMultiple(was, i, t);
    BitFits(t);
    OrDisjoint(Pow(2, t), h, t + 1);
    MultipleBelow(pn[i], h, t);
    pn[i] := Or(pn[i], Pow(2, t));
    LValUpdate(was, i, pn[i], Pow(2, t));
    assert pn[..] == was[i := pn[i]];
    Pow2Limbs(i);
    PowAdd(2, 32 * i, t);
  }

  lemma BitFits(t: nat)
    requires t < 32
    ensures Pow(2, t) < WORD
  {
    Pow2Word(t);
    PowMonotone(2, t, 31);
    assert Pow(2, 31) == 0x8000_0000 by { Pow2Word(31); assert Pow(2, 1) == 2; }
  }

  lemma MultipleBelow(x: U32, h: nat, t: nat)
    requires t < 32 && x == h * Pow(2, t + 1)
    ensures x + Pow(2, t) < WORD
  {
    Pow2Word(t + 1);
    RoomForBit(x, h, Pow(2, t), Pow(2, 31 - t));
  }

  lemma RoomForBit(x: nat, h: nat, p: nat, r: nat)
    requires p > 0 && x == h * (2 * p) && x < WORD && (2 * p) * r == WORD
    ensures x + p < WORD
  {
    if h >= r { MulMonotone(2 * p, r, h); }
    MulMonotone(2 * p, h + 1, r);
    assert (2 * p) * (h + 1) == h * (2 * p) + 2 * p;
  }

  lemma LValUpdate(s: seq<U32>, i: nat, x: U32, add: nat)
    requires i < |s| && x == s[i] + add
    ensures LVal(s[i := x]) == LVal(s) + P(i) * add
  {
    var r := s[i := x];
    LValSplit(s, i + 1);
    LValSplit(r, i + 1);
    HoldsMore(s, i);
    HoldsMore(r, i);
    assert r[..i] == s[..i] && r[i + 1..] == s[i + 1..];
    DistributeSum(P(i), s[i], add);
  }

  /** If a number is a multiple of 2^(32 i + t + 1), its limb i is a multiple of 2^(t+1). */
  lemma LimbIsMultiple(s: seq<U32>, i: nat, t: nat) returns (h: nat)
    requires i < |s| && t < 32 && LVal(s) % Pow(2, 32 * i + t + 1) == 0
    ensures s[i] == h * Pow(2, t + 1)
  {
    Pow2Limbs(i);
    PowAdd(2, 32 * i, t + 1);
    LValSplit(s, i);
    LValBound(s[..i]);
    var z := HighPartIsMultiple(LVal(s), LVal(s[..i]), LVal(s[i..]), P(i), Pow(2, t + 1));
    assert s[i..][1..] == s[i + 1..];
    Pow2Word(t + 1);
    h := LowDigitIsMultiple(s[i], LVal(s[i + 1..]), z, Pow(2, t + 1), Pow(2, 31 - t));
  }

  lemma HighPartIsMultiple(v: nat, low: nat, high: nat, p: nat, m: nat) returns (z: nat)
    requires v == low + p * high && low < p && p * m > 0 && v % (p * m) == 0
    ensures high == z * m
  {
    DivFacts(v, p * m);
    z := v / (p * m);
    assert (p * m) * z == p * (z * m);
    assert p * (z * m - high) == p * (z * m) - p * high;
    SmallMultipleIsZero(z * m - high, p, low);
  }

  lemma LowDigitIsMultiple(x: nat, rest: nat, z: nat, m: nat, r: nat) returns (h: nat)
    requires x + WORD * rest == z * m && m * r == WORD && m > 0
    ensures x == h * m
  {
    assert WORD * rest == (r * rest) * m by { assert (m * r) * rest == (r * rest) * m; }
    assert (z - r * rest) * m == z * m - (r * rest) * m;
    if z < r * rest { MulMonotone(m, z - r * rest, -1); }
    h := z - r * rest;
  }
}
