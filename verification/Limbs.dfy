/** Little-endian sequences of 32-bit limbs as numbers, and the shifts on them. */
module Limbs {
  import opened Bytes

  /** A 256-bit number has this many limbs. */
  const LIMBS := 8

  /** The number a limb sequence holds, least significant limb first. */
  function LVal(s: seq<U32>): nat {
    if s == [] then 0 else s[0] + WORD * LVal(s[1..])
  }

  /** One more than the largest number n limbs hold. */
  function P(n: nat): (r: nat)
    ensures r > 0
  {
    Pow(WORD, n)
  }

  lemma {:induction false} LValConcat(a: seq<U32>, b: seq<U32>)
    ensures LVal(a + b) == LVal(a) + P(|a|) * LVal(b)
  {
    if a == [] {
      assert a + b == b;
    } else {
      assert (a + b)[1..] == a[1..] + b;
      LValConcat(a[1..], b);
      ScaleSum(LVal(a[1..]), P(|a| - 1), LVal(b));
    }
  }

  lemma ScaleSum(x: nat, p: nat, y: nat)
    ensures WORD * (x + p * y) == WORD * x + (WORD * p) * y
  {
    MulAssociative(WORD, p, y);
  }

  lemma LValAppend(s: seq<U32>, d: U32)
    ensures LVal(s + [d]) == LVal(s) + P(|s|) * d
  {
    LValConcat(s, [d]);
    LValSingle(d);
  }

  lemma LValSingle(d: U32)
    ensures LVal([d]) == d
  {
    assert ([d])[1..] == [];
  }

  lemma LValSplit(s: seq<U32>, k: nat)
    requires k <= |s|
    ensures LVal(s) == LVal(s[..k]) + P(k) * LVal(s[k..])
  {
    assert s == s[..k] + s[k..];
    LValConcat(s[..k], s[k..]);
  }

  lemma {:induction false} LValBound(s: seq<U32>)
    ensures LVal(s) < P(|s|)
  {
    if s != [] {
      LValBound(s[1..]);
    }
  }

  lemma {:induction false} LValZeros(n: nat)
    ensures LVal(seq(n, _ => 0)) == 0
  {
    if n > 0 {
      assert seq(n, _ => 0 as U32)[1..] == seq(n - 1, _ => 0);
      LValZeros(n - 1);
    }
  }

  /** Limb strings of one length are determined by their value. */
  lemma {:induction false} LValInjective(a: seq<U32>, b: seq<U32>)
    requires |a| == |b| && LVal(a) == LVal(b)
    ensures a == b
  {
    if a != [] {
      assert LVal(a) % WORD == a[0] && LVal(b) % WORD == b[0];
      LValInjective(a[1..], b[1..]);
      assert a == [a[0]] + a[1..] && b == [b[0]] + b[1..];
    }
  }

  // ---- Bitwise or ----

  /** The bitwise or of two naturals, bit by bit. */
  function Or(x: nat, y: nat): nat
    decreases x + y
  {
    if x == 0 && y == 0 then 0
    else (if x % 2 == 1 || y % 2 == 1 then 1 else 0) + 2 * Or(x / 2, y / 2)
  }

  lemma {:induction false} OrZero(x: nat)
    ensures Or(x, 0) == x && Or(0, x) == x
  {
    if x > 0 { OrZero(x / 2); }
  }

  /** Numbers without common bits, one below 2^s and one a multiple of it: or is addition. */
  lemma {:induction false} OrDisjoint(x: nat, h: nat, s: nat)
    requires x < Pow(2, s)
    ensures Or(x, h * Pow(2, s)) == x + h * Pow(2, s)
    ensures Or(h * Pow(2, s), x) == x + h * Pow(2, s)
  {
    if s == 0 {
      OrZero(h);
    } else {
      var y := h * Pow(2, s - 1);
      assert h * Pow(2, s) == 2 * y by { MulSwap(h, 2, Pow(2, s - 1)); }
      OrDisjoint(x / 2, h, s - 1);
      OrStep(x, y);
    }
  }

  lemma MulSwap(h: nat, a: nat, b: nat)
    ensures h * (a * b) == a * (h * b)
  {}

  lemma OrStep(x: nat, y: nat)
    ensures Or(x, 2 * y) == x % 2 + 2 * Or(x / 2, y)
    ensures Or(2 * y, x) == x % 2 + 2 * Or(y, x / 2)
  {
    Doubled(y);
    if x == 0 && y == 0 {
      assert Or(0, 0) == 0;
    }
  }

  lemma Doubled(y: nat)
    ensures (2 * y) % 2 == 0 && (2 * y) / 2 == y
  {}

  // ---- Shifting by s < 32 bits within limbs ----

  lemma Pow2Word(s: nat)
    requires s <= 32
    ensures Pow(2, s) * Pow(2, 32 - s) == WORD
  {
    PowAdd(2, s, 32 - s);
    assert Pow(2, 8) == 256 by { assert Pow(2, 4) == 16; }
    PowAdd(2, 8, 8);
    PowAdd(2, 16, 16);
  }

  /** What stays in the limb and what moves to the next one when x is multiplied by m. */
  function Lo(x: U32, m: nat): U32 { (x * m) % WORD }

  function Hi(x: U32, m: nat): nat { (x * m) / WORD }

  lemma LoHi(x: U32, m: nat, n: nat)
    requires m * n == WORD
    ensures x * m == Lo(x, m) + WORD * Hi(x, m)
    ensures Hi(x, m) < m && Hi(x, m) == x / n
    ensures Lo(x, m) == (x - Hi(x, m) * n) * m && x - Hi(x, m) * n >= 0
  {
    assert n > 0 && m > 0;
    DivFacts(x, n);
    var q, r := x / n, x % n;
    assert r * m < n * m by { MulMonotone(m, r + 1, n); }
    assert x * m == (n * q + r) * m == q * (m * n) + r * m by { Regroup(n, q, r, m); }
    DivModUnique(x * m, WORD, q, r * m);
    if q >= m { MulMonotone(n, m, q); }
    assert x - q * n == r;
  }

  lemma Regroup(n: nat, q: nat, r: nat, m: nat)
    ensures (n * q + r) * m == q * (m * n) + r * m
  {
    assert (n * q + r) * m == (n * q) * m + r * m;
    assert (n * q) * m == q * (m * n);
  }

  /** Limb p of a, shifted left by k limbs and s bits, from the first i limbs of a. */
  function ShlLimb(a: seq<U32>, k: nat, m: nat, i: nat, p: nat): nat {
    (if k <= p < k + i && p - k < |a| then Lo(a[p - k], m) else 0)
    + (if k < p <= k + i && p - k - 1 < |a| then Hi(a[p - k - 1], m) else 0)
  }

  lemma ShlLimbFits(a: seq<U32>, k: nat, s: nat, i: nat, p: nat)
    requires s < 32
    ensures ShlLimb(a, k, Pow(2, s), i, p) < WORD
  {
    Pow2Word(s);
    var m, n := Pow(2, s), Pow(2, 32 - s);
    if k <= p && p - k < |a| { LoHi(a[p - k], m, n); LoBelow(a[p - k], m, n); }
    if k < p && p - k - 1 < |a| { LoHi(a[p - k - 1], m, n); }
    assert m <= WORD by { MulMonotone(m, 1, n); }
  }

  lemma LoBelow(x: U32, m: nat, n: nat)
    requires m * n == WORD
    ensures Lo(x, m) + m <= WORD
  {
    LoHi(x, m, n);
    var h := x - Hi(x, m) * n;
    if h >= n { MulMonotone(m, n, h); }
    MulMonotone(m, h + 1, n);
  }

  /** All limbs of a times m, before limbs are moved. */
  function Scaled(a: seq<U32>, m: nat, i: nat): nat {
    if i < |a| then Lo(a[i], m) + (if i > 0 then Hi(a[i - 1], m) else 0) else 0
  }

  lemma {:induction false} ScaledValue(a: seq<U32>, r: seq<U32>, m: nat, n: nat, i: nat)
    requires m * n == WORD && i <= |a| == |r|
    requires forall p :: 0 <= p < |r| ==> r[p] == Scaled(a, m, p)
    ensures LVal(r[..i]) + (if i > 0 then Hi(a[i - 1], m) else 0) * P(i) == LVal(a[..i]) * m
  {
    if i > 0 {
      ScaledValue(a, r, m, n, i - 1);
      assert r[..i] == r[..i - 1] + [r[i - 1]] && a[..i] == a[..i - 1] + [a[i - 1]];
      LValAppend(r[..i - 1], r[i - 1]);
      LValAppend(a[..i - 1], a[i - 1]);
      LoHi(a[i - 1], m, n);
      ScaledArithmetic(LVal(r[..i - 1]), LVal(a[..i - 1]), P(i - 1), m,
                       if i > 1 then Hi(a[i - 2], m) else 0, Lo(a[i - 1], m), Hi(a[i - 1], m), a[i - 1]);
    }
  }

  lemma ScaledArithmetic(rv: nat, av: nat, p: nat, m: nat, h0: nat, lo: nat, hi: nat, x: nat)
    requires rv + h0 * p == av * m && x * m == lo + WORD * hi
    ensures rv + p * (lo + h0) + hi * (WORD * p) == (av + p * x) * m
  {
    assert p * (lo + h0) == p * lo + p * h0;
    assert (av + p * x) * m == av * m + p * (x * m);
    assert p * (x * m) == p * lo + p * (WORD * hi);
    assert p * (WORD * hi) == hi * (WORD * p);
  }

  /** The limbs after a left shift hold the number times 2^shift, modulo what the limbs can hold. */
  lemma ShlValue(a: seq<U32>, r: seq<U32>, k: nat, s: nat)
    requires s < 32 && |r| == |a|
    requires forall p :: 0 <= p < |r| ==> r[p] == ShlLimb(a, k, Pow(2, s), |a|, p)
    ensures LVal(r) == (LVal(a) * Pow(2, 32 * k + s)) % P(|a|)
  {
    var w, m := |a|, Pow(2, s);
    Pow2Word(s);
    PowAdd(2, 32 * k, s);
    Pow2Limbs(k);
    if k >= w {
      PowAdd(WORD, w, k - w);
      assert forall p :: 0 <= p < w ==> r[p] == 0;
      assert r == seq(w, _ => 0);
      LValZeros(w);
      ShiftedOut(LVal(a), P(w), P(k - w), m);
    } else {
      var t: seq<U32> := r[k..];
      assert r[..k] == seq(k, _ => 0);
      LValSplit(r, k);
      LValZeros(k);
      var full: seq<U32> := seq(w, p requires 0 <= p < w => ScaledLimb(a, m, Pow(2, 32 - s), p));
      assert t == full[..w - k];
      ScaledValue(a, full, m, Pow(2, 32 - s), w - k);
      LValSplit(a, w - k);
      LValBound(r);
      PowAdd(WORD, k, w - k);
      ShlArithmetic(LVal(r), LVal(t), LVal(a), LVal(a[..w - k]), LVal(a[w - k..]), P(k), P(w - k), m,
                    if w > k then Hi(a[w - k - 1], m) else 0);
    }
  }

  function ScaledLimb(a: seq<U32>, m: nat, n: nat, p: nat): (r: U32)
    requires m * n == WORD && p < |a|
    ensures r == Scaled(a, m, p)
  {
    LoBelow(a[p], m, n);
    if p > 0 then LoHi(a[p - 1], m, n); Scaled(a, m, p) else Scaled(a, m, p)
  }

  lemma {:induction false} Pow2Limbs(k: nat)
    ensures Pow(2, 32 * k) == P(k)
  {
    if k > 0 {
      Pow2Limbs(k - 1);
      PowAdd(2, 32, 32 * (k - 1));
      Pow2Word(32);
    }
  }

  lemma ShiftedOut(v: nat, pw: nat, p: nat, m: nat)
    requires pw > 0
    ensures (v * ((pw * p) * m)) % pw == 0
  {
    var q := v * (p * m);
    assert v * ((pw * p) * m) == q * pw;
    DivModUnique(q * pw, pw, q, 0);
  }

  lemma ShlArithmetic(r: nat, t: nat, a: nat, low: nat, high: nat, pk: nat, pr: nat, m: nat, h: nat)
    requires r == pk * t && r < pk * pr && pk > 0 && pr > 0
    requires t + h * pr == low * m && a == low + pr * high
    ensures r == (a * (pk * m)) % (pk * pr)
  {
    var q := h + high * m;
    assert a * (pk * m) == pk * ((low + pr * high) * m) by { MulSwap(a, pk, m); }
    assert (low + pr * high) * m == low * m + pr * (high * m);
    assert pk * (t + h * pr + pr * (high * m)) == pk * t + (pk * pr) * (h + high * m) by {
      assert h * pr + pr * (high * m) == pr * (h + high * m);
      MulAssociative(pk, pr, q);
    }
    DivModUnique(a * (pk * m), pk * pr, q, r);
  }

  /** Limb p of a, shifted right by k limbs and s bits, from the first i limbs of a; n = 2^(32-s). */
  function ShrLimb(a: seq<U32>, k: nat, n: nat, i: nat, p: nat): nat {
    (if p + k < i && p + k < |a| then Hi(a[p + k], n) else 0)
    + (if p + k + 1 < i && p + k + 1 < |a| then Lo(a[p + k + 1], n) else 0)
  }

  lemma ShrLimbFits(a: seq<U32>, k: nat, s: nat, i: nat, p: nat)
    requires s < 32
    ensures ShrLimb(a, k, Pow(2, 32 - s), i, p) < WORD
  {
    Pow2Word(s);
    var m, n := Pow(2, s), Pow(2, 32 - s);
    if p + k < |a| { LoHi(a[p + k], n, m); }
    if p + k + 1 < |a| { LoBelow(a[p + k + 1], n, m); }
    assert n <= WORD by { MulMonotone(n, 1, m); }
  }

  /** Dropping the lowest limb of t * 2^(32-s) is dropping the s lowest bits of t. */
  lemma ShrBits(t: seq<U32>, r: seq<U32>, m: nat, n: nat)
    requires m * n == WORD && |r| == |t| > 0
    requires forall p :: 0 <= p < |r| ==> r[p] == ShrLimb(t, 0, n, |t|, p)
    ensures LVal(t) == t[0] % m + m * LVal(r)
  {
    var z: seq<U32>, full: seq<U32> := t + [0], [Lo(t[0], n)] + r;
    FullLimbs(t, r, n);
    ScaledExactly(z, full, n, m);
    ShrSum(t, r, full, Lo(t[0], n), n);
    LowPart(t[0], m, n);
    CancelFactor(LVal(t), t[0] % m, m, LVal(r), n);
  }

  lemma ShrSum(t: seq<U32>, r: seq<U32>, full: seq<U32>, low: U32, n: nat)
    requires full == [low] + r && LVal(full) == LVal(t + [0]) * n
    ensures LVal(t) * n == low + WORD * LVal(r)
  {
    assert full[1..] == r;
    LValAppend(t, 0);
    assert LVal(t + [0]) == LVal(t);
  }

  lemma ScaledExactly(a: seq<U32>, r: seq<U32>, m: nat, n: nat)
    requires m * n == WORD && |a| == |r| > 0 && a[|a| - 1] == 0
    requires forall p :: 0 <= p < |r| ==> r[p] == Scaled(a, m, p)
    ensures LVal(r) == LVal(a) * m
  {
    ScaledValue(a, r, m, n, |a|);
    assert a[..|a|] == a && r[..|a|] == r;
    ZeroScaled(m);
  }

  lemma ZeroScaled(m: nat)
    ensures Hi(0, m) == 0 && Lo(0, m) == 0
  {}

  lemma FullLimbs(t: seq<U32>, r: seq<U32>, n: nat)
    requires |r| == |t| > 0
    requires forall p :: 0 <= p < |r| ==> r[p] == ShrLimb(t, 0, n, |t|, p)
    ensures var z: seq<U32>, full: seq<U32> := t + [0], [Lo(t[0], n)] + r;
      forall p :: 0 <= p < |full| ==> full[p] == Scaled(z, n, p)
  {
    ZeroScaled(n);
    var z: seq<U32>, full: seq<U32> := t + [0], [Lo(t[0], n)] + r;
    forall p | 0 <= p < |full| ensures full[p] == Scaled(z, n, p) {
      if p == 0 {
        assert full[p] == Lo(z[p], n);
      } else {
        var q := p - 1;
        assert full[p] == r[q] && z[q] == t[q];
        assert z[p] == if p < |t| then t[q + 1] else 0;
      }
    }
  }

  lemma LowPart(x: U32, m: nat, n: nat)
    requires m * n == WORD
    ensures Lo(x, n) == (x % m) * n
  {
    LoHi(x, n, m);
    DivFacts(x, m);
    assert x - Hi(x, n) * m == x % m;
  }

  lemma CancelFactor(t: nat, x: nat, m: nat, r: nat, n: nat)
    requires m * n == WORD && n > 0 && t * n == x * n + WORD * r
    ensures t == x + m * r
  {
    assert WORD * r == (m * r) * n by { assert (m * n) * r == (m * r) * n; }
    assert n * (t - x - m * r) == t * n - x * n - (m * r) * n;
    SmallMultipleIsZero(t - x - m * r, n, 0);
  }

  /** The limbs after a right shift hold the number divided by 2^shift. */
  lemma ShrValue(a: seq<U32>, r: seq<U32>, k: nat, s: nat)
    requires s < 32 && |r| == |a|
    requires forall p :: 0 <= p < |r| ==> r[p] == ShrLimb(a, k, Pow(2, 32 - s), |a|, p)
    ensures LVal(r) == LVal(a) / Pow(2, 32 * k + s)
  {
    var w, m, n := |a|, Pow(2, s), Pow(2, 32 - s);
    Pow2Word(s);
    PowAdd(2, 32 * k, s);
    Pow2Limbs(k);
    if k >= w {
      assert r == seq(w, _ => 0);
      LValZeros(w);
      LValBound(a);
      PowMonotone(WORD, w, k);
      assert P(k) <= P(k) * m by { MulMonotone(P(k), 1, m); }
      DivModUnique(LVal(a), P(k) * m, 0, LVal(a));
    } else {
      var t, top: seq<U32> := a[k..], r[..w - k];
      assert r[w - k..] == seq(k, _ => 0);
      LValSplit(r, w - k);
      LValZeros(k);
      forall p | 0 <= p < |top| ensures top[p] == ShrLimb(t, 0, n, |t|, p) {
        assert top[p] == r[p];
      }
      ShrBits(t, top, m, n);
      LValSplit(a, k);
      LValBound(a[..k]);
      DivFacts(t[0], m);
      ShrArithmetic(LVal(a), LVal(a[..k]), P(k), t[0] % m, m, LVal(top));
    }
  }

  lemma ShrArithmetic(a: nat, low: nat, pk: nat, x: nat, m: nat, r: nat)
    requires a == low + pk * (x + m * r) && low < pk && x < m
    ensures a / (pk * m) == r
  {
    assert pk * (x + m * r) == pk * x + (pk * m) * r by { MulAssociative(pk, m, r); }
    MulMonotone(pk, x + 1, m);
    DivModUnique(a, pk * m, r, low + pk * x);
  }
}
