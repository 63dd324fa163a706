/** The rolling minimum fee rate of the pool: raised by evictions, decaying once a block came since. */
module RollingFee {
  import opened Bytes
  import opened PoolModel
  import opened PoolGraph

  const ROLLING_FEE_HALFLIFE := 12 * 3600

  /** The rate, when it was last set, and whether a block was connected since the last eviction that raised it. */
  datatype Rolling = Rolling(rate: real, updated: int, blockSince: bool)

  /** llround of a non-negative rate. */
  function Round(x: real): int { (x + 0.5).Floor }

  function Max(a: int, b: int): int { if a < b then b else a }

  ghost predicate AddsUp(power: real -> real, x: real, y: real) {
    power(x + y) == power(x) * power(y)
  }

  /** Two to the power of a number, by the laws that single it out. */
  ghost predicate IsPowerOfTwo(power: real -> real) {
    && power(1.0) == 2.0
    && (forall x: real :: x >= 0.0 ==> power(x) >= 1.0)
    && forall x, y :: AddsUp(power, x, y)
  }

  /** The emptier the pool, the faster the decay. */
  function Halflife(bytes: nat, maxBytes: nat): (h: real)
    ensures h > 0.0
  {
    var h := ROLLING_FEE_HALFLIFE as real;
    if bytes < maxBytes / 4 then h / 4.0 else if bytes < maxBytes / 2 then h / 2.0 else h
  }

  /** How many halflives have passed, for the power of two to divide by. */
  function Elapsed(f: Rolling, bytes: nat, maxBytes: nat, now: int): real {
    (now - f.updated) as real / Halflife(bytes, maxBytes)
  }

  lemma ElapsedPositive(f: Rolling, bytes: nat, maxBytes: nat, now: int)
    requires now >= f.updated
    ensures Elapsed(f, bytes, maxBytes, now) >= 0.0
  {}

  ghost predicate Decaying(f: Rolling, now: int) {
    f.blockSince && f.rate != 0.0 && now > f.updated + 10
  }

  /** The rate after a decay, forgotten below half an increment. */
  ghost function Decayed(f: Rolling, bytes: nat, maxBytes: nat, now: int, power: real -> real): Rolling
    requires IsPowerOfTwo(power)
  {
    if !Decaying(f, now) then f
    else
      ElapsedPositive(f, bytes, maxBytes, now);
      var rate := f.rate / power(Elapsed(f, bytes, maxBytes, now));
      Rolling(if rate < INCREMENTAL_FEE_PER_K as real / 2.0 then 0.0 else rate, now, true)
  }

  /** The rate a newcomer has to pay. */
  ghost function Asked(f: Rolling, bytes: nat, maxBytes: nat, now: int, power: real -> real): int
    requires IsPowerOfTwo(power)
  {
    var d := Decayed(f, bytes, maxBytes, now, power);
    if !f.blockSince || d.rate == 0.0 then Round(d.rate) else Max(Round(d.rate), INCREMENTAL_FEE_PER_K)
  }

  lemma DecayNeverRaises(f: Rolling, bytes: nat, maxBytes: nat, now: int, power: real -> real)
    requires IsPowerOfTwo(power) && f.rate >= 0.0
    ensures 0.0 <= Decayed(f, bytes, maxBytes, now, power).rate <= f.rate
  {
    if Decaying(f, now) {
      ElapsedPositive(f, bytes, maxBytes, now);
      Quotient(f.rate, power(Elapsed(f, bytes, maxBytes, now)));
    }
  }

  lemma Quotient(x: real, p: real)
    requires x >= 0.0 && p >= 1.0
    ensures 0.0 <= x / p <= x
  {}

  /** After one halflife half of the rate is left. */
  lemma HalvedByHalflife(f: Rolling, bytes: nat, maxBytes: nat, now: int, power: real -> real)
    requires IsPowerOfTwo(power) && Decaying(f, now) && Elapsed(f, bytes, maxBytes, now) == 1.0
    ensures var half := f.rate / 2.0;
      Decayed(f, bytes, maxBytes, now, power).rate == if half < INCREMENTAL_FEE_PER_K as real / 2.0 then 0.0 else half
  {}

  /** However often the rate is asked for, it decays the same: a decay in between changes nothing later. */
  lemma DecayInSteps(f: Rolling, bytes: nat, maxBytes: nat, mid: int, now: int, power: real -> real)
    requires IsPowerOfTwo(power) && f.rate >= 0.0 && mid + 10 < now
    ensures Decayed(Decayed(f, bytes, maxBytes, mid, power), bytes, maxBytes, now, power).rate
      == Decayed(f, bytes, maxBytes, now, power).rate
  {
    if Decaying(f, mid) {
      var first := Decayed(f, bytes, maxBytes, mid, power);
      var h := Halflife(bytes, maxBytes);
      var x, y := Elapsed(f, bytes, maxBytes, mid), (now - mid) as real / h;
      ElapsedPositive(f, bytes, maxBytes, mid);
      Shares((mid - f.updated) as real, (now - mid) as real, h);
      assert AddsUp(power, x, y);
      assert y >= 0.0 by { NotNegative((now - mid) as real, h); }
      Divided(f.rate, power(x), power(y));
      Quotient(f.rate / power(x), power(y));
    }
  }

  lemma Shares(a: real, b: real, h: real)
    requires h > 0.0
    ensures a / h + b / h == (a + b) / h
  {}

  lemma NotNegative(a: real, h: real)
    requires a >= 0.0 && h > 0.0
    ensures a / h >= 0.0
  {}

  lemma Divided(r: real, p: real, q: real)
    requires r >= 0.0 && p >= 1.0 && q >= 1.0
    ensures p * q != 0.0 && r / p / q == r / (p * q) && r / p >= 0.0
  {}

  /** An eviction at this rate makes coming back cost an increment more. */
  function Bumped(f: Rolling, evictedRate: int, now: int): Rolling {
    var bumped := (evictedRate + INCREMENTAL_FEE_PER_K) as real;
    if bumped > f.rate then Rolling(bumped, now, false) else f
  }

  /** The rolling rate after trimming: raised by the cheapest entry of each turn. */
  ghost function TrimmedFee(ix: Index, maxBytes: nat, f: Rolling, now: int): Rolling
    requires Numbered(ix)
    decreases |ix|
  {
    if SumSizes(ix) <= maxBytes || ix == map[] then f
    else
      var c := Cheapest(ix);
      CheapestExists(ix);
      DescendantsInPool(ix, c);
      RemovalShrinks(ix, Descendants(ix, c), c);
      TrimmedFee(ix - Descendants(ix, c), maxBytes, Bumped(f, ix[c].feePerK, now), now)
  }

  lemma TrimFeeUnfold(ix: Index, maxBytes: nat, f: Rolling, now: int, h: Bytes32)
    requires Numbered(ix) && IsCheapest(ix, h) && SumSizes(ix) > maxBytes
    ensures var left := ix - Descendants(ix, h);
      && Numbered(left) && |left| < |ix|
      && TrimmedFee(left, maxBytes, Bumped(f, ix[h].feePerK, now), now) == TrimmedFee(ix, maxBytes, f, now)
  {
    CheapestUnique(ix, h);
    DescendantsInPool(ix, h);
    RemovalShrinks(ix, Descendants(ix, h), h);
  }

  lemma {:induction false} FeeNeverFalls(ix: Index, maxBytes: nat, f: Rolling, now: int)
    requires Numbered(ix)
    ensures TrimmedFee(ix, maxBytes, f, now).rate >= f.rate
    decreases |ix|
  {
    if !(SumSizes(ix) <= maxBytes || ix == map[]) {
      var c := Cheapest(ix);
      CheapestExists(ix);
      TrimFeeUnfold(ix, maxBytes, f, now, c);
      FeeNeverFalls(ix - Descendants(ix, c), maxBytes, Bumped(f, ix[c].feePerK, now), now);
    }
  }

  /** Whatever was evicted went with an entry that pays less than every survivor, and coming back at the rate
      of that entry is refused: the rolling rate is at least an increment above it. */
  lemma {:induction false} FeeAboveEvicted(ix: Index, maxBytes: nat, f: Rolling, now: int, e: Bytes32)
    requires Numbered(ix) && e in ix && e !in Trimmed(ix, maxBytes)
    ensures exists root ::
      (EvictedFor(ix, Trimmed(ix, maxBytes), e, root)
       && TrimmedFee(ix, maxBytes, f, now).rate >= (ix[root].feePerK + INCREMENTAL_FEE_PER_K) as real)
    decreases |ix|
  {
    var out, c := Trimmed(ix, maxBytes), Cheapest(ix);
    CheapestExists(ix);
    assert IsCheapest(ix, c);
    var cut := Descendants(ix, c);
    var left, g := ix - cut, Bumped(f, ix[c].feePerK, now);
    DescendantsInPool(ix, c);
    TrimUnfold(ix, maxBytes, c);
    TrimFeeUnfold(ix, maxBytes, f, now, c);
    TrimFitsAndNeverOrphans(left, maxBytes);
    if e in cut {
      FeeNeverFalls(left, maxBytes, g, now);
      assert EvictedFor(ix, out, e, c);
    } else {
      FeeAboveEvicted(left, maxBytes, g, now, e);
      var root :| EvictedFor(left, out, e, root)
        && TrimmedFee(left, maxBytes, g, now).rate >= (left[root].feePerK + INCREMENTAL_FEE_PER_K) as real;
      DescendantsShrink(ix, cut, root);
      assert EvictedFor(ix, out, e, root);
    }
  }
}
