/** What compact targets promise: rounding, order and stability of the codes. */
module CompactLaws {
  import opened Bytes
  import opened Limbs
  import opened BaseUint
  import opened Compact

  /** The interval of numbers whose canonical code has size s: a factor 256 wide. */
  lemma SizeInterval(v: nat, c: U32)
    requires v > 0 && Normal(v, c)
    ensures 0x8000 * Pow(256, Size(c)) <= v * 0x100_0000 < 0x8000 * Pow(256, Size(c) + 1)
  {
    var s, w := Size(c), Mantissa(c);
    SmallPowers();
    if s <= 3 {
      PowAdd(256, s, 3 - s);
      ScaledInterval(v, w, Pow(256, s), Pow(256, 3 - s));
    } else {
      PowAdd(256, 3, s - 3);
      QuotientInterval(v, w, Pow(256, s - 3));
    }
  }

  lemma ScaledInterval(v: nat, w: nat, p: nat, r: nat)
    requires r > 0 && w == v * r && p * r == 0x100_0000 && 0x8000 <= w < MANTISSA
    ensures 0x8000 * p <= v * 0x100_0000 < 0x8000 * (256 * p)
  {
    assert v * (p * r) == w * p;
    MulMonotone(p, 0x8000, w);
    assert p > 0 by { NonZeroProduct(p, r); }
    ScaledBelow(w, MANTISSA, p);
  }

  lemma QuotientInterval(v: nat, w: nat, p: nat)
    requires p > 0 && w == v / p && 0x8000 <= w < MANTISSA
    ensures 0x8000 * (0x100_0000 * p) <= v * 0x100_0000 < 0x8000 * (256 * (0x100_0000 * p))
  {
    DivFacts(v, p);
    MulMonotone(p, 0x8000, w);
    MulMonotone(p, w + 1, MANTISSA);
    DistributeSum(p, w, 1);
  }

  /** Compression keeps order. */
  lemma CompressMonotone(v: nat, u: nat, c: U32, d: U32)
    requires v <= u && Normal(v, c) && Normal(u, d)
    ensures c <= d
  {
    if v > 0 {
      SizeInterval(v, c);
      SizeInterval(u, d);
      if Size(d) < Size(c) { PowMonotone(256, Size(d) + 1, Size(c)); }
      if Size(d) == Size(c) { LeadingMonotone(v, u, Size(c)); }
    }
    CodeOrder(c, d);
  }

  lemma LeadingMonotone(v: nat, u: nat, k: nat)
    requires v <= u
    ensures LeadingBytes(v, k) <= LeadingBytes(u, k)
  {
    if k <= 3 {
      ScaledAtLeast(v, u, Pow(256, 3 - k));
    } else {
      var p := Pow(256, k - 3);
      DivFacts(v, p);
      DivFacts(u, p);
      if v / p > u / p { MulMonotone(p, u / p + 1, v / p); DistributeSum(p, u / p, 1); }
    }
  }

  /** Codes without a sign compare as their fields do, size first. */
  lemma CodeOrder(c: U32, d: U32)
    requires !SignBit(c) && !SignBit(d)
    ensures c <= d <==> Size(c) < Size(d) || (Size(c) == Size(d) && Mantissa(c) <= Mantissa(d))
  {
    Fields(c);
    Fields(d);
  }

  lemma Fields(c: U32)
    requires !SignBit(c)
    ensures c == Code(Size(c), Mantissa(c))
  {}

  /** A number has one canonical code. */
  lemma NormalUnique(v: nat, c: U32, d: U32)
    requires Normal(v, c) && Normal(v, d)
    ensures c == d
  {
    CompressMonotone(v, v, c, d);
    CompressMonotone(v, v, d, c);
  }

  /** A canonical code stands for the number rounded down, by less than one part in 2^15, and
      exactly below 2^23. */
  lemma RoundedDown(v: nat, c: U32)
    requires Normal(v, c)
    ensures Nominal(c) <= v
    ensures v > 0 ==> Nominal(c) > 0 && (v - Nominal(c)) * 0x8000 < v
    ensures v < MANTISSA ==> Nominal(c) == v
  {
    var s, w := Size(c), Mantissa(c);
    if v == 0 {
      DividedBelow(w, Pow(256, 3 - s));
    } else if s <= 3 {
      ExactQuotient(v, w, Pow(256, 3 - s));
    } else {
      Rounding(v, w, Pow(256, s - 3));
      PowMonotone(256, 1, s - 3);
      SmallPowers();
      MulMonotone(0x8000, 256, Pow(256, s - 3));
    }
  }

  lemma ExactQuotient(v: nat, w: nat, p: nat)
    requires p > 0 && w == v * p
    ensures w / p == v
  {
    DivModUnique(w, p, v, 0);
  }

  lemma Rounding(v: nat, w: nat, p: nat)
    requires p > 0 && w == v / p && w >= 0x8000
    ensures 0 < w * p <= v && (v - w * p) * 0x8000 < v && v >= 0x8000 * p
  {
    DivFacts(v, p);
    MulMonotone(p, 0x8000, w);
    assert v - w * p < p;
  }

  /** Expanding a canonical code and compressing again gives the code back. */
  lemma CodeStable(v: nat, c: U32)
    requires Normal(v, c)
    ensures Normal(Nominal(c), c)
  {
    var s, w := Size(c), Mantissa(c);
    RoundedDown(v, c);
    if v > 0 {
      if s <= 3 {
        ExactQuotient(v, w, Pow(256, 3 - s));
      } else {
        DivModUnique(w * Pow(256, s - 3), Pow(256, s - 3), w, 0);
      }
    }
  }

  /** `SetCompact` after `GetCompact`: no overflow, the sign as asked for unless the number is 0,
      and the number itself up to the rounding. */
  lemma ExpandOfCompress(v: nat, negative: bool, c: U32)
    requires v < P(LIMBS) && CodeOf(v, negative, c)
    ensures Nominal(c) < P(LIMBS)
    ensures SignBit(c) && Nominal(c) != 0 <==> negative && v > 0
    ensures Nominal(c) <= v && (v > 0 ==> (v - Nominal(c)) * 0x8000 < v)
    ensures v < MANTISSA ==> Nominal(c) == v
  {
    var plain := c - (if negative && v > 0 then MANTISSA else 0);
    SignAside(plain);
    RoundedDown(v, plain);
    assert Nominal(c) == Nominal(plain);
  }

  lemma SignAside(c: U32)
    requires !SignBit(c) && c + MANTISSA < WORD
    ensures SignBit(c + MANTISSA) && Size(c + MANTISSA) == Size(c) && Mantissa(c + MANTISSA) == Mantissa(c)
  {}

  /** `GetCompact` after `SetCompact` is the identity on every code `GetCompact` produces. */
  lemma CompressOfExpand(v: nat, negative: bool, c: U32, d: U32)
    requires CodeOf(v, negative, c) && CodeOf(Nominal(c), negative, d)
    ensures c == d
  {
    var sign := if negative && v > 0 then MANTISSA else 0;
    var plain := c - sign;
    SizeFits(plain);
    SignAside(plain);
    RoundedDown(v, plain);
    CodeStable(v, plain);
    NormalUnique(Nominal(plain), plain, d - sign);
  }

  lemma SizeFits(c: U32)
    requires Size(c) <= 33
    ensures c + MANTISSA < WORD
  {}

  /** Codes keep the order of numbers through a round trip. */
  lemma ExpandMonotone(v: nat, u: nat, c: U32, d: U32)
    requires v <= u && Normal(v, c) && Normal(u, d)
    ensures Nominal(c) <= Nominal(d)
  {
    RoundedDown(v, c);
    CodeStable(v, c);
    CodeStable(u, d);
    CompressMonotone(v, u, c, d);
    if Nominal(c) > Nominal(d) {
      CompressMonotone(Nominal(d), Nominal(c), d, c);
    }
  }
}
