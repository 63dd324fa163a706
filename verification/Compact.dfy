/** Compact difficulty targets: a 32-bit floating form of 256-bit numbers, base 256. */
module Compact {
  import opened Bytes
  import opened Limbs
  import opened BaseUint

  const MANTISSA := 0x80_0000

  // ---- The fields of a code and the number it stands for ----

  function Size(code: U32): (r: nat)
    ensures r < 256
  {
    code / 0x100_0000
  }

  function Mantissa(code: U32): (r: nat)
    ensures r < MANTISSA
  {
    code % MANTISSA
  }

  predicate SignBit(code: U32) {
    code / MANTISSA % 2 == 1
  }

  function Code(size: nat, word: nat): (c: U32)
    requires size < 256 && word < MANTISSA
    ensures Size(c) == size && Mantissa(c) == word && !SignBit(c)
  {
    size * 0x100_0000 + word
  }

  /** The number a code stands for, sign aside: mantissa * 256^(size - 3), rounded down. */
  function Nominal(code: U32): nat {
    var s, w := Size(code), Mantissa(code);
    if s <= 3 then w / Pow(256, 3 - s) else w * Pow(256, s - 3)
  }

  lemma FullWidth()
    ensures P(LIMBS) == Pow(256, 32)
  {
    Pow2Limbs(LIMBS);
    BitsOfBytes(32);
  }

  lemma SmallPowers()
    ensures Pow(256, 0) == 1 && Pow(256, 1) == 256 && Pow(256, 2) == 0x1_0000 && Pow(256, 3) == 0x100_0000
  {}

  /** `SetCompact`: expand a code, reporting the sign and whether the number is too big. */
  method SetCompact(pn: array<U32>, nCompact: U32) returns (negative: bool, overflow: bool)
    requires pn.Length == LIMBS
    modifies pn
    ensures LVal(pn[..]) == Wrap(Nominal(nCompact), LIMBS)
    ensures overflow <==> Nominal(nCompact) >= P(LIMBS)
    ensures negative <==> SignBit(nCompact) && Nominal(nCompact) != 0
  {
    var size, word: nat := nCompact / 0x100_0000, nCompact % MANTISSA;
    word := Expand(pn, size, word);
    assert Nominal(nCompact) == Scaled(size, nCompact % MANTISSA);
    OverflowTest(nCompact, word);
    negative := word != 0 && nCompact / MANTISSA % 2 != 0;
    overflow := word != 0 && (size > 34 || (word > 0xff && size > 33) || (word > 0xffff && size > 32));
  }

  /** The mantissa moved to its place. */
  function Scaled(size: nat, word: nat): nat {
    if size <= 3 then word / Pow(256, 3 - size) else word * Pow(256, size - 3)
  }

  method Expand(pn: array<U32>, size: nat, mantissa: nat) returns (word: nat)
    requires pn.Length == LIMBS && mantissa < MANTISSA
    modifies pn
    ensures LVal(pn[..]) == Wrap(Scaled(size, mantissa), LIMBS)
    ensures word == if size <= 3 then Scaled(size, mantissa) else mantissa
    ensures word != 0 <==> Scaled(size, mantissa) != 0
  {
    word := mantissa;
    if size <= 3 {
      word := Down(word, 8 * (3 - size));
      BitsOfBytes(3 - size);
      SetLow(pn, word);
    } else {
      SetLow(pn, word);
      ShlAssign(pn, 8 * (size - 3));
      BitsOfBytes(size - 3);
      NonZeroProduct(word, Pow(256, size - 3));
    }
    SmallNumberFits(word);
  }

  lemma NonZeroProduct(x: nat, y: nat)
    requires y > 0
    ensures x * y == 0 <==> x == 0
  {
    if x > 0 { MulMonotone(y, 1, x); }
  }

  lemma SmallNumberFits(x: nat)
    requires x < WORD
    ensures Wrap(x, LIMBS) == x
  {
    PowMonotone(WORD, 1, LIMBS);
    assert P(1) == WORD by { assert Pow(WORD, 0) == 1; }
  }

  /** The three-way test on size and mantissa is the test against 2^256. */
  lemma OverflowTest(code: U32, word: nat)
    requires word == if Size(code) <= 3 then Nominal(code) else Mantissa(code)
    ensures word < MANTISSA
    ensures word != 0 && (Size(code) > 34 || (word > 0xff && Size(code) > 33) || (word > 0xffff && Size(code) > 32))
       <==> Nominal(code) >= P(LIMBS)
  {
    FullWidth();
    if Size(code) <= 3 {
      DividedBelow(Mantissa(code), Pow(256, 3 - Size(code)));
      SmallPowers();
      PowMonotone(256, 3, 32);
    } else {
      OverflowBySize(word, Size(code) - 3, 32);
    }
  }

  lemma OverflowBySize(word: nat, e: nat, n: nat)
    requires word < MANTISSA
    ensures word * Pow(256, e) >= Pow(256, n)
       <==> word != 0 && (e >= n || (word > 0xff && e + 1 >= n) || (word > 0xffff && e + 2 >= n))
  {
    if e >= n {
      PowMonotone(256, n, e);
      AtLeastOnce(word, Pow(256, e), Pow(256, n));
    } else {
      PowAdd(256, e, n - e);
      AgainstPower(word, Pow(256, e), Pow(256, n - e));
      MantissaAgainst(word, n - e);
    }
  }

  lemma AtLeastOnce(w: nat, p: nat, q: nat)
    requires 0 < q <= p
    ensures w * p >= q <==> w != 0
  {
    if w > 0 { MulMonotone(p, 1, w); }
  }

  lemma MantissaAgainst(word: nat, f: nat)
    requires word < MANTISSA && f > 0
    ensures word >= Pow(256, f) <==> (word > 0xff && f < 2) || (word > 0xffff && f < 3)
  {
    SmallPowers();
    if f >= 3 { PowMonotone(256, 3, f); }
  }

  lemma DividedBelow(x: nat, p: nat)
    requires p > 0
    ensures 0 <= x / p <= x
  {
    DivFacts(x, p);
    MulMonotone(x / p, 1, p);
  }

  lemma AgainstPower(w: nat, p: nat, r: nat)
    requires p > 0
    ensures w * p >= p * r <==> w >= r
  {
    if w >= r { MulMonotone(p, r, w); } else { MulMonotone(p, w + 1, r); DistributeSum(p, w, 1); }
  }

  /** Plain assignment of a 64-bit number. */
  method SetLow(pn: array<U32>, b: U64)
    requires pn.Length == LIMBS
    modifies pn
    ensures LVal(pn[..]) == b
  {
    SetZero(pn);
    for i := 2 to pn.Length
      invariant forall k :: 2 <= k < i ==> pn[k] == 0
    {
      pn[i] := 0;
    }
    pn[0], pn[1] := b % WORD, b / WORD;
    LowLimbs(pn[..]);
    assert pn[2..] == seq(pn.Length - 2, _ => 0);
    LValZeros(pn.Length - 2);
  }

  lemma LowLimbs(s: seq<U32>)
    requires |s| >= 2
    ensures LVal(s) == s[0] + WORD * s[1] + WORD * WORD * LVal(s[2..])
  {
    assert s[1..][1..] == s[2..];
  }

  // ---- Compressing a number ----

  /** The number of bytes of v. */
  ghost predicate ByteLength(v: nat, k: nat) {
    if v == 0 then k == 0 else k > 0 && Pow(256, k - 1) <= v < Pow(256, k)
  }

  /** The three leading bytes of a number of k bytes, zero-padded below. */
  function LeadingBytes(v: nat, k: nat): nat {
    if k <= 3 then v * Pow(256, 3 - k) else v / Pow(256, k - 3)
  }

  /** The code is canonical: an exact count of base-256 digits, with the sign bit kept clear. */
  ghost predicate Normal(v: nat, code: U32) {
    var s, w := Size(code), Mantissa(code);
    !SignBit(code)
    && (v == 0 ==> s == 0 && w == 0)
    && (v > 0 ==> s > 0 && 0x8000 <= w && w == LeadingBytes(v, s))
  }

  lemma LeadingBytesBounds(v: nat, k: nat)
    requires v > 0 && ByteLength(v, k)
    ensures 0x1_0000 <= LeadingBytes(v, k) < 0x100_0000
  {
    SmallPowers();
    if k <= 3 {
      PowAdd(256, k - 1, 3 - k);
      PowAdd(256, k, 3 - k);
      ScaledAtLeast(Pow(256, k - 1), v, Pow(256, 3 - k));
      ScaledBelow(v, Pow(256, k), Pow(256, 3 - k));
    } else {
      PowAdd(256, 2, k - 3);
      PowAdd(256, 3, k - 3);
      QuotientBounds(v, Pow(256, k - 3), 0x1_0000, 0x100_0000);
    }
  }

  lemma QuotientBounds(v: nat, p: nat, lo: nat, hi: nat)
    requires p > 0 && lo * p <= v < hi * p
    ensures lo <= v / p < hi
  {
    DivFacts(v, p);
    var q := v / p;
    if q < lo { MulMonotone(p, q + 1, lo); DistributeSum(p, q, 1); }
    if q >= hi { MulMonotone(p, hi, q); }
  }

  /** Dropping one more byte of the mantissa is counting one more byte of size. */
  lemma DropByte(v: nat, k: nat)
    ensures LeadingBytes(v, k) / 256 == LeadingBytes(v, k + 1)
  {
    SmallPowers();
    if k < 3 {
      var p := Pow(256, 2 - k);
      assert Pow(256, 3 - k) == 256 * p;
      assert v * (256 * p) == (v * p) * 256;
    } else {
      if k == 3 { assert v / 1 == v; }
      DivideTwice(v, Pow(256, k - 3), 256);
    }
  }

  lemma DivideTwice(v: nat, p: nat, b: nat)
    requires p > 0 && b > 0
    ensures b * p > 0 && (v / p) / b == v / (b * p)
  {
    var q, r := v / p, v % p;
    DivFacts(v, p);
    DivFacts(q, b);
    MulMonotone(p, 1, b);
    assert p * q == p * (b * (q / b)) + p * (q % b) by { DistributeSum(p, b * (q / b), q % b); }
    assert p * (b * (q / b)) == (q / b) * (b * p);
    RemainderFits(p, q % b, b, r);
    DivModUnique(v, b * p, q / b, p * (q % b) + r);
  }

  lemma RemainderFits(p: nat, x: nat, b: nat, r: nat)
    requires x < b && r < p
    ensures p * x + r < b * p
  {
    MulMonotone(p, x + 1, b);
    DistributeSum(p, x, 1);
  }

  /** `GetCompact`: the canonical code of the number held, plus the sign bit when it is asked for. */
  method GetCompact(pn: array<U32>, fNegative: bool) returns (code: U32)
    requires pn.Length == LIMBS
    ensures CodeOf(LVal(pn[..]), fNegative, code)
  {
    var size, compact := TopBytes(pn);
    ghost var v := LVal(pn[..]);
    ghost var c := NormalForm(v, size, compact, fNegative);
    if compact / MANTISSA % 2 != 0 {
      compact := compact / 256;
      size := size + 1;
    }
    FieldsAndSign(compact, size);
    code := Or(compact, size * 0x100_0000);
    if fNegative && code % MANTISSA != 0 {
      code := Or(code, MANTISSA);
    }
    assert code == c;
  }

  /** The code is the canonical one of v, with the sign bit added when asked for and v is not 0. */
  ghost predicate CodeOf(v: nat, negative: bool, code: U32) {
    var sign := if negative && v > 0 then MANTISSA else 0;
    sign <= code && Normal(v, code - sign) && Size(code - sign) <= 33
  }

  /** Of the two ways to cut the leading bytes, the one that keeps the sign bit clear is canonical. */
  lemma NormalForm(v: nat, k: nat, m: nat, negative: bool) returns (c: U32)
    requires v < P(LIMBS) && ByteLength(v, k) && m == LeadingBytes(v, k)
    ensures m < 0x100_0000 && k <= 32 && CodeOf(v, negative, c)
    ensures m / MANTISSA % 2 != 0 <==> m >= MANTISSA
    ensures m < MANTISSA ==> c == Code(k, m) + (if negative && m != 0 then MANTISSA else 0)
    ensures m >= MANTISSA ==> c == Code(k + 1, m / 256) + (if negative then MANTISSA else 0)
  {
    LengthAtMost(v, k);
    LeadingBytesZero(k);
    if v > 0 { LeadingBytesBounds(v, k); }
    DropByte(v, k);
    SignBitSet(m);
    if m < MANTISSA {
      c := WithSign(v, k, m, negative);
    } else {
      c := WithSign(v, k + 1, m / 256, negative);
    }
  }

  lemma SignBitSet(m: nat)
    requires m < 0x100_0000
    ensures m / MANTISSA % 2 != 0 <==> m >= MANTISSA
  {}

  lemma WithSign(v: nat, s: nat, w: nat, negative: bool) returns (c: U32)
    requires s <= 33 && w < MANTISSA && Normal(v, Code(s, w))
    ensures CodeOf(v, negative, c) && c == Code(s, w) + (if negative && v > 0 then MANTISSA else 0)
  {
    c := Code(s, w) + (if negative && v > 0 then MANTISSA else 0);
    assert c - (if negative && v > 0 then MANTISSA else 0) == Code(s, w);
  }

  lemma LengthAtMost(v: nat, k: nat)
    requires v < P(LIMBS) && ByteLength(v, k)
    ensures k <= 32
  {
    FullWidth();
    if k > 32 { PowMonotone(256, 32, k - 1); }
  }

  lemma LeadingBytesZero(k: nat)
    ensures k <= 3 ==> LeadingBytes(0, k) == 0
  {}

  /** The number of bytes and the three leading bytes of the number held. */
  method TopBytes(pn: array<U32>) returns (size: nat, compact: nat)
    requires pn.Length == LIMBS
    ensures LVal(pn[..]) < P(LIMBS) && ByteLength(LVal(pn[..]), size)
    ensures compact == LeadingBytes(LVal(pn[..]), size)
  {
    ghost var v := LVal(pn[..]);
    LValBound(pn[..]);
    var bits := Bits(pn);
    size := (bits + 7) / 8;
    BytesFromBits(v, bits);
    if size <= 3 {
      LowBytesExact(v, size);
      var low := GetLow64(pn);
      ThreeBytesKept(v);
      ThreeBytesKept(LeadingBytes(v, size));
      compact := low * Pow(2, 8 * (3 - size));
      compact := compact % WORD;
    } else {
      LeadingBytesBounds(v, size);
      BitsOfBytes(size - 3);
      var bn := Copy(pn);
      ShrAssign(bn, 8 * (size - 3));
      var low := GetLow64(bn);
      ThreeBytesKept(LeadingBytes(v, size));
      compact := low % WORD;
    }
  }

  lemma ThreeBytesKept(x: nat)
    requires x < 0x100_0000
    ensures x % TWO64 == x && x % WORD == x
  {}

  /** The low 64 bits. */
  method GetLow64(pn: array<U32>) returns (r: U64)
    requires pn.Length >= 2
    ensures r == LVal(pn[..]) % TWO64
  {
    r := pn[0] as int + WORD * pn[1];
    LowLimbs(pn[..]);
  }

  lemma BytesFromBits(v: nat, bits: nat)
    requires bits == 0 <==> v == 0
    requires bits > 0 ==> Pow(2, bits - 1) <= v < Pow(2, bits)
    ensures ByteLength(v, (bits + 7) / 8)
  {
    var k := (bits + 7) / 8;
    if bits > 0 {
      BitsOfBytes(k - 1);
      BitsOfBytes(k);
      PowMonotone(2, 8 * (k - 1), bits - 1);
      PowMonotone(2, bits, 8 * k);
    }
  }

  /** A number of at most three bytes, moved to the top of three bytes, loses nothing. */
  lemma LowBytesExact(v: nat, k: nat)
    requires k <= 3 && ByteLength(v, k)
    ensures v < 0x100_0000 && v * Pow(2, 8 * (3 - k)) == LeadingBytes(v, k) < 0x100_0000
  {
    BitsOfBytes(3 - k);
    SmallPowers();
    PowMonotone(256, k, 3);
    if v > 0 { LeadingBytesBounds(v, k); }
  }

  /** The fields of a code do not overlap: or is addition. */
  lemma FieldsAndSign(word: nat, size: nat)
    requires word < MANTISSA && size < 256
    ensures var c := Or(word, size * 0x100_0000);
      c == Code(size, word) && c % MANTISSA == word && Or(c, MANTISSA) == Code(size, word) + MANTISSA < WORD
  {
    BitsOfBytes(3);
    SmallPowers();
    OrDisjoint(word, size, 24);
    SignPlace();
    OrHigh(word, 2 * size, 23);
  }

  lemma SignPlace()
    ensures Pow(2, 23) == MANTISSA
  {
    BitsOfBytes(3);
    SmallPowers();
    assert Pow(2, 24) == 2 * Pow(2, 23);
  }

  /** Setting bit t of a number whose bit t is clear adds 2^t. */
  lemma {:induction false} OrHigh(word: nat, h: nat, t: nat)
    requires word < Pow(2, t) && h % 2 == 0
    ensures Or(h * Pow(2, t) + word, Pow(2, t)) == h * Pow(2, t) + word + Pow(2, t)
  {
    if t == 0 {
      OrZero(h / 2);
    } else {
      var p := Pow(2, t - 1);
      var y := h * p;
      OrHigh(word / 2, h, t - 1);
      assert h * (2 * p) == 2 * y by { MulSwap(h, 2, p); }
      OrDoubled(2 * y + word, y + word / 2, p);
    }
  }

  lemma OrDoubled(x: nat, half: nat, p: nat)
    requires half == x / 2 && Or(half, p) == half + p
    ensures Or(x, 2 * p) == x + 2 * p
  {
    OrStep(x, p);
  }
}
