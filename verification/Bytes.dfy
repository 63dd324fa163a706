/** Machine integers, byte strings, positional notation and the byte encodings shared by the codecs. */
module Bytes {

  type Byte = x: int | 0 <= x < 0x100
  type U32 = x: int | 0 <= x < 0x1_0000_0000
  type U64 = x: int | 0 <= x < 0x1_0000_0000_0000_0000
  type I64 = x: int | -0x8000_0000_0000_0000 <= x < 0x8000_0000_0000_0000
  type Bytes32 = s: seq<Byte> | |s| == 32 witness seq(32, _ => 0)

  /** One more than the largest 32-bit word, and than the largest 64-bit one. */
  const WORD := 0x1_0000_0000
  const TWO64 := 0x1_0000_0000_0000_0000

  /** The cast of a signed 64-bit number to an unsigned one, and back. */
  function Unsigned(x: I64): U64 {
    if x < 0 then x as int + TWO64 else x
  }

  function Signed(u: U64): I64 {
    if u < 0x8000_0000_0000_0000 then u else u as int - TWO64
  }

  function Zeros(n: nat): (s: seq<Byte>)
    ensures |s| == n
  {
    seq(n, _ => 0)
  }

  function SumOf(parts: seq<nat>): nat {
    if parts == [] then 0 else SumOf(parts[..|parts| - 1]) + parts[|parts| - 1]
  }

  lemma {:induction false} SumGrows(parts: seq<nat>, i: nat)
    requires i <= |parts|
    ensures SumOf(parts[..i]) <= SumOf(parts)
    decreases |parts| - i
  {
    if i < |parts| {
      SumGrows(parts, i + 1);
      assert parts[..i + 1][..i] == parts[..i];
    } else {
      assert parts[..i] == parts;
    }
  }

  /** The pieces in one string. */
  function Concat(pieces: seq<seq<Byte>>): seq<Byte> {
    if pieces == [] then [] else Concat(pieces[..|pieces| - 1]) + pieces[|pieces| - 1]
  }

  ghost predicate NoDuplicates<T>(s: seq<T>) {
    forall i, j :: 0 <= i < j < |s| ==> s[i] != s[j]
  }

  function Pow(b: nat, e: nat): (r: nat)
    ensures b > 0 ==> r > 0
  {
    if e == 0 then 1 else b * Pow(b, e - 1)
  }

  lemma {:induction false} PowAdd(b: nat, m: nat, n: nat)
    ensures Pow(b, m + n) == Pow(b, m) * Pow(b, n)
  {
    if m > 0 {
      PowAdd(b, m - 1, n);
      MulAssociative(b, Pow(b, m - 1), Pow(b, n));
    }
  }

  lemma MulAssociative(x: nat, y: nat, z: nat)
    ensures x * (y * z) == (x * y) * z
  {}

  lemma {:induction false} PowMonotone(b: nat, m: nat, n: nat)
    requires b > 0 && m <= n
    ensures Pow(b, m) <= Pow(b, n)
  {
    if m < n {
      PowMonotone(b, m, n - 1);
      assert Pow(b, n - 1) <= b * Pow(b, n - 1) by { MulAtLeast(b, Pow(b, n - 1)); }
    }
  }

  lemma MulAtLeast(b: nat, x: nat)
    requires b > 0
    ensures x <= b * x
  {}

  /** Eight bits to the byte. */
  lemma {:induction false} BitsOfBytes(n: nat)
    ensures Pow(2, 8 * n) == Pow(256, n)
  {
    if n > 0 {
      BitsOfBytes(n - 1);
      PowAdd(2, 8, 8 * (n - 1));
      assert Pow(2, 8) == 256 by { assert Pow(2, 4) == 16; }
    }
  }

  // ---- Big-endian positional notation ----

  predicate Digits(s: seq<nat>, b: nat) {
    forall i :: 0 <= i < |s| ==> s[i] < b
  }

  /** The number written by the digits s in base b, most significant first. */
  function Val(s: seq<nat>, b: nat): nat {
    if s == [] then 0 else s[0] * Pow(b, |s| - 1) + Val(s[1..], b)
  }

  lemma {:induction false} ValAppend(s: seq<nat>, d: nat, b: nat)
    ensures Val(s + [d], b) == Val(s, b) * b + d
  {
    if s == [] {
      assert ([d])[1..] == [];
    } else {
      assert (s + [d])[1..] == s[1..] + [d];
      ValAppend(s[1..], d, b);
      var p := Pow(b, |s| - 1);
      assert s[0] * (b * p) + (Val(s[1..], b) * b + d) == (s[0] * p + Val(s[1..], b)) * b + d by {
        MulRegroup(s[0], b, p);
      }
    }
  }

  lemma MulRegroup(x: nat, b: nat, p: nat)
    ensures x * (b * p) == (x * p) * b
  {}

  lemma ValLast(s: seq<nat>, b: nat)
    requires s != []
    ensures Val(s, b) == Val(s[..|s| - 1], b) * b + s[|s| - 1]
  {
    assert s == s[..|s| - 1] + [s[|s| - 1]];
    ValAppend(s[..|s| - 1], s[|s| - 1], b);
  }

  lemma {:induction false} ValConcat(a: seq<nat>, b: seq<nat>, base: nat)
    ensures Val(a + b, base) == Val(a, base) * Pow(base, |b|) + Val(b, base)
  {
    if b == [] {
      assert a + b == a;
    } else {
      var n := |b| - 1;
      assert a + b == (a + b[..n]) + [b[n]];
      ValAppend(a + b[..n], b[n], base);
      ValLast(b, base);
      ValConcat(a, b[..n], base);
      ConcatArithmetic(Val(a, base), Pow(base, n), Val(b[..n], base), base, b[n]);
    }
  }

  lemma ConcatArithmetic(x: nat, p: nat, y: nat, b: nat, d: nat)
    ensures (x * p + y) * b + d == x * (b * p) + (y * b + d)
  {
    assert (x * p + y) * b == (x * p) * b + y * b;
    assert (x * p) * b == x * (b * p);
  }

  lemma {:induction false} ValBound(s: seq<nat>, b: nat)
    requires Digits(s, b) && b > 0
    ensures Val(s, b) < Pow(b, |s|)
  {
    if s != [] {
      var n := |s| - 1;
      ValLast(s, b);
      ValBound(s[..n], b);
      LessByOne(Val(s[..n], b), Pow(b, n), b, s[n]);
    }
  }

  lemma LessByOne(v: nat, p: nat, b: nat, d: nat)
    requires v < p && d < b
    ensures v * b + d < b * p
  {
    assert (v + 1) * b <= p * b;
  }

  lemma {:induction false} ValZeros(n: nat, s: seq<nat>, b: nat)
    ensures Val(seq(n, _ => 0) + s, b) == Val(s, b)
  {
    var z := seq(n, _ => 0);
    if n == 0 {
      assert z + s == s;
    } else {
      assert (z + s)[1..] == seq(n - 1, _ => 0) + s;
      ValZeros(n - 1, s, b);
    }
  }

  /** The n low bytes of v, most significant first. */
  function BE(v: nat, n: nat): (s: seq<Byte>)
    ensures |s| == n
  {
    if n == 0 then [] else BE(v / 256, n - 1) + [v % 256]
  }

  /** Byte strings of one length are determined by their value. */
  lemma {:induction false} BEofVal(s: seq<Byte>)
    ensures BE(Val(s, 256), |s|) == s
  {
    if s != [] {
      var n := |s| - 1;
      ValLast(s, 256);
      BEofVal(s[..n]);
      LowByte(s[n], Val(s[..n], 256));
      assert s == s[..n] + [s[n]];
    }
  }

  lemma {:induction false} ValOfBE(v: nat, n: nat)
    requires v < Pow(256, n)
    ensures Val(BE(v, n), 256) == v
  {
    if n > 0 {
      ValOfBE(v / 256, n - 1);
      ValAppend(BE(v / 256, n - 1), v % 256, 256);
    }
  }

  // ---- Division facts for symbolic divisors ----

  lemma DivFacts(v: nat, b: nat)
    requires b > 0
    ensures v / b >= 0 && 0 <= v % b < b && v == b * (v / b) + v % b
  {}

  lemma MulMonotone(b: nat, x: int, y: int)
    requires x <= y
    ensures b * x <= b * y
  {}

  lemma SmallMultipleIsZero(x: int, b: nat, r: int)
    requires b > 0 && b * x == r && -(b as int) < r < b
    ensures x == 0
  {
    if x >= 1 { MulMonotone(b, 1, x); }
    if x <= -1 { MulMonotone(b, x, -1); }
  }

  /** Quotient and remainder are determined by their defining equation. */
  lemma DivModUnique(v: nat, b: nat, q: int, r: nat)
    requires r < b && v == q * b + r
    ensures v / b == q && v % b == r
  {
    var d, m := v / b, v % b;
    DivFacts(v, b);
    assert b * (d - q) == b * d - b * q;
    SmallMultipleIsZero(d - q, b, r - m);
  }

  /** Adding a multiple of b keeps the remainder. */
  lemma SameRemainder(x: nat, y: nat, b: nat)
    requires b > 0 && x % b == 0
    ensures (x + y) % b == y % b
  {
    DivFacts(x, b);
    DivFacts(y, b);
    assert b * (x / b + y / b) == b * (x / b) + b * (y / b);
    DivModUnique(x + y, b, x / b + y / b, y % b);
  }

  // ---- Little-endian byte encodings ----

  /** The n low bytes of v, least significant first. */
  function LE(v: nat, n: nat): (s: seq<Byte>)
    ensures |s| == n
  {
    if n == 0 then [] else [v % 256] + LE(v / 256, n - 1)
  }

  function FromLE(s: seq<Byte>): nat {
    if s == [] then 0 else s[0] + 256 * FromLE(s[1..])
  }

  lemma {:induction false} FromLEofLE(v: nat, n: nat)
    requires v < Pow(256, n)
    ensures FromLE(LE(v, n)) == v
  {
    if n > 0 {
      FromLEofLE(v / 256, n - 1);
      assert LE(v, n)[1..] == LE(v / 256, n - 1);
    }
  }

  lemma {:induction false} LEofFromLE(s: seq<Byte>)
    ensures LE(FromLE(s), |s|) == s
  {
    if s != [] {
      LEofFromLE(s[1..]);
      LowByte(s[0], FromLE(s[1..]));
    }
  }

  lemma LowByte(d: Byte, rest: nat)
    ensures (d + 256 * rest) % 256 == d && (d + 256 * rest) / 256 == rest
  {}

  lemma {:induction false} FromLEBound(s: seq<Byte>)
    ensures FromLE(s) < Pow(256, |s|)
  {
    if s != [] {
      FromLEBound(s[1..]);
    }
  }
}
