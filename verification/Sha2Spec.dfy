/** SHA-2 hashing of byte strings as FIPS 180-4 defines it: padding (section 5.1), parsing into
    blocks (section 5.2) and the chain of compressions (sections 6.2.2 and 6.4.2). */
module Sha2Spec {
  import opened Bytes
  import opened Sha2

  /** The block length in bytes. */
  function BlockLength(v: Variant): nat {
    if v.n == 4 then 64 else 128
  }

  /** How many bytes of a message of this length lie in an incomplete last block. */
  function Used(v: Variant, len: nat): (r: nat)
    ensures r < BlockLength(v) && r <= len
  {
    if v.n == 4 then len % 64 else len % 128
  }

  /** Whole blocks in front change nothing. */
  lemma UsedAfter(v: Variant, x: nat, y: nat)
    requires Used(v, x) == 0
    ensures Used(v, x + y) == Used(v, y)
  {
    if v.n == 4 { SameRemainder(x, y, 64); } else { SameRemainder(x, y, 128); }
  }

  lemma UsedRemainder(v: Variant, x: nat)
    ensures Used(v, x - Used(v, x)) == 0
  {
    if v.n == 4 { DivModUnique(x - x % 64, 64, x / 64, 0); } else { DivModUnique(x - x % 128, 128, x / 128, 0); }
  }

  /** Big-endian word i of a block. */
  function WordAt(n: nat, b: seq<Byte>, i: nat): nat
    requires i * n + n <= |b|
  {
    Val(b[i * n..i * n + n], 256)
  }

  function Words(v: Variant, b: seq<Byte>): (w: seq<nat>)
    requires v.n == 4 || v.n == 8
    requires |b| == BlockLength(v)
    ensures |w| == 16
  {
    seq(16, i requires 0 <= i < 16 => WordAt(v.n, b, i))
  }

  /** The state after compressing every block of m. */
  function Absorb(v: Variant, s: seq<nat>, m: seq<Byte>): (r: seq<nat>)
    requires v.n == 4 || v.n == 8
    requires |s| == 8 && Used(v, |m|) == 0
    ensures |r| == 8
  {
    if m == [] then s
    else
      var k := |m| - BlockLength(v);
      Compress(v, Absorb(v, s, m[..k]), Words(v, m[k..]))
  }

  lemma SplitTail(a: seq<Byte>, b: seq<Byte>, k: nat)
    requires k <= |b|
    ensures a + b == (a + b[..k]) + b[k..]
  {}

  lemma {:induction false} AbsorbConcat(v: Variant, s: seq<nat>, a: seq<Byte>, b: seq<Byte>)
    requires v.n == 4 || v.n == 8
    requires |s| == 8 && Used(v, |a|) == 0 && Used(v, |b|) == 0
    ensures Used(v, |a + b|) == 0
    ensures Absorb(v, s, a + b) == Absorb(v, Absorb(v, s, a), b)
  {
    UsedAfter(v, |a|, |b|);
    if b == [] {
      assert a + b == a;
    } else {
      var k := |b| - BlockLength(v);
      AbsorbConcat(v, s, a, b[..k]);
      SplitTail(a, b, k);
      AbsorbBlock(v, s, a + b[..k], b[k..]);
      AbsorbBlock(v, Absorb(v, s, a), b[..k], b[k..]);
      assert b == b[..k] + b[k..];
    }
  }

  /** One more block. */
  lemma AbsorbBlock(v: Variant, s: seq<nat>, m: seq<Byte>, block: seq<Byte>)
    requires v.n == 4 || v.n == 8
    requires |s| == 8 && Used(v, |m|) == 0 && |block| == BlockLength(v)
    ensures Used(v, |m + block|) == 0
    ensures Absorb(v, s, m + block) == Compress(v, Absorb(v, s, m), Words(v, block))
  {
    UsedAfter(v, |m|, |block|);
    assert (m + block)[..|m|] == m && (m + block)[|m|..] == block;
  }

  // ---- Padding ----

  /** The number of zero bytes after the byte 0x80. */
  function ZeroBytes(v: Variant, len: nat): nat
    requires v.n == 4 || v.n == 8
  {
    var short := BlockLength(v) - 2 * v.n;
    if Used(v, len) + 1 <= short then short - Used(v, len) - 1
    else BlockLength(v) + short - Used(v, len) - 1
  }

  /** It is the least number that completes a block. */
  lemma ZeroBytesLeast(v: Variant, len: nat, k: nat)
    requires v.n == 4 || v.n == 8
    ensures Used(v, len + 1 + ZeroBytes(v, len) + 2 * v.n) == 0
    ensures k < ZeroBytes(v, len) ==> Used(v, len + 1 + k + 2 * v.n) != 0
  {
    var u := Used(v, len);
    UsedRemainder(v, len);
    UsedAfter(v, len - u, u + 1 + ZeroBytes(v, len) + 2 * v.n);
    UsedAfter(v, len - u, u + 1 + k + 2 * v.n);
  }

  /** A one bit, zeros, and the length in bits as two words. */
  function Padding(v: Variant, len: nat): seq<Byte>
    requires v.n == 4 || v.n == 8
  {
    [0x80] + Zeros(ZeroBytes(v, len)) + LengthField(v, len)
  }

  /** The low two words of the length in bits, big-endian. */
  function LengthField(v: Variant, len: nat): (s: seq<Byte>)
    ensures |s| == 2 * v.n
  {
    seq(2 * v.n, i requires 0 <= i < 2 * v.n => BE(8 * len, 2 * v.n)[i])
  }

  lemma LengthFieldBytes(v: Variant, len: nat)
    ensures LengthField(v, len) == BE(8 * len, 2 * v.n)
  {}

  function Digest(v: Variant, s: seq<nat>): seq<Byte> {
    if s == [] then [] else Digest(v, s[..|s| - 1]) + BE(s[|s| - 1], v.n)
  }

  lemma PaddedLength(v: Variant, before: nat, m: seq<Byte>)
    requires v.n == 4 || v.n == 8
    requires Used(v, before) == 0
    ensures Used(v, |m + Padding(v, before + |m|)|) == 0
  {
    var z := ZeroBytes(v, before + |m|);
    ZeroBytesLeast(v, before + |m|, 0);
    UsedAfter(v, before, |m| + 1 + z + 2 * v.n);
    assert |Padding(v, before + |m|)| == 1 + z + 2 * v.n;
  }

  /** The hash of a message whose first `before` bytes were absorbed into s already. */
  function HashFrom(v: Variant, s: seq<nat>, before: nat, m: seq<Byte>): seq<Byte>
    requires v.n == 4 || v.n == 8
    requires |s| == 8 && Used(v, before) == 0
  {
    PaddedLength(v, before, m);
    Finish(v, s, m, Padding(v, before + |m|))
  }

  function Finish(v: Variant, s: seq<nat>, m: seq<Byte>, pad: seq<Byte>): seq<Byte>
    requires v.n == 4 || v.n == 8
    requires |s| == 8 && Used(v, |m + pad|) == 0
  {
    Digest(v, Absorb(v, s, m + pad))
  }

  function Hash(v: Variant, m: seq<Byte>): seq<Byte>
    requires v.n == 4 || v.n == 8
    requires |v.iv| == 8
  {
    HashFrom(v, v.iv, 0, m)
  }

  /** Hashing can resume from a stored state after any whole number of blocks. */
  lemma HashResumes(v: Variant, prefix: seq<Byte>, m: seq<Byte>)
    requires v.n == 4 || v.n == 8
    requires |v.iv| == 8 && Used(v, |prefix|) == 0
    ensures Hash(v, prefix + m) == HashFrom(v, Absorb(v, v.iv, prefix), |prefix|, m)
  {
    var len := |prefix| + |m|;
    HashIsFinish(v, v.iv, 0, prefix + m, len);
    HashIsFinish(v, Absorb(v, v.iv, prefix), |prefix|, m, len);
    FinishResumes(v, prefix, m, Padding(v, len));
  }

  lemma HashIsFinish(v: Variant, s: seq<nat>, before: nat, m: seq<Byte>, len: nat)
    requires v.n == 4 || v.n == 8
    requires |s| == 8 && Used(v, before) == 0 && len == before + |m|
    ensures Used(v, |m + Padding(v, len)|) == 0
    ensures HashFrom(v, s, before, m) == Finish(v, s, m, Padding(v, len))
  {
    PaddedLength(v, before, m);
  }

  lemma FinishResumes(v: Variant, prefix: seq<Byte>, m: seq<Byte>, pad: seq<Byte>)
    requires v.n == 4 || v.n == 8
    requires |v.iv| == 8 && Used(v, |prefix|) == 0 && Used(v, |m + pad|) == 0 && Used(v, |(prefix + m) + pad|) == 0
    ensures Finish(v, v.iv, prefix + m, pad) == Finish(v, Absorb(v, v.iv, prefix), m, pad)
  {
    AbsorbConcat(v, v.iv, prefix, m + pad);
    assert (prefix + m) + pad == prefix + (m + pad);
  }

  /** Distinct messages have distinct padded forms, as long as the length field does not overflow. */
  lemma PaddingUnambiguous(v: Variant, m: seq<Byte>, m': seq<Byte>)
    requires v.n == 4 || v.n == 8
    requires m + Padding(v, |m|) == m' + Padding(v, |m'|)
    requires 8 * |m| < Pow(256, 2 * v.n) && 8 * |m'| < Pow(256, 2 * v.n)
    ensures m == m'
  {
    var x, y := m + Padding(v, |m|), m' + Padding(v, |m'|);
    var k := |x| - 2 * v.n;
    assert x[k..] == LengthField(v, |m|) && y[k..] == LengthField(v, |m'|);
    LengthFieldBytes(v, |m|);
    LengthFieldBytes(v, |m'|);
    ValOfBE(8 * |m|, 2 * v.n);
    ValOfBE(8 * |m'|, 2 * v.n);
    assert x[..|m|] == m && y[..|m'|] == m';
  }

  // ---- Byte forms of long counts ----

  lemma {:induction false} BEConcat(h: nat, l: nat, a: nat, b: nat)
    requires l < Pow(256, b)
    ensures BE(h * Pow(256, b) + l, a + b) == BE(h, a) + BE(l, b)
  {
    if b > 0 {
      var p := Pow(256, b - 1);
      ShiftByte(h, p, l);
      BEConcat(h, l / 256, a, b - 1);
    } else {
      assert BE(h * Pow(256, b) + l, a + b) == BE(h, a);
    }
  }

  lemma ShiftByte(h: nat, p: nat, l: nat)
    ensures h * (256 * p) + l >= 0
    ensures (h * (256 * p) + l) / 256 == h * p + l / 256 && (h * (256 * p) + l) % 256 == l % 256
  {
    assert h * (256 * p) == 256 * (h * p);
  }

  /** Only the low bytes count. */
  lemma {:induction false} BEModulo(x: nat, w: nat, n: nat)
    ensures BE(x + w * Pow(256, n), n) == BE(x, n)
  {
    if n > 0 {
      var p := Pow(256, n - 1);
      ShiftByte(w, p, x);
      BEModulo(x / 256, w, n - 1);
    }
  }
}
