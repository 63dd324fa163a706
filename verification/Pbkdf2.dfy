/** PBKDF2 over HMAC-SHA-2: the definition (section 5.2 of RFC 8018) and the form that works on
    precomputed states, one compression per hash. */
module Pbkdf2 {
  import opened Bytes
  import opened Bits
  import opened Sha2
  import opened Sha2Spec
  import opened Hmac
  import Sha2Context

  // ---- Definition ----

  /** The j-th iterate U_j for block i. */
  ghost function Iterate(v: Variant, pass: seq<Byte>, salt: seq<Byte>, i: nat, j: nat): (u: seq<Byte>)
    requires Lawful(v) && j >= 1
    ensures |u| == 8 * v.n
  {
    if j == 1 then MacOf(v, pass, salt + BE(i, 4)) else MacOf(v, pass, Iterate(v, pass, salt, i, j - 1))
  }

  /** The MAC, byte by byte: its length shows, and the hashes behind it stay out of sight. */
  ghost function MacOf(v: Variant, key: seq<Byte>, m: seq<Byte>): (u: seq<Byte>)
    requires Lawful(v)
    ensures |u| == 8 * v.n
  {
    seq(8 * v.n, i requires 0 <= i < 8 * v.n => MacByte(v, key, m, i))
  }

  ghost function MacByte(v: Variant, key: seq<Byte>, m: seq<Byte>, i: nat): Byte
    requires Lawful(v) && i < 8 * v.n
  {
    MacLength(v, key, m);
    Mac(v, key, m)[i]
  }

  lemma MacLength(v: Variant, key: seq<Byte>, m: seq<Byte>)
    requires Lawful(v)
    ensures |Mac(v, key, m)| == 8 * v.n
  {
    var k := KeyBlock(v, key);
    HashLength(v, PadKey(k, OPAD) + Hash(v, PadKey(k, IPAD) + m));
  }

  lemma MacOfIsMac(v: Variant, key: seq<Byte>, m: seq<Byte>)
    requires Lawful(v)
    ensures MacOf(v, key, m) == Mac(v, key, m)
  {
    MacLength(v, key, m);
  }

  /** Block i of the key: the exclusive or of the first c iterates. */
  ghost function Mixed(v: Variant, pass: seq<Byte>, salt: seq<Byte>, i: nat, c: nat): (t: seq<Byte>)
    requires Lawful(v) && c >= 1
    ensures |t| == 8 * v.n
  {
    if c == 1 then Iterate(v, pass, salt, i, 1)
    else XorBytes(Mixed(v, pass, salt, i, c - 1), Iterate(v, pass, salt, i, c))
  }

  /** The first l blocks of the key, in order. */
  ghost function Blocks(v: Variant, pass: seq<Byte>, salt: seq<Byte>, c: nat, l: nat): (t: seq<Byte>)
    requires Lawful(v) && c >= 1
    ensures |t| == l * (8 * v.n)
  {
    if l == 0 then []
    else
      OneMore(l - 1, 8 * v.n);
      Blocks(v, pass, salt, c, l - 1) + Mixed(v, pass, salt, l, c)
  }

  lemma OneMore(l: nat, d: nat)
    ensures l * d + d == (l + 1) * d
  {}

  // ---- Hashing a digest after one block takes one compression ----

  /** The padding words after eight words of message that follow one block. */
  function Tail(v: Variant): (t: seq<nat>)
    ensures |t| == 8
  {
    if v.n == 4 then [0x8000_0000, 0, 0, 0, 0, 0, 0, (64 + 32) * 8]
    else [0x8000_0000_0000_0000, 0, 0, 0, 0, 0, 0, (128 + 64) * 8]
  }

  ghost predicate Words8(v: Variant, w: seq<nat>) {
    |w| == 8 && forall i :: 0 <= i < 8 ==> w[i] < Pow(256, v.n)
  }

  lemma {:induction false} DigestAt(v: Variant, w: seq<nat>, i: nat)
    requires i < |w|
    ensures i * v.n + v.n <= |Digest(v, w)| && Digest(v, w)[i * v.n..i * v.n + v.n] == BE(w[i], v.n)
  {
    var k := |w| - 1;
    DigestLength(v, w);
    DigestLength(v, w[..k]);
    OneMore(k, v.n);
    if i < k {
      DigestAt(v, w[..k], i);
    }
  }

  /** A digest read back as words. */
  lemma DigestWord(v: Variant, w: seq<nat>, i: nat)
    requires Words8(v, w) && i < 8
    ensures i * v.n + v.n <= |Digest(v, w)| && WordAt(v.n, Digest(v, w), i) == w[i]
  {
    DigestAt(v, w, i);
    ValOfBE(w[i], v.n);
  }

  /** Bytes cut into words and put together again. */
  lemma {:induction false} DigestOfWords(v: Variant, d: seq<Byte>, w: seq<nat>)
    requires |d| == |w| * v.n
    requires forall i :: 0 <= i < |w| ==> i * v.n + v.n <= |d| && w[i] == WordAt(v.n, d, i)
    ensures Digest(v, w) == d
  {
    if w != [] {
      var k := |w| - 1;
      OneMore(k, v.n);
      WordsOfPrefix(v.n, d, w);
      DigestOfWords(v, d[..k * v.n], w[..k]);
      BEofVal(d[k * v.n..]);
      assert d[k * v.n..k * v.n + v.n] == d[k * v.n..];
      assert d == d[..k * v.n] + d[k * v.n..];
    }
  }

  lemma WordsOfPrefix(n: nat, d: seq<Byte>, w: seq<nat>)
    requires w != [] && |d| == |w| * n && (|w| - 1) * n <= |d|
    requires forall i :: 0 <= i < |w| ==> i * n + n <= |d| && w[i] == WordAt(n, d, i)
    ensures var k := |w| - 1;
      forall i :: 0 <= i < k ==> i * n + n <= k * n && w[i] == WordAt(n, d[..k * n], i)
  {
    var k := |w| - 1;
    forall i | 0 <= i < k
      ensures i * n + n <= k * n && w[i] == WordAt(n, d[..k * n], i)
    {
      IndexFits(i, k, n);
      WordInPrefix(n, d, k * n, i);
    }
  }

  lemma IndexFits(i: nat, k: nat, n: nat)
    requires i < k
    ensures i * n + n <= k * n
  {
    MulMonotone(n, i + 1, k);
    OneMore(i, n);
  }

  lemma WordInPrefix(n: nat, d: seq<Byte>, m: nat, i: nat)
    requires i * n + n <= m <= |d|
    ensures WordAt(n, d[..m], i) == WordAt(n, d, i)
  {
    SliceOfPrefix(d, m, i * n, i * n + n);
  }

  lemma SliceOfPrefix(d: seq<Byte>, m: nat, lo: nat, hi: nat)
    requires lo <= hi <= m <= |d|
    ensures d[..m][lo..hi] == d[lo..hi]
  {}

  lemma TailBytes(v: Variant, len: nat, zeros: nat)
    requires (v.n == 4 || v.n == 8) && len == BlockLength(v) + 8 * v.n && zeros == 6 * v.n - 1
    ensures Padding(v, len) == [0x80] + Zeros(zeros) + BE(8 * len, 2 * v.n)
  {
    LengthFieldBytes(v, len);
    assert ZeroBytes(v, len) == zeros;
  }

  /** The words of the padding. */
  lemma TailWords(v: Variant)
    requires v.n == 4 || v.n == 8
    ensures var p := Padding(v, BlockLength(v) + 8 * v.n);
      |p| == 8 * v.n && forall i :: 0 <= i < 8 ==> i * v.n + v.n <= |p| && WordAt(v.n, p, i) == Tail(v)[i]
  {
    var len := BlockLength(v) + 8 * v.n;
    var p := Padding(v, len);
    TailBytes(v, len, 6 * v.n - 1);
    TopBytes();
    TailFrom(v.n, p, Tail(v), 8 * len);
  }

  lemma {:induction false} ValOfZeros(n: nat)
    ensures Val(Zeros(n), 256) == 0
  {
    if n > 0 {
      ValLast(Zeros(n), 256);
      assert Zeros(n)[..n - 1] == Zeros(n - 1);
      ValOfZeros(n - 1);
    }
  }

  /** 0x80 and zeros as one word. */
  lemma ValTopByte(n: nat)
    requires n > 0
    ensures Val([0x80] + Zeros(n - 1), 256) == 0x80 * Pow(256, n - 1)
  {
    assert ([0x80] + Zeros(n - 1))[1..] == Zeros(n - 1);
    ValOfZeros(n - 1);
  }

  lemma TopBytes()
    ensures Pow(256, 4) == WORD && Pow(256, 8) == TWO64
    ensures Pow(256, 3) == 0x100_0000 && Pow(256, 7) == 0x100_0000_0000_0000
  {
    Sha2Context.Powers();
    PowAdd(256, 4, 3);
    assert Pow(256, 3) == 0x100_0000;
  }

  /** The tail in its parts, word by word. */
  lemma TailFrom(n: nat, p: seq<Byte>, tail: seq<nat>, len: nat)
    requires (n == 4 || n == 8) && len < Pow(256, n) && p == [0x80] + Zeros(6 * n - 1) + BE(len, 2 * n)
    requires |tail| == 8 && tail[0] == 0x80 * Pow(256, n - 1) && tail[7] == len
    requires forall i :: 0 < i < 7 ==> tail[i] == 0
    ensures |p| == 8 * n && forall i :: 0 <= i < 8 ==> WordAt(n, p, i) == tail[i]
  {
    TailParts(n, p, len);
    ValTopByte(n);
    ValOfZeros(n);
    ValOfBE(0, n);
    ValOfBE(len, n);
  }

  /** The marker word, five zero words, and the length in the last two. */
  lemma TailParts(n: nat, p: seq<Byte>, len: nat)
    requires (n == 4 || n == 8) && len < Pow(256, n) && p == [0x80] + Zeros(6 * n - 1) + BE(len, 2 * n)
    ensures |p| == 8 * n && p[0..n] == [0x80] + Zeros(n - 1)
    ensures p[n..2 * n] == p[2 * n..3 * n] == p[3 * n..4 * n] == p[4 * n..5 * n] == p[5 * n..6 * n] == Zeros(n)
    ensures p[6 * n..7 * n] == BE(0, n) && p[7 * n..8 * n] == BE(len, n)
  {
    BEConcat(0, len, n, n);
    Pieces(p, [0x80], Zeros(6 * n - 1), BE(len, 2 * n), n);
    assert BE(len, 2 * n) == BE(0, n) + BE(len, n);
  }

  lemma Pieces(p: seq<Byte>, x: seq<Byte>, z: seq<Byte>, f: seq<Byte>, n: nat)
    requires n > 0 && p == x + z + f && |x| == 1 && z == Zeros(6 * n - 1) && |f| == 2 * n
    ensures p[0..n] == x + Zeros(n - 1)
    ensures p[n..2 * n] == p[2 * n..3 * n] == p[3 * n..4 * n] == p[4 * n..5 * n] == p[5 * n..6 * n] == Zeros(n)
    ensures p[6 * n..7 * n] == f[..n] && p[7 * n..8 * n] == f[n..]
  {}

  /** The padded digest is the eight words and the fixed tail. */
  lemma PaddedDigestWords(v: Variant, w: seq<nat>)
    requires (v.n == 4 || v.n == 8) && Words8(v, w)
    ensures var b := Digest(v, w) + Padding(v, BlockLength(v) + 8 * v.n);
      |b| == BlockLength(v) && Words(v, b) == w + Tail(v)
  {
    var p := Padding(v, BlockLength(v) + 8 * v.n);
    var b := Digest(v, w) + p;
    DigestLength(v, w);
    TailWords(v);
    forall i | 0 <= i < 16
      ensures Words(v, b)[i] == (w + Tail(v))[i]
    {
      if i < 8 {
        DigestWord(v, w, i);
        WordOfFirst(v.n, Digest(v, w), p, i);
      } else {
        WordOfSecond(v.n, Digest(v, w), p, i - 8);
      }
    }
  }

  lemma WordOfFirst(n: nat, d: seq<Byte>, p: seq<Byte>, i: nat)
    requires i * n + n <= |d|
    ensures WordAt(n, d + p, i) == WordAt(n, d, i)
  {
    assert (d + p)[i * n..i * n + n] == d[i * n..i * n + n];
  }

  lemma WordOfSecond(n: nat, d: seq<Byte>, p: seq<Byte>, i: nat)
    requires i * n + n <= |p| && |d| == 8 * n
    ensures (i + 8) * n + n <= |d + p| && WordAt(n, d + p, i + 8) == WordAt(n, p, i)
  {
    assert (i + 8) * n == i * n + 8 * n;
    assert (d + p)[(i + 8) * n..(i + 8) * n + n] == p[i * n..i * n + n];
  }

  lemma HashOfDigest(v: Variant, s: seq<nat>, w: seq<nat>)
    requires Lawful(v) && |s| == 8 && Words8(v, w)
    ensures HashFrom(v, s, BlockLength(v), Digest(v, w)) == Digest(v, Compress(v, s, w + Tail(v)))
  {
    var d, len := Digest(v, w), BlockLength(v) + 8 * v.n;
    DigestLength(v, w);
    HashIsFinish(v, s, BlockLength(v), d, len);
    PaddedDigestWords(v, w);
    AbsorbBlock(v, s, [], d + Padding(v, len));
    assert [] + (d + Padding(v, len)) == d + Padding(v, len);
  }

  lemma CompressBounded(v: Variant, s: seq<nat>, m: seq<nat>)
    requires Lawful(v) && |s| == 8 && |m| == 16
    ensures Words8(v, Compress(v, s, m))
  {
    forall i | 0 <= i < 8
      ensures Compress(v, s, m)[i] < Pow(256, v.n)
    {
      SumBounded(v, Listed(After(v, Loaded(s), m, |v.k|))[i], s[i]);
    }
  }

  /** The MAC of a digest: two compressions from the precomputed states. */
  lemma MacOfDigest(v: Variant, key: seq<Byte>, w: seq<nat>)
    requires Lawful(v) && Words8(v, w)
    ensures var inner := Compress(v, InnerState(v, key), w + Tail(v));
      MacOf(v, key, Digest(v, w)) == Digest(v, Compress(v, OuterState(v, key), inner + Tail(v)))
  {
    var inner := Compress(v, InnerState(v, key), w + Tail(v));
    MacOfIsMac(v, key, Digest(v, w));
    MacFromStates(v, key, Digest(v, w));
    HashOfDigest(v, InnerState(v, key), w);
    CompressBounded(v, InnerState(v, key), w + Tail(v));
    HashOfDigest(v, OuterState(v, key), inner);
  }

  // ---- Exclusive or of words ----

  function XorWords(a: seq<nat>, b: seq<nat>): (r: seq<nat>)
    requires |a| == |b|
    ensures |r| == |a|
  {
    seq(|a|, i requires 0 <= i < |a| => Xor(a[i], b[i]))
  }

  lemma XorOfBE(x: nat, y: nat, n: nat)
    requires x < Pow(256, n) && y < Pow(256, n)
    ensures BE(Xor(x, y), n) == XorBytes(BE(x, n), BE(y, n))
  {
    ValOfBE(x, n);
    ValOfBE(y, n);
    XorWord(BE(x, n), BE(y, n));
    BEofVal(XorBytes(BE(x, n), BE(y, n)));
  }

  lemma {:induction false} XorOfDigests(v: Variant, a: seq<nat>, b: seq<nat>)
    requires |a| == |b| && forall i :: 0 <= i < |a| ==> a[i] < Pow(256, v.n) && b[i] < Pow(256, v.n)
    ensures |Digest(v, a)| == |Digest(v, b)| && Digest(v, XorWords(a, b)) == XorBytes(Digest(v, a), Digest(v, b))
  {
    DigestLength(v, a);
    DigestLength(v, b);
    if a != [] {
      var k := |a| - 1;
      assert XorWords(a, b)[..k] == XorWords(a[..k], b[..k]);
      XorOfDigests(v, a[..k], b[..k]);
      XorOfBE(a[k], b[k], v.n);
    }
  }

  lemma XorBounded(v: Variant, x: nat, y: nat)
    requires (v.n == 4 || v.n == 8) && x < Pow(256, v.n) && y < Pow(256, v.n)
    ensures Xor(x, y) < Pow(256, v.n)
  {
    BitsOfBytes(v.n);
    XorBound(x, y, 8 * v.n);
  }

  // ---- The context ----

  /** f holds the exclusive or of the first iterates, and g the last of them. */
  ghost predicate Mixing(v: Variant, pass: seq<Byte>, salt: seq<Byte>, i: nat, rounds: nat, f: seq<nat>, g: seq<nat>) {
    && Lawful(v) && rounds >= 1 && Words8(v, f) && Words8(v, g)
    && Digests(v, f, g) == MixedAndLast(v, pass, salt, i, rounds)
  }

  ghost function Digests(v: Variant, f: seq<nat>, g: seq<nat>): (seq<Byte>, seq<Byte>) {
    (Digest(v, f), Digest(v, g))
  }

  ghost function MixedAndLast(v: Variant, pass: seq<Byte>, salt: seq<Byte>, i: nat, rounds: nat): (seq<Byte>, seq<Byte>)
    requires Lawful(v) && rounds >= 1
  {
    (Mixed(v, pass, salt, i, rounds), Iterate(v, pass, salt, i, rounds))
  }

  /** The first iterate, from the inner hash cut into words. */
  lemma FirstMixing(v: Variant, pass: seq<Byte>, salt: seq<Byte>, i: nat, w: seq<nat>)
    requires Lawful(v) && Words8(v, w)
    requires Digest(v, w) == HashFrom(v, InnerState(v, pass), BlockLength(v), salt + BE(i, 4))
    ensures var g := Compress(v, OuterState(v, pass), w + Tail(v));
      Mixing(v, pass, salt, i, 1, g, g)
  {
    MacOfIsMac(v, pass, salt + BE(i, 4));
    MacFromStates(v, pass, salt + BE(i, 4));
    HashOfDigest(v, OuterState(v, pass), w);
    CompressBounded(v, OuterState(v, pass), w + Tail(v));
  }

  /** Two compressions and an exclusive or are one more iterate. */
  lemma NextMixing(v: Variant, pass: seq<Byte>, salt: seq<Byte>, i: nat, rounds: nat, f: seq<nat>, g: seq<nat>)
    requires Mixing(v, pass, salt, i, rounds, f, g)
    ensures var r := NextState(v, OuterState(v, pass), InnerState(v, pass), f, g);
      Mixing(v, pass, salt, i, rounds + 1, r.0, r.1)
  {
    var inner := Compress(v, InnerState(v, pass), g + Tail(v));
    var next := Compress(v, OuterState(v, pass), inner + Tail(v));
    MacOfDigest(v, pass, g);
    CompressBounded(v, OuterState(v, pass), inner + Tail(v));
    XorOfDigests(v, f, next);
    XorWordsBounded(v, f, next);
  }

  lemma XorWordsBounded(v: Variant, f: seq<nat>, g: seq<nat>)
    requires (v.n == 4 || v.n == 8) && Words8(v, f) && Words8(v, g)
    ensures Words8(v, XorWords(f, g))
  {
    forall i | 0 <= i < 8
      ensures XorWords(f, g)[i] < Pow(256, v.n)
    {
      XorBounded(v, f[i], g[i]);
    }
  }

  /** The next iterate and what is mixed then, as words. */
  ghost function NextState(v: Variant, outer: seq<nat>, inner: seq<nat>, f: seq<nat>, g: seq<nat>): (r: (seq<nat>, seq<nat>))
    requires |outer| == |inner| == |f| == |g| == 8
    ensures |r.0| == |r.1| == 8
  {
    var next := Compress(v, outer, Compress(v, inner, g + Tail(v)) + Tail(v));
    (XorWords(f, next), next)
  }

  method MixNext(v: Variant, idig: array<nat>, odig: array<nat>, f: array<nat>, g: array<nat>)
    requires Lawful(v) && idig.Length == odig.Length == f.Length == 8 && g.Length == 16
    requires g != idig && g != odig && f != g && f != odig && f != idig && g[8..] == Tail(v)
    modifies f, g
    ensures (f[..], g[..8]) == NextState(v, odig[..], idig[..], old(f[..]), old(g[..8]))
    ensures g[8..] == Tail(v)
  {
    TwoTransforms(v, idig, odig, g);
    XorInto(f, g);
  }

  /** From some iterates to one more. */
  method MixOneMore(v: Variant, ghost pass: seq<Byte>, ghost salt: seq<Byte>, ghost i: nat, ghost rounds: nat,
                    idig: array<nat>, odig: array<nat>, f: array<nat>, g: array<nat>)
    requires Lawful(v) && idig.Length == odig.Length == f.Length == 8 && g.Length == 16
    requires g != idig && g != odig && f != g && f != odig && f != idig && g[8..] == Tail(v)
    requires odig[..] == OuterState(v, pass) && idig[..] == InnerState(v, pass)
    requires Mixing(v, pass, salt, i, rounds, f[..], g[..8])
    modifies f, g
    ensures Mixing(v, pass, salt, i, rounds + 1, f[..], g[..8]) && g[8..] == Tail(v)
  {
    ghost var after := NextState(v, odig[..], idig[..], f[..], g[..8]);
    NextMixing(v, pass, salt, i, rounds, f[..], g[..8]);
    MixNext(v, idig, odig, f, g);
    assert f[..] == after.0 && g[..8] == after.1;
  }

  /** The two compressions of one iterate. */
  method TwoTransforms(v: Variant, idig: array<nat>, odig: array<nat>, g: array<nat>)
    requires Lawful(v) && idig.Length == odig.Length == 8 && g.Length == 16 && g != idig && g != odig
    requires g[8..] == Tail(v)
    modifies g
    ensures g[..8] == Compress(v, odig[..], Compress(v, idig[..], old(g[..8]) + Tail(v)) + Tail(v))
    ensures g[8..] == Tail(v)
  {
    assert odig[..8] == odig[..] && idig[..8] == idig[..];
    assert g[..16] == g[..8] + Tail(v);
    Transform(v, idig, g, g);
    assert g[..16] == g[..8] + Tail(v);
    Transform(v, odig, g, g);
  }

  /** Exclusive or of the new iterate into f. */
  method XorInto(f: array<nat>, g: array<nat>)
    requires f.Length == 8 && g.Length == 16 && f != g
    modifies f
    ensures f[..] == XorWords(old(f[..]), g[..8])
  {
    for j := 0 to 8
      invariant forall k :: 0 <= k < j ==> f[k] == Xor(old(f[k]), g[k])
      invariant forall k :: j <= k < 8 ==> f[k] == old(f[k])
    {
      f[j] := Xor(f[j], g[j]);
    }
    assert f[..] == XorWords(old(f[..]), g[..8]);
  }

  method ZeroWords(a: array<nat>)
    modifies a
    ensures forall k :: 0 <= k < a.Length ==> a[k] == 0
  {
    for i := 0 to a.Length
      invariant forall k :: 0 <= k < i ==> a[k] == 0
    {
      a[i] := 0;
    }
  }

  /** The padding words of the zeroed block. */
  method SetTail(v: Variant, g: array<nat>)
    requires (v.n == 4 || v.n == 8) && g.Length == 16 && forall k :: 0 <= k < 16 ==> g[k] == 0
    modifies g
    ensures g[8..] == Tail(v)
  {
    g[8] := if v.n == 4 then 0x8000_0000 else 0x8000_0000_0000_0000;
    g[15] := (BlockLength(v) + 8 * v.n) * 8;
  }

  method CopyWords(f: array<nat>, g: array<nat>)
    requires f.Length == 8 && g.Length == 16 && f != g
    modifies f
    ensures f[..] == g[..8]
  {
    for k := 0 to 8
      invariant forall j :: 0 <= j < k ==> f[j] == g[j]
    {
      f[k] := g[k];
    }
  }

  /** From the inner hash to the first iterate, in place. */
  method FirstTransform(v: Variant, odig: array<nat>, digest: seq<Byte>, f: array<nat>, g: array<nat>)
    returns (ghost w: seq<nat>)
    requires Lawful(v) && odig.Length == f.Length == 8 && g.Length == 16 && f != g && odig != f && odig != g
    requires |digest| == 8 * v.n && g[8..] == Tail(v)
    modifies f, g
    ensures Words8(v, w) && Digest(v, w) == digest && g[..8] == Compress(v, odig[..], w + Tail(v))
    ensures f[..] == g[..8] && g[8..] == Tail(v)
  {
    LoadDigest(v, digest, g);
    w := g[..8];
    assert g[..16] == w + Tail(v) && odig[..8] == odig[..];
    Transform(v, odig, g, g);
    CopyWords(f, g);
  }

  class Context {
    const v: Variant
    const odig: array<nat>
    const idig: array<nat>
    const f: array<nat>
    const g: array<nat>
    var first: nat

    ghost const pass: seq<Byte>
    const salt: seq<Byte>
    const block: nat
    /** How many iterates are mixed into f. */
    ghost var rounds: nat

    ghost predicate Shape()
      reads this
    {
      && Lawful(v)
      && odig.Length == idig.Length == f.Length == 8 && g.Length == 16
      && odig != idig && odig != f && odig != g && idig != f && idig != g && f != g
    }

    ghost predicate Valid()
      reads this, odig, idig, f, g
    {
      && Shape()
      && odig[..] == OuterState(v, pass) && idig[..] == InnerState(v, pass)
      && Mixing(v, pass, salt, block, rounds, f[..], g[..8])
      && g[8..] == Tail(v)
      && first <= 1
    }

    constructor Init(v: Variant, pass: seq<Byte>, salt: seq<Byte>, blocknr: nat)
      requires Lawful(v)
      ensures Valid() && this.v == v && this.pass == pass && this.salt == salt && block == blocknr
      ensures rounds == 1 && first == 1
      ensures fresh(odig) && fresh(idig) && fresh(f) && fresh(g)
    {
      this.v := v;
      this.pass := pass;
      this.salt := salt;
      block := blocknr;
      var opad, ipad := Prepare(v, pass);
      odig := opad;
      idig := ipad;
      g := new nat[16](_ => 0);
      f := new nat[8](_ => 0);
      first := 1;
      rounds := 1;
      new;
      Begin();
    }

    /** The first iterate. */
    method Begin()
      requires Shape() && rounds == 1 && first == 1
      requires odig[..] == OuterState(v, pass) && idig[..] == InnerState(v, pass)
      requires forall k :: 0 <= k < 16 ==> g[k] == 0
      modifies f, g
      ensures Valid()
    {
      SetTail(v, g);
      var inner := InnerHash(v, idig, salt, BE(block, 4));
      HashFromLength(v, idig[..], BlockLength(v), salt + BE(block, 4));
      ghost var w := FirstTransform(v, odig, inner, f, g);
      FirstMixing(v, pass, salt, block, w);
      ghost var start := Compress(v, odig[..], w + Tail(v));
      assert f[..] == start && g[..8] == start;
      assert Digests(v, f[..], g[..8]) == MixedAndLast(v, pass, salt, block, rounds);
    }

    /** One more iterate. */
    method Step()
      requires Valid()
      modifies this`rounds, f, g
      ensures Valid() && rounds == old(rounds) + 1
    {
      MixOneMore(v, pass, salt, block, rounds, idig, odig, f, g);
      rounds := rounds + 1;
    }

    /** Mix in more iterates. The first call counts the iterate that is there already. */
    method Update(iterations: nat)
      requires Valid()
      modifies this`first, this`rounds, f, g
      ensures Valid() && first == 0
      ensures rounds == old(rounds) + (if iterations > old(first) then iterations - old(first) else 0)
    {
      var i := first;
      while i < iterations
        invariant Valid() && first == old(first)
        invariant i == first || first < i <= iterations
        invariant rounds == old(rounds) + (i - first)
      {
        Step();
        i := i + 1;
      }
      first := 0;
    }

    /** The block of the key, as bytes; the context is wiped. */
    method Final() returns (key: seq<Byte>)
      requires Valid()
      modifies this`first, odig, idig, f, g
      ensures key == Mixed(v, pass, salt, block, rounds)
      ensures forall k :: 0 <= k < 8 ==> odig[k] == 0 && idig[k] == 0 && f[k] == 0
      ensures forall k :: 0 <= k < 16 ==> g[k] == 0
    {
      key := WordBytes(v, f[..]);
      ZeroWords(odig);
      ZeroWords(idig);
      ZeroWords(f);
      ZeroWords(g);
      first := 0;
    }
  }

  /** The hash of salt and block number after the inner key pad. */
  method InnerHash(v: Variant, ipad: array<nat>, salt: seq<Byte>, number: seq<Byte>) returns (digest: seq<Byte>)
    requires Lawful(v) && ipad.Length == 8
    ensures digest == HashFrom(v, ipad[..], BlockLength(v), salt + number)
  {
    var context := new Sha2Context.Context.Resume(v, ipad[..]);
    ghost var state := ipad[..];
    context.Update(salt);
    context.Update(number);
    EmptyFirst(salt, number);
    digest := context.Final();
  }

  method WordBytes(v: Variant, w: seq<nat>) returns (bytes: seq<Byte>)
    ensures bytes == Digest(v, w)
  {
    bytes := [];
    for k := 0 to |w|
      invariant bytes == Digest(v, w[..k])
    {
      assert w[..k + 1][..k] == w[..k];
      bytes := bytes + BE(w[k], v.n);
    }
    assert w[..|w|] == w;
  }

  lemma HashFromLength(v: Variant, s: seq<nat>, before: nat, m: seq<Byte>)
    requires Lawful(v) && |s| == 8 && Used(v, before) == 0
    ensures |HashFrom(v, s, before, m)| == 8 * v.n
  {
    PaddedLength(v, before, m);
    DigestLength(v, Absorb(v, s, m + Padding(v, before + |m|)));
  }

  /** A digest stored as words in host order. */
  method LoadDigest(v: Variant, digest: seq<Byte>, g: array<nat>)
    requires Lawful(v) && |digest| == 8 * v.n && g.Length == 16
    modifies g
    ensures Words8(v, g[..8]) && Digest(v, g[..8]) == digest && g[8..] == old(g[8..])
  {
    ghost var w := seq(8, i requires 0 <= i < 8 => DigestWordAt(v, digest, i));
    for k := 0 to 8
      invariant forall j :: 0 <= j < k ==> g[j] == w[j]
      invariant g[8..] == old(g[8..])
    {
      MulMonotone(v.n, k + 1, 8);
      OneMore(k, v.n);
      g[k] := Val(digest[k * v.n..k * v.n + v.n], 256);
    }
    assert g[..8] == w;
    DigestOfWords(v, digest, w);
  }

  ghost function DigestWordAt(v: Variant, d: seq<Byte>, i: nat): (x: nat)
    requires i < 8 && |d| == 8 * v.n
    ensures i * v.n + v.n <= |d| && x == WordAt(v.n, d, i) && x < Pow(256, v.n)
  {
    MulMonotone(v.n, i + 1, 8);
    OneMore(i, v.n);
    ValBound(d[i * v.n..i * v.n + v.n], 256);
    WordAt(v.n, d, i)
  }

  // ---- Whole runs ----

  /** How many iterates a list of updates mixes in. */
  function Total(parts: seq<nat>): (c: nat)
    ensures c >= 1
  {
    if parts == [] then 1
    else if |parts| == 1 then (if parts[0] > 1 then parts[0] else 1)
    else Total(parts[..|parts| - 1]) + parts[|parts| - 1]
  }

  /** The updates add up exactly when the first one asks for at least one iteration. */
  lemma {:induction false} TotalIsSum(parts: seq<nat>)
    requires parts != []
    ensures Total(parts) == SumOf(parts) <==> parts[0] >= 1
    ensures Total(parts) == SumOf(parts) + (if parts[0] >= 1 then 0 else 1)
  {
    if |parts| == 1 {
      assert SumOf(parts[..0]) == 0;
    } else {
      TotalIsSum(parts[..|parts| - 1]);
    }
  }

  /** One block of the key, with the iterations split over several updates. */
  method SplitRun(v: Variant, pass: seq<Byte>, salt: seq<Byte>, blocknr: nat, parts: seq<nat>) returns (key: seq<Byte>)
    requires Lawful(v)
    ensures key == Mixed(v, pass, salt, blocknr, Total(parts))
  {
    var context := new Context.Init(v, pass, salt, blocknr);
    for i := 0 to |parts|
      invariant fresh(context) && fresh(context.odig) && fresh(context.idig) && fresh(context.f) && fresh(context.g)
      invariant context.Valid() && context.v == v && context.pass == pass && context.salt == salt && context.block == blocknr
      invariant context.rounds == Total(parts[..i]) && context.first == (if i == 0 then 1 else 0)
    {
      TotalStep(parts, i);
      context.Update(parts[i]);
    }
    assert parts[..|parts|] == parts;
    key := context.Final();
  }

  lemma TotalStep(parts: seq<nat>, i: nat)
    requires i < |parts|
    ensures var first := if i == 0 then 1 else 0;
      Total(parts[..i + 1]) == Total(parts[..i]) + (if parts[i] > first then parts[i] - first else 0)
  {
    assert parts[..i + 1][..i] == parts[..i];
  }

  /** The number of iterations that a requested count stands for: one at least. */
  function Iterations(c: nat): nat {
    if c > 1 then c else 1
  }

  /** One block of the key with all iterations at once. */
  method OneBlock(v: Variant, pass: seq<Byte>, salt: seq<Byte>, blocknr: nat, iterations: nat) returns (key: seq<Byte>)
    requires Lawful(v)
    ensures key == Mixed(v, pass, salt, blocknr, Iterations(iterations))
  {
    var context := new Context.Init(v, pass, salt, blocknr);
    context.Update(iterations);
    assert context.rounds == Iterations(iterations);
    key := context.Final();
  }

  /** `memcpy` of the first n bytes to an offset of the key. */
  method Place(key: array<Byte>, offset: nat, digest: seq<Byte>, n: nat)
    requires n <= |digest| && offset + n <= key.Length
    modifies key
    ensures key[..offset + n] == old(key[..offset]) + digest[..n]
  {
    for i := 0 to n
      invariant key[..offset] == old(key[..offset])
      invariant forall k :: 0 <= k < i ==> key[offset + k] == digest[k]
    {
      key[offset + i] := digest[i];
    }
    assert key[offset..offset + n] == digest[..n];
    assert key[..offset + n] == key[..offset] + key[offset..offset + n];
  }

  /** The key starts with this much of the first l blocks. */
  ghost predicate Filled(v: Variant, pass: seq<Byte>, salt: seq<Byte>, c: nat, l: nat, key: seq<Byte>, filled: nat) {
    Lawful(v) && c >= 1 && filled <= |key| && filled <= l * (8 * v.n)
    && key[..filled] == Blocks(v, pass, salt, c, l)[..filled]
  }

  /** The next block goes behind the ones before it, whole or cut short. */
  method NextBlock(v: Variant, pass: seq<Byte>, salt: seq<Byte>, iterations: nat, key: array<Byte>, blocknr: nat, n: nat)
    returns (offset: nat)
    requires Lawful(v) && blocknr >= 1 && 0 < n <= 8 * v.n
    requires (blocknr - 1) * (8 * v.n) + n <= key.Length
    requires Filled(v, pass, salt, Iterations(iterations), blocknr - 1, key[..], (blocknr - 1) * (8 * v.n))
    modifies key
    ensures offset == (blocknr - 1) * (8 * v.n)
    ensures Filled(v, pass, salt, Iterations(iterations), blocknr, key[..], offset + n)
  {
    ghost var done := Blocks(v, pass, salt, Iterations(iterations), blocknr - 1);
    offset := (blocknr - 1) * (8 * v.n);
    assert done[..offset] == done && key[..][..offset] == key[..offset];
    var digest := OneBlock(v, pass, salt, blocknr, iterations);
    OneMore(blocknr - 1, 8 * v.n);
    Place(key, offset, digest, n);
    ExtendPrefix(done, digest, n);
    assert key[..][..offset + n] == key[..offset + n];
  }

  /** `pbkdf2_hmac_sha256` and `pbkdf2_hmac_sha512`: the first keylen bytes of the blocks in order. */
  method Derive(v: Variant, pass: seq<Byte>, salt: seq<Byte>, iterations: nat, keylen: nat) returns (key: array<Byte>)
    requires Lawful(v)
    ensures fresh(key) && key.Length == keylen
    ensures Filled(v, pass, salt, Iterations(iterations), BlockCount(v, keylen), key[..], keylen)
  {
    key := new Byte[keylen](_ => 0);
    var blocksCount, lastBlockSize := CountBlocks(keylen, 8 * v.n);
    FillKey(v, pass, salt, iterations, key, blocksCount, lastBlockSize);
    BlockCountIsLeast(v, keylen, BlockCount(v, keylen));
    EnoughIsCount(keylen, 8 * v.n, blocksCount, lastBlockSize, BlockCount(v, keylen));
  }

  /** Block by block; the last one may be cut short. */
  method FillKey(v: Variant, pass: seq<Byte>, salt: seq<Byte>, iterations: nat, key: array<Byte>, blocksCount: nat, lastBlockSize: nat)
    requires Lawful(v) && 0 < lastBlockSize <= 8 * v.n
    requires key.Length == (blocksCount - 1) * (8 * v.n) + lastBlockSize
    modifies key
    ensures Filled(v, pass, salt, Iterations(iterations), blocksCount, key[..], key.Length)
  {
    ghost var l, filled := 0, 0;
    for blocknr := 1 to blocksCount + 1
      invariant l == blocknr - 1 && filled == FilledTo(l, blocksCount, 8 * v.n, lastBlockSize)
      invariant Filled(v, pass, salt, Iterations(iterations), l, key[..], filled)
    {
      filled := FillBlock(v, pass, salt, iterations, key, blocksCount, lastBlockSize, blocknr, filled);
      l := blocknr;
    }
  }

  /** How much of the key l blocks make up. */
  ghost function FilledTo(l: nat, count: nat, size: nat, last: nat): int {
    if l < count then l * size else (count - 1) * size + last
  }

  method FillBlock(v: Variant, pass: seq<Byte>, salt: seq<Byte>, iterations: nat, key: array<Byte>, blocksCount: nat,
                   lastBlockSize: nat, blocknr: nat, ghost filled: nat) returns (ghost now: nat)
    requires Lawful(v) && 0 < lastBlockSize <= 8 * v.n && 1 <= blocknr <= blocksCount
    requires key.Length == (blocksCount - 1) * (8 * v.n) + lastBlockSize
    requires filled == FilledTo(blocknr - 1, blocksCount, 8 * v.n, lastBlockSize)
    requires Filled(v, pass, salt, Iterations(iterations), blocknr - 1, key[..], filled)
    modifies key
    ensures now == FilledTo(blocknr, blocksCount, 8 * v.n, lastBlockSize)
    ensures Filled(v, pass, salt, Iterations(iterations), blocknr, key[..], now)
  {
    var size := 8 * v.n;
    BlockFits(key.Length, size, blocksCount, lastBlockSize, blocknr);
    var n := if blocknr < blocksCount then size else lastBlockSize;
    var offset := NextBlock(v, pass, salt, iterations, key, blocknr, n);
    now := offset + n;
  }

  /** How many blocks reach the length, and how much of the last one is needed. */
  method CountBlocks(keylen: nat, size: nat) returns (blocksCount: nat, lastBlockSize: nat)
    requires size > 0
    ensures 0 < lastBlockSize <= size && keylen == (blocksCount - 1) * size + lastBlockSize
  {
    DivFacts(keylen, size);
    lastBlockSize := keylen % size;
    blocksCount := keylen / size;
    if lastBlockSize != 0 {
      blocksCount := blocksCount + 1;
    } else {
      lastBlockSize := size;
    }
    LastBlock(keylen, size, blocksCount, lastBlockSize);
  }

  lemma ExtendPrefix(done: seq<Byte>, digest: seq<Byte>, n: nat)
    requires n <= |digest|
    ensures (done + digest)[..|done| + n] == done + digest[..n]
  {}

  lemma LastBlock(keylen: nat, size: nat, count: nat, last: nat)
    requires size > 0
    requires if keylen % size != 0 then count == keylen / size + 1 && last == keylen % size else count == keylen / size && last == size
    ensures 0 < last <= size && keylen == (count - 1) * size + last
  {
    DivFacts(keylen, size);
    if keylen % size == 0 {
      assert (count - 1) * size == count * size - size;
    }
  }

  lemma BlockFits(keylen: nat, size: nat, count: nat, last: nat, i: nat)
    requires 0 < last <= size && keylen == (count - 1) * size + last && 1 <= i <= count
    ensures var n := if i < count then size else last;
      && FilledTo(i - 1, count, size, last) == (i - 1) * size
      && FilledTo(i, count, size, last) == (i - 1) * size + n <= keylen
  {
    OneMore(i - 1, size);
    if i < count {
      MulMonotone(size, i, count - 1);
    }
  }

  lemma EnoughIsCount(keylen: nat, size: nat, count: nat, last: nat, l: nat)
    requires 0 < last <= size && keylen == (count - 1) * size + last && keylen <= l * size < keylen + size
    ensures l == count
  {
    if l > count { MulMonotone(size, count + 1, l); }
    if l < count { MulMonotone(size, l, count - 1); }
    assert (count + 1) * size == (count - 1) * size + 2 * size;
  }

  /** The length in blocks, rounded up. */
  ghost function BlockCount(v: Variant, keylen: nat): (l: nat)
    requires Lawful(v)
  {
    (keylen + 8 * v.n - 1) / (8 * v.n)
  }

  /** That is the one number of blocks that reaches the length and no further than a block past it. */
  lemma BlockCountIsLeast(v: Variant, keylen: nat, l: nat)
    requires Lawful(v)
    ensures EnoughBlocks(v, l, keylen) <==> l == BlockCount(v, keylen)
  {
    RoundedUp(keylen, 8 * v.n, l);
  }

  lemma RoundedUp(keylen: nat, size: nat, l: nat)
    requires size > 0
    ensures keylen <= l * size < keylen + size <==> l == (keylen + size - 1) / size
  {
    var n := keylen + size - 1;
    DivFacts(n, size);
    if keylen <= l * size < keylen + size {
      DivModUnique(n, size, l, n - l * size);
    }
  }

  /** The least number of blocks that reaches the length. */
  ghost predicate EnoughBlocks(v: Variant, l: nat, keylen: nat) {
    keylen <= l * (8 * v.n) < keylen + 8 * v.n
  }
}
