/** HMAC over SHA-2: the definition (section 2 of RFC 2104), the streaming form, and the
    precomputed states after the two key pads. */
module Hmac {
  import opened Bytes
  import opened Bits
  import opened Sha2
  import opened Sha2Spec
  import opened Sha2Context

  // ---- Definition ----

  lemma {:induction false} DigestLength(v: Variant, s: seq<nat>)
    ensures |Digest(v, s)| == |s| * v.n
  {
    if s != [] {
      DigestLength(v, s[..|s| - 1]);
      assert |s| * v.n == (|s| - 1) * v.n + v.n;
    }
  }

  lemma HashLength(v: Variant, m: seq<Byte>)
    requires Lawful(v)
    ensures |Hash(v, m)| == 8 * v.n
  {
    PaddedLength(v, 0, m);
    DigestLength(v, Absorb(v, v.iv, m + Padding(v, 0 + |m|)));
  }

  /** The key, hashed if it is longer than a block, padded with zeros to a block. */
  ghost function KeyBlock(v: Variant, key: seq<Byte>): (b: seq<Byte>)
    requires Lawful(v)
    ensures |b| == BlockLength(v)
  {
    HashLength(v, key);
    var k := if |key| > BlockLength(v) then Hash(v, key) else key;
    k + Zeros(BlockLength(v) - |k|)
  }

  function Repeated(c: Byte, k: nat): (s: seq<Byte>)
    ensures |s| == k
  {
    seq(k, _ => c)
  }

  function PadKey(block: seq<Byte>, c: Byte): (b: seq<Byte>)
    ensures |b| == |block|
  {
    XorBytes(block, Repeated(c, |block|))
  }

  const IPAD: Byte := 0x36
  const OPAD: Byte := 0x5c

  ghost function Mac(v: Variant, key: seq<Byte>, m: seq<Byte>): seq<Byte>
    requires Lawful(v)
  {
    var k := KeyBlock(v, key);
    Hash(v, PadKey(k, OPAD) + Hash(v, PadKey(k, IPAD) + m))
  }

  // ---- The streaming form ----

  class Context {
    const v: Variant
    const oKeyPad: array<Byte>
    const inner: Sha2Context.Context
    ghost const key: seq<Byte>

    ghost predicate Valid()
      reads this, oKeyPad, inner, inner.state, inner.buffer
    {
      && inner.Valid() && inner.v == v && inner.base == v.iv && inner.before == 0
      && oKeyPad != inner.buffer && (oKeyPad as object) != (inner.state as object)
      && Lawful(v) && oKeyPad[..] == PadKey(KeyBlock(v, key), OPAD)
    }

    /** What has been taken so far, the inner key pad included. */
    ghost function Taken(): seq<Byte>
      reads this, inner
    {
      inner.Taken()
    }

    constructor Init(v: Variant, key: seq<Byte>)
      requires Lawful(v)
      ensures Valid() && this.v == v && this.key == key
      ensures Taken() == PadKey(KeyBlock(v, key), IPAD)
      ensures fresh(oKeyPad) && fresh(inner) && fresh(inner.state) && fresh(inner.buffer)
    {
      this.v := v;
      this.key := key;
      oKeyPad := new Byte[BlockLength(v)](_ => 0);
      inner := new Sha2Context.Context.Init(v);
      new;
      var iKeyPad := LoadKey(v, key);
      MakePads(iKeyPad, oKeyPad, IPAD, OPAD);
      inner.Update(iKeyPad[..]);
      assert [] + iKeyPad[..] == iKeyPad[..];
    }

    method Update(msg: seq<Byte>)
      requires Valid()
      modifies inner, inner.state, inner.buffer
      ensures Valid() && Taken() == old(Taken()) + msg
    {
      inner.Update(msg);
    }

    /** The MAC; the context is wiped, the key pad with it. */
    method Final() returns (mac: seq<Byte>)
      requires Valid()
      modifies oKeyPad, inner, inner.state, inner.buffer
      ensures mac == Hash(v, PadKey(KeyBlock(v, key), OPAD) + Hash(v, old(Taken())))
      ensures oKeyPad[..] == Zeros(BlockLength(v)) && inner.state[..] == seq(8, _ => 0)
      ensures inner.buffer[..] == Zeros(BlockLength(v)) && inner.low == 0 && inner.high == 0
    {
      mac := inner.Final();
      ghost var digest, pad := mac, oKeyPad[..];
      assert digest == Hash(v, old(Taken()));
      inner.Reinit();
      inner.Update(oKeyPad[..]);
      inner.Update(mac);
      EmptyFirst(pad, digest);
      mac := inner.Final();
      ZeroAll(oKeyPad);
    }
  }

  /** `memzero`. */
  method ZeroAll(a: array<Byte>)
    modifies a
    ensures a[..] == Zeros(a.Length)
  {
    for i := 0 to a.Length
      invariant forall k :: 0 <= k < i ==> a[k] == 0
    {
      a[i] := 0;
    }
  }

  lemma EmptyFirst(x: seq<Byte>, y: seq<Byte>)
    ensures ([] + x) + y == x + y
  {}

  /** Both key pads from the key block: the outer one into the array given, the inner one in place. */
  method MakePads(iKeyPad: array<Byte>, oKeyPad: array<Byte>, ipad: Byte, opad: Byte)
    requires iKeyPad.Length == oKeyPad.Length && iKeyPad != oKeyPad
    modifies iKeyPad, oKeyPad
    ensures oKeyPad[..] == PadKey(old(iKeyPad[..]), opad) && iKeyPad[..] == PadKey(old(iKeyPad[..]), ipad)
  {
    ghost var block := iKeyPad[..];
    for i := 0 to iKeyPad.Length
      invariant forall k :: 0 <= k < i ==> oKeyPad[k] == XorByte(block[k], opad) && iKeyPad[k] == XorByte(block[k], ipad)
      invariant forall k :: i <= k < iKeyPad.Length ==> iKeyPad[k] == block[k]
    {
      oKeyPad[i] := XorByte(iKeyPad[i], opad);
      iKeyPad[i] := XorByte(iKeyPad[i], ipad);
    }
    assert oKeyPad[..] == PadKey(block, opad) && iKeyPad[..] == PadKey(block, ipad);
  }

  /** The key block in a fresh buffer. */
  method LoadKey(v: Variant, key: seq<Byte>) returns (pad: array<Byte>)
    requires Lawful(v)
    ensures fresh(pad) && pad[..] == KeyBlock(v, key)
  {
    if |key| > BlockLength(v) {
      HashLength(v, key);
      var digest := Raw(v, key);
      pad := ZeroPadded(digest, BlockLength(v));
    } else {
      pad := ZeroPadded(key, BlockLength(v));
    }
  }

  method ZeroPadded(bytes: seq<Byte>, length: nat) returns (pad: array<Byte>)
    requires |bytes| <= length
    ensures fresh(pad) && pad[..] == bytes + Zeros(length - |bytes|)
  {
    pad := new Byte[length](_ => 0);
    for i := 0 to |bytes|
      invariant pad[..i] == bytes[..i] && forall k :: i <= k < pad.Length ==> pad[k] == 0
    {
      pad[i] := bytes[i];
    }
    assert pad[..] == bytes + Zeros(length - |bytes|);
  }

  /** `hmac_sha256` and `hmac_sha512`. */
  method Compute(v: Variant, key: seq<Byte>, msg: seq<Byte>) returns (mac: seq<Byte>)
    requires Lawful(v)
    ensures mac == Mac(v, key, msg)
  {
    var context := new Context.Init(v, key);
    context.Update(msg);
    mac := context.Final();
  }

  // ---- The precomputed states ----

  /** The state after one block. */
  ghost function AfterBlock(v: Variant, block: seq<Byte>): (s: seq<nat>)
    requires Lawful(v) && |block| == BlockLength(v)
    ensures |s| == 8
  {
    Compress(v, v.iv, Words(v, block))
  }

  ghost function InnerState(v: Variant, key: seq<Byte>): (s: seq<nat>)
    requires Lawful(v)
    ensures |s| == 8
  {
    seq(8, i requires 0 <= i < 8 => AfterBlock(v, PadKey(KeyBlock(v, key), IPAD))[i])
  }

  ghost function OuterState(v: Variant, key: seq<Byte>): (s: seq<nat>)
    requires Lawful(v)
    ensures |s| == 8
  {
    seq(8, i requires 0 <= i < 8 => AfterBlock(v, PadKey(KeyBlock(v, key), OPAD))[i])
  }

  lemma KeyStates(v: Variant, key: seq<Byte>)
    requires Lawful(v)
    ensures InnerState(v, key) == AfterBlock(v, PadKey(KeyBlock(v, key), IPAD))
    ensures OuterState(v, key) == AfterBlock(v, PadKey(KeyBlock(v, key), OPAD))
  {}

  /** A hash whose first block is known can start from the state after it. */
  lemma HashAfterBlock(v: Variant, block: seq<Byte>, m: seq<Byte>)
    requires Lawful(v) && |block| == BlockLength(v)
    ensures Hash(v, block + m) == HashFrom(v, AfterBlock(v, block), BlockLength(v), m)
  {
    AbsorbBlock(v, v.iv, [], block);
    assert [] + block == block;
    HashResumes(v, block, m);
  }

  /** So a MAC needs the key only through the two states. */
  lemma MacFromStates(v: Variant, key: seq<Byte>, m: seq<Byte>)
    requires Lawful(v)
    ensures Mac(v, key, m)
         == HashFrom(v, OuterState(v, key), BlockLength(v), HashFrom(v, InnerState(v, key), BlockLength(v), m))
  {
    var k := KeyBlock(v, key);
    KeyStates(v, key);
    HashAfterBlock(v, PadKey(k, IPAD), m);
    HashAfterBlock(v, PadKey(k, OPAD), Hash(v, PadKey(k, IPAD) + m));
  }

  /** A byte repeated over a word: 0x5c5c5c5c for example. */
  function Pattern(n: nat, c: Byte): nat {
    Val(Repeated(c, n), 256)
  }

  lemma PadKeyWord(v: Variant, block: seq<Byte>, c: Byte, i: nat)
    requires (v.n == 4 || v.n == 8) && |block| == BlockLength(v) && i < 16
    ensures WordAt(v.n, PadKey(block, c), i) == Xor(WordAt(v.n, block, i), Pattern(v.n, c))
  {
    var at, n := i * v.n, v.n;
    assert PadKey(block, c)[at..at + n] == XorBytes(block[at..at + n], Repeated(c, n));
    XorWord(block[at..at + n], Repeated(c, n));
  }

  /** The words of a block, xored with a byte repeated over the word. */
  ghost predicate Masked(w: seq<nat>, words: seq<nat>, mask: nat) {
    |w| == |words| && forall k :: 0 <= k < |w| ==> words[k] == Xor(w[k], mask)
  }

  lemma MaskedWords(v: Variant, block: seq<Byte>, c: Byte, words: seq<nat>)
    requires Lawful(v) && |block| == BlockLength(v) && Masked(Words(v, block), words, Pattern(v.n, c))
    ensures words == Words(v, PadKey(block, c))
  {
    forall k | 0 <= k < 16
      ensures words[k] == Words(v, PadKey(block, c))[k]
    {
      PadKeyWord(v, block, c, k);
    }
  }

  method ApplyMask(words: array<nat>, mask: nat)
    modifies words
    ensures Masked(old(words[..]), words[..], mask)
  {
    for i := 0 to words.Length
      invariant forall k :: 0 <= k < i ==> words[k] == Xor(old(words[k]), mask)
      invariant forall k :: i <= k < words.Length ==> words[k] == old(words[k])
    {
      words[i] := Xor(words[i], mask);
    }
  }

  /** `x ^ old ^ new` on every word turns one mask into the other. */
  method SwitchMask(words: array<nat>, mask: nat, next: nat, ghost w: seq<nat>)
    requires Masked(w, words[..], mask)
    modifies words
    ensures Masked(w, words[..], next)
  {
    for i := 0 to words.Length
      invariant forall k :: 0 <= k < i ==> words[k] == Xor(w[k], next)
      invariant forall k :: i <= k < words.Length ==> words[k] == Xor(w[k], mask)
    {
      XorReplace(w[i], mask, next);
      words[i] := Xor(Xor(words[i], mask), next);
    }
  }

  /** `hmac_sha256_prepare` and `hmac_sha512_prepare`: the pads are made and compressed word by word,
      the inner one by undoing the outer. */
  method Prepare(v: Variant, key: seq<Byte>) returns (opadDigest: array<nat>, ipadDigest: array<nat>)
    requires Lawful(v)
    ensures fresh(opadDigest) && fresh(ipadDigest) && opadDigest != ipadDigest
    ensures opadDigest[..] == OuterState(v, key) && ipadDigest[..] == InnerState(v, key)
  {
    ghost var block := KeyBlock(v, key);
    KeyStates(v, key);
    var pad := LoadKey(v, key);
    var keyPad := HostOrder(v, pad[..]);
    ApplyMask(keyPad, Pattern(v.n, OPAD));
    MaskedWords(v, block, OPAD, keyPad[..]);
    opadDigest := FromStart(v, keyPad);
    SwitchMask(keyPad, Pattern(v.n, OPAD), Pattern(v.n, IPAD), Words(v, block));
    MaskedWords(v, block, IPAD, keyPad[..]);
    ipadDigest := FromStart(v, keyPad);
  }

  /** One block compressed into the initial value. */
  method FromStart(v: Variant, words: array<nat>) returns (digest: array<nat>)
    requires Lawful(v) && words.Length == 16
    ensures fresh(digest) && digest[..] == Compress(v, v.iv, words[..])
  {
    var iv := new nat[8](i requires 0 <= i < 8 => v.iv[i]);
    digest := new nat[8](_ => 0);
    assert iv[..8] == v.iv && words[..16] == words[..];
    Transform(v, iv, words, digest);
    assert digest[..8] == digest[..];
  }
}
