/** RIPEMD-160 as a stream: a buffer filled piece by piece, any pieces giving the hash of the whole.
    The compression of one block is a parameter. */
module Ripemd {
  import opened Bytes

  const BLOCK := 64
  const LENGTH_AT := 56

  /** Chaining words and a block to new chaining words. */
  type Compression = (seq<U32>, seq<Byte>) -> seq<U32>

  function InitialH(): (h: seq<U32>)
    ensures |h| == 5
  {
    seq(5, i requires 0 <= i < 5 => InitialWord(i))
  }

  function InitialWord(i: nat): U32
    requires i < 5
  {
    if i == 0 then 0x6745_2301 else if i == 1 then 0xefcd_ab89 else if i == 2 then 0x98ba_dcfe else if i == 3 then 0x1032_5476
    else 0xc3d2_e1f0
  }

  // ---- The hash of a whole message ----

  /** The chaining words after the first n blocks. */
  function Chain(c: Compression, m: seq<Byte>, n: nat): seq<U32>
    requires n * BLOCK <= |m|
  {
    if n == 0 then InitialH() else c(Chain(c, m, n - 1), Block(m, n - 1))
  }

  function Block(m: seq<Byte>, i: nat): seq<Byte>
    requires (i + 1) * BLOCK <= |m|
  {
    m[i * BLOCK..(i + 1) * BLOCK]
  }

  /** The number of zero bytes between the byte 0x80 and the length. */
  function ZeroCount(len: nat): (k: nat)
    ensures k < BLOCK
  {
    if len % BLOCK < LENGTH_AT then LENGTH_AT - 1 - len % BLOCK else LENGTH_AT + BLOCK - 1 - len % BLOCK
  }

  /** It is the least number that completes a block. */
  lemma ZeroCountLeast(len: nat, k: nat)
    ensures (len + 1 + ZeroCount(len) + 8) % BLOCK == 0
    ensures k < ZeroCount(len) ==> (len + 1 + k + 8) % BLOCK != 0
  {}

  /** The message, the byte 0x80, zeros, and the length in bits, lowest byte first, modulo 2^64. */
  function Padded(m: seq<Byte>): (p: seq<Byte>)
    ensures |p| == |m| + 1 + ZeroCount(|m|) + 8
  {
    m + [0x80] + Zeros(ZeroCount(|m|)) + LE(|m| * 8, 8)
  }

  function WordBytes(h: seq<U32>): (s: seq<Byte>)
    ensures |s| == 4 * |h|
  {
    if h == [] then [] else LE(h[0], 4) + WordBytes(h[1..])
  }

  function Hash(c: Compression, m: seq<Byte>): seq<Byte> {
    WordBytes(Chain(c, Padded(m), |Padded(m)| / BLOCK))
  }

  /** Below 2^61 bytes no two messages are padded to the same blocks. */
  lemma PaddingUnambiguous(m: seq<Byte>, m': seq<Byte>)
    requires |m| < 0x2000_0000_0000_0000 && |m'| < 0x2000_0000_0000_0000 && Padded(m) == Padded(m')
    ensures m == m'
  {
    var p := Padded(m);
    assert p[|p| - 8..] == LE(|m| * 8, 8) == LE(|m'| * 8, 8);
    Pow8();
    FromLEofLE(|m| * 8, 8);
    FromLEofLE(|m'| * 8, 8);
    assert p[..|m|] == m && p[..|m'|] == m';
  }

  lemma Pow8()
    ensures Pow(256, 8) == TWO64
  {
    PowAdd(256, 4, 4);
    assert Pow(256, 2) == 0x1_0000;
    PowAdd(256, 2, 2);
  }

  lemma {:induction false} ChainOfPrefix(c: Compression, m: seq<Byte>, m': seq<Byte>, n: nat)
    requires n * BLOCK <= |m| && m <= m'
    ensures Chain(c, m, n) == Chain(c, m', n)
  {
    if n > 0 {
      ChainOfPrefix(c, m, m', n - 1);
      assert Block(m, n - 1) == Block(m', n - 1);
    }
  }

  // ---- The stream ----

  /** The chaining words cover the whole blocks, the buffer holds the rest and zeros behind it. */
  ghost predicate Covers(c: Compression, fed: seq<Byte>, h: seq<U32>, pos: nat, b: seq<Byte>) {
    && pos == |fed| % BLOCK
    && b == fed[|fed| - pos..] + Zeros(BLOCK - pos)
    && h == Chain(c, fed, |fed| / BLOCK)
  }

  /** The length counts bits, modulo 2^64. */
  ghost predicate LengthOf(bytes: nat, length: nat) {
    length == bytes * 8 % TWO64
  }

  class State {
    const compression: Compression
    var length: U64
    const buf: array<Byte>
    var h: seq<U32>
    var bufpos: nat

    /** Everything processed so far. */
    ghost var fed: seq<Byte>

    ghost predicate Valid()
      reads this, buf
    {
      && buf.Length == BLOCK
      && Covers(compression, fed, h, bufpos, buf[..])
      && LengthOf(|fed|, length)
    }

    constructor (c: Compression)
      ensures Valid() && fed == [] && compression == c && fresh(buf)
    {
      compression := c;
      length, h, bufpos, fed := 0, InitialH(), 0, [];
      buf := new Byte[BLOCK];
      new;
      ClearBuffer();
      NothingFed(compression, fed, h, bufpos, buf[..], length);
    }

    method ClearBuffer()
      requires buf.Length == BLOCK
      modifies buf
      ensures buf[..] == Zeros(BLOCK)
    {
      Fill(0, Zeros(BLOCK));
    }

    /** Compress the buffer, then clear it. */
    method Compress()
      requires buf.Length == BLOCK
      modifies this`h, this`bufpos, buf
      ensures h == compression(old(h), old(buf[..]))
      ensures bufpos == 0 && buf[..] == Zeros(BLOCK)
    {
      h := compression(h, buf[..]);
      ClearBuffer();
      bufpos := 0;
    }

    /** Copy bytes into the buffer. */
    method Fill(at: nat, p: seq<Byte>)
      requires buf.Length == BLOCK && at + |p| <= BLOCK
      modifies buf
      ensures buf[..] == old(buf[..at]) + p + old(buf[at + |p|..])
    {
      for i := 0 to |p|
        invariant buf[..] == old(buf[..at]) + p[..i] + old(buf[at + i..])
      {
        buf[at + i] := p[i];
      }
    }

    /** Take in more of the message. */
    method Process(p: seq<Byte>)
      requires Valid()
      modifies this, buf
      ensures Valid() && fed == old(fed) + p
    {
      var rest := p;
      assert fed + rest == old(fed) + p;
      while |rest| > 0
        invariant Valid() && fed + rest == old(fed) + p
        decreases |rest|
      {
        var bytesNeeded := BLOCK - bufpos;
        if |rest| >= bytesNeeded {
          TakeBlock(rest[..bytesNeeded]);
          assert old(fed) + p == fed + rest[bytesNeeded..];
          rest := rest[bytesNeeded..];
        } else {
          TakePart(rest);
          return;
        }
      }
    }

    method TakeBlock(p: seq<Byte>)
      requires Valid() && |p| == BLOCK - bufpos
      modifies this, buf
      ensures Valid() && fed == old(fed) + p
    {
      ghost var was, tail := fed, fed[|fed| - bufpos..];
      Fill(bufpos, p);
      Covered(tail, p, []);
      AddLength(length, |was|, |p|, |was + p|);
      bufpos := bufpos + |p|;
      length := (length + |p| * 8) % TWO64;
      fed := fed + p;
      assert buf[..] == tail + p;
      Compress();
      OneMore(compression, was, tail, p);
      assert fed[|fed|..] + Zeros(BLOCK) == Zeros(BLOCK);
    }

    method TakePart(p: seq<Byte>)
      requires Valid() && |p| < BLOCK - bufpos
      modifies this, buf
      ensures Valid() && fed == old(fed) + p
    {
      var next := bufpos + |p|;
      ghost var taken := fed + p;
      PartTaken(compression, fed, p, taken, h, bufpos, next, buf[..]);
      AddLength(length, |fed|, |p|, |taken|);
      assert buf[..][..bufpos] == buf[..bufpos] && buf[..][next..] == buf[next..];
      Fill(bufpos, p);
      bufpos := next;
      length := (length + |p| * 8) % TWO64;
      fed := taken;
    }

    /** Append the byte 0x80; the zeros behind it are there already. */
    method Mark()
      requires Valid()
      modifies this`bufpos, buf
      ensures bufpos == old(bufpos) + 1
      ensures buf[..] == fed[|fed| - old(bufpos)..] + [0x80] + Zeros(BLOCK - bufpos)
    {
      Fill(bufpos, [0x80]);
      Marked(fed[|fed| - bufpos..]);
      bufpos := bufpos + 1;
    }

    /** Store the length in the last two words. */
    method PutLength(ghost bits: nat)
      requires buf.Length == BLOCK && length == bits % TWO64
      modifies buf
      ensures buf[..] == old(buf[..LENGTH_AT]) + LE(bits, 8)
    {
      ghost var front := buf[..LENGTH_AT];
      var low, high := LE(length % WORD, 4), LE(length / WORD, 4);
      Fill(LENGTH_AT, low);
      Fill(LENGTH_AT + 4, high);
      LengthBytes(bits, length);
      assert buf[..] == front + (low + high);
    }

    /** Pad, compress and hand out the digest; the state is wiped. */
    method Done() returns (out: seq<Byte>)
      requires Valid()
      modifies this, buf
      ensures out == Hash(compression, old(fed))
      ensures length == 0 && buf[..] == Zeros(BLOCK) && h == seq(5, _ => 0) && bufpos == 0
    {
      ghost var m := fed;
      Mark();
      if bufpos > LENGTH_AT {
        bufpos := BLOCK;
        Compress();
        FinishLong(compression, m);
        ZerosTake(BLOCK, LENGTH_AT);
      } else {
        FinishShort(compression, m);
        TakeMost(m[|m| - bufpos + 1..] + [0x80], bufpos);
      }
      PutLength(|m| * 8);
      bufpos := BLOCK;
      Compress();
      out := WordBytes(h);
      length, h := 0, seq(5, _ => 0);
    }
  }

  lemma ZerosTake(n: nat, k: nat)
    requires k <= n
    ensures Zeros(n)[..k] == Zeros(k)
  {}

  lemma TakeMost(x: seq<Byte>, n: nat)
    requires |x| == n <= LENGTH_AT
    ensures (x + Zeros(BLOCK - n))[..LENGTH_AT] == x + Zeros(LENGTH_AT - n)
  {}

  // ---- Steps of the stream ----

  lemma NothingFed(c: Compression, fed: seq<Byte>, h: seq<U32>, pos: nat, b: seq<Byte>, length: nat)
    requires |fed| == pos == length == 0 && h == InitialH() && b == Zeros(BLOCK)
    ensures Covers(c, fed, h, pos, b) && LengthOf(|fed|, length)
  {
    NothingBehind(fed, pos, BLOCK);
    NoBlocks(c, fed, |fed| / BLOCK);
  }

  lemma NothingBehind(fed: seq<Byte>, pos: nat, size: nat)
    requires |fed| == pos == 0 <= size
    ensures fed[|fed| - pos..] + Zeros(size - pos) == Zeros(size)
  {
    EmptyFront(fed[|fed| - pos..], Zeros(size));
  }

  lemma EmptyFront(a: seq<Byte>, b: seq<Byte>)
    requires |a| == 0
    ensures a + b == b
  {}

  lemma NoBlocks(c: Compression, m: seq<Byte>, n: nat)
    requires n * BLOCK <= |m| && n == 0
    ensures Chain(c, m, n) == InitialH()
  {}

  lemma TailGrows(was: seq<Byte>, n: nat, p: seq<Byte>)
    requires n <= |was|
    ensures (was + p)[|was + p| - (n + |p|)..] == was[|was| - n..] + p
  {}

  /** Bytes that leave the block begun incomplete. */
  lemma PartTaken(c: Compression, was: seq<Byte>, p: seq<Byte>, m: seq<Byte>, h: seq<U32>, pos: nat, next: nat, b: seq<Byte>)
    requires Covers(c, was, h, pos, b) && m == was + p && pos + |p| == next < BLOCK
    ensures Covers(c, m, h, next, b[..pos] + p + b[next..])
  {
    SameBlock(c, was, p);
    TailGrows(was, pos, p);
    Covered(was[|was| - pos..], p, Zeros(BLOCK - next));
  }

  /** Bytes copied behind the tail, and what is left of the zeros. */
  lemma Covered(tail: seq<Byte>, p: seq<Byte>, left: seq<Byte>)
    requires |tail| + |p| + |left| == BLOCK && left == Zeros(|left|)
    ensures var b := tail + Zeros(BLOCK - |tail|); b[..|tail|] + p + b[|tail| + |p|..] == tail + p + left
  {}

  lemma Marked(tail: seq<Byte>)
    requires |tail| < BLOCK
    ensures var b := tail + Zeros(BLOCK - |tail|);
      b[..|tail|] + [0x80] + b[|tail| + 1..] == tail + [0x80] + Zeros(BLOCK - 1 - |tail|)
  {}

  lemma AddLength(length: nat, was: nat, more: nat, now: nat)
    requires LengthOf(was, length) && now == was + more
    ensures LengthOf(now, (length + more * 8) % TWO64)
  {}

  /** A completed block is one more link of the chain. */
  lemma OneMore(c: Compression, was: seq<Byte>, tail: seq<Byte>, p: seq<Byte>)
    requires |tail| == |was| % BLOCK && tail == was[|was| - |tail|..] && |tail| + |p| == BLOCK
    ensures |was + p| % BLOCK == 0
    ensures Chain(c, was + p, |was + p| / BLOCK) == c(Chain(c, was, |was| / BLOCK), tail + p)
  {
    var n := |was| / BLOCK;
    assert |was + p| == (n + 1) * BLOCK;
    ChainOfPrefix(c, was, was + p, n);
    EndSlice(was, tail, p, n * BLOCK, (n + 1) * BLOCK);
  }

  lemma EndSlice(was: seq<Byte>, tail: seq<Byte>, p: seq<Byte>, lo: nat, hi: nat)
    requires lo + |tail| == |was| && hi == |was + p| && tail == was[lo..]
    ensures (was + p)[lo..hi] == tail + p
  {}

  lemma SameBlock(c: Compression, was: seq<Byte>, p: seq<Byte>)
    requires |was| % BLOCK + |p| < BLOCK
    ensures |was + p| % BLOCK == |was| % BLOCK + |p|
    ensures Chain(c, was + p, |was + p| / BLOCK) == Chain(c, was, |was| / BLOCK)
  {
    assert |was + p| / BLOCK == |was| / BLOCK;
    ChainOfPrefix(c, was, was + p, |was| / BLOCK);
  }

  /** The padding when the length still fits the last block. */
  lemma FinishShort(c: Compression, m: seq<Byte>)
    requires |m| % BLOCK < LENGTH_AT
    ensures var u := |m| % BLOCK;
      Chain(c, Padded(m), |Padded(m)| / BLOCK)
        == c(Chain(c, m, |m| / BLOCK), m[|m| - u..] + [0x80] + Zeros(LENGTH_AT - 1 - u) + LE(|m| * 8, 8))
  {
    var u := |m| % BLOCK;
    var tail, zeros, bits := m[|m| - u..], Zeros(ZeroCount(|m|)), LE(|m| * 8, 8);
    Associated(m, [0x80], zeros, bits);
    Associated(tail, [0x80], zeros, bits);
    OneMore(c, m, tail, [0x80] + zeros + bits);
  }

  lemma Associated(w: seq<Byte>, x: seq<Byte>, y: seq<Byte>, z: seq<Byte>)
    ensures w + x + y + z == w + (x + y + z)
  {}

  /** The padding when it does not. */
  lemma FinishLong(c: Compression, m: seq<Byte>)
    requires |m| % BLOCK >= LENGTH_AT
    ensures var u := |m| % BLOCK;
      Chain(c, Padded(m), |Padded(m)| / BLOCK)
        == c(c(Chain(c, m, |m| / BLOCK), m[|m| - u..] + [0x80] + Zeros(BLOCK - 1 - u)), Zeros(LENGTH_AT) + LE(|m| * 8, 8))
  {
    var u := |m| % BLOCK;
    var tail, first, bits := m[|m| - u..], Zeros(BLOCK - 1 - u), LE(|m| * 8, 8);
    OneMore(c, m, tail, [0x80] + first);
    assert tail + ([0x80] + first) == tail + [0x80] + first;
    var m1 := m + ([0x80] + first);
    OneMore(c, m1, [], Zeros(LENGTH_AT) + bits);
    assert [] + (Zeros(LENGTH_AT) + bits) == Zeros(LENGTH_AT) + bits;
    assert Zeros(ZeroCount(|m|)) == first + Zeros(LENGTH_AT);
    TwoBlocks(m, [0x80], first, Zeros(LENGTH_AT), bits);
  }

  lemma TwoBlocks(m: seq<Byte>, x: seq<Byte>, y: seq<Byte>, z: seq<Byte>, b: seq<Byte>)
    ensures m + x + (y + z) + b == (m + (x + y)) + (z + b)
  {}

  // ---- The length field ----

  lemma {:induction false} LESplit(v: nat, a: nat, b: nat)
    ensures LE(v, a + b) == LE(v, a) + LE(v / Pow(256, a), b)
  {
    if a == 0 {
      assert Pow(256, 0) == 1;
    } else {
      LESplit(v / 256, a - 1, b);
      DivTwice(v, Pow(256, a - 1));
    }
  }

  lemma DivTwice(v: nat, p: nat)
    requires p > 0
    ensures v / 256 / p == v / (256 * p)
  {
    var q, r := v / 256 / p, v / 256 % p;
    DivFacts(v / 256, p);
    assert v == 256 * (p * q + r) + v % 256;
    assert 256 * (p * q + r) == q * (256 * p) + 256 * r;
    DivModUnique(v, 256 * p, q, 256 * r + v % 256);
  }

  lemma {:induction false} LEModulo(v: nat, n: nat)
    ensures LE(v % Pow(256, n), n) == LE(v, n)
  {
    if n > 0 {
      var p := Pow(256, n - 1);
      LEModulo(v / 256, n - 1);
      DivFacts(v / 256, p);
      var q, r := v / 256 / p, v / 256 % p;
      assert v == 256 * (p * q + r) + v % 256;
      assert 256 * (p * q + r) == q * (256 * p) + 256 * r;
      DivModUnique(v, 256 * p, q, 256 * r + v % 256);
      LowByte(v % 256, r);
    }
  }

  /** The two words of the length, low one first, are the eight bytes of the bit count. */
  lemma LengthBytes(bits: nat, length: U64)
    requires length == bits % TWO64
    ensures LE(length % WORD, 4) + LE(length / WORD, 4) == LE(bits, 8)
  {
    Pow8();
    LEModulo(bits, 8);
    LESplit(length, 4, 4);
    LEModulo(length, 4);
    assert Pow(256, 4) == WORD by { assert Pow(256, 2) == 0x1_0000; PowAdd(256, 2, 2); }
  }

  // ---- Any pieces ----

  /** However a message is cut into pieces, its digest is the hash of the whole. */
  method HashPieces(c: Compression, pieces: seq<seq<Byte>>) returns (out: seq<Byte>)
    ensures out == Hash(c, Concat(pieces))
  {
    var state := new State(c);
    for i := 0 to |pieces|
      invariant fresh(state) && fresh(state.buf) && state.Valid() && state.compression == c
      invariant state.fed == Concat(pieces[..i])
    {
      state.Process(pieces[i]);
      assert pieces[..i + 1][..i] == pieces[..i];
    }
    assert pieces[..|pieces|] == pieces;
    out := state.Done();
  }
}
