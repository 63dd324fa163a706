/** The streaming SHA-2 context: a state, a partly filled block and a bit count, updated in place. */
module Sha2Context {
  import opened Bytes
  import opened Sha2
  import opened Sha2Spec

  /** The words of a block in host order. */
  method HostOrder(v: Variant, block: seq<Byte>) returns (data: array<nat>)
    requires (v.n == 4 || v.n == 8) && |block| == BlockLength(v)
    ensures fresh(data) && data[..] == Words(v, block)
  {
    data := new nat[16](_ => 0);
    for j := 0 to 16
      invariant forall k :: 0 <= k < j ==> data[k] == WordAt(v.n, block, k)
    {
      data[j] := Val(block[j * v.n..j * v.n + v.n], 256);
    }
  }

  class Context {
    const v: Variant
    const state: array<nat>
    const buffer: array<Byte>
    /** The bit count: one 64-bit word for SHA-256, two for SHA-512, low word first. */
    var low: U64
    var high: U64

    /** The state hashing started from, and the number of bytes absorbed before that. */
    ghost var base: seq<nat>
    ghost var before: nat
    /** The whole blocks taken since, and the bytes after them. */
    ghost var blocks: seq<Byte>
    ghost var rest: seq<Byte>
    /** How often the low word of the count wrapped around. */
    ghost var wraps: nat

    ghost function Taken(): seq<Byte>
      reads this
    {
      blocks + rest
    }

    ghost predicate Shape()
      reads this
    {
      && Lawful(v)
      && state.Length == 8 && buffer.Length == BlockLength(v)
      && (state as object) != (buffer as object)
      && |base| == 8 && Used(v, before) == 0
      && Used(v, |blocks|) == 0 && |rest| < BlockLength(v)
    }

    /** The count is the number of bits so far, modulo 2^64 or 2^128. */
    ghost predicate Counted()
      reads this
    {
      && low + TWO64 * wraps == 8 * (before + |blocks| + |rest|)
      && (v.n == 8 ==> high == wraps % TWO64)
    }

    /** The state has absorbed every whole block taken, and the buffer holds the rest. */
    ghost predicate Valid()
      reads this, state, buffer
    {
      && Shape() && Counted()
      && state[..] == Absorb(v, base, blocks)
      && buffer[..|rest|] == rest
    }

    /** An empty context. */
    constructor Init(v: Variant)
      requires Lawful(v)
      ensures Valid() && this.v == v && base == v.iv && before == 0 && Taken() == []
      ensures fresh(state) && fresh(buffer)
    {
      this.v := v;
      state := new nat[8](i requires 0 <= i < 8 => v.iv[i]);
      buffer := new Byte[BlockLength(v)](_ => 0);
      low, high := 0, 0;
      base, before, blocks, rest, wraps := v.iv, 0, [], [], 0;
      new;
      assert state[..] == v.iv;
    }

    /** `Init` on a context used before. */
    method Reinit()
      requires Lawful(v) && state.Length == 8 && buffer.Length == BlockLength(v) && (state as object) != (buffer as object)
      modifies this, state, buffer
      ensures Valid() && base == v.iv && before == 0 && Taken() == []
    {
      for i := 0 to 8
        invariant forall k :: 0 <= k < i ==> state[k] == v.iv[k]
      {
        state[i] := v.iv[i];
      }
      ZeroFill(0, buffer.Length);
      low, high := 0, 0;
      base, before, blocks, rest, wraps := v.iv, 0, [], [], 0;
      assert state[..] == v.iv;
    }

    /** A context resumed from a stored state, one block after the start. */
    constructor Resume(v: Variant, midstate: seq<nat>)
      requires Lawful(v) && |midstate| == 8
      ensures Valid() && this.v == v && base == midstate && before == BlockLength(v) && Taken() == []
      ensures fresh(state) && fresh(buffer)
    {
      this.v := v;
      state := new nat[8](i requires 0 <= i < 8 => midstate[i]);
      buffer := new Byte[BlockLength(v)](_ => 0);
      low, high := BlockLength(v) * 8, 0;
      base, before, blocks, rest, wraps := midstate, BlockLength(v), [], [], 0;
      new;
      assert state[..] == midstate;
    }

    /** `bitcount += bits`, or ADDINC128: the low word grows, and the high word when the low one wraps. */
    method AddBits(bits: nat, ghost bytes: nat)
      requires bits == 8 * bytes && bits < TWO64
      requires low + TWO64 * wraps == 8 * (before + |blocks| + |rest|) && (v.n == 8 ==> high == wraps % TWO64)
      modifies this`low, this`high, this`wraps
      ensures low + TWO64 * wraps == 8 * (before + |blocks| + |rest| + bytes)
      ensures v.n == 8 ==> high == wraps % TWO64
    {
      Carried(low, bits, high, wraps);
      wraps := wraps + (low + bits) / TWO64;
      low := (low + bits) % TWO64;
      if v.n == 8 && low < bits {
        high := (high + 1) % TWO64;
      }
    }

    /** `memcpy` into the buffer. */
    method CopyIn(at: nat, chunk: seq<Byte>)
      requires at + |chunk| <= buffer.Length
      modifies buffer
      ensures buffer[..] == old(buffer[..at]) + chunk + old(buffer[at + |chunk|..])
    {
      for i := 0 to |chunk|
        invariant buffer[..at] == old(buffer[..at]) && buffer[at + |chunk|..] == old(buffer[at + |chunk|..])
        invariant forall k :: 0 <= k < i ==> buffer[at + k] == chunk[k]
      {
        buffer[at + i] := chunk[i];
      }
      assert buffer[at..at + |chunk|] == chunk;
      assert buffer[..] == buffer[..at] + buffer[at..at + |chunk|] + buffer[at + |chunk|..];
    }

    /** Compress the buffer into the state. */
    method Process()
      requires Lawful(v) && state.Length == 8 && buffer.Length == BlockLength(v)
      modifies state
      ensures state[..] == Compress(v, old(state[..]), Words(v, old(buffer[..])))
    {
      var data := HostOrder(v, buffer[..]);
      assert data[..16] == data[..] && state[..8] == state[..];
      Transform(v, state, data, state);
      assert state[..8] == state[..];
    }

    /** Take bytes that do not complete the block. */
    method TakePart(at: nat, chunk: seq<Byte>)
      requires Valid() && at == |rest| && at + |chunk| < BlockLength(v)
      modifies this, buffer
      ensures Valid() && Taken() == old(Taken()) + chunk && base == old(base) && before == old(before)
    {
      CopyIn(at, chunk);
      AddBits(8 * |chunk|, |chunk|);
      rest := rest + chunk;
      assert buffer[..|rest|] == rest;
    }

    /** Take bytes that complete the block, and compress it. */
    method TakeBlock(at: nat, chunk: seq<Byte>)
      requires Valid() && at == |rest| && at + |chunk| == BlockLength(v)
      modifies this, state, buffer
      ensures Valid() && Taken() == old(Taken()) + chunk && base == old(base) && before == old(before)
      ensures rest == []
    {
      ghost var block := rest + chunk;
      CopyIn(at, chunk);
      AddBits(8 * |chunk|, |chunk|);
      assert buffer[..] == block;
      AbsorbBlock(v, base, blocks, block);
      Process();
      blocks, rest := blocks + block, [];
    }

    /** Complete the block begun, or take in everything if that does not suffice. */
    method TopUp(data: seq<Byte>) returns (pos: nat)
      requires Valid()
      modifies this, state, buffer
      ensures Valid() && pos <= |data| && (pos < |data| ==> rest == [])
      ensures Taken() == old(Taken()) + data[..pos] && base == old(base) && before == old(before)
    {
      var usedspace := FillLevel();
      if usedspace == 0 {
        return 0;
      }
      var freespace := BlockLength(v) - usedspace;
      if |data| >= freespace {
        TakeBlock(usedspace, data[..freespace]);
        return freespace;
      }
      TakePart(usedspace, data);
      assert data[..|data|] == data;
      return |data|;
    }

    /** Append data, compressing each block as it fills up. */
    method Update(data: seq<Byte>)
      requires Valid()
      modifies this, state, buffer
      ensures Valid() && Taken() == old(Taken()) + data && base == old(base) && before == old(before)
    {
      if |data| == 0 {
        return;
      }
      ghost var taken := Taken();
      var pos := TopUp(data);
      if pos == |data| {
        NextSlice(taken, data, pos, pos);
        return;
      }
      while |data| - pos >= BlockLength(v)
        invariant 0 <= pos <= |data| && Valid() && rest == []
        invariant Taken() == taken + data[..pos] && base == old(base) && before == old(before)
      {
        TakeBlock(0, data[pos..pos + BlockLength(v)]);
        NextSlice(taken, data, pos, pos + BlockLength(v));
        pos := pos + BlockLength(v);
      }
      if pos < |data| {
        TakePart(0, data[pos..]);
      }
      NextSlice(taken, data, pos, |data|);
    }

    /** `memzero` on part of the buffer. */
    method ZeroFill(from: nat, to: nat)
      requires from <= to <= buffer.Length
      modifies buffer
      ensures buffer[..] == old(buffer[..from]) + Zeros(to - from) + old(buffer[to..])
    {
      for i := from to to
        invariant buffer[..from] == old(buffer[..from]) && buffer[to..] == old(buffer[to..])
        invariant forall k :: from <= k < i ==> buffer[k] == 0
      {
        buffer[i] := 0;
      }
      assert buffer[from..to] == Zeros(to - from);
      assert buffer[..] == buffer[..from] + buffer[from..to] + buffer[to..];
    }

    /** The fill of the buffer, read off the count. */
    method FillLevel() returns (usedspace: nat)
      requires Shape() && Counted()
      ensures usedspace == |rest|
    {
      UsedSpace(v, low, wraps, before, |blocks|, |rest|);
      usedspace := low / 8 % BlockLength(v);
    }

    /** Begin the padding; when no room for the length is left, it takes one more block. */
    method BeginPadding(fill: nat, ghost len: nat)
      requires Shape() && len == before + |blocks| + |rest| && fill == |rest|
      requires state[..] == Absorb(v, base, blocks) && buffer[..fill] == rest
      modifies state, buffer
      ensures var short := BlockLength(v) - 2 * v.n;
        PaddedState(v, base, blocks, rest, len) == Compress(v, state[..], Words(v, buffer[..short] + LengthField(v, len)))
    {
      buffer[fill] := 0x80;
      assert buffer[..fill + 1] == rest + [0x80];
      var usedspace := Spill(fill + 1, len);
      ClearToLength(usedspace, LengthField(v, len), PaddedState(v, base, blocks, rest, len));
    }

    /** Complete and compress a block that has no room for the length; its fill is then 0. */
    method Spill(usedspace: nat, ghost len: nat) returns (fill: nat)
      requires Shape() && len == before + |blocks| + |rest| && usedspace == |rest| + 1
      requires state[..] == Absorb(v, base, blocks) && buffer[..usedspace] == rest + [0x80]
      modifies state, buffer
      ensures fill <= BlockLength(v) - 2 * v.n
      ensures Ready(v, state[..], buffer[..fill], LengthField(v, len), PaddedState(v, base, blocks, rest, len))
    {
      fill := usedspace;
      if usedspace > BlockLength(v) - 2 * v.n {
        PaddedTwoBlocks(v, base, blocks, rest, before, len);
        FillAndProcess(usedspace);
        fill := 0;
        assert buffer[..fill] == [];
      } else {
        PaddedOneBlock(v, base, blocks, rest, before, len);
      }
    }

    /** `memzero` up to the length field. */
    method ClearToLength(usedspace: nat, ghost length: seq<Byte>, ghost end: seq<nat>)
      requires Lawful(v) && state.Length == 8 && buffer.Length == BlockLength(v) && (state as object) != (buffer as object)
      requires usedspace <= BlockLength(v) - 2 * v.n && |length| == 2 * v.n
      requires Ready(v, state[..], buffer[..usedspace], length, end)
      modifies buffer
      ensures end == Compress(v, state[..], Words(v, buffer[..BlockLength(v) - 2 * v.n] + length))
    {
      var short := BlockLength(v) - 2 * v.n;
      ghost var begun := buffer[..usedspace];
      ghost var z := Zeros(short - usedspace);
      CompletedIs(v, begun, z, length);
      ZeroFill(usedspace, short);
      assert buffer[..short] == begun + z;
    }

    method FillAndProcess(usedspace: nat)
      requires Lawful(v) && state.Length == 8 && buffer.Length == BlockLength(v) && usedspace <= BlockLength(v)
      modifies state, buffer
      ensures state[..] == Compress(v, old(state[..]), Words(v, Completed(v, old(buffer[..usedspace]), [])))
    {
      ghost var block := Completed(v, buffer[..usedspace], []);
      ZeroFill(usedspace, BlockLength(v));
      assert buffer[..] == block;
      Process();
    }

    /** Store the length in the last two words and compress. */
    method StoreLength(ghost len: nat)
      requires Shape() && low + TWO64 * wraps == 8 * len && (v.n == 8 ==> high == wraps % TWO64)
      modifies state
      ensures var short := BlockLength(v) - 2 * v.n;
        state[..] == Compress(v, old(state[..]), Words(v, old(buffer[..short]) + LengthField(v, len)))
    {
      var short := BlockLength(v) - 2 * v.n;
      var data := HostOrder(v, buffer[..]);
      if v.n == 4 {
        data[14], data[15] := low / WORD, low % WORD;
      } else {
        data[14], data[15] := high, low;
      }
      LastWords(v, buffer[..], data[..], len, low, high, wraps);
      assert data[..16] == data[..] && state[..8] == state[..];
      Transform(v, state, data, state);
      assert state[..8] == state[..];
    }

    /** The state words, most significant byte first. */
    method Emit() returns (digest: seq<Byte>)
      requires state.Length == 8
      ensures digest == Digest(v, state[..])
    {
      digest := [];
      for j := 0 to 8
        invariant digest == Digest(v, state[..j])
      {
        assert state[..j + 1][..j] == state[..j];
        digest := digest + BE(state[j], v.n);
      }
      assert state[..8] == state[..];
    }

    /** The digest; the context is wiped. */
    method Final() returns (digest: seq<Byte>)
      requires Valid()
      modifies this, state, buffer
      ensures digest == HashFrom(v, old(base), old(before), old(Taken()))
      ensures state[..] == seq(8, _ => 0) && buffer[..] == Zeros(BlockLength(v)) && low == 0 && high == 0
    {
      ghost var len := before + |blocks| + |rest|;
      HashIsFinish(v, base, before, Taken(), len);
      var usedspace := FillLevel();
      BeginPadding(usedspace, len);
      StoreLength(len);
      digest := Emit();
      Wipe();
    }

    /** `memzero` on the context. */
    method Wipe()
      requires state.Length == 8 && (state as object) != (buffer as object)
      modifies this`low, this`high, state, buffer
      ensures state[..] == seq(8, _ => 0) && buffer[..] == Zeros(buffer.Length) && low == 0 && high == 0
    {
      ZeroFill(0, buffer.Length);
      for j := 0 to 8
        invariant forall k :: 0 <= k < j ==> state[k] == 0
        invariant buffer[..] == Zeros(buffer.Length)
      {
        state[j] := 0;
      }
      low, high := 0, 0;
    }
  }

  /** `Raw`: hash one byte string. */
  method Raw(v: Variant, data: seq<Byte>) returns (digest: seq<Byte>)
    requires Lawful(v)
    ensures digest == Hash(v, data)
  {
    digest := HashPieces(v, [data]);
    assert Concat([data]) == Concat([]) + data == data;
  }

  /** Bytes taken in slice by slice. */
  lemma NextSlice(taken: seq<Byte>, data: seq<Byte>, p: nat, q: nat)
    requires p <= q <= |data|
    ensures (taken + data[..p]) + data[p..q] == taken + data[..q]
    ensures (taken + data[..p]) + data[p..] == taken + data
    ensures p == |data| ==> taken + data[..p] == taken + data
  {}

  /** However a message is cut into updates, the digest is its hash. */
  method HashPieces(v: Variant, pieces: seq<seq<Byte>>) returns (digest: seq<Byte>)
    requires Lawful(v)
    ensures digest == Hash(v, Concat(pieces))
  {
    var context := new Context.Init(v);
    for i := 0 to |pieces|
      invariant fresh(context) && fresh(context.state) && fresh(context.buffer)
      invariant context.Valid() && context.v == v && context.base == v.iv && context.before == 0
      invariant context.Taken() == Concat(pieces[..i])
    {
      context.Update(pieces[i]);
      assert pieces[..i + 1][..i] == pieces[..i];
    }
    assert pieces[..|pieces|] == pieces;
    digest := context.Final();
  }

  /** The state after the padded message. */
  ghost function PaddedState(v: Variant, base: seq<nat>, blocks: seq<Byte>, rest: seq<Byte>, len: nat): seq<nat>
    requires (v.n == 4 || v.n == 8) && |base| == 8
  {
    var m := (blocks + rest) + Padding(v, len);
    if Used(v, |m|) == 0 then Absorb(v, base, m) else []
  }

  /** A block begun, filled up with zeros, and ended. */
  ghost function Completed(v: Variant, begun: seq<Byte>, end: seq<Byte>): (b: seq<Byte>)
    requires |begun| + |end| <= BlockLength(v)
    ensures |b| == BlockLength(v)
  {
    (begun + Zeros(BlockLength(v) - |end| - |begun|)) + end
  }

  /** Once the last block is completed, compressing it gives the end state. */
  ghost predicate Ready(v: Variant, state: seq<nat>, begun: seq<Byte>, length: seq<Byte>, end: seq<nat>) {
    && (v.n == 4 || v.n == 8) && |state| == 8 && |begun| + |length| <= BlockLength(v)
    && end == Compress(v, state, Words(v, Completed(v, begun, length)))
  }

  /** The two shapes of the padding, by the fill of the last block. */
  lemma PaddingShort(v: Variant, len: nat, k: nat)
    requires v.n == 4 || v.n == 8
    requires Used(v, len) + 1 + k == BlockLength(v) - 2 * v.n
    ensures Padding(v, len) == [0x80] + Zeros(k) + LengthField(v, len)
  {}

  lemma PaddingLong(v: Variant, len: nat, k: nat, short: nat)
    requires v.n == 4 || v.n == 8
    requires Used(v, len) + 1 + k == BlockLength(v) && short == BlockLength(v) - 2 * v.n && k < 2 * v.n
    ensures Padding(v, len) == [0x80] + (Zeros(k) + Zeros(short)) + LengthField(v, len)
  {
    assert Zeros(k) + Zeros(short) == Zeros(ZeroBytes(v, len));
  }

  /** How the padding falls when the length still fits into the block begun. */
  lemma PaddedOneBlock(v: Variant, base: seq<nat>, blocks: seq<Byte>, rest: seq<Byte>, before: nat, len: nat)
    requires (v.n == 4 || v.n == 8) && |base| == 8
    requires Used(v, before) == 0 && Used(v, |blocks|) == 0 && len == before + |blocks| + |rest|
    requires |rest| + 1 <= BlockLength(v) - 2 * v.n
    ensures Ready(v, Absorb(v, base, blocks), rest + [0x80], LengthField(v, len), PaddedState(v, base, blocks, rest, len))
  {
    var k := BlockLength(v) - 2 * v.n - (|rest| + 1);
    FillOf(v, before, |blocks|, |rest|, len);
    PaddingShort(v, len, k);
    PaddedInOne(v, base, blocks, rest, len, [0x80], Zeros(k), LengthField(v, len));
  }

  lemma PaddedInOne(v: Variant, base: seq<nat>, blocks: seq<Byte>, rest: seq<Byte>, len: nat, x: seq<Byte>, z: seq<Byte>, f: seq<Byte>)
    requires (v.n == 4 || v.n == 8) && |base| == 8 && Used(v, |blocks|) == 0
    requires Padding(v, len) == x + z + f && |rest| + |x| + |z| + |f| == BlockLength(v) && z == Zeros(|z|)
    ensures Ready(v, Absorb(v, base, blocks), rest + x, f, PaddedState(v, base, blocks, rest, len))
  {
    var block := Completed(v, rest + x, f);
    CompletedIs(v, rest + x, z, f);
    AbsorbBlock(v, base, blocks, block);
    RegroupOne(blocks, rest, x, z, f);
    PaddedWhole(v, base, blocks, rest, len, blocks + block);
  }

  lemma CompletedIs(v: Variant, begun: seq<Byte>, z: seq<Byte>, f: seq<Byte>)
    requires |begun| + |z| + |f| == BlockLength(v) && z == Zeros(|z|)
    ensures Completed(v, begun, f) == (begun + z) + f
  {}

  /** And when it needs one more block. */
  lemma PaddedTwoBlocks(v: Variant, base: seq<nat>, blocks: seq<Byte>, rest: seq<Byte>, before: nat, len: nat)
    requires (v.n == 4 || v.n == 8) && |base| == 8
    requires Used(v, before) == 0 && Used(v, |blocks|) == 0 && len == before + |blocks| + |rest|
    requires BlockLength(v) - 2 * v.n < |rest| + 1 <= BlockLength(v)
    ensures Ready(v, Compress(v, Absorb(v, base, blocks), Words(v, Completed(v, rest + [0x80], []))), [],
                  LengthField(v, len), PaddedState(v, base, blocks, rest, len))
  {
    var k, short := BlockLength(v) - (|rest| + 1), BlockLength(v) - 2 * v.n;
    FillOf(v, before, |blocks|, |rest|, len);
    PaddingLong(v, len, k, short);
    PaddedInTwo(v, base, blocks, rest, len, [0x80], Zeros(k), Zeros(short), LengthField(v, len));
  }

  lemma PaddedInTwo(v: Variant, base: seq<nat>, blocks: seq<Byte>, rest: seq<Byte>, len: nat,
                    x: seq<Byte>, z1: seq<Byte>, z2: seq<Byte>, f: seq<Byte>)
    requires (v.n == 4 || v.n == 8) && |base| == 8 && Used(v, |blocks|) == 0
    requires Padding(v, len) == x + (z1 + z2) + f && z1 == Zeros(|z1|) && z2 == Zeros(|z2|)
    requires |rest| + |x| + |z1| == BlockLength(v) && |z2| + |f| == BlockLength(v)
    ensures Ready(v, Compress(v, Absorb(v, base, blocks), Words(v, Completed(v, rest + x, []))), [], f,
                  PaddedState(v, base, blocks, rest, len))
  {
    var first, last := Completed(v, rest + x, []), Completed(v, [], f);
    CompletedIs(v, rest + x, z1, []);
    CompletedIs(v, [], z2, f);
    AbsorbBlock(v, base, blocks, first);
    AbsorbBlock(v, base, blocks + first, last);
    RegroupTwo(blocks, rest, x, z1, z2, f);
    PaddedWhole(v, base, blocks, rest, len, (blocks + first) + last);
  }

  lemma PaddedWhole(v: Variant, base: seq<nat>, blocks: seq<Byte>, rest: seq<Byte>, len: nat, whole: seq<Byte>)
    requires (v.n == 4 || v.n == 8) && |base| == 8
    requires (blocks + rest) + Padding(v, len) == whole && Used(v, |whole|) == 0
    ensures PaddedState(v, base, blocks, rest, len) == Absorb(v, base, whole)
  {}

  lemma RegroupOne(b: seq<Byte>, r: seq<Byte>, x: seq<Byte>, z: seq<Byte>, f: seq<Byte>)
    ensures (b + r) + (x + z + f) == b + (((r + x) + z) + f)
  {}

  lemma RegroupTwo(b: seq<Byte>, r: seq<Byte>, x: seq<Byte>, z1: seq<Byte>, z2: seq<Byte>, f: seq<Byte>)
    ensures (b + r) + (x + (z1 + z2) + f) == (b + (((r + x) + z1) + [])) + (([] + z2) + f)
  {}

  lemma FillOf(v: Variant, before: nat, whole: nat, rest: nat, len: nat)
    requires Used(v, before) == 0 && Used(v, whole) == 0 && rest < BlockLength(v) && len == before + whole + rest
    ensures Used(v, len) == rest
  {
    UsedAfter(v, before, whole + rest);
    UsedAfter(v, whole, rest);
  }

  /** The words of the last block: the buffer's, and the bit count in the last two. */
  lemma LastWords(v: Variant, buffer: seq<Byte>, data: seq<nat>, len: nat, low: U64, high: U64, wraps: nat)
    requires (v.n == 4 || v.n == 8) && |buffer| == BlockLength(v) && |data| == 16
    requires low + TWO64 * wraps == 8 * len && (v.n == 8 ==> high == wraps % TWO64)
    requires forall i :: 0 <= i < 14 ==> data[i] == Words(v, buffer)[i]
    requires v.n == 4 ==> data[14] == low / WORD && data[15] == low % WORD
    requires v.n == 8 ==> data[14] == high && data[15] == low
    ensures data == Words(v, buffer[..BlockLength(v) - 2 * v.n] + LengthField(v, len))
  {
    var short, n := BlockLength(v) - 2 * v.n, v.n;
    var block := buffer[..short] + LengthField(v, len);
    LengthFieldBytes(v, len);
    LengthWords(n, len, low, high, wraps);
    forall i | 0 <= i < 16
      ensures i * n + n <= |block| && data[i] == WordAt(n, block, i)
    {
      if i < 14 {
        MulMonotone(n, i + 1, 14);
        assert n * (i + 1) == i * n + n;
        FrontSlice(buffer, LengthField(v, len), short, i * n, i * n + n);
      } else {
        BackSlices(buffer[..short], LengthField(v, len), n);
      }
    }
  }

  lemma FrontSlice(x: seq<Byte>, f: seq<Byte>, short: nat, lo: nat, hi: nat)
    requires lo <= hi <= short <= |x|
    ensures (x[..short] + f)[lo..hi] == x[lo..hi]
  {}

  lemma BackSlices(x: seq<Byte>, f: seq<Byte>, n: nat)
    requires |x| == 14 * n && |f| == 2 * n
    ensures (x + f)[14 * n..14 * n + n] == f[..n] && (x + f)[15 * n..15 * n + n] == f[n..]
  {}

  /** The count grows by the bits; the low word wraps exactly when it comes out below them. */
  lemma Carried(low: U64, bits: nat, high: U64, wraps: nat)
    requires bits < TWO64
    ensures var low', wraps' := (low + bits) % TWO64, wraps + (low + bits) / TWO64;
      && low' + TWO64 * wraps' == low + TWO64 * wraps + bits
      && (high == wraps % TWO64 ==> (if low' < bits then (high + 1) % TWO64 else high) == wraps' % TWO64)
  {}

  /** The two words of the length field. */
  lemma LengthWords(n: nat, len: nat, low: U64, high: U64, wraps: nat)
    requires (n == 4 || n == 8) && low + TWO64 * wraps == 8 * len && (n == 8 ==> high == wraps % TWO64)
    ensures var f := BE(8 * len, 2 * n);
      && Val(f[..n], 256) == (if n == 4 then low / WORD else high)
      && Val(f[n..], 256) == (if n == 4 then low % WORD else low)
  {
    Powers();
    if n == 4 {
      BEModulo(low, wraps, 8);
      var h, l := low / WORD, low % WORD;
      BEConcat(h, l, 4, 4);
      ValOfBE(h, 4);
      ValOfBE(l, 4);
    } else {
      BEConcat(wraps, low, 8, 8);
      BEModulo(high, wraps / TWO64, 8);
      ValOfBE(high, 8);
      ValOfBE(low, 8);
    }
  }

  lemma Powers()
    ensures Pow(256, 4) == WORD && Pow(256, 8) == TWO64
  {
    assert Pow(256, 2) == 0x1_0000;
    PowAdd(256, 2, 2);
    PowAdd(256, 4, 4);
  }

  /** The fill of the buffer, read off the bit count. */
  lemma UsedSpace(v: Variant, low: nat, wraps: nat, before: nat, whole: nat, rest: nat)
    requires low + TWO64 * wraps == 8 * (before + whole + rest)
    requires Used(v, before) == 0 && Used(v, whole) == 0 && rest < BlockLength(v)
    ensures low / 8 % BlockLength(v) == rest
  {
    var b := BlockLength(v);
    var q := TWO64 / 8 * wraps;
    assert low / 8 + q == before + whole + rest;
    assert Used(v, q) == 0 by {
      if v.n == 4 { DivModUnique(q, 64, TWO64 / 512 * wraps, 0); } else { DivModUnique(q, 128, TWO64 / 1024 * wraps, 0); }
    }
    UsedAfter(v, q, low / 8);
    FillOf(v, before, whole, rest, before + whole + rest);
  }
}
