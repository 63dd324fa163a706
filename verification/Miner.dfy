/** The nonce search: three compressions per attempt on a precomputed state, against the plain
    hash of the header. */
module Miner {
  import opened Bytes
  import opened Sha2
  import opened Sha2Spec
  import opened Sha2Instances
  import opened BlockHeaders
  import opened Wrappers
  import Limbs
  import BaseUint
  import Compact
  import ArithBytes
  import Sha2Context
  import Pbkdf2
  import Hmac

  const TEMPLATE_REFRESH_MS := 15000

  // ---- The search, plainly ----

  /** What one turn of the loop sees outside: whether mining goes on, the best block if a chain is
      attached, and the clocks. */
  datatype Moment = Moment(running: bool, chain: bool, best: Bytes32, millis: U64, seconds: U64, secondsAtWrap: U64)

  /** Every 65536 attempts the template may have become stale. */
  predicate Abandons(count: nat, turn: Moment, builtOn: Bytes32, start: U64) {
    count % 0x1_0000 == 0
    && ((turn.chain && turn.best != builtOn) || (turn.millis - start) % TWO64 > TEMPLATE_REFRESH_MS)
  }

  /** Or its timestamp is brought up to date. */
  function Refreshed(h: Header, count: nat, turn: Moment): Header {
    if count % 0x1_0000 == 0 && turn.seconds > (h.timestamp + 60) % TWO64
    then h.(timestamp := turn.seconds) else h
  }

  /** The next attempt: the next nonce, or the first one under a new timestamp. */
  function Advanced(h: Header, turn: Moment): Header {
    if h.nonce == 0xffff_ffff then h.(timestamp := turn.secondsAtWrap, nonce := 0) else h.(nonce := h.nonce + 1)
  }

  /** The number a header's hash stands for. */
  ghost function HashValue(h: Header): nat {
    Val(HashOf(h), 256)
  }

  datatype Outcome = Found(header: Header) | Stopped(header: Header)

  /** Try headers one by one until one hashes to the target or less. */
  ghost function Search(h: Header, target: nat, start: U64, count: nat, turns: seq<Moment>): Outcome
    decreases |turns|
  {
    if turns == [] || !turns[0].running then Stopped(h)
    else if Abandons(count + 1, turns[0], h.prevBlockHash, start) then Stopped(h)
    else
      var attempt := Refreshed(h, count + 1, turns[0]);
      if HashValue(attempt) <= target then Found(attempt)
      else Search(Advanced(attempt, turns[0]), target, start, count + 1, turns[1..])
  }

  /** A header found meets the target and differs from the template in timestamp and nonce alone. */
  lemma {:induction false} FoundMeetsTarget(h: Header, target: nat, start: U64, count: nat, turns: seq<Moment>)
    ensures var r := Search(h, target, start, count, turns);
      && (r.Found? ==> HashValue(r.header) <= target)
      && r.header == h.(timestamp := r.header.timestamp, nonce := r.header.nonce)
    decreases |turns|
  {
    if turns != [] && turns[0].running && !Abandons(count + 1, turns[0], h.prevBlockHash, start) {
      var attempt := Refreshed(h, count + 1, turns[0]);
      if HashValue(attempt) > target {
        FoundMeetsTarget(Advanced(attempt, turns[0]), target, start, count + 1, turns[1..]);
      }
    }
  }

  // ---- Three compressions are the hash ----

  /** The 120 bytes as words: sixteen, then fourteen. */
  ghost function HeaderWord(s: seq<Byte>, i: nat): nat
    requires |s| == SERIALIZED_SIZE && i < 30
  {
    ArithBytes.Word(s[4 * i..4 * i + 4])
  }

  ghost predicate FirstBlock(s: seq<Byte>, w: seq<nat>) {
    |s| == SERIALIZED_SIZE && |w| == 16 && forall i :: 0 <= i < 16 ==> w[i] == HeaderWord(s, i)
  }

  ghost predicate SecondBlock(s: seq<Byte>, w: seq<nat>) {
    |s| == SERIALIZED_SIZE && |w| == 16 && w[14] == 0x8000_0000 && w[15] == 0
    && forall i :: 0 <= i < 14 ==> w[i] == HeaderWord(s, 16 + i)
  }

  ghost predicate ThirdBlock(w: seq<nat>) {
    |w| == 16 && w[15] == SERIALIZED_SIZE * 8 && forall i :: 0 <= i < 15 ==> w[i] == 0
  }

  lemma WordAtIsWord(b: seq<Byte>, i: nat)
    requires 4 * i + 4 <= |b|
    ensures i * 4 + 4 <= |b| && WordAt(4, b, i) == ArithBytes.Word(b[4 * i..4 * i + 4])
  {
    ArithBytes.WordValue(b[4 * i..4 * i + 4]);
  }

  lemma FirstWords(s: seq<Byte>, w: seq<nat>)
    requires FirstBlock(s, w)
    ensures w == Words(Sha256(), s[..64])
  {
    forall i | 0 <= i < 16
      ensures w[i] == WordAt(4, s[..64], i)
    {
      WordAtIsWord(s[..64], i);
      assert s[..64][4 * i..4 * i + 4] == s[4 * i..4 * i + 4];
    }
  }

  lemma SecondWords(s: seq<Byte>, w: seq<nat>)
    requires SecondBlock(s, w)
    ensures w == Words(Sha256(), Sha2Context.Completed(Sha256(), s[64..] + [0x80], []))
  {
    var b, mark := Sha2Context.Completed(Sha256(), s[64..] + [0x80], []), [0x80] + Zeros(7);
    assert b == s[64..] + mark;
    forall i | 0 <= i < 16
      ensures w[i] == WordAt(4, b, i)
    {
      WordAtIsWord(b, i);
      if i < 14 { WordOfTail(s, mark, i); }
    }
  }

  lemma WordOfTail(s: seq<Byte>, mark: seq<Byte>, i: nat)
    requires |s| == SERIALIZED_SIZE && i < 14
    ensures (s[64..] + mark)[4 * i..4 * i + 4] == s[4 * (16 + i)..4 * (16 + i) + 4]
  {}

  lemma ThirdWords(w: seq<nat>)
    requires ThirdBlock(w)
    ensures w == Words(Sha256(), Sha2Context.Completed(Sha256(), [], LengthField(Sha256(), SERIALIZED_SIZE)))
  {
    var f := LengthField(Sha256(), SERIALIZED_SIZE);
    var b := Sha2Context.Completed(Sha256(), [], f);
    LengthFieldBytes(Sha256(), SERIALIZED_SIZE);
    Sha2Context.LengthWords(4, SERIALIZED_SIZE, 960, 0, 0);
    forall i | 0 <= i < 16
      ensures w[i] == WordAt(4, b, i)
    {
      WordAtIsWord(b, i);
      if i == 14 {
        assert b[56..60] == f[..4];
      } else if i == 15 {
        assert b[60..64] == f[4..];
      } else {
        assert b[4 * i..4 * i + 4] == Zeros(4);
      }
    }
  }

  /** The chained state after the three blocks of a header. */
  ghost function ThreeTransforms(b1: seq<nat>, b2: seq<nat>, b3: seq<nat>): (s: seq<nat>)
    requires |b1| == |b2| == |b3| == 16
    ensures |s| == 8
  {
    var v := Sha256();
    Compress(v, Compress(v, Compress(v, v.iv, b1), b2), b3)
  }

  lemma ThreeTransformsHash(s: seq<Byte>, b1: seq<nat>, b2: seq<nat>, b3: seq<nat>)
    requires FirstBlock(s, b1) && SecondBlock(s, b2) && ThirdBlock(b3)
    ensures Hash(Sha256(), s) == Digest(Sha256(), ThreeTransforms(b1, b2, b3))
  {
    var v := Sha256();
    Sha256Lawful();
    FirstWords(s, b1);
    SecondWords(s, b2);
    ThirdWords(b3);
    AbsorbBlock(v, v.iv, [], s[..64]);
    assert [] + s[..64] == s[..64] && s[..64] + s[64..] == s;
    Sha2Context.PaddedTwoBlocks(v, v.iv, s[..64], s[64..], 0, SERIALIZED_SIZE);
    HashIsFinish(v, v.iv, 0, s, SERIALIZED_SIZE);
  }

  // ---- What is prepared once per timestamp ----

  ghost function FirstOf(s: seq<Byte>): (w: seq<nat>)
    requires |s| == SERIALIZED_SIZE
    ensures |w| == 16
  {
    seq(16, i requires 0 <= i < 16 => HeaderWord(s, i))
  }

  ghost function MidstateOf(h: Header): (s: seq<nat>)
    ensures |s| == 8
  {
    seq(8, i requires 0 <= i < 8 => Compress(Sha256(), Sha256().iv, FirstOf(Serialized(h)))[i])
  }

  /** The two later blocks, with nothing in the place of the nonce. */
  ghost function LaterOf(h: Header): (w: seq<nat>)
    ensures |w| == 32
  {
    seq(32, i requires 0 <= i < 32 =>
      if i < 13 then HeaderWord(Serialized(h), 16 + i)
      else if i == 14 then 0x8000_0000
      else if i == 31 then SERIALIZED_SIZE * 8
      else 0)
  }

  /** The midstate and the two later blocks are right for the header, the nonce word aside. */
  ghost predicate Prepared(h: Header, mid: seq<nat>, b2: seq<nat>, b3: seq<nat>) {
    |b2| == 16 && mid == MidstateOf(h) && b2[13 := 0] + b3 == LaterOf(h)
  }

  lemma PreparedParts(h: Header, mid: seq<nat>, b2: seq<nat>, b3: seq<nat>)
    requires |b2| == |b3| == 16
    ensures Prepared(h, mid, b2, b3) <==>
      && mid == Compress(Sha256(), Sha256().iv, FirstOf(Serialized(h)))
      && b2[14] == 0x8000_0000 && b2[15] == 0
      && (forall i :: 0 <= i < 13 ==> b2[i] == HeaderWord(Serialized(h), 16 + i))
      && ThirdBlock(b3)
  {
    assert MidstateOf(h) == Compress(Sha256(), Sha256().iv, FirstOf(Serialized(h)));
    LaterParts(h, b2, b3);
  }

  lemma LaterParts(h: Header, b2: seq<nat>, b3: seq<nat>)
    requires |b2| == |b3| == 16
    ensures b2[13 := 0] + b3 == LaterOf(h) <==>
      && b2[14] == 0x8000_0000 && b2[15] == 0
      && (forall i :: 0 <= i < 13 ==> b2[i] == HeaderWord(Serialized(h), 16 + i))
      && ThirdBlock(b3)
  {
    var w := b2[13 := 0] + b3;
    forall i | 0 <= i < 16
      ensures i != 13 ==> w[i] == b2[i]
      ensures w[16 + i] == b3[i]
    {}
    if w == LaterOf(h) {
      forall i | 0 <= i < 16
        ensures b3[i] == if i == 15 then SERIALIZED_SIZE * 8 else 0
      {
        assert w[16 + i] == LaterOf(h)[16 + i];
      }
      forall i | 0 <= i < 16
        ensures i != 13 ==> b2[i] == LaterOf(h)[i]
      {
        assert w[i] == LaterOf(h)[i];
      }
    }
  }

  /** The nonce is the last word, and only the last. */
  lemma NonceIsLast(h: Header, nonce: U32)
    ensures var s, t := Serialized(h), Serialized(h.(nonce := nonce));
      s[..116] == t[..116] && t[116..] == LE(nonce, 4)
  {}

  lemma PreparedForNonce(h: Header, nonce: U32, mid: seq<nat>, b2: seq<nat>, b3: seq<nat>)
    requires |b3| == 16 && Prepared(h, mid, b2, b3)
    ensures Prepared(h.(nonce := nonce), mid, b2, b3)
  {
    var s, t := Serialized(h), Serialized(h.(nonce := nonce));
    NonceIsLast(h, nonce);
    forall i | 0 <= i < 29
      ensures HeaderWord(s, i) == HeaderWord(t, i)
    {
      assert s[4 * i..4 * i + 4] == s[..116][4 * i..4 * i + 4];
      assert t[4 * i..4 * i + 4] == t[..116][4 * i..4 * i + 4];
    }
    assert FirstOf(s) == FirstOf(t);
    PreparedParts(h, mid, b2, b3);
    PreparedParts(h.(nonce := nonce), mid, b2, b3);
  }

  /** The nonce with its bytes reversed. */
  function Swapped(nonce: U32): U32 {
    (nonce % 256) * 0x100_0000 + nonce / 256 % 256 * 0x1_0000 + nonce / 0x1_0000 % 256 * 0x100 + nonce / 0x100_0000
  }

  lemma NonceWord(h: Header)
    ensures HeaderWord(Serialized(h), 29) == Swapped(h.nonce)
  {
    NonceIsLast(h, h.nonce);
    assert h.(nonce := h.nonce) == h;
    var x := h.nonce;
    var d := LE(x, 4);
    assert Serialized(h)[116..120] == d;
    LEBytes(x);
  }

  lemma LEBytes(x: U32)
    ensures LE(x, 4) == [x % 256, x / 256 % 256, x / 0x1_0000 % 256, x / 0x100_0000]
  {
    assert LE(x, 4) == [x % 256] + LE(x / 256, 3);
    assert LE(x / 256, 3) == [x / 256 % 256] + LE(x / 256 / 256, 2);
    assert LE(x / 256 / 256, 2) == [x / 256 / 256 % 256] + LE(x / 256 / 256 / 256, 1);
    assert LE(x / 256 / 256 / 256, 1) == [x / 256 / 256 / 256 % 256] + [];
  }

  /** The lambda of the loop: serialise the header, compress its first block, set up the others. */
  method Prepare(hdr: BlockHeader, midstate: array<nat>, block2: array<nat>, block3: array<nat>)
    requires midstate.Length == 8 && block2.Length == block3.Length == 16
    requires midstate != block2 && midstate != block3 && block2 != block3
    modifies midstate, block2, block3
    ensures Prepared(hdr.fields, midstate[..], block2[..], block3[..])
  {
    var buf := new Byte[SERIALIZED_SIZE](_ => 0);
    var ok := hdr.SerializeTo(buf);
    ghost var s := buf[..];
    assert s == Serialized(hdr.fields);
    FirstTransform(buf, midstate);
    SetSecond(buf, block2);
    SetThird(block3);
    PreparedParts(hdr.fields, midstate[..], block2[..], block3[..]);
  }

  method SetSecond(buf: array<Byte>, block2: array<nat>)
    requires buf.Length == SERIALIZED_SIZE && block2.Length == 16
    modifies block2
    ensures SecondBlock(buf[..], block2[..])
  {
    ghost var s := buf[..];
    for i := 0 to 14
      invariant buf[..] == s
      invariant forall k :: 0 <= k < i ==> block2[k] == HeaderWord(s, 16 + k)
    {
      var o := 64 + i * 4;
      assert buf[o..o + 4] == s[4 * (16 + i)..4 * (16 + i) + 4];
      block2[i] := ArithBytes.Word(buf[o..o + 4]);
    }
    block2[14], block2[15] := 0x8000_0000, 0;
  }

  method SetThird(block3: array<nat>)
    requires block3.Length == 16
    modifies block3
    ensures ThirdBlock(block3[..])
  {
    for i := 0 to 15
      invariant forall k :: 0 <= k < i ==> block3[k] == 0
    {
      block3[i] := 0;
    }
    block3[15] := SERIALIZED_SIZE * 8;
  }

  method FirstTransform(buf: array<Byte>, midstate: array<nat>)
    requires buf.Length == SERIALIZED_SIZE && midstate.Length == 8
    modifies midstate
    ensures midstate[..] == Compress(Sha256(), Sha256().iv, FirstOf(buf[..]))
  {
    var block1 := new nat[16](_ => 0);
    ghost var s := buf[..];
    for i := 0 to 16
      invariant forall k :: 0 <= k < i ==> block1[k] == HeaderWord(s, k)
    {
      block1[i] := ArithBytes.Word(buf[i * 4..i * 4 + 4]);
    }
    assert block1[..16] == FirstOf(s);
    Sha256Lawful();
    var v := Sha256();
    var iv := new nat[8](i requires 0 <= i < 8 => v.iv[i]);
    assert iv[..8] == v.iv;
    Transform(v, iv, block1, midstate);
    assert midstate[..8] == midstate[..];
  }

  /** One attempt: the words of the hash of the header with this nonce. */
  method Attempt(ghost h: Header, midstate: array<nat>, block2: array<nat>, block3: array<nat>, nonce: U32) returns (hw: array<nat>)
    requires midstate.Length == 8 && block2.Length == block3.Length == 16 && midstate != block2 && block2 != block3
    requires Prepared(h, midstate[..], block2[..], block3[..])
    modifies block2
    ensures fresh(hw) && hw.Length == 8 && Pbkdf2.Words8(Sha256(), hw[..])
    ensures Digest(Sha256(), hw[..]) == HashOf(h.(nonce := nonce))
    ensures Prepared(h, midstate[..], block2[..], block3[..])
  {
    ghost var g := h.(nonce := nonce);
    ghost var mid, b3 := midstate[..], block3[..];
    PreparedForNonce(h, nonce, midstate[..], block2[..], block3[..]);
    NonceWord(g);
    ghost var was := block2[..];
    block2[13] := Swapped(nonce);
    ghost var b2 := block2[..];
    assert b2[13 := 0] == was[13 := 0];
    AttemptHash(g, mid, b2, b3);
    hw := TwoMore(midstate, block2, block3);
  }

  lemma AttemptHash(g: Header, mid: seq<nat>, b2: seq<nat>, b3: seq<nat>)
    requires |b2| == |b3| == 16 && Prepared(g, mid, b2, b3) && b2[13] == HeaderWord(Serialized(g), 29)
    ensures var v := Sha256();
      HashOf(g) == Digest(v, Compress(v, Compress(v, mid, b2), b3))
  {
    var s := Serialized(g);
    PreparedParts(g, mid, b2, b3);
    ThreeTransformsHash(s, FirstOf(s), b2, b3);
    HashOfIsHash(g);
  }

  method TwoMore(midstate: array<nat>, block2: array<nat>, block3: array<nat>) returns (hw: array<nat>)
    requires midstate.Length == 8 && block2.Length == block3.Length == 16
    ensures fresh(hw) && hw.Length == 8 && Pbkdf2.Words8(Sha256(), hw[..])
    ensures hw[..] == Compress(Sha256(), Compress(Sha256(), midstate[..], block2[..]), block3[..])
  {
    var v := Sha256();
    Sha256Lawful();
    var state := new nat[8](_ => 0);
    hw := new nat[8](_ => 0);
    assert midstate[..8] == midstate[..] && block2[..16] == block2[..] && block3[..16] == block3[..];
    Transform(v, midstate, block2, state);
    assert state[..8] == state[..];
    Transform(v, state, block3, hw);
    assert hw[..8] == hw[..];
    Pbkdf2.CompressBounded(v, state[..], block3[..]);
  }

  // ---- The comparison with the target ----

  /** The top word of a 32-byte number decides whenever it is the larger one. */
  lemma TopWordDecides(x: seq<Byte>, y: seq<Byte>)
    requires |x| == |y| == 32
    ensures ArithBytes.Word(x[..4]) > ArithBytes.Word(y[..4]) ==> Val(x, 256) > Val(y, 256)
  {
    assert x == x[..4] + x[4..] && y == y[..4] + y[4..];
    ValConcat(x[..4], x[4..], 256);
    ValConcat(y[..4], y[4..], 256);
    ArithBytes.WordValue(x[..4]);
    ArithBytes.WordValue(y[..4]);
    ValBound(x[4..], 256);
    ValBound(y[4..], 256);
    ArithBytes.LeadDecides(Val(x[..4], 256), Val(y[..4], 256), Pow(256, 28), Val(x[4..], 256), Val(y[4..], 256));
  }

  /** The bytes of a hash from its words. */
  method HashBytes(hw: array<nat>) returns (hash: Bytes32)
    requires hw.Length == 8
    ensures hash == Digest(Sha256(), hw[..])
  {
    Hmac.DigestLength(Sha256(), hw[..]);
    hash := Pbkdf2.WordBytes(Sha256(), hw[..]);
  }

  /** The pre-filter on the top word, then the full comparison. */
  method Meets(hw: array<nat>, target: array<U32>, targetTop: nat) returns (win: bool)
    requires hw.Length == 8 && target.Length == Limbs.LIMBS && Pbkdf2.Words8(Sha256(), hw[..])
    requires targetTop == ArithBytes.Word(BE(Limbs.LVal(target[..]), 32)[..4])
    ensures win <==> Val(Digest(Sha256(), hw[..]), 256) <= Limbs.LVal(target[..])
  {
    var hash := HashBytes(hw);
    Limbs.LValBound(target[..]);
    ArithBytes.WordPower(8);
    FilterIsSafe(hw[..], hash, Limbs.LVal(target[..]));
    win := false;
    if hw[0] <= targetTop {
      var number := ArithBytes.ArithFromBytes32(hash);
      var c := BaseUint.CompareTo(number, target);
      win := c <= 0;
    }
  }

  lemma FilterIsSafe(hw: seq<nat>, hash: seq<Byte>, target: nat)
    requires |hw| == 8 && hash == Digest(Sha256(), hw) && |hash| == 32 && Pbkdf2.Words8(Sha256(), hw)
    requires target < Pow(256, 32)
    ensures hw[0] > ArithBytes.Word(BE(target, 32)[..4]) ==> Val(hash, 256) > target
  {
    Pbkdf2.DigestWord(Sha256(), hw, 0);
    WordAtIsWord(hash, 0);
    TopWordDecides(hash, BE(target, 32));
    ValOfBE(target, 32);
  }

  // ---- The loop ----

  /** What the loop searches for, or nothing when the compact target is negative, too big or zero. */
  predicate Searchable(bits: U32) {
    0 < Compact.Nominal(bits) < Limbs.P(Limbs.LIMBS) && !Compact.SignBit(bits)
  }

  /** The target as limbs, and its top word. */
  method ExpandTarget(bits: U32) returns (ok: bool, target: array<U32>, targetTop: nat)
    ensures fresh(target) && target.Length == Limbs.LIMBS
    ensures ok <==> Searchable(bits)
    ensures ok ==> Limbs.LVal(target[..]) == Compact.Nominal(bits)
    ensures targetTop == ArithBytes.Word(BE(Limbs.LVal(target[..]), 32)[..4])
  {
    target := new U32[Limbs.LIMBS](_ => 0);
    var neg, over := Compact.SetCompact(target, bits);
    var zero := BaseUint.EqualTo(target, 0);
    ok := !(neg || over || zero);
    var tb := ArithBytes.ArithToBytes32(target);
    targetTop := ArithBytes.Word(tb[..4]);
  }

  /** The search that gives r has come to this attempt. */
  ghost function SearchFrom(h: Header, goal: nat, start: U64, count: nat, turns: seq<Moment>): Outcome
    requires count <= |turns|
  {
    Search(h, goal, start, count, turns[count..])
  }

  lemma Stops(h: Header, goal: nat, start: U64, count: nat, turns: seq<Moment>)
    requires count <= |turns|
    requires count == |turns| || !turns[count].running || Abandons(count + 1, turns[count], h.prevBlockHash, start)
    ensures SearchFrom(h, goal, start, count, turns) == Stopped(h)
  {}

  lemma GoesOn(h: Header, goal: nat, start: U64, count: nat, turns: seq<Moment>)
    requires count < |turns| && turns[count].running && !Abandons(count + 1, turns[count], h.prevBlockHash, start)
    ensures var attempt := Refreshed(h, count + 1, turns[count]);
      SearchFrom(h, goal, start, count, turns)
        == if HashValue(attempt) <= goal then Found(attempt)
           else SearchFrom(Advanced(attempt, turns[count]), goal, start, count + 1, turns)
  {
    assert turns[count..][1..] == turns[count + 1..];
  }

  /** The search loop; it ends with the turns at the latest. */
  method RunNonceLoop(hdr: BlockHeader, startMs: U64, turns: seq<Moment>) returns (found: bool)
    requires hdr.Valid()
    modifies hdr
    ensures hdr.Valid()
    ensures !Searchable(old(hdr.fields.bits)) ==> !found && hdr.fields == old(hdr.fields)
    ensures Searchable(old(hdr.fields.bits)) ==>
      Matches(Search(old(hdr.fields), Compact.Nominal(old(hdr.fields.bits)), startMs, 0, turns), found, hdr.fields, old(hdr.fields.nonce))
  {
    var ok, target, targetTop := ExpandTarget(hdr.fields.bits);
    if !ok {
      return false;
    }
    ghost var r := Search(hdr.fields, Compact.Nominal(hdr.fields.bits), startMs, 0, turns);
    found := SearchLoop(hdr, startMs, turns, target, targetTop, r);
  }

  /** The header ends as the search says; without success its nonce is never written. */
  ghost predicate Matches(r: Outcome, found: bool, h: Header, firstNonce: U32) {
    (found <==> r.Found?) && h == (if found then r.header else r.header.(nonce := firstNonce))
  }

  method SearchLoop(hdr: BlockHeader, startMs: U64, turns: seq<Moment>, target: array<U32>, targetTop: nat, ghost r: Outcome) returns (found: bool)
    requires hdr.Valid() && target.Length == Limbs.LIMBS
    requires targetTop == ArithBytes.Word(BE(Limbs.LVal(target[..]), 32)[..4])
    requires r == Search(hdr.fields, Limbs.LVal(target[..]), startMs, 0, turns)
    modifies hdr
    ensures hdr.Valid() && Matches(r, found, hdr.fields, old(hdr.fields.nonce))
  {
    ghost var goal, first := Limbs.LVal(target[..]), hdr.fields.nonce;
    var nonce := hdr.fields.nonce;
    var localHashes := 0;
    var builtOn := hdr.fields.prevBlockHash;
    var midstate, block2, block3 := new nat[8](_ => 0), new nat[16](_ => 0), new nat[16](_ => 0);
    Prepare(hdr, midstate, block2, block3);
    ghost var h := hdr.fields;
    assert turns[0..] == turns;
    while localHashes < |turns| && turns[localHashes].running
      invariant 0 <= localHashes <= |turns| && hdr.Valid()
      invariant h == hdr.fields.(nonce := nonce) && h.prevBlockHash == builtOn && hdr.fields.nonce == first
      invariant Limbs.LVal(target[..]) == goal
      invariant Prepared(hdr.fields, midstate[..], block2[..], block3[..])
      invariant r == SearchFrom(h, goal, startMs, localHashes, turns)
      decreases |turns| - localHashes
    {
      var turn := turns[localHashes];
      if Stale(localHashes + 1, turn, builtOn, startMs) {
        Stops(h, goal, startMs, localHashes, turns);
        return false;
      }
      GoesOn(h, goal, startMs, localHashes, turns);
      localHashes := localHashes + 1;
      found, nonce, h := OneTurn(hdr, h, nonce, localHashes, turn, midstate, block2, block3, target, targetTop);
      if found {
        return;
      }
    }
    Stops(h, goal, startMs, localHashes, turns);
    found := false;
  }

  /** One turn of the loop: refresh, try, go on to the next nonce. */
  method OneTurn(hdr: BlockHeader, ghost h: Header, nonce: U32, localHashes: nat, turn: Moment,
                 midstate: array<nat>, block2: array<nat>, block3: array<nat>, target: array<U32>, targetTop: nat)
      returns (win: bool, next: U32, ghost h': Header)
    requires hdr.Valid() && midstate.Length == 8 && block2.Length == block3.Length == 16
    requires midstate != block2 && midstate != block3 && block2 != block3
    requires target.Length == Limbs.LIMBS && targetTop == ArithBytes.Word(BE(Limbs.LVal(target[..]), 32)[..4])
    requires Prepared(hdr.fields, midstate[..], block2[..], block3[..]) && h == hdr.fields.(nonce := nonce)
    modifies hdr, midstate, block2, block3
    ensures var attempt := Refreshed(h, localHashes, turn);
      && (win <==> HashValue(attempt) <= Limbs.LVal(target[..]))
      && (win ==> hdr.fields == attempt)
      && (!win ==> h' == Advanced(attempt, turn) == hdr.fields.(nonce := next))
    ensures hdr.Valid() && hdr.fields.prevBlockHash == old(hdr.fields.prevBlockHash)
    ensures !win ==> hdr.fields.nonce == old(hdr.fields.nonce) && Prepared(hdr.fields, midstate[..], block2[..], block3[..])
  {
    RefreshedWithNonce(hdr.fields, nonce, localHashes, turn);
    RefreshTimestamp(hdr, localHashes, turn, midstate, block2, block3);
    h' := Refreshed(h, localHashes, turn);
    win := TryNonce(h', hdr.fields, midstate, block2, block3, nonce, target, targetTop);
    next := nonce;
    if win {
      hdr.SetNonce(nonce);
      return;
    }
    h' := Advanced(h', turn);
    next := NextNonce(hdr, nonce, turn, midstate, block2, block3);
  }

  lemma RefreshedWithNonce(f: Header, nonce: U32, count: nat, turn: Moment)
    ensures Refreshed(f.(nonce := nonce), count, turn) == Refreshed(f, count, turn).(nonce := nonce)
    ensures Refreshed(f, count, turn).nonce == f.nonce && Refreshed(f, count, turn).prevBlockHash == f.prevBlockHash
  {}

  /** The two checks that abandon a template. */
  predicate Stale(localHashes: nat, turn: Moment, builtOn: Bytes32, startMs: U64) {
    localHashes % 0x1_0000 == 0
    && (if turn.chain && turn.best != builtOn then true
        else (turn.millis - startMs) % TWO64 > TEMPLATE_REFRESH_MS)
  }

  method RefreshTimestamp(hdr: BlockHeader, localHashes: nat, turn: Moment, midstate: array<nat>, block2: array<nat>, block3: array<nat>)
    requires hdr.Valid() && midstate.Length == 8 && block2.Length == block3.Length == 16
    requires midstate != block2 && midstate != block3 && block2 != block3
    requires Prepared(hdr.fields, midstate[..], block2[..], block3[..])
    modifies hdr, midstate, block2, block3
    ensures hdr.Valid() && hdr.fields == Refreshed(old(hdr.fields), localHashes, turn)
    ensures Prepared(hdr.fields, midstate[..], block2[..], block3[..])
  {
    if localHashes % 0x1_0000 == 0 {
      if turn.seconds > (hdr.fields.timestamp + 60) % TWO64 {
        hdr.SetTimestamp(turn.seconds);
        Prepare(hdr, midstate, block2, block3);
      }
    }
  }

  /** One attempt, against the plain hash. */
  method TryNonce(ghost h: Header, ghost stored: Header, midstate: array<nat>, block2: array<nat>, block3: array<nat>,
                  nonce: U32, target: array<U32>, targetTop: nat) returns (win: bool)
    requires midstate.Length == 8 && block2.Length == block3.Length == 16 && midstate != block2 && block2 != block3
    requires target.Length == Limbs.LIMBS && targetTop == ArithBytes.Word(BE(Limbs.LVal(target[..]), 32)[..4])
    requires Prepared(stored, midstate[..], block2[..], block3[..]) && h == stored.(nonce := nonce)
    modifies block2
    ensures win <==> HashValue(h) <= Limbs.LVal(target[..])
    ensures Prepared(stored, midstate[..], block2[..], block3[..])
  {
    var hw := Attempt(stored, midstate, block2, block3, nonce);
    win := Meets(hw, target, targetTop);
  }

  method NextNonce(hdr: BlockHeader, nonce: U32, turn: Moment, midstate: array<nat>, block2: array<nat>, block3: array<nat>) returns (next: U32)
    requires hdr.Valid() && midstate.Length == 8 && block2.Length == block3.Length == 16
    requires midstate != block2 && midstate != block3 && block2 != block3
    requires Prepared(hdr.fields, midstate[..], block2[..], block3[..])
    modifies hdr, midstate, block2, block3
    ensures hdr.Valid() && hdr.fields.nonce == old(hdr.fields.nonce)
    ensures hdr.fields.(nonce := next) == Advanced(old(hdr.fields).(nonce := nonce), turn)
    ensures Prepared(hdr.fields, midstate[..], block2[..], block3[..])
  {
    if nonce == 0xffff_ffff {
      hdr.SetTimestamp(turn.secondsAtWrap);
      Prepare(hdr, midstate, block2, block3);
      next := 0;
    } else {
      next := nonce + 1;
    }
  }

  // ---- Fees ----

  /** Amounts as the unsigned numbers they are cast to. */
  function Amounts(values: seq<I64>): seq<nat> {
    seq(|values|, i requires 0 <= i < |values| => Unsigned(values[i]))
  }

  /** The sum of unsigned 64-bit amounts, or nothing when it wraps around. */
  method CheckedSum(values: seq<I64>) returns (ok: bool, total: U64)
    ensures ok <==> SumOf(Amounts(values)) < TWO64
    ensures ok ==> total == SumOf(Amounts(values))
  {
    ghost var amounts := Amounts(values);
    total := 0;
    for i := 0 to |values|
      invariant total == SumOf(amounts[..i])
    {
      assert amounts[..i + 1][..i] == amounts[..i];
      var next := (total + Unsigned(values[i])) % TWO64;
      if next < total {
        SumGrows(amounts, i + 1);
        return false, 0;
      }
      total := next;
    }
    assert amounts[..|values|] == amounts;
    ok := true;
  }

  predicate AllPresent(coins: seq<Option<I64>>) {
    forall i :: 0 <= i < |coins| ==> coins[i].Some?
  }

  /** The fee of a transaction, or refusal for a missing coin, a sum that wraps around, or outputs
      worth more than the inputs. */
  method ComputeTxFee(coinbase: bool, coins: seq<Option<I64>>, outputs: seq<I64>) returns (ok: bool, fee: U64)
    ensures coinbase ==> ok && fee == 0
    ensures !coinbase ==>
      (ok <==> AllPresent(coins) && SumOf(Amounts(outputs)) <= SumOf(Amounts(Values(coins))) < TWO64)
    ensures ok && !coinbase ==> fee + SumOf(Amounts(outputs)) == SumOf(Amounts(Values(coins)))
  {
    if coinbase {
      return true, 0;
    }
    var inputs := [];
    for i := 0 to |coins|
      invariant |inputs| == i && inputs == Values(coins)[..i]
      invariant forall k :: 0 <= k < i ==> coins[k].Some?
    {
      if coins[i].None? {
        return false, 0;
      }
      inputs := inputs + [coins[i].value];
    }
    assert inputs == Values(coins);
    var okIn, totalIn := CheckedSum(inputs);
    if !okIn {
      return false, 0;
    }
    var okOut, totalOut := CheckedSum(outputs);
    if !okOut || totalIn < totalOut {
      return false, 0;
    }
    return true, totalIn - totalOut;
  }

  function Values(coins: seq<Option<I64>>): (v: seq<I64>)
    ensures |v| == |coins|
  {
    seq(|coins|, i requires 0 <= i < |coins| => if coins[i].Some? then coins[i].value else 0)
  }
}
