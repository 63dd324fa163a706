/** The bridge between 256-bit numbers and 32-byte hashes, which are big-endian. */
module ArithBytes {
  import opened Bytes
  import opened Limbs
  import opened BaseUint

  function Word(b: seq<Byte>): nat
    requires |b| == 4
  {
    b[0] as int * 0x100_0000 + b[1] as int * 0x1_0000 + b[2] as int * 0x100 + b[3]
  }

  lemma WordValue(b: seq<Byte>)
    requires |b| == 4
    ensures Val(b, 256) == Word(b) < WORD
  {
    assert Pow(256, 2) == 0x1_0000 && Pow(256, 3) == 0x100_0000 by { assert Pow(256, 1) == 256; }
    assert b[1..][1..] == b[2..] && b[2..][1..] == b[3..] && b[3..][1..] == [];
    assert Val(b[3..], 256) == b[3] && Val(b[2..], 256) == b[2] as int * 256 + b[3];
    assert Val(b[1..], 256) == b[1] as int * 0x1_0000 + Val(b[2..], 256);
  }

  lemma {:induction false} WordPower(n: nat)
    ensures P(n) == Pow(256, 4 * n)
  {
    if n > 0 {
      WordPower(n - 1);
      PowAdd(256, 4, 4 * (n - 1));
      assert Pow(256, 4) == WORD by { assert Pow(256, 2) == 0x1_0000; }
    }
  }

  /** The lowest i limbs are the last 4i bytes. */
  ghost predicate Bridged(limbs: seq<U32>, b: seq<Byte>, i: nat) {
    i <= |limbs| && 4 * i <= |b| && LVal(limbs[..i]) == Val(b[|b| - 4 * i..], 256)
  }

  lemma BridgedStep(limbs: seq<U32>, b: seq<Byte>, i: nat)
    requires i < |limbs| && 4 * i + 4 <= |b| && Bridged(limbs, b, i)
    requires var n := |b| - 4 * i - 4; limbs[i] == Word(b[n..n + 4])
    ensures Bridged(limbs, b, i + 1)
  {
    var n := |b| - 4 * i - 4;
    assert b[n..] == b[n..n + 4] + b[n + 4..];
    ValConcat(b[n..n + 4], b[n + 4..], 256);
    WordValue(b[n..n + 4]);
    HoldsMore(limbs, i);
    WordPower(i);
    Commute(limbs[i], P(i));
  }

  lemma Commute(x: nat, p: nat)
    ensures x * p == p * x
  {}

  /** Four bytes cut from a limb by shifting. */
  lemma WordOfBytes(x: U32, b: seq<Byte>)
    requires |b| == 4
    requires b[0] == x / 0x100_0000 && b[1] == x / 0x1_0000 % 256 && b[2] == x / 0x100 % 256 && b[3] == x % 256
    ensures Word(b) == x
  {
    ShiftAgain(x, 0x100);
    ShiftAgain(x, 0x1_0000);
  }

  lemma ShiftAgain(x: nat, p: nat)
    requires p == 0x100 || p == 0x1_0000
    ensures x / p == 256 * (x / (256 * p)) + x / p % 256
  {}

  method ArithFromBytes32(b: Bytes32) returns (out: array<U32>)
    ensures fresh(out) && out.Length == LIMBS && LVal(out[..]) == Val(b, 256)
  {
    out := new U32[LIMBS](_ => 0);
    for limb := 0 to LIMBS
      invariant Bridged(out[..], b, limb)
    {
      var base := 32 - 4 * (limb + 1);
      ghost var was := out[..];
      WordValue(b[base..base + 4]);
      out[limb] := Word(b[base..base + 4]);
      assert out[..][..limb] == was[..limb];
      BridgedStep(out[..], b, limb);
    }
    assert out[..][..LIMBS] == out[..] && b[0..] == b;
  }

  method ArithToBytes32(a: array<U32>) returns (out: Bytes32)
    requires a.Length == LIMBS
    ensures out == BE(LVal(a[..]), 32)
  {
    var bytes := new Byte[32](_ => 0);
    for limb := 0 to LIMBS
      invariant Bridged(a[..], bytes[..], limb)
    {
      var base := 32 - 4 * (limb + 1);
      ghost var was := bytes[..];
      WriteWord(bytes, base, a[limb]);
      BridgedKept(a[..], was, bytes[..], limb);
      BridgedStep(a[..], bytes[..], limb);
    }
    out := bytes[..];
    assert a[..][..LIMBS] == a[..] && out[0..] == out;
    BEofVal(out);
  }

  lemma BridgedKept(limbs: seq<U32>, was: seq<Byte>, now: seq<Byte>, i: nat)
    requires Bridged(limbs, was, i) && |now| == |was| && now[|now| - 4 * i..] == was[|was| - 4 * i..]
    ensures Bridged(limbs, now, i)
  {}

  method WriteWord(bytes: array<Byte>, base: nat, x: U32)
    requires base + 4 <= bytes.Length
    modifies bytes
    ensures bytes[..base] == old(bytes[..base]) && bytes[base + 4..] == old(bytes[base + 4..])
    ensures Word(bytes[base..base + 4]) == x
  {
    bytes[base] := x / 0x100_0000;
    bytes[base + 1] := x / 0x1_0000 % 256;
    bytes[base + 2] := x / 0x100 % 256;
    bytes[base + 3] := x % 256;
    WordOfBytes(x, bytes[base..base + 4]);
  }

  /** Going to bytes and back keeps the number, and the bytes of a number are its own. */
  lemma BridgeInverse(b: Bytes32, limbs: seq<U32>)
    requires |limbs| == LIMBS && LVal(limbs) == Val(b, 256)
    ensures BE(LVal(limbs), 32) == b
    ensures forall other: seq<U32> :: |other| == LIMBS && Val(BE(LVal(other), 32), 256) == Val(b, 256) ==> other == limbs
  {
    BEofVal(b);
    WordPower(LIMBS);
    forall other: seq<U32> | |other| == LIMBS && Val(BE(LVal(other), 32), 256) == Val(b, 256)
      ensures other == limbs
    {
      LValBound(other);
      ValOfBE(LVal(other), 32);
      LValInjective(other, limbs);
    }
  }

  /** Comparing hashes byte by byte, first byte first, is comparing the numbers they hold. */
  predicate BytesBelow(x: seq<Byte>, y: seq<Byte>)
    requires |x| == |y|
  {
    x != [] && (x[0] < y[0] || (x[0] == y[0] && BytesBelow(x[1..], y[1..])))
  }

  lemma {:induction false} ByteOrderIsNumeric(x: seq<Byte>, y: seq<Byte>)
    requires |x| == |y|
    ensures BytesBelow(x, y) <==> Val(x, 256) < Val(y, 256)
  {
    if x != [] {
      ByteOrderIsNumeric(x[1..], y[1..]);
      ValBound(x[1..], 256);
      ValBound(y[1..], 256);
      LeadDecides(x[0], y[0], Pow(256, |x| - 1), Val(x[1..], 256), Val(y[1..], 256));
    }
  }

  lemma LeadDecides(x0: nat, y0: nat, p: nat, vx: nat, vy: nat)
    requires vx < p && vy < p
    ensures x0 < y0 ==> x0 * p + vx < y0 * p + vy
    ensures x0 > y0 ==> x0 * p + vx > y0 * p + vy
  {
    if x0 < y0 { MulMonotone(p, x0 + 1, y0); DistributeSum(p, x0, 1); }
    if x0 > y0 { MulMonotone(p, y0 + 1, x0); DistributeSum(p, y0, 1); }
  }
}
