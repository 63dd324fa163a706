/** The map of single-use leaves already spent, one bit each, and the trimmed form it is saved in. */
module LeafMap {

  const NOISE_LEAF_COUNT := 1048576
  const MAP_BYTES := (NOISE_LEAF_COUNT + 7) / 8

  /** Bit k of a byte. */
  function Bit(k: nat): bv8
    requires k < 8
  {
    if k == 0 then 0x01 else if k == 1 then 0x02 else if k == 2 then 0x04 else if k == 3 then 0x08
    else if k == 4 then 0x10 else if k == 5 then 0x20 else if k == 6 then 0x40 else 0x80
  }

  /** Setting one bit sets that bit alone. */
  lemma OrBit(x: bv8, k: nat, j: nat)
    requires k < 8 && j < 8
    ensures (x | Bit(k)) & Bit(j) != 0 <==> j == k || x & Bit(j) != 0
  {}

  predicate Used(bits: seq<bv8>, index: nat) {
    index / 8 < |bits| && bits[index / 8] & Bit(index % 8) != 0
  }

  function Unmarked(n: nat): (s: seq<bv8>)
    ensures |s| == n && forall i :: 0 <= i < n ==> s[i] == 0
  {
    seq(n, _ => 0)
  }

  /** Bytes that were never stored count as unused. */
  function Widened(bits: seq<bv8>): seq<bv8> {
    if |bits| < MAP_BYTES then bits + Unmarked(MAP_BYTES - |bits|) else bits
  }

  lemma WidenedUsed(bits: seq<bv8>, index: nat)
    ensures Used(Widened(bits), index) <==> Used(bits, index)
  {}

  method Mark(bits: seq<bv8>, index: nat) returns (r: seq<bv8>)
    ensures |r| == |Widened(bits)|
    ensures forall i: nat :: Used(r, i) <==> Used(bits, i) || (i == index && index / 8 < |r|)
  {
    r := bits;
    if |r| < MAP_BYTES {
      r := r + Unmarked(MAP_BYTES - |r|);
    }
    ghost var wide := r;
    var byteIdx := index / 8;
    if byteIdx < |r| {
      r := r[byteIdx := r[byteIdx] | Bit(index % 8)];
    }
    forall i: nat
      ensures Used(r, i) <==> Used(bits, i) || (i == index && index / 8 < |r|)
    {
      WidenedUsed(bits, i);
      if i / 8 == byteIdx < |r| {
        OrBit(wide[byteIdx], index % 8, i % 8);
        assert i == index <==> i % 8 == index % 8;
      }
    }
  }

  // ---- How many bits are set ----

  function BitsOf(b: bv8, k: nat): nat
    requires k <= 8
  {
    if k == 0 then 0 else BitsOf(b, k - 1) + if b & Bit(k - 1) != 0 then 1 else 0
  }

  function CountUsed(bits: seq<bv8>): nat {
    if bits == [] then 0 else CountUsed(bits[..|bits| - 1]) + BitsOf(bits[|bits| - 1], 8)
  }

  /** The leaves marked among the first n. */
  function UsedBelow(bits: seq<bv8>, n: nat): set<nat> {
    set i: nat | i < n && Used(bits, i)
  }

  /** The count of set bits is the number of leaves marked. */
  lemma {:induction false} CountIsSize(bits: seq<bv8>)
    ensures CountUsed(bits) == |UsedBelow(bits, 8 * |bits|)|
  {
    if bits == [] {
      assert UsedBelow(bits, 0) == {};
    } else {
      var n := |bits| - 1;
      CountIsSize(bits[..n]);
      assert UsedBelow(bits[..n], 8 * n) == UsedBelow(bits, 8 * n);
      CountInByte(bits, n, 8);
    }
  }

  lemma {:induction false} CountInByte(bits: seq<bv8>, n: nat, k: nat)
    requires n < |bits| && k <= 8
    ensures |UsedBelow(bits, 8 * n + k)| == |UsedBelow(bits, 8 * n)| + BitsOf(bits[n], k)
  {
    if k > 0 {
      CountInByte(bits, n, k - 1);
      UsedStep(bits, 8 * n + k - 1);
      Position(n, k - 1);
    }
  }

  lemma Position(n: nat, k: nat)
    requires k < 8
    ensures (8 * n + k) / 8 == n && (8 * n + k) % 8 == k
  {}

  lemma UsedStep(bits: seq<bv8>, i: nat)
    ensures |UsedBelow(bits, i + 1)| == |UsedBelow(bits, i)| + if Used(bits, i) then 1 else 0
  {
    if Used(bits, i) {
      assert UsedBelow(bits, i + 1) == UsedBelow(bits, i) + {i};
    } else {
      assert UsedBelow(bits, i + 1) == UsedBelow(bits, i);
    }
  }

  // ---- The saved form ----

  /** What is saved: the map without the zero bytes at its end. */
  method Trimmed(bits: seq<bv8>) returns (saved: seq<bv8>)
    ensures saved <= bits && forall i :: |saved| <= i < |bits| ==> bits[i] == 0
    ensures saved != [] ==> saved[|saved| - 1] != 0
  {
    var usedLen: nat := |bits|;
    while usedLen > 0 && bits[usedLen - 1] == 0
      invariant usedLen <= |bits| && forall i :: usedLen <= i < |bits| ==> bits[i] == 0
    {
      usedLen := usedLen - 1;
    }
    saved := bits[..usedLen];
  }

  /** What is loaded: a map of full size, or nothing when more was saved than fits. */
  method Loaded(saved: seq<bv8>) returns (ok: bool, bits: seq<bv8>)
    ensures ok <==> |saved| <= MAP_BYTES
    ensures ok ==> |bits| == MAP_BYTES && forall i: nat :: Used(bits, i) <==> Used(saved, i)
  {
    bits := Unmarked(MAP_BYTES);
    ok := |saved| <= MAP_BYTES;
    if ok {
      bits := saved + bits[|saved|..];
      forall i: nat
        ensures Used(bits, i) <==> Used(saved, i)
      {
        if i / 8 < |bits| && |saved| <= i / 8 { assert bits[i / 8] == 0; }
      }
    }
  }

  /** An older file saved only how far the leaves had been used in order. */
  method LoadedFromPointer(next: nat) returns (bits: seq<bv8>)
    requires next <= NOISE_LEAF_COUNT
    ensures |bits| == MAP_BYTES && forall i: nat :: Used(bits, i) <==> i < next
  {
    bits := Unmarked(MAP_BYTES);
    for i := 0 to next
      invariant |bits| == MAP_BYTES && forall j: nat :: Used(bits, j) <==> j < i
    {
      bits := Mark(bits, i);
    }
  }

  /** Saving and loading keep exactly the marked leaves. */
  method SaveAndLoad(bits: seq<bv8>) returns (ok: bool, again: seq<bv8>)
    ensures |bits| <= MAP_BYTES ==> ok
    ensures ok ==> forall i: nat :: Used(again, i) <==> Used(bits, i)
  {
    var saved := Trimmed(bits);
    ok, again := Loaded(saved);
    if ok {
      forall i: nat
        ensures Used(again, i) <==> Used(bits, i)
      {
        if i / 8 < |bits| && |saved| <= i / 8 { assert bits[i / 8] == 0; }
      }
    }
  }
}
