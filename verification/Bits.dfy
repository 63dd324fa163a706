/** Bitwise operations on natural numbers, bit by bit. */
module Bits {
  import opened Bytes

  function And(x: nat, y: nat): nat {
    if x == 0 || y == 0 then 0
    else (if x % 2 == 1 && y % 2 == 1 then 1 else 0) + 2 * And(x / 2, y / 2)
  }

  function Xor(x: nat, y: nat): nat
    decreases x + y
  {
    if x == 0 && y == 0 then 0
    else (if x % 2 != y % 2 then 1 else 0) + 2 * Xor(x / 2, y / 2)
  }

  lemma {:induction false} XorZero(x: nat)
    ensures Xor(x, 0) == x && Xor(0, x) == x
  {
    if x > 0 { XorZero(x / 2); }
  }

  lemma {:induction false} XorSelf(x: nat)
    ensures Xor(x, x) == 0
  {
    if x > 0 { XorSelf(x / 2); }
  }

  lemma XorStep(x: nat, y: nat)
    ensures Xor(x, y) / 2 == Xor(x / 2, y / 2)
    ensures Xor(x, y) % 2 == if x % 2 != y % 2 then 1 else 0
  {}

  lemma {:induction false} XorAssociative(x: nat, y: nat, z: nat)
    ensures Xor(Xor(x, y), z) == Xor(x, Xor(y, z))
    decreases x + y + z
  {
    if x + y + z > 0 {
      XorAssociative(x / 2, y / 2, z / 2);
      XorStep(x, y);
      XorStep(y, z);
      XorStep(Xor(x, y), z);
      XorStep(x, Xor(y, z));
    }
  }

  /** `x ^ c ^ d` with x already xored with c is x xored with d. */
  lemma XorReplace(x: nat, c: nat, d: nat)
    ensures Xor(Xor(Xor(x, c), c), d) == Xor(x, d)
  {
    XorAssociative(x, c, c);
    XorSelf(c);
    XorZero(x);
  }

  lemma {:induction false} XorBound(x: nat, y: nat, t: nat)
    requires x < Pow(2, t) && y < Pow(2, t)
    ensures Xor(x, y) < Pow(2, t)
    decreases t
  {
    if t > 0 {
      XorBound(x / 2, y / 2, t - 1);
      XorStep(x, y);
    }
  }

  /** Xor works on high and low parts separately. */
  lemma {:induction false} XorParts(h: nat, a: nat, g: nat, b: nat, t: nat)
    requires a < Pow(2, t) && b < Pow(2, t)
    ensures Xor(h * Pow(2, t) + a, g * Pow(2, t) + b) == Xor(h, g) * Pow(2, t) + Xor(a, b)
    decreases t
  {
    if t == 0 {
      XorZero(0);
    } else {
      var p := Pow(2, t - 1);
      XorParts(h, a / 2, g, b / 2, t - 1);
      PartHalf(h, p, a);
      PartHalf(g, p, b);
      PartHalf(Xor(h, g), p, Xor(a, b));
      XorStep(h * (2 * p) + a, g * (2 * p) + b);
      XorStep(a, b);
    }
  }

  lemma PartHalf(h: nat, p: nat, a: nat)
    ensures h * (2 * p) + a >= 0
    ensures (h * (2 * p) + a) / 2 == h * p + a / 2 && (h * (2 * p) + a) % 2 == a % 2
  {
    assert h * (2 * p) == 2 * (h * p);
  }

  // ---- Byte strings ----

  function XorByte(x: Byte, y: Byte): Byte {
    Pow2Byte();
    XorBound(x, y, 8);
    Xor(x, y)
  }

  lemma Pow2Byte()
    ensures Pow(2, 8) == 256
  {
    assert Pow(2, 4) == 16;
  }

  function XorBytes(a: seq<Byte>, b: seq<Byte>): (r: seq<Byte>)
    requires |a| == |b|
    ensures |r| == |a|
  {
    seq(|a|, i requires 0 <= i < |a| => XorByte(a[i], b[i]))
  }

  /** Xoring words is xoring their bytes. */
  lemma {:induction false} XorWord(a: seq<Byte>, b: seq<Byte>)
    requires |a| == |b|
    ensures Val(XorBytes(a, b), 256) == Xor(Val(a, 256), Val(b, 256))
  {
    if a != [] {
      var n := |a| - 1;
      ValLast(a, 256);
      ValLast(b, 256);
      ValLast(XorBytes(a, b), 256);
      assert XorBytes(a, b)[..n] == XorBytes(a[..n], b[..n]);
      XorWord(a[..n], b[..n]);
      Pow2Byte();
      XorParts(Val(a[..n], 256), a[n], Val(b[..n], 256), b[n], 8);
    }
  }
}
