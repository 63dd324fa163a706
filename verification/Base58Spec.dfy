/** Base58 text as a mathematical object: one '1' per leading zero byte, then the digits of
    the number the bytes write, without leading zeros. */
module Base58Spec {
  import opened Bytes

  /** The 128-entry digit table, written by its runs; -1 outside the alphabet and for any
      character with the eighth bit set. */
  function DigitOf(c: char): (d: int)
    ensures -1 <= d < 58
  {
    if '1' <= c <= '9' then c as int - '1' as int
    else if 'A' <= c <= 'H' then c as int - 'A' as int + 9
    else if 'J' <= c <= 'N' then c as int - 'J' as int + 17
    else if 'P' <= c <= 'Z' then c as int - 'P' as int + 22
    else if 'a' <= c <= 'k' then c as int - 'a' as int + 33
    else if 'm' <= c <= 'z' then c as int - 'm' as int + 44
    else -1
  }

  /** The ordered alphabet, written by its runs. */
  function CharOf(d: nat): char
    requires d < 58
  {
    if d < 9 then ('1' as int + d) as char
    else if d < 17 then ('A' as int + d - 9) as char
    else if d < 22 then ('J' as int + d - 17) as char
    else if d < 33 then ('P' as int + d - 22) as char
    else if d < 44 then ('a' as int + d - 33) as char
    else ('m' as int + d - 44) as char
  }

  /** The two tables undo each other, in both directions. */
  lemma TablesInverse()
    ensures forall d :: 0 <= d < 58 ==> DigitOf(CharOf(d)) == d
    ensures forall c :: DigitOf(c) >= 0 ==> CharOf(DigitOf(c)) == c
  {}

  // ---- Digits of a number ----

  /** The base-58 digits of n, most significant first; none for zero. */
  function ToDigits(n: nat): (s: seq<nat>)
    ensures Digits(s, 58)
    ensures s != [] ==> s[0] != 0
  {
    if n == 0 then []
    else
      assert n / 58 == 0 ==> n % 58 == n;
      ToDigits(n / 58) + [n % 58]
  }

  lemma {:induction false} ToDigitsValue(n: nat)
    ensures Val(ToDigits(n), 58) == n
  {
    if n > 0 {
      ToDigitsValue(n / 58);
      ValAppend(ToDigits(n / 58), n % 58, 58);
    }
  }

  /** A digit string without a leading zero is the one its value has. */
  lemma {:induction false} CanonicalDigits(s: seq<nat>)
    requires Digits(s, 58) && (s != [] ==> s[0] != 0)
    ensures ToDigits(Val(s, 58)) == s
  {
    if s != [] {
      var n := |s| - 1;
      ValLast(s, 58);
      CanonicalDigits(s[..n]);
      assert Val(s, 58) > 0 by {
        if n > 0 { FirstDigitBound(s, 58); } else { assert s[..n] == []; }
      }
    }
  }

  lemma FirstDigitBound(s: seq<nat>, b: nat)
    requires s != [] && s[0] != 0 && b > 0
    ensures Val(s, b) >= Pow(b, |s| - 1) > 0
  {
    MulAtLeast(s[0], Pow(b, |s| - 1));
  }

  // ---- Encoding ----

  function LeadingZeros(s: seq<nat>): (n: nat)
    ensures n <= |s| && (n < |s| ==> s[n] != 0)
    ensures forall i :: 0 <= i < n ==> s[i] == 0
  {
    if s == [] || s[0] != 0 then 0 else 1 + LeadingZeros(s[1..])
  }

  lemma LeadingZerosUnique(s: seq<nat>, n: nat)
    requires n <= |s| && (n < |s| ==> s[n] != 0) && forall i :: 0 <= i < n ==> s[i] == 0
    ensures LeadingZeros(s) == n
  {}

  function Text(ds: seq<nat>): (t: string)
    requires Digits(ds, 58)
    ensures |t| == |ds|
  {
    seq(|ds|, i requires 0 <= i < |ds| => CharOf(ds[i]))
  }

  function Ones(n: nat): (t: string)
    ensures |t| == n
  {
    seq(n, _ => '1')
  }

  function Encode(d: seq<Byte>): string {
    Ones(LeadingZeros(d)) + Text(ToDigits(Val(d, 256)))
  }

  // ---- Decoding ----

  function CountOnes(s: string): (n: nat)
    ensures n <= |s| && (n < |s| ==> s[n] != '1')
    ensures forall i :: 0 <= i < n ==> s[i] == '1'
  {
    if s == "" || s[0] != '1' then 0 else 1 + CountOnes(s[1..])
  }

  predicate AllDigits(s: string) {
    forall i :: 0 <= i < |s| ==> DigitOf(s[i]) >= 0
  }

  function DigitsOf(s: string): (ds: seq<nat>)
    requires AllDigits(s)
    ensures |ds| == |s| && Digits(ds, 58)
    ensures forall i :: 0 <= i < |s| ==> ds[i] == DigitOf(s[i])
  {
    seq(|s|, i requires 0 <= i < |s| => DigitOf(s[i]))
  }

  /** The number a text writes; its leading '1's are zero digits. */
  function TextValue(s: string): nat
    requires AllDigits(s)
  {
    Val(DigitsOf(s), 58)
  }

  /** Exactly the texts that decode into a buffer of n bytes: known characters only, a value
      that fits, and room for the leading zeros the text asks for. */
  predicate Decodes(s: string, n: nat) {
    && n > 0 && AllDigits(s)
    && TextValue(s) < Pow(256, n)
    && CountOnes(s) <= LeadingZeros(BE(TextValue(s), n))
  }

  /** How many of the n bytes, counted from the right, the text stands for. */
  function DecodedSize(s: string, n: nat): (r: int)
    requires AllDigits(s)
  {
    n - LeadingZeros(BE(TextValue(s), n)) + CountOnes(s)
  }

  // ---- Round trips ----

  lemma ValDropZeros(s: seq<nat>, n: nat, b: nat)
    requires n <= |s| && forall i :: 0 <= i < n ==> s[i] == 0
    ensures Val(s, b) == Val(s[n..], b)
  {
    assert s == seq(n, _ => 0) + s[n..];
    ValZeros(n, s[n..], b);
  }

  lemma TextOfDigits(ds: seq<nat>)
    requires Digits(ds, 58)
    ensures AllDigits(Text(ds)) && DigitsOf(Text(ds)) == ds
  {
    TablesInverse();
  }

  lemma EncodeValue(d: seq<Byte>)
    ensures AllDigits(Encode(d)) && TextValue(Encode(d)) == Val(d, 256)
    ensures CountOnes(Encode(d)) == LeadingZeros(d)
  {
    var z, ds := LeadingZeros(d), ToDigits(Val(d, 256));
    TextOfDigits(ds);
    TablesInverse();
    var all := DigitsOf(Encode(d));
    assert all[z..] == ds;
    ValDropZeros(all, z, 58);
    ToDigitsValue(Val(d, 256));
    CountOnesUnique(Encode(d), z);
  }

  lemma CountOnesUnique(s: string, n: nat)
    requires n <= |s| && (n < |s| ==> s[n] != '1') && forall i :: 0 <= i < n ==> s[i] == '1'
    ensures CountOnes(s) == n
  {}

  lemma {:induction false} PowPositiveBound(d: seq<Byte>, n: nat)
    requires |d| <= n
    ensures Val(d, 256) < Pow(256, n)
  {
    ValBound(d, 256);
    PowMonotone(256, |d|, n);
  }

  /** Decoding what was encoded gives the bytes back, right-aligned, with their exact length,
      for every byte string and every buffer at least as long. */
  lemma DecodeOfEncode(d: seq<Byte>, n: nat)
    requires |d| <= n && n > 0
    ensures Decodes(Encode(d), n)
    ensures DecodedSize(Encode(d), n) == |d|
    ensures BE(TextValue(Encode(d)), n) == seq(n - |d|, _ => 0) + d
  {
    EncodeValue(d);
    PowPositiveBound(d, n);
    var padded: seq<Byte> := seq(n - |d|, _ => 0) + d;
    ValZeros(n - |d|, d, 256);
    BEofVal(padded);
    LeadingZerosUnique(padded, n - |d| + LeadingZeros(d));
  }

  lemma RebuiltText(s: string)
    requires AllDigits(s)
    ensures var n := CountOnes(s); Ones(n) + Text(DigitsOf(s)[n..]) == s
  {
    var n := CountOnes(s);
    assert Ones(n) == s[..n];
    SuffixText(s, n);
  }

  lemma SuffixText(s: string, n: nat)
    requires AllDigits(s) && n <= |s|
    ensures Text(DigitsOf(s)[n..]) == s[n..]
  {
    var ds := DigitsOf(s);
    TablesInverse();
    forall i | 0 <= i < |s| - n
      ensures Text(ds[n..])[i] == s[n..][i]
    {
      assert ds[n..][i] == DigitOf(s[n + i]);
    }
  }

  lemma SignificantDigits(s: string)
    requires AllDigits(s)
    ensures ToDigits(TextValue(s)) == DigitsOf(s)[CountOnes(s)..]
  {
    var n, ds := CountOnes(s), DigitsOf(s);
    ValDropZeros(ds, n, 58);
    if n < |s| {
      TablesInverse();
      assert CharOf(0) == '1';
    }
    CanonicalDigits(ds[n..]);
  }

  lemma KeepSomeZeros(bytes: seq<Byte>, ones: nat)
    requires ones <= LeadingZeros(bytes)
    ensures var d := bytes[LeadingZeros(bytes) - ones..];
      Val(d, 256) == Val(bytes, 256) && LeadingZeros(d) == ones
  {
    var lz := LeadingZeros(bytes);
    ValDropZeros(bytes, lz - ones, 256);
    LeadingZerosUnique(bytes[lz - ones..], ones);
  }

  /** Encoding what was decoded gives the text back, for every accepted text. */
  lemma EncodeOfDecode(s: string, n: nat)
    requires Decodes(s, n)
    ensures 0 <= DecodedSize(s, n) <= n
    ensures Encode(BE(TextValue(s), n)[n - DecodedSize(s, n)..]) == s
  {
    var bytes, ones := BE(TextValue(s), n), CountOnes(s);
    KeepSomeZeros(bytes, ones);
    ValOfBE(TextValue(s), n);
    SignificantDigits(s);
    RebuiltText(s);
  }
}
