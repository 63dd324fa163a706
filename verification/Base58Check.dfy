/** Base58 with a four-byte checksum, over an abstract double hash. */
module Base58Check {
  import opened Bytes
  import opened Base58Spec
  import opened Base58

  type Hash = seq<Byte> -> Bytes32

  /** The payload followed by the first four bytes of its hash. */
  function Sealed(hash: Hash, data: seq<Byte>): (r: seq<Byte>)
    ensures |r| == |data| + 4
  {
    data + hash(data)[..4]
  }

  predicate AllZero(d: seq<Byte>) {
    LeadingZeros(d) == |d|
  }

  /** The version byte, when the last four bytes seal the rest and as many ones lead the text as zeros the
      bytes; what is wrong otherwise. */
  method B58CheckBytes(hash: Hash, bin: seq<Byte>, str: string) returns (r: int)
    ensures r == -4 <==> |bin| < 4
    ensures r == -1 <==> |bin| >= 4 && bin != Sealed(hash, bin[..|bin| - 4])
    ensures r == -3 <==> |bin| >= 4 && bin == Sealed(hash, bin[..|bin| - 4]) && (AllZero(bin) || CountOnes(str) != LeadingZeros(bin))
    ensures r < 0 || (bin != [] && r == bin[0])
    ensures r in {-4, -3, -1} || r >= 0
  {
    if |bin| < 4 {
      return -4;
    }
    var n := |bin| - 4;
    if bin[n..] != hash(bin[..n])[..4] {
      return -1;
    }
    assert bin == bin[..n] + bin[n..];
    var i := 0;
    while i < |bin| && i < |str| && bin[i] == 0 && str[i] == '1'
      invariant i <= |bin| && i <= |str|
      invariant forall k :: 0 <= k < i ==> bin[k] == 0 && str[k] == '1'
    {
      i := i + 1;
    }
    StoppedAtBoth(bin, str, i);
    if i == |bin| || bin[i] == 0 || (i < |str| && str[i] == '1') {
      return -3;
    }
    r := bin[0];
  }

  /** Where zeros and ones no longer go together. */
  lemma StoppedAtBoth(bin: seq<Byte>, str: string, i: nat)
    requires i <= |bin| && i <= |str| && forall k :: 0 <= k < i ==> bin[k] == 0 && str[k] == '1'
    requires !(i < |bin| && i < |str| && bin[i] == 0 && str[i] == '1')
    ensures i == |bin| || bin[i] == 0 || (i < |str| && str[i] == '1') <==> AllZero(bin) || CountOnes(str) != LeadingZeros(bin)
  {
    var zeros, ones := LeadingZeros(bin), CountOnes(str);
    assert i <= zeros && i <= ones && (i == zeros || i == ones);
  }

  /** The number of characters written, terminator included, or 0. */
  method EncodeCheck(hash: Hash, data: seq<Byte>, str: array<char>) returns (res: nat)
    modifies str
    ensures var text := Encode(Sealed(hash, data));
      res == (if |data| <= 128 && |text| < str.Length then |text| + 1 else 0)
      && (res > 0 ==> str[..|text|] == text && str[|text|] == '\0')
  {
    if |data| > 128 {
      return 0;
    }
    ghost var text := Encode(Sealed(hash, data));
    var ok, size := B58Enc(str, str.Length, Sealed(hash, data));
    if ok {
      assert str[..][..|text|] == text && str[..][|text|] == '\0';
      return size;
    }
    return 0;
  }

  /** The text seals a payload that fits and is not all zeros. */
  ghost predicate Unsealed(hash: Hash, str: string, payload: seq<Byte>, capacity: nat) {
    |payload| <= capacity && str == Encode(Sealed(hash, payload)) && !AllZero(Sealed(hash, payload))
  }

  /** What decoding finds in a text that seals p. */
  lemma UnsealedDecodes(hash: Hash, str: string, p: seq<Byte>, n: nat)
    requires n >= 4 && Unsealed(hash, str, p, n - 4)
    ensures Decodes(str, n) && DecodedSize(str, n) == |p| + 4
    ensures BE(TextValue(str), n)[n - DecodedSize(str, n)..] == Sealed(hash, p)
    ensures CountOnes(str) == LeadingZeros(Sealed(hash, p))
  {
    DecodeOfEncode(Sealed(hash, p), n);
    EncodeValue(Sealed(hash, p));
  }

  /** Decode into a scratch buffer and check the seal. */
  method Unseal(hash: Hash, str: string, datalen: nat) returns (ok: bool, nd: seq<Byte>)
    ensures ok ==> 4 <= |nd| <= datalen + 4 && Unsealed(hash, str, nd[..|nd| - 4], datalen)
    ensures forall p :: Unsealed(hash, str, p, datalen) ==> ok && nd == Sealed(hash, p)
  {
    var n := datalen + 4;
    var d := new Byte[n](_ => 0);
    var decoded, size := B58ToBin(d, n, str);
    forall p | Unsealed(hash, str, p, datalen)
      ensures Decodes(str, n) && BE(TextValue(str), n)[n - DecodedSize(str, n)..] == Sealed(hash, p)
      ensures CountOnes(str) == LeadingZeros(Sealed(hash, p))
    {
      UnsealedDecodes(hash, str, p, n);
    }
    nd := [];
    if !decoded {
      return false, nd;
    }
    EncodeOfDecode(str, n);
    assert d[..n] == d[..];
    nd := d[n - size..];
    var status := B58CheckBytes(hash, nd, str);
    ok := status >= 0;
  }

  /** The payload length, or 0. */
  method DecodeCheck(hash: Hash, str: string, data: array<Byte>, datalen: nat) returns (res: nat)
    requires datalen <= data.Length
    modifies data
    ensures res > 0 ==> res <= datalen && Unsealed(hash, str, data[..res], datalen)
    ensures datalen <= 128 ==> forall p :: Unsealed(hash, str, p, datalen) ==> res == |p| && data[..res] == p
  {
    if datalen > 128 {
      return 0;
    }
    var ok, nd := Unseal(hash, str, datalen);
    if !ok {
      return 0;
    }
    res := |nd| - 4;
    var i := 0;
    while i < res
      invariant 0 <= i <= res && data[..i] == nd[..i]
    {
      data[i] := nd[i];
      i := i + 1;
    }
    assert forall p :: nd == Sealed(hash, p) ==> nd[..res] == p;
  }
}
