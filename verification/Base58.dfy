/** The in-place base conversions, proved against the specification. */
module Base58 {
  import opened Bytes
  import opened Base58Spec

  // ---- The buffer is large enough ----

  /** 138/100 exceeds log 256 / log 58: n bytes fit in the digits the encoder sets aside. */
  lemma {:induction false} EncoderBufferSuffices(n: nat)
    ensures Pow(256, n) <= Pow(58, n * 138 / 100 + 1)
  {
    var q, r := n / 8, n % 8;
    PowAdd(256, 8 * q, r);
    EightBytesElevenDigits(q);
    FewBytes(r);
    var e := [0, 2, 3, 5, 6, 7, 9, 10][r];
    ProductBound(Pow(256, 8 * q), Pow(58, 11 * q), Pow(256, r), Pow(58, e));
    PowAdd(58, 11 * q, e);
    assert 11 * q + e <= n * 138 / 100 + 1;
    PowMonotone(58, 11 * q + e, n * 138 / 100 + 1);
  }

  lemma ProductBound(a: nat, b: nat, c: nat, d: nat)
    requires a <= b && c <= d
    ensures a * c <= b * d
  {
    assert a * c <= b * c;
    assert b * c <= b * d;
  }

  lemma Powers256()
    ensures Pow(256, 8) == 18446744073709551616
    ensures Pow(256, 0) == 1 && Pow(256, 1) == 256 && Pow(256, 2) == 65536 && Pow(256, 3) == 16777216
    ensures Pow(256, 4) == 4294967296 && Pow(256, 5) == 1099511627776
    ensures Pow(256, 6) == 281474976710656 && Pow(256, 7) == 72057594037927936
  {
    assert Pow(256, 2) == 256 * Pow(256, 1);
    assert Pow(256, 4) == 256 * Pow(256, 3);
    assert Pow(256, 6) == 256 * Pow(256, 5);
    assert Pow(256, 8) == 256 * Pow(256, 7);
  }

  lemma Powers58()
    ensures Pow(58, 0) == 1 && Pow(58, 2) == 3364 && Pow(58, 3) == 195112 && Pow(58, 5) == 656356768
    ensures Pow(58, 6) == 38068692544 && Pow(58, 7) == 2207984167552
    ensures Pow(58, 9) == 7427658739644928 && Pow(58, 10) == 430804206899405824
    ensures Pow(58, 11) == 24986644000165537792
  {
    assert Pow(58, 2) == 58 * Pow(58, 1);
    assert Pow(58, 4) == 58 * Pow(58, 3);
    assert Pow(58, 6) == 58 * Pow(58, 5);
    assert Pow(58, 8) == 58 * Pow(58, 7);
    assert Pow(58, 10) == 58 * Pow(58, 9);
  }

  lemma FewBytes(r: nat)
    requires r < 8
    ensures Pow(256, r) <= Pow(58, [0, 2, 3, 5, 6, 7, 9, 10][r])
  {
    Powers256();
    Powers58();
  }

  lemma {:induction false} EightBytesElevenDigits(q: nat)
    ensures Pow(256, 8 * q) <= Pow(58, 11 * q)
  {
    if q > 0 {
      EightBytesElevenDigits(q - 1);
      PowAdd(256, 8, 8 * (q - 1));
      PowAdd(58, 11, 11 * (q - 1));
      Powers256();
      Powers58();
      ProductBound(Pow(256, 8), Pow(58, 11), Pow(256, 8 * (q - 1)), Pow(58, 11 * (q - 1)));
    }
  }

  // ---- Encoding ----

  lemma CarryArithmetic(vs: int, vo: int, p: int, carry: int, o: int, digit: int, carry': int, add: int, b: int, m: int)
    requires vs + carry * p == vo * m + add
    requires carry + m * o == b * carry' + digit
    ensures digit * p + vs + carry' * (b * p) == (o * p + vo) * m + add
  {
    assert (carry + m * o) * p == (b * carry' + digit) * p;
    assert (carry + m * o) * p == carry * p + (m * o) * p;
    assert (b * carry' + digit) * p == (b * carry') * p + digit * p;
    assert (b * carry') * p == carry' * (b * p);
    assert (m * o) * p == (o * p) * m;
    assert (o * p + vo) * m == (o * p) * m + vo * m;
  }

  lemma ValCons(d: nat, s: seq<nat>, b: nat)
    ensures Val([d] + s, b) == d * Pow(b, |s|) + Val(s, b)
  {
    assert ([d] + s)[1..] == s;
  }

  /** The base-b digits right of some position hold m times what they held, plus `add`, less
      what is still carried. */
  ghost predicate Absorbed(was: seq<nat>, done: seq<nat>, carry: nat, add: nat, b: nat, m: nat) {
    && |done| == |was| && Digits(done, b)
    && Val(done, b) + carry * Pow(b, |done|) == Val(was, b) * m + add
  }

  /** One turn of a carry loop: the digit at one position absorbs m times itself and the carry. */
  lemma AbsorbOne(was: seq<nat>, done: seq<nat>, carry: nat, carry': nat, digit: nat, j: nat, add: nat, b: nat, m: nat)
    requires j < |was| && Absorbed(was[j + 1..], done, carry, add, b, m)
    requires carry + m * was[j] == b * carry' + digit && digit < b
    ensures Absorbed(was[j..], [digit] + done, carry', add, b, m)
  {
    assert was[j..] == [was[j]] + was[j + 1..];
    ValCons(digit, done, b);
    ValCons(was[j], was[j + 1..], b);
    CarryArithmetic(Val(done, b), Val(was[j + 1..], b), Pow(b, |done|), carry, was[j], digit, carry', add, b, m);
  }

  /** The encoder's inner loop: multiply the number in `buf` by 256 and add a byte, touching only
      the positions right of `high` and those a carry reaches. */
  method PushByte(buf: array<nat>, high: nat, byte: Byte) returns (j: nat)
    requires high < buf.Length && Digits(buf[..], 58)
    requires forall p :: 0 <= p <= high ==> buf[p] == 0
    requires Val(buf[..], 58) * 256 + byte < Pow(58, buf.Length)
    modifies buf
    ensures Digits(buf[..], 58)
    ensures Val(buf[..], 58) == Val(old(buf[..]), 58) * 256 + byte
    ensures j < buf.Length
    ensures j == 0 || forall p :: 0 <= p <= j ==> buf[p] == 0
  {
    ghost var was, done: seq<nat>, lo := buf[..], [], buf.Length;
    var carry: nat := byte;
    j := buf.Length - 1;
    while j > high || carry != 0
      invariant lo == j + 1 <= buf.Length && carry <= 255
      invariant buf[..] == was[..lo] + done && |done| == buf.Length - lo
      invariant Absorbed(was[lo..], done, carry, byte, 58, 256)
      decreases j
    {
      carry, done := PushDigit(buf, j, carry, was, done, byte);
      lo := j;
      if j == 0 {
        break;
      }
      j := j - 1;
    }
    AllAbsorbed(was, done, carry, lo, byte);
  }

  /** One turn of that loop. */
  method PushDigit(buf: array<nat>, j: nat, carry0: nat, ghost was: seq<nat>, ghost done0: seq<nat>, ghost byte: nat)
      returns (carry: nat, ghost done: seq<nat>)
    requires j < buf.Length == |was| && carry0 <= 255 && Digits(was, 58)
    requires buf[..] == was[..j + 1] + done0 && Absorbed(was[j + 1..], done0, carry0, byte, 58, 256)
    modifies buf
    ensures carry <= 255 && buf[..] == was[..j] + done && Absorbed(was[j..], done, carry, byte, 58, 256)
  {
    OneDigit(was, done0, j, (carry0 + 256 * was[j]) % 58);
    assert buf[..][j] == was[j];
    carry := carry0 + 256 * buf[j];
    buf[j] := carry % 58;
    carry := carry / 58;
    AbsorbOne(was, done0, carry0, carry, buf[j], j, byte, 58, 256);
    done := [buf[j]] + done0;
  }

  lemma OneDigit(was: seq<nat>, done: seq<nat>, j: nat, d: nat)
    requires j < |was|
    ensures (was[..j + 1] + done)[j] == was[j]
    ensures (was[..j + 1] + done)[j := d] == was[..j] + ([d] + done)
  {}

  lemma AllAbsorbed(was: seq<nat>, done: seq<nat>, carry: nat, lo: nat, byte: nat)
    requires lo <= |was| && Absorbed(was[lo..], done, carry, byte, 58, 256) && Digits(was, 58)
    requires lo == 0 || (carry == 0 && forall p :: 0 <= p < lo ==> was[p] == 0)
    requires Val(was, 58) * 256 + byte < Pow(58, |was|)
    ensures var now := was[..lo] + done; Digits(now, 58) && Val(now, 58) == Val(was, 58) * 256 + byte
  {
    var now := was[..lo] + done;
    if lo == 0 {
      assert was[0..] == was && now == done;
      NoCarryOut(Val(done, 58), carry, Pow(58, |was|));
    } else {
      assert now[lo..] == done;
      ValDropZeros(was, lo, 58);
      ValDropZeros(now, lo, 58);
      NothingCarried(Val(done, 58), Pow(58, |done|), Val(was, 58) * 256 + byte);
    }
  }

  lemma NothingCarried(v: nat, p: nat, total: nat)
    requires v + 0 * p == total
    ensures v == total
  {}

  lemma NoCarryOut(v: nat, carry: nat, p: nat)
    requires v + carry * p < p
    ensures carry == 0
  {
    if carry > 0 { MulAtLeast(carry, p); }
  }

  /** Below 58^(n-1) the first of n digits is zero. */
  lemma TopDigitZero(s: seq<nat>)
    requires s != [] && Val(s, 58) < Pow(58, |s| - 1)
    ensures s[0] == 0
  {
    if s[0] != 0 { FirstDigitBound(s, 58); }
  }

  /** The text written for `bin`, NUL-terminated, if it fits in `b58sz` characters. */
  method B58Enc(b58: array<char>, b58sz: nat, bin: seq<Byte>) returns (ok: bool, size: nat)
    requires b58sz <= b58.Length
    modifies b58
    ensures ok <==> |Encode(bin)| < b58sz
    ensures size == |Encode(bin)| + 1
    ensures ok ==> b58[..] == Encode(bin) + ['\0'] + old(b58[size..])
    ensures !ok ==> b58[..] == old(b58[..])
  {
    var zcount := 0;
    while zcount < |bin| && bin[zcount] == 0
      invariant zcount <= |bin| && forall i :: 0 <= i < zcount ==> bin[i] == 0
    {
      zcount := zcount + 1;
    }
    LeadingZerosUnique(bin, zcount);
    var buf := Convert(bin, zcount);
    var j := 0;
    while j < buf.Length && buf[j] == 0
      invariant j <= buf.Length && forall i :: 0 <= i < j ==> buf[i] == 0
    {
      j := j + 1;
    }
    ghost var ds := buf[j..];
    ValDropZeros(buf[..], j, 58);
    CanonicalDigits(ds);
    assert Encode(bin) == Ones(zcount) + Text(ds);
    if b58sz <= zcount + buf.Length - j {
      return false, zcount + buf.Length - j + 1;
    }
    WriteText(b58, zcount, buf, j);
    return true, zcount + buf.Length - j + 1;
  }

  ghost predicate Written(was: string, now: string, text: string, i: nat) {
    && |now| == |was| && i <= |text| <= |now|
    && (forall k :: 0 <= k < i ==> now[k] == text[k])
    && (forall k :: i <= k < |now| ==> now[k] == was[k])
  }

  /** The ones, the characters of the digits from j on, and the terminator. */
  method WriteText(b58: array<char>, zcount: nat, buf: array<nat>, first: nat)
    requires first <= buf.Length && Digits(buf[..], 58)
    requires zcount + buf.Length - first < b58.Length
    modifies b58
    ensures var text := Ones(zcount) + Text(buf[first..]);
      b58[..] == text + ['\0'] + old(b58[|text| + 1..])
  {
    ghost var text := Ones(zcount) + Text(buf[first..]);
    var i := 0;
    while i < zcount
      invariant i <= zcount && Written(old(b58[..]), b58[..], text, i)
    {
      b58[i] := '1';
      i := i + 1;
    }
    var j := first;
    while j < buf.Length
      invariant first <= j <= buf.Length && i == zcount + j - first
      invariant Written(old(b58[..]), b58[..], text, i)
    {
      assert buf[..][j] < 58;
      b58[i] := CharOf(buf[j]);
      i, j := i + 1, j + 1;
    }
    b58[i] := '\0';
  }

  /** The encoder's outer loop: the digits of the number after the leading zero bytes. */
  method Convert(bin: seq<Byte>, zcount: nat) returns (buf: array<nat>)
    requires zcount <= |bin| && forall i :: 0 <= i < zcount ==> bin[i] == 0
    ensures fresh(buf) && Digits(buf[..], 58) && Val(buf[..], 58) == Val(bin, 256)
  {
    ghost var tail := bin[zcount..];
    var size := (|bin| - zcount) * 138 / 100 + 1;
    buf := new nat[size](_ => 0);
    var high: nat := size - 1;
    assert forall p :: 0 <= p < size ==> buf[..][p] == 0;
    ValDropZeros(buf[..], size, 58);
    for i := zcount to |bin|
      invariant high < size == buf.Length && Digits(buf[..], 58)
      invariant Val(buf[..], 58) == Val(tail[..i - zcount], 256)
      invariant i < |bin| ==> forall p :: 0 <= p <= high ==> buf[p] == 0
    {
      ByteBounds(tail, i - zcount);
      high := PushByte(buf, high, bin[i]);
      if i + 1 < |bin| && high == 0 {
        TopDigitZero(buf[..]);
      }
    }
    ValDropZeros(bin, zcount, 256);
    assert tail[..|tail|] == tail;
  }

  lemma ByteBounds(tail: seq<Byte>, k: nat)
    requires k < |tail|
    ensures Val(tail[..k + 1], 256) == Val(tail[..k], 256) * 256 + tail[k]
    ensures Val(tail[..k + 1], 256) < Pow(58, |tail| * 138 / 100 + 1)
    ensures k + 1 < |tail| ==> Val(tail[..k + 1], 256) < Pow(58, |tail| * 138 / 100)
  {
    var s := tail[..k + 1];
    NextPrefix(tail, k, s);
    PrefixBounds(s, |tail|);
  }

  lemma NextPrefix(tail: seq<Byte>, k: nat, s: seq<Byte>)
    requires k < |tail| && s == tail[..k + 1]
    ensures Val(s, 256) == Val(tail[..k], 256) * 256 + tail[k]
  {
    assert s == tail[..k] + [tail[k]];
    ValAppend(tail[..k], tail[k], 256);
  }

  /** No digit is ever carried out of the buffer, and its first digit stays zero until the last
      byte: this is what makes skipping the untouched positions sound. */
  lemma PrefixBounds(s: seq<Byte>, n: nat)
    requires 0 < |s| <= n
    ensures Val(s, 256) < Pow(58, n * 138 / 100 + 1)
    ensures |s| < n ==> Val(s, 256) < Pow(58, n * 138 / 100)
  {
    ValBound(s, 256);
    var k := |s|;
    EncoderBufferSuffices(k);
    if k < n {
      assert k * 138 / 100 + 1 <= n * 138 / 100;
      PowMonotone(58, k * 138 / 100 + 1, n * 138 / 100);
      PowMonotone(58, n * 138 / 100, n * 138 / 100 + 1);
    }
  }

  // ---- Decoding ----

  /** The decoder's inner loop: multiply the words by 58, add a digit, return the word carried out. */
  method AbsorbDigit(outi: array<nat>, digit: nat) returns (c: nat)
    requires Digits(outi[..], WORD) && digit < 58
    modifies outi
    ensures Absorbed(old(outi[..]), outi[..], c, digit, WORD, 58)
  {
    ghost var was, done: seq<nat> := outi[..], [];
    c := digit;
    var j := outi.Length;
    while j > 0
      invariant 0 <= j <= outi.Length && c < 58
      invariant outi[..] == was[..j] + done && |done| == outi.Length - j
      invariant Absorbed(was[j..], done, c, digit, WORD, 58)
    {
      j := j - 1;
      ghost var c0 := c;
      assert outi[j] == was[j];
      var t := outi[j] * 58 + c;
      c := t / WORD;
      outi[j] := t % WORD;
      AbsorbOne(was, done, c0, c, outi[j], j, digit, WORD, 58);
      done := [outi[j]] + done;
    }
    assert was[0..] == was && outi[..] == done;
  }

  lemma {:induction false} WordBytes(k: nat)
    ensures Pow(WORD, k) == Pow(256, 4 * k)
  {
    if k > 0 {
      WordBytes(k - 1);
      PowAdd(256, 4, 4 * (k - 1));
      Powers256();
    }
  }

  /** The mask test on the first word is the test that the number fits in n bytes. */
  lemma FitsInBytes(s: seq<nat>, n: nat)
    requires n > 0 && |s| == (n + 3) / 4 && Digits(s, WORD)
    ensures n % 4 == 0 ==> Val(s, WORD) < Pow(256, n)
    ensures n % 4 != 0 ==> (s[0] < Pow(256, n % 4) <==> Val(s, WORD) < Pow(256, n))
  {
    if n % 4 == 0 {
      ValBound(s, WORD);
      WordBytes(|s|);
      assert n == 4 * |s|;
    } else {
      FitsShort(s, n % 4);
      assert n == n % 4 + 4 * (|s| - 1);
    }
  }

  lemma FitsShort(s: seq<nat>, r: nat)
    requires s != [] && Digits(s, WORD)
    ensures s[0] < Pow(256, r) <==> Val(s, WORD) < Pow(256, r + 4 * (|s| - 1))
  {
    var k := |s| - 1;
    WordBytes(k);
    ValBound(s[1..], WORD);
    PowAdd(256, r, 4 * k);
    TopDigitTest(s[0], Val(s[1..], WORD), Pow(WORD, k), Pow(256, r));
  }

  lemma TopDigitTest(d: nat, rest: nat, p: nat, limit: nat)
    requires rest < p
    ensures d < limit <==> d * p + rest < limit * p
  {
    if d < limit {
      assert (d + 1) * p <= limit * p;
    } else {
      assert d * p >= limit * p;
    }
  }

  ghost predicate Reads(words: seq<nat>, s: string, n: nat) {
    && Digits(words, WORD) && AllDigits(s)
    && Val(words, WORD) == TextValue(s) < Pow(256, n)
  }

  /** A text that already overflows, or holds a bad character, stays bad however it goes on. */
  lemma {:induction false} PrefixDecides(s: string, k: nat, n: nat)
    requires k <= |s|
    ensures !AllDigits(s[..k]) ==> !AllDigits(s)
    ensures AllDigits(s) && TextValue(s) < Pow(256, n) ==> AllDigits(s[..k]) && TextValue(s[..k]) < Pow(256, n)
    decreases |s|
  {
    if AllDigits(s) && k < |s| {
      var m := |s| - 1;
      TextValueStep(s[..m], s[m]);
      assert s == s[..m] + [s[m]];
      assert s[..m][..k] == s[..k];
      PrefixDecides(s[..m], k, n);
    } else if k == |s| {
      assert s[..k] == s;
    }
  }

  lemma TextValueStep(s: string, c: char)
    requires AllDigits(s) && DigitOf(c) >= 0
    ensures AllDigits(s + [c]) && TextValue(s + [c]) == TextValue(s) * 58 + DigitOf(c)
  {
    assert DigitsOf(s + [c]) == DigitsOf(s) + [DigitOf(c)];
    ValAppend(DigitsOf(s), DigitOf(c), 58);
  }

  /** Feed one character to the words; false if it is not a digit or the number outgrows n bytes. */
  method TakeChar(outi: array<nat>, ghost s: string, c: char, n: nat) returns (ok: bool)
    requires n > 0 && outi.Length == (n + 3) / 4 && Reads(outi[..], s, n)
    modifies outi
    ensures ok <==> AllDigits(s + [c]) && TextValue(s + [c]) < Pow(256, n)
    ensures ok ==> Reads(outi[..], s + [c], n)
  {
    var d := DigitOf(c);
    if d == -1 {
      assert (s + [c])[|s|] == c;
      return false;
    }
    TextValueStep(s, c);
    var carry := AbsorbDigit(outi, d);
    CarryMeansOverflow(outi[..], carry, TextValue(s + [c]), n);
    if carry != 0 {
      return false;
    }
    var bytesLeft := n % 4;
    FitsInBytes(outi[..], n);
    Powers256();
    ok := bytesLeft == 0 || outi[0] < Shift(bytesLeft);
  }

  lemma CarryMeansOverflow(words: seq<nat>, carry: nat, v: nat, n: nat)
    requires n > 0 && |words| == (n + 3) / 4
    requires v == Val(words, WORD) + carry * Pow(WORD, |words|)
    ensures carry != 0 ==> v >= Pow(256, n)
    ensures carry == 0 ==> v == Val(words, WORD)
  {
    WordBytes(|words|);
    PowMonotone(256, n, 4 * |words|);
    if carry != 0 { MulAtLeast(carry, Pow(WORD, |words|)); }
  }

  /** 2^0, 2^8, 2^16, 2^24. */
  function Shift(i: nat): nat
    requires i < 4
  {
    [1, 0x100, 0x1_0000, 0x100_0000][i]
  }

  /** Write the low k bytes of a word, most significant first. */
  method PutWord(bin: array<Byte>, at: nat, w: nat, k: nat)
    requires k <= 4 && at + k <= bin.Length
    modifies bin
    ensures bin[..] == old(bin[..at]) + BE(w, k) + old(bin[at + k..])
  {
    var i := k;
    var pos := at;
    ghost var head, tail := bin[..at], bin[at..];
    while i > 0
      invariant 0 <= i <= k && pos == at + k - i
      invariant tail == old(bin[pos..]) && bin[..] == head + BE(w, k)[..k - i] + tail
    {
      ByteOfWord(w, k, i);
      PutOne(head, BE(w, k)[..k - i], tail, BE(w, k)[k - i]);
      assert BE(w, k)[..k - i] + [BE(w, k)[k - i]] == BE(w, k)[..k - i + 1];
      bin[pos] := (w / Shift(i - 1)) % 256;
      tail := tail[1..];
      i, pos := i - 1, pos + 1;
    }
  }

  lemma PutOne(head: seq<Byte>, done: seq<Byte>, tail: seq<Byte>, b: Byte)
    requires tail != []
    ensures (head + done + tail)[|head| + |done| := b] == head + (done + [b]) + tail[1..]
  {}

  lemma ByteOfWord(w: nat, k: nat, i: nat)
    requires 0 < i <= k <= 4
    ensures BE(w, k)[k - i] == (w / Shift(i - 1)) % 256
  {
    var w1, w2, w3 := w / 256, w / 256 / 256, w / 256 / 256 / 256;
    assert w2 == w / 65536 && w3 == w / 16777216;
    assert BE(w3, 1) == BE(w3 / 256, 0) + [w3 % 256];
    if i == 1 { LastByte(w, k); }
    else if i == 2 { LastByte(w1, k - 1); }
    else if i == 3 { LastByte(w2, k - 2); assert BE(w1, k - 1) == BE(w2, k - 2) + [w1 % 256]; }
    else { assert BE(w2, 2) == BE(w3, 1) + [w2 % 256]; assert BE(w1, 3) == BE(w2, 2) + [w1 % 256]; }
  }

  lemma LastByte(w: nat, k: nat)
    requires k > 0
    ensures BE(w, k)[k - 1] == w % 256
  {}

  lemma AppendWord(a: seq<Byte>, words: seq<nat>, w: nat)
    requires w < WORD && Val(a, 256) == Val(words, WORD)
    ensures Val(a + BE(w, 4), 256) == Val(words + [w], WORD)
  {
    Powers256();
    ValOfBE(w, 4);
    ValConcat(a, BE(w, 4), 256);
    ValAppend(words, w, WORD);
  }

  lemma AppendNext(a: seq<Byte>, words: seq<nat>, j: nat)
    requires j < |words| && words[j] < WORD && Val(a, 256) == Val(words[..j], WORD)
    ensures Val(a + BE(words[j], 4), 256) == Val(words[..j + 1], WORD)
  {
    assert words[..j + 1] == words[..j] + [words[j]];
    AppendWord(a, words[..j], words[j]);
  }

  /** Write the words as n bytes, the first word possibly short. */
  method WriteWords(bin: array<Byte>, n: nat, outi: array<nat>)
    requires 0 < n <= bin.Length && outi.Length == (n + 3) / 4
    requires Digits(outi[..], WORD) && Val(outi[..], WORD) < Pow(256, n)
    modifies bin
    ensures bin[..n] == BE(Val(outi[..], WORD), n)
    ensures bin[n..] == old(bin[n..])
  {
    ghost var front: seq<Byte> := [];
    var j, pos := 0, 0;
    var bytesLeft := n % 4;
    WordCount(n, bytesLeft, outi.Length);
    assert outi[..0] == [];
    if bytesLeft != 0 {
      front := ShortWord(bin, n, bytesLeft, outi);
      j, pos := 1, bytesLeft;
    }
    WholeWords(bin, n, outi, j, pos, front);
  }

  lemma WordCount(n: nat, left: nat, len: nat)
    requires left == n % 4 && len == (n + 3) / 4
    ensures if left == 0 then n == 4 * len else len > 0 && n - left == 4 * (len - 1) >= 0
  {}

  /** The first word, cut short. */
  method ShortWord(bin: array<Byte>, n: nat, left: nat, outi: array<nat>) returns (ghost front: seq<Byte>)
    requires left <= n <= bin.Length && left == n % 4 != 0 && outi.Length == (n + 3) / 4
    requires Digits(outi[..], WORD) && Val(outi[..], WORD) < Pow(256, n)
    modifies bin
    ensures |front| == left && bin[..left] == front && Val(front, 256) == Val(outi[..1], WORD)
    ensures bin[n..] == old(bin[n..])
  {
    ghost var was := bin[..];
    FirstWord(outi[..], n);
    front := BE(outi[0], left);
    PutWord(bin, 0, outi[0], left);
    assert bin[..] == front + was[left..];
    Ends(front, was, left, n);
  }

  /** The full words, from word j on. */
  method WholeWords(bin: array<Byte>, n: nat, outi: array<nat>, start: nat, from: nat, ghost front: seq<Byte>)
    requires start <= outi.Length && from <= n <= bin.Length && n - from == 4 * (outi.Length - start)
    requires Digits(outi[..], WORD)
    requires bin[..from] == front && Val(front, 256) == Val(outi[..start], WORD)
    modifies bin
    ensures bin[..n] == BE(Val(outi[..], WORD), n)
    ensures bin[n..] == old(bin[n..])
  {
    ghost var was, done := bin[..], front;
    var j, pos := start, from;
    while j < outi.Length
      invariant j <= outi.Length && n - pos == 4 * (outi.Length - j)
      invariant |done| == pos && bin[..] == done + was[pos..]
      invariant Val(done, 256) == Val(outi[..j], WORD)
    {
      assert outi[..][j] < WORD;
      ghost var w := BE(outi[j], 4);
      AppendNext(done, outi[..], j);
      NextPut(done, was, pos, w);
      PutWord(bin, pos, outi[j], 4);
      done := done + w;
      j, pos := j + 1, pos + 4;
    }
    assert outi[..outi.Length] == outi[..];
    Ends(done, was, n, n);
    BEofVal(done);
  }

  /** Four bytes written behind those already there. */
  lemma NextPut(done: seq<Byte>, was: seq<Byte>, pos: nat, w: seq<Byte>)
    requires |done| == pos && pos + |w| <= |was|
    ensures (done + was[pos..])[..pos] == done && (done + was[pos..])[pos + |w|..] == was[pos + |w|..]
  {}

  lemma Ends(done: seq<Byte>, was: seq<Byte>, k: nat, n: nat)
    requires |done| == k <= n <= |was|
    ensures (done + was[k..])[..k] == done && (done + was[k..])[n..] == was[n..]
  {}

  lemma FirstWord(words: seq<nat>, n: nat)
    requires n % 4 != 0 && |words| == (n + 3) / 4
    requires Digits(words, WORD) && Val(words, WORD) < Pow(256, n)
    ensures Val(BE(words[0], n % 4), 256) == Val(words[..1], WORD)
  {
    FitsInBytes(words, n);
    ValOfBE(words[0], n % 4);
    ValCons(words[0], [], WORD);
    assert words[..1] == [words[0]] + [];
  }

  /** Decode a text into the first `binsz` bytes of `bin`, right-aligned. */
  method B58ToBin(bin: array<Byte>, binsz: nat, b58: string) returns (ok: bool, size: nat)
    requires binsz <= bin.Length
    modifies bin
    ensures ok <==> Decodes(b58, binsz)
    ensures ok ==> bin[..binsz] == BE(TextValue(b58), binsz) && size == DecodedSize(b58, binsz)
    ensures !ok ==> size == binsz
    ensures bin[binsz..] == old(bin[binsz..])
  {
    if binsz == 0 {
      return false, 0;
    }
    var outi := new nat[(binsz + 3) / 4](_ => 0);
    var zerocount := 0;
    while zerocount < |b58| && b58[zerocount] == '1'
      invariant zerocount <= |b58| && forall k :: 0 <= k < zerocount ==> b58[k] == '1'
    {
      zerocount := zerocount + 1;
    }
    CountOnesUnique(b58, zerocount);
    OnesWriteZero(b58[..zerocount], outi[..], binsz);
    ok := ReadText(outi, b58, zerocount, binsz);
    if !ok {
      return false, binsz;
    }
    WriteWords(bin, binsz, outi);
    var i := 0;
    while i < binsz && bin[i] == 0
      invariant i <= binsz && forall k :: 0 <= k < i ==> bin[k] == 0
    {
      i := i + 1;
    }
    LeadingZerosUnique(bin[..binsz], i);
    if zerocount > i {
      return false, binsz;
    }
    return true, binsz - i + zerocount;
  }

  /** The loop over the characters. */
  method ReadText(outi: array<nat>, b58: string, start: nat, n: nat) returns (ok: bool)
    requires n > 0 && outi.Length == (n + 3) / 4 && start <= |b58| && Reads(outi[..], b58[..start], n)
    modifies outi
    ensures ok <==> AllDigits(b58) && TextValue(b58) < Pow(256, n)
    ensures ok ==> Reads(outi[..], b58, n)
  {
    assert b58[..|b58|] == b58;
    for i := start to |b58|
      invariant Reads(outi[..], b58[..i], n)
    {
      assert b58[..i + 1] == b58[..i] + [b58[i]];
      PrefixDecides(b58, i + 1, n);
      var taken := TakeChar(outi, b58[..i], b58[i], n);
      if !taken {
        return false;
      }
    }
    ok := true;
  }

  lemma OnesWriteZero(ones: string, words: seq<nat>, n: nat)
    requires forall k :: 0 <= k < |ones| ==> ones[k] == '1'
    requires forall k :: 0 <= k < |words| ==> words[k] == 0
    ensures Reads(words, ones, n)
  {
    ValDropZeros(words, |words|, WORD);
    ValDropZeros(DigitsOf(ones), |ones|, 58);
  }

  // ---- The two conversions together ----

  /** Encode into a large enough text buffer, decode into a large enough byte buffer: the bytes
      come back, right-aligned, with their length. */
  method EncodeThenDecode(d: seq<Byte>, b58: array<char>, bin: array<Byte>) returns (size: nat)
    requires |Encode(d)| < b58.Length && |d| <= bin.Length && bin.Length > 0
    modifies b58, bin
    ensures size == |d|
    ensures bin[..] == seq(bin.Length - |d|, _ => 0) + d
  {
    var ok, n := B58Enc(b58, b58.Length, d);
    DecodeOfEncode(d, bin.Length);
    assert b58[..n - 1] == Encode(d);
    var ok';
    ok', size := B58ToBin(bin, bin.Length, b58[..n - 1]);
    assert bin[..bin.Length] == bin[..];
  }
}
