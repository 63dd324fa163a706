/** Undo records: the coins a block spent, kept to put them back. */
module BlockUndo {
  import opened Bytes
  import opened BlockHeaders
  import opened Wrappers
  import opened BlockCodec

  const COIN_BLOB_SIZE := 46

  datatype Coin = Coin(value: I64, pubkeyHash: Bytes32, height: U32, isCoinbase: bool, isSpent: bool)

  function Flag(b: bool): Byte {
    if b then 1 else 0
  }

  // ---- One coin ----

  function CoinBytes(c: Coin): (s: seq<Byte>)
    ensures |s| == COIN_BLOB_SIZE
  {
    LE(Unsigned(c.value), 8) + LE(c.height, 4) + [Flag(c.isCoinbase)] + [Flag(c.isSpent)] + c.pubkeyHash
  }

  function ParsedCoin(s: seq<Byte>): Coin
    requires |s| == COIN_BLOB_SIZE
  {
    ByteLimits();
    FromLEBound(s[0..8]);
    FromLEBound(s[8..12]);
    Coin(Signed(FromLE(s[0..8])), s[14..46], FromLE(s[8..12]), s[12] != 0, s[13] != 0)
  }

  method WriteCoin(out: seq<Byte>, c: Coin) returns (r: seq<Byte>)
    ensures r == out + CoinBytes(c)
  {
    r := WriteLE(out, Unsigned(c.value), 8);
    r := WriteLE(r, c.height, 4);
    r := r + [Flag(c.isCoinbase)];
    r := r + [Flag(c.isSpent)];
    r := r + c.pubkeyHash;
    Regrouped(out, LE(Unsigned(c.value), 8), LE(c.height, 4), [Flag(c.isCoinbase)], [Flag(c.isSpent)], c.pubkeyHash);
  }

  lemma Regrouped(out: seq<Byte>, v: seq<Byte>, w: seq<Byte>, x: seq<Byte>, y: seq<Byte>, z: seq<Byte>)
    ensures out + v + w + x + y + z == out + (v + w + x + y + z)
  {}

  method ReadCoin(data: seq<Byte>, start: nat) returns (c: Coin, offset: nat)
    requires start + COIN_BLOB_SIZE <= |data|
    ensures c == ParsedCoin(data[start..start + COIN_BLOB_SIZE]) && offset == start + COIN_BLOB_SIZE
  {
    ghost var blob := data[start..start + COIN_BLOB_SIZE];
    ByteLimits();
    Narrow(data, start, COIN_BLOB_SIZE, 0, 8);
    Narrow(data, start, COIN_BLOB_SIZE, 8, 12);
    Narrow(data, start, COIN_BLOB_SIZE, 14, 46);
    offset := start;
    var v := ReadLE(data, offset, 8);
    offset := offset + 8;
    var height := ReadLE(data, offset, 4);
    offset := offset + 4;
    var isCoinbase := data[offset] != 0;
    offset := offset + 1;
    var isSpent := data[offset] != 0;
    offset := offset + 1;
    c := Coin(Signed(v), data[offset..offset + 32], height, isCoinbase, isSpent);
    offset := offset + 32;
  }

  lemma Narrow(data: seq<Byte>, at: nat, n: nat, i: nat, j: nat)
    requires at + n <= |data| && i <= j <= n
    ensures data[at..at + n][i..j] == data[at + i..at + j]
  {
    var x, y := data[at..at + n][i..j], data[at + i..at + j];
    forall k | 0 <= k < |x|
      ensures x[k] == y[k]
    {
      assert data[at..at + n][i + k] == data[at + i + k];
    }
  }

  lemma CoinReadsBack(c: Coin)
    ensures ParsedCoin(CoinBytes(c)) == c
  {
    var s := CoinBytes(c);
    CoinPieces(LE(Unsigned(c.value), 8), LE(c.height, 4), Flag(c.isCoinbase), Flag(c.isSpent), c.pubkeyHash);
    ByteLimits();
    FromLEofLE(Unsigned(c.value), 8);
    FromLEofLE(c.height, 4);
  }

  lemma CoinPieces(v: seq<Byte>, h: seq<Byte>, x: Byte, y: Byte, z: seq<Byte>)
    requires |v| == 8 && |h| == 4 && |z| == 32
    ensures var s := v + h + [x] + [y] + z;
      |s| == COIN_BLOB_SIZE && s[0..8] == v && s[8..12] == h && s[12] == x && s[13] == y && s[14..46] == z
  {}

  /** Bytes accepted as a coin are that coin's own bytes exactly when both flags are 0 or 1. */
  lemma CoinCanonical(s: seq<Byte>)
    requires |s| == COIN_BLOB_SIZE
    ensures CoinBytes(ParsedCoin(s)) == s <==> s[12] <= 1 && s[13] <= 1
  {
    var c := ParsedCoin(s);
    ByteLimits();
    FromLEBound(s[0..8]);
    LEofFromLE(s[0..8]);
    LEofFromLE(s[8..12]);
    CoinPieces(s[0..8], s[8..12], Flag(c.isCoinbase), Flag(c.isSpent), s[14..46]);
    assert s == s[0..8] + s[8..12] + [s[12]] + [s[13]] + s[14..46];
  }

  // ---- The coins of a transaction, and all of them ----

  function CoinsBytes(cs: seq<Coin>): seq<Byte> {
    if cs == [] then [] else CoinBytes(cs[0]) + CoinsBytes(cs[1..])
  }

  function TxUndoBytes(cs: seq<Coin>): seq<Byte> {
    LE(|cs|, 4) + CoinsBytes(cs)
  }

  function AllUndoBytes(u: seq<seq<Coin>>): seq<Byte> {
    if u == [] then [] else TxUndoBytes(u[0]) + AllUndoBytes(u[1..])
  }

  function UndoBytes(u: seq<seq<Coin>>): seq<Byte> {
    LE(|u|, 4) + AllUndoBytes(u)
  }

  method SerializeUndo(u: seq<seq<Coin>>) returns (out: seq<Byte>)
    ensures out == UndoBytes(u)
  {
    out := WriteLE([], |u|, 4);
    assert [] + LE(|u|, 4) == LE(|u|, 4);
    ghost var front := out;
    for i := 0 to |u|
      invariant out + AllUndoBytes(u[i..]) == front + AllUndoBytes(u)
    {
      ghost var was := out;
      out := WriteLE(out, |u[i]|, 4);
      out := WriteCoins(out, u[i]);
      assert u[i..][1..] == u[i + 1..];
      Regroup(was, LE(|u[i]|, 4), CoinsBytes(u[i]), AllUndoBytes(u[i + 1..]));
    }
  }

  method WriteCoins(start: seq<Byte>, cs: seq<Coin>) returns (out: seq<Byte>)
    ensures out == start + CoinsBytes(cs)
  {
    out := start;
    for j := 0 to |cs|
      invariant out + CoinsBytes(cs[j..]) == start + CoinsBytes(cs)
    {
      ghost var was := out;
      out := WriteCoin(out, cs[j]);
      assert cs[j..][1..] == cs[j + 1..];
      Regroup(was, [], CoinBytes(cs[j]), CoinsBytes(cs[j + 1..]));
      assert was + [] == was && [] + CoinBytes(cs[j]) == CoinBytes(cs[j]);
    }
  }

  function ParsedCoins(data: seq<Byte>, offset: nat, n: nat): (cs: seq<Coin>)
    requires offset + n * COIN_BLOB_SIZE <= |data|
    ensures |cs| == n
    decreases n
  {
    if n == 0 then []
    else [ParsedCoin(data[offset..offset + COIN_BLOB_SIZE])] + ParsedCoins(data, offset + COIN_BLOB_SIZE, n - 1)
  }

  function ParsedUndos(data: seq<Byte>, offset: nat, n: nat): Result<seq<seq<Coin>>>
    requires offset <= |data|
    decreases n
  {
    if n == 0 then Ok([])
    else
      match ParsedTxUndo(data, offset)
      case Err(e) => Err(e)
      case Ok(next) => Prepended([next.0], ParsedUndos(data, next.1, n - 1))
  }

  /** The coins of one transaction, and where they end. */
  function ParsedTxUndo(data: seq<Byte>, offset: nat): (r: Result<(seq<Coin>, nat)>)
    requires offset <= |data|
    ensures r.Ok? ==> r.value.1 <= |data|
  {
    if offset + 4 > |data| then Err("BlockUndo: truncated at input count")
    else
      var count := FromLE(data[offset..offset + 4]);
      if count > MAX_TRANSACTIONS then Err("BlockUndo: coin count implausible")
      else if offset + 4 + count * COIN_BLOB_SIZE > |data| then Err("BlockUndo: truncated inside coins")
      else Ok((ParsedCoins(data, offset + 4, count), offset + 4 + count * COIN_BLOB_SIZE))
  }

  function ParsedUndo(data: seq<Byte>): Result<seq<seq<Coin>>> {
    if |data| < 4 then Err("BlockUndo: data too short")
    else
      var count := FromLE(data[0..4]);
      if count > MAX_TRANSACTIONS then Err("BlockUndo: transaction count implausible")
      else ParsedUndos(data, 4, count)
  }

  /** Every byte read lies inside the data, whatever the data claims about its own lengths. */
  method DeserializeUndo(data: seq<Byte>) returns (r: Result<seq<seq<Coin>>>)
    ensures r == ParsedUndo(data)
  {
    if |data| < 4 {
      return Err("BlockUndo: data too short");
    }
    var txCount := ReadLE(data, 0, 4);
    var offset := 4;
    if txCount > MAX_TRANSACTIONS {
      return Err("BlockUndo: transaction count implausible");
    }
    var undo: seq<seq<Coin>> := [];
    ghost var all := ParsedUndos(data, 4, txCount);
    PrependedNothing(all);
    for i := 0 to txCount
      invariant 4 <= offset <= |data|
      invariant all == Prepended(undo, ParsedUndos(data, offset, txCount - i))
    {
      var next := ReadTxUndo(data, offset);
      if next.Err? {
        return Err(next.error);
      }
      offset := next.value.1;
      PrependedMore(undo, next.value.0, ParsedUndos(data, offset, txCount - i - 1));
      undo := undo + [next.value.0];
    }
    assert undo + [] == undo;
    r := Ok(undo);
  }

  /** The body of that loop. */
  method ReadTxUndo(data: seq<Byte>, start: nat) returns (r: Result<(seq<Coin>, nat)>)
    requires start <= |data|
    ensures r == ParsedTxUndo(data, start)
  {
    var offset := start;
    if offset + 4 > |data| {
      return Err("BlockUndo: truncated at input count");
    }
    var coinCount := ReadLE(data, offset, 4);
    offset := offset + 4;
    if coinCount > MAX_TRANSACTIONS {
      return Err("BlockUndo: coin count implausible");
    }
    if offset + coinCount * COIN_BLOB_SIZE > |data| {
      return Err("BlockUndo: truncated inside coins");
    }
    var coins;
    coins, offset := ReadCoins(data, offset, coinCount);
    r := Ok((coins, offset));
  }

  method ReadCoins(data: seq<Byte>, start: nat, n: nat) returns (coins: seq<Coin>, offset: nat)
    requires start + n * COIN_BLOB_SIZE <= |data|
    ensures coins == ParsedCoins(data, start, n) && offset == start + n * COIN_BLOB_SIZE
  {
    coins, offset := [], start;
    for j := 0 to n
      invariant offset == start + j * COIN_BLOB_SIZE
      invariant coins + ParsedCoins(data, offset, n - j) == ParsedCoins(data, start, n)
    {
      ghost var was := offset;
      var c;
      c, offset := ReadCoin(data, offset);
      CoinsStep(coins, c, data, was, offset, n - j, n - (j + 1));
      coins := coins + [c];
    }
  }

  /** The next coin moves from what is still to be read to what has been read. */
  lemma CoinsStep(coins: seq<Coin>, c: Coin, data: seq<Byte>, offset: nat, next: nat, n: nat, left: nat)
    requires offset + n * COIN_BLOB_SIZE <= |data| && n == left + 1 && next == offset + COIN_BLOB_SIZE
    requires c == ParsedCoin(data[offset..next])
    ensures coins + ParsedCoins(data, offset, n) == (coins + [c]) + ParsedCoins(data, next, left)
  {
    var rest := ParsedCoins(data, next, left);
    assert coins + ([c] + rest) == (coins + [c]) + rest;
  }

  // ---- Reading what was written ----

  predicate AllWithin(u: seq<seq<Coin>>, max: nat) {
    forall i :: 0 <= i < |u| ==> |u[i]| <= max
  }

  lemma WithinSplit(u: seq<seq<Coin>>, max: nat)
    requires u != []
    ensures AllWithin(u, max) <==> |u[0]| <= max && AllWithin(u[1..], max)
  {
    if |u[0]| <= max && AllWithin(u[1..], max) {
      forall i | 0 <= i < |u|
        ensures |u[i]| <= max
      {
        if i > 0 { assert u[i] == u[1..][i - 1]; }
      }
    }
  }

  predicate Plausible(u: seq<seq<Coin>>) {
    |u| <= MAX_TRANSACTIONS && AllWithin(u, MAX_TRANSACTIONS)
  }

  lemma {:induction false} CoinsLength(cs: seq<Coin>)
    ensures |CoinsBytes(cs)| == |cs| * COIN_BLOB_SIZE
  {
    if cs != [] { CoinsLength(cs[1..]); }
  }

  lemma {:induction false} CoinsReadBack(front: seq<Byte>, cs: seq<Coin>, tail: seq<Byte>)
    ensures |front| + |cs| * COIN_BLOB_SIZE <= |front + (CoinsBytes(cs) + tail)|
    ensures ParsedCoins(front + (CoinsBytes(cs) + tail), |front|, |cs|) == cs
    decreases |cs|
  {
    CoinsLength(cs);
    if cs != [] {
      var c, rest := CoinBytes(cs[0]), CoinsBytes(cs[1..]);
      Regroup(front, [], c, rest + tail);
      Moved(front, c, rest, tail);
      CoinsReadBack(front + c, cs[1..], tail);
      CoinReadsBack(cs[0]);
    }
  }

  lemma Moved(front: seq<Byte>, x: seq<Byte>, rest: seq<Byte>, tail: seq<Byte>)
    ensures front + ((x + rest) + tail) == (front + x) + (rest + tail)
    ensures (front + ((x + rest) + tail))[|front|..|front| + |x|] == x
  {
    assert front + ((x + rest) + tail) == (front + x) + (rest + tail);
  }

  lemma {:induction false} UndosReadBack(front: seq<Byte>, u: seq<seq<Coin>>, tail: seq<Byte>)
    requires AllWithin(u, 0xffff_ffff)
    ensures ParsedUndos(front + (AllUndoBytes(u) + tail), |front|, |u|)
      == if AllWithin(u, MAX_TRANSACTIONS) then Ok(u) else Err("BlockUndo: coin count implausible")
    decreases |u|
  {
    if u != [] {
      WithinSplit(u, 0xffff_ffff);
      WithinSplit(u, MAX_TRANSACTIONS);
      FirstReadBack(front, u, tail);
      UndosReadBack(front + TxUndoBytes(u[0]), u[1..], tail);
      assert [u[0]] + u[1..] == u;
    }
  }

  lemma FirstReadBack(front: seq<Byte>, u: seq<seq<Coin>>, tail: seq<Byte>)
    requires u != [] && |u[0]| <= 0xffff_ffff
    ensures ParsedUndos(front + (AllUndoBytes(u) + tail), |front|, |u|)
      == if |u[0]| > MAX_TRANSACTIONS then Err("BlockUndo: coin count implausible")
         else Prepended([u[0]], ParsedUndos((front + TxUndoBytes(u[0])) + (AllUndoBytes(u[1..]) + tail), |front + TxUndoBytes(u[0])|, |u| - 1))
  {
    var data := front + (AllUndoBytes(u) + tail);
    AllSplit(u, tail);
    CoinsAt(data, front, u[0], AllUndoBytes(u[1..]) + tail);
    UndosStep(data, |front|, |u|, u[0], |front + TxUndoBytes(u[0])|);
  }

  lemma AllSplit(u: seq<seq<Coin>>, tail: seq<Byte>)
    requires u != []
    ensures AllUndoBytes(u) + tail == TxUndoBytes(u[0]) + (AllUndoBytes(u[1..]) + tail)
  {}

  /** One more transaction, its coins found. */
  lemma UndosStep(data: seq<Byte>, offset: nat, n: nat, cs: seq<Coin>, next: nat)
    requires n > 0 && next == offset + 4 + |cs| * COIN_BLOB_SIZE <= |data|
    requires FromLE(data[offset..offset + 4]) == |cs| && ParsedCoins(data, offset + 4, |cs|) == cs
    ensures ParsedUndos(data, offset, n)
      == if |cs| > MAX_TRANSACTIONS then Err("BlockUndo: coin count implausible")
         else Prepended([cs], ParsedUndos(data, next, n - 1))
  {
    UndosOpen(data, offset, n);
    TxUndoIs(data, offset, cs, next);
  }

  lemma TxUndoIs(data: seq<Byte>, offset: nat, cs: seq<Coin>, next: nat)
    requires next == offset + 4 + |cs| * COIN_BLOB_SIZE <= |data|
    requires FromLE(data[offset..offset + 4]) == |cs| && ParsedCoins(data, offset + 4, |cs|) == cs
    ensures ParsedTxUndo(data, offset)
      == if |cs| > MAX_TRANSACTIONS then Err("BlockUndo: coin count implausible") else Ok((cs, next))
  {}

  lemma UndosOpen(data: seq<Byte>, offset: nat, n: nat)
    requires n > 0 && offset <= |data|
    ensures ParsedUndos(data, offset, n)
      == match ParsedTxUndo(data, offset)
         case Err(e) => Err(e)
         case Ok(next) => Prepended([next.0], ParsedUndos(data, next.1, n - 1))
  {}

  /** The count and the coins of one transaction found at an offset. */
  lemma CoinsAt(data: seq<Byte>, front: seq<Byte>, cs: seq<Coin>, rest: seq<Byte>)
    requires data == front + (TxUndoBytes(cs) + rest) && |cs| < WORD
    ensures |data| >= |front| + 4 + |cs| * COIN_BLOB_SIZE && FromLE(data[|front|..|front| + 4]) == |cs|
    ensures ParsedCoins(data, |front| + 4, |cs|) == cs
    ensures data == (front + TxUndoBytes(cs)) + rest && |front + TxUndoBytes(cs)| == |front| + 4 + |cs| * COIN_BLOB_SIZE
  {
    var n, coins := LE(|cs|, 4), CoinsBytes(cs);
    CoinsLength(cs);
    Moved(front, n, coins, rest);
    ReadsBack(data, |front|, |cs|);
    CoinsReadBack(front + n, cs, rest);
    Moved(front, n + coins, [], rest);
    assert [] + rest == rest && (n + coins) + [] == n + coins;
  }

  /** An undo record reads back exactly when none of its counts passes the limit; what follows it in the
      data does not matter. */
  lemma UndoRoundTrip(u: seq<seq<Coin>>, tail: seq<Byte>)
    requires |u| < WORD && AllWithin(u, 0xffff_ffff)
    ensures ParsedUndo(UndoBytes(u) + tail) == Ok(u) <==> Plausible(u)
    ensures ParsedUndo(UndoBytes(u) + tail).Ok? <==> Plausible(u)
  {
    var n := LE(|u|, 4);
    var data := UndoBytes(u) + tail;
    assert data == n + (AllUndoBytes(u) + tail);
    assert data[0..4] == n;
    ReadsBack(data, 0, |u|);
    UndosReadBack(n, u, tail);
  }

  lemma {:induction false} TruncatedUndos(front: seq<Byte>, u: seq<seq<Coin>>, n: nat)
    requires AllWithin(u, 0xffff_ffff) && n < |AllUndoBytes(u)|
    ensures ParsedUndos(front + AllUndoBytes(u)[..n], |front|, |u|).Err?
    decreases |u|
  {
    WithinSplit(u, 0xffff_ffff);
    var count, coins, tx, more := LE(|u[0]|, 4), CoinsBytes(u[0]), TxUndoBytes(u[0]), AllUndoBytes(u[1..]);
    var data := front + (tx + more)[..n];
    CoinsLength(u[0]);
    assert AllUndoBytes(u) == tx + more;
    if n >= |tx| {
      TruncatedUndos(front + tx, u[1..], n - |tx|);
      TruncatedLater(data, front, u[0], more, n, |u|);
    } else {
      TruncatedCoins(data, front, count, coins, more, n, |u|, |u[0]|);
    }
  }

  /** The data ends behind the first transaction. */
  lemma TruncatedLater(data: seq<Byte>, front: seq<Byte>, cs: seq<Coin>, more: seq<Byte>, n: nat, left: nat)
    requires left > 0 && |cs| <= 0xffff_ffff && |TxUndoBytes(cs)| <= n <= |TxUndoBytes(cs) + more|
    requires data == front + (TxUndoBytes(cs) + more)[..n]
    requires ParsedUndos((front + TxUndoBytes(cs)) + more[..n - |TxUndoBytes(cs)|], |front + TxUndoBytes(cs)|, left - 1).Err?
    ensures ParsedUndos(data, |front|, left).Err?
  {
    var tx := TxUndoBytes(cs);
    var cut := more[..n - |tx|];
    CutAfter(tx, more, n);
    CoinsAt(data, front, cs, cut);
    UndosStep(data, |front|, left, cs, |front + tx|);
  }

  /** The data ends before the count, or inside the coins it announces. */
  lemma TruncatedCoins(data: seq<Byte>, front: seq<Byte>, count: seq<Byte>, coins: seq<Byte>, more: seq<Byte>, n: nat, left: nat, k: nat)
    requires left > 0 && k < WORD && count == LE(k, 4) && |coins| == k * COIN_BLOB_SIZE
    requires n < |count + coins| && data == front + ((count + coins) + more)[..n]
    ensures ParsedUndos(data, |front|, left).Err?
  {
    if n >= 4 {
      assert (count + coins) + more == count + (coins + more);
      CutBehind(front, count, coins + more, n);
      ReadsBack(data, |front|, k);
      UndosCut(data, |front|, left, k);
    }
  }

  lemma UndosCut(data: seq<Byte>, offset: nat, n: nat, count: nat)
    requires n > 0 && offset + 4 <= |data| < offset + 4 + count * COIN_BLOB_SIZE
    requires FromLE(data[offset..offset + 4]) == count
    ensures ParsedUndos(data, offset, n).Err?
  {}

  /** A record cut off anywhere is refused. */
  lemma TruncatedUndo(u: seq<seq<Coin>>, n: nat)
    requires |u| < WORD && AllWithin(u, 0xffff_ffff) && n < |UndoBytes(u)|
    ensures ParsedUndo(UndoBytes(u)[..n]).Err?
  {
    var count, rest := LE(|u|, 4), AllUndoBytes(u);
    if n >= 4 {
      CutAfter(count, rest, n);
      var data := count + rest[..n - 4];
      assert data[0..4] == count;
      ReadsBack(data, 0, |u|);
      TruncatedUndos(count, u, n - 4);
    }
  }
}
