/** Blocks as bytes: a header, a count, and each transaction behind its length. */
module BlockCodec {
  import opened Bytes
  import opened BlockHeaders
  import opened Wrappers

  const MAX_TRANSACTIONS := 10000

  /** How transactions are written and read; only their inverse matters here. */
  datatype TxCodec<!T> = TxCodec(serialize: T -> seq<Byte>, deserialize: seq<Byte> -> Result<T>)

  datatype Block<T> = Block(header: Header, transactions: seq<T>)

  /** Written transactions read back, take at least a byte, and their length fits four bytes. */
  ghost predicate Lawful<T(!new)>(c: TxCodec<T>) {
    forall t: T :: c.deserialize(c.serialize(t)) == Ok(t) && 0 < |c.serialize(t)| < 0x1_0000_0000
  }

  function TxBytes<T>(c: TxCodec<T>, t: T): seq<Byte> {
    LE(|c.serialize(t)|, 4) + c.serialize(t)
  }

  function AllTxBytes<T>(c: TxCodec<T>, txs: seq<T>): seq<Byte> {
    if txs == [] then [] else TxBytes(c, txs[0]) + AllTxBytes(c, txs[1..])
  }

  function SerializedBlock<T>(c: TxCodec<T>, b: Block<T>): seq<Byte> {
    Serialized(b.header) + LE(|b.transactions|, 4) + AllTxBytes(c, b.transactions)
  }

  function SerializedSize<T>(c: TxCodec<T>, txs: seq<T>): nat {
    if txs == [] then 0 else 4 + |c.serialize(txs[0])| + SerializedSize(c, txs[1..])
  }

  method Serialize<T>(c: TxCodec<T>, b: Block<T>) returns (data: seq<Byte>)
    ensures data == SerializedBlock(c, b)
  {
    var header := new BlockHeader(b.header);
    data := header.Serialize();
    data := WriteLE(data, |b.transactions|, 4);
    ghost var front := data;
    for i := 0 to |b.transactions|
      invariant data + AllTxBytes(c, b.transactions[i..]) == front + AllTxBytes(c, b.transactions)
    {
      ghost var was := data;
      var txData := c.serialize(b.transactions[i]);
      data := WriteLE(data, |txData|, 4);
      data := data + txData;
      assert b.transactions[i..][1..] == b.transactions[i + 1..];
      Regroup(was, LE(|txData|, 4), txData, AllTxBytes(c, b.transactions[i + 1..]));
    }
  }

  lemma Regroup(a: seq<Byte>, b: seq<Byte>, x: seq<Byte>, d: seq<Byte>)
    ensures ((a + b) + x) + d == a + ((b + x) + d)
  {}

  /** `GetSerializedSize` is exact. */
  method GetSerializedSize<T>(c: TxCodec<T>, b: Block<T>) returns (size: nat)
    ensures size == |SerializedBlock(c, b)|
  {
    size := SERIALIZED_SIZE + 4;
    for i := 0 to |b.transactions|
      invariant size + SerializedSize(c, b.transactions[i..]) == SERIALIZED_SIZE + 4 + SerializedSize(c, b.transactions)
    {
      assert b.transactions[i..][1..] == b.transactions[i + 1..];
      size := size + 4;
      size := size + |c.serialize(b.transactions[i])|;
    }
    SizeIsLength(c, b.transactions);
  }

  lemma {:induction false} SizeIsLength<T>(c: TxCodec<T>, txs: seq<T>)
    ensures |AllTxBytes(c, txs)| == SerializedSize(c, txs)
  {
    if txs != [] { SizeIsLength(c, txs[1..]); }
  }

  // ---- Reading ----

  /** The next n transactions from an offset on. */
  function ParsedTxs<T>(c: TxCodec<T>, data: seq<Byte>, offset: nat, n: nat): Result<seq<T>>
    requires offset <= |data|
    decreases n
  {
    if n == 0 then Ok([])
    else if offset + 4 > |data| then Err("Block truncated at transaction length")
    else
      var txLen := FromLE(data[offset..offset + 4]);
      if txLen == 0 || offset + 4 + txLen > |data| then Err("Block truncated inside transaction")
      else
        match c.deserialize(data[offset + 4..offset + 4 + txLen])
        case Err(e) => Err(e)
        case Ok(tx) =>
          Prepended([tx], ParsedTxs(c, data, offset + 4 + txLen, n - 1))
  }

  function ParsedHeader(data: seq<Byte>): Header
    requires |data| >= SERIALIZED_SIZE
  {
    ByteLimits();
    FromLEBound(data[0..4]);
    FromLEBound(data[100..108]);
    FromLEBound(data[108..112]);
    FromLEBound(data[112..116]);
    FromLEBound(data[116..120]);
    Header(FromLE(data[0..4]), data[4..36], data[36..68], data[68..100], FromLE(data[100..108]),
           FromLE(data[108..112]), FromLE(data[112..116]), FromLE(data[116..120]))
  }

  function ParsedBlock<T>(c: TxCodec<T>, data: seq<Byte>): Result<Block<T>> {
    if |data| < SERIALIZED_SIZE + 4 then Err("Block data too short")
    else
      var count := FromLE(data[SERIALIZED_SIZE..SERIALIZED_SIZE + 4]);
      if count > MAX_TRANSACTIONS then Err("Block transaction count implausible")
      else
        match ParsedTxs(c, data, SERIALIZED_SIZE + 4, count)
        case Err(e) => Err(e)
        case Ok(txs) => Ok(Block(ParsedHeader(data), txs))
  }

  method DeserializeBlock<T>(c: TxCodec<T>, data: seq<Byte>) returns (r: Result<Block<T>>)
    ensures r == ParsedBlock(c, data)
  {
    if |data| < SERIALIZED_SIZE + 4 {
      return Err("Block data too short");
    }
    var h := Deserialize(data);
    HeaderParsed(data, h.value);
    var offset := SERIALIZED_SIZE;
    var count := ReadLE(data, offset, 4);
    offset := offset + 4;
    if count > MAX_TRANSACTIONS {
      return Err("Block transaction count implausible");
    }
    var txs := ReadTransactions(c, data, offset, count);
    if txs.Err? {
      return Err(txs.error);
    }
    r := Ok(Block(h.value, txs.value));
  }

  /** The loop over the transactions. */
  method ReadTransactions<T>(c: TxCodec<T>, data: seq<Byte>, start: nat, count: nat) returns (r: Result<seq<T>>)
    requires start <= |data|
    ensures r == ParsedTxs(c, data, start, count)
  {
    var offset := start;
    var txs: seq<T> := [];
    ghost var all := ParsedTxs(c, data, offset, count);
    PrependedNothing(all);
    for i := 0 to count
      invariant 0 <= offset <= |data|
      invariant all == Prepended(txs, ParsedTxs(c, data, offset, count - i))
    {
      if offset + 4 > |data| {
        return Err("Block truncated at transaction length");
      }
      var txLen := ReadLE(data, offset, 4);
      offset := offset + 4;
      if txLen == 0 || offset + txLen > |data| {
        return Err("Block truncated inside transaction");
      }
      var tx := c.deserialize(data[offset..offset + txLen]);
      if tx.Err? {
        return Err(tx.error);
      }
      PrependedMore(txs, tx.value, ParsedTxs(c, data, offset + txLen, count - i - 1));
      txs := txs + [tx.value];
      offset := offset + txLen;
    }
    assert txs + [] == txs;
    r := Ok(txs);
  }

  function Prepended<T>(txs: seq<T>, r: Result<seq<T>>): Result<seq<T>> {
    match r
    case Err(e) => Err(e)
    case Ok(rest) => Ok(txs + rest)
  }

  lemma PrependedNothing<T>(r: Result<seq<T>>)
    ensures Prepended([], r) == r
  {
    if r.Ok? { assert [] + r.value == r.value; }
  }

  lemma PrependedMore<T>(txs: seq<T>, tx: T, r: Result<seq<T>>)
    ensures Prepended(txs, Prepended([tx], r)) == Prepended(txs + [tx], r)
  {
    if r.Ok? { assert txs + ([tx] + r.value) == txs + [tx] + r.value; }
  }

  lemma HeaderParsed(data: seq<Byte>, h: Header)
    requires |data| >= SERIALIZED_SIZE && Serialized(h) == data[..SERIALIZED_SIZE]
    ensures ParsedHeader(data) == h
  {
    var g := ParsedHeader(data);
    SlicesReadBack(data);
    SerializedInjective(g, h);
  }

  // ---- Reading what was written ----

  lemma ReadsBack(data: seq<Byte>, offset: nat, x: nat)
    requires offset + 4 <= |data| && x < 0x1_0000_0000 && data[offset..offset + 4] == LE(x, 4)
    ensures FromLE(data[offset..offset + 4]) == x
  {
    ByteLimits();
    FromLEofLE(x, 4);
  }

  /** The length and the bytes of a transaction found at an offset. */
  lemma TxAt<T>(c: TxCodec<T>, data: seq<Byte>, front: seq<Byte>, tx: T, rest: seq<Byte>)
    requires data == front + (TxBytes(c, tx) + rest) && |c.serialize(tx)| < 0x1_0000_0000
    ensures var t := c.serialize(tx);
      && |data| >= |front| + 4 + |t| && FromLE(data[|front|..|front| + 4]) == |t|
      && data[|front| + 4..|front| + 4 + |t|] == t
      && data == (front + TxBytes(c, tx)) + rest && |front + TxBytes(c, tx)| == |front| + 4 + |t|
  {
    var t := c.serialize(tx);
    assert data[|front|..|front| + 4] == LE(|t|, 4);
    ReadsBack(data, |front|, |t|);
  }

  lemma {:induction false} ParsedOfWritten<T(!new)>(c: TxCodec<T>, front: seq<Byte>, txs: seq<T>, tail: seq<Byte>)
    requires Lawful(c)
    ensures ParsedTxs(c, front + (AllTxBytes(c, txs) + tail), |front|, |txs|) == Ok(txs)
    decreases |txs|
  {
    if txs != [] {
      var rest := AllTxBytes(c, txs[1..]) + tail;
      var data := front + (AllTxBytes(c, txs) + tail);
      assert AllTxBytes(c, txs) + tail == TxBytes(c, txs[0]) + rest;
      TxAt(c, data, front, txs[0], rest);
      ParsedOfWritten(c, front + TxBytes(c, txs[0]), txs[1..], tail);
      assert [txs[0]] + txs[1..] == txs;
    }
  }

  /** A block reads back exactly when it has no more transactions than allowed; what follows it in the
      data does not matter. */
  lemma BlockRoundTrip<T(!new)>(c: TxCodec<T>, b: Block<T>, tail: seq<Byte>)
    requires Lawful(c) && |b.transactions| < 0x1_0000_0000
    ensures ParsedBlock(c, SerializedBlock(c, b) + tail) == Ok(b) <==> |b.transactions| <= MAX_TRANSACTIONS
  {
    var data := SerializedBlock(c, b) + tail;
    var front := Serialized(b.header) + LE(|b.transactions|, 4);
    assert data == front + (AllTxBytes(c, b.transactions) + tail);
    assert data[SERIALIZED_SIZE..SERIALIZED_SIZE + 4] == LE(|b.transactions|, 4);
    ReadsBack(data, SERIALIZED_SIZE, |b.transactions|);
    ParsedOfWritten(c, front, b.transactions, tail);
    assert data[..SERIALIZED_SIZE] == Serialized(b.header);
    HeaderParsed(data, b.header);
  }

  lemma {:induction false} TruncatedTxs<T(!new)>(c: TxCodec<T>, front: seq<Byte>, txs: seq<T>, n: nat)
    requires Lawful(c) && n < |AllTxBytes(c, txs)|
    ensures ParsedTxs(c, front + AllTxBytes(c, txs)[..n], |front|, |txs|).Err?
    decreases |txs|
  {
    var t, tx, more := c.serialize(txs[0]), TxBytes(c, txs[0]), AllTxBytes(c, txs[1..]);
    var data := front + (tx + more)[..n];
    if n >= |tx| {
      CutAfter(tx, more, n);
      TxAt(c, data, front, txs[0], more[..n - |tx|]);
      TruncatedTxs(c, front + tx, txs[1..], n - |tx|);
    } else if n >= 4 {
      assert tx + more == LE(|t|, 4) + (t + more);
      CutBehind(front, LE(|t|, 4), t + more, n);
      ReadsBack(data, |front|, |t|);
    }
  }

  lemma CutAfter(x: seq<Byte>, more: seq<Byte>, n: nat)
    requires |x| <= n <= |x + more|
    ensures (x + more)[..n] == x + more[..n - |x|]
  {}

  lemma CutBehind(front: seq<Byte>, x: seq<Byte>, more: seq<Byte>, n: nat)
    requires |x| <= n <= |x + more|
    ensures |front + (x + more)[..n]| >= |front| + |x| && (front + (x + more)[..n])[|front|..|front| + |x|] == x
  {}

  /** Data cut off anywhere inside a block is refused. */
  lemma TruncatedBlock<T(!new)>(c: TxCodec<T>, b: Block<T>, n: nat)
    requires Lawful(c) && |b.transactions| < 0x1_0000_0000 && n < |SerializedBlock(c, b)|
    ensures ParsedBlock(c, SerializedBlock(c, b)[..n]).Err?
  {
    var front, txs := Serialized(b.header) + LE(|b.transactions|, 4), AllTxBytes(c, b.transactions);
    var data := (front + txs)[..n];
    assert SerializedBlock(c, b) == front + txs;
    if n >= |front| {
      assert data == front + txs[..n - |front|];
      assert data[SERIALIZED_SIZE..SERIALIZED_SIZE + 4] == LE(|b.transactions|, 4);
      ReadsBack(data, SERIALIZED_SIZE, |b.transactions|);
      TruncatedTxs(c, front, b.transactions, n - |front|);
    }
  }
}
