/** What a wallet may spend, which coins it picks, and what it makes of them. */
module WalletCoins {
  import opened Bytes
  import opened BlockUndo
  import opened Transactions
  import Scripts

  const COINBASE_MATURITY := 50
  const MIN_TX_FEE := 1000
  const MAX_OP_RETURN_SIZE := 300
  const MAX_ADDRESSES := 1000000

  type WalletIn<Id> = TxIn<Id, seq<Byte>>
  datatype TxOut = TxOut(value: I64, script: seq<Byte>)
  datatype Tx<Id> = Tx(inputs: seq<WalletIn<Id>>, outputs: seq<TxOut>)

  /** An output that can be spent. */
  datatype Item<Id> = Item(out: OutPoint<Id>, coin: Coin)

  /** What the offers depend on: the wallet's hashes, the outpoints already promised, those spent in the
      pool, and the height. */
  datatype View<Id(==)> = View(mine: set<Bytes32>, held: set<OutPoint<Id>>, spentInPool: set<OutPoint<Id>>, height: U32)

  function Zero32(): Bytes32 {
    seq(32, _ => 0)
  }

  /** The hash a payment script carries; zeros for any other script. */
  function PubkeyHashOf(script: seq<Byte>): Bytes32 {
    if |script| == 37 && script == Scripts.PayToPubkeyHash(script[3..35]) then script[3..35] else Zero32()
  }

  /** A mining reward waits; the sum of heights wraps as a 32-bit number does. */
  predicate SpendableNow(coin: Coin, height: U32) {
    !coin.isCoinbase || height >= (coin.height + COINBASE_MATURITY) % WORD
  }

  // ---- What is on offer ----

  predicate FromChain<Id(==)>(v: View<Id>, item: Item<Id>) {
    SpendableNow(item.coin, v.height) && item.out !in v.held
  }

  /** The coins of the unspent set that can be spent now and are not promised, in their order. */
  function ChainOffers<Id(==)>(v: View<Id>, utxos: seq<Item<Id>>): seq<Item<Id>> {
    if utxos == [] then []
    else
      var n := |utxos| - 1;
      ChainOffers(v, utxos[..n]) + if FromChain(v, utxos[n]) then [utxos[n]] else []
  }

  /** An output of a waiting transaction, as a coin. */
  function PoolItem<Id>(v: View<Id>, id: Id, o: nat, out: TxOut): Item<Id> {
    Item(OutPoint(id, o % WORD), Coin(out.value, PubkeyHashOf(out.script), v.height, false, false))
  }

  predicate FromPool<Id(==)>(v: View<Id>, item: Item<Id>) {
    item.coin.value > 0 && item.coin.pubkeyHash in v.mine && item.out !in v.spentInPool && item.out !in v.held
  }

  /** The first n outputs of a waiting transaction, those this wallet may spend. */
  function TxOffers<Id(==)>(v: View<Id>, id: Id, outputs: seq<TxOut>, n: nat): seq<Item<Id>>
    requires n <= |outputs|
  {
    if n == 0 then []
    else
      var item := PoolItem(v, id, n - 1, outputs[n - 1]);
      TxOffers(v, id, outputs, n - 1) + if FromPool(v, item) then [item] else []
  }

  function PoolOffers<Id(==)>(v: View<Id>, hash: Tx<Id> -> Id, pool: seq<Tx<Id>>): seq<Item<Id>> {
    if pool == [] then []
    else
      var n := |pool| - 1;
      PoolOffers(v, hash, pool[..n]) + TxOffers(v, hash(pool[n]), pool[n].outputs, |pool[n].outputs|)
  }

  function Offers<Id(==)>(v: View<Id>, hash: Tx<Id> -> Id, utxos: seq<Item<Id>>, pool: seq<Tx<Id>>): seq<Item<Id>> {
    ChainOffers(v, utxos) + PoolOffers(v, hash, pool)
  }

  predicate AllFree<Id(==)>(items: seq<Item<Id>>, held: set<OutPoint<Id>>) {
    forall i :: 0 <= i < |items| ==> items[i].out !in held
  }

  lemma {:induction false} ChainOffersFree<Id>(v: View<Id>, utxos: seq<Item<Id>>)
    ensures AllFree(ChainOffers(v, utxos), v.held)
  {
    if utxos != [] { ChainOffersFree(v, utxos[..|utxos| - 1]); }
  }

  lemma {:induction false} TxOffersFree<Id>(v: View<Id>, id: Id, outputs: seq<TxOut>, n: nat)
    requires n <= |outputs|
    ensures AllFree(TxOffers(v, id, outputs, n), v.held)
  {
    if n > 0 { TxOffersFree(v, id, outputs, n - 1); }
  }

  lemma {:induction false} PoolOffersFree<Id>(v: View<Id>, hash: Tx<Id> -> Id, pool: seq<Tx<Id>>)
    ensures AllFree(PoolOffers(v, hash, pool), v.held)
  {
    if pool != [] {
      var n := |pool| - 1;
      PoolOffersFree(v, hash, pool[..n]);
      TxOffersFree(v, hash(pool[n]), pool[n].outputs, |pool[n].outputs|);
    }
  }

  /** Nothing promised to a pending transaction is offered again. */
  lemma OffersFree<Id>(v: View<Id>, hash: Tx<Id> -> Id, utxos: seq<Item<Id>>, pool: seq<Tx<Id>>)
    ensures AllFree(Offers(v, hash, utxos, pool), v.held)
  {
    ChainOffersFree(v, utxos);
    PoolOffersFree(v, hash, pool);
  }

  // ---- One coin is offered once ----

  predicate Distinct<Id(==)>(items: seq<Item<Id>>) {
    forall i, j :: 0 <= i < j < |items| ==> items[i].out != items[j].out
  }

  predicate Apart<Id(==)>(a: seq<Item<Id>>, b: seq<Item<Id>>) {
    forall i, j :: 0 <= i < |a| && 0 <= j < |b| ==> a[i].out != b[j].out
  }

  lemma DistinctConcat<Id>(a: seq<Item<Id>>, b: seq<Item<Id>>)
    ensures Distinct(a + b) <==> Distinct(a) && Distinct(b) && Apart(a, b)
  {
    var all := a + b;
    assert forall i :: 0 <= i < |all| ==> all[i] == if i < |a| then a[i] else b[i - |a|];
    if Distinct(all) {
      forall i, j | 0 <= i < j < |b|
        ensures b[i].out != b[j].out
      {
        assert all[|a| + i].out != all[|a| + j].out;
      }
      forall i, j | 0 <= i < |a| && 0 <= j < |b|
        ensures a[i].out != b[j].out
      {
        assert all[i].out != all[|a| + j].out;
      }
      forall i, j | 0 <= i < j < |a|
        ensures a[i].out != a[j].out
      {
        assert all[i].out != all[j].out;
      }
    }
    if Distinct(a) && Distinct(b) && Apart(a, b) {
      forall i, j | 0 <= i < j < |all|
        ensures all[i].out != all[j].out
      {
        if j < |a| {
          assert a[i].out != a[j].out;
        } else if i < |a| {
          assert a[i].out != b[j - |a|].out;
        } else {
          assert b[i - |a|].out != b[j - |a|].out;
        }
      }
    }
  }

  lemma {:induction false} ChainOffersDistinct<Id>(v: View<Id>, utxos: seq<Item<Id>>)
    requires Distinct(utxos)
    ensures Distinct(ChainOffers(v, utxos)) && forall item :: item in ChainOffers(v, utxos) ==> item in utxos
  {
    if utxos != [] {
      var n := |utxos| - 1;
      ChainOffersDistinct(v, utxos[..n]);
      var before := ChainOffers(v, utxos[..n]);
      forall i | 0 <= i < |before|
        ensures before[i] in utxos && before[i].out != utxos[n].out
      {
        assert before[i] in before;
        var k :| 0 <= k < n && utxos[..n][k] == before[i];
        assert utxos[k] == before[i];
      }
    }
  }

  /** The offers of one transaction carry its id and distinct positions. */
  lemma {:induction false} TxOffersDistinct<Id>(v: View<Id>, id: Id, outputs: seq<TxOut>, n: nat)
    requires n <= |outputs| < WORD
    ensures Distinct(TxOffers(v, id, outputs, n))
    ensures forall item :: item in TxOffers(v, id, outputs, n) ==> item.out.hash == id && item.out.index < n
  {
    if n > 0 {
      TxOffersDistinct(v, id, outputs, n - 1);
      DistinctOneMore(TxOffers(v, id, outputs, n - 1), PoolItem(v, id, n - 1, outputs[n - 1]));
    }
  }

  lemma DistinctOneMore<Id>(items: seq<Item<Id>>, item: Item<Id>)
    requires Distinct(items) && forall i :: i in items ==> i.out != item.out
    ensures Distinct(items + [item]) && Distinct(items + [])
    ensures forall i :: i in items + [item] ==> i in items || i == item
  {
    forall i, j | 0 <= i < j < |items + [item]|
      ensures (items + [item])[i].out != (items + [item])[j].out
    {
      assert items[i] in items;
    }
  }

  predicate PoolWellFormed<Id(==)>(hash: Tx<Id> -> Id, pool: seq<Tx<Id>>) {
    && (forall t :: 0 <= t < |pool| ==> |pool[t].outputs| < WORD)
    && (forall t, u :: 0 <= t < u < |pool| ==> hash(pool[t]) != hash(pool[u]))
  }

  lemma {:induction false} PoolOffersDistinct<Id>(v: View<Id>, hash: Tx<Id> -> Id, pool: seq<Tx<Id>>)
    requires PoolWellFormed(hash, pool)
    ensures Distinct(PoolOffers(v, hash, pool))
    ensures forall item :: item in PoolOffers(v, hash, pool) ==> exists t :: 0 <= t < |pool| && item.out.hash == hash(pool[t])
  {
    if pool != [] {
      var n := |pool| - 1;
      var before, last := PoolOffers(v, hash, pool[..n]), TxOffers(v, hash(pool[n]), pool[n].outputs, |pool[n].outputs|);
      PoolOffersDistinct(v, hash, pool[..n]);
      TxOffersDistinct(v, hash(pool[n]), pool[n].outputs, |pool[n].outputs|);
      forall i, j | 0 <= i < |before| && 0 <= j < |last|
        ensures before[i].out != last[j].out
      {
        assert before[i] in before && last[j] in last;
        var t :| 0 <= t < |pool[..n]| && before[i].out.hash == hash(pool[..n][t]);
        assert pool[..n][t] == pool[t];
      }
      DistinctConcat(before, last);
      forall item | item in before + last
        ensures exists t :: 0 <= t < |pool| && item.out.hash == hash(pool[t])
      {
        if item in before {
          var t :| 0 <= t < |pool[..n]| && item.out.hash == hash(pool[..n][t]);
          assert pool[..n][t] == pool[t];
        } else {
          assert item in last && item.out.hash == hash(pool[n]);
        }
      }
    }
  }

  lemma {:induction false} InChainOffers<Id>(v: View<Id>, utxos: seq<Item<Id>>, item: Item<Id>)
    ensures item in ChainOffers(v, utxos) <==> item in utxos && FromChain(v, item)
  {
    if utxos != [] {
      var n := |utxos| - 1;
      InChainOffers(v, utxos[..n], item);
      assert utxos == utxos[..n] + [utxos[n]];
    }
  }

  /** Output o of a transaction is one this wallet may spend while the transaction waits. */
  predicate OwnOutput<Id(==)>(v: View<Id>, id: Id, outputs: seq<TxOut>, o: nat)
    requires o < |outputs|
  {
    FromPool(v, PoolItem(v, id, o, outputs[o]))
  }

  lemma {:induction false} InTxOffers<Id>(v: View<Id>, id: Id, outputs: seq<TxOut>, n: nat, item: Item<Id>)
    requires n <= |outputs|
    ensures item in TxOffers(v, id, outputs, n)
      <==> exists o :: 0 <= o < n && OwnOutput(v, id, outputs, o) && item == PoolItem(v, id, o, outputs[o])
  {
    if n > 0 {
      InTxOffers(v, id, outputs, n - 1, item);
      assert OwnOutput(v, id, outputs, n - 1) <==> FromPool(v, PoolItem(v, id, n - 1, outputs[n - 1]));
    }
  }

  lemma {:induction false} InPoolOffers<Id>(v: View<Id>, hash: Tx<Id> -> Id, pool: seq<Tx<Id>>, item: Item<Id>)
    ensures item in PoolOffers(v, hash, pool) <==> exists t :: 0 <= t < |pool| && InOffersOf(v, hash, pool[t], item)
  {
    if pool != [] {
      var n := |pool| - 1;
      InPoolOffers(v, hash, pool[..n], item);
      forall t | 0 <= t < n
        ensures pool[..n][t] == pool[t]
      {}
      assert InOffersOf(v, hash, pool[n], item) <==> item in TxOffers(v, hash(pool[n]), pool[n].outputs, |pool[n].outputs|);
      if item in PoolOffers(v, hash, pool[..n]) {
        var t :| 0 <= t < |pool[..n]| && InOffersOf(v, hash, pool[..n][t], item);
        assert InOffersOf(v, hash, pool[t], item);
      }
    }
  }

  predicate InOffersOf<Id(==)>(v: View<Id>, hash: Tx<Id> -> Id, tx: Tx<Id>, item: Item<Id>) {
    item in TxOffers(v, hash(tx), tx.outputs, |tx.outputs|)
  }

  /** A coin of the unspent set, ripe and not promised, that is at the same time an own unspent output o of
      a transaction still waiting. */
  predicate AlsoWaiting<Id(==)>(v: View<Id>, hash: Tx<Id> -> Id, utxo: Item<Id>, tx: Tx<Id>, o: nat)
    requires o < |tx.outputs|
  {
    && FromChain(v, utxo) && utxo.out.hash == hash(tx) && utxo.out.index == o
    && tx.outputs[o].value > 0 && PubkeyHashOf(tx.outputs[o].script) in v.mine && utxo.out !in v.spentInPool
  }

  ghost predicate SomeAlsoWaiting<Id(!new)>(v: View<Id>, hash: Tx<Id> -> Id, utxos: seq<Item<Id>>, pool: seq<Tx<Id>>) {
    exists i, t, o :: 0 <= i < |utxos| && 0 <= t < |pool| && 0 <= o < |pool[t].outputs| && AlsoWaiting(v, hash, utxos[i], pool[t], o)
  }

  lemma ApartExactly<Id(!new)>(v: View<Id>, hash: Tx<Id> -> Id, utxos: seq<Item<Id>>, pool: seq<Tx<Id>>)
    requires PoolWellFormed(hash, pool)
    ensures Apart(ChainOffers(v, utxos), PoolOffers(v, hash, pool)) <==> !SomeAlsoWaiting(v, hash, utxos, pool)
  {
    var chain, waiting := ChainOffers(v, utxos), PoolOffers(v, hash, pool);
    if SomeAlsoWaiting(v, hash, utxos, pool) {
      var i, t, o :| 0 <= i < |utxos| && 0 <= t < |pool| && 0 <= o < |pool[t].outputs| && AlsoWaiting(v, hash, utxos[i], pool[t], o);
      var item := PoolItem(v, hash(pool[t]), o, pool[t].outputs[o]);
      WaitingIsOffered(v, hash, utxos[i], pool, t, o);
      InChainOffers(v, utxos, utxos[i]);
      var a :| 0 <= a < |chain| && chain[a] == utxos[i];
      var b :| 0 <= b < |waiting| && waiting[b] == item;
      assert chain[a].out == waiting[b].out;
    }
    if !Apart(chain, waiting) {
      var a, b :| 0 <= a < |chain| && 0 <= b < |waiting| && chain[a].out == waiting[b].out;
      InChainOffers(v, utxos, chain[a]);
      var i :| 0 <= i < |utxos| && utxos[i] == chain[a];
      OfferedIsWaiting(v, hash, utxos[i], pool, waiting[b]);
    }
  }

  lemma WaitingIsOffered<Id>(v: View<Id>, hash: Tx<Id> -> Id, utxo: Item<Id>, pool: seq<Tx<Id>>, t: nat, o: nat)
    requires t < |pool| && o < |pool[t].outputs| && AlsoWaiting(v, hash, utxo, pool[t], o)
    ensures var item := PoolItem(v, hash(pool[t]), o, pool[t].outputs[o]);
      item.out == utxo.out && item in PoolOffers(v, hash, pool)
  {
    var item := PoolItem(v, hash(pool[t]), o, pool[t].outputs[o]);
    assert OwnOutput(v, hash(pool[t]), pool[t].outputs, o);
    InTxOffers(v, hash(pool[t]), pool[t].outputs, |pool[t].outputs|, item);
    assert InOffersOf(v, hash, pool[t], item);
    InPoolOffers(v, hash, pool, item);
  }

  lemma OfferedIsWaiting<Id>(v: View<Id>, hash: Tx<Id> -> Id, utxo: Item<Id>, pool: seq<Tx<Id>>, item: Item<Id>)
    requires PoolWellFormed(hash, pool) && FromChain(v, utxo) && item in PoolOffers(v, hash, pool) && item.out == utxo.out
    ensures exists t, o :: 0 <= t < |pool| && 0 <= o < |pool[t].outputs| && AlsoWaiting(v, hash, utxo, pool[t], o)
  {
    InPoolOffers(v, hash, pool, item);
    var t :| 0 <= t < |pool| && InOffersOf(v, hash, pool[t], item);
    var o := OfferedByOutput(v, hash, utxo, pool[t], item);
    assert AlsoWaiting(v, hash, utxo, pool[t], o);
  }

  lemma OfferedByOutput<Id>(v: View<Id>, hash: Tx<Id> -> Id, utxo: Item<Id>, tx: Tx<Id>, item: Item<Id>) returns (o: nat)
    requires |tx.outputs| < WORD && FromChain(v, utxo) && InOffersOf(v, hash, tx, item) && item.out == utxo.out
    ensures o < |tx.outputs| && AlsoWaiting(v, hash, utxo, tx, o)
  {
    var id, outputs := hash(tx), tx.outputs;
    InTxOffers(v, id, outputs, |outputs|, item);
    o :| 0 <= o < |outputs| && OwnOutput(v, id, outputs, o) && item == PoolItem(v, id, o, outputs[o]);
    OwnOutputWaits(v, hash, utxo, tx, o, id);
  }

  lemma OwnOutputWaits<Id>(v: View<Id>, hash: Tx<Id> -> Id, utxo: Item<Id>, tx: Tx<Id>, o: nat, id: Id)
    requires o < |tx.outputs| < WORD && id == hash(tx) && FromChain(v, utxo)
    requires OwnOutput(v, id, tx.outputs, o) && utxo.out == PoolItem(v, id, o, tx.outputs[o]).out
    ensures AlsoWaiting(v, hash, utxo, tx, o)
  {}

  /** With a sound unspent set and a sound pool, no coin is offered twice exactly when no ripe coin of the
      unspent set is at the same time an own unspent output of a transaction still waiting. */
  lemma OffersDistinct<Id(!new)>(v: View<Id>, hash: Tx<Id> -> Id, utxos: seq<Item<Id>>, pool: seq<Tx<Id>>)
    requires Distinct(utxos) && PoolWellFormed(hash, pool)
    ensures Distinct(Offers(v, hash, utxos, pool)) <==> !SomeAlsoWaiting(v, hash, utxos, pool)
  {
    ChainOffersDistinct(v, utxos);
    PoolOffersDistinct(v, hash, pool);
    DistinctConcat(ChainOffers(v, utxos), PoolOffers(v, hash, pool));
    ApartExactly(v, hash, utxos, pool);
  }

  // ---- Making the offers ----

  method FindOffers<Id(==)>(v: View<Id>, hash: Tx<Id> -> Id, utxos: seq<Item<Id>>, pool: seq<Tx<Id>>)
      returns (spendable: seq<Item<Id>>)
    ensures spendable == Offers(v, hash, utxos, pool)
  {
    spendable := [];
    for i := 0 to |utxos|
      invariant spendable == ChainOffers(v, utxos[..i])
    {
      assert utxos[..i + 1][..i] == utxos[..i];
      if FromChain(v, utxos[i]) {
        spendable := spendable + [utxos[i]];
      }
    }
    assert utxos[..|utxos|] == utxos;
    ghost var chain := spendable;
    assert chain + [] == chain;
    for t := 0 to |pool|
      invariant spendable == chain + PoolOffers(v, hash, pool[..t])
    {
      assert pool[..t + 1][..t] == pool[..t];
      var more := FindTxOffers(v, hash(pool[t]), pool[t].outputs);
      assert spendable + more == chain + (PoolOffers(v, hash, pool[..t]) + more);
      spendable := spendable + more;
    }
    assert pool[..|pool|] == pool;
  }

  method FindTxOffers<Id(==)>(v: View<Id>, id: Id, outputs: seq<TxOut>) returns (offers: seq<Item<Id>>)
    ensures offers == TxOffers(v, id, outputs, |outputs|)
  {
    offers := [];
    for o := 0 to |outputs|
      invariant offers == TxOffers(v, id, outputs, o)
    {
      var item := PoolItem(v, id, o, outputs[o]);
      if FromPool(v, item) {
        offers := offers + [item];
      }
    }
  }

  /** Every outpoint some waiting transaction spends. */
  function SpentIn<Id(==)>(pool: seq<Tx<Id>>): set<OutPoint<Id>> {
    set t, i | 0 <= t < |pool| && 0 <= i < |pool[t].inputs| :: pool[t].inputs[i].prevOut
  }

  method CollectSpent<Id(==)>(pool: seq<Tx<Id>>) returns (spent: set<OutPoint<Id>>)
    ensures spent == SpentIn(pool)
  {
    spent := {};
    for t := 0 to |pool|
      invariant spent == SpentIn(pool[..t])
    {
      ghost var was := spent;
      for i := 0 to |pool[t].inputs|
        invariant spent == was + set k | 0 <= k < i :: pool[t].inputs[k].prevOut
      {
        spent := spent + {pool[t].inputs[i].prevOut};
      }
    }
    assert pool[..|pool|] == pool;
  }

  // ---- Which coins are picked ----

  function Total<Id>(items: seq<Item<Id>>): int {
    if items == [] then 0 else items[0].coin.value + Total(items[1..])
  }

  /** How many coins are taken from the front until their sum reaches what is needed. */
  function Taken<Id>(items: seq<Item<Id>>, needed: int): (n: nat)
    ensures n <= |items|
  {
    if needed <= 0 || items == [] then 0 else 1 + Taken(items[1..], needed - items[0].coin.value)
  }

  method SelectCoins<Id>(items: seq<Item<Id>>, needed: int) returns (selected: seq<Item<Id>>, collected: int)
    ensures selected == items[..Taken(items, needed)] && collected == Total(selected)
  {
    selected, collected := [], 0;
    var i := 0;
    while i < |items| && collected < needed
      invariant 0 <= i <= |items| && selected == items[..i] && collected == Total(selected)
      invariant i + Taken(items[i..], needed - collected) == Taken(items, needed)
    {
      assert items[i..][1..] == items[i + 1..];
      TotalMore(selected, items[i]);
      selected := selected + [items[i]];
      collected := collected + items[i].coin.value;
      i := i + 1;
    }
  }

  lemma {:induction false} TotalMore<Id>(items: seq<Item<Id>>, item: Item<Id>)
    ensures Total(items + [item]) == Total(items) + item.coin.value
  {
    if items == [] {
      assert ([item])[1..] == [];
    } else {
      assert (items + [item])[1..] == items[1..] + [item];
      TotalMore(items[1..], item);
    }
  }

  /** The coins taken are the fewest that do: every shorter prefix falls short, and they reach the sum
      whenever some prefix does. */
  lemma {:induction false} TakenIsLeast<Id>(items: seq<Item<Id>>, needed: int, k: nat)
    requires k <= |items|
    ensures k < Taken(items, needed) ==> Total(items[..k]) < needed
    ensures Total(items[..k]) >= needed ==> Total(items[..Taken(items, needed)]) >= needed
    decreases |items|
  {
    var n := Taken(items, needed);
    if needed <= 0 {
      assert items[..0] == [];
    } else if items != [] {
      var v := items[0].coin.value;
      if k > 0 {
        TakenIsLeast(items[1..], needed - v, k - 1);
        assert items[..k][1..] == items[1..][..k - 1];
      }
      assert items[..n][1..] == items[1..][..n - 1];
    }
  }

  /** As long as what is needed and one more coin fit 64 signed bits together, so does every sum the
      selection forms, and its arithmetic is that of the integers. */
  lemma {:induction false} SumsFit<Id>(items: seq<Item<Id>>, needed: int, cap: int, k: nat)
    requires forall i :: 0 <= i < |items| ==> 0 <= items[i].coin.value <= cap
    requires needed + cap < 0x8000_0000_0000_0000 && 0 <= cap && k <= Taken(items, needed)
    ensures 0 <= Total(items[..k]) < 0x8000_0000_0000_0000
  {
    if k == 0 {
      assert items[..0] == [];
    } else {
      SumsFit(items, needed, cap, k - 1);
      TakenIsLeast(items, needed, k - 1);
      assert items[..k] == items[..k - 1] + [items[k - 1]];
      TotalMore(items[..k - 1], items[k - 1]);
    }
  }

  // ---- The transaction ----

  function Inputs<Id(==)>(tx: Tx<Id>): set<OutPoint<Id>> {
    set i | 0 <= i < |tx.inputs| :: tx.inputs[i].prevOut
  }

  function ValueOut(outputs: seq<TxOut>): int {
    if outputs == [] then 0 else outputs[0].value + ValueOut(outputs[1..])
  }

  /** The payment, the message if there is one, and the change if it is worth paying out. */
  function OutputsFor(amount: I64, destination: Bytes32, message: seq<Byte>, change: I64, changeHash: Bytes32): seq<TxOut> {
    [TxOut(amount, Scripts.PayToPubkeyHash(destination))]
    + (if message == [] then [] else [TxOut(0, [Scripts.OP_RETURN] + Scripts.Pushed(message))])
    + (if change > DUST_THRESHOLD then [TxOut(change, Scripts.PayToPubkeyHash(changeHash))] else [])
  }

  /** What goes in comes out: as the amount, the change, and a fee that keeps change not worth paying
      out. */
  lemma Conserved(amount: I64, fee: int, destination: Bytes32, message: seq<Byte>, change: I64, changeHash: Bytes32, collected: int)
    requires collected == amount + fee + change && 0 <= change
    ensures var paid := collected - ValueOut(OutputsFor(amount, destination, message, change, changeHash));
      fee <= paid <= fee + DUST_THRESHOLD && (change == 0 || change > DUST_THRESHOLD ==> paid == fee)
  {
    var first := [TxOut(amount, Scripts.PayToPubkeyHash(destination))];
    var second := if message == [] then [] else [TxOut(0, [Scripts.OP_RETURN] + Scripts.Pushed(message))];
    var third := if change > DUST_THRESHOLD then [TxOut(change, Scripts.PayToPubkeyHash(changeHash))] else [];
    ValueOutConcat(first + second, third);
    ValueOutConcat(first, second);
    Single(first);
    Single(second);
    Single(third);
  }

  lemma Single(outputs: seq<TxOut>)
    requires |outputs| <= 1
    ensures ValueOut(outputs) == if outputs == [] then 0 else outputs[0].value as int
  {
    if outputs != [] { assert outputs[1..] == []; }
  }

  lemma {:induction false} ValueOutConcat(a: seq<TxOut>, b: seq<TxOut>)
    ensures ValueOut(a + b) == ValueOut(a) + ValueOut(b)
  {
    if a == [] {
      assert a + b == b;
    } else {
      assert (a + b)[1..] == a[1..] + b;
      ValueOutConcat(a[1..], b);
    }
  }
}
