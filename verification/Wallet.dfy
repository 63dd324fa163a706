/** The wallet: coins promised to pending transactions, and leaves spent once. */
module Wallets {
  import opened Bytes
  import opened BlockUndo
  import opened LeafMap
  import opened Transactions
  import opened WalletCoins
  import opened Wrappers
  import Scripts

  const NOISE_PROOFS_PER_INPUT := 4

  datatype Key = Key(index: U32, isChange: bool)
  datatype Address = Address(pubkeyHash: Bytes32, key: Key)

  /** The hashes, keys, signatures and proofs the wallet works with. */
  datatype Crypto<!Id> = Crypto(
    txHash: Tx<Id> -> Id,
    isCoinbase: Tx<Id> -> bool,
    publicKey: Key -> Bytes32,
    bind: (Bytes32, Bytes32) -> Bytes32,
    signature: (Key, Tx<Id>, nat) -> seq<Byte>,
    leaves: (Id, Bytes32, nat) -> seq<nat>,
    proof: (nat, Id) -> seq<Byte>)

  function Stripped<Id>(tx: Tx<Id>): Tx<Id> {
    tx.(inputs := seq(|tx.inputs|, i requires 0 <= i < |tx.inputs| => tx.inputs[i].(noiseProof := [])))
  }

  /** How signing ends. */
  datatype Signing = NotReady | KeyMissing | Exhausted | Clash | Unsaved | Done

  /** Ids tell transactions apart, but for the proofs, which they do not cover; leaves lie in the pool. */
  ghost predicate Lawful<Id(!new)>(c: Crypto<Id>) {
    && (forall t: Tx<Id>, u: Tx<Id> {:trigger Stripped(t), Stripped(u)} :: c.txHash(t) == c.txHash(u) <==> Stripped(t) == Stripped(u))
    && (forall id, k, i :: |c.leaves(id, k, i)| == NOISE_PROOFS_PER_INPUT)
    && (forall id, k, i, j :: 0 <= j < |c.leaves(id, k, i)| ==> c.leaves(id, k, i)[j] < NOISE_LEAF_COUNT)
  }

  // ---- Holds ----

  type Holds<Id(==)> = map<OutPoint<Id>, Id>

  function HeldBy<Id(==)>(held: Holds<Id>, id: Id): set<OutPoint<Id>> {
    set o | o in held && held[o] == id
  }

  /** The transactions still pending, under their present ids, hold their inputs, and nothing else is held. */
  ghost predicate Agree<Id>(c: Crypto<Id>, held: Holds<Id>, live: map<Id, Tx<Id>>) {
    && (forall id :: id in live ==> c.txHash(live[id]) == id && Inputs(live[id]) != {} && HeldBy(held, id) == Inputs(live[id]))
    && (forall o :: o in held ==> held[o] in live)
  }

  /** So no two of them spend the same coin. */
  lemma PendingDisjoint<Id>(c: Crypto<Id>, held: Holds<Id>, live: map<Id, Tx<Id>>, a: Id, b: Id)
    requires Agree(c, held, live) && a in live && b in live && a != b
    ensures Inputs(live[a]) !! Inputs(live[b])
  {
    assert HeldBy(held, a) !! HeldBy(held, b);
  }

  lemma SameInputs<Id>(t: Tx<Id>, u: Tx<Id>)
    requires Stripped(t) == Stripped(u)
    ensures Inputs(t) == Inputs(u)
  {
    assert |t.inputs| == |Stripped(t).inputs| == |u.inputs|;
    forall i | 0 <= i < |t.inputs|
      ensures t.inputs[i].prevOut == u.inputs[i].prevOut
    {
      assert Stripped(t).inputs[i] == Stripped(u).inputs[i];
    }
  }

  /** A new transaction over free coins joins the pending ones. */
  lemma AgreeBuilt<Id(!new)>(c: Crypto<Id>, held: Holds<Id>, held': Holds<Id>, live: map<Id, Tx<Id>>, tx: Tx<Id>)
    requires Agree(c, held, live) && Lawful(c) && Inputs(tx) != {} && Inputs(tx) !! held.Keys
    requires held' == Promised(held, tx, c.txHash(tx))
    ensures c.txHash(tx) !in live && Agree(c, held', live[c.txHash(tx) := tx])
  {
    var id := c.txHash(tx);
    var o :| o in Inputs(tx);
    assert id !in live by {
      if id in live {
        SameInputs(tx, live[id]);
      }
    }
    assert HeldBy(held', id) == Inputs(tx);
    forall b | b in live
      ensures HeldBy(held', b) == Inputs(live[b])
    {
      assert HeldBy(held', b) == HeldBy(held, b);
    }
  }

  function Released<Id(==)>(held: Holds<Id>, id: Id): Holds<Id> {
    map o | o in held && held[o] != id :: held[o]
  }

  /** Go through the holds and drop those of one transaction. */
  method DropHolds<Id(==)>(before: Holds<Id>, id: Id) returns (held: Holds<Id>)
    ensures held == Released(before, id)
  {
    held := before;
    var rest := held.Keys;
    while rest != {}
      invariant rest <= held.Keys <= before.Keys
      invariant forall o :: o in before ==> (o in held <==> o in rest || before[o] != id)
      invariant forall o :: o in held ==> held[o] == before[o]
      decreases |rest|
    {
      var o :| o in rest;
      if held[o] == id { held := held - {o}; }
      rest := rest - {o};
    }
  }

  lemma AgreeReleased<Id>(c: Crypto<Id>, held: Holds<Id>, live: map<Id, Tx<Id>>, id: Id)
    requires Agree(c, held, live)
    ensures Agree(c, Released(held, id), live - {id})
  {
    var held' := Released(held, id);
    forall b | b in live - {id}
      ensures HeldBy(held', b) == Inputs(live[b])
    {
      assert HeldBy(held', b) == HeldBy(held, b);
    }
  }

  function Rekeyed<Id(==)>(held: Holds<Id>, from: Id, to: Id): Holds<Id> {
    map o | o in held :: if held[o] == from then to else held[o]
  }

  /** The pending transactions after one was signed and so changed its id. */
  function Renamed<Id(==)>(live: map<Id, Tx<Id>>, from: Id, to: Id, tx: Tx<Id>): map<Id, Tx<Id>> {
    if from in live then (live - {from})[to := tx] else live
  }

  lemma AgreeSigned<Id(!new)>(c: Crypto<Id>, held: Holds<Id>, live: map<Id, Tx<Id>>, tx: Tx<Id>, tx': Tx<Id>)
    requires Agree(c, held, live) && Lawful(c) && Inputs(tx') == Inputs(tx)
    ensures var u, s := c.txHash(tx), c.txHash(tx'); Agree(c, Rekeyed(held, u, s), Renamed(live, u, s, tx'))
  {
    var u, s := c.txHash(tx), c.txHash(tx');
    var held' := Rekeyed(held, u, s);
    if u in live {
      SameInputs(tx, live[u]);
      var o :| o in Inputs(tx);
      assert s in live ==> s == u by {
        if s in live && s != u {
          SameInputs(tx', live[s]);
          PendingDisjoint(c, held, live, u, s);
        }
      }
      assert HeldBy(held', s) == HeldBy(held, u);
      forall b | b in live && b != u
        ensures HeldBy(held', b) == Inputs(live[b])
      {
        assert HeldBy(held', b) == HeldBy(held, b);
      }
    } else {
      assert held' == held;
    }
  }

  // ---- Leaves ----

  predicate Fresh(bits: seq<bv8>, s: seq<nat>) {
    forall i :: 0 <= i < |s| ==> !Used(bits, s[i])
  }

  /** The leaves the first n inputs call for. */
  function Wanted<Id>(c: Crypto<Id>, id: Id, inputs: seq<WalletIn<Id>>, n: nat): seq<nat>
    requires n <= |inputs|
  {
    if n == 0 then [] else Wanted(c, id, inputs, n - 1) + c.leaves(id, inputs[n - 1].kps, n - 1)
  }

  lemma {:induction false} WantedPrefix<Id>(c: Crypto<Id>, id: Id, inputs: seq<WalletIn<Id>>, n: nat, m: nat)
    requires n <= m <= |inputs|
    ensures Wanted(c, id, inputs, n) <= Wanted(c, id, inputs, m)
  {
    if n < m { WantedPrefix(c, id, inputs, n, m - 1); }
  }

  function Proofs<Id>(c: Crypto<Id>, id: Id, wanted: seq<nat>): seq<Byte> {
    if wanted == [] then [] else Proofs(c, id, wanted[..|wanted| - 1]) + c.proof(wanted[|wanted| - 1], id)
  }

  // ---- Signatures ----

  function WithSignature<Id>(tx: Tx<Id>, i: nat, signature: seq<Byte>): Tx<Id>
    requires i < |tx.inputs|
  {
    tx.(inputs := tx.inputs[i := tx.inputs[i].(signature := signature)])
  }

  /** The transaction with its first n inputs signed in turn, each over what was signed before. */
  function SignedUpTo<Id>(c: Crypto<Id>, kps: Bytes32, addresses: seq<Address>, tx: Tx<Id>, n: nat): (r: Option<Tx<Id>>)
    requires n <= |tx.inputs|
    ensures r.Some? ==> |r.value.inputs| == |tx.inputs|
  {
    if n == 0 then Some(tx)
    else
      match SignedUpTo(c, kps, addresses, tx, n - 1)
      case None => None
      case Some(t) =>
        match KeyFor(addresses, c.bind(t.inputs[n - 1].pubkey, kps), 0)
        case None => None
        case Some(key) => Some(WithSignature(t, n - 1, c.signature(key, t, n - 1)))
  }

  lemma {:induction false} SigningKeepsInputs<Id>(c: Crypto<Id>, kps: Bytes32, addresses: seq<Address>, tx: Tx<Id>, n: nat)
    requires n <= |tx.inputs| && SignedUpTo(c, kps, addresses, tx, n).Some?
    ensures var t := SignedUpTo(c, kps, addresses, tx, n).value;
      && t.outputs == tx.outputs
      && forall i :: 0 <= i < |tx.inputs| ==> t.inputs[i].prevOut == tx.inputs[i].prevOut && t.inputs[i].kps == tx.inputs[i].kps
  {
    if n > 0 { SigningKeepsInputs(c, kps, addresses, tx, n - 1); }
  }

  /** The coins taken for a sum. */
  function Chosen<Id>(offers: seq<Item<Id>>, needed: int): seq<Item<Id>> {
    offers[..Taken(offers, needed)]
  }

  /** The coins chosen cover the sum, and without the last of them they fall short. */
  predicate Funded<Id(==)>(selected: seq<Item<Id>>, offers: seq<Item<Id>>, needed: int) {
    && selected == Chosen(offers, needed) && selected != []
    && needed <= Total(selected) < needed + 0x8000_0000_0000_0000
    && Total(selected[..|selected| - 1]) < needed
  }

  /** Inputs over the chosen coins, with the key that owns each, not signed yet. */
  function Spending<Id>(c: Crypto<Id>, kps: Bytes32, addresses: seq<Address>, selected: seq<Item<Id>>): Option<seq<WalletIn<Id>>> {
    if selected == [] then Some([])
    else
      var n := |selected| - 1;
      match Spending(c, kps, addresses, selected[..n])
      case None => None
      case Some(inputs) =>
        match KeyFor(addresses, selected[n].coin.pubkeyHash, 0)
        case None => None
        case Some(key) => Some(inputs + [TxIn(selected[n].out, c.publicKey(key), kps, seq(64, _ => 0), [])])
  }

  /** The key of the first address with this hash. */
  function KeyFor(addresses: seq<Address>, pubkeyHash: Bytes32, j: nat): Option<Key>
    requires j <= |addresses|
    decreases |addresses| - j
  {
    if j == |addresses| then None
    else if addresses[j].pubkeyHash == pubkeyHash then Some(addresses[j].key)
    else KeyFor(addresses, pubkeyHash, j + 1)
  }

  /** The hash of an address added since, if one was. */
  function NewHash(before: seq<Address>, after: seq<Address>): Bytes32 {
    if |before| < |after| then after[|before|].pubkeyHash else Zero32()
  }

  /** Outputs paying the amount and, when it is worth it, the change to the new address. */
  function Payment(amount: I64, destination: Bytes32, message: seq<Byte>, change: int, before: seq<Address>, after: seq<Address>): seq<TxOut> {
    if 0 <= change < 0x8000_0000_0000_0000 then OutputsFor(amount, destination, message, change, NewHash(before, after)) else []
  }

  /** A change worth paying out goes to one new address, that of the next change key. */
  predicate NewAddress<Id>(c: Crypto<Id>, kps: Bytes32, change: int, key: Key, before: seq<Address>, after: seq<Address>) {
    after == if change > DUST_THRESHOLD then before + [Address(c.bind(c.publicKey(key), kps), key)] else before
  }

  /** A change worth paying out needs room for one more address. */
  predicate RoomFor(change: int, addresses: seq<Address>) {
    change > DUST_THRESHOLD ==> |addresses| < MAX_ADDRESSES
  }

  /** The coins chosen suffice, every one has its key here, and the change has somewhere to go. */
  predicate Payable<Id>(c: Crypto<Id>, kps: Bytes32, addresses: seq<Address>, selected: seq<Item<Id>>, needed: int) {
    needed <= Total(selected) && Spending(c, kps, addresses, selected).Some? && RoomFor(Total(selected) - needed, addresses)
  }

  /** What a wallet with these addresses and holds may spend. */
  function Offered<Id(==)>(c: Crypto<Id>, addresses: seq<Address>, held: Holds<Id>, utxos: seq<Item<Id>>, height: U32, pool: seq<Tx<Id>>): seq<Item<Id>> {
    Offers(View(set a | a in addresses :: a.pubkeyHash, held.Keys, SpentIn(pool), height), c.txHash, utxos, pool)
  }

  /** The aspects of a sound wallet. */
  datatype Aspect = Ids | Holding | Leaves

  ghost predicate Kept<Id(!new)>(a: Aspect, c: Crypto<Id>, held: Holds<Id>, live: map<Id, Tx<Id>>,
                                 noiseUsed: seq<bv8>, fileUsed: seq<bv8>, spentLeaves: seq<nat>) {
    match a
    case Ids => Lawful(c)
    case Holding => Agree(c, held, live)
    case Leaves => LeavesKept(noiseUsed, fileUsed, spentLeaves)
  }

  ghost predicate AllKept<Id(!new)>(c: Crypto<Id>, held: Holds<Id>, live: map<Id, Tx<Id>>,
                                    noiseUsed: seq<bv8>, fileUsed: seq<bv8>, spentLeaves: seq<nat>) {
    forall a :: Kept(a, c, held, live, noiseUsed, fileUsed, spentLeaves)
  }

  /** Both maps mark the same leaves, those spent by signing among them, each of which was spent once. */
  ghost predicate LeavesKept(noiseUsed: seq<bv8>, fileUsed: seq<bv8>, spentLeaves: seq<nat>) {
    && |noiseUsed| <= MAP_BYTES
    && (forall i: nat :: Used(fileUsed, i) <==> Used(noiseUsed, i))
    && NoDuplicates(spentLeaves)
    && (forall i :: 0 <= i < |spentLeaves| ==> Used(noiseUsed, spentLeaves[i]))
  }

  lemma Opened<Id(!new)>(c: Crypto<Id>, held: Holds<Id>, live: map<Id, Tx<Id>>,
                         noiseUsed: seq<bv8>, fileUsed: seq<bv8>, spentLeaves: seq<nat>)
    requires AllKept(c, held, live, noiseUsed, fileUsed, spentLeaves)
    ensures Lawful(c) && Agree(c, held, live) && LeavesKept(noiseUsed, fileUsed, spentLeaves)
  {
    assert Kept(Ids, c, held, live, noiseUsed, fileUsed, spentLeaves);
    assert Kept(Holding, c, held, live, noiseUsed, fileUsed, spentLeaves);
    assert Kept(Leaves, c, held, live, noiseUsed, fileUsed, spentLeaves);
  }

  class Wallet<Id(!new, ==)> {
    const c: Crypto<Id>
    var locked: bool
    var noiseLoaded: bool
    var kps: Bytes32
    var addresses: seq<Address>
    var nextChangeIndex: U32
    var held: Holds<Id>
    var noiseUsed: seq<bv8>

    /** The noise file's own map of spent leaves. */
    var fileUsed: seq<bv8>

    /** The transactions built and not released, under their present ids. */
    ghost var live: map<Id, Tx<Id>>

    /** The leaves spent by signing, in order. */
    ghost var spentLeaves: seq<nat>

    ghost predicate Valid()
      reads this
    {
      AllKept(c, held, live, noiseUsed, fileUsed, spentLeaves)
    }

    constructor (c: Crypto<Id>, kps: Bytes32, addresses: seq<Address>, noiseUsed: seq<bv8>)
      requires Lawful(c) && |noiseUsed| <= MAP_BYTES
      ensures Valid() && this.c == c && live == map[] && spentLeaves == []
    {
      this.c, this.kps, this.addresses, this.noiseUsed := c, kps, addresses, noiseUsed;
      locked, noiseLoaded, nextChangeIndex, held := false, true, 0, map[];
      fileUsed, live, spentLeaves := noiseUsed, map[], [];
    }

    /** Let go of everything a transaction holds. */
    method ReleaseOutpointsFor(id: Id)
      requires Valid()
      modifies this`held, this`live
      ensures Valid() && live == old(live) - {id} && held == Released(old(held), id)
    {
      Opened(c, held, live, noiseUsed, fileUsed, spentLeaves);
      AgreeReleased(c, held, live, id);
      held := DropHolds(held, id);
      live := live - {id};
    }

    /** Build a transaction paying an amount, and hold the coins it spends. */
    method CreateTransaction(destination: Option<Bytes32>, amount: I64, fee: I64, utxos: seq<Item<Id>>, height: U32,
                             pool: seq<Tx<Id>>, message: seq<Byte>)
        returns (r: Result<Tx<Id>>, selected: seq<Item<Id>>)
      requires Valid()
      modifies this`held, this`addresses, this`nextChangeIndex, this`live
      ensures Valid()
      ensures r.Ok? <==>
        (CanSpend(destination, amount, fee, message)
         && Payable(c, kps, old(addresses), Chosen(Offered(c, old(addresses), old(held), utxos, height, pool), amount as int + fee), amount as int + fee))
      ensures r.Err? ==> held == old(held) && live == old(live) && addresses == old(addresses) && nextChangeIndex == old(nextChangeIndex)
      ensures r.Ok? ==> selected == Chosen(Offered(c, old(addresses), old(held), utxos, height, pool), amount as int + fee)
      ensures r.Ok? ==> amount as int + fee <= Total(selected) < amount as int + fee + 0x8000_0000_0000_0000
      ensures r.Ok? ==> Spending(c, kps, old(addresses), selected) == Some(r.value.inputs)
      ensures r.Ok? ==> NewAddress(c, kps, Total(selected) - amount - fee, Key(old(nextChangeIndex), true), old(addresses), addresses)
      ensures r.Ok? ==>
        r.value.outputs == Payment(amount, destination.value, message, Total(selected) - amount - fee, old(addresses), addresses)
      ensures r.Ok? ==> held == Promised(old(held), r.value, c.txHash(r.value)) && Inputs(r.value) !! old(held).Keys
      ensures r.Ok? ==> live == old(live)[c.txHash(r.value) := r.value] && c.txHash(r.value) !in old(live)
    {
      ghost var offers := Offered(c, addresses, held, utxos, height, pool);
      var choice := Choose(destination, amount, fee, utxos, height, pool, message);
      if choice.Err? {
        return Err(choice.error), [];
      }
      selected := choice.value;
      assert selected == Chosen(offers, amount as int + fee);
      r := Build(selected, destination.value, amount, message, Total(selected) - amount - fee);
    }

    /** Check the request and pick the coins. */
    method Choose(destination: Option<Bytes32>, amount: I64, fee: I64, utxos: seq<Item<Id>>, height: U32,
                  pool: seq<Tx<Id>>, message: seq<Byte>) returns (r: Result<seq<Item<Id>>>)
      ensures r.Ok? <==>
        (CanSpend(destination, amount, fee, message)
         && amount as int + fee <= Total(Chosen(Offered(c, addresses, held, utxos, height, pool), amount as int + fee)))
      ensures r.Ok? ==> r.value == Chosen(Offered(c, addresses, held, utxos, height, pool), amount as int + fee) && r.value != []
      ensures r.Ok? ==> amount as int + fee <= Total(r.value) < amount as int + fee + 0x8000_0000_0000_0000
      ensures r.Ok? ==> AllFree(r.value, held.Keys)
    {
      var refusal := Refusal(destination, amount, fee, message);
      if refusal.Some? {
        return Err(refusal.value);
      }
      var ok, selected := Fund(utxos, height, pool, amount as int + fee);
      r := if ok then Ok(selected) else Err("Insufficient funds");
    }

    /** Build over the chosen coins, and hold them. */
    method Build(selected: seq<Item<Id>>, destination: Bytes32, amount: I64, message: seq<Byte>, change: int)
        returns (r: Result<Tx<Id>>)
      requires Valid() && selected != [] && AllFree(selected, held.Keys)
      requires 0 <= change < 0x8000_0000_0000_0000
      modifies this`held, this`addresses, this`nextChangeIndex, this`live
      ensures Valid()
      ensures r.Ok? <==> Spending(c, kps, old(addresses), selected).Some? && RoomFor(change, old(addresses))
      ensures r.Err? ==> held == old(held) && live == old(live) && addresses == old(addresses) && nextChangeIndex == old(nextChangeIndex)
      ensures r.Ok? ==> Spending(c, kps, old(addresses), selected) == Some(r.value.inputs)
      ensures r.Ok? ==> NewAddress(c, kps, change, Key(old(nextChangeIndex), true), old(addresses), addresses)
      ensures r.Ok? ==> r.value.outputs == Payment(amount, destination, message, change, old(addresses), addresses)
      ensures r.Ok? ==> held == Promised(old(held), r.value, c.txHash(r.value)) && Inputs(r.value) !! old(held).Keys
      ensures r.Ok? ==> live == old(live)[c.txHash(r.value) := r.value] && c.txHash(r.value) !in old(live)
    {
      r := Assemble(selected, destination, amount, message, change);
      if r.Ok? {
        SpendingInputs(c, kps, old(addresses), selected);
        Commit(selected, r.value);
      }
    }

    /** Inputs over the chosen coins and outputs for the payment. */
    method Assemble(selected: seq<Item<Id>>, destination: Bytes32, amount: I64, message: seq<Byte>, change: int)
        returns (r: Result<Tx<Id>>)
      requires 0 <= change < 0x8000_0000_0000_0000
      modifies this`addresses, this`nextChangeIndex
      ensures r.Ok? <==> Spending(c, kps, old(addresses), selected).Some? && RoomFor(change, old(addresses))
      ensures r.Err? ==> addresses == old(addresses) && nextChangeIndex == old(nextChangeIndex)
      ensures r.Ok? ==> Spending(c, kps, old(addresses), selected) == Some(r.value.inputs)
      ensures r.Ok? ==> NewAddress(c, kps, change, Key(old(nextChangeIndex), true), old(addresses), addresses)
      ensures r.Ok? ==> r.value.outputs == Payment(amount, destination, message, change, old(addresses), addresses)
    {
      var inputs := MakeInputs(selected);
      if inputs.Err? { return Err(inputs.error); }
      var outputs := MakeOutputs(destination, amount, message, change);
      if outputs.Err? { return Err(outputs.error); }
      r := Ok(Tx(inputs.value, outputs.value));
    }

    predicate CanSpend(destination: Option<Bytes32>, amount: I64, fee: I64, message: seq<Byte>)
      reads this`locked, this`noiseLoaded
    {
      !locked && noiseLoaded && amount > 0 && fee >= MIN_TX_FEE && destination.Some? && |message| <= MAX_OP_RETURN_SIZE
    }

    /** The first reason not to build a transaction, if there is one. */
    function Refusal(destination: Option<Bytes32>, amount: I64, fee: I64, message: seq<Byte>): (r: Option<string>)
      reads this`locked, this`noiseLoaded
      ensures r.None? <==> CanSpend(destination, amount, fee, message)
    {
      if |message| > MAX_OP_RETURN_SIZE then Some("Message too long")
      else if locked then Some("Wallet is locked")
      else if !noiseLoaded then Some("Noise file must be loaded before spending")
      else if amount <= 0 then Some("Invalid amount")
      else if fee < MIN_TX_FEE then Some("Fee too low")
      else if destination.None? then Some("Invalid destination address")
      else None
    }

    /** Pick coins until they cover what is needed. */
    method Fund(utxos: seq<Item<Id>>, height: U32, pool: seq<Tx<Id>>, needed: int) returns (ok: bool, selected: seq<Item<Id>>)
      requires needed > 0
      ensures ok <==> needed <= Total(Chosen(Offered(c, addresses, held, utxos, height, pool), needed))
      ensures ok ==> selected == Chosen(Offered(c, addresses, held, utxos, height, pool), needed) && selected != []
      ensures ok ==> needed <= Total(selected) < needed + 0x8000_0000_0000_0000 && AllFree(selected, held.Keys)
      ensures !ok ==> forall k :: 0 <= k <= |Offered(c, addresses, held, utxos, height, pool)| ==> Total(Offered(c, addresses, held, utxos, height, pool)[..k]) < needed
    {
      var spent := CollectSpent(pool);
      var v := View(set a | a in addresses :: a.pubkeyHash, held.Keys, spent, height);
      var spendable := FindOffers(v, c.txHash, utxos, pool);
      OffersFree(v, c.txHash, utxos, pool);
      var collected;
      selected, collected := SelectCoins(spendable, needed);
      ok := collected >= needed;
      if ok {
        ChosenFunded(spendable, needed);
      } else {
        forall k | 0 <= k <= |spendable|
          ensures Total(spendable[..k]) < needed
        {
          TakenIsLeast(spendable, needed, k);
        }
      }
    }

    /** Hold the inputs of a transaction just built. */
    method Commit(selected: seq<Item<Id>>, built: Tx<Id>)
      requires Valid() && selected != [] && AllFree(selected, held.Keys) && |built.inputs| == |selected|
      requires forall i :: 0 <= i < |selected| ==> built.inputs[i].prevOut == selected[i].out
      modifies this`held, this`live
      ensures Valid() && held == Promised(old(held), built, c.txHash(built)) && Inputs(built) !! old(held).Keys
      ensures live == old(live)[c.txHash(built) := built] && c.txHash(built) !in old(live)
    {
      var builtId := c.txHash(built);
      Opened(c, held, live, noiseUsed, fileUsed, spentLeaves);
      assert built.inputs[0].prevOut in Inputs(built);
      AgreeBuilt(c, held, Promised(held, built, builtId), live, built);
      HoldAll(selected, built, builtId);
      live := live[builtId := built];
    }

    method MakeInputs(selected: seq<Item<Id>>) returns (r: Result<seq<WalletIn<Id>>>)
      ensures r.Ok? <==> Spending(c, kps, addresses, selected).Some?
      ensures r.Ok? ==> Spending(c, kps, addresses, selected) == Some(r.value)
    {
      var inputs: seq<WalletIn<Id>> := [];
      for i := 0 to |selected|
        invariant Spending(c, kps, addresses, selected[..i]) == Some(inputs)
      {
        assert selected[..i + 1][..i] == selected[..i];
        var key := FindKey(selected[i].coin.pubkeyHash);
        if key.None? {
          SpendingFails(c, kps, addresses, selected, i + 1);
          return Err("No wallet key found for a selected input");
        }
        inputs := inputs + [TxIn(selected[i].out, c.publicKey(key.value), kps, seq(64, _ => 0), [])];
      }
      assert selected[..|selected|] == selected;
      r := Ok(inputs);
    }

    method FindKey(pubkeyHash: Bytes32) returns (key: Option<Key>)
      ensures key == KeyFor(addresses, pubkeyHash, 0)
    {
      for j := 0 to |addresses|
        invariant KeyFor(addresses, pubkeyHash, 0) == KeyFor(addresses, pubkeyHash, j)
      {
        if addresses[j].pubkeyHash == pubkeyHash {
          return Some(addresses[j].key);
        }
      }
      key := None;
    }

    method MakeOutputs(destination: Bytes32, amount: I64, message: seq<Byte>, change: int) returns (r: Result<seq<TxOut>>)
      requires 0 <= change < 0x8000_0000_0000_0000
      modifies this`addresses, this`nextChangeIndex
      ensures r.Ok? <==> RoomFor(change, old(addresses))
      ensures r.Err? ==> addresses == old(addresses) && nextChangeIndex == old(nextChangeIndex)
      ensures r.Ok? ==> NewAddress(c, kps, change, Key(old(nextChangeIndex), true), old(addresses), addresses)
      ensures r.Ok? ==> r.value == Payment(amount, destination, message, change, old(addresses), addresses)
    {
      var outputs := [TxOut(amount, Scripts.PayToPubkeyHash(destination))];
      if message != [] {
        outputs := outputs + [TxOut(0, [Scripts.OP_RETURN] + Scripts.Pushed(message))];
      }
      ghost var h := Zero32();
      if change > DUST_THRESHOLD {
        if |addresses| >= MAX_ADDRESSES { return Err("Maximum number of addresses reached"); }
        var key := Key(nextChangeIndex, true);
        nextChangeIndex := (nextChangeIndex + 1) % WORD;
        var address := Address(c.bind(c.publicKey(key), kps), key);
        addresses := addresses + [address];
        outputs := outputs + [TxOut(change, Scripts.PayToPubkeyHash(address.pubkeyHash))];
        h := address.pubkeyHash;
      }
      assert outputs == OutputsFor(amount, destination, message, change, h);
      r := Ok(outputs);
    }

    method HoldAll(selected: seq<Item<Id>>, ghost tx: Tx<Id>, id: Id)
      requires |tx.inputs| == |selected| && forall i :: 0 <= i < |selected| ==> tx.inputs[i].prevOut == selected[i].out
      modifies this`held
      ensures held == Promised(old(held), tx, id)
    {
      for k := 0 to |selected|
        invariant held.Keys == old(held).Keys + set i | 0 <= i < k :: selected[i].out
        invariant forall o :: o in held ==> held[o] == if o in (set i | 0 <= i < k :: selected[i].out) then id else old(held)[o]
      {
        held := held[selected[k].out := id];
      }
    }

    // ---- Signing ----

    /** Sign every input, move the holds to the new id, and spend the leaves the new id calls for. A
        transaction whose leaves clash is refused before any of them is spent. */
    method SignTransaction(tx: Tx<Id>, saved: bool) returns (r: Signing, tx': Tx<Id>)
      requires Valid()
      modifies this`held, this`live, this`noiseUsed, this`fileUsed, this`spentLeaves
      ensures Valid()
      ensures r.NotReady? <==> locked || !noiseLoaded
      ensures r.KeyMissing? <==> !r.NotReady? && SignedUpTo(c, kps, addresses, tx, |tx.inputs|).None?
      ensures r.NotReady? || r.KeyMissing? ==>
        held == old(held) && live == old(live) && noiseUsed == old(noiseUsed) && spentLeaves == old(spentLeaves)
      ensures !r.NotReady? && !r.KeyMissing? ==> var t := SignedUpTo(c, kps, addresses, tx, |tx.inputs|).value;
        && HoldsMoved(c, old(held), held, old(live), live, tx, t)
        && Spent(c, t, tx', r, saved, old(noiseUsed), noiseUsed, old(spentLeaves), spentLeaves)
    {
      tx' := tx;
      if locked || !noiseLoaded { return NotReady, tx'; }
      var ok, t := SignInputs(tx);
      if !ok { return KeyMissing, t; }
      SigningKeepsInputs(c, kps, addresses, tx, |tx.inputs|);
      MoveHolds(tx, t);
      r, tx' := SpendLeaves(t, saved);
    }

    /** Sign the inputs in turn; an input without a key stops it half way. */
    method SignInputs(tx: Tx<Id>) returns (ok: bool, t: Tx<Id>)
      ensures ok <==> SignedUpTo(c, kps, addresses, tx, |tx.inputs|).Some?
      ensures ok ==> SignedUpTo(c, kps, addresses, tx, |tx.inputs|) == Some(t)
    {
      t := tx;
      for i := 0 to |tx.inputs|
        invariant SignedUpTo(c, kps, addresses, tx, i) == Some(t)
      {
        var key := FindKey(c.bind(t.inputs[i].pubkey, kps));
        if key.None? {
          SigningStops(c, kps, addresses, tx, i + 1, |tx.inputs|);
          return false, t;
        }
        t := WithSignature(t, i, c.signature(key.value, t, i));
      }
      ok := true;
    }

    method MoveHolds(tx: Tx<Id>, t: Tx<Id>)
      requires Valid() && Inputs(t) == Inputs(tx)
      modifies this`held, this`live
      ensures Valid() && HoldsMoved(c, old(held), held, old(live), live, tx, t)
    {
      var unsignedId, signedId := c.txHash(tx), c.txHash(t);
      Opened(c, held, live, noiseUsed, fileUsed, spentLeaves);
      AgreeSigned(c, held, live, tx, t);
      if signedId != unsignedId {
        held := Rekey(held, unsignedId, signedId);
      } else {
        assert Rekeyed(held, unsignedId, signedId) == held;
      }
      live := Renamed(live, unsignedId, signedId, t);
    }

    /** Make the proofs, mark their leaves in both maps, and save. */
    method SpendLeaves(t: Tx<Id>, saved: bool) returns (r: Signing, tx': Tx<Id>)
      requires Valid()
      modifies this`noiseUsed, this`fileUsed, this`spentLeaves
      ensures Valid() && Spent(c, t, tx', r, saved, old(noiseUsed), noiseUsed, old(spentLeaves), spentLeaves)
    {
      tx' := t;
      if c.isCoinbase(t) { return Done, tx'; }
      if Remaining(fileUsed) < |t.inputs| { return Exhausted, tx'; }
      var id := c.txHash(t);
      var ok, inputs, consumed := ProveInputs(t, id);
      if !ok { return Clash, tx'; }
      tx' := t.(inputs := inputs);
      Opened(c, held, live, noiseUsed, fileUsed, spentLeaves);
      InPool(c, id, t.inputs, |t.inputs|);
      MarkAll(consumed);
      r := if saved then Done else Unsaved;
    }

    method MarkAll(consumed: seq<nat>)
      requires LeavesKept(noiseUsed, fileUsed, spentLeaves) && NoDuplicates(consumed) && Fresh(noiseUsed, consumed)
      requires forall i :: 0 <= i < |consumed| ==> consumed[i] < NOISE_LEAF_COUNT
      modifies this`noiseUsed, this`fileUsed, this`spentLeaves
      ensures LeavesKept(noiseUsed, fileUsed, spentLeaves) && spentLeaves == old(spentLeaves) + consumed
      ensures forall i: nat :: Used(noiseUsed, i) <==> Used(old(noiseUsed), i) || i in consumed
    {
      ghost var before, spent := noiseUsed, spentLeaves;
      for k := 0 to |consumed|
        invariant |noiseUsed| <= MAP_BYTES && spentLeaves == spent
        invariant forall i: nat :: Used(noiseUsed, i) <==> Used(before, i) || i in consumed[..k]
        invariant forall i: nat :: Used(fileUsed, i) <==> Used(noiseUsed, i)
      {
        assert consumed[..k + 1] == consumed[..k] + [consumed[k]];
        noiseUsed := Mark(noiseUsed, consumed[k]);
        fileUsed := Mark(fileUsed, consumed[k]);
      }
      assert consumed[..|consumed|] == consumed;
      spentLeaves := spentLeaves + consumed;
    }

    /** A proof for every leaf of every input, unless a leaf was spent before or is called for twice. */
    method ProveInputs(t: Tx<Id>, id: Id) returns (ok: bool, inputs: seq<WalletIn<Id>>, consumed: seq<nat>)
      ensures ok <==> NoDuplicates(Wanted(c, id, t.inputs, |t.inputs|)) && Fresh(noiseUsed, Wanted(c, id, t.inputs, |t.inputs|))
      ensures ok ==> consumed == Wanted(c, id, t.inputs, |t.inputs|) && inputs == WithProofs(c, id, t).inputs
    {
      inputs, consumed := t.inputs, [];
      for i := 0 to |t.inputs|
        invariant consumed == Wanted(c, id, t.inputs, i) && NoDuplicates(consumed) && Fresh(noiseUsed, consumed)
        invariant |inputs| == |t.inputs|
        invariant forall k :: 0 <= k < i ==> inputs[k] == WithProofs(c, id, t).inputs[k]
        invariant forall k :: i <= k < |inputs| ==> inputs[k] == t.inputs[k]
      {
        var wanted, blob := c.leaves(id, inputs[i].kps, i), [];
        WantedPrefix(c, id, t.inputs, i + 1, |t.inputs|);
        ghost var before := consumed;
        ok, blob, consumed := ProveInput(id, wanted, consumed);
        if !ok {
          assert Wanted(c, id, t.inputs, i + 1) == before + wanted;
          return;
        }
        inputs := inputs[i := inputs[i].(noiseProof := blob)];
      }
      ok := true;
    }

    method ProveInput(id: Id, wanted: seq<nat>, before: seq<nat>) returns (ok: bool, blob: seq<Byte>, consumed: seq<nat>)
      requires NoDuplicates(before) && Fresh(noiseUsed, before)
      ensures ok <==> NoDuplicates(before + wanted) && Fresh(noiseUsed, before + wanted)
      ensures ok ==> consumed == before + wanted && blob == Proofs(c, id, wanted)
    {
      blob, consumed := [], before;
      ok := AllDifferent(wanted);
      if !ok {
        RepeatsInside(before, wanted);
        return;
      }
      for j := 0 to |wanted|
        invariant consumed == before + wanted[..j] && blob == Proofs(c, id, wanted[..j])
        invariant NoDuplicates(consumed) && Fresh(noiseUsed, consumed)
      {
        assert wanted[..j + 1][..j] == wanted[..j];
        assert (before + wanted)[|before| + j] == wanted[j];
        if Used(noiseUsed, wanted[j]) { return false, blob, consumed; }
        for k := 0 to |consumed|
          invariant forall m :: 0 <= m < k ==> consumed[m] != wanted[j]
        {
          if consumed[k] == wanted[j] {
            assert (before + wanted)[k] == consumed[k];
            return false, blob, consumed;
          }
        }
        blob := blob + c.proof(wanted[j], id);
        consumed := consumed + [wanted[j]];
      }
      assert wanted[..|wanted|] == wanted;
    }
  }

  method AllDifferent(wanted: seq<nat>) returns (ok: bool)
    ensures ok <==> NoDuplicates(wanted)
  {
    for a := 0 to |wanted|
      invariant forall i, j :: 0 <= i < a && i < j < |wanted| ==> wanted[i] != wanted[j]
    {
      for b := a + 1 to |wanted|
        invariant forall j :: a < j < b ==> wanted[a] != wanted[j]
      {
        if wanted[a] == wanted[b] { return false; }
      }
    }
    ok := true;
  }

  lemma RepeatsInside(before: seq<nat>, wanted: seq<nat>)
    requires !NoDuplicates(wanted)
    ensures !NoDuplicates(before + wanted)
  {
    var i, j :| 0 <= i < j < |wanted| && wanted[i] == wanted[j];
    assert (before + wanted)[|before| + i] == (before + wanted)[|before| + j];
  }

  /** Go through the holds and give those of one id to another. */
  method Rekey<Id(==)>(before: Holds<Id>, from: Id, to: Id) returns (held: Holds<Id>)
    requires from != to
    ensures held == Rekeyed(before, from, to)
  {
    held := before;
    var rest := held.Keys;
    while rest != {}
      invariant rest <= held.Keys == before.Keys
      invariant forall o :: o in before ==> held[o] == if o !in rest && before[o] == from then to else before[o]
      decreases |rest|
    {
      var o :| o in rest;
      if held[o] == from { held := held[o := to]; }
      rest := rest - {o};
    }
  }

  /** Holds and pending transactions follow a signed transaction to its new id. */
  ghost predicate HoldsMoved<Id>(c: Crypto<Id>, before: Holds<Id>, held: Holds<Id>, wasLive: map<Id, Tx<Id>>, live: map<Id, Tx<Id>>,
                            tx: Tx<Id>, t: Tx<Id>) {
    held == Rekeyed(before, c.txHash(tx), c.txHash(t)) && live == Renamed(wasLive, c.txHash(tx), c.txHash(t), t)
  }

  function WithProofs<Id>(c: Crypto<Id>, id: Id, tx: Tx<Id>): Tx<Id> {
    tx.(inputs := seq(|tx.inputs|, i requires 0 <= i < |tx.inputs| =>
      tx.inputs[i].(noiseProof := Proofs(c, id, c.leaves(id, tx.inputs[i].kps, i)))))
  }

  /** How many leaves a noise file says are left. */
  function Remaining(fileUsed: seq<bv8>): nat {
    var used := CountUsed(fileUsed);
    if used >= NOISE_LEAF_COUNT then 0 else NOISE_LEAF_COUNT - used
  }

  /** What signing does to the leaves: all those called for are spent, or none. They are spent exactly when
      they are different from each other and from every leaf spent before. */
  ghost predicate Spent<Id>(c: Crypto<Id>, t: Tx<Id>, tx': Tx<Id>, r: Signing, saved: bool, before: seq<bv8>, after: seq<bv8>,
                            wasSpent: seq<nat>, spentLeaves: seq<nat>) {
    var wanted := Wanted(c, c.txHash(t), t.inputs, |t.inputs|);
    if c.isCoinbase(t) then r.Done? && tx' == t && after == before && spentLeaves == wasSpent
    else
      && (r.Exhausted? || r.Clash? || r.Unsaved? || r.Done?)
      && (!r.Exhausted? ==> (r.Clash? <==> !NoDuplicates(wanted) || !Fresh(before, wanted)))
      && (r.Exhausted? || r.Clash? ==> tx' == t && after == before && spentLeaves == wasSpent)
      && (r.Unsaved? || r.Done? ==>
            && (r.Done? <==> saved)
            && tx' == WithProofs(c, c.txHash(t), t)
            && spentLeaves == wasSpent + wanted
            && forall i: nat :: Used(after, i) <==> Used(before, i) || i in wanted)
  }

  lemma {:induction false} SigningStops<Id>(c: Crypto<Id>, kps: Bytes32, addresses: seq<Address>, tx: Tx<Id>, n: nat, m: nat)
    requires n <= m <= |tx.inputs| && SignedUpTo(c, kps, addresses, tx, n).None?
    ensures SignedUpTo(c, kps, addresses, tx, m).None?
  {
    if n < m { SigningStops(c, kps, addresses, tx, n, m - 1); }
  }

  lemma {:induction false} InPool<Id(!new)>(c: Crypto<Id>, id: Id, inputs: seq<WalletIn<Id>>, n: nat)
    requires Lawful(c) && n <= |inputs|
    ensures forall i :: 0 <= i < |Wanted(c, id, inputs, n)| ==> Wanted(c, id, inputs, n)[i] < NOISE_LEAF_COUNT
  {
    if n > 0 { InPool(c, id, inputs, n - 1); }
  }

  /** The holds with every input of a transaction promised to it. */
  function Promised<Id(==)>(held: Holds<Id>, tx: Tx<Id>, id: Id): Holds<Id> {
    map o | o in held.Keys + Inputs(tx) :: if o in Inputs(tx) then id else held[o]
  }

  lemma {:induction false} SpendingFails<Id>(c: Crypto<Id>, kps: Bytes32, addresses: seq<Address>, selected: seq<Item<Id>>, n: nat)
    requires n <= |selected| && Spending(c, kps, addresses, selected[..n]).None?
    ensures Spending(c, kps, addresses, selected).None?
    decreases |selected|
  {
    var m := |selected| - 1;
    if n <= m {
      assert selected[..m][..n] == selected[..n];
      SpendingFails(c, kps, addresses, selected[..m], n);
    } else {
      assert selected[..n] == selected;
    }
  }

  /** The inputs spend the chosen coins, one for one. */
  lemma {:induction false} SpendingInputs<Id>(c: Crypto<Id>, kps: Bytes32, addresses: seq<Address>, selected: seq<Item<Id>>)
    requires Spending(c, kps, addresses, selected).Some?
    ensures var inputs := Spending(c, kps, addresses, selected).value;
      |inputs| == |selected| && forall i :: 0 <= i < |selected| ==> inputs[i].prevOut == selected[i].out
  {
    if selected != [] { SpendingInputs(c, kps, addresses, selected[..|selected| - 1]); }
  }

  /** Coins chosen that reach a sum are the ones that cover it: without the last of them they fall short. */
  lemma ChosenFunded<Id>(items: seq<Item<Id>>, needed: int)
    requires needed > 0 && Total(Chosen(items, needed)) >= needed
    ensures Funded(Chosen(items, needed), items, needed)
  {
    var n := Taken(items, needed);
    assert items[..0] == [];
    TakenIsLeast(items, needed, n - 1);
    assert items[..n] == items[..n - 1] + [items[n - 1]];
    TotalMore(items[..n - 1], items[n - 1]);
  }

  /** The proofs leave the id alone, so the holds stay under it. */
  lemma ProofsKeepId<Id(!new)>(c: Crypto<Id>, t: Tx<Id>)
    requires Lawful(c)
    ensures c.txHash(WithProofs(c, c.txHash(t), t)) == c.txHash(t)
  {
    assert Stripped(WithProofs(c, c.txHash(t), t)) == Stripped(t);
  }

  // ---- A coin offered twice ----

  /** One coin of the unspent set whose transaction still waits, paying the only address of a wallet that
      holds nothing. */
  ghost predicate StillWaiting<Id(!new)>(c: Crypto<Id>, address: Address, value: I64, t: Tx<Id>, utxo: Item<Id>) {
    && value > 0 && t.outputs == [TxOut(value, Scripts.PayToPubkeyHash(address.pubkeyHash))]
    && utxo.out == OutPoint(c.txHash(t), 0) && utxo.out !in SpentIn([t])
    && utxo.coin.value == value && utxo.coin.pubkeyHash == address.pubkeyHash && !utxo.coin.isCoinbase
  }

  lemma PaysAddress(h: Bytes32)
    ensures PubkeyHashOf(Scripts.PayToPubkeyHash(h)) == h
  {
    assert Scripts.PayToPubkeyHash(h)[3..35] == h;
  }

  /** It is offered twice, as a coin of the set and as an output in the pool. */
  lemma OfferedTwice<Id(!new)>(c: Crypto<Id>, address: Address, value: I64, t: Tx<Id>, utxo: Item<Id>, height: U32)
    requires StillWaiting(c, address, value, t, utxo)
    ensures var offers := Offered(c, [address], map[], [utxo], height, [t]);
      && |offers| == 2 && offers[0].out == offers[1].out == utxo.out
      && offers[0].coin.value == offers[1].coin.value == value
      && offers[0].coin.pubkeyHash == offers[1].coin.pubkeyHash == address.pubkeyHash
  {
    var none: Holds<Id> := map[];
    var v := View(set a | a in [address] :: a.pubkeyHash, none.Keys, SpentIn([t]), height);
    assert Offered(c, [address], none, [utxo], height, [t]) == Offers(v, c.txHash, [utxo], [t]);
    PaysAddress(address.pubkeyHash);
    assert address in [address];
    var item := PoolItem(v, c.txHash(t), 0, t.outputs[0]);
    assert FromPool(v, item) && FromChain(v, utxo);
    assert ChainOffers(v, [utxo]) == [utxo] by {
      assert [utxo][..0] == [];
    }
    assert TxOffers(v, c.txHash(t), t.outputs, 1) == [item] by {
      assert TxOffers(v, c.txHash(t), t.outputs, 0) == [];
    }
    assert PoolOffers(v, c.txHash, [t]) == [item] by {
      assert [t][..0] == [];
    }
  }

  /** A payment for more than the coin is worth then goes through, and spends the coin twice. */
  lemma SpendsOneCoinTwice<Id(!new)>(c: Crypto<Id>, kps: Bytes32, address: Address, value: I64, t: Tx<Id>, utxo: Item<Id>, height: U32,
                                     needed: int)
    requires StillWaiting(c, address, value, t, utxo) && value < needed <= 2 * value
    ensures var selected := Chosen(Offered(c, [address], map[], [utxo], height, [t]), needed);
      && Payable(c, kps, [address], selected, needed)
      && var inputs := Spending(c, kps, [address], selected).value;
         |inputs| == 2 && inputs[0].prevOut == inputs[1].prevOut == utxo.out
  {
    var offers := Offered(c, [address], map[], [utxo], height, [t]);
    OfferedTwice(c, address, value, t, utxo, height);
    TwoCoinsTaken(offers, value, needed);
    TwoCoinsSpent(c, kps, address, offers);
    SpendingInputs(c, kps, [address], offers);
  }

  lemma TwoCoinsTaken<Id>(offers: seq<Item<Id>>, value: int, needed: int)
    requires |offers| == 2 && offers[0].coin.value == offers[1].coin.value == value && value < needed <= 2 * value
    ensures Chosen(offers, needed) == offers && Total(offers) == 2 * value
  {
    assert offers[1..] == [offers[1]] && offers[1..][1..] == [];
    assert Taken(offers[1..], needed - value) == 1;
    assert Total(offers[1..]) == value;
  }

  lemma TwoCoinsSpent<Id>(c: Crypto<Id>, kps: Bytes32, address: Address, offers: seq<Item<Id>>)
    requires |offers| == 2 && offers[0].coin.pubkeyHash == offers[1].coin.pubkeyHash == address.pubkeyHash
    ensures Spending(c, kps, [address], offers).Some?
  {
    assert KeyFor([address], address.pubkeyHash, 0) == Some(address.key);
    assert offers[..1][..0] == [];
    assert Spending(c, kps, [address], offers[..1]).Some?;
  }

  // ---- Runs ----

  datatype Event<Id> =
    | Create(destination: Option<Bytes32>, amount: I64, fee: I64, utxos: seq<Item<Id>>, height: U32, pool: seq<Tx<Id>>,
             message: seq<Byte>)
    | Sign(tx: Tx<Id>, saved: bool)
    | Release(id: Id)

  /** Over any run no two pending transactions spend the same coin, and no leaf is spent by two
      signings or twice by one. */
  method Run<Id(!new, ==)>(w: Wallet<Id>, events: seq<Event<Id>>)
    requires w.Valid()
    modifies w
    ensures w.Valid()
    ensures forall a, b :: a in w.live && b in w.live && a != b ==> Inputs(w.live[a]) !! Inputs(w.live[b])
    ensures NoDuplicates(w.spentLeaves) && forall i :: i in w.spentLeaves ==> Used(w.noiseUsed, i)
  {
    for k := 0 to |events|
      invariant w.Valid()
    {
      match events[k]
      case Create(destination, amount, fee, utxos, height, pool, message) =>
        var r, selected := w.CreateTransaction(destination, amount, fee, utxos, height, pool, message);
      case Sign(tx, saved) =>
        var r, tx' := w.SignTransaction(tx, saved);
      case Release(id) =>
        w.ReleaseOutpointsFor(id);
    }
    Opened(w.c, w.held, w.live, w.noiseUsed, w.fileUsed, w.spentLeaves);
    forall a, b | a in w.live && b in w.live && a != b
      ensures Inputs(w.live[a]) !! Inputs(w.live[b])
    {
      PendingDisjoint(w.c, w.held, w.live, a, b);
    }
  }
}
