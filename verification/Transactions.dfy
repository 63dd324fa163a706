/** What the pool and the wallet both see of a transaction. */
module Transactions {
  import opened Bytes

  /** A smaller output is not worth spending. */
  const DUST_THRESHOLD := 1000

  /** An output, by the id of its transaction. */
  datatype OutPoint<Id> = OutPoint(hash: Id, index: U32)

  datatype TxIn<Id, Proof> =
    TxIn(prevOut: OutPoint<Id>, pubkey: Bytes32, kps: Bytes32, signature: seq<Byte>, noiseProof: Proof)
}
