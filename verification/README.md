# Verified model of the MONEU node

MONEU is a Bitcoin-style node. This project models the stateful and arithmetical core of it in Dafny and
proves what that core is for. `dafny verify dfyconfig.toml` checks everything.

The modules follow the source files.

- **Transaction pool.** `Graph`, `PoolModel`, `PoolGraph`, `MempoolPolicy` define the entries, the order of the
  indexes, ancestry and the admission rules. `MempoolObject` is the pool as an object with its five maps and its
  byte counter, updated in place by work-list and eviction loops. `PoolRuns` is the same pool as a state machine
  over its entries; every method of the object takes the step of that machine. `RollingFee` is its rolling minimum
  fee rate, `PoolEviction` says at once and over the pool before what an admission evicts, and `PoolWitnesses` holds
  runs that show where its limits and its order end.
- **Base58.** `Base58Spec` is positional notation, `Base58` the in-place conversions, `Base58Check` the sealed
  forms over any hash.
- **256-bit numbers.** `Limbs` and `BaseUint` are the limb arrays and the operators on them, `Compact` and
  `CompactLaws` the compact targets, `ArithBytes` the bridge to 32-byte hashes.
- **Hashing.** `Sha2`, `Sha2Spec`, `Sha2Context`, `Sha2Instances` hold one generic SHA-2 and its two instances
  with their real constants (FIPS 180-4, sections 4 to 6); `Hmac` follows section 2 of RFC 2104 and `Pbkdf2`
  section 5.2 of RFC 8018, both on midstates; `Ripemd` is the RIPEMD-160 stream over any compression; `Bits` is
  exclusive or.
- **Mining and headers.** `BlockHeaders`, `Miner`.
- **Blocks and storage.** `Merkle`, `BlockCodec`, `BlockStore`, `BlockUndo`, `Scripts`.
- **Peers.** `AddrTables` and `AddrManager` are the address manager; `NetFraming`, `NetInFlight`, `NetProgress`,
  `NetPeers` and `NetEviction` are message framing, request accounting, stall detection, address and connection
  quotas, and making room for new connections.
- **Wallet.** `WalletCoins` selects coins, `Wallets` holds them and spends leaves, `LeafMap` is the map of spent
  leaves and `NoiseProofs` the proofs of single-use leaves.
- `Bytes`, `Transactions` and `Wrappers` are shared.

## Findings

Places where the code does not do what its surroundings suggest. Each has a lemma that says exactly when it does.

- A message is lost, and its peer disconnected, when its payload and what the read that completes it brings in
  behind it pass MAX_PROTOCOL_MSG_SIZE together. No cut of a stream loses a message exactly when no message of it
  can meet that (`NetFraming.DeliveredExactly`, `NetFraming.LongPayloadDropped`).
- A script push longer than 65535 bytes is written with a length field that reading refuses, so `PushData` and
  `GetOp` undo each other exactly up to there (`Scripts.PushRoundTrip`, `Scripts.CreatedNullData`).
- Splitting PBKDF2 iterations over several updates adds up only when the first update asks for at least one
  (`Pbkdf2.TotalIsSum`).
- The ancestor limit looks at the ancestry of the newcomer alone. A transaction admitted after one that spends it
  can take another past 25: `PoolWitnesses.BreaksAncestorBound` is such a run, every step of it admitted. Filing an
  entry keeps the bound exactly under the condition of `PoolGraph.BoundExactly`, a whole admission with its evictions
  exactly under that of `PoolRuns.AdmittedBoundExactly`, both over the pool before.
- A coin is offered to coin selection twice exactly when it is ripe in the unspent set while the transaction that
  made it still waits in the pool (`WalletCoins.OffersDistinct`). A payment can then spend it twice
  (`Wallets.SpendsOneCoinTwice`).
- Equal Merkle roots bind lists of two lengths exactly when the lengths are equal; for any two different lengths
  there are lists that share a root (`Merkle.RootsBindEqualLengths`, `Merkle.SharedRoot`).
- Blocks and undo records with more than 10000 entries are written but refused on reading
  (`BlockCodec.BlockRoundTrip`, `BlockUndo.UndoRoundTrip`, `BlockStore.ReadsWhatStands`).
- `GetTransactions` hands out equal fee rates newest first, because it walks the fee index backwards, where the
  comments in its header (`src/consensus/mempool.h`, lines 68-70 and 268-269) promise order of admission. The
  promise is kept exactly when no two entries handed out pay the same rate (`MempoolPolicy.ArrivalOrderExactly`,
  `PoolWitnesses.TiesNewestFirst`).

## Model

| member | source | states |
|---|---|---|
| MempoolObject.Mempool.AddTransaction | src/consensus/mempool.cpp:442-550 | admission as a whole: the new entries are exactly those of the run model after expiry, the checks in order, filing and trimming; it reports true only for an entry that is still there, and every admission that gets as far as trimming ends within the byte limit |
| MempoolObject.Mempool.CheckAdmission | src/consensus/mempool.cpp:448-523 | accepts exactly the admissible transactions: well formed, new, no outpoint or leaf in conflict, fee rate high enough, and family limits kept, the descendant limit only for direct parents as the code has it |
| MempoolObject.Mempool.InsertEntry | src/consensus/mempool.cpp:525-545 | an entry without conflicts goes into all five maps and the byte count, which go on describing one set of transactions |
| MempoolObject.Mempool.RemoveLocked | src/consensus/mempool.cpp:117-134 | one entry leaves all five maps and the byte count together, or nothing changes; the indexes go on agreeing |
| MempoolObject.Mempool.CollectDescendantsLocked | src/consensus/mempool.cpp:339-363 | the work list ends with every entry reachable through in-pool spends, each once, and nothing else |
| MempoolObject.Mempool.RemoveRecursiveLocked | src/consensus/mempool.cpp:365-373 | takes out exactly the family of an entry and says how many that were |
| MempoolObject.Mempool.CountAncestorsLocked | src/consensus/mempool.cpp:375-398 | the exact size of the closure of in-pool parents, plus one |
| MempoolObject.Mempool.CountDescendantsLocked | src/consensus/mempool.cpp:400-404 | the exact size of the closure of in-pool spenders |
| MempoolObject.Mempool.TrimLocked | src/consensus/mempool.cpp:406-424 | eviction terminates, leaves exactly what repeatedly evicting the family of the cheapest entry leaves, within the byte limit, and leaves the rolling fee, its time and its block flag exactly as those evictions make them |
| MempoolObject.Mempool.ExpireLocked | src/consensus/mempool.cpp:426-440 | removes exactly the entries older than the cutoff, walking the time index from its front |
| MempoolObject.Mempool.GetMinFeeRateLocked | src/consensus/mempool.cpp:94-115 | the rate asked for and the fee state left behind, branch by branch: no decay before a block or within ten seconds, a halflife by the fullness of the pool, forgotten below half an increment, never under an increment otherwise |
| MempoolObject.Mempool.OutPointsFree | src/consensus/mempool.cpp:450-457 | true exactly when no entry spends an outpoint of the transaction |
| MempoolObject.Mempool.LeavesFree | src/consensus/mempool.cpp:459-473 | true exactly when no entry holds a leaf of the transaction and it names none twice, over the keys extracted before a proof that fails to parse |
| MempoolObject.Mempool.FamilyFits | src/consensus/mempool.cpp:491-523 | the ancestor and descendant limits as the code tests them |
| MempoolObject.Mempool.RemoveTransaction | src/consensus/mempool.cpp:552-555 | takes the step of the run model that removes one entry and not its descendants; true exactly when the entry was there |
| MempoolObject.Mempool.StrikeOutPoints | src/consensus/mempool.cpp:562-569 | afterwards no entry spends an outpoint a confirmed transaction spent, and only families of such entries are gone |
| MempoolObject.Mempool.StrikeLeaves | src/consensus/mempool.cpp:570-578 | afterwards no entry holds a leaf of a confirmed transaction whose proofs parse |
| MempoolObject.Mempool.RemoveForBlock | src/consensus/mempool.cpp:557-582 | the entries left are those of the run model after connecting the block |
| MempoolObject.Mempool.GetTransactions | src/consensus/mempool.cpp:597-609 | the best paying transactions first, as many as asked for, ties newest first |
| MempoolObject.Mempool.Clear | src/consensus/mempool.cpp:626-634 | takes the step of the run model that empties the pool |
| MempoolObject.RemovalConsistent | src/consensus/mempool.cpp:117-134 | erasing the keys of one entry from every index keeps all of them in agreement |
| MempoolObject.InsertionConsistent | src/consensus/mempool.cpp:525-545 | filing an entry without conflicts under a fresh number keeps all indexes in agreement |
| MempoolObject.StruckExactly | src/consensus/mempool.cpp:557-582 | families dropped one after another are together exactly the families of everything the block struck |
| MempoolPolicy.ExtractLeafKeys | src/consensus/mempool.cpp:22-47 | the leaf keys of the inputs in order, up to the first proof that does not parse; false then |
| MempoolPolicy.LeafKeysMembership | src/consensus/mempool.cpp:22-47 | a key is extracted exactly when some input before the first bad proof consumes that leaf |
| PoolModel.IndexesAreDerived | src/consensus/mempool.cpp:117-134 | pools with the same entries agree in the fee, time, outpoint and leaf maps and in the byte count |
| PoolModel.NothingShared | src/consensus/mempool.cpp:450-473 | in a consistent pool no outpoint and no leaf belongs to two entries |
| PoolModel.OrderedIndexSizes | src/consensus/mempool.cpp:534-545 | the fee and time indexes hold one key per entry |
| PoolGraph.RemoveFamilyAfterOthers | src/consensus/mempool.cpp:365-373 | removing families one after another is removing their union at once |
| PoolGraph.TrimFitsAndNeverOrphans | src/consensus/mempool.cpp:406-424 | eviction ends within the limit and never leaves an entry behind whose in-pool parent it evicted |
| PoolGraph.TrimTakesCheapestFamilies | src/consensus/mempool.cpp:406-424 | nothing is evicted except in the family of an entry cheaper than every survivor |
| PoolGraph.RemovalKeepsAncestorBound | src/consensus/mempool.cpp:375-398 | any removal keeps every ancestor set within 25 |
| PoolGraph.AdmissionKeepsAncestorBound | src/consensus/mempool.cpp:491-503 | admission keeps the bound for every entry when nothing in the pool spends the newcomer; a case of the exact condition |
| PoolRuns.NextKeeps | src/consensus/mempool.cpp:442-582 | any operation keeps the entries sound and the pool within its byte limit |
| PoolRuns.Run | src/consensus/mempool.cpp:442-634 | every state reached from the empty pool is sound and within the byte limit |
| PoolRuns.RunKeepsAncestorBound | src/consensus/mempool.cpp:491-503 | over any run in which no transaction is admitted after one that spends it, no entry ever has more than 25 in its ancestry, itself included |
| PoolRuns.BlockLeavesNoConflict | src/consensus/mempool.cpp:557-582 | after a block nothing it confirms or contradicts is left, and an entry is removed exactly when it descends from one the block struck |
| Graph.ReachLeast | src/consensus/mempool.cpp:339-363 | what a walk reaches is the least set closed under the edges |
| Graph.WorkListTurn | src/consensus/mempool.cpp:348-361 | one turn of the work list keeps what it has found between the roots and their closure |
| Graph.WorkListDone | src/consensus/mempool.cpp:339-363 | a work list that runs out holds exactly what the roots reach |
| Base58.B58Enc | src/crypto/base58.c:147-183 | writes exactly the base-58 text of the bytes with its terminator when the buffer has room, and otherwise only reports the size needed |
| Base58.Convert | src/crypto/base58.c:155-168 | the digit buffer ends up holding the value of the bytes: no carry is lost and the `high` shortcut skips no digit |
| Base58.PushByte | src/crypto/base58.c:159-168 | one pass multiplies the number by 256 and adds a byte, though it stops at the first untouched position without a carry; everything up to where it stops is zero |
| Base58.EncoderBufferSuffices | src/crypto/base58.c:155-157 | 256^n is at most 58^(floor(138 n / 100) + 1) |
| Base58.PrefixBounds | src/crypto/base58.c:155-168 | every prefix fits the buffer, and before the last byte even leaves its first digit zero |
| Base58.B58ToBin | src/crypto/base58.c:62-130 | succeeds exactly on decodable texts, with their value right-aligned and their exact length; bytes past the size given are untouched |
| Base58.TakeChar | src/crypto/base58.c:88-103 | one character is taken exactly when it is a digit and the number still fits the output |
| Base58.AbsorbDigit | src/crypto/base58.c:93-98 | the carry loop multiplies the words by 58 and adds the digit, handing out what does not fit |
| Base58.FitsInBytes | src/crypto/base58.c:77-102 | the mask test on the first word is the test that the value fits the output size |
| Base58.WriteWords | src/crypto/base58.c:105-117 | the words come out as the big-endian bytes of their value, the first word cut short |
| Base58.EncodeThenDecode | src/crypto/base58.c:62-183 | running the encoder and then the decoder gives the bytes back right-aligned with their length |
| Base58Spec.DecodeOfEncode | src/crypto/base58.c:62-183 | for every byte string and every output at least as long, decoding its encoding succeeds and returns it right-aligned with its exact length |
| Base58Spec.EncodeOfDecode | src/crypto/base58.c:62-183 | for every accepted text, encoding the decoded bytes gives the text back |
| Base58Spec.TablesInverse | src/crypto/base58.c:31-41 | the digit table and the alphabet undo each other both ways |
| Base58Spec.CanonicalDigits | src/crypto/base58.c:159-180 | a digit string without a leading zero is the only one with its value |
| Base58Check.EncodeCheck | src/crypto/base58.c:185-199 | the sealed payload is encoded, or 0 comes back when it is over 128 bytes or the text does not fit |
| Base58Check.DecodeCheck | src/crypto/base58.c:201-217 | accepts exactly the texts that seal a payload, for sizes up to 128, and returns that payload |
| Base58Check.B58CheckBytes | src/crypto/base58.c:132-145 | the version byte exactly when the last four bytes seal the rest and as many ones lead the text as zeros the bytes; each refusal exactly in its case |
| BaseUint.AddAssign | src/crypto/arith_uint256.h:144-154 | addition modulo 2^(32 n), including a number added to itself |
| BaseUint.SubAssign | src/crypto/arith_uint256.h:156-160 | subtraction modulo 2^(32 n), including a number subtracted from itself |
| BaseUint.Increment | src/crypto/arith_uint256.h:182-189 | increment modulo 2^(32 n) though the loop stops at the first limb that does not wrap |
| BaseUint.MulSmallAssign | src/crypto/arith_uint256.cpp:52-62 | product with a 32-bit number modulo 2^(32 n) |
| BaseUint.MulAssign | src/crypto/arith_uint256.cpp:65-80 | schoolbook product modulo 2^(32 n), operands possibly the same |
| BaseUint.ProductFits | src/crypto/arith_uint256.cpp:52-80 | a product of two limbs leaves room in 64 bits for the two addends |
| BaseUint.ShlAssign | src/crypto/arith_uint256.cpp:16-31 | left shift by any amount is multiplication by that power of two, modulo 2^(32 n) |
| BaseUint.ShrAssign | src/crypto/arith_uint256.cpp:34-49 | right shift by any amount is division by that power of two |
| BaseUint.DivAssign | src/crypto/arith_uint256.cpp:83-108 | refuses exactly a zero divisor, and otherwise leaves floor(a / b), the operands possibly the same |
| BaseUint.LongDivision | src/crypto/arith_uint256.cpp:96-106 | the shift-subtract loop: quotient times divisor plus what is left stays the dividend |
| BaseUint.AlignedFits | src/crypto/arith_uint256.cpp:88-95 | aligning the divisor under the dividend loses no bits and overshoots by less than a factor two |
| BaseUint.CompareTo | src/crypto/arith_uint256.cpp:111-121 | the sign of the result is the order of the numbers |
| BaseUint.EqualTo | src/crypto/arith_uint256.cpp:124-136 | true exactly when the number is that 64-bit value |
| BaseUint.Bits | src/crypto/arith_uint256.cpp:161-176 | 0 for zero, else the number r with 2^(r-1) <= value < 2^r |
| Limbs.ShlValue | src/crypto/arith_uint256.cpp:16-31 | limbs put together as the left shift does hold the shifted number |
| Limbs.ShrValue | src/crypto/arith_uint256.cpp:34-49 | limbs put together as the right shift does hold the quotient |
| Compact.SetCompact | src/crypto/arith_uint256.cpp:192-213 | the number becomes mantissa * 256^(size-3) modulo 2^256, the flags say sign and overflow of that very value |
| Compact.OverflowTest | src/crypto/arith_uint256.cpp:208-211 | the three-way test is exactly nominal value >= 2^256 |
| Compact.GetCompact | src/crypto/arith_uint256.cpp:215-238 | produces the canonical code of the number, with the sign bit only for a nonzero mantissa |
| Compact.LeadingBytesBounds | src/crypto/arith_uint256.cpp:217-234 | the three leading bytes of a nonzero number are a mantissa of full width |
| CompactLaws.RoundedDown | src/crypto/arith_uint256.cpp:215-238 | expanding a code gives at most the number, less than one part in 2^15 below it, and exactly it below 2^23 |
| CompactLaws.CompressMonotone | src/crypto/arith_uint256.cpp:215-238 | codes of nonnegative numbers keep their order |
| CompactLaws.NormalUnique | src/crypto/arith_uint256.cpp:215-238 | a number has one canonical code |
| CompactLaws.ExpandOfCompress | src/crypto/arith_uint256.cpp:192-238 | SetCompact after GetCompact: never overflow, the sign asked for, the number up to the rounding |
| CompactLaws.CompressOfExpand | src/crypto/arith_uint256.cpp:192-238 | GetCompact after SetCompact is the identity on every code GetCompact produces |
| CompactLaws.ExpandMonotone | src/crypto/arith_uint256.cpp:192-238 | the round trip keeps order |
| ArithBytes.ArithFromBytes32 | src/crypto/arith_uint256.cpp:240-253 | the limbs hold the big-endian value of the bytes |
| ArithBytes.ArithToBytes32 | src/crypto/arith_uint256.cpp:255-268 | the bytes are the big-endian form of the number |
| ArithBytes.BridgeInverse | src/crypto/arith_uint256.cpp:240-268 | to limbs and back is the identity, and no other limbs give those bytes |
| ArithBytes.ByteOrderIsNumeric | src/crypto/arith_uint256.cpp:240-268 | comparing hashes byte by byte is comparing the numbers |
| Sha2.Transform | src/crypto/sha2.c:780-847 | the looped transform equals the compression over the full message schedule, output possibly over the input state |
| Sha2.TransformUnrolled | src/crypto/sha2.c:723-776 | the unrolled transform equals the same compression |
| Sha2.EightRounds | src/crypto/sha2.c:740-762 | eight macro calls with the registers renamed are eight rounds of the loop |
| Sha2.RoundMacro | src/crypto/sha2.c:705-721 | one macro call is one round, though it writes only two registers |
| Sha2.CircularNext | src/crypto/sha2.c:813-821 | the word written into the 16-word ring is the next word of the full schedule, and the ring goes on holding the last sixteen |
| Sha2Spec.AbsorbConcat | src/crypto/sha2.c:851-907 | compressing the blocks of a concatenation is compressing those of the first part and then those of the second |
| Sha2Spec.ZeroBytesLeast | src/crypto/sha2.c:909-961 | the padding has the least number of zero bytes that completes a block |
| Sha2Spec.PaddingUnambiguous | src/crypto/sha2.c:909-961 | as long as the length field does not overflow, different messages have different padded forms |
| Sha2Spec.HashResumes | src/crypto/sha2.c:692-699 | hashing can be resumed from a stored state after whole blocks |
| Sha2Context.Context.Update | src/crypto/sha2.c:851-907 | appends to what the context has taken in, whatever is in the buffer already |
| Sha2Context.Context.AddBits | src/crypto/sha2.c:106-111 | the low and high words together count the bits of everything taken in |
| Sha2Context.Context.FillLevel | src/crypto/sha2.c:859-862 | the fill of the buffer is read off the bit count correctly |
| Sha2Context.Context.BeginPadding | src/crypto/sha2.c:914-934 | padding in place, with one more block when there is no room for the length, reaches the state of the padded message |
| Sha2Context.Context.StoreLength | src/crypto/sha2.c:936-947 | the length words stored in host order are the length field of the padding |
| Sha2Context.Context.Final | src/crypto/sha2.c:909-961 | the digest is the hash of everything taken in, continued from the starting state; the context is wiped |
| Sha2Context.Context.Resume | src/crypto/sha2.c:692-699 | a context restored from a midstate stands one block after the start |
| Sha2Context.HashPieces | src/crypto/sha2.c:851-961 | for every way of cutting a message into updates the digest is its hash |
| Sha2Context.Raw | src/crypto/sha2.c:983-988 | hashing in one call |
| Sha2Context.PaddedTwoBlocks | src/crypto/sha2.c:1223-1260 | the shape of the padding when the length no longer fits, for both variants |
| Sha2Instances.RotrMoves | src/crypto/sha2.c:137-140 | the rotation macro moves the low bits to the top |
| Sha2Instances.Sha256Lawful | src/crypto/sha2.c:144-218 | SHA-256 with its real constants and functions is an instance of the generic hash |
| Sha2Instances.Sha512Lawful | src/crypto/sha2.c:144-274 | SHA-512 with its real constants and functions is an instance of the generic hash |
| Ripemd.State.Process | src/crypto/ripemd160.c:287-320 | appends to what the state has taken in; behind the fill the buffer is zero |
| Ripemd.State.TakeBlock | src/crypto/ripemd160.c:301-312 | a completed block is compressed and the buffer cleared |
| Ripemd.State.Done | src/crypto/ripemd160.c:322-348 | the digest is the hash of the padded message, the padding zeros coming from the cleared buffer; the state is wiped |
| Ripemd.State.PutLength | src/crypto/ripemd160.c:333-339 | the two length words, low one first, are the eight bytes of the bit count modulo 2^64 |
| Ripemd.ZeroCountLeast | src/crypto/ripemd160.c:322-332 | the padding is the shortest that completes a block |
| Ripemd.PaddingUnambiguous | src/crypto/ripemd160.c:322-348 | below 2^61 bytes different messages have different padded forms |
| Ripemd.HashPieces | src/crypto/ripemd160.c:287-356 | for every way of cutting a message into pieces the digest is the hash of the whole |
| Hmac.Context.Init | src/crypto/hmac.c:30-46 | the inner hash has taken in the key block under the inner pad; long keys are hashed first |
| Hmac.Context.Final | src/crypto/hmac.c:53-60 | the MAC is the outer hash of the outer pad and the inner digest; key pad and hash context are wiped |
| Hmac.Compute | src/crypto/hmac.c:62-68 | equals the definition of HMAC in section 2 of RFC 2104 |
| Hmac.Prepare | src/crypto/hmac.c:70-102 | the two midstates are those of one compressed pad block each, though the inner pad is made by undoing the outer one word by word |
| Hmac.MacFromStates | src/crypto/hmac.c:70-102 | a MAC needs the key only through the two midstates |
| Hmac.KeyStates | src/crypto/hmac.c:144-176 | the midstates are the states after the padded key blocks |
| Pbkdf2.PaddedDigestWords | src/crypto/pbkdf2.c:39-51 | the fixed words behind the digest are the padding of a digest-long message after one block |
| Pbkdf2.HashOfDigest | src/crypto/pbkdf2.c:39-66 | one transform on the pre-padded block equals finishing the hash of a digest after one pad block |
| Pbkdf2.MacOfDigest | src/crypto/pbkdf2.c:58-68 | two transforms from the midstates are the MAC of a digest |
| Pbkdf2.XorOfDigests | src/crypto/pbkdf2.c:63-65 | exclusive or of words is exclusive or of the digests |
| Pbkdf2.Context.Init | src/crypto/pbkdf2.c:30-56 | after it the context holds the first iterate, for any password, salt and block number |
| Pbkdf2.Context.Step | src/crypto/pbkdf2.c:60-66 | one turn of the loop is one more iterate mixed in |
| Pbkdf2.Context.Update | src/crypto/pbkdf2.c:58-68 | adds the iterations asked for, the first call counting the one already there |
| Pbkdf2.Context.Final | src/crypto/pbkdf2.c:70-78 | the key block is the exclusive or of all iterates of section 5.2 of RFC 8018; the context is wiped |
| Pbkdf2.SplitRun | src/crypto/pbkdf2.c:58-78 | splitting the iterations over updates gives the block for their total |
| Pbkdf2.TotalIsSum | src/crypto/pbkdf2.c:58-68 | the total is the sum exactly when the first update asks for at least one iteration, and one more otherwise |
| Pbkdf2.Derive | src/crypto/pbkdf2.c:80-103 | the derived key is the first keylen bytes of the blocks 1, 2, ... in order, as many blocks as it takes |
| Pbkdf2.OneBlock | src/crypto/pbkdf2.c:134-154 | one block with all iterations in one update |
| Miner.ThreeTransformsHash | src/miner.cpp:246-315 | three transforms over the header words are SHA-256 of the 120 bytes |
| Miner.Prepare | src/miner.cpp:246-274 | midstate, second and third block are those of the serialised header |
| Miner.Attempt | src/miner.cpp:308-315 | the words computed for a nonce are the hash of the header with that nonce |
| Miner.FilterIsSafe | src/miner.cpp:317-325 | a header passed over by the test on the top word does not meet the target |
| Miner.Meets | src/miner.cpp:317-334 | the pre-filter and the comparison together decide hash <= target |
| Miner.RunNonceLoop | src/miner.cpp:216-360 | does what trying one header after another does, across timestamp refreshes and nonce wrap; a target that is negative, overflowing or zero is refused |
| Miner.FoundMeetsTarget | src/miner.cpp:317-343 | a header found has a hash of at most the target and differs from the template in timestamp and nonce alone |
| Miner.RefreshTimestamp | src/miner.cpp:301-306 | a refreshed timestamp brings midstate and blocks up to date |
| Miner.ComputeTxFee | src/miner.cpp:97-137 | a fee comes back exactly when every coin exists, no sum wraps around and the inputs cover the outputs, and it is then their difference |
| Miner.CheckedSum | src/miner.cpp:114-128 | the wrap-around test catches exactly the sums of 2^64 and more |
| BlockHeaders.BlockHeader.GetHash | src/primitives/block.cpp:72-86 | whatever setters ran before, the hash returned is the hash of the fields as they are |
| BlockHeaders.BlockHeader.Serialize | src/primitives/block.cpp:107-119 | the 120-byte form |
| BlockHeaders.BlockHeader.SerializeTo | src/primitives/block.cpp:121-146 | writes the same form, or refuses a short buffer without touching it |
| BlockHeaders.Deserialize | src/primitives/block.cpp:148-167 | fails exactly on short data and otherwise returns the header whose form that is |
| BlockHeaders.SerializedInjective | src/primitives/block.cpp:107-167 | a header is determined by its form |
| BlockHeaders.ReadLE | src/primitives/block.cpp:26-42 | the bytes or-ed together are their little-endian value |
| Merkle.ComputeMerkleRoot | src/primitives/block.cpp:211-239 | the level-by-level loop terminates with the root of the recursive pair-and-duplicate tree |
| Merkle.TreeOfPaired | src/primitives/block.cpp:221-237 | going up one level keeps the root of the tree |
| Merkle.RootBinds | src/primitives/block.cpp:211-239 | lists of one length with the same root are equal, unless two different pairs hashed on the way collide |
| Merkle.RepeatedLastLeaf | src/primitives/block.cpp:211-239 | repeating the last of an odd number of leaves keeps the root |
| BlockCodec.Serialize | src/primitives/block.cpp:316-328 | header, count and length-prefixed transactions |
| BlockCodec.GetSerializedSize | src/primitives/block.cpp:306-314 | the size announced is the length written |
| BlockCodec.DeserializeBlock | src/primitives/block.cpp:330-357 | parsing with every bound checked before a read |
| BlockCodec.BlockRoundTrip | src/primitives/block.cpp:316-357 | a block reads back exactly when it has at most 10000 transactions, whatever follows it |
| BlockCodec.TruncatedBlock | src/primitives/block.cpp:330-357 | a block cut off anywhere is refused |
| BlockStore.BlockData.WriteBlockToDisk | src/storage/block_data.cpp:59-97 | appends a record or starts the next file by the 32-bit sum; a position is handed out only for a complete record and is the right one in a file below 4 GiB; records that fit keep every file within the limit, and all earlier records go on standing |
| BlockStore.BlockData.ReadBlockFromDisk | src/storage/block_data.cpp:99-134 | reads what stands at a position, refusing a bad position, magic, size or short file |
| BlockStore.ReadsWhatStands | src/storage/block_data.cpp:99-134 | a standing record reads back as its block exactly when the block is within the size and count limits of reading |
| BlockStore.Kept | src/storage/block_data.cpp:73-93 | appending anything to any file, a broken write included, disturbs no record |
| BlockStore.Run | src/storage/block_data.cpp:59-134 | over any run of complete and broken writes every position handed out reads back its block, and no file passes the limit |
| BlockUndo.SerializeUndo | src/storage/block_undo.cpp:52-63 | the undo record as bytes |
| BlockUndo.DeserializeUndo | src/storage/block_undo.cpp:65-98 | parsing; every read lies inside the data |
| BlockUndo.UndoRoundTrip | src/storage/block_undo.cpp:52-98 | a record reads back exactly when no count passes 10000, whatever follows it |
| BlockUndo.TruncatedUndo | src/storage/block_undo.cpp:65-98 | a record cut off anywhere is refused |
| BlockUndo.CoinReadsBack | src/storage/block_undo.cpp:29-50 | a coin reads back, negative amounts included |
| BlockUndo.CoinCanonical | src/storage/block_undo.cpp:29-50 | bytes read as a coin are that coin's own bytes exactly when both flags are 0 or 1 |
| Scripts.Script.PushData | src/primitives/script.cpp:15-38 | appends the shortest push for the payload |
| Scripts.Script.GetOp | src/primitives/script.cpp:44-101 | reads the next operation and leaves the position where the code leaves it, failures included |
| Scripts.PushRoundTrip | src/primitives/script.cpp:15-101 | the payload and the end position come back exactly for payloads of at most 65535 bytes |
| Scripts.ReadIsThere | src/primitives/script.cpp:44-97 | what is read as a push stands there byte for byte |
| Scripts.ThereIsRead | src/primitives/script.cpp:44-97 | every push that fits its opcode is read back, wherever it stands |
| Scripts.Script.Solver | src/primitives/script.cpp:125-162 | the kind and payload said of the bytes |
| Scripts.NullDataSolved | src/primitives/script.cpp:138-159 | OP_RETURN and any list of pushes carries their concatenation |
| Scripts.SolvedNullData | src/primitives/script.cpp:138-162 | a script is a data carrier exactly when it is OP_RETURN and complete pushes |
| Scripts.SolvedPayment | src/primitives/script.cpp:125-133 | a script is a payment exactly when it is the template for some hash, and that hash is handed out |
| Scripts.Script.IsPayToPubkeyHash | src/primitives/script.cpp:108-123 | true exactly for the template, with its hash |
| Scripts.CreatePayToPubkeyHash | src/primitives/script.cpp:164-170 | builds the template |
| Scripts.CreatedNullData | src/primitives/script.cpp:172-177 | what the data builder makes is recognised with its payload exactly up to 65535 bytes |
| AddrManager.AddrMan.AddLocked | src/net/addrman.cpp:169-201 | merges into an existing entry, or takes the slot if it is free or its holder is stale or terrible; otherwise nothing changes |
| AddrManager.AddrMan.Good | src/net/addrman.cpp:230-269 | the entry stands in its tried slot and nowhere else; the one displaced there goes back to its own new slot exactly if that is empty once the entry has left, and is forgotten exactly if it is not; nothing else changes |
| AddrManager.AddrMan.Attempt | src/net/addrman.cpp:218-228 | only the attempt fields of that entry change |
| AddrManager.AddrMan.Select | src/net/addrman.cpp:271-337 | for every draw an address is found exactly when some entry is not terrible, and it is one of those |
| AddrManager.AddrMan.ScanTable | src/net/addrman.cpp:298-330 | the last round passes over no usable slot |
| AddrManager.SizeIsSlots | src/net/addrman.cpp:357-382 | every entry takes up exactly one slot over both tables |
| AddrManager.SoundAdded | src/net/addrman.cpp:176-199 | adding keeps tables and entries in agreement |
| AddrManager.SoundPromoted | src/net/addrman.cpp:230-258 | promoting keeps them in agreement |
| AddrManager.SoundPutBack | src/net/addrman.cpp:259-268 | so does putting the displaced address back |
| AddrManager.Run | src/net/addrman.cpp:169-382 | after any run from an empty manager Size is NewCount plus TriedCount |
| AddrManager.NewReachBound | src/net/addrman.cpp:138-146 | for any mixing function one source group reaches at most 64 new buckets |
| AddrManager.TriedReachBound | src/net/addrman.cpp:148-153 | and one address group at most 8 tried buckets |
| AddrManager.OccupiedBound | src/net/addrman.cpp:138-146 | so in any table the entries from one source group stand in at most 64 new buckets |
| NetFraming.Node.HandleRead | src/net/net.cpp:656-718 | one read takes the peer to the state of the read model: overflow, extraction, and the penalties for bad messages |
| NetFraming.RoundTrip | src/net/net.cpp:70-115 | deserialising a serialised message gives it and its length, whatever follows |
| NetFraming.DrainStream | src/net/net.cpp:678-717 | the extraction loop hands over the complete messages and leaves the incomplete one |
| NetFraming.ReadAll | src/net/net.cpp:656-718 | for any cut of a fitting stream into reads, exactly the complete messages are handed over in order and the buffer holds the incomplete rest |
| NetFraming.FramedUnique | src/net/net.cpp:656-718 | what has arrived determines what was handed over and what is buffered |
| NetFraming.LongPayloadDropped | src/net/net.cpp:656-676 | for every message that does not fit with what a read can bring in behind it, some cut of the stream ends with the peer disconnected and the message lost |
| NetInFlight.Tracker.ShouldRequestBlock | src/net/net.cpp:1201-1230 | grants exactly when the hash is not in flight and neither limit is reached, after dropping timed out requests |
| NetInFlight.Tracker.ShouldRequestTx | src/net/net.cpp:1232-1259 | the same for transactions with their limits |
| NetInFlight.Tracker.ClearInFlightForPeer | src/net/net.cpp:1278-1287 | drops the requests to one peer and no others |
| NetInFlight.RunBounded | src/net/net.cpp:1201-1293 | in every state of every run at most 1024 blocks are in flight and 16 with one peer |
| NetInFlight.RegrantNeedsRelease | src/net/net.cpp:1201-1293 | a hash is granted again only after it or its peer was cleared or the timeout passed |
| NetInFlight.StaysInFlight | src/net/net.cpp:1201-1230 | until then it stays in flight |
| NetProgress.Monitor.CheckDownloadProgress | src/net/net.cpp:1460-1564 | whoever is dropped was the oldest holder at every check for over 60 seconds, those aside at which all requests were ahead of the clock, or has a request over the download limit; whoever is over the limit is dropped; at most one peer stays marked |
| NetProgress.Monitor.NoteBlocker | src/net/net.cpp:1481-1519 | exactly the blocker is marked, since the first check of its streak; when there is none, marks of peers still downloading stay |
| NetProgress.TooOldByOldest | src/net/net.cpp:1521-1544 | the oldest request of a peer decides whether it is too slow |
| NetProgress.Monitor.DropAll | src/net/net.cpp:1547-1563 | the peers picked are gone with their requests, and no others |
| NetPeers.AddrRun | src/net/net.cpp:880-931 | over any run with a non-decreasing clock one peer gets at most 1000 addresses and a tenth of one per second accepted |
| NetPeers.AddrQuota.HandleAddr | src/net/net.cpp:863-932 | the accepted addresses are the first acceptable ones listed, as far as tokens last; malformed and oversized messages are penalised |
| NetPeers.Connections.CheckConnectionLimitForIP | src/net/net.cpp:231-252 | a slot is taken exactly below three live connections |
| NetPeers.Connections.Accept | src/net/net.cpp:395-493 | within the limit of its address, and only after an eviction when full, which fails without enough peers to choose from; counts stay equal to live connections through acceptance, refusal and eviction |
| NetPeers.Connections.ConnectToAddress | src/net/net.cpp:536-623 | and through outgoing connections that fail |
| NetPeers.Connections.DisconnectNode | src/net/net.cpp:2111-2130 | and through disconnection, repeated or not |
| NetPeers.LimitHolds | src/net/net.cpp:231-264 | so no address ever holds more than three connections |
| WalletCoins.FindOffers | src/node/wallet_manager.cpp:638-700 | the spendable coins: mature chain coins not held, then own unspent outputs of waiting transactions |
| WalletCoins.OffersFree | src/node/wallet_manager.cpp:652-688 | no held outpoint is offered |
| WalletCoins.OffersDistinct | src/node/wallet_manager.cpp:638-700 | a coin is offered once exactly when no ripe coin of the unspent set that is not held is at the same time an own, positive, unspent output of a waiting transaction |
| WalletCoins.SelectCoins | src/node/wallet_manager.cpp:702-711 | takes coins from the front until the sum is reached |
| WalletCoins.TakenIsLeast | src/node/wallet_manager.cpp:702-724 | every shorter prefix falls short, and the sum is reached whenever some prefix reaches it |
| WalletCoins.Conserved | src/node/wallet_manager.cpp:702-763 | inputs are amount, change and fee, the fee growing by change not worth paying out, at most the dust threshold |
| Wallets.Wallet.CreateTransaction | src/node/wallet_manager.cpp:579-772 | succeeds exactly when the request is allowed, the coins taken cover amount and fee and have their keys here, and a change worth paying has room for an address; it then spends exactly those coins, pays amount, message and change, and holds them under its id, all free before; a refusal changes nothing |
| Wallets.Wallet.Fund | src/node/wallet_manager.cpp:638-724 | refuses exactly when no prefix of the offers reaches the sum |
| Wallets.Wallet.ReleaseOutpointsFor | src/node/wallet_manager.cpp:565-572 | lets go of one transaction's outpoints and no others |
| Wallets.Wallet.SignTransaction | src/node/wallet_manager.cpp:774-918 | holds follow the transaction to its new id; all leaves it calls for are spent or none; a missing key changes nothing but signatures |
| Wallets.Wallet.MoveHolds | src/node/wallet_manager.cpp:818-827 | re-keying keeps pending transactions and holds in agreement |
| Wallets.Wallet.ProveInputs | src/node/wallet_manager.cpp:838-886 | proofs are made exactly when the leaves are different from each other and unspent |
| Wallets.Wallet.MarkAll | src/node/wallet_manager.cpp:888-891 | the wallet's map and the noise file's map mark the same leaves |
| Wallets.AgreeBuilt | src/node/wallet_manager.cpp:765-771 | a transaction over free coins joins the pending ones under a new id |
| Wallets.AgreeSigned | src/node/wallet_manager.cpp:818-827 | renaming a pending transaction keeps holds and inputs equal |
| Wallets.PendingDisjoint | src/node/wallet_manager.cpp:765-771 | two pending transactions never spend the same coin |
| Wallets.ProofsKeepId | src/node/wallet_manager.cpp:838-886 | adding the proofs does not change the id the coins are held under |
| Wallets.Run | src/node/wallet_manager.cpp:565-918 | over any run of building, signing and releasing, pending transactions have disjoint inputs and no leaf is spent twice |
| LeafMap.Mark | src/node/wallet_manager.cpp:1060-1067 | marks one leaf and no other |
| LeafMap.SaveAndLoad | src/node/wallet_manager.cpp:1103-1110 | the trimmed saved map reloads to the same leaves |
| LeafMap.Trimmed | src/node/wallet_manager.cpp:1105-1107 | only zero bytes are cut off, and all at the end |
| LeafMap.Loaded | src/node/wallet_manager.cpp:1279-1290 | a saved map of allowed length comes back at full size with the same leaves |
| LeafMap.LoadedFromPointer | src/node/wallet_manager.cpp:1291-1295 | an old file marks exactly the leaves before its pointer |
| LeafMap.CountIsSize | src/wallet/noise_otp.cpp:316-323 | the bit count is the number of leaves marked |
| NoiseProofs.NoiseFile.BuildTree | src/wallet/noise_otp.cpp:200-226 | the levels end in the Merkle root of the committed leaves |
| NoiseProofs.NoiseFile.CreateProofAt | src/wallet/noise_otp.cpp:262-289 | the proof holds the leaf, its binding and its path, for every index in the pool |
| NoiseProofs.PathReaches | src/wallet/noise_otp.cpp:60-73 | the path of a leaf leads to the root |
| NoiseProofs.PathForced | src/wallet/noise_otp.cpp:60-73 | nothing else at that position leads there, unless a pair hashed on the way collides with a different pair of the tree |
| NoiseProofs.VerifyProof | src/wallet/noise_otp.cpp:361-395 | accepts exactly proofs of the right shape, sides, binding and root |
| NoiseProofs.AcceptedExactly | src/wallet/noise_otp.cpp:262-395 | a pool accepts for a transaction exactly the proof it makes for that leaf and transaction, unless the leaf shown or a pair hashed in checking collides with a different one of the pool |
| MempoolObject.MakeCall | src/consensus/mempool.cpp:442-634 | any call on the pool takes the step of the run model for it |
| MempoolObject.Run | src/consensus/mempool.cpp:442-634 | the pool made by any list of calls has exactly the entries the run model ends with, so every theorem about runs holds of it |
| PoolRuns.NextKeepsAncestorBound | src/consensus/mempool.cpp:491-503 | one step keeps every ancestor set within 25 unless it admits a transaction something in the pool already spends |
| Pbkdf2.BlockCountIsLeast | src/crypto/pbkdf2.c:80-92 | that number of blocks is the only one that covers the key with no block to spare |
| Merkle.NextLevel | src/primitives/block.cpp:222-235 | the inner loop hashes neighbours together, a last one without a neighbour with itself |
| BlockUndo.ReadTxUndo | src/storage/block_undo.cpp:77-92 | one transaction of the record: count, limit and bounds checked before its coins are read |
| WalletCoins.SumsFit | src/node/wallet_manager.cpp:702-711 | while amount, fee and the largest coin together stay below 2^63, every sum on the way is a 64-bit number |
| Wallets.Wallet.Choose | src/node/wallet_manager.cpp:588-724 | the checks in order, and then the coins taken from the offers, all free; fails exactly when the request is not allowed or the offers fall short |
| Wallets.ChosenFunded | src/node/wallet_manager.cpp:702-713 | coins that reach the sum reach it by at most the last of them |
| RollingFee.DecayNeverRaises | src/consensus/mempool.cpp:94-115 | a decay leaves the rate between zero and what it was |
| RollingFee.FeeNeverFalls | src/consensus/mempool.cpp:406-424 | trimming never lowers the rolling rate |
| RollingFee.FeeAboveEvicted | src/consensus/mempool.cpp:406-424 | every entry evicted went with one cheaper than all survivors, and the rolling rate ends at least an increment above the rate of that one |
| PoolGraph.AncestorsAfter | src/consensus/mempool.cpp:375-398 | filing an entry adds it and its ancestors to the ancestry of exactly those that spend it, themselves or through an ancestor, and changes no other |
| PoolGraph.BoundExactly | src/consensus/mempool.cpp:491-503 | filing an entry keeps every ancestry within 25 exactly when, over the pool before, its own and that of every entry it would join stay within 25 |
| PoolRuns.FiledBoundExactly | src/consensus/mempool.cpp:491-547 | the same for filing with trimming: the condition is enough, and when nothing has to be evicted it is exact |
| PoolRuns.EvictedBoundExactly | src/consensus/mempool.cpp:491-547 | for filing with whatever has to be evicted: the bound holds exactly when, over the pool before, the newcomer is among the families of the fewest cheapest entries that must go, or nothing that stays has too large an ancestry with it |
| PoolRuns.AdmittedBoundExactly | src/consensus/mempool.cpp:442-547 | for a whole admission, from expiry to eviction, admitted or refused: the bound survives exactly under that condition |
| PoolRuns.NextBoundExactly | src/consensus/mempool.cpp:442-582 | for every event: the bound survives exactly when it is no admission, or one that is refused, or one that meets that condition |
| PoolRuns.RunBoundExactly | src/consensus/mempool.cpp:442-582 | over every run from the empty pool: the bound holds in every state on the way exactly when every admission keeps it |
| PoolEviction.TrimmedExactly | src/consensus/mempool.cpp:406-424 | evicting the cheapest family again and again takes exactly the families of the fewest cheapest entries without which the rest fits |
| PoolEviction.FamiliesWithExactly | src/consensus/mempool.cpp:339-363 | what descends from given entries once a newcomer is filed, in terms of the pool before: it joins if it spends one of them, and brings in what spends it |
| PoolEviction.FiledAndTrimmed | src/consensus/mempool.cpp:525-547 | what filing and trimming leave, and whether the newcomer stays, in terms of the pool before |
| PoolEviction.TrimBoundExactly | src/consensus/mempool.cpp:491-547 | the ancestor bound after filing and trimming, decided over the pool before |
| RollingFee.HalvedByHalflife | src/consensus/mempool.cpp:94-115 | after one halflife half of the rate is left, or nothing below half an increment |
| RollingFee.DecayInSteps | src/consensus/mempool.cpp:94-115 | however often the rate is asked for in between, it has decayed to the same later |
| PoolWitnesses.BreaksAncestorBound | src/consensus/mempool.cpp:491-503 | a run from the empty pool that ends with an entry of 25 ancestors: a chain of 25, any one of it removed, the chain extended, that one admitted again |
| PoolWitnesses.LinkAdmitted | src/consensus/mempool.cpp:442-547 | each admission of that run passes every check |
| MempoolPolicy.ArrivalOrderExactly | src/consensus/mempool.cpp:597-609 | equal rates come out in order of admission, as the header promises, exactly when no two entries handed out pay the same rate |
| MempoolPolicy.WholeArrivalOrderExactly | src/consensus/mempool.cpp:597-609 | when all entries are handed out: exactly when no two entries of the pool pay the same rate |
| PoolWitnesses.TiesNewestFirst | src/consensus/mempool.cpp:597-609 | two entries admitted one after the other at the same rate are handed out newest first |
| Merkle.RootOfCopies | src/primitives/block.cpp:211-239 | the root of n copies of a leaf depends on the height of the tree alone |
| Merkle.SharedRoot | src/primitives/block.cpp:211-239 | for any hash and any two positive lengths there are lists of those lengths with one root |
| Merkle.RootsBindEqualLengths | src/primitives/block.cpp:211-239 | roots bind the lists of two positive lengths, collisions aside, exactly when the lengths are equal |
| WalletCoins.InChainOffers | src/node/wallet_manager.cpp:646-657 | what is offered from the unspent set: its items that are ripe and not held |
| WalletCoins.InPoolOffers | src/node/wallet_manager.cpp:659-700 | what is offered from the pool: the own unspent positive outputs of its transactions, not held |
| Wallets.OfferedTwice | src/node/wallet_manager.cpp:638-700 | one coin of the unspent set whose transaction still waits is offered twice |
| Wallets.SpendsOneCoinTwice | src/node/wallet_manager.cpp:702-749 | a payment for more than that coin is worth then goes through, and both its inputs name that coin |
| NetFraming.DeliveredExactly | src/net/net.cpp:656-718 | no cut of a stream loses a message exactly when every payload and what one read can bring in behind its last byte stay within the limit together |
| NetFraming.FitsWhateverFollows | src/net/net.cpp:665-676 | payloads up to MAX_PROTOCOL_MSG_SIZE - READ_CHUNK_SIZE + 1 always fit, and with a full read behind them only those |
| BlockStore.HeaderTruncates | src/storage/block_data.cpp:79-84 | the header holds the low four bytes of the size |
| NetEviction.EvictOneInboundPeer | src/net/net.cpp:1335-1458 | the peer evicted is the newest in the most numerous group, the youngest of them at a tie, of those the five rounds of protection leave, so one no criterion protects; with at most 20 peers nobody is, with more somebody is |
| NetEviction.Protect | src/net/net.cpp:1370-1408 | five rounds, by network group, ping, transactions, blocks and age, each taking its quota of the best off what the one before left |
| NetEviction.RoundsLeave | src/net/net.cpp:1370-1408 | they leave the rounded up half of those beyond 20, and whoever is left has, for every criterion, at least as many others no worse as it protects |
| NetEviction.ProtectBest | src/net/net.cpp:1370-1375 | takes exactly the k best off the list, or all |
| NetEviction.WorstGroup | src/net/net.cpp:1410-1431 | the most numerous group, among those the one whose oldest member is youngest |

## Left out

- Threads, mutexes, sockets, timers, fsync and rename: each locked method is one step, a file is a byte sequence,
  and clocks, random draws and the outcome of a write or a connection attempt are parameters.
- Machine integers are modelled with their width where it matters (limbs, SHA words, bit counts, heights, fee
  sums of the miner, coin values); other counters are unbounded.
- MempoolObject.Mempool.GetMinFeeRateLocked: the rolling fee is a real number instead of a double, and two to the power
  of a real is a parameter that obeys the laws of that power.
- MempoolObject.Mempool.AddTransaction: the 64-bit sequence counter does not wrap.
- MempoolObject.Mempool.InsertEntry: maps are keyed by values instead of the hex strings the code builds from
  them, and a noise proof is the list of its leaves instead of the blob it is parsed from.
- Pool snapshots: saving and loading the pool are not modelled.
- BaseUint.SubAssign: decrement, the bitwise operators, the forms taking a 64-bit operand and hex output are left
  out; they are the same loops or copies.
- Base58Check.B58CheckBytes: for a text of ones alone and bytes of zeros alone the code reads past the end of its
  buffer; the model returns the refusal -3 there.
- Sha2Context.Context.Update: the word buffer is kept as bytes and read as words by a host-order conversion.
  SHA-1, SHA-384 and the hex forms are left out.
- Ripemd.State.Compress: the compression function is a parameter; its rounds and its wiping of temporaries are
  left out.
- Pbkdf2.Derive: block counts do not wrap at 2^32.
- Miner.RunNonceLoop: the world outside is a finite list of moments, one for each turn; rate reporting, worker
  threads and template building are left out.
- BlockStore.BlockData.WriteBlockToDisk: the file number is not persisted and the index database is left out.
- Hmac.Context.Init: the wiping of local key buffers on return is left out here and in the functions around it.
- BlockCodec.BlockRoundTrip: transactions have an abstract codec whose two halves undo each other, because
  their own is a stub in this tree.
- Merkle.RootBinds: the pair hash is any function; that the pairs hashed on the way do not collide is a condition of
  the lemma.
- Scripts.Script.Solver: only the script kinds of this file; script execution does not exist in the code.
- AddrManager.AddrMan.Select: the chance of an entry is an arbitrary coin; saving, loading and listing addresses are
  left out, and so are the mixing function and the grouping of addresses, which are arbitrary functions. After
  loading from disk the code may list an address in both tables, so the run theorem starts from an empty manager.
- NetFraming.Node.HandleRead: what handling a message does is summed up by whether the peer stays connected.
- NetProgress.Monitor.CheckDownloadProgress: time limits are real numbers.
- NetPeers.AddrQuota.HandleAddr: tokens are real numbers and the time is positive; relaying learned addresses is
  left out.
- NetEviction.ProtectBest: peers come with their groups, pings and times; which of several peers of one rank is taken,
  and which of several groups of one size and age, is left open.
- Wallets.Wallet.CreateTransaction: the destination comes decoded, and amounts are added as integers. The code
  adds 64-bit numbers, which is the same as long as amount, fee and the largest coin together stay below 2^63
  (`WalletCoins.SumsFit`). The total of immature rewards, used in an error message only, is left out.
- Wallets.Wallet.SignTransaction: keys, signatures, transaction ids and leaf derivation are arbitrary functions,
  the ids telling transactions apart but for their proofs. Encryption, addresses as text, mnemonics and the other
  fields of the wallet file are left out.
- NoiseProofs.NoiseFile.BuildTree: how leaves are drawn from physical noise and the byte form of a proof are left
  out.
- Chain state, the unspent set, transaction validation, the RPC server, configuration and the programs that only
  print are left out; what they compute is simple or only displayed.
