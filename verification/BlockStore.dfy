/** The block files: records appended, never rewritten. */
module BlockStore {
  import opened Bytes
  import opened BlockHeaders
  import opened Wrappers
  import opened BlockCodec

  const MAX_BLOCK_FILE_SIZE := 128 * 1024 * 1024
  const MAX_BLOCK_SIZE := 6 * 1024 * 1024
  const RECORD_HEADER := 8

  function MainnetMagic(): (m: seq<Byte>)
    ensures |m| == 4
  {
    [0xb6, 0xfd, 0xfa, 0x84]
  }

  datatype DiskBlockPos = DiskBlockPos(nFile: int, nPos: nat)

  /** How a write ended: all of it on disk, or an error after some of its bytes got there. */
  datatype Outcome = Complete | Broken(bytes: nat)

  type Files = map<nat, seq<Byte>>

  function FileOf(files: Files, n: nat): seq<Byte> {
    if n in files then files[n] else []
  }

  /** A block behind the magic and its length. */
  function Record(data: seq<Byte>): (r: seq<Byte>)
    ensures |r| == RECORD_HEADER + |data|
  {
    RecordHeader(|data|) + data
  }

  function RecordHeader(dataSize: nat): (h: seq<Byte>)
    ensures |h| == RECORD_HEADER
  {
    MainnetMagic() + LE(dataSize, 4)
  }

  /** These bytes are found in a file at an offset. */
  predicate Found(file: seq<Byte>, at: nat, bytes: seq<Byte>) {
    at + |bytes| <= |file| && forall i :: 0 <= i < |bytes| ==> bytes[i] == file[at + i]
  }

  lemma FoundSlice(file: seq<Byte>, at: nat, bytes: seq<Byte>)
    requires Found(file, at, bytes)
    ensures file[at..at + |bytes|] == bytes
  {}

  lemma FoundParts(file: seq<Byte>, at: nat, x: seq<Byte>, y: seq<Byte>)
    requires Found(file, at, x + y)
    ensures Found(file, at, x) && Found(file, at + |x|, y)
  {
    forall i | 0 <= i < |x|
      ensures x[i] == file[at + i]
    {
      assert (x + y)[i] == x[i];
    }
    forall i | 0 <= i < |y|
      ensures y[i] == file[at + |x| + i]
    {
      assert (x + y)[|x| + i] == y[i];
    }
  }

  lemma FoundAppended(file: seq<Byte>, at: nat, bytes: seq<Byte>, more: seq<Byte>)
    requires Found(file, at, bytes)
    ensures Found(file + more, at, bytes)
  {}

  lemma FoundLast(file: seq<Byte>, bytes: seq<Byte>)
    ensures Found(file + bytes, |file|, bytes)
  {}

  /** The record of this data stands at this position. */
  predicate StandsAt(files: Files, pos: DiskBlockPos, data: seq<Byte>) {
    pos.nFile >= 0 && pos.nFile in files && Found(files[pos.nFile], pos.nPos, Record(data))
  }

  /** Files only grow at the end. */
  predicate Grown(files: Files, files': Files) {
    forall n :: n in files ==> n in files' && files[n] <= files'[n]
  }

  lemma StillStands(files: Files, n: nat, more: seq<Byte>, pos: DiskBlockPos, data: seq<Byte>)
    requires StandsAt(files, pos, data)
    ensures StandsAt(Appended(files, n, more), pos, data)
  {
    if pos.nFile == n {
      FoundAppended(files[n], pos.nPos, Record(data), more);
    }
  }

  /** As much of the bytes as reach the disk. */
  function Reached(bytes: seq<Byte>, outcome: Outcome): seq<Byte>
    requires outcome.Broken? ==> outcome.bytes <= |bytes|
  {
    if outcome.Complete? then bytes else bytes[..outcome.bytes]
  }

  function Appended(files: Files, n: nat, more: seq<Byte>): Files {
    files[n := FileOf(files, n) + more]
  }

  /** No file passes the limit. */
  ghost predicate WithinLimit(files: Files) {
    forall n :: n in files ==> |files[n]| <= MAX_BLOCK_FILE_SIZE
  }

  /** A size as the 32-bit number it is kept in. */
  function Size32(n: nat): U32 {
    n % WORD
  }

  /** The next file is begun when the 32-bit sum passes the limit. */
  predicate Rolls(file: seq<Byte>, data: seq<Byte>) {
    Size32(Size32(|file|) + Size32(|data|) + RECORD_HEADER) > MAX_BLOCK_FILE_SIZE
  }

  lemma GrownAppended(files: Files, n: nat, more: seq<Byte>)
    ensures Grown(files, Appended(files, n, more))
  {}

  /** A record that fits a file, complete or not, goes where there is room for it. */
  lemma LimitKept(files: Files, last: nat, n: nat, data: seq<Byte>, outcome: Outcome)
    requires outcome.Broken? ==> outcome.bytes <= RECORD_HEADER + |data|
    requires n == last + (if Rolls(FileOf(files, last), data) then 1 else 0) && last + 1 !in files
    ensures WithinLimit(files) && RECORD_HEADER + |data| <= MAX_BLOCK_FILE_SIZE
      ==> WithinLimit(Appended(files, n, Reached(Record(data), outcome)))
  {
    if WithinLimit(files) && RECORD_HEADER + |data| <= MAX_BLOCK_FILE_SIZE {
      assert |FileOf(files, last)| <= MAX_BLOCK_FILE_SIZE;
      assert |FileOf(files, n)| + RECORD_HEADER + |data| <= MAX_BLOCK_FILE_SIZE;
    }
  }

  class BlockData<T(!new)> {
    const codec: TxCodec<T>
    var mLastBlockFile: nat
    var files: Files

    /** Every position handed out, with the block written there. */
    ghost var written: seq<(DiskBlockPos, Block<T>)>

    ghost predicate Valid()
      reads this
    {
      NoneAfterLast() && AllStand()
    }

    ghost predicate NoneAfterLast()
      reads this
    {
      forall n :: n in files ==> n <= mLastBlockFile
    }

    ghost predicate AllStand()
      reads this
    {
      forall w :: w in written ==> StandsAt(files, w.0, SerializedBlock(codec, w.1))
    }

    constructor (codec: TxCodec<T>)
      ensures Valid() && this.codec == codec && written == [] && mLastBlockFile == 0 && files == map[]
    {
      this.codec := codec;
      mLastBlockFile, files, written := 0, map[], [];
    }

    /** Append as much of the bytes as reach the disk. */
    method Append(n: nat, bytes: seq<Byte>, outcome: Outcome) returns (ok: bool)
      requires AllStand() && (outcome.Broken? ==> outcome.bytes <= |bytes|)
      modifies this`files
      ensures AllStand()
      ensures ok <==> outcome.Complete?
      ensures files == Appended(old(files), n, Reached(bytes, outcome))
    {
      ok := outcome.Complete?;
      Kept(codec, written, files, n, Reached(bytes, outcome));
      files := Appended(files, n, Reached(bytes, outcome));
    }

    /** Append a block to the last file, or to a new one when it would grow too long. The position is
        handed out only if the whole record was written; it is the right one in a file below 4 GiB. */
    method WriteBlockToDisk(block: Block<T>, outcome: Outcome) returns (r: Result<DiskBlockPos>)
      requires Valid()
      requires outcome.Broken? ==> outcome.bytes <= RECORD_HEADER + |SerializedBlock(codec, block)|
      modifies this
      ensures Valid() && Grown(old(files), files)
      ensures r.Ok? <==> outcome.Complete?
      ensures var data := SerializedBlock(codec, block);
        && mLastBlockFile == old(mLastBlockFile) + (if Rolls(FileOf(old(files), old(mLastBlockFile)), data) then 1 else 0)
        && files == Appended(old(files), mLastBlockFile, Reached(Record(data), outcome))
        && (WithinLimit(old(files)) && RECORD_HEADER + |data| <= MAX_BLOCK_FILE_SIZE ==> WithinLimit(files))
      ensures r.Ok? ==> r.value == DiskBlockPos(mLastBlockFile, Size32(|FileOf(old(files), mLastBlockFile)|))
      ensures written == old(written)
        + if r.Ok? && |FileOf(old(files), mLastBlockFile)| < WORD then [(r.value, block)] else []
    {
      var data := Serialize(codec, block);
      ghost var before, last := files, mLastBlockFile;
      var pos := PickFile(data);
      var ok := Append(mLastBlockFile, RecordHeader(Size32(|data|)) + data, outcome);
      HeaderTruncates(|data|);
      assert files == Appended(before, mLastBlockFile, Reached(Record(data), outcome));
      LimitKept(before, last, mLastBlockFile, data, outcome);
      GrownAppended(before, mLastBlockFile, Reached(Record(data), outcome));
      if !ok {
        return Err("Failed to write block to disk");
      }
      Note(pos, block, data, before);
      r := Ok(pos);
    }

    /** Note the position of a record just written. */
    ghost method Note(pos: DiskBlockPos, block: Block<T>, data: seq<Byte>, before: Files)
      requires AllStand() && pos.nFile >= 0 && pos.nPos == Size32(|FileOf(before, pos.nFile)|)
      requires data == SerializedBlock(codec, block) && files == Appended(before, pos.nFile, Record(data))
      modifies this`written
      ensures AllStand()
      ensures written == old(written) + if |FileOf(before, pos.nFile)| < WORD then [(pos, block)] else []
    {
      if |FileOf(before, pos.nFile)| < WORD {
        NewStands(before, pos.nFile, data);
        OneMoreStands(codec, written, files, pos, block);
        written := written + [(pos, block)];
      }
    }

    /** The end of the last file, or the beginning of the next. */
    method PickFile(data: seq<Byte>) returns (pos: DiskBlockPos)
      requires NoneAfterLast()
      modifies this`mLastBlockFile
      ensures mLastBlockFile == old(mLastBlockFile) + (if Rolls(FileOf(files, old(mLastBlockFile)), data) then 1 else 0)
      ensures NoneAfterLast() && old(mLastBlockFile) + 1 !in files
      ensures pos == DiskBlockPos(mLastBlockFile, Size32(|FileOf(files, mLastBlockFile)|))
    {
      var currentSize := Size32(|FileOf(files, mLastBlockFile)|);
      if Size32(currentSize + Size32(|data|) + RECORD_HEADER) > MAX_BLOCK_FILE_SIZE {
        mLastBlockFile := mLastBlockFile + 1;
        currentSize := 0;
      }
      pos := DiskBlockPos(mLastBlockFile, currentSize);
    }

    /** Read the record at a position. */
    method ReadBlockFromDisk(pos: DiskBlockPos) returns (r: Result<Block<T>>)
      ensures r == ReadAt(codec, files, pos)
    {
      if pos.nFile == -1 {
        return Err("null position");
      }
      if pos.nFile < 0 || pos.nFile !in files {
        return Err("cannot open block file");
      }
      var file := files[pos.nFile];
      if pos.nPos + RECORD_HEADER > |file| {
        return Err("short read");
      }
      if file[pos.nPos..pos.nPos + 4] != MainnetMagic() {
        return Err("invalid magic in block file");
      }
      var dataSize := ReadLE(file, pos.nPos + 4, 4);
      if dataSize == 0 || dataSize > MAX_BLOCK_SIZE {
        return Err("invalid block size");
      }
      if pos.nPos + RECORD_HEADER + dataSize > |file| {
        return Err("short read");
      }
      r := DeserializeBlock(codec, file[pos.nPos + RECORD_HEADER..pos.nPos + RECORD_HEADER + dataSize]);
    }
  }

  /** Appending to any file leaves every record standing. */
  lemma Kept<T>(c: TxCodec<T>, written: seq<(DiskBlockPos, Block<T>)>, files: Files, n: nat, more: seq<Byte>)
    requires forall w :: w in written ==> StandsAt(files, w.0, SerializedBlock(c, w.1))
    ensures forall w :: w in written ==> StandsAt(Appended(files, n, more), w.0, SerializedBlock(c, w.1))
  {
    forall w | w in written
      ensures StandsAt(Appended(files, n, more), w.0, SerializedBlock(c, w.1))
    {
      StillStands(files, n, more, w.0, SerializedBlock(c, w.1));
    }
  }

  lemma OneMoreStands<T>(c: TxCodec<T>, written: seq<(DiskBlockPos, Block<T>)>, files: Files, pos: DiskBlockPos, block: Block<T>)
    requires forall w :: w in written ==> StandsAt(files, w.0, SerializedBlock(c, w.1))
    requires StandsAt(files, pos, SerializedBlock(c, block))
    ensures forall w :: w in written + [(pos, block)] ==> StandsAt(files, w.0, SerializedBlock(c, w.1))
  {}

  /** The header keeps the low four bytes of the size anyway. */
  lemma HeaderTruncates(n: nat)
    ensures RecordHeader(Size32(n)) == RecordHeader(n)
  {
    var low, high := Size32(n), n / WORD;
    assert Pow(256, 4) == WORD by { assert Pow(256, 2) == 0x1_0000; }
    assert n == low + WORD * high;
    LowBytes(low, high, 4);
  }

  lemma {:induction false} LowBytes(low: nat, high: nat, k: nat)
    ensures LE(low + Pow(256, k) * high, k) == LE(low, k)
  {
    if k > 0 {
      var p := Pow(256, k - 1);
      assert Pow(256, k) * high == 256 * (p * high);
      assert (low + 256 * (p * high)) % 256 == low % 256;
      assert (low + 256 * (p * high)) / 256 == low / 256 + p * high;
      LowBytes(low / 256, high, k - 1);
    }
  }

  lemma NewStands(files: Files, n: nat, data: seq<Byte>)
    ensures StandsAt(Appended(files, n, Record(data)), DiskBlockPos(n, |FileOf(files, n)|), data)
  {
    FoundLast(FileOf(files, n), Record(data));
  }

  function ReadAt<T>(c: TxCodec<T>, files: Files, pos: DiskBlockPos): Result<Block<T>> {
    if pos.nFile == -1 then Err("null position")
    else if pos.nFile < 0 || pos.nFile !in files then Err("cannot open block file")
    else
      var file := files[pos.nFile];
      if pos.nPos + RECORD_HEADER > |file| then Err("short read")
      else if file[pos.nPos..pos.nPos + 4] != MainnetMagic() then Err("invalid magic in block file")
      else
        var dataSize := FromLE(file[pos.nPos + 4..pos.nPos + RECORD_HEADER]);
        if dataSize == 0 || dataSize > MAX_BLOCK_SIZE then Err("invalid block size")
        else if pos.nPos + RECORD_HEADER + dataSize > |file| then Err("short read")
        else ParsedBlock(c, file[pos.nPos + RECORD_HEADER..pos.nPos + RECORD_HEADER + dataSize])
  }

  /** A record standing at a position reads back as its block, provided the block is one that reading
      accepts. */
  lemma ReadsWhatStands<T(!new)>(c: TxCodec<T>, files: Files, pos: DiskBlockPos, b: Block<T>)
    requires Lawful(c) && StandsAt(files, pos, SerializedBlock(c, b)) && |SerializedBlock(c, b)| < WORD
    ensures ReadAt(c, files, pos) == Ok(b) <==>
      |SerializedBlock(c, b)| <= MAX_BLOCK_SIZE && |b.transactions| <= MAX_TRANSACTIONS
  {
    var data, file := SerializedBlock(c, b), files[pos.nFile];
    Splits(file, pos.nPos, MainnetMagic(), LE(|data|, 4), data, Record(data));
    ReadsBack(file, pos.nPos + 4, |data|);
    ParsesIff(c, b);
  }

  lemma Splits(file: seq<Byte>, at: nat, x: seq<Byte>, y: seq<Byte>, z: seq<Byte>, all: seq<Byte>)
    requires all == x + y + z && |x| == 4 && |y| == 4 && Found(file, at, all)
    ensures at + RECORD_HEADER + |z| <= |file|
    ensures file[at..at + 4] == x
    ensures file[at + 4..at + RECORD_HEADER] == y
    ensures file[at + RECORD_HEADER..at + RECORD_HEADER + |z|] == z
  {
    FoundParts(file, at, x + y, z);
    FoundParts(file, at, x, y);
    FoundSlice(file, at, x);
    FoundSlice(file, at + |x|, y);
    FoundSlice(file, at + |x| + |y|, z);
  }

  lemma ParsesIff<T(!new)>(c: TxCodec<T>, b: Block<T>)
    requires Lawful(c) && |SerializedBlock(c, b)| < WORD
    ensures ParsedBlock(c, SerializedBlock(c, b)) == Ok(b) <==> |b.transactions| <= MAX_TRANSACTIONS
  {
    EnoughBytes(c, b.transactions);
    BlockRoundTrip(c, b, []);
    assert SerializedBlock(c, b) + [] == SerializedBlock(c, b);
  }

  lemma {:induction false} EnoughBytes<T>(c: TxCodec<T>, txs: seq<T>)
    ensures |AllTxBytes(c, txs)| >= 4 * |txs|
  {
    if txs != [] { EnoughBytes(c, txs[1..]); }
  }

  /** Over any run of writes, complete or broken, every position handed out keeps reading back the
      block written there. */
  method Run<T(!new)>(store: BlockData<T>, blocks: seq<(Block<T>, Outcome)>)
    requires store.Valid() && WithinLimit(store.files) && Lawful(store.codec)
    requires forall b :: b in blocks ==>
      |SerializedBlock(store.codec, b.0)| <= MAX_BLOCK_SIZE && |b.0.transactions| <= MAX_TRANSACTIONS
      && (b.1.Broken? ==> b.1.bytes <= RECORD_HEADER + |SerializedBlock(store.codec, b.0)|)
    modifies store
    ensures store.Valid() && old(store.written) <= store.written
    ensures forall w :: w in store.written && w !in old(store.written) ==> ReadAt(store.codec, store.files, w.0) == Ok(w.1)
    ensures WithinLimit(store.files)
  {
    ghost var first := store.written;
    for i := 0 to |blocks|
      invariant store.Valid() && WithinLimit(store.files) && first <= store.written
      invariant forall w :: w in store.written && w !in first ==>
        |SerializedBlock(store.codec, w.1)| <= MAX_BLOCK_SIZE && |w.1.transactions| <= MAX_TRANSACTIONS
    {
      var r := store.WriteBlockToDisk(blocks[i].0, blocks[i].1);
    }
    AllReadBack(store.codec, store.files, store.written, first);
  }

  lemma AllReadBack<T(!new)>(c: TxCodec<T>, files: Files, written: seq<(DiskBlockPos, Block<T>)>, first: seq<(DiskBlockPos, Block<T>)>)
    requires Lawful(c) && forall w :: w in written ==> StandsAt(files, w.0, SerializedBlock(c, w.1))
    requires forall w :: w in written && w !in first ==>
      |SerializedBlock(c, w.1)| <= MAX_BLOCK_SIZE && |w.1.transactions| <= MAX_TRANSACTIONS
    ensures forall w :: w in written && w !in first ==> ReadAt(c, files, w.0) == Ok(w.1)
  {
    forall w | w in written && w !in first
      ensures ReadAt(c, files, w.0) == Ok(w.1)
    {
      ReadsWhatStands(c, files, w.0, w.1);
    }
  }
}
