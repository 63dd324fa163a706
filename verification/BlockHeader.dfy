/** Block headers: their 120-byte form, and the object that caches their hash. */
module BlockHeaders {
  import opened Bytes
  import opened Sha2Spec
  import opened Sha2Instances
  import opened Wrappers
  import Limbs
  import Sha2Context
  import Hmac

  const SERIALIZED_SIZE := 120

  datatype Header = Header(version: U32, prevBlockHash: Bytes32, merkleRoot: Bytes32, leafRoot: Bytes32,
                           timestamp: U64, height: U32, bits: U32, nonce: U32)

  /** The serialised form: integers little-endian, hashes as they are. */
  function Serialized(h: Header): (s: seq<Byte>)
    ensures |s| == SERIALIZED_SIZE
  {
    LE(h.version, 4) + h.prevBlockHash + h.merkleRoot + h.leafRoot
    + LE(h.timestamp, 8) + LE(h.height, 4) + LE(h.bits, 4) + LE(h.nonce, 4)
  }

  /** The hash a header stands for, byte by byte. */
  ghost function HashOf(h: Header): (d: seq<Byte>)
    ensures |d| == 32
  {
    seq(32, i requires 0 <= i < 32 => HashByte(h, i))
  }

  ghost function HashByte(h: Header, i: nat): Byte
    requires i < 32
  {
    Sha256Lawful();
    Hmac.HashLength(Sha256(), Serialized(h));
    Hash(Sha256(), Serialized(h))[i]
  }

  lemma HashOfIsHash(h: Header)
    ensures HashOf(h) == Hash(Sha256(), Serialized(h))
  {
    Sha256Lawful();
    Hmac.HashLength(Sha256(), Serialized(h));
  }

  // ---- Reading and writing integers ----

  /** `WriteLE32` and `WriteLE64`: append n bytes, lowest first. */
  method WriteLE(out: seq<Byte>, value: nat, n: nat) returns (r: seq<Byte>)
    ensures r == out + LE(value, n)
  {
    r := out;
    var rest := value;
    for i := 0 to n
      invariant r + LE(rest, n - i) == out + LE(value, n)
    {
      ghost var was := r;
      r := r + [rest % 256];
      assert r + LE(rest / 256, n - i - 1) == was + LE(rest, n - i);
      rest := rest / 256;
    }
  }

  /** `ReadLE32` and `ReadLE64`: or the bytes together, each shifted to its place. */
  method ReadLE(data: seq<Byte>, offset: nat, n: nat) returns (value: nat)
    requires offset + n <= |data|
    ensures value == FromLE(data[offset..offset + n]) < Pow(256, n)
  {
    value := 0;
    for i := 0 to n
      invariant value == FromLE(data[offset..offset + i])
    {
      FromLEBound(data[offset..offset + i]);
      OrByte(value, data[offset + i], i);
      ghost var s := data[offset..offset + i];
      assert data[offset..offset + i + 1] == s + [data[offset + i]];
      FromLEAppend(s, data[offset + i]);
      value := Limbs.Or(value, data[offset + i] * Pow(2, 8 * i));
    }
    FromLEBound(data[offset..offset + n]);
  }

  lemma OrByte(value: nat, d: Byte, i: nat)
    requires value < Pow(256, i)
    ensures d * Pow(2, 8 * i) >= 0 && Limbs.Or(value, d * Pow(2, 8 * i)) == value + d * Pow(256, i)
  {
    BitsOfBytes(i);
    Limbs.OrDisjoint(value, d, 8 * i);
  }

  lemma {:induction false} FromLEAppend(s: seq<Byte>, d: Byte)
    ensures FromLE(s + [d]) == FromLE(s) + d * Pow(256, |s|)
  {
    if s == [] {
      assert ([d])[1..] == [];
    } else {
      assert (s + [d])[1..] == s[1..] + [d];
      FromLEAppend(s[1..], d);
      assert 256 * (d * Pow(256, |s| - 1)) == d * (256 * Pow(256, |s| - 1));
    }
  }

  // ---- The header object ----

  class BlockHeader {
    var fields: Header
    var mBlockHash: seq<Byte>
    var mHashCached: bool

    /** A cached hash is the hash of the fields as they are now. */
    ghost predicate Valid()
      reads this
    {
      mHashCached ==> mBlockHash == HashOf(fields)
    }

    constructor (h: Header)
      ensures Valid() && fields == h && !mHashCached
    {
      fields := h;
      mBlockHash := seq(32, _ => 0);
      mHashCached := false;
    }

    method SetTimestamp(timestamp: U64)
      modifies this
      ensures Valid() && fields == old(fields).(timestamp := timestamp)
    {
      fields := fields.(timestamp := timestamp);
      mHashCached := false;
    }

    method SetNonce(nonce: U32)
      modifies this
      ensures Valid() && fields == old(fields).(nonce := nonce)
    {
      fields := fields.(nonce := nonce);
      mHashCached := false;
    }

    method SetMerkleRoot(root: Bytes32)
      modifies this
      ensures Valid() && fields == old(fields).(merkleRoot := root)
    {
      fields := fields.(merkleRoot := root);
      mHashCached := false;
    }

    method SetLeafRoot(root: Bytes32)
      modifies this
      ensures Valid() && fields == old(fields).(leafRoot := root)
    {
      fields := fields.(leafRoot := root);
      mHashCached := false;
    }

    /** The hash is computed once and then served from the cache until a setter runs. */
    method GetHash() returns (hash: seq<Byte>)
      requires Valid()
      modifies this`mBlockHash, this`mHashCached
      ensures Valid() && hash == HashOf(fields)
    {
      if !mHashCached {
        ComputeHash();
      }
      hash := mBlockHash;
    }

    method ComputeHash()
      modifies this`mBlockHash, this`mHashCached
      ensures Valid() && mHashCached
    {
      var data := Serialize();
      Sha256Lawful();
      var context := new Sha2Context.Context.Init(Sha256());
      context.Update(data);
      assert [] + data == data;
      mBlockHash := context.Final();
      HashOfIsHash(fields);
      mHashCached := true;
    }

    method Serialize() returns (data: seq<Byte>)
      ensures data == Serialized(fields)
    {
      data := WriteLE([], fields.version, 4);
      data := data + fields.prevBlockHash;
      data := data + fields.merkleRoot;
      data := data + fields.leafRoot;
      data := WriteLE(data, fields.timestamp, 8);
      data := WriteLE(data, fields.height, 4);
      data := WriteLE(data, fields.bits, 4);
      data := WriteLE(data, fields.nonce, 4);
      assert [] + LE(fields.version, 4) == LE(fields.version, 4);
    }

    /** Write into a buffer, or refuse one that is too short. */
    method SerializeTo(out: array<Byte>) returns (ok: bool)
      modifies out
      ensures ok <==> out.Length >= SERIALIZED_SIZE
      ensures ok ==> out[..SERIALIZED_SIZE] == Serialized(fields)
      ensures !ok ==> out[..] == old(out[..])
    {
      if out.Length < SERIALIZED_SIZE {
        return false;
      }
      var o := Put(out, 0, LE(fields.version, 4));
      o := Put(out, o, fields.prevBlockHash);
      o := Put(out, o, fields.merkleRoot);
      o := Put(out, o, fields.leafRoot);
      o := Put(out, o, LE(fields.timestamp, 8));
      o := Put(out, o, LE(fields.height, 4));
      o := Put(out, o, LE(fields.bits, 4));
      o := Put(out, o, LE(fields.nonce, 4));
      ok := o == SERIALIZED_SIZE;
    }
  }

  method Put(out: array<Byte>, o: nat, bytes: seq<Byte>) returns (end: nat)
    requires o + |bytes| <= out.Length
    modifies out
    ensures end == o + |bytes| && out[..end] == old(out[..o]) + bytes
  {
    for i := 0 to |bytes|
      invariant out[..o] == old(out[..o]) && out[o..o + i] == bytes[..i]
    {
      out[o + i] := bytes[i];
    }
    end := o + |bytes|;
    assert out[..end] == out[..o] + out[o..end];
  }

  /** The header at the start of the data, or an error when the data is too short. */
  method Deserialize(data: seq<Byte>) returns (r: Result<Header>)
    ensures r.Ok? <==> |data| >= SERIALIZED_SIZE
    ensures r.Ok? ==> Serialized(r.value) == data[..SERIALIZED_SIZE]
  {
    if |data| < SERIALIZED_SIZE {
      return Err("BlockHeader data too short");
    }
    ByteLimits();
    var version := ReadLE(data, 0, 4);
    var prev, merkle, leaf := data[4..36], data[36..68], data[68..100];
    var timestamp := ReadLE(data, 100, 8);
    var height := ReadLE(data, 108, 4);
    var bits := ReadLE(data, 112, 4);
    var nonce := ReadLE(data, 116, 4);
    r := Ok(Header(version, prev, merkle, leaf, timestamp, height, bits, nonce));
    SlicesReadBack(data);
  }

  lemma ByteLimits()
    ensures Pow(256, 4) == WORD && Pow(256, 8) == TWO64
  {
    Sha2Context.Powers();
  }

  lemma SlicesReadBack(data: seq<Byte>)
    requires |data| >= SERIALIZED_SIZE
    ensures data[..SERIALIZED_SIZE]
         == LE(FromLE(data[0..4]), 4) + data[4..36] + data[36..68] + data[68..100]
          + LE(FromLE(data[100..108]), 8) + LE(FromLE(data[108..112]), 4) + LE(FromLE(data[112..116]), 4)
          + LE(FromLE(data[116..120]), 4)
  {
    LEofFromLE(data[0..4]);
    LEofFromLE(data[100..108]);
    LEofFromLE(data[108..112]);
    LEofFromLE(data[112..116]);
    LEofFromLE(data[116..120]);
    JoinedSlices(data);
  }

  lemma JoinedSlices(data: seq<Byte>)
    requires |data| >= SERIALIZED_SIZE
    ensures data[..SERIALIZED_SIZE]
         == data[0..4] + data[4..36] + data[36..68] + data[68..100] + data[100..108] + data[108..112] + data[112..116] + data[116..120]
  {}

  /** Headers are determined by their serialised form; so deserialising inverts serialising. */
  lemma SerializedInjective(h: Header, g: Header)
    requires Serialized(h) == Serialized(g)
    ensures h == g
  {
    FieldsAt(h);
    FieldsAt(g);
    LEInjective(h.version, g.version, 4);
    LEInjective(h.timestamp, g.timestamp, 8);
    LEInjective(h.height, g.height, 4);
    LEInjective(h.bits, g.bits, 4);
    LEInjective(h.nonce, g.nonce, 4);
  }

  lemma LEInjective(x: nat, y: nat, n: nat)
    requires x < Pow(256, n) && y < Pow(256, n)
    ensures LE(x, n) == LE(y, n) ==> x == y
  {
    FromLEofLE(x, n);
    FromLEofLE(y, n);
  }

  lemma FieldsAt(h: Header)
    ensures var s := Serialized(h);
      && s[0..4] == LE(h.version, 4) && s[4..36] == h.prevBlockHash && s[36..68] == h.merkleRoot
      && s[68..100] == h.leafRoot && s[100..108] == LE(h.timestamp, 8) && s[108..112] == LE(h.height, 4)
      && s[112..116] == LE(h.bits, 4) && s[116..120] == LE(h.nonce, 4)
    ensures h.version < Pow(256, 4) && h.timestamp < Pow(256, 8) && h.height < Pow(256, 4)
    ensures h.bits < Pow(256, 4) && h.nonce < Pow(256, 4)
  {
    ByteLimits();
  }
}
