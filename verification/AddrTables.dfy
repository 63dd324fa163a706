/** Bucket tables of the address manager: rows of slots that grow when a slot is first used. An empty
    string marks an empty slot. */
module AddrTables {

  type Table = seq<seq<string>>

  const BUCKET_SIZE := 64

  /** What a slot holds; slots not yet grown are empty. */
  function At(t: Table, b: nat, p: nat): string {
    if b < |t| && p < |t[b]| then t[b][p] else ""
  }

  ghost predicate Shaped(t: Table, buckets: nat) {
    |t| == buckets && forall b :: 0 <= b < |t| ==> |t[b]| <= BUCKET_SIZE
  }

  /** Grow the row if need be and fill the slot. */
  function Put(t: Table, b: nat, p: nat, key: string): (r: Table)
    requires b < |t|
    ensures |r| == |t|
  {
    t[b := Grown(t[b], p)[p := key]]
  }

  function Grown(row: seq<string>, p: nat): (r: seq<string>)
    ensures |r| > p && |r| >= |row|
  {
    if p < |row| then row else row + seq(p + 1 - |row|, _ => "")
  }

  lemma PutAt(t: Table, b: nat, p: nat, key: string, b': nat, p': nat)
    requires b < |t|
    ensures At(Put(t, b, p, key), b', p') == if b' == b && p' == p then key else At(t, b', p')
  {}

  lemma PutShaped(t: Table, b: nat, p: nat, key: string, buckets: nat)
    requires Shaped(t, buckets) && b < buckets && p < BUCKET_SIZE
    ensures Shaped(Put(t, b, p, key), buckets)
  {}

  // ---- Clearing a key everywhere ----

  function ClearedRow(row: seq<string>, key: string): (r: seq<string>)
    ensures |r| == |row|
  {
    seq(|row|, i requires 0 <= i < |row| => if row[i] == key then "" else row[i])
  }

  function Cleared(t: Table, key: string): (r: Table)
    ensures |r| == |t|
  {
    seq(|t|, b requires 0 <= b < |t| => ClearedRow(t[b], key))
  }

  lemma ClearedAt(t: Table, key: string, b: nat, p: nat)
    ensures At(Cleared(t, key), b, p) == if At(t, b, p) == key then "" else At(t, b, p)
  {}

  /** The loops that blank a key wherever it stands. */
  method Clear(t: Table, key: string) returns (r: Table)
    ensures r == Cleared(t, key)
  {
    r := t;
    for b := 0 to |t|
      invariant |r| == |t|
      invariant forall k :: 0 <= k < b ==> r[k] == ClearedRow(t[k], key)
      invariant forall k :: b <= k < |t| ==> r[k] == t[k]
    {
      for i := 0 to |t[b]|
        invariant |r| == |t| && |r[b]| == |t[b]|
        invariant forall k :: 0 <= k < |t| && k != b ==> r[k] == if k < b then ClearedRow(t[k], key) else t[k]
        invariant forall k :: 0 <= k < |t[b]| ==> r[b][k] == if k < i && t[b][k] == key then "" else t[b][k]
      {
        if r[b][i] == key {
          r := r[b := r[b][i := ""]];
        }
      }
      assert r[b] == ClearedRow(t[b], key);
    }
  }

  /** The scan for a key. */
  method Contains(t: Table, key: string) returns (found: bool)
    requires key != ""
    ensures found <==> exists b: nat, p: nat :: At(t, b, p) == key
  {
    for b := 0 to |t|
      invariant forall b': nat, p: nat :: b' < b ==> At(t, b', p) != key
    {
      for i := 0 to |t[b]|
        invariant forall b': nat, p: nat :: b' < b || (b' == b && p < i) ==> At(t, b', p) != key
      {
        if t[b][i] == key {
          assert At(t, b, i) == key;
          return true;
        }
      }
    }
    found := false;
  }

  // ---- Counting the slots in use ----

  function InRow(row: seq<string>): nat {
    if row == [] then 0 else InRow(row[..|row| - 1]) + (if row[|row| - 1] != "" then 1 else 0)
  }

  function InUse(t: Table): nat {
    if t == [] then 0 else InUse(t[..|t| - 1]) + InRow(t[|t| - 1])
  }

  method Count(t: Table) returns (n: nat)
    ensures n == InUse(t)
  {
    n := 0;
    for b := 0 to |t|
      invariant n == InUse(t[..b])
    {
      ghost var before := n;
      for i := 0 to |t[b]|
        invariant n == before + InRow(t[b][..i])
      {
        assert t[b][..i + 1][..i] == t[b][..i];
        if t[b][i] != "" {
          n := n + 1;
        }
      }
      assert t[b][..|t[b]|] == t[b];
      assert t[..b + 1][..b] == t[..b];
    }
    assert t[..|t|] == t;
  }

  function RowKeys(row: seq<string>): set<string> {
    set i | 0 <= i < |row| && row[i] != "" :: row[i]
  }

  function Keys(t: Table): set<string> {
    set b, i | 0 <= b < |t| && 0 <= i < |t[b]| && t[b][i] != "" :: t[b][i]
  }

  lemma KeysAt(t: Table, key: string)
    ensures key in Keys(t) <==> key != "" && exists b: nat, p: nat :: At(t, b, p) == key
  {
    if key in Keys(t) {
      var b, i :| 0 <= b < |t| && 0 <= i < |t[b]| && t[b][i] == key;
      assert At(t, b, i) == key;
    }
    if b: nat, p: nat :| At(t, b, p) == key && key != "" {
      assert t[b][p] == key;
    }
  }

  /** No key stands in two slots. */
  ghost predicate Single(t: Table) {
    forall b: nat, p: nat, b': nat, p': nat ::
      At(t, b, p) != "" && At(t, b, p) == At(t, b', p') ==> b == b' && p == p'
  }

  lemma {:induction false} RowCount(row: seq<string>)
    requires forall i, j :: 0 <= i < j < |row| && row[i] != "" ==> row[i] != row[j]
    ensures InRow(row) == |RowKeys(row)|
  {
    if row != [] {
      var n := |row| - 1;
      RowCount(row[..n]);
      if row[n] != "" {
        assert RowKeys(row) == RowKeys(row[..n]) + {row[n]};
        assert row[n] !in RowKeys(row[..n]);
      } else {
        assert RowKeys(row) == RowKeys(row[..n]);
      }
    }
  }

  /** When no key stands twice, as many slots are in use as there are keys. */
  lemma {:induction false} SingleCount(t: Table)
    requires Single(t)
    ensures InUse(t) == |Keys(t)|
  {
    if t != [] {
      var n := |t| - 1;
      SinglePrefix(t, n);
      SingleCount(t[..n]);
      SingleRow(t, n);
      RowCount(t[n]);
      assert Keys(t) == Keys(t[..n]) + RowKeys(t[n]) by { KeysSplit(t, n); }
      assert Keys(t[..n]) !! RowKeys(t[n]) by { RowsApart(t, n); }
    }
  }

  lemma SinglePrefix(t: Table, n: nat)
    requires Single(t) && n <= |t|
    ensures Single(t[..n])
  {
    forall b: nat, p: nat, b': nat, p': nat | At(t[..n], b, p) != "" && At(t[..n], b, p) == At(t[..n], b', p')
      ensures b == b' && p == p'
    {
      assert At(t, b, p) == At(t[..n], b, p) && At(t, b', p') == At(t[..n], b', p');
    }
  }

  lemma SingleRow(t: Table, n: nat)
    requires Single(t) && n < |t|
    ensures forall i, j :: 0 <= i < j < |t[n]| && t[n][i] != "" ==> t[n][i] != t[n][j]
  {
    forall i, j | 0 <= i < j < |t[n]| && t[n][i] != ""
      ensures t[n][i] != t[n][j]
    {
      assert At(t, n, i) == t[n][i] && At(t, n, j) == t[n][j];
    }
  }

  lemma KeysSplit(t: Table, n: nat)
    requires n == |t| - 1
    ensures Keys(t) == Keys(t[..n]) + RowKeys(t[n])
  {
    forall k | k in Keys(t)
      ensures k in Keys(t[..n]) + RowKeys(t[n])
    {
      var b, i :| 0 <= b < |t| && 0 <= i < |t[b]| && t[b][i] != "" && t[b][i] == k;
      if b < n { assert t[..n][b][i] == k; }
    }
    forall k | k in Keys(t[..n])
      ensures k in Keys(t)
    {
      var b, i :| 0 <= b < n && 0 <= i < |t[..n][b]| && t[..n][b][i] != "" && t[..n][b][i] == k;
      assert t[b][i] == k;
    }
  }

  lemma RowsApart(t: Table, n: nat)
    requires Single(t) && n == |t| - 1
    ensures Keys(t[..n]) !! RowKeys(t[n])
  {
    forall k | k in Keys(t[..n])
      ensures k !in RowKeys(t[n])
    {
      var b, i :| 0 <= b < n && 0 <= i < |t[..n][b]| && t[..n][b][i] != "" && t[..n][b][i] == k;
      assert At(t, b, i) == k;
      forall j | 0 <= j < |t[n]|
        ensures t[n][j] != k
      {
        assert At(t, n, j) == t[n][j];
      }
    }
  }
}
