/** The address manager: known addresses, and the bucket tables of new and tried ones. */
module AddrManager {
  import opened Bytes
  import opened AddrTables
  import Graph

  type U16 = x: int | 0 <= x < 0x1_0000

  const NEW_BUCKET_COUNT := 1024
  const TRIED_BUCKET_COUNT := 256
  const NEW_BUCKETS_PER_SOURCE_GROUP := 64
  const TRIED_BUCKETS_PER_GROUP := 8
  const HORIZON_DAYS := 30
  const RETRIES := 3
  const MAX_FAILURES := 10
  const MIN_FAIL_DAYS := 7
  const WEIGHTED_ROUNDS := 64

  datatype Entry = Entry(ip: string, port: U16, services: U32, lastSeen: int, lastTry: int,
                         lastSuccess: int, attempts: int, source: string)

  function Decimal(n: nat): string {
    if n < 10 then ["0123456789"[n]] else Decimal(n / 10) + ["0123456789"[n % 10]]
  }

  function KeyOf(ip: string, port: U16): (k: string)
    ensures k != ""
  {
    ip + ":" + Decimal(port)
  }

  function Key(e: Entry): (k: string)
    ensures k != ""
  {
    KeyOf(e.ip, e.port)
  }

  /** An address not worth keeping: from the future, too old, or failing again and again. */
  predicate IsTerrible(e: Entry, now: int) {
    if e.lastTry != 0 && e.lastTry >= now - 60 then false
    else if e.lastSeen > now + 10 * 60 then true
    else if e.lastSeen == 0 || now - e.lastSeen > HORIZON_DAYS * 24 * 60 * 60 then true
    else if e.lastSuccess == 0 && e.attempts >= RETRIES then true
    else now - e.lastSuccess > MIN_FAIL_DAYS * 24 * 60 * 60 && e.attempts >= MAX_FAILURES
  }

  /** The secret key and the keyed hashes that scatter addresses over the tables, and the network
      group of an address. */
  datatype Mixer = Mixer(key: U64, mix: (U64, string) -> U64, mixValue: (U64, U64) -> U64, groupOf: string -> string)

  function NewBucket(m: Mixer, addrGroup: string, sourceGroup: string): (b: nat)
    ensures b < NEW_BUCKET_COUNT
  {
    var h1 := m.mix(m.mix(m.key, addrGroup), sourceGroup);
    m.mixValue(m.mix(m.key, sourceGroup), h1 % NEW_BUCKETS_PER_SOURCE_GROUP) % NEW_BUCKET_COUNT
  }

  function NewBucketFor(m: Mixer, e: Entry): (b: nat)
    ensures b < NEW_BUCKET_COUNT
  {
    NewBucket(m, m.groupOf(e.ip), m.groupOf(e.source))
  }

  function TriedBucketFor(m: Mixer, e: Entry): (b: nat)
    ensures b < TRIED_BUCKET_COUNT
  {
    var h1 := m.mix(m.key, Key(e));
    m.mixValue(m.mix(m.key, m.groupOf(e.ip)), h1 % TRIED_BUCKETS_PER_GROUP) % TRIED_BUCKET_COUNT
  }

  function PositionIn(m: Mixer, bucket: nat, key: string): (p: nat)
    ensures p < BUCKET_SIZE
  {
    m.mixValue(m.mix(m.key, key), bucket % TWO64) % BUCKET_SIZE
  }

  // ---- How far one group can spread ----

  ghost function NewReach(m: Mixer, sourceGroup: string): set<nat> {
    set x: nat | x < NEW_BUCKETS_PER_SOURCE_GROUP :: m.mixValue(m.mix(m.key, sourceGroup), x) % NEW_BUCKET_COUNT
  }

  ghost function TriedReach(m: Mixer, group: string): set<nat> {
    set x: nat | x < TRIED_BUCKETS_PER_GROUP :: m.mixValue(m.mix(m.key, group), x) % TRIED_BUCKET_COUNT
  }

  /** Whatever addresses a source group announces, they fall into at most 64 new buckets. */
  lemma NewReachBound(m: Mixer, sourceGroup: string)
    ensures |NewReach(m, sourceGroup)| <= NEW_BUCKETS_PER_SOURCE_GROUP
    ensures forall e: Entry :: m.groupOf(e.source) == sourceGroup ==> NewBucketFor(m, e) in NewReach(m, sourceGroup)
  {
    var f: nat -> nat := x => m.mixValue(m.mix(m.key, sourceGroup), x % TWO64) % NEW_BUCKET_COUNT;
    forall y | y in NewReach(m, sourceGroup)
      ensures exists x: nat :: x < NEW_BUCKETS_PER_SOURCE_GROUP && f(x) == y
    {
      var x: nat :| x < NEW_BUCKETS_PER_SOURCE_GROUP && m.mixValue(m.mix(m.key, sourceGroup), x) % NEW_BUCKET_COUNT == y;
      assert f(x) == y;
    }
    ImageSize(NEW_BUCKETS_PER_SOURCE_GROUP, f, NewReach(m, sourceGroup));
    forall e: Entry | m.groupOf(e.source) == sourceGroup
      ensures NewBucketFor(m, e) in NewReach(m, sourceGroup)
    {
      var x: nat := m.mix(m.mix(m.key, m.groupOf(e.ip)), sourceGroup) % NEW_BUCKETS_PER_SOURCE_GROUP;
      assert NewBucketFor(m, e) == m.mixValue(m.mix(m.key, sourceGroup), x) % NEW_BUCKET_COUNT;
    }
  }

  /** And the addresses of one group into at most 8 tried buckets. */
  lemma TriedReachBound(m: Mixer, group: string)
    ensures |TriedReach(m, group)| <= TRIED_BUCKETS_PER_GROUP
    ensures forall e: Entry :: m.groupOf(e.ip) == group ==> TriedBucketFor(m, e) in TriedReach(m, group)
  {
    var f: nat -> nat := x => m.mixValue(m.mix(m.key, group), x % TWO64) % TRIED_BUCKET_COUNT;
    forall y | y in TriedReach(m, group)
      ensures exists x: nat :: x < TRIED_BUCKETS_PER_GROUP && f(x) == y
    {
      var x: nat :| x < TRIED_BUCKETS_PER_GROUP && m.mixValue(m.mix(m.key, group), x) % TRIED_BUCKET_COUNT == y;
      assert f(x) == y;
    }
    ImageSize(TRIED_BUCKETS_PER_GROUP, f, TriedReach(m, group));
    forall e: Entry | m.groupOf(e.ip) == group
      ensures TriedBucketFor(m, e) in TriedReach(m, group)
    {
      var x: nat := m.mix(m.key, Key(e)) % TRIED_BUCKETS_PER_GROUP;
      assert TriedBucketFor(m, e) == m.mixValue(m.mix(m.key, group), x) % TRIED_BUCKET_COUNT;
    }
  }

  lemma {:induction false} ImageSize(n: nat, f: nat -> nat, s: set<nat>)
    requires forall y :: y in s ==> exists x: nat :: x < n && f(x) == y
    ensures |s| <= n
  {
    if n == 0 {
      if y :| y in s { assert false; }
    } else {
      var last := f(n - 1);
      forall y | y in s - {last}
        ensures exists x: nat :: x < n - 1 && f(x) == y
      {
        var x: nat :| x < n && f(x) == y;
      }
      ImageSize(n - 1, f, s - {last});
    }
  }

  // ---- What holds of the tables at all times ----

  /** Entries by key, and where each one must stand. */
  ghost predicate Keyed(entries: map<string, Entry>) {
    forall k :: k in entries ==> Key(entries[k]) == k
  }

  ghost predicate NewPlaced(m: Mixer, entries: map<string, Entry>, t: Table) {
    forall b: nat, p: nat :: At(t, b, p) != "" ==>
      && At(t, b, p) in entries
      && b == NewBucketFor(m, entries[At(t, b, p)]) && p == PositionIn(m, b, At(t, b, p))
  }

  ghost predicate TriedPlaced(m: Mixer, entries: map<string, Entry>, t: Table) {
    forall b: nat, p: nat :: At(t, b, p) != "" ==>
      && At(t, b, p) in entries
      && b == TriedBucketFor(m, entries[At(t, b, p)]) && p == PositionIn(m, b, At(t, b, p))
  }

  ghost predicate InNew(m: Mixer, e: Entry, t: Table) {
    At(t, NewBucketFor(m, e), PositionIn(m, NewBucketFor(m, e), Key(e))) == Key(e)
  }

  ghost predicate InTried(m: Mixer, e: Entry, t: Table) {
    At(t, TriedBucketFor(m, e), PositionIn(m, TriedBucketFor(m, e), Key(e))) == Key(e)
  }

  /** Every entry stands in one of the tables, and only in one. */
  ghost predicate ListedOnce(m: Mixer, entries: map<string, Entry>, news: Table, tried: Table) {
    forall k :: k in entries ==> (InNew(m, entries[k], news) <==> !InTried(m, entries[k], tried))
  }

  datatype Aspect = Shapes | Keying | NewSlots | TriedSlots | Listing

  ghost predicate Holds(m: Mixer, entries: map<string, Entry>, news: Table, tried: Table, a: Aspect) {
    match a
    case Shapes => Shaped(news, NEW_BUCKET_COUNT) && Shaped(tried, TRIED_BUCKET_COUNT)
    case Keying => Keyed(entries)
    case NewSlots => NewPlaced(m, entries, news)
    case TriedSlots => TriedPlaced(m, entries, tried)
    case Listing => ListedOnce(m, entries, news, tried)
  }

  ghost predicate Sound(m: Mixer, entries: map<string, Entry>, news: Table, tried: Table) {
    && |news| == NEW_BUCKET_COUNT && |tried| == TRIED_BUCKET_COUNT
    && forall a :: Holds(m, entries, news, tried, a)
  }

  lemma Opened(m: Mixer, entries: map<string, Entry>, news: Table, tried: Table)
    requires Sound(m, entries, news, tried)
    ensures Shaped(news, NEW_BUCKET_COUNT) && Shaped(tried, TRIED_BUCKET_COUNT) && Keyed(entries)
    ensures NewPlaced(m, entries, news) && TriedPlaced(m, entries, tried) && ListedOnce(m, entries, news, tried)
  {
    assert Holds(m, entries, news, tried, Shapes);
    assert Holds(m, entries, news, tried, Keying);
    assert Holds(m, entries, news, tried, NewSlots);
    assert Holds(m, entries, news, tried, TriedSlots);
    assert Holds(m, entries, news, tried, Listing);
  }

  lemma OwnKey(m: Mixer, entries: map<string, Entry>, news: Table, tried: Table, k: string)
    requires Sound(m, entries, news, tried)
    ensures k in entries ==> Key(entries[k]) == k && k != ""
  {
    assert Holds(m, entries, news, tried, Keying);
  }

  /** Growing rows changes nothing that can be seen. */
  ghost predicate SameSlots(t: Table, r: Table) {
    forall b: nat, p: nat :: At(r, b, p) == At(t, b, p)
  }

  lemma SoundGrown(m: Mixer, entries: map<string, Entry>, news: Table, tried: Table, b: nat, p: nat)
    requires Sound(m, entries, news, tried) && b < NEW_BUCKET_COUNT && p < BUCKET_SIZE
    ensures SameSlots(news, news[b := Grown(news[b], p)])
    ensures Sound(m, entries, news[b := Grown(news[b], p)], tried)
  {
    Opened(m, entries, news, tried);
    var r := news[b := Grown(news[b], p)];
    assert Shaped(r, NEW_BUCKET_COUNT);
    forall b': nat, p': nat
      ensures At(r, b', p') == At(news, b', p')
    {}
    SameSlotsPlaced(m, entries, news, tried, r);
  }

  lemma SameSlotsPlaced(m: Mixer, entries: map<string, Entry>, news: Table, tried: Table, r: Table)
    requires SameSlots(news, r) && NewPlaced(m, entries, news) && ListedOnce(m, entries, news, tried)
    ensures NewPlaced(m, entries, r) && ListedOnce(m, entries, r, tried)
  {
    forall k | k in entries
      ensures InNew(m, entries[k], r) <==> InNew(m, entries[k], news)
    {}
  }

  /** Same address and source: same places. */
  predicate SamePlace(e: Entry, f: Entry) {
    e.ip == f.ip && e.port == f.port && e.source == f.source
  }

  lemma SamePlaceSame(m: Mixer, e: Entry, f: Entry)
    requires SamePlace(e, f)
    ensures NewBucketFor(m, e) == NewBucketFor(m, f) && TriedBucketFor(m, e) == TriedBucketFor(m, f) && Key(e) == Key(f)
  {}

  lemma SoundTouched(m: Mixer, entries: map<string, Entry>, news: Table, tried: Table, k: string, e: Entry)
    requires Sound(m, entries, news, tried) && k in entries && SamePlace(entries[k], e)
    ensures Sound(m, entries[k := e], news, tried)
  {
    Opened(m, entries, news, tried);
    SamePlaceSame(m, entries[k], e);
    var after := entries[k := e];
    forall x | x in after
      ensures x in entries && Key(after[x]) == Key(entries[x])
      ensures NewBucketFor(m, after[x]) == NewBucketFor(m, entries[x]) && TriedBucketFor(m, after[x]) == TriedBucketFor(m, entries[x])
    {}
    SamePlacesPlaced(m, entries, after, news, tried);
  }

  lemma SamePlacesPlaced(m: Mixer, entries: map<string, Entry>, after: map<string, Entry>, news: Table, tried: Table)
    requires after.Keys == entries.Keys
    requires forall x :: x in after ==> x in entries && Key(after[x]) == Key(entries[x])
    requires forall x :: x in after ==> x in entries && NewBucketFor(m, after[x]) == NewBucketFor(m, entries[x])
    requires forall x :: x in after ==> x in entries && TriedBucketFor(m, after[x]) == TriedBucketFor(m, entries[x])
    requires NewPlaced(m, entries, news) && TriedPlaced(m, entries, tried) && ListedOnce(m, entries, news, tried)
    ensures NewPlaced(m, after, news) && TriedPlaced(m, after, tried) && ListedOnce(m, after, news, tried)
  {
    forall x | x in after
      ensures InNew(m, after[x], news) <==> InNew(m, entries[x], news)
      ensures InTried(m, after[x], tried) <==> InTried(m, entries[x], tried)
    {}
  }

  /** One slot has changed. */
  ghost predicate Updated(t: Table, r: Table, b: nat, p: nat, key: string) {
    forall b': nat, p': nat :: At(r, b', p') == if b' == b && p' == p then key else At(t, b', p')
  }

  lemma PutUpdates(t: Table, b: nat, p: nat, key: string)
    requires b < |t|
    ensures Updated(t, Put(t, b, p, key), b, p, key)
  {
    forall b': nat, p': nat
      ensures At(Put(t, b, p, key), b', p') == if b' == b && p' == p then key else At(t, b', p')
    {
      PutAt(t, b, p, key, b', p');
    }
  }

  /** A key has been blanked everywhere. */
  ghost predicate Blanked(t: Table, r: Table, key: string) {
    forall b: nat, p: nat :: At(r, b, p) == if At(t, b, p) == key then "" else At(t, b, p)
  }

  lemma ClearedBlanks(t: Table, key: string)
    ensures Blanked(t, Cleared(t, key), key)
  {
    forall b: nat, p: nat
      ensures At(Cleared(t, key), b, p) == if At(t, b, p) == key then "" else At(t, b, p)
    {
      ClearedAt(t, key, b, p);
    }
  }

  /** A key seen in a new slot is in no tried slot. */
  lemma NotInTried(m: Mixer, entries: map<string, Entry>, news: Table, tried: Table, b: nat, p: nat)
    requires Sound(m, entries, news, tried)
    ensures At(news, b, p) != "" ==> forall b': nat, p': nat :: At(tried, b', p') != At(news, b, p)
  {
    Opened(m, entries, news, tried);
    var d := At(news, b, p);
    if d != "" {
      assert InNew(m, entries[d], news);
    }
  }

  /** A key seen in a tried slot is in no new slot. */
  lemma NotInNew(m: Mixer, entries: map<string, Entry>, news: Table, tried: Table, b: nat, p: nat)
    requires Sound(m, entries, news, tried)
    ensures At(tried, b, p) != "" ==> forall b': nat, p': nat :: At(news, b', p') != At(tried, b, p)
  {
    Opened(m, entries, news, tried);
    var d := At(tried, b, p);
    if d != "" {
      assert InTried(m, entries[d], tried);
    }
  }

  /** An entry may be forgotten when no slot holds it any more, and added with the slot it goes to. */
  lemma NewPlacedAdded(m: Mixer, entries: map<string, Entry>, news: Table, e: Entry, r: Table, after: map<string, Entry>)
    requires NewPlaced(m, entries, news)
    requires var b := NewBucketFor(m, e);
      Updated(news, r, b, PositionIn(m, b, Key(e)), Key(e))
      && after == (entries - {At(news, b, PositionIn(m, b, Key(e)))})[Key(e) := e]
    requires forall b: nat, p: nat :: At(news, b, p) != Key(e)
    ensures NewPlaced(m, after, r)
  {}

  lemma TriedPlacedKept(m: Mixer, entries: map<string, Entry>, tried: Table, after: map<string, Entry>)
    requires TriedPlaced(m, entries, tried)
    requires forall b: nat, p: nat :: At(tried, b, p) != "" ==> At(tried, b, p) in after
    requires forall k :: k in entries && k in after ==> entries[k] == after[k]
    ensures TriedPlaced(m, after, tried)
  {}

  /** Keys that are no entries stand nowhere. */
  lemma Absent(m: Mixer, entries: map<string, Entry>, news: Table, tried: Table, key: string)
    requires Sound(m, entries, news, tried) && key != "" && key !in entries
    ensures forall b: nat, p: nat :: At(news, b, p) != key && At(tried, b, p) != key
  {
    Opened(m, entries, news, tried);
  }

  /** A new entry displaces another one, or fills an empty slot. */
  lemma SoundAdded(m: Mixer, entries: map<string, Entry>, news: Table, tried: Table, e: Entry)
    requires Sound(m, entries, news, tried) && Key(e) !in entries
    ensures var b := NewBucketFor(m, e);
      var p := PositionIn(m, b, Key(e));
      Sound(m, (entries - {At(news, b, p)})[Key(e) := e], Put(news, b, p, Key(e)), tried)
  {
    var key, b := Key(e), NewBucketFor(m, e);
    var p := PositionIn(m, b, key);
    var d, r := At(news, b, p), Put(news, b, p, key);
    var after := (entries - {d})[key := e];
    assert Shaped(r, NEW_BUCKET_COUNT) && Shaped(tried, TRIED_BUCKET_COUNT) by {
      Opened(m, entries, news, tried);
      PutShaped(news, b, p, key, NEW_BUCKET_COUNT);
    }
    assert Keyed(after) by {
      Opened(m, entries, news, tried);
    }
    assert NewPlaced(m, after, r) by {
      Opened(m, entries, news, tried);
      PutUpdates(news, b, p, key);
      Absent(m, entries, news, tried, key);
      NewPlacedAdded(m, entries, news, e, r, after);
    }
    assert TriedPlaced(m, after, tried) by {
      Opened(m, entries, news, tried);
      Absent(m, entries, news, tried, key);
      NotInTried(m, entries, news, tried, b, p);
      TriedPlacedKept(m, entries, tried, after);
    }
    assert ListedOnce(m, after, r, tried) by {
      Opened(m, entries, news, tried);
      PutUpdates(news, b, p, key);
      Absent(m, entries, news, tried, key);
      ListedAdded(m, entries, news, tried, e, r, after);
    }
  }

  lemma ListedAdded(m: Mixer, entries: map<string, Entry>, news: Table, tried: Table, e: Entry, r: Table, after: map<string, Entry>)
    requires Keyed(entries) && ListedOnce(m, entries, news, tried) && NewPlaced(m, entries, news)
    requires var b := NewBucketFor(m, e);
      Updated(news, r, b, PositionIn(m, b, Key(e)), Key(e))
      && after == (entries - {At(news, b, PositionIn(m, b, Key(e)))})[Key(e) := e]
    requires forall b: nat, p: nat :: At(news, b, p) != Key(e) && At(tried, b, p) != Key(e)
    ensures ListedOnce(m, after, r, tried)
  {
    forall k | k in after
      ensures InNew(m, after[k], r) <==> !InTried(m, after[k], tried)
    {
      if k != Key(e) {
        assert k in entries && entries[k] == after[k] && Key(entries[k]) == k;
      }
    }
  }

  /** The key moves to its tried slot; whoever stood there is forgotten for the moment. */
  lemma SoundPromoted(m: Mixer, entries: map<string, Entry>, news: Table, tried: Table, key: string)
    requires Sound(m, entries, news, tried) && key in entries
    requires forall b: nat, p: nat :: At(tried, b, p) != key
    ensures var b := TriedBucketFor(m, entries[key]);
      var p := PositionIn(m, b, key);
      Sound(m, entries - {At(tried, b, p)}, Cleared(news, key), Put(tried, b, p, key))
  {
    var b := TriedBucketFor(m, entries[key]);
    var p := PositionIn(m, b, key);
    var d, cleared, r := At(tried, b, p), Cleared(news, key), Put(tried, b, p, key);
    var after := entries - {d};
    OwnKey(m, entries, news, tried, key);
    assert Shaped(cleared, NEW_BUCKET_COUNT) && Shaped(r, TRIED_BUCKET_COUNT) by {
      Opened(m, entries, news, tried);
      PutShaped(tried, b, p, key, TRIED_BUCKET_COUNT);
    }
    assert Keyed(after) by {
      Opened(m, entries, news, tried);
    }
    assert NewPlaced(m, after, cleared) by {
      Opened(m, entries, news, tried);
      ClearedBlanks(news, key);
      NotInNew(m, entries, news, tried, b, p);
      NewPlacedBlanked(m, entries, news, cleared, key, after);
    }
    assert TriedPlaced(m, after, r) by {
      Opened(m, entries, news, tried);
      PutUpdates(tried, b, p, key);
      TriedPlacedMoved(m, entries, tried, r, key, after);
    }
    assert ListedOnce(m, after, cleared, r) by {
      Opened(m, entries, news, tried);
      ClearedBlanks(news, key);
      PutUpdates(tried, b, p, key);
      ListedPromoted(m, entries, news, tried, key, cleared, r, after);
    }
  }

  lemma NewPlacedBlanked(m: Mixer, entries: map<string, Entry>, news: Table, cleared: Table, key: string, after: map<string, Entry>)
    requires NewPlaced(m, entries, news) && Blanked(news, cleared, key)
    requires forall b: nat, p: nat :: At(news, b, p) != "" ==> At(news, b, p) in after
    requires forall k :: k in after ==> k in entries && entries[k] == after[k]
    ensures NewPlaced(m, after, cleared)
  {}

  lemma TriedPlacedMoved(m: Mixer, entries: map<string, Entry>, tried: Table, r: Table, key: string, after: map<string, Entry>)
    requires TriedPlaced(m, entries, tried) && key in entries && Key(entries[key]) == key
    requires forall b: nat, p: nat :: At(tried, b, p) != key
    requires var b := TriedBucketFor(m, entries[key]);
      Updated(tried, r, b, PositionIn(m, b, key), key) && after == entries - {At(tried, b, PositionIn(m, b, key))}
    ensures TriedPlaced(m, after, r)
  {}

  lemma ListedPromoted(m: Mixer, entries: map<string, Entry>, news: Table, tried: Table, key: string,
                       cleared: Table, r: Table, after: map<string, Entry>)
    requires Keyed(entries) && ListedOnce(m, entries, news, tried) && TriedPlaced(m, entries, tried)
    requires key in entries && key != "" && Blanked(news, cleared, key)
    requires var b := TriedBucketFor(m, entries[key]);
      Updated(tried, r, b, PositionIn(m, b, key), key) && after == entries - {At(tried, b, PositionIn(m, b, key))}
    ensures ListedOnce(m, after, cleared, r)
  {
    forall k | k in after
      ensures InNew(m, after[k], cleared) <==> !InTried(m, after[k], r)
    {
      var e := entries[k];
      assert e == after[k] && Key(e) == k;
      if k == key {
        assert InTried(m, e, r) && !InNew(m, e, cleared);
      } else {
        assert InNew(m, e, cleared) <==> InNew(m, e, news);
        assert InTried(m, e, r) <==> InTried(m, e, tried);
      }
    }
  }

  lemma TriedAreEntries(m: Mixer, entries: map<string, Entry>, news: Table, tried: Table, b: nat, p: nat)
    requires Sound(m, entries, news, tried)
    ensures At(tried, b, p) != "" ==> At(tried, b, p) in entries
  {
    Opened(m, entries, news, tried);
  }

  lemma SeenInTried(m: Mixer, entries: map<string, Entry>, news: Table, tried: Table, key: string)
    requires Sound(m, entries, news, tried) && key in entries && exists b: nat, p: nat :: At(tried, b, p) == key
    ensures InTried(m, entries[key], tried)
  {
    Opened(m, entries, news, tried);
    OwnKey(m, entries, news, tried, key);
  }

  /** An entry forgotten is put back into an empty new slot. */
  lemma SoundPutBack(m: Mixer, entries: map<string, Entry>, news: Table, tried: Table, d: string, e: Entry)
    requires Sound(m, entries, news, tried) && d !in entries && Key(e) == d
    requires At(news, NewBucketFor(m, e), PositionIn(m, NewBucketFor(m, e), d)) == ""
    ensures Sound(m, entries[d := e], Put(news, NewBucketFor(m, e), PositionIn(m, NewBucketFor(m, e), d), d), tried)
  {
    NoEmptyKey(m, entries, news, tried);
    SoundAdded(m, entries, news, tried, e);
  }

  lemma NoEmptyKey(m: Mixer, entries: map<string, Entry>, news: Table, tried: Table)
    requires Sound(m, entries, news, tried)
    ensures entries - {""} == entries
  {
    Opened(m, entries, news, tried);
    forall k | k in entries
      ensures k != ""
    {
      assert Key(entries[k]) == k;
    }
  }

  // ---- The object ----

  /** What adding a known address again keeps of the new report. */
  function Merged(old_: Entry, e: Entry): Entry {
    old_.(lastSeen := if e.lastSeen > old_.lastSeen then e.lastSeen else old_.lastSeen,
          services := if e.services != 0 then e.services else old_.services)
  }

  /** The slot a new entry goes to, and who stands there. */
  function Rival(m: Mixer, news: Table, e: Entry): string {
    At(news, NewBucketFor(m, e), PositionIn(m, NewBucketFor(m, e), Key(e)))
  }

  /** The tables and the entries after e has moved to its tried slot. Whoever stood there goes back to its
      own new slot if that one is empty once e has left, and is forgotten exactly if it is not. */
  ghost predicate Promoted(m: Mixer, e: Entry, known: map<string, Entry>, entries: map<string, Entry>,
                           news: Table, news': Table, tried: Table, tried': Table) {
    var b := TriedBucketFor(m, e);
    var p := PositionIn(m, b, Key(e));
    var d, cleared := At(tried, b, p), Cleared(news, Key(e));
    && Updated(tried, tried', b, p, Key(e))
    && if d == "" then
         entries == known && SameSlots(cleared, news')
       else
         && d in known
         && if Rival(m, cleared, known[d]) == "" then entries == known && PutIn(m, cleared, news', known[d])
            else entries == known - {d} && SameSlots(cleared, news')
  }

  /** Only the slot of e changes, and e stands in it. */
  ghost predicate PutIn(m: Mixer, news: Table, news': Table, e: Entry) {
    var b := NewBucketFor(m, e);
    Updated(news, news', b, PositionIn(m, b, Key(e)), Key(e))
  }

  class AddrMan {
    const m: Mixer
    var mEntries: map<string, Entry>
    var mNew: Table
    var mTried: Table

    ghost predicate Valid()
      reads this
    {
      Sound(m, mEntries, mNew, mTried)
    }

    constructor (m: Mixer)
      ensures Valid() && this.m == m && mEntries == map[]
    {
      this.m := m;
      mEntries := map[];
      mNew := seq(NEW_BUCKET_COUNT, _ => []);
      mTried := seq(TRIED_BUCKET_COUNT, _ => []);
    }

    method AddLocked(e: Entry, now: int) returns (added: bool)
      requires Valid()
      modifies this`mEntries, this`mNew
      ensures Valid()
      ensures Key(e) in old(mEntries) ==>
        !added && mNew == old(mNew) && mEntries == old(mEntries)[Key(e) := Merged(old(mEntries)[Key(e)], e)]
      ensures Key(e) !in old(mEntries) ==>
        var d := Rival(m, old(mNew), e);
        (added <==> d == "" || d !in old(mEntries) || IsTerrible(old(mEntries)[d], now))
        && (added ==> mEntries == (old(mEntries) - {d})[Key(e) := e] && Rival(m, mNew, e) == Key(e))
        && (!added ==> mEntries == old(mEntries) && SameSlots(old(mNew), mNew))
    {
      var key := Key(e);
      if key in mEntries {
        var existing := mEntries[key];
        if e.lastSeen > existing.lastSeen {
          existing := existing.(lastSeen := e.lastSeen);
        }
        if e.services != 0 {
          existing := existing.(services := e.services);
        }
        SoundTouched(m, mEntries, mNew, mTried, key, existing);
        mEntries := mEntries[key := existing];
        return false;
      }
      var bucket := NewBucketFor(m, e);
      var pos := PositionIn(m, bucket, key);
      var displaced := At(mNew, bucket, pos);
      SoundGrown(m, mEntries, mNew, mTried, bucket, pos);
      SoundAdded(m, mEntries, mNew, mTried, e);
      PutUpdates(mNew, bucket, pos, key);
      var before := mEntries;
      mEntries := mEntries[key := e];
      if displaced != "" && displaced != key {
        if displaced in mEntries && !IsTerrible(mEntries[displaced], now) {
          mEntries := mEntries - {key};
          mNew := mNew[bucket := Grown(mNew[bucket], pos)];
          assert mEntries == before;
          return false;
        }
        NotInTried(m, before, mNew, mTried, bucket, pos);
        var tried := Contains(mTried, displaced);
        if displaced in mEntries && !tried {
          mEntries := mEntries - {displaced};
        }
      }
      Absent(m, before, mNew, mTried, key);
      EmptyKeyless(m, before, mNew, mTried);
      assert mEntries == (before - {displaced})[key := e];
      mNew := Put(mNew, bucket, pos, key);
      added := true;
    }

    method Add(ip: string, port: U16, services: U32, source: string, now: int) returns (added: bool)
      requires Valid()
      modifies this`mEntries, this`mNew
      ensures Valid()
      ensures ip == "" || port == 0 ==> !added && mEntries == old(mEntries) && mNew == old(mNew)
      ensures ip != "" && port != 0 && added ==>
        KeyOf(ip, port) !in old(mEntries)
        && KeyOf(ip, port) in mEntries && mEntries[KeyOf(ip, port)] == Entry(ip, port, services, now, 0, 0, 0, if source == "" then ip else source)
    {
      if ip == "" || port == 0 {
        return false;
      }
      var e := Entry(ip, port, services, now, 0, 0, 0, if source == "" then ip else source);
      added := AddLocked(e, now);
    }

    method Attempt(ip: string, port: U16, now: int)
      requires Valid()
      modifies this`mEntries
      ensures Valid()
      ensures var k := KeyOf(ip, port);
        mEntries == if k !in old(mEntries) then old(mEntries)
                    else var e := old(mEntries)[k]; old(mEntries)[k := e.(lastTry := now, attempts := e.attempts + 1)]
    {
      var key := KeyOf(ip, port);
      if key !in mEntries {
        return;
      }
      var e := mEntries[key];
      SoundTouched(m, mEntries, mNew, mTried, key, e.(lastTry := now, attempts := e.attempts + 1));
      mEntries := mEntries[key := e.(lastTry := now, attempts := e.attempts + 1)];
    }

    /** The address worked: it becomes a tried one. Nobody else but the entry displaced is forgotten. */
    method Good(ip: string, port: U16, now: int)
      requires Valid()
      modifies this`mEntries, this`mNew, this`mTried
      ensures Valid()
      ensures KeyOf(ip, port) !in old(mEntries) ==> mEntries == old(mEntries) && mNew == old(mNew) && mTried == old(mTried)
      ensures KeyOf(ip, port) in old(mEntries) ==>
        var e := old(mEntries)[KeyOf(ip, port)].(lastSuccess := now, lastSeen := now, attempts := 0);
        var known := old(mEntries)[KeyOf(ip, port) := e];
        if InTried(m, e, old(mTried)) then mEntries == known && mNew == old(mNew) && mTried == old(mTried)
        else Promoted(m, e, known, mEntries, old(mNew), mNew, old(mTried), mTried)
    {
      var key := KeyOf(ip, port);
      if key !in mEntries {
        return;
      }
      var e := mEntries[key].(lastSuccess := now, lastSeen := now, attempts := 0);
      SoundTouched(m, mEntries, mNew, mTried, key, e);
      mEntries := mEntries[key := e];
      var tried := Contains(mTried, key);
      OwnKey(m, mEntries, mNew, mTried, key);
      if tried {
        SeenInTried(m, mEntries, mNew, mTried, key);
        return;
      }
      ghost var cleared := Cleared(mNew, key);
      var bucket := TriedBucketFor(m, e);
      var pos := PositionIn(m, bucket, key);
      var displaced := At(mTried, bucket, pos);
      TriedAreEntries(m, mEntries, mNew, mTried, bucket, pos);
      SoundPromoted(m, mEntries, mNew, mTried, key);
      PutUpdates(mTried, bucket, pos, key);
      ghost var left := mEntries - {displaced};
      OwnKey(m, mEntries, mNew, mTried, displaced);
      mTried := Put(mTried, bucket, pos, key);
      mNew := Clear(mNew, key);
      if displaced != "" && displaced != key {
        if displaced in mEntries {
          var d := mEntries[displaced];
          var nb := NewBucketFor(m, d);
          var np := PositionIn(m, nb, displaced);
          SoundGrown(m, left, mNew, mTried, nb, np);
          if At(mNew, nb, np) == "" {
            SoundPutBack(m, left, mNew, mTried, displaced, d);
            assert left[displaced := d] == mEntries;
            PutUpdates(cleared, nb, np, displaced);
            mNew := Put(mNew, nb, np, displaced);
          } else {
            mNew := mNew[nb := Grown(mNew[nb], np)];
            mEntries := mEntries - {displaced};
          }
        }
      } else {
        assert mEntries - {displaced} == mEntries;
      }
    }

    // ---- Choosing an address ----

    /** A slot names an address worth connecting to. */
    ghost predicate Usable(key: string, now: int)
      reads this
    {
      key != "" && key in mEntries && !IsTerrible(mEntries[key], now)
    }

    /** One row from a random position on, once around. In the last round every usable address is taken;
        before that a weighted coin may pass it over. */
    method ScanRow(row: seq<string>, draw: U64, spin: U64, lastResort: bool, coin: (U64, U64, Entry) -> bool, now: int)
      returns (found: bool, e: Entry, spin': U64)
      ensures found ==> exists k :: k in mEntries && mEntries[k] == e && !IsTerrible(e, now)
      ensures lastResort && !found ==> forall p :: 0 <= p < |row| ==> !Usable(row[p], now)
    {
      e := Entry("", 0, 0, 0, 0, 0, 0, "");
      spin' := spin;
      if |row| == 0 {
        return false, e, spin';
      }
      DivFacts(draw / 0x100_0000, |row|);
      var startPos := draw / 0x100_0000 % |row|;
      for i := 0 to |row|
        invariant lastResort ==> forall j :: 0 <= j < i ==> !Usable(row[Around(startPos, j, |row|)], now)
      {
        AroundIsModulo(startPos, i, |row|);
        var key := row[(startPos + i) % |row|];
        if key != "" && key in mEntries && !IsTerrible(mEntries[key], now) {
          var take := true;
          if !lastResort {
            spin' := (spin' + 1) % TWO64;
            take := coin(draw, spin', mEntries[key]);
          }
          if take {
            return true, mEntries[key], spin';
          }
        }
      }
      if lastResort {
        forall p | 0 <= p < |row|
          ensures !Usable(row[p], now)
        {
          var j := if p >= startPos then p - startPos else p + |row| - startPos;
          assert Around(startPos, j, |row|) == p;
        }
      }
      found := false;
    }

    /** All rows of a table from a random one on, once around. */
    method ScanTable(table: Table, draw: U64, spin: U64, lastResort: bool, coin: (U64, U64, Entry) -> bool, now: int)
      returns (found: bool, e: Entry, spin': U64)
      ensures found ==> exists k :: k in mEntries && mEntries[k] == e && !IsTerrible(e, now)
      ensures lastResort && !found ==> forall b: nat, p: nat :: !Usable(At(table, b, p), now)
    {
      e := Entry("", 0, 0, 0, 0, 0, 0, "");
      spin' := spin;
      if |table| == 0 {
        return false, e, spin';
      }
      DivFacts(draw / 256, |table|);
      var startBucket := draw / 256 % |table|;
      for n := 0 to |table|
        invariant lastResort ==> forall j :: 0 <= j < n ==> NoneUsable(table[Around(startBucket, j, |table|)], now)
      {
        AroundIsModulo(startBucket, n, |table|);
        found, e, spin' := ScanRow(table[(startBucket + n) % |table|], draw, spin', lastResort, coin, now);
        if found {
          return;
        }
      }
      if lastResort {
        forall b: nat, p: nat
          ensures !Usable(At(table, b, p), now)
        {
          if b < |table| {
            var j := if b >= startBucket then b - startBucket else b + |table| - startBucket;
            assert Around(startBucket, j, |table|) == b;
            assert NoneUsable(table[b], now);
          }
        }
      }
      found := false;
    }

    ghost predicate NoneUsable(row: seq<string>, now: int)
      reads this
    {
      forall p :: 0 <= p < |row| ==> !Usable(row[p], now)
    }

    /** Whatever is drawn, an address is found exactly when there is one that is not terrible. */
    method Select(r: U64, draws: seq<U64>, coin: (U64, U64, Entry) -> bool, now: int) returns (found: bool, ip: string, port: U16)
      requires Valid() && |draws| == WEIGHTED_ROUNDS + 1
      ensures found <==> exists k :: k in mEntries && !IsTerrible(mEntries[k], now)
      ensures found ==> exists k :: k in mEntries && !IsTerrible(mEntries[k], now) && mEntries[k].ip == ip && mEntries[k].port == port
    {
      ip, port := "", 0;
      if mEntries == map[] {
        return false, ip, port;
      }
      var triedTotal := TriedCount();
      var preferTried := triedTotal > 0 && r % 100 < 66;
      for round := 0 to WEIGHTED_ROUNDS + 1
        invariant round > WEIGHTED_ROUNDS ==> forall b: nat, p: nat :: !Usable(At(mNew, b, p), now) && !Usable(At(mTried, b, p), now)
      {
        var lastResort := round == WEIGHTED_ROUNDS;
        var e: Entry;
        var spin: U64;
        found, e, spin := ScanTable(if preferTried then mTried else mNew, draws[round], 0, lastResort, coin, now);
        if found {
          return true, e.ip, e.port;
        }
        found, e, spin := ScanTable(if preferTried then mNew else mTried, draws[round], spin, lastResort, coin, now);
        if found {
          return true, e.ip, e.port;
        }
      }
      AllListed(m, mEntries, mNew, mTried);
      found := false;
    }

    method Size() returns (n: nat)
      ensures n == |mEntries|
    {
      n := |mEntries|;
    }

    method NewCount() returns (n: nat)
      ensures n == InUse(mNew)
    {
      n := Count(mNew);
    }

    method TriedCount() returns (n: nat)
      ensures n == InUse(mTried)
    {
      n := Count(mTried);
    }
  }

  lemma EmptyKeyless(m: Mixer, entries: map<string, Entry>, news: Table, tried: Table)
    requires Sound(m, entries, news, tried)
    ensures "" !in entries
  {
    Opened(m, entries, news, tried);
    forall k | k in entries
      ensures k != ""
    {
      assert Key(entries[k]) == k;
    }
  }

  lemma PlacedSingle(m: Mixer, entries: map<string, Entry>, news: Table, tried: Table)
    requires NewPlaced(m, entries, news) && TriedPlaced(m, entries, tried)
    ensures Single(news) && Single(tried)
  {}

  lemma SlotsAreEntries(m: Mixer, entries: map<string, Entry>, news: Table, tried: Table)
    requires Keyed(entries) && NewPlaced(m, entries, news) && TriedPlaced(m, entries, tried)
    ensures forall k :: k in Keys(news) <==> k in entries && InNew(m, entries[k], news)
    ensures forall k :: k in Keys(tried) <==> k in entries && InTried(m, entries[k], tried)
  {
    forall k
      ensures k in Keys(news) <==> k in entries && InNew(m, entries[k], news)
      ensures k in Keys(tried) <==> k in entries && InTried(m, entries[k], tried)
    {
      KeysAt(news, k);
      KeysAt(tried, k);
    }
  }

  lemma SlotKeys(m: Mixer, entries: map<string, Entry>, news: Table, tried: Table)
    requires Sound(m, entries, news, tried)
    ensures entries.Keys == Keys(news) + Keys(tried) && Keys(news) !! Keys(tried)
  {
    Opened(m, entries, news, tried);
    SlotsAreEntries(m, entries, news, tried);
    forall k
      ensures k in entries.Keys <==> k in Keys(news) + Keys(tried)
    {}
  }

  /** Every entry takes up exactly one slot. */
  lemma SizeIsSlots(m: Mixer, entries: map<string, Entry>, news: Table, tried: Table)
    requires Sound(m, entries, news, tried)
    ensures |entries| == InUse(news) + InUse(tried)
  {
    assert InUse(news) == |Keys(news)| && InUse(tried) == |Keys(tried)| by {
      Opened(m, entries, news, tried);
      PlacedSingle(m, entries, news, tried);
      SingleCount(news);
      SingleCount(tried);
    }
    SlotKeys(m, entries, news, tried);
  }

  /** Every entry can be seen in some slot. */
  lemma AllListed(m: Mixer, entries: map<string, Entry>, news: Table, tried: Table)
    requires Sound(m, entries, news, tried)
    ensures forall k :: k in entries ==>
      k != "" && exists b: nat, p: nat :: At(news, b, p) == k || At(tried, b, p) == k
  {
    Opened(m, entries, news, tried);
    forall k | k in entries
      ensures k != "" && exists b: nat, p: nat :: At(news, b, p) == k || At(tried, b, p) == k
    {
      var e := entries[k];
      assert Key(e) == k;
      var b, c := NewBucketFor(m, e), TriedBucketFor(m, e);
      if InNew(m, e, news) {
        assert At(news, b, PositionIn(m, b, k)) == k;
      } else {
        assert At(tried, c, PositionIn(m, c, k)) == k;
      }
    }
  }

  /** i places after start, going around. */
  function Around(start: nat, i: nat, size: nat): (b: nat)
    requires start < size && i < size
    ensures b < size
  {
    if start + i < size then start + i else start + i - size
  }

  lemma AroundIsModulo(start: nat, i: nat, size: nat)
    requires start < size && i < size
    ensures (start + i) % size == Around(start, i, size)
  {
    if start + i < size {
      DivModUnique(start + i, size, 0, start + i);
    } else {
      DivModUnique(start + i, size, 1, start + i - size);
    }
  }

  // ---- Runs ----

  /** The new buckets that hold addresses from one source group. */
  ghost function OccupiedBy(m: Mixer, entries: map<string, Entry>, sourceGroup: string): set<nat> {
    set k | k in entries && m.groupOf(entries[k].source) == sourceGroup :: NewBucketFor(m, entries[k])
  }

  lemma OccupiedBound(m: Mixer, entries: map<string, Entry>, sourceGroup: string)
    ensures |OccupiedBy(m, entries, sourceGroup)| <= NEW_BUCKETS_PER_SOURCE_GROUP
  {
    NewReachBound(m, sourceGroup);
    Graph.SubsetSize(OccupiedBy(m, entries, sourceGroup), NewReach(m, sourceGroup));
  }

  datatype Event =
    | Add(ip: string, port: U16, services: U32, source: string)
    | Attempt(ip: string, port: U16)
    | Good(ip: string, port: U16)

  /** After any run from an empty manager every entry takes up exactly one slot. */
  method Run(m: Mixer, events: seq<(Event, int)>) returns (a: AddrMan, size: nat, newCount: nat, triedCount: nat)
    ensures fresh(a) && a.Valid() && a.m == m
    ensures size == |a.mEntries| == newCount + triedCount
  {
    a := new AddrMan(m);
    for i := 0 to |events|
      invariant fresh(a) && a.Valid() && a.m == m
    {
      match events[i].0
      case Add(ip, port, services, source) =>
        var added := a.Add(ip, port, services, source, events[i].1);
      case Attempt(ip, port) =>
        a.Attempt(ip, port, events[i].1);
      case Good(ip, port) =>
        a.Good(ip, port, events[i].1);
    }
    SizeIsSlots(m, a.mEntries, a.mNew, a.mTried);
    size := a.Size();
    newCount := a.NewCount();
    triedCount := a.TriedCount();
  }
}
