/** How the buckets of a file stand for a map from keys to data, and that splitting a bucket,
    storing, replacing and deleting change that map as they should. */
module Content {
  import opened Extents
  import opened Probing
  import opened Directory
  import opened KeyHash
  import opened Pages
  import Falloc

  type Map = map<Bytes, Bytes>

  const SMALL: nat := 4   // key bytes kept in the bucket

  function Prefix(key: Bytes): (start: Bytes)
    ensures start <= key && |start| <= SMALL && (|start| < SMALL ==> start == key)
  {
    key[..if |key| < SMALL then |key| else SMALL]
  }

  function KeyOf(recs: Records, e: Element): Bytes {
    var r := RecordBytes(recs, e);
    if |r| >= e.keySize then r[..e.keySize] else r
  }

  function DataOf(recs: Records, e: Element): Bytes {
    var r := RecordBytes(recs, e);
    if |r| >= e.keySize then r[e.keySize..] else []
  }

  ghost predicate BucketOk(bucket: Bucket, n: nat) {
    && |bucket.table| == n
    && bucket.count == Count(bucket.table)
    && Reachable(bucket.table)
    && Big(bucket.av) && |bucket.av| <= Falloc.BUCKET_AVAIL
  }

  ghost predicate BucketsShaped(live: Live, n: nat) {
    forall a :: a in live ==> BucketOk(live[a], n)
  }

  /** An entry agrees with its record and with the map. */
  ghost predicate EntryOk(e: Element, recs: Records, content: Map) {
    && |RecordBytes(recs, e)| == e.keySize + e.dataSize
    && e.hash == Hash(KeyOf(recs, e))
    && e.keyStart == Prefix(KeyOf(recs, e))
    && KeyOf(recs, e) in content
    && content[KeyOf(recs, e)] == DataOf(recs, e)
  }

  ghost predicate EntriesOk(live: Live, recs: Records, content: Map) {
    forall a, i :: a in live && 0 <= i < |live[a].table| && Used(live[a].table[i])
                   ==> EntryOk(live[a].table[i], recs, content)
  }

  function HasKey(recs: Records, key: Bytes): Element -> nat {
    e => if KeyOf(recs, e) == key then 1 else 0
  }

  /** How many entries of a table carry the key. */
  function Hits(recs: Records, t: seq<Element>, key: Bytes): nat {
    Sum(t, HasKey(recs, key))
  }

  /** The bucket the directory selects for a key. */
  ghost function BucketOf(dir: seq<nat>, d: nat, key: Bytes): (a: nat)
    requires d <= HASH_BITS && |dir| == Shl(1, d)
    ensures a in dir
  {
    SlotInRange(Hash(key), d);
    dir[Slot(Hash(key), d)]
  }

  ghost predicate KeyOk(dir: seq<nat>, d: nat, live: Live, recs: Records, content: Map, key: Bytes)
    requires DirOk(dir, d, live)
  {
    Hits(recs, live[BucketOf(dir, d, key)].table, key) == if key in content then 1 else 0
  }

  /** Every key of the map has exactly one entry in the bucket its hash selects, every other key none. */
  ghost predicate KeysOk(dir: seq<nat>, d: nat, live: Live, recs: Records, content: Map)
    requires DirOk(dir, d, live)
  {
    forall key: Bytes :: KeyOk(dir, d, live, recs, content, key)
  }

  /** The buckets stand for the map `content`. */
  ghost predicate Represents(dir: seq<nat>, d: nat, live: Live, recs: Records, content: Map) {
    && DirOk(dir, d, live)
    && EntriesHome(dir, d, live)
    && EntriesOk(live, recs, content)
    && KeysOk(dir, d, live, recs, content)
  }

  // ------------------------------------------------------------------ counting keys

  /** Entries that all fail a weight add up to nothing. */
  lemma ZeroSum(t: seq<Element>, w: Element -> nat)
    requires forall i :: 0 <= i < |t| && Used(t[i]) ==> w(t[i]) == 0
    ensures Sum(t, w) == 0
  {
    if Sum(t, w) > 0 {
      var i := SumWitness(t, w);
    }
  }

  lemma {:induction false} SameWeights(t: seq<Element>, w: Element -> nat, v: Element -> nat)
    requires forall i :: 0 <= i < |t| && Used(t[i]) ==> w(t[i]) == v(t[i])
    ensures Sum(t, w) == Sum(t, v)
  {
    if t != [] {
      SameWeights(t[1..], w, v);
    }
  }

  /** An entry of the smaller table is an entry of the larger. */
  lemma EntryFrom(t: seq<Element>, u: seq<Element>, i: nat) returns (j: nat)
    requires i < |t| && Used(t[i])
    requires forall w: Element -> nat :: Sum(t, w) <= Sum(u, w)
    ensures j < |u| && u[j] == t[i]
  {
    var w := IsElement(t[i]);
    SumSplit(t, i, w);
    assert Sum(t, w) <= Sum(u, w);
    j := SumWitness(u, w);
  }

  /** If the key is in the map, its entry is somewhere in the table; if not, nowhere. */
  lemma KeyPresent(dir: seq<nat>, d: nat, live: Live, recs: Records, content: Map, key: Bytes)
    requires Represents(dir, d, live, recs, content)
    ensures var t := live[BucketOf(dir, d, key)].table;
      key in content <==> exists i :: 0 <= i < |t| && Used(t[i]) && KeyOf(recs, t[i]) == key
  {
    var t := live[BucketOf(dir, d, key)].table;
    assert KeyOk(dir, d, live, recs, content, key);
    if key in content {
      var i := SumWitness(t, HasKey(recs, key));
      assert KeyOf(recs, t[i]) == key;
    } else {
      forall i | 0 <= i < |t| && Used(t[i]) ensures KeyOf(recs, t[i]) != key {
        SumSplit(t, i, HasKey(recs, key));
      }
    }
  }

  /** Only one slot can hold the key. */
  lemma KeyUnique(dir: seq<nat>, d: nat, live: Live, recs: Records, content: Map, key: Bytes, i: nat, j: nat)
    requires Represents(dir, d, live, recs, content)
    requires var t := live[BucketOf(dir, d, key)].table;
      && i < |t| && j < |t| && Used(t[i]) && Used(t[j])
      && KeyOf(recs, t[i]) == key && KeyOf(recs, t[j]) == key
    ensures i == j
  {
    var t := live[BucketOf(dir, d, key)].table;
    assert KeyOk(dir, d, live, recs, content, key);
    if i < j {
      SumTwo(t, i, j, HasKey(recs, key));
    } else if j < i {
      SumTwo(t, j, i, HasKey(recs, key));
    }
  }

  // ------------------------------------------------------------------ changes that keep the map

  /** Only the free extents of one bucket changed. */
  ghost predicate SameTables(live: Live, live': Live) {
    && live'.Keys == live.Keys
    && forall a :: a in live ==> live'[a].table == live[a].table && live'[a].bits == live[a].bits
  }

  lemma SameTablesRepresents(dir: seq<nat>, d: nat, live: Live, live': Live, recs: Records, content: Map)
    requires Represents(dir, d, live, recs, content) && SameTables(live, live')
    ensures Represents(dir, d, live', recs, content)
  {
    SameTablesDirectory(dir, d, live, live');
    forall key: Bytes ensures KeyOk(dir, d, live', recs, content, key) {
      assert KeyOk(dir, d, live, recs, content, key);
    }
  }

  lemma SameTablesDirectory(dir: seq<nat>, d: nat, live: Live, live': Live)
    requires DirOk(dir, d, live) && SameTables(live, live')
    ensures DirOk(dir, d, live')
  {
    forall i, j | 0 <= i < |dir| && 0 <= j < |dir| ensures Shares(dir, d, live'[dir[i]].bits, i, j) {
      assert Shares(dir, d, live[dir[i]].bits, i, j);
    }
  }

  /** Doubling the directory does not change what the buckets stand for. */
  lemma DoublingRepresents(dir: seq<nat>, d: nat, live: Live, recs: Records, content: Map)
    requires Represents(dir, d, live, recs, content) && d < HASH_BITS
    ensures Represents(Doubled(dir), d + 1, live, recs, content)
  {
    DoublingKeepsDirectory(dir, d, live);
    var dd, d' := Doubled(dir), d + 1;
    forall a, i | a in live && 0 <= i < |live[a].table| && Used(live[a].table[i])
      ensures HomeIs(dd, d', live[a].table[i].hash, a)
    {
      DoublingKeepsHome(dir, d, live[a].table[i].hash, a);
    }
    forall key: Bytes ensures KeyOk(dd, d', live, recs, content, key) {
      assert KeyOk(dir, d, live, recs, content, key);
      SlotInRange(Hash(key), d);
      DoublingKeepsHome(dir, d, Hash(key), BucketOf(dir, d, key));
      SlotInRange(Hash(key), d');
    }
  }

  // ------------------------------------------------------------------ splitting a bucket

  /** The entries of `t0` are entries of `t` whose next bit is `bit`. */
  ghost predicate FromSide(t: seq<Element>, t0: seq<Element>, newBits: nat, bit: nat)
    requires newBits <= HASH_BITS
  {
    forall i :: 0 <= i < |t0| && Used(t0[i]) ==> t0[i] in t && t0[i].hash >= 0 && Select(t0[i].hash, newBits) == bit
  }

  /** The entries of `t` dealt out to two tables by the next hash bit. */
  ghost predicate Dealt(t: seq<Element>, t0: seq<Element>, t1: seq<Element>, newBits: nat)
    requires newBits <= HASH_BITS
  {
    && |t0| == |t| && |t1| == |t|
    && Reachable(t0) && Reachable(t1)
    && (forall w: Element -> nat :: Sum(t0, w) + Sum(t1, w) == Sum(t, w))
    && FromSide(t, t0, newBits, 0) && FromSide(t, t1, newBits, 1)
  }

  /** An entry put into the first empty slot from its home. */
  method PlaceIn(t: seq<Element>, e: Element) returns (t': seq<Element>)
    requires Reachable(t) && Count(t) < |t| && Used(e) && e.hash >= 0
    ensures |t'| == |t| && Reachable(t')
    ensures forall w: Element -> nat :: Sum(t', w) == Sum(t, w) + w(e)
    ensures forall i :: 0 <= i < |t'| ==> t'[i] == e || t'[i] == t[i]
  {
    var loc := FindFree(t, e.hash);
    PlaceReachable(t, loc, e);
    t' := t[loc := e];
    forall w: Element -> nat ensures Sum(t', w) == Sum(t, w) + w(e) {
      SumUpdate(t, loc, e, w);
    }
  }

  /** The loop of the split that moves every entry of the full bucket to one of the new ones
      (lib/gdbm/bucket.c:227-239). */
  method Deal(t: seq<Element>, newBits: nat) returns (t0: seq<Element>, t1: seq<Element>)
    requires |t| > 0 && newBits <= HASH_BITS
    requires forall i :: 0 <= i < |t| ==> Used(t[i]) && t[i].hash >= 0
    ensures Dealt(t, t0, t1, newBits)
  {
    hide Reachable, Select;
    t0, t1 := EmptyTable(|t|), EmptyTable(|t|);
    EmptyIsReachable(|t|);
    forall w: Element -> nat ensures Sum(t0, w) + Sum(t1, w) == 0 {
      UnusedSum(t0, w);
    }
    assert t[..0] == [];
    for index := 0 to |t|
      invariant |t0| == |t| && |t1| == |t| && Reachable(t0) && Reachable(t1)
      invariant forall w: Element -> nat :: Sum(t0, w) + Sum(t1, w) == Sum(t[..index], w)
      invariant FromSide(t, t0, newBits, 0) && FromSide(t, t1, newBits, 1)
    {
      var e := t[index];
      CountBound(t[..index]);
      assert Sum(t0, One()) + Sum(t1, One()) == Count(t[..index]);
      if Select(e.hash, newBits) == 0 {
        t0 := PlaceIn(t0, e);
      } else {
        t1 := PlaceIn(t1, e);
      }
      forall w: Element -> nat ensures Sum(t[..index + 1], w) == Sum(t[..index], w) + w(e) {
        assert t[..index + 1] == t[..index] + [e];
        SumAppend(t[..index], e, w);
      }
    }
    assert t[..|t|] == t;
  }

  lemma EmptyIsReachable(n: nat)
    ensures Reachable(EmptyTable(n))
  {
  }

  /** The live buckets after a split of bucket `a` into `a0` and `a1`. */
  ghost predicate SplitBuckets(live: Live, live': Live, a: nat, a0: nat, a1: nat)
    requires a in live
  {
    && SplitLive(live, live', a, a0, a1)
    && live[a].bits < HASH_BITS
    && Dealt(live[a].table, live'[a0].table, live'[a1].table, live[a].bits + 1)
  }

  /** The side of the split that `hash` belongs to. */
  function Side(hash: nat, newBits: nat, a0: nat, a1: nat): nat
    requires newBits <= HASH_BITS
  {
    if Select(hash, newBits) == 0 then a0 else a1
  }

  lemma DealtKey(live: Live, live': Live, a: nat, a0: nat, a1: nat, recs: Records, content: Map, key: Bytes)
    requires a in live && SplitBuckets(live, live', a, a0, a1) && EntriesOk(live, recs, content)
    ensures Hits(recs, live'[Side(Hash(key), live[a].bits + 1, a0, a1)].table, key)
         == Hits(recs, live[a].table, key)
  {
    var t, t0, t1 := live[a].table, live'[a0].table, live'[a1].table;
    var w := HasKey(recs, key);
    assert Sum(t0, w) + Sum(t1, w) == Sum(t, w);
    if Select(Hash(key), live[a].bits + 1) == 0 {
      forall i | 0 <= i < |t1| && Used(t1[i]) ensures w(t1[i]) == 0 {
        assert EntryOk(t1[i], recs, content);
      }
      ZeroSum(t1, w);
    } else {
      forall i | 0 <= i < |t0| && Used(t0[i]) ensures w(t0[i]) == 0 {
        assert EntryOk(t0[i], recs, content);
      }
      ZeroSum(t0, w);
    }
  }

  lemma SplitEntry(live: Live, live': Live, a: nat, a0: nat, a1: nat, x: nat, i: nat) returns (y: nat, j: nat)
    requires a in live && SplitBuckets(live, live', a, a0, a1)
    requires x in live' && i < |live'[x].table| && Used(live'[x].table[i])
    ensures y in live && j < |live[y].table| && live[y].table[j] == live'[x].table[i]
    ensures y == (if x == a0 || x == a1 then a else x)
    ensures x == a0 || x == a1 ==>
      live'[x].table[i].hash >= 0 && x == Side(live'[x].table[i].hash, live[a].bits + 1, a0, a1)
  {
    if x == a0 || x == a1 {
      y := a;
      assert live'[x].table[i] in live[a].table;
      j :| 0 <= j < |live[a].table| && live[a].table[j] == live'[x].table[i];
    } else {
      y, j := x, i;
    }
  }

  lemma SplitKeepsKey(dir: seq<nat>, dir': seq<nat>, d: nat, live: Live, live': Live, cur: nat,
                      a0: nat, a1: nat, recs: Records, content: Map, key: Bytes)
    requires DirOk(dir, d, live) && EntriesOk(live, recs, content)
    requires cur < |dir| && live[dir[cur]].bits < d
    requires SplitSlots(dir, dir', d, dir[cur], live[dir[cur]].bits + 1, a0, a1)
    requires SplitBuckets(live, live', dir[cur], a0, a1)
    requires DirOk(dir', d, live')
    requires KeyOk(dir, d, live, recs, content, key)
    ensures KeyOk(dir', d, live', recs, content, key)
  {
    var a := dir[cur];
    SlotInRange(Hash(key), d);
    SplitKeepsHome(dir, dir', d, a, live[a].bits + 1, a0, a1, Hash(key), BucketOf(dir, d, key));
    DealtKey(live, live', a, a0, a1, recs, content, key);
  }

  lemma SplitKeepsEntry(dir: seq<nat>, dir': seq<nat>, d: nat, live: Live, live': Live, cur: nat,
                        a0: nat, a1: nat, recs: Records, content: Map, x: nat, i: nat)
    requires DirOk(dir, d, live) && EntriesHome(dir, d, live) && EntriesOk(live, recs, content)
    requires cur < |dir| && live[dir[cur]].bits < d
    requires SplitSlots(dir, dir', d, dir[cur], live[dir[cur]].bits + 1, a0, a1)
    requires SplitBuckets(live, live', dir[cur], a0, a1)
    requires x in live' && i < |live'[x].table| && Used(live'[x].table[i])
    ensures HomeIs(dir', d, live'[x].table[i].hash, x)
    ensures EntryOk(live'[x].table[i], recs, content)
  {
    var a := dir[cur];
    var y, j := SplitEntry(live, live', a, a0, a1, x, i);
    var e := live[y].table[j];
    assert HomeIs(dir, d, e.hash, y);
    SplitKeepsHome(dir, dir', d, a, live[a].bits + 1, a0, a1, e.hash, y);
  }

  /** Splitting preserves meaning: with the directory redirected, the new buckets stand for the
      same map. */
  lemma SplitRepresents(dir: seq<nat>, dir': seq<nat>, d: nat, live: Live, live': Live, cur: nat,
                        a0: nat, a1: nat, recs: Records, content: Map)
    requires Represents(dir, d, live, recs, content)
    requires cur < |dir| && live[dir[cur]].bits < d
    requires SplitSlots(dir, dir', d, dir[cur], live[dir[cur]].bits + 1, a0, a1)
    requires SplitBuckets(live, live', dir[cur], a0, a1)
    ensures Represents(dir', d, live', recs, content)
  {
    SplitKeepsDirectory(dir, dir', d, live, live', cur, a0, a1);
    forall x, i | x in live' && 0 <= i < |live'[x].table| && Used(live'[x].table[i])
      ensures HomeIs(dir', d, live'[x].table[i].hash, x)
      ensures EntryOk(live'[x].table[i], recs, content)
    {
      SplitKeepsEntry(dir, dir', d, live, live', cur, a0, a1, recs, content, x, i);
    }
    forall key: Bytes ensures KeyOk(dir', d, live', recs, content, key) {
      assert KeyOk(dir, d, live, recs, content, key);
      SplitKeepsKey(dir, dir', d, live, live', cur, a0, a1, recs, content, key);
    }
  }

  // ------------------------------------------------------------------ taking an entry out

  /** `t'` is `t` without the entry `e`, the others possibly in other slots. */
  ghost predicate Lacks(t: seq<Element>, t': seq<Element>, e: Element) {
    && Used(e)
    && |t'| == |t|
    && forall w: Element -> nat :: Sum(t', w) + w(e) == Sum(t, w)
  }

  lemma ErasedLacks(t: seq<Element>, i: nat)
    requires i < |t| && Used(t[i])
    ensures Lacks(t, Erase(t, i), t[i])
  {
    forall w: Element -> nat ensures Sum(Erase(t, i), w) + w(t[i]) == Sum(t, w) {
      SumUpdate(t, i, t[i].(hash := NO_HASH), w);
    }
  }

  lemma LacksEntry(t: seq<Element>, t': seq<Element>, e: Element, i: nat) returns (j: nat)
    requires Lacks(t, t', e) && i < |t'| && Used(t'[i])
    ensures j < |t| && t[j] == t'[i]
  {
    forall w: Element -> nat ensures Sum(t', w) <= Sum(t, w) {
      assert Sum(t', w) + w(e) == Sum(t, w);
    }
    j := EntryFrom(t', t, i);
  }

  ghost predicate WithTable(live: Live, live': Live, a: nat, t: seq<Element>)
    requires a in live
  {
    && live'.Keys == live.Keys
    && (forall x :: x in live && x != a ==> live'[x] == live[x])
    && live'[a].table == t && live'[a].bits == live[a].bits && live'[a].av == live[a].av
  }

  lemma WithTableDirectory(dir: seq<nat>, d: nat, live: Live, live': Live, a: nat, t: seq<Element>)
    requires DirOk(dir, d, live) && a in live && WithTable(live, live', a, t)
    ensures DirOk(dir, d, live')
  {
    forall i, j | 0 <= i < |dir| && 0 <= j < |dir| ensures Shares(dir, d, live'[dir[i]].bits, i, j) {
      assert Shares(dir, d, live[dir[i]].bits, i, j);
    }
  }

  lemma RemoveKeepsEntries(dir: seq<nat>, d: nat, live: Live, live': Live, recs: Records, content: Map,
                           a: nat, t: seq<Element>, e: Element)
    requires Represents(dir, d, live, recs, content)
    requires a in live && WithTable(live, live', a, t) && Lacks(live[a].table, t, e)
    requires a == BucketOf(dir, d, KeyOf(recs, e)) && Hits(recs, t, KeyOf(recs, e)) == 0
    ensures EntriesHome(dir, d, live')
    ensures EntriesOk(live', recs, content - {KeyOf(recs, e)})
  {
    var key := KeyOf(recs, e);
    forall x, i | x in live' && 0 <= i < |live'[x].table| && Used(live'[x].table[i])
      ensures HomeIs(dir, d, live'[x].table[i].hash, x)
      ensures EntryOk(live'[x].table[i], recs, content - {key})
    {
      var el := live'[x].table[i];
      if x == a {
        var j := LacksEntry(live[a].table, t, e, i);
        assert HomeIs(dir, d, el.hash, x) && EntryOk(live[a].table[j], recs, content);
        SumSplit(t, i, HasKey(recs, key));
        assert Sum(t, HasKey(recs, key)) == 0;
        assert KeyOf(recs, el) != key;
      } else {
        assert HomeIs(dir, d, el.hash, x) && EntryOk(live[x].table[i], recs, content);
      }
    }
  }

  /** Taking out the entry of a key takes that key, and only that key, out of the map. */
  lemma RemoveRepresents(dir: seq<nat>, d: nat, live: Live, live': Live, recs: Records, content: Map,
                         a: nat, t: seq<Element>, e: Element)
    requires Represents(dir, d, live, recs, content)
    requires a in live && WithTable(live, live', a, t) && Lacks(live[a].table, t, e)
    requires KeyOf(recs, e) in content && a == BucketOf(dir, d, KeyOf(recs, e))
    ensures Represents(dir, d, live', recs, content - {KeyOf(recs, e)})
  {
    var key := KeyOf(recs, e);
    var content' := content - {key};
    WithTableDirectory(dir, d, live, live', a, t);
    assert KeyOk(dir, d, live, recs, content, key);
    assert Sum(t, HasKey(recs, key)) + HasKey(recs, key)(e) == Sum(live[a].table, HasKey(recs, key));
    RemoveKeepsEntries(dir, d, live, live', recs, content, a, t, e);
    forall k: Bytes ensures KeyOk(dir, d, live', recs, content', k) {
      assert KeyOk(dir, d, live, recs, content, k);
      if k != key && BucketOf(dir, d, k) == a {
        assert Sum(t, HasKey(recs, k)) + HasKey(recs, k)(e) == Sum(live[a].table, HasKey(recs, k));
      }
    }
  }

  // ------------------------------------------------------------------ putting an entry in

  /** The record contents after `bytes` have been written at `adr`. */
  function WithRecord(recs: Records, adr: nat, bytes: Bytes): Records {
    if bytes == [] then recs else recs[adr := bytes]
  }

  /** No entry has its record at `adr`. */
  ghost predicate FreshAddress(live: Live, adr: nat) {
    forall a, i :: a in live && 0 <= i < |live[a].table| && Used(live[a].table[i])
      ==> live[a].table[i].keySize + live[a].table[i].dataSize > 0 ==> live[a].table[i].dataPointer != adr
  }

  function NewEntry(key: Bytes, data: Bytes, adr: nat): Element {
    Element(Hash(key), Prefix(key), adr, |key|, |data|)
  }

  lemma NewEntryOk(key: Bytes, data: Bytes, adr: nat, recs: Records, content: Map)
    requires key in content && content[key] == data
    ensures var recs' := WithRecord(recs, adr, key + data); var e := NewEntry(key, data, adr);
      KeyOf(recs', e) == key && DataOf(recs', e) == data && EntryOk(e, recs', content)
      && RecordBytes(recs', e) == key + data
  {
    var recs' := WithRecord(recs, adr, key + data);
    var e := NewEntry(key, data, adr);
    assert RecordBytes(recs', e) == key + data;
    assert (key + data)[..|key|] == key && (key + data)[|key|..] == data;
  }

  lemma OtherRecords(live: Live, recs: Records, adr: nat, bytes: Bytes, a: nat, i: nat)
    requires bytes == [] || FreshAddress(live, adr)
    requires a in live && i < |live[a].table| && Used(live[a].table[i])
    ensures RecordBytes(WithRecord(recs, adr, bytes), live[a].table[i]) == RecordBytes(recs, live[a].table[i])
  {
  }

  lemma OtherHits(live: Live, recs: Records, adr: nat, bytes: Bytes, a: nat, k: Bytes)
    requires bytes == [] || FreshAddress(live, adr)
    requires a in live
    ensures Hits(WithRecord(recs, adr, bytes), live[a].table, k) == Hits(recs, live[a].table, k)
  {
    var recs' := WithRecord(recs, adr, bytes);
    var t := live[a].table;
    forall i | 0 <= i < |t| && Used(t[i]) ensures HasKey(recs', k)(t[i]) == HasKey(recs, k)(t[i]) {
      OtherRecords(live, recs, adr, bytes, a, i);
    }
    SameWeights(t, HasKey(recs', k), HasKey(recs, k));
  }

  lemma PutKeepsEntries(dir: seq<nat>, d: nat, live: Live, live': Live, recs: Records, content: Map,
                        a: nat, i: nat, key: Bytes, data: Bytes, adr: nat)
    requires Represents(dir, d, live, recs, content) && key !in content
    requires key + data == [] || FreshAddress(live, adr)
    requires a == BucketOf(dir, d, key) && i < |live[a].table| && !Used(live[a].table[i])
    requires WithTable(live, live', a, live[a].table[i := NewEntry(key, data, adr)])
    ensures EntriesHome(dir, d, live')
    ensures EntriesOk(live', WithRecord(recs, adr, key + data), content[key := data])
  {
    var recs', content' := WithRecord(recs, adr, key + data), content[key := data];
    NewEntryOk(key, data, adr, recs, content');
    forall x, j | x in live' && 0 <= j < |live'[x].table| && Used(live'[x].table[j])
      ensures HomeIs(dir, d, live'[x].table[j].hash, x)
      ensures EntryOk(live'[x].table[j], recs', content')
    {
      if x == a && j == i {
        SlotInRange(Hash(key), d);
      } else {
        var el := live[x].table[j];
        assert HomeIs(dir, d, el.hash, x) && EntryOk(el, recs, content);
        OtherRecords(live, recs, adr, key + data, x, j);
      }
    }
  }

  /** Putting an entry for a new key into a free slot of its bucket adds that key to the map. */
  lemma PutRepresents(dir: seq<nat>, d: nat, live: Live, live': Live, recs: Records, content: Map,
                      a: nat, i: nat, key: Bytes, data: Bytes, adr: nat)
    requires Represents(dir, d, live, recs, content) && key !in content
    requires key + data == [] || FreshAddress(live, adr)
    requires a == BucketOf(dir, d, key) && i < |live[a].table| && !Used(live[a].table[i])
    requires WithTable(live, live', a, live[a].table[i := NewEntry(key, data, adr)])
    ensures Represents(dir, d, live', WithRecord(recs, adr, key + data), content[key := data])
  {
    var recs', content' := WithRecord(recs, adr, key + data), content[key := data];
    var t, e := live[a].table, NewEntry(key, data, adr);
    WithTableDirectory(dir, d, live, live', a, t[i := e]);
    PutKeepsEntries(dir, d, live, live', recs, content, a, i, key, data, adr);
    NewEntryOk(key, data, adr, recs, content');
    forall k: Bytes ensures KeyOk(dir, d, live', recs', content', k) {
      assert KeyOk(dir, d, live, recs, content, k);
      var y := BucketOf(dir, d, k);
      OtherHits(live, recs, adr, key + data, y, k);
      if y == a {
        SumUpdate(t, i, e, HasKey(recs', k));
      }
    }
  }
}
