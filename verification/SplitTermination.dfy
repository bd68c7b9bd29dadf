/** When the split loop ends: exactly when some entry of the full bucket differs in hash from the
    one to be inserted (lib/gdbm/bucket.c:169-310). */
module SplitTermination {
  import opened Probing
  import opened Directory
  import opened Content
  import opened KeyHash

  /** Some entry has another hash than the one to be inserted. */
  ghost predicate Mixed(t: seq<Element>, hash: nat) {
    exists i :: 0 <= i < |t| && Used(t[i]) && t[i].hash != hash
  }

  function OtherHash(hash: nat): Element -> nat {
    (e: Element) => if e.hash != hash then 1 else 0
  }

  lemma MixedWeight(t: seq<Element>, hash: nat)
    ensures Mixed(t, hash) <==> Sum(t, OtherHash(hash)) > 0
  {
    if Mixed(t, hash) {
      var i :| 0 <= i < |t| && Used(t[i]) && t[i].hash != hash;
      SumSplit(t, i, OtherHash(hash));
    } else {
      ZeroSum(t, OtherHash(hash));
    }
  }

  lemma {:induction false} WeightWithinCount(t: seq<Element>, hash: nat)
    ensures Sum(t, OtherHash(hash)) <= Count(t)
  {
    if t != [] {
      WeightWithinCount(t[1..], hash);
      assert Count(t) == (if Used(t[0]) then 1 else 0) + Count(t[1..]);
    }
  }

  /** If all entries of a full bucket went to one side, that side has the same mixture of hashes. */
  lemma StillMixed(t: seq<Element>, t0: seq<Element>, t1: seq<Element>, newBits: nat, hash: nat)
    requires newBits <= HASH_BITS && Dealt(t, t0, t1, newBits) && Count(t) == |t|
    ensures Count(t0) == |t| ==> (Mixed(t0, hash) <==> Mixed(t, hash))
    ensures Count(t1) == |t| ==> (Mixed(t1, hash) <==> Mixed(t, hash))
  {
    assert Sum(t0, One()) + Sum(t1, One()) == Sum(t, One());
    var w := OtherHash(hash);
    assert Sum(t0, w) + Sum(t1, w) == Sum(t, w);
    WeightWithinCount(t0, hash);
    WeightWithinCount(t1, hash);
    MixedWeight(t, hash);
    MixedWeight(t0, hash);
    MixedWeight(t1, hash);
  }

  lemma SideHash(t: seq<Element>, t0: seq<Element>, t1: seq<Element>, newBits: nat, hash: nat, i: nat)
    requires newBits <= HASH_BITS && Dealt(t, t0, t1, newBits) && !Mixed(t, hash) && i < |t|
    ensures Used(t0[i]) ==> Select(hash, newBits) == 0
    ensures Used(t1[i]) ==> Select(hash, newBits) == 1
  {
  }

  /** If no entry differs from the hash to be inserted, the split leaves its side as full as
      before: the loop makes no progress. */
  lemma SplitStuck(t: seq<Element>, t0: seq<Element>, t1: seq<Element>, newBits: nat, hash: nat)
    requires newBits <= HASH_BITS && Dealt(t, t0, t1, newBits) && Count(t) == |t|
    requires !Mixed(t, hash)
    ensures var side := if Select(hash, newBits) == 0 then t0 else t1;
      Count(side) == |side| && !Mixed(side, hash)
  {
    var other := if Select(hash, newBits) == 0 then t1 else t0;
    assert Sum(t0, One()) + Sum(t1, One()) == Sum(t, One());
    if Count(other) > 0 {
      var i := SumWitness(other, One());
      SideHash(t, t0, t1, newBits, hash, i);
    }
    StillMixed(t, t0, t1, newBits, hash);
  }

  // ------------------------------------------------------------------ the whole loop

  /** One turn of the loop, on the table of the bucket that `hash` leads to. */
  ghost predicate Turn(t: seq<Element>, t': seq<Element>, newBits: nat, hash: nat)
    requires newBits <= HASH_BITS
  {
    && Count(t) == |t|
    && exists t0, t1 :: Dealt(t, t0, t1, newBits) && t' == if Select(hash, newBits) == 0 then t0 else t1
  }

  /** The tables after 0, 1, ... turns; the first uses `bits` bits of the hashes. */
  ghost predicate Turns(ts: seq<seq<Element>>, bits: nat, hash: nat) {
    && |ts| > 0 && bits + |ts| - 1 <= HASH_BITS
    && forall k :: 0 <= k < |ts| - 1 ==> Turn(ts[k], ts[k + 1], bits + (k + 1), hash)
  }

  /** All entries agree with `hash` in its top `bits` bits. */
  ghost predicate Agree(t: seq<Element>, bits: nat, hash: nat)
    requires bits <= HASH_BITS
  {
    forall i :: 0 <= i < |t| && Used(t[i]) ==>
      t[i].hash >= 0 && Shr(t[i].hash, HASH_BITS - bits) == Shr(hash, HASH_BITS - bits)
  }

  lemma OneMoreBit(x: nat, hash: nat, newBits: nat)
    requires 0 < newBits <= HASH_BITS
    requires Shr(x, HASH_BITS - (newBits - 1)) == Shr(hash, HASH_BITS - (newBits - 1))
    requires Select(x, newBits) == Select(hash, newBits)
    ensures Shr(x, HASH_BITS - newBits) == Shr(hash, HASH_BITS - newBits)
  {
    var k := HASH_BITS - newBits;
    assert Shr(x, k + 1) == Shr(x, k) / 2 && Shr(hash, k + 1) == Shr(hash, k) / 2;
  }

  /** A turn keeps the agreement, with one more bit, and whether a bucket still full is mixed. */
  lemma TurnKeeps(t: seq<Element>, t': seq<Element>, newBits: nat, hash: nat)
    requires 0 < newBits <= HASH_BITS && Turn(t, t', newBits, hash) && Agree(t, newBits - 1, hash)
    ensures Agree(t', newBits, hash) && |t'| == |t|
    ensures !Mixed(t, hash) ==> Count(t') == |t'| && !Mixed(t', hash)
    ensures Mixed(t, hash) && Count(t') == |t'| ==> Mixed(t', hash)
  {
    var t0, t1 :| Dealt(t, t0, t1, newBits) && t' == if Select(hash, newBits) == 0 then t0 else t1;
    StillMixed(t, t0, t1, newBits, hash);
    if !Mixed(t, hash) {
      SplitStuck(t, t0, t1, newBits, hash);
    }
    forall i | 0 <= i < |t'| && Used(t'[i])
      ensures t'[i].hash >= 0 && Shr(t'[i].hash, HASH_BITS - newBits) == Shr(hash, HASH_BITS - newBits)
    {
      assert t'[i] in t;
      var j :| 0 <= j < |t| && t[j] == t'[i];
      OneMoreBit(t[j].hash, hash, newBits);
    }
  }

  lemma {:induction false} AfterTurns(ts: seq<seq<Element>>, bits: nat, hash: nat, k: nat)
    requires Turns(ts, bits, hash) && Agree(ts[0], bits, hash) && Count(ts[0]) == |ts[0]| && k < |ts|
    ensures Agree(ts[k], bits + k, hash)
    ensures !Mixed(ts[0], hash) ==> Count(ts[k]) == |ts[k]| && !Mixed(ts[k], hash)
    ensures Mixed(ts[0], hash) && Count(ts[k]) == |ts[k]| ==> Mixed(ts[k], hash)
  {
    if k > 0 {
      var j := k - 1;
      AfterTurns(ts, bits, hash, j);
      assert Turn(ts[j], ts[j + 1], bits + (j + 1), hash);
      TurnKeeps(ts[j], ts[k], bits + k, hash);
    }
  }

  /** With all bits of the hash used up, no entry can differ from it. */
  lemma AllBitsAgree(t: seq<Element>, hash: nat)
    requires Agree(t, HASH_BITS, hash)
    ensures !Mixed(t, hash)
  {
    assert Shr(hash, 0) == hash;
    forall i | 0 <= i < |t| && Used(t[i]) ensures t[i].hash == hash {
      assert Shr(t[i].hash, 0) == t[i].hash;
    }
  }

  /** The loop on a full bucket, followed until the bucket has room or all bits are used up: it ends
      with room exactly when some entry of the bucket had another hash than the one to be inserted.
      Otherwise the bucket is as full as before after every turn. */
  lemma LoopEndsExactly(ts: seq<seq<Element>>, bits: nat, hash: nat)
    requires Turns(ts, bits, hash) && Agree(ts[0], bits, hash) && Count(ts[0]) == |ts[0]|
    requires var n := |ts| - 1; Count(ts[n]) == |ts[n]| ==> bits + n == HASH_BITS
    ensures var n := |ts| - 1; Count(ts[n]) != |ts[n]| <==> Mixed(ts[0], hash)
    ensures !Mixed(ts[0], hash) ==> forall k :: 0 <= k < |ts| ==> Count(ts[k]) == |ts[k]|
  {
    var n := |ts| - 1;
    forall k | 0 <= k < |ts| ensures !Mixed(ts[0], hash) ==> Count(ts[k]) == |ts[k]| {
      AfterTurns(ts, bits, hash, k);
    }
    AfterTurns(ts, bits, hash, n);
    if Count(ts[n]) == |ts[n]| {
      AllBitsAgree(ts[n], hash);
    }
  }

  /** Such a bucket exists: the entries of as many different keys as a bucket of `n` slots holds, and
      one key more, all with one hash. */
  function OneHashTable(n: nat): (t: seq<Element>)
    requires n < 127
    ensures |t| == n && forall i :: 0 <= i < n ==> t[i] == NewEntry(CollidingKey(i + 1), [], 25 * (i + 1))
  {
    seq(n, i requires 0 <= i < n => NewEntry(CollidingKey(i + 1), [], 25 * (i + 1)))
  }

  lemma OneHashTableIsStuck(n: nat)
    requires n < 127
    ensures var t, hash := OneHashTable(n), Hash(CollidingKey(0));
      && Count(t) == |t| && !Mixed(t, hash) && Agree(t, 0, hash)
      && (forall i :: 0 <= i < n ==> t[i].hash == hash && CollidingKey(i + 1) != CollidingKey(0))
  {
    hide Hash, CollidingKey, Count;
    var t, hash := OneHashTable(n), Hash(CollidingKey(0));
    forall i | 0 <= i < n ensures t[i].hash == hash && CollidingKey(i + 1) != CollidingKey(0) {
      CollidingKeys(i + 1, 0);
    }
    AllUsedCount(t);
  }

  lemma {:induction false} AllUsedCount(t: seq<Element>)
    requires forall i :: 0 <= i < |t| ==> Used(t[i])
    ensures Count(t) == |t|
  {
    if t != [] {
      AllUsedCount(t[1..]);
      assert Count(t) == 1 + Count(t[1..]);
    }
  }

  // ------------------------------------------------------------------ buckets of a directory

  /** Two hashes that lead to the same bucket agree in that bucket's bits; with all bits used they
      are equal. */
  lemma SameBucketSameBits(dir: seq<nat>, d: nat, live: Live, a: nat, h1: nat, h2: nat)
    requires DirOk(dir, d, live) && HomeIs(dir, d, h1, a) && HomeIs(dir, d, h2, a)
    ensures a in live && live[a].bits <= d
    ensures Shr(h1, HASH_BITS - live[a].bits) == Shr(h2, HASH_BITS - live[a].bits)
    ensures live[a].bits == HASH_BITS ==> h1 == h2
  {
    SlotInRange(h1, d);
    SlotInRange(h2, d);
    assert Shares(dir, d, live[a].bits, Slot(h1, d), Slot(h2, d));
    ShrAdd(h1, HASH_BITS - d, d - live[a].bits);
    ShrAdd(h2, HASH_BITS - d, d - live[a].bits);
  }

  /** A bucket with a mixture of hashes has not used up its hash bits: it can be split again. */
  lemma MixedHasBits(dir: seq<nat>, d: nat, live: Live, a: nat, hash: nat)
    requires DirOk(dir, d, live) && EntriesHome(dir, d, live) && HomeIs(dir, d, hash, a)
    requires a in live && Mixed(live[a].table, hash)
    ensures live[a].bits < HASH_BITS
  {
    var i :| 0 <= i < |live[a].table| && Used(live[a].table[i]) && live[a].table[i].hash != hash;
    assert HomeIs(dir, d, live[a].table[i].hash, a);
    SameBucketSameBits(dir, d, live, a, hash, live[a].table[i].hash);
  }
}
