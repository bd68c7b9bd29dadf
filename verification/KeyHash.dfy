/** The hash function of the database (lib/gdbm/hash.c). */
module KeyHash {
  import opened Probing
  import opened Directory

  const MASK: nat := 0x8000_0000   // & 0x7FFFFFFF keeps a value modulo this

  /** One step of the loop: the (signed) byte is shifted by an amount that cycles below 24. */
  function Mix(value: nat, c: Char, index: nat): (v: nat)
    ensures v < MASK
  {
    (value + c * Shl(1, index * 5 % 24)) % MASK
  }

  function MixAll(value: nat, key: Bytes, index: nat): nat
    requires index <= |key|
    decreases |key| - index
  {
    if index == |key| then value else MixAll(Mix(value, key[index], index), key, index + 1)
  }

  lemma MaskIsHashRange()
    ensures Shl(1, HASH_BITS) == MASK
  {
    assert Shl(1, 8) == 0x100;
    ShlAdd(1, 8, 8);
    assert Shl(0x100, 8) == 0x1_0000;
    ShlAdd(1, 16, 8);
    assert Shl(0x1_0000, 8) == 0x100_0000;
    ShlAdd(1, 24, 7);
    assert Shl(0x100_0000, 7) == 0x8000_0000;
  }

  function Hash(key: Bytes): (h: nat)
    ensures HashOk(h)
  {
    MaskIsHashRange();
    (1103515243 * MixAll(0x238F13AF * |key| % 0x1_0000_0000, key, 0) + 12345) % MASK
  }

  // ------------------------------------------------------------------ the hash in closed form

  /** The bytes from `index` on, shifted by 0, 5, 10, 15, 20, 1, 6, ... bits, and added up. */
  function ShiftedSum(key: Bytes, index: nat): int
    requires index <= |key|
    decreases |key| - index
  {
    if index == |key| then 0 else key[index] * Shl(1, index * 5 % 24) + ShiftedSum(key, index + 1)
  }

  lemma ModAdd(x: int, y: int)
    ensures (x % MASK + y) % MASK == (x + y) % MASK
  {
    var q := x / MASK;
    assert x + y == (x % MASK + y) + q * MASK;
    Multiples(x % MASK + y, q);
  }

  lemma Multiples(x: int, q: int)
    ensures (x + q * MASK) % MASK == x % MASK
  {
    var r := x / MASK;
    assert x + q * MASK == (r + q) * MASK + x % MASK;
    QuotientIs(x + q * MASK, r + q, x % MASK);
  }

  lemma QuotientIs(x: int, q: int, r: nat)
    requires r < MASK && x == q * MASK + r
    ensures x % MASK == r
  {
  }

  /** Masking after every byte comes to the same as masking once. */
  lemma {:induction false} MixIsSum(value: nat, key: Bytes, index: nat)
    requires index <= |key|
    ensures MixAll(value, key, index) % MASK == (value + ShiftedSum(key, index)) % MASK
    decreases |key| - index
  {
    if index < |key| {
      var shifted := key[index] * Shl(1, index * 5 % 24);
      MixIsSum(Mix(value, key[index], index), key, index + 1);
      ModAdd(value + shifted, ShiftedSum(key, index + 1));
    }
  }

  lemma Scrambled(x: int, y: int)
    requires x % MASK == y % MASK
    ensures (1103515243 * x + 12345) % MASK == (1103515243 * y + 12345) % MASK
  {
    var q := x / MASK - y / MASK;
    assert x == y + q * MASK;
    assert 1103515243 * x + 12345 == (1103515243 * y + 12345) + (1103515243 * q) * MASK;
    Multiples(1103515243 * y + 12345, 1103515243 * q);
  }

  /** The hash is one linear congruence of the length and the shifted bytes: wrapping at 32 bits and
      masking on the way change nothing. */
  lemma HashIsLinear(key: Bytes)
    ensures Hash(key) == (1103515243 * (0x238F13AF * |key| + ShiftedSum(key, 0)) + 12345) % 0x8000_0000
  {
    hide MixAll;
    var start := 0x238F13AF * |key|;
    var wrapped := start % 0x1_0000_0000;
    MixIsSum(wrapped, key, 0);
    var q := start / 0x1_0000_0000;
    assert start + ShiftedSum(key, 0) == (wrapped + ShiftedSum(key, 0)) + (2 * q) * MASK;
    Multiples(wrapped + ShiftedSum(key, 0), 2 * q);
    Scrambled(MixAll(wrapped, key, 0), start + ShiftedSum(key, 0));
  }

  /** The loop of _gdbm_hash computes this function. */
  method ComputeHash(key: Bytes) returns (h: nat)
    ensures h == Hash(key)
    ensures h == (1103515243 * (0x238F13AF * |key| + ShiftedSum(key, 0)) + 12345) % 0x8000_0000
  {
    HashIsLinear(key);
    var value := 0x238F13AF * |key| % 0x1_0000_0000;
    for index := 0 to |key|
      invariant value >= 0 && MixAll(value, key, index) == MixAll(0x238F13AF * |key| % 0x1_0000_0000, key, 0)
    {
      value := Mix(value, key[index], index);
    }
    h := (1103515243 * value + 12345) % MASK;
  }

  // ------------------------------------------------------------------ keys with one hash

  /** Twenty-five bytes, all 0 but the first and the last, which cancel: their shifts are equal. */
  function CollidingKey(c: int): (key: Bytes)
    requires -128 < c < 128
    ensures |key| == 25
  {
    [c] + seq(23, _ => 0) + [-c]
  }

  lemma {:induction false} ZerosMixNothing(value: nat, key: Bytes, index: nat, last: nat)
    requires value < MASK && index <= last <= |key|
    requires forall i :: index <= i < last ==> key[i] == 0
    ensures MixAll(value, key, index) == MixAll(value, key, last)
    decreases last - index
  {
    hide Mix;
    if index < last {
      ZeroMixesNothing(value, index);
      ZerosMixNothing(value, key, index + 1, last);
    }
  }

  lemma ZeroMixesNothing(value: nat, index: nat)
    requires value < MASK
    ensures Mix(value, 0, index) == value
  {
    assert 0 * Shl(1, index * 5 % 24) == 0;
  }

  lemma Cancels(value: nat, c: int)
    ensures ((value + c) % MASK - c) % MASK == value % MASK
  {
    var q := (value + c) / MASK;
    assert (value + c) % MASK == value + c - q * MASK;
    var r := value / MASK;
    assert value == r * MASK + value % MASK;
    QuotientIs(value - q * MASK, r - q, value % MASK);
  }

  /** These 255 keys are different and have one hash: more than any bucket of a 512-byte block holds. */
  lemma CollidingKeys(c: int, d: int)
    requires -128 < c < 128 && -128 < d < 128
    ensures Hash(CollidingKey(c)) == Hash(CollidingKey(d))
    ensures c != d ==> CollidingKey(c) != CollidingKey(d)
  {
    CollidingMix(0x238F13AF * 25 % 0x1_0000_0000, c);
    CollidingMix(0x238F13AF * 25 % 0x1_0000_0000, d);
    assert CollidingKey(c)[0] == c && CollidingKey(d)[0] == d;
  }

  lemma CollidingMix(value: nat, c: int)
    requires -128 < c < 128
    ensures MixAll(value, CollidingKey(c), 0) == value % MASK
  {
    hide Mix, MixAll;
    var key := CollidingKey(c);
    var first := Mix(value, c, 0);
    assert key[0] == c && key[24] == -c;
    OneMore(value, key, 0);
    ZerosMixNothing(first, key, 1, 24);
    OneMore(first, key, 24);
    AllMixed(Mix(first, -c, 24), key);
    Unshifted(value, c, 0);
    Unshifted(first, -c, 24);
    Cancels(value, c);
  }

  lemma OneMore(value: nat, key: Bytes, index: nat)
    requires index < |key|
    ensures MixAll(value, key, index) == MixAll(Mix(value, key[index], index), key, index + 1)
  {
  }

  lemma AllMixed(value: nat, key: Bytes)
    ensures MixAll(value, key, |key|) == value
  {
  }

  lemma Unshifted(value: nat, c: Char, index: nat)
    requires index == 0 || index == 24
    ensures Mix(value, c, index) == (value + c) % MASK
  {
    assert Shl(1, index * 5 % 24) == 1;
  }
}
