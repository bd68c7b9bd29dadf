/** Opening an empty file (lib/gdbm/gdbmopen.c:205-317): the block size decides the size of the
    directory, which must come out equal to it. */
module OpenNew {
  import opened Options
  import opened Directory
  import opened Pages
  import opened Content
  import opened Database
  import opened DiskSteps
  import opened Gdbm

  const LARGEST_BLOCK: nat := 0x7FFF_FFFF   // block sizes are of type int

  /** What the directory's doubling can reach from 32 bytes. */
  ghost predicate IsDirectorySize(n: nat) {
    exists d: nat :: d >= 3 && n == AddressBytes(Shl(1, d))
  }

  lemma {:induction false} SizesAreDistinct(d: nat, e: nat)
    requires d < e
    ensures Shl(1, d) < Shl(1, e)
  {
    if d + 1 < e {
      SizesAreDistinct(d, e - 1);
    }
    ShlMonotone(0, 1, e - 1);
  }

  /** The doubling loop; the last size below the block is half the directory's. */
  method ChooseDirectory(blockSize: nat) returns (dirSize: nat, dirBits: nat)
    requires 512 <= blockSize <= LARGEST_BLOCK
    ensures dirBits <= 29 && dirSize == AddressBytes(Shl(1, dirBits))
    ensures dirSize == blockSize <==> IsDirectorySize(blockSize)
  {
    dirSize, dirBits := 32, 3;
    assert Shl(1, 3) == 8 by { assert Shl(1, 1) == 2; }
    LargestDirectory();
    while dirSize < blockSize
      invariant dirBits >= 3 && dirSize == AddressBytes(Shl(1, dirBits))
      invariant forall d :: 3 <= d < dirBits ==> AddressBytes(Shl(1, d)) < blockSize
      invariant dirBits <= 29
      decreases blockSize - dirSize
    {
      assert dirBits != 29;
      dirSize := 2 * dirSize;
      dirBits := dirBits + 1;
    }
    if IsDirectorySize(blockSize) {
      var d: nat :| d >= 3 && blockSize == AddressBytes(Shl(1, d));
      if d > dirBits {
        SizesAreDistinct(dirBits, d);
      }
    }
  }

  lemma LargestDirectory()
    ensures AddressBytes(Shl(1, 29)) == LARGEST_BLOCK + 1
  {
    ShlAdd(1, 14, 15);
    assert Shl(1, 14) == 16384;
    assert Shl(16384, 15) == 0x2000_0000;
  }

  /** A new database is made exactly for the block sizes a directory can have; it is empty, and every
      invariant of the store holds. */
  method Create(askedBlockSize: nat, statBlockSize: nat) returns (r: Option<Dbf>)
    requires 512 <= statBlockSize <= LARGEST_BLOCK && askedBlockSize <= LARGEST_BLOCK
    ensures var blockSize := if askedBlockSize < 512 then statBlockSize else askedBlockSize;
      && (r != None <==> IsDirectorySize(blockSize))
      && (r != None ==> fresh(r.value) && r.value.Ready() && r.value.content == map[] && r.value.blockSize == blockSize)
      && (r != None ==> BucketBytes(r.value.bucketElems) <= blockSize < BucketBytes(r.value.bucketElems + 1))
      && (r != None ==> HeaderBytes(r.value.avail.capacity) <= blockSize < HeaderBytes(r.value.avail.capacity + 1))
  {
    var blockSize := if askedBlockSize < 512 then statBlockSize else askedBlockSize;
    var dirSize, dirBits := ChooseDirectory(blockSize);
    if dirSize != blockSize {
      return None;
    }
    var dbf := new Dbf.New(blockSize, dirBits);
    r := Some(dbf);
  }
}
