/** The ring buffer with an overflow area between one producer and one consumer
    (io/src/pullbuffer.cpp).  The producer gets contiguous space to write, the consumer contiguous
    bytes to read; the area beyond the ring makes both possible across the wrap. */
module PullBuffers {

  type Byte = x: int | 0 <= x < 256

  datatype Error = NoErr | Interrupt | BufferTooSmall | InvalidError | EndOfStream | NoDataAvail | InvalidParam | EventPending

  const INTERRUPT_CODE: int := 28

  /** i % size for an index less than twice the size. */
  function Wrap(i: nat, size: nat): (r: nat)
    requires i < 2 * size
    ensures r < size
  {
    if i < size then i else i - size
  }

  lemma WrapIsMod(i: nat, size: nat)
    requires i < 2 * size
    ensures Wrap(i, size) == i % size
  {
  }

  function Min(a: nat, b: nat): nat {
    if a < b then a else b
  }

  // ------------------------------------------------------------------ what is available

  /** Contiguous bytes BeginWrite offers (io/src/pullbuffer.cpp:268-286). */
  function WriteAvail(size: nat, overflow: nat, r: nat, w: nat, held: nat, needed: nat): nat
    requires r < size && w < size
  {
    if w > r then size - w + Min(r, overflow)
    else if w == r then (if held == 0 then needed else 0)
    else r - w
  }

  /** Contiguous bytes BeginRead offers (io/src/pullbuffer.cpp:362-384). */
  function ReadAvail(size: nat, overflow: nat, r: nat, w: nat, held: nat, needed: nat): nat
    requires r < size && w < size
  {
    if r > w then
      if overflow == 0 then size - r + w else size - r + Min(w, overflow)
    else if r == w then (if held == 0 then 0 else needed)
    else w - r
  }

  /** The two indices and the number of bytes held agree. */
  predicate Indices(size: nat, r: nat, w: nat, held: nat) {
    r < size && w < size && held <= size && w == Wrap(r + held, size)
  }

  /** A write request is granted exactly when the free bytes suffice and the request fits before
      the end of the overflow area. */
  lemma WriteGrantedExactly(size: nat, overflow: nat, r: nat, w: nat, held: nat, n: nat)
    requires Indices(size, r, w, held)
    requires held == 0 ==> n <= size && w + n <= size + overflow
    ensures n <= WriteAvail(size, overflow, r, w, held, n) <==> n <= size - held && w + n <= size + overflow
  {
  }

  /** A read request is granted exactly when enough bytes are held and the request fits before the
      end of the overflow area. */
  lemma ReadGrantedExactly(size: nat, overflow: nat, r: nat, w: nat, held: nat, n: nat)
    requires Indices(size, r, w, held) && overflow > 0
    ensures n <= held && n <= ReadAvail(size, overflow, r, w, held, n) && r + n <= size + overflow
        <==> n <= held && r + n <= size + overflow
  {
  }

  /** For requests no longer than the overflow area the wrap never matters: writing needs exactly
      enough free bytes, reading exactly enough bytes held. */
  lemma ShortRequestsNeverWrap(size: nat, overflow: nat, r: nat, w: nat, held: nat, n: nat)
    requires Indices(size, r, w, held) && 0 < n <= overflow && n <= size
    ensures n <= WriteAvail(size, overflow, r, w, held, n) <==> n <= size - held
    ensures n <= held && n <= ReadAvail(size, overflow, r, w, held, n) <==> n <= held
    ensures w + n <= size + overflow && r + n <= size + overflow
  {
  }

  /** While a read of n bytes and a write of m bytes are pending, the bytes exposed to the reader,
      overflow copy included, overlap neither what the writer may touch nor what moving the
      overflow back to the front of the ring will overwrite; and only one of the two uses the
      overflow area. */
  lemma NoInterference(size: nat, overflow: nat, r: nat, w: nat, held: nat, n: nat, m: nat, i: nat, j: nat)
    requires Indices(size, r, w, held) && n <= held && m <= size - held
    requires r + n <= size + overflow && w + m <= size + overflow
    requires i < n
    ensures j < m ==> r + i != w + j
    ensures j < m && w + j >= size ==> r + i != w + j - size
    ensures !(r + n > size && w + m > size)
  {
  }

  // ------------------------------------------------------------------ bytes in the array

  /** The ring holds the unread bytes from the read index on. */
  ghost predicate Ring(buf: seq<Byte>, size: nat, r: nat, contents: seq<Byte>) {
    && r < size && |contents| <= size <= |buf|
    && forall i :: 0 <= i < |contents| ==> buf[Wrap(r + i, size)] == contents[i]
  }

  /** The reader sees the oldest n unread bytes, contiguously. */
  ghost predicate Exposed(buf: seq<Byte>, r: nat, n: nat, contents: seq<Byte>) {
    && n <= |contents| && r + n <= |buf|
    && forall i :: 0 <= i < n ==> buf[r + i] == contents[i]
  }

  /** Bytes outside the writer's region are the same. */
  ghost predicate SameOutside(buf: seq<Byte>, buf': seq<Byte>, w: nat, m: nat) {
    |buf'| == |buf| && forall i :: 0 <= i < |buf| && !(w <= i < w + m) ==> buf'[i] == buf[i]
  }

  /** Whatever the producer stores in its region, the consumer sees no difference. */
  lemma ProducingIsInvisible(buf: seq<Byte>, buf': seq<Byte>, size: nat, r: nat, w: nat, n: nat, m: nat,
                             contents: seq<Byte>)
    requires Indices(size, r, w, |contents|) && m <= size - |contents|
    requires Ring(buf, size, r, contents) && Exposed(buf, r, n, contents)
    requires SameOutside(buf, buf', w, m) && w + m <= |buf|
    ensures Ring(buf', size, r, contents) && Exposed(buf', r, n, contents)
  {
  }

  /** The buffer after the overflow has been moved back to the front. */
  ghost predicate MovedBack(buf: seq<Byte>, buf': seq<Byte>, size: nat, moved: nat) {
    && |buf'| == |buf| && size + moved <= |buf| && moved <= size
    && forall i {:trigger buf'[i]} :: 0 <= i < |buf| ==> buf'[i] == if i < moved then buf[size + i] else buf[i]
  }

  /** Ending a write of k bytes appends exactly the bytes stored, and a pending read still sees its
      bytes. */
  lemma EndingWriteAppends(buf: seq<Byte>, buf': seq<Byte>, size: nat, r: nat, w: nat, n: nat, k: nat,
                           contents: seq<Byte>)
    requires Indices(size, r, w, |contents|) && k <= size - |contents| && w + k <= |buf|
    requires Ring(buf, size, r, contents) && Exposed(buf, r, n, contents)
    requires MovedBack(buf, buf', size, if w + k > size then w + k - size else 0)
    ensures w + k < 2 * size ==> Indices(size, r, Wrap(w + k, size), |contents| + k)
    ensures w + k < 2 * size
    ensures Ring(buf', size, r, contents + buf[w..w + k])
    ensures Exposed(buf', r, n, contents + buf[w..w + k])
  {
    var all := contents + buf[w..w + k];
    var moved := if w + k > size then w + k - size else 0;
    assert moved > 0 ==> r + |contents| == w;
    assert moved <= r || moved == 0;
    forall i | moved <= i < |buf| ensures buf'[i] == buf[i] {
    }
    forall i | 0 <= i < |all| ensures buf'[Wrap(r + i, size)] == all[i] {
      EndingWriteAt(buf, buf', size, r, w, k, moved, contents, i);
    }
    forall i | 0 <= i < n ensures buf'[r + i] == all[i] {
      assert all[i] == contents[i];
      assert moved <= r + i < |buf|;
    }
  }

  lemma EndingWriteAt(buf: seq<Byte>, buf': seq<Byte>, size: nat, r: nat, w: nat, k: nat, moved: nat,
                      contents: seq<Byte>, i: nat)
    requires Indices(size, r, w, |contents|) && k <= size - |contents| && w + k <= |buf|
    requires Ring(buf, size, r, contents) && MovedBack(buf, buf', size, moved)
    requires moved == if w + k > size then w + k - size else 0
    requires i < |contents| + k
    ensures buf'[Wrap(r + i, size)] == (contents + buf[w..w + k])[i]
  {
    var p := Wrap(r + i, size);
    if i < |contents| {
      assert buf[p] == contents[i] && p >= moved;
      assert buf'[p] == buf[p];
    } else {
      var j := w + (i - |contents|);
      assert p == if j < size then j else j - size;
      assert buf'[p] == buf[j];
    }
  }

  /** Copying the start of the ring into the overflow area exposes the oldest n bytes. */
  lemma CopyExposes(buf: seq<Byte>, buf': seq<Byte>, size: nat, r: nat, w: nat, n: nat, contents: seq<Byte>)
    requires Indices(size, r, w, |contents|) && n <= |contents| && r + n <= |buf|
    requires Ring(buf, size, r, contents)
    requires |buf'| == |buf| && forall i :: 0 <= i < size ==> buf'[i] == buf[i]
    requires forall i :: size <= i < r + n ==> buf'[i] == buf[i - size]
    ensures Ring(buf', size, r, contents) && Exposed(buf', r, n, contents)
  {
    forall i | 0 <= i < n ensures buf'[r + i] == contents[i] {
      assert buf[Wrap(r + i, size)] == contents[i];
    }
  }

  /** Reading k bytes leaves the rest. */
  lemma ReadingRemoves(buf: seq<Byte>, size: nat, r: nat, w: nat, k: nat, contents: seq<Byte>)
    requires Indices(size, r, w, |contents|) && k <= |contents|
    requires Ring(buf, size, r, contents)
    ensures r + k < 2 * size && Indices(size, Wrap(r + k, size), w, |contents| - k)
    ensures Ring(buf, size, Wrap(r + k, size), contents[k..])
  {
    var rest := contents[k..];
    forall i | 0 <= i < |rest| ensures buf[Wrap(Wrap(r + k, size) + i, size)] == rest[i] {
      assert buf[Wrap(r + (k + i), size)] == contents[k + i];
    }
  }

  // ------------------------------------------------------------------ the buffer

  class PullBuffer {
    var data: array<Byte>
    var bufferSize: nat
    var overflowSize: nat
    var readIndex: nat
    var writeIndex: nat
    var bytesInBuffer: nat
    var bytesToRead: nat
    var bytesToWrite: nat
    var eos: bool
    var exit: bool
    ghost var contents: seq<Byte>   // the bytes written and not yet read

    ghost predicate Valid()
      reads this, data
    {
      && 0 < overflowSize && data.Length == bufferSize + overflowSize
      && Indices(bufferSize, readIndex, writeIndex, bytesInBuffer)
      && |contents| == bytesInBuffer
      && Ring(data[..], bufferSize, readIndex, contents)
      && bytesToWrite <= bufferSize - bytesInBuffer && writeIndex + bytesToWrite <= bufferSize + overflowSize
      && Exposed(data[..], readIndex, bytesToRead, contents)
    }

    constructor (bufferSize: nat, overflowSize: nat)
      requires 0 < bufferSize && 0 < overflowSize
      ensures Valid() && fresh(data) && contents == [] && bytesToRead == 0 && bytesToWrite == 0
      ensures this.bufferSize == bufferSize && this.overflowSize == overflowSize && !eos && !exit
    {
      data := new Byte[bufferSize + overflowSize];
      this.bufferSize, this.overflowSize := bufferSize, overflowSize;
      readIndex, writeIndex, bytesInBuffer := 0, 0, 0;
      bytesToRead, bytesToWrite := 0, 0;
      eos, exit := false, false;
      contents := [];
    }

    /** Asks for `needed` bytes of space at writeIndex.  BeginWrite asserts that a request to an
        empty buffer fits it. */
    method BeginWrite(needed: nat) returns (r: Error)
      requires Valid() && bytesToWrite == 0
      requires bytesInBuffer == 0 ==> needed <= bufferSize && writeIndex + needed <= bufferSize + overflowSize
      modifies `bytesToWrite
      ensures Valid()
      ensures exit ==> r == Interrupt
      ensures !exit ==>
        (r == NoErr <==> (needed <= bufferSize - bytesInBuffer && writeIndex + needed <= bufferSize + overflowSize))
      ensures r != NoErr ==> r == if exit then Interrupt else BufferTooSmall
      ensures bytesToWrite == if r == NoErr then needed else 0
    {
      if exit {
        return Interrupt;
      }
      var avail := 0;
      if writeIndex > readIndex {
        avail := bufferSize - writeIndex + Min(readIndex, overflowSize);
      } else if writeIndex == readIndex {
        if bytesInBuffer == 0 {
          avail := needed;
        } else {
          avail := 0;
        }
      } else {
        avail := readIndex - writeIndex;
      }
      WriteGrantedExactly(bufferSize, overflowSize, readIndex, writeIndex, bytesInBuffer, needed);
      if needed > avail {
        return BufferTooSmall;
      }
      bytesToWrite := needed;
      r := NoErr;
    }

    /** The producer stores bytes at the address BeginWrite gave it; nothing the consumer can see
        changes. */
    method Produce(bytes: seq<Byte>)
      requires Valid() && |bytes| <= bytesToWrite
      modifies data
      ensures Valid() && data[writeIndex..writeIndex + |bytes|] == bytes
    {
      ghost var before := data[..];
      for k := 0 to |bytes|
        invariant forall j :: 0 <= j < k ==> data[writeIndex + j] == bytes[j]
        invariant SameOutside(before, data[..], writeIndex, bytesToWrite)
      {
        data[writeIndex + k] := bytes[k];
      }
      ProducingIsInvisible(before, data[..], bufferSize, readIndex, writeIndex, bytesToRead, bytesToWrite, contents);
    }

    /** memmove of the overflow to the front of the ring. */
    method MoveBack(moved: nat)
      requires bufferSize + moved <= data.Length && moved <= bufferSize
      modifies data
      ensures MovedBack(old(data[..]), data[..], bufferSize, moved)
    {
      for k := 0 to moved
        invariant forall i :: 0 <= i < data.Length ==> data[i] == if i < k then old(data[bufferSize + i]) else old(data[i])
      {
        data[k] := data[bufferSize + k];
      }
    }

    /** Exactly the bytes stored become readable, after those already held. */
    method EndWrite(written: nat)
      requires Valid() && written <= bytesToWrite
      modifies `writeIndex, `bytesInBuffer, `bytesToWrite, `contents, data
      ensures Valid() && bytesToWrite == 0
      ensures contents == old(contents) + old(data[writeIndex..writeIndex + written])
    {
      ghost var before, w := data[..], writeIndex;
      writeIndex := writeIndex + written;
      if writeIndex > bufferSize {
        MoveBack(writeIndex - bufferSize);
      }
      EndingWriteAppends(before, data[..], bufferSize, readIndex, w, bytesToRead, written, contents);
      writeIndex := Wrap(writeIndex, bufferSize);
      bytesInBuffer := bytesInBuffer + written;
      bytesToWrite := 0;
      contents := contents + before[w..w + written];
    }

    /** Asks for `needed` contiguous bytes at readIndex. */
    method BeginRead(needed: nat) returns (r: Error)
      requires Valid()
      modifies `bytesToRead, data
      ensures Valid()
      ensures bytesToRead == if r == NoErr then needed else old(bytesToRead)
      ensures exit ==> r == Interrupt
      ensures !exit && needed > bytesInBuffer ==> r == if eos then EndOfStream else NoDataAvail
      ensures !exit && needed <= bytesInBuffer ==>
        (r == NoErr <==> readIndex + needed <= bufferSize + overflowSize)
      ensures !exit && needed <= bytesInBuffer && r != NoErr ==>
        r == if readIndex == writeIndex then InvalidParam else NoDataAvail
      ensures r == NoErr ==> data[readIndex..readIndex + needed] == contents[..needed]
      ensures forall i :: writeIndex <= i < writeIndex + bytesToWrite ==> data[i] == old(data[i])
    {
      if exit {
        return Interrupt;
      }
      if needed > bytesInBuffer {
        return if eos then EndOfStream else NoDataAvail;
      }
      var avail := Readable(needed);
      if needed > avail {
        return NoDataAvail;
      }
      var overflow: int := readIndex + needed - bufferSize;
      if overflow > overflowSize {
        return InvalidParam;
      }
      ghost var before := data[..];
      if overflow > 0 {
        CopyToOverflow(overflow);
      }
      CopyExposes(before, data[..], bufferSize, readIndex, writeIndex, needed, contents);
      bytesToRead := needed;
      r := NoErr;
    }

    /** The contiguous bytes BeginRead has for the reader. */
    method Readable(needed: nat) returns (avail: nat)
      requires Valid() && needed <= bytesInBuffer
      ensures needed <= avail && readIndex + needed <= bufferSize + overflowSize
          <==> readIndex + needed <= bufferSize + overflowSize
      ensures needed > avail ==> readIndex != writeIndex && readIndex + needed > bufferSize + overflowSize
      ensures readIndex != writeIndex && readIndex + needed > bufferSize + overflowSize ==> needed > avail
    {
      avail := 0;
      if readIndex > writeIndex {
        avail := bufferSize - readIndex + Min(writeIndex, overflowSize);
      } else if readIndex == writeIndex {
        if bytesInBuffer == 0 {
          avail := 0;
        } else {
          avail := needed;
        }
      } else {
        avail := writeIndex - readIndex;
      }
    }

    /** memcpy of the start of the ring to the overflow area. */
    method CopyToOverflow(count: nat)
      requires bufferSize + count <= data.Length && count <= bufferSize
      modifies data
      ensures forall i :: 0 <= i < data.Length ==>
        data[i] == if bufferSize <= i < bufferSize + count then old(data[i - bufferSize]) else old(data[i])
    {
      for k := 0 to count
        invariant forall i :: 0 <= i < data.Length ==>
          data[i] == if bufferSize <= i < bufferSize + k then old(data[i - bufferSize]) else old(data[i])
      {
        data[bufferSize + k] := data[k];
      }
    }

    /** The reader is done with the first `used` of the bytes it was given. */
    method EndRead(used: nat)
      requires Valid() && used <= bytesToRead
      modifies `readIndex, `bytesInBuffer, `bytesToRead, `contents
      ensures Valid() && bytesToRead == 0
      ensures contents == old(contents)[used..]
    {
      ReadingRemoves(data[..], bufferSize, readIndex, writeIndex, used, contents);
      readIndex := Wrap(readIndex + used, bufferSize);
      bytesInBuffer := bytesInBuffer - used;
      bytesToRead := 0;
      contents := contents[used..];
    }

    /** Drops the oldest bytes beyond half the buffer, waiting until nothing is pending. */
    method DiscardBytes() returns (r: Error)
      requires Valid() && (exit || (bytesToRead == 0 && bytesToWrite == 0))
      modifies `readIndex, `bytesInBuffer, `contents
      ensures Valid()
      ensures r == if exit then Interrupt else NoErr
      ensures contents == if !exit && |old(contents)| > bufferSize / 2
                          then old(contents)[|old(contents)| - bufferSize / 2..] else old(contents)
    {
      if exit {
        return Interrupt;
      }
      var discard: int := bytesInBuffer - bufferSize / 2;
      if discard > 0 {
        ReadingRemoves(data[..], bufferSize, readIndex, writeIndex, discard, contents);
        readIndex := Wrap(readIndex + discard, bufferSize);
        bytesInBuffer := bytesInBuffer - discard;
        contents := contents[discard..];
      }
      r := NoErr;
    }

    method Clear() returns (r: Error)
      requires Valid() && (exit || (bytesToRead == 0 && bytesToWrite == 0))
      modifies `readIndex, `writeIndex, `bytesInBuffer, `contents, `eos
      ensures Valid() && r == (if exit then Interrupt else NoErr)
      ensures contents == if exit then old(contents) else []
      ensures eos == (if exit then old(eos) else false)
    {
      if exit {
        return Interrupt;
      }
      eos := false;
      readIndex, writeIndex, bytesInBuffer := 0, 0, 0;
      contents := [];
      r := NoErr;
    }

    /** Waits until no read is pending, or gives the number of kError_Interrupt. */
    method GetReadIndex() returns (i: int)
      requires Valid() && (exit || bytesToRead == 0)
      ensures i == if exit then INTERRUPT_CODE else readIndex
    {
      if exit {
        return INTERRUPT_CODE;
      }
      i := readIndex;
    }

    /** Waits until no write is pending, or gives the number of kError_Interrupt. */
    method GetWriteIndex() returns (i: int)
      requires Valid() && (exit || bytesToWrite == 0)
      ensures i == if exit then INTERRUPT_CODE else writeIndex
    {
      if exit {
        return INTERRUPT_CODE;
      }
      i := writeIndex;
    }

    method BreakBlocks()
      requires Valid()
      modifies `exit
      ensures Valid() && exit
    {
      exit := true;
    }

    method SetEndOfStream(bEOS: bool)
      requires Valid()
      modifies `eos
      ensures Valid() && eos == bEOS
    {
      eos := bEOS;
    }

    static method CopyFront(from: array<Byte>, to: array<Byte>, count: nat)
      requires from != to && count <= from.Length && count <= to.Length
      modifies to
      ensures to[..count] == from[..count]
    {
      for k := 0 to count
        invariant to[..k] == from[..k]
      {
        to[k] := from[k];
      }
    }

    /** A new array for an unread buffer.  The contents stay; the indices are again as the other calls
        assert exactly when the new ring is not completely full. */
    method Resize(newSize: nat, newOverflowSize: nat) returns (r: Error)
      requires Valid() && (exit || (bytesToRead == 0 && bytesToWrite == 0)) && 0 < newOverflowSize
      modifies this
      ensures r == if newSize < old(bytesInBuffer) then BufferTooSmall
                   else if old(readIndex) != 0 then InvalidError
                   else if exit then Interrupt else NoErr
      ensures contents == old(contents)
      ensures r != NoErr ==> Valid() && data == old(data)
      ensures r == NoErr ==> fresh(data) && bufferSize == newSize && overflowSize == newOverflowSize
      ensures r == NoErr ==> |contents| <= data.Length && data[..|contents|] == contents
      ensures r == NoErr ==> (Valid() <==> |contents| < newSize)
    {
      if newSize < bytesInBuffer {
        return BufferTooSmall;
      }
      if readIndex != 0 {
        return InvalidError;
      }
      if exit {
        return Interrupt;
      }
      var news := new Byte[newSize + newOverflowSize];
      CopyFront(data, news, bytesInBuffer);
      assert forall i :: 0 <= i < bytesInBuffer ==> data[..][Wrap(0 + i, bufferSize)] == contents[i];
      data := news;
      bufferSize := newSize;
      overflowSize := newOverflowSize;
      writeIndex := bytesInBuffer;
      r := NoErr;
    }
  }
}
