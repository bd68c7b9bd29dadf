/** Events queued against places in the byte stream of a PullBuffer (io/src/eventbuffer.cpp).  An
    event is tagged with the write index at which it was accepted; how many unread bytes are before
    it must be recovered from two ring indices. */
module EventBuffers {
  import opened Options
  import opened PullBuffers
  import opened Queues

  datatype BufferEvent<E> = BufferEvent(index: int, event: E)

  // ------------------------------------------------------------------ distance on the ring

  /** iMaxBytes of BeginRead, 0 where the two indices are equal. */
  function Distance(size: nat, r: int, index: int): int {
    if index == r then 0 else if index > r then index - r else size - r + index
  }

  /** The indices of an event with `before` unread bytes in front of it tell that number exactly
      when the ring was not completely full of them; otherwise they tell 0. */
  lemma DistanceIsExact(size: nat, r: nat, before: nat)
    requires r < size && before <= size
    ensures Distance(size, r, Wrap(r + before, size)) == before <==> before < size
    ensures before == size ==> Distance(size, r, Wrap(r + before, size)) == 0
  {
  }

  /** Every queued event carries the ring index of its place in the stream, counted in bytes from
      the start.  `consumed` bytes of the stream were read and `held` are in the buffer. */
  ghost predicate Placed(size: nat, r: nat, consumed: nat, held: nat, indices: seq<int>, places: seq<nat>) {
    && r < size && held <= size && |indices| == |places|
    && (forall i :: 0 <= i < |places| ==> PlacedAt(size, r, consumed, held, indices[i], places[i]))
    && (forall i, j :: 0 <= i < j < |places| ==> places[i] <= places[j])
  }

  ghost predicate PlacedAt(size: nat, r: nat, consumed: nat, held: nat, index: int, place: nat)
    requires held <= size
  {
    consumed <= place <= consumed + held && r < size && index == Wrap(r + (place - consumed), size)
  }

  /** Reading bytes in front of every event moves no event in the stream. */
  lemma ReadingKeepsPlaces(size: nat, r: nat, consumed: nat, held: nat, indices: seq<int>, places: seq<nat>, k: nat)
    requires Placed(size, r, consumed, held, indices, places)
    requires k <= held && (places != [] ==> consumed + k <= places[0])
    ensures Placed(size, Wrap(r + k, size), consumed + k, held - k, indices, places)
  {
    forall i | 0 <= i < |places|
      ensures PlacedAt(size, Wrap(r + k, size), consumed + k, held - k, indices[i], places[i])
    {
      assert PlacedAt(size, r, consumed, held, indices[i], places[i]);
      assert places[0] <= places[i];
    }
  }

  lemma WritingKeepsPlaces(size: nat, r: nat, consumed: nat, held: nat, held': nat, indices: seq<int>, places: seq<nat>)
    requires Placed(size, r, consumed, held, indices, places) && held <= held' <= size
    ensures Placed(size, r, consumed, held', indices, places)
  {
    forall i | 0 <= i < |places| ensures PlacedAt(size, r, consumed, held', indices[i], places[i]) {
      assert PlacedAt(size, r, consumed, held, indices[i], places[i]);
    }
  }

  /** A request is refused because of the oldest event exactly when it reaches that event, as long
      as fewer than `size` bytes are before it; and a request let through never reaches it. */
  lemma PendingExactly(size: nat, r: nat, consumed: nat, held: nat, indices: seq<int>, places: seq<nat>, n: nat)
    requires Placed(size, r, consumed, held, indices, places) && places != []
    ensures places[0] - consumed < size ==>
      (n >= Distance(size, r, indices[0]) <==> consumed + n >= places[0])
    ensures n < Distance(size, r, indices[0]) ==> consumed + n < places[0]
    ensures places[0] - consumed == size ==> n >= Distance(size, r, indices[0])
  {
    assert PlacedAt(size, r, consumed, held, indices[0], places[0]);
    DistanceIsExact(size, r, places[0] - consumed);
  }

  /** An event accepted into a full ring stops the reader although every byte in front of it is
      still unread. */
  lemma FullRingStopsTheReader(size: nat)
    requires size > 0
    ensures Placed(size, 0, 0, size, [0], [size]) && Distance(size, 0, 0) == 0
  {
    hide PlacedAt;
    FullRingPlace(size);
    var tags, places := [0], [size];
    assert forall i :: 0 <= i < |places| ==> PlacedAt(size, 0, 0, size, tags[i], places[i]);
  }

  lemma FullRingPlace(size: nat)
    requires size > 0
    ensures PlacedAt(size, 0, 0, size, 0, size)
  {
  }

  ghost function Tags<E>(q: seq<BufferEvent<E>>): (r: seq<int>)
    ensures |r| == |q| && forall i :: 0 <= i < |q| ==> r[i] == q[i].index
  {
    seq(|q|, i requires 0 <= i < |q| => q[i].index)
  }

  ghost function Events<E>(q: seq<BufferEvent<E>>): (r: seq<E>)
    ensures |r| == |q| && forall i :: 0 <= i < |q| ==> r[i] == q[i].event
  {
    seq(|q|, i requires 0 <= i < |q| => q[i].event)
  }

  lemma TakingFirst<E>(q: seq<BufferEvent<E>>)
    requires q != []
    ensures Events(q) == [q[0].event] + Events(q[1..]) && Tags(q)[1..] == Tags(q[1..])
  {
  }

  lemma TaggedLast<E>(q: seq<BufferEvent<E>>, e: BufferEvent<E>)
    ensures Events(q + [e]) == Events(q) + [e.event] && Tags(q + [e]) == Tags(q) + [e.index]
  {
  }

  // ------------------------------------------------------------------ the buffer

  class EventBuffer<E(==)> {
    const pull: PullBuffer
    const queue: Queue<BufferEvent<E>>
    ghost var consumed: nat        // bytes read since the start of the stream
    ghost var places: seq<nat>     // where in the stream each queued event was accepted
    ghost var accepted: seq<E>     // every event accepted so far
    ghost var delivered: seq<E>    // every event taken out so far

    /** Indices are places unless the buffer is being shut down, when they may be error numbers. */
    ghost predicate Valid()
      reads this, pull, pull.data, queue, queue.members
    {
      && pull.Valid() && queue.Valid()
      && |places| == |queue.Contents()|
      && (!pull.exit ==> Placed(pull.bufferSize, pull.readIndex, consumed, pull.bytesInBuffer,
                                Tags(queue.Contents()), places))
      && (!pull.exit && places != [] ==> consumed + pull.bytesToRead <= places[0])
      && accepted == delivered + Events(queue.Contents())
    }

    constructor (bufferSize: nat, overflowSize: nat)
      requires 0 < bufferSize && 0 < overflowSize
      ensures Valid() && fresh(pull) && fresh(pull.data) && fresh(queue) && queue.members == []
      ensures pull.contents == [] && consumed == 0 && places == [] && accepted == delivered == []
      ensures pull.bufferSize == bufferSize && pull.overflowSize == overflowSize && !pull.exit
    {
      pull := new PullBuffer(bufferSize, overflowSize);
      queue := new Queue();
      consumed, places, accepted, delivered := 0, [], [], [];
    }

    /** Queues an event behind every byte written so far; GetWriteIndex waits until no write is pending. */
    method AcceptEvent(event: E)
      requires Valid() && (pull.exit || pull.bytesToWrite == 0)
      modifies `places, `accepted, queue, queue.members
      ensures Valid()
      ensures places == old(places) + [consumed + |pull.contents|]
      ensures accepted == old(accepted) + [event]
      ensures Events(queue.Contents()) == Events(old(queue.Contents())) + [event]
    {
      hide Placed, Tags, Events;
      var index := pull.GetWriteIndex();
      queue.Write(BufferEvent(index, event));
      places := places + [consumed + |pull.contents|];
      accepted := accepted + [event];
      TaggedLast(old(queue.Contents()), BufferEvent(index, event));
      if !pull.exit {
        AcceptingPlaces(pull.bufferSize, pull.readIndex, consumed, pull.bytesInBuffer,
                        Tags(old(queue.Contents())), old(places), index);
      }
    }

    /** Whether n bytes from the read index on reach the oldest event. */
    method ReachesEvent(n: nat) returns (pending: bool)
      requires Valid() && (pull.exit || pull.bytesToRead == 0)
      ensures places == [] ==> !pending
      ensures !pull.exit && places != [] && places[0] - consumed < pull.bufferSize ==>
        (pending <==> consumed + n >= places[0])
      ensures !pull.exit && places != [] && places[0] - consumed == pull.bufferSize ==> pending
    {
      var event := queue.Peek();
      var readIndex := pull.GetReadIndex();
      if event != None && !pull.exit {
        PendingExactly(pull.bufferSize, pull.readIndex, consumed, pull.bytesInBuffer,
                       Tags(queue.Contents()), places, n);
      }
      if event != None && event.value.index == readIndex {
        return true;
      }
      if event == None {
        return false;
      }
      var maxBytes: int := 0;
      if event.value.index > readIndex {
        maxBytes := event.value.index - readIndex;
      } else {
        maxBytes := pull.bufferSize - readIndex + event.value.index;
      }
      pending := n >= maxBytes;
    }

    /** Asks for n bytes in front of the oldest event. */
    method BeginRead(n: nat) returns (r: Error)
      requires Valid() && (pull.exit || pull.bytesToRead == 0)
      modifies pull`bytesToRead, pull.data
      ensures Valid()
      ensures pull.bytesToRead == if r == NoErr then n else old(pull.bytesToRead)
      ensures r == NoErr ==> pull.data[pull.readIndex..pull.readIndex + n] == pull.contents[..n]
      ensures r == NoErr && places != [] ==> consumed + n < places[0]
      ensures !pull.exit && places != [] && places[0] - consumed < pull.bufferSize ==>
        (r == EventPending <==> consumed + n >= places[0])
      ensures !pull.exit && places != [] && places[0] - consumed == pull.bufferSize ==> r == EventPending
      ensures places == [] ==> r != EventPending
      ensures !pull.exit && r != EventPending && n > |pull.contents| ==>
        r == if pull.eos then EndOfStream else NoDataAvail
      ensures !pull.exit && r != EventPending && n <= |pull.contents| && n <= pull.overflowSize ==> r == NoErr
      ensures pull.exit ==> r == Interrupt || r == EventPending
    {
      var pending := ReachesEvent(n);
      if pending {
        return EventPending;
      }
      r := pull.BeginRead(n);
    }

    method EndRead(used: nat)
      requires Valid() && used <= pull.bytesToRead
      modifies `consumed, pull`readIndex, pull`bytesInBuffer, pull`bytesToRead, pull`contents
      ensures Valid() && pull.bytesToRead == 0
      ensures pull.contents == old(pull.contents)[used..] && consumed == old(consumed) + used
    {
      ghost var r := pull.readIndex;
      if !pull.exit {
        ReadingKeepsPlaces(pull.bufferSize, r, consumed, pull.bytesInBuffer, Tags(queue.Contents()), places, used);
      }
      pull.EndRead(used);
      consumed := consumed + used;
    }

    method BeginWrite(n: nat) returns (r: Error)
      requires Valid() && pull.bytesToWrite == 0
      requires pull.bytesInBuffer == 0 ==> n <= pull.bufferSize && pull.writeIndex + n <= pull.bufferSize + pull.overflowSize
      modifies pull`bytesToWrite
      ensures Valid()
      ensures pull.bytesToWrite == if r == NoErr then n else 0
      ensures !pull.exit ==>
        (r == NoErr <==> (n <= pull.bufferSize - |pull.contents|
                          && pull.writeIndex + n <= pull.bufferSize + pull.overflowSize))
      ensures r != NoErr ==> r == if pull.exit then Interrupt else BufferTooSmall
      ensures pull.exit ==> r == Interrupt
    {
      r := pull.BeginWrite(n);
    }

    method EndWrite(written: nat)
      requires Valid() && written <= pull.bytesToWrite
      modifies pull`writeIndex, pull`bytesInBuffer, pull`bytesToWrite, pull`contents, pull.data
      ensures Valid() && pull.bytesToWrite == 0
      ensures pull.contents == old(pull.contents) + old(pull.data[pull.writeIndex..pull.writeIndex + written])
    {
      if !pull.exit {
        WritingKeepsPlaces(pull.bufferSize, pull.readIndex, consumed, pull.bytesInBuffer,
                           pull.bytesInBuffer + written, Tags(queue.Contents()), places);
      }
      pull.EndWrite(written);
    }

    /** Takes out the event accepted first. */
    method GetEvent() returns (r: Option<E>)
      requires Valid()
      modifies `places, `delivered, queue
      ensures Valid() && accepted == old(accepted)
      ensures queue.members == if old(queue.members) == [] then [] else old(queue.members)[1..]
      ensures r == None <==> old(places) == []
      ensures r != None ==> delivered == old(delivered) + [r.value] && places == old(places)[1..]
      ensures r != None ==> old(delivered) + [r.value] <= accepted
      ensures r == None ==> delivered == old(delivered) == accepted && places == []
    {
      hide Placed, Tags, Events, PullBuffer.Valid;
      ghost var before := queue.Contents();
      if before != [] {
        TakingFirst(before);
        if !pull.exit {
          DroppingPlaces(pull.bufferSize, pull.readIndex, consumed, pull.bytesInBuffer, Tags(before), places);
        }
      }
      var event := queue.Read();
      if event == None {
        return None;
      }
      places := places[1..];
      delivered := delivered + [event.value.event];
      r := Some(event.value.event);
    }

    /** Takes out every event. */
    method GetAllEvents()
      requires Valid()
      modifies `places, `delivered, queue
      ensures Valid() && places == [] && accepted == delivered == old(accepted)
    {
      var event := GetEvent();
      while event != None
        invariant Valid() && accepted == old(accepted)
        invariant event == None ==> places == [] && delivered == accepted
        decreases |places|, event != None
      {
        event := GetEvent();
      }
    }

    /** Takes out every event, then empties the bytes; PullBuffer::Clear waits until nothing is pending. */
    method Clear() returns (r: Error)
      requires Valid() && (pull.exit || (pull.bytesToRead == 0 && pull.bytesToWrite == 0))
      modifies this, queue, pull`readIndex, pull`writeIndex, pull`bytesInBuffer, pull`contents, pull`eos
      ensures Valid() && places == [] && accepted == delivered == old(accepted)
      ensures r == if pull.exit then Interrupt else NoErr
      ensures r == NoErr ==> pull.contents == [] && consumed == 0
      ensures pull.eos == (if pull.exit then old(pull.eos) else false)
      ensures pull.exit ==> pull.contents == old(pull.contents) && consumed == old(consumed)
    {
      GetAllEvents();
      queue.Clear();
      r := pull.Clear();
      if r == NoErr {
        consumed := 0;
      }
    }
  }

  /** A new event is behind all the others, at the end of the bytes held. */
  lemma AcceptingPlaces(size: nat, r: nat, consumed: nat, held: nat, indices: seq<int>, places: seq<nat>, index: int)
    requires Placed(size, r, consumed, held, indices, places) && index == Wrap(r + held, size)
    ensures Placed(size, r, consumed, held, indices + [index], places + [consumed + held])
  {
    var tags, ps := indices + [index], places + [consumed + held];
    forall i | 0 <= i < |ps| ensures PlacedAt(size, r, consumed, held, tags[i], ps[i]) {
      if i < |places| {
        assert PlacedAt(size, r, consumed, held, indices[i], places[i]);
      }
    }
    forall i, j | 0 <= i < j < |ps| ensures ps[i] <= ps[j] {
      assert PlacedAt(size, r, consumed, held, indices[i], places[i]);
    }
  }

  lemma DroppingPlaces(size: nat, r: nat, consumed: nat, held: nat, indices: seq<int>, places: seq<nat>)
    requires Placed(size, r, consumed, held, indices, places) && places != []
    ensures Placed(size, r, consumed, held, indices[1..], places[1..])
    ensures |places| > 1 ==> places[0] <= places[1]
  {
    forall i | 0 <= i < |places| - 1 ensures PlacedAt(size, r, consumed, held, indices[1..][i], places[1..][i]) {
      assert PlacedAt(size, r, consumed, held, indices[i + 1], places[i + 1]);
    }
  }
}
