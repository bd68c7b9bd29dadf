/** The linked queue of base/include/queue.h; the lock is an atomic step of the caller. */
module Queues {
  import opened Options

  class QueueMember<T> {
    var behindMe: QueueMember?<T>
    var member: T

    constructor (member: T)
      ensures this.member == member && behindMe == null
    {
      this.member := member;
      this.behindMe := null;
    }
  }

  class Queue<T> {
    var head: QueueMember?<T>
    var tail: QueueMember?<T>
    ghost var members: seq<QueueMember<T>>   // the linked nodes, from head to tail

    ghost predicate Valid()
      reads this, members
    {
      && (head == null <==> members == []) && (tail == null <==> members == [])
      && (members != [] ==> head == members[0] && tail == members[|members| - 1]
                            && members[|members| - 1].behindMe == null)
      && (forall i :: 0 <= i < |members| - 1 ==> members[i].behindMe == members[i + 1])
      && (forall i, j :: 0 <= i < j < |members| ==> members[i] != members[j])
    }

    ghost function Contents(): (c: seq<T>)
      reads this, members
      ensures |c| == |members|
    {
      seq(|members|, i requires 0 <= i < |members| reads this, members => members[i].member)
    }

    constructor ()
      ensures Valid() && Contents() == [] && members == []
    {
      head, tail := null, null;
      members := [];
    }

    /** Takes the oldest element; none if the queue is empty. */
    method Read() returns (r: Option<T>)
      requires Valid()
      modifies this
      ensures Valid()
      ensures if old(Contents()) == [] then r == None && Contents() == []
              else r == Some(old(Contents())[0]) && Contents() == old(Contents())[1..]
      ensures members == if old(members) == [] then [] else old(members)[1..]
    {
      r := None;
      if head != null {
        r := Some(head.member);
        assert |members| > 1 ==> members[0].behindMe == members[1];
        assert |members| == 1 ==> members[1..] == [];
        assert forall i :: 0 <= i < |members| - 1 ==> members[1..][i] == members[i + 1];
        head := head.behindMe;
        members := members[1..];
      }
      if head == null {
        tail := null;
      }
    }

    method Peek() returns (r: Option<T>)
      requires Valid()
      ensures r == if Contents() == [] then None else Some(Contents()[0])
    {
      r := None;
      if head != null {
        r := Some(head.member);
      }
    }

    /** Adds an element behind all others. */
    method Write(c: T)
      requires Valid()
      modifies this, members
      ensures Valid() && Contents() == old(Contents()) + [c]
      ensures |members| == |old(members)| + 1 && members[..|old(members)|] == old(members) && fresh(members[|old(members)|])
    {
      var node := new QueueMember(c);
      if tail != null {
        tail.behindMe := node;
      }
      tail := node;
      if head == null {
        head := node;
      }
      members := members + [node];
    }

    method Clear()
      requires Valid()
      modifies this
      ensures Valid() && Contents() == [] && members == []
    {
      head, tail := null, null;
      members := [];
    }
  }
}
