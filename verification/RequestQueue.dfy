/**
 The linked queue of accepted requests of one key, with head, tail and length kept by
 hand. The queue is proved to hold the sequence `stamps`, which its methods extend,
 trim and clear.
 */
module RequestQueue {
  import opened SlidingWindow

  class Node {
    const timestamp: int
    var next: Node?

    constructor (timestamp: int)
      ensures this.timestamp == timestamp && next == null
    {
      this.timestamp, this.next := timestamp, null;
    }
  }

  /** What the trimming code leaves of any queue, in time order or not. */
  function Remaining(s: seq<int>, now: int, duration: int): seq<int> {
    if s == [] || now - s[0] < duration then s
    else if now - s[|s| - 1] >= duration then []
    else DropExpired(s, now, duration)
  }

  function DropExpired(s: seq<int>, now: int, duration: int): seq<int> {
    if s != [] && now - s[0] >= duration then DropExpired(s[1..], now, duration) else s
  }

  /** In time order the early return, the tail shortcut and the loop all keep exactly the live stamps. */
  lemma RemainingIsLive(s: seq<int>, now: int, duration: int)
    requires NonDecreasing(s)
    ensures Remaining(s, now, duration) == Live(s, now, duration)
  {
    LiveIsSuffix(s, now, duration);
    LiveIsLive(s, now, duration);
    var n := |s| - |Live(s, now, duration)|;
    if n < |s| {
      assert Live(s, now, duration)[0] == s[n];
      DropsPrefix(s, n, now, duration);
      assert now - s[|s| - 1] < duration;
    }
  }

  lemma {:induction false} DropsPrefix(s: seq<int>, n: nat, now: int, duration: int)
    requires n <= |s| && Expired(s, n, now, duration)
    requires n < |s| ==> now - s[n] < duration
    ensures DropExpired(s, now, duration) == s[n..]
  {
    if n > 0 {
      DropsPrefix(s[1..], n - 1, now, duration);
      assert s[1..][n - 1..] == s[n..];
    }
  }

  class Queue {
    var head: Node?
    var tail: Node?
    var length: nat
    ghost var nodes: seq<Node>
    /** The accepted-request timestamps, oldest first. */
    ghost var stamps: seq<int>
    ghost var Repr: set<object>

    ghost predicate Valid()
      reads this, Repr
    {
      && this in Repr
      && (forall i {:trigger nodes[i]} :: 0 <= i < |nodes| ==> nodes[i] in Repr)
      && length == |nodes| == |stamps|
      && (nodes == [] ==> head == null && tail == null)
      && (nodes != [] ==> head == nodes[0] && tail == nodes[|nodes| - 1] && tail.next == null)
      && (forall i {:trigger nodes[i].next} :: 0 <= i < |nodes| - 1 ==> nodes[i].next == nodes[i + 1])
      && (forall i, j :: 0 <= i < j < |nodes| ==> nodes[i] != nodes[j])
      && (forall i {:trigger stamps[i]} :: 0 <= i < |nodes| ==> nodes[i].timestamp == stamps[i])
    }

    constructor ()
      ensures Valid() && fresh(Repr) && stamps == []
    {
      head, tail, length := null, null, 0;
      nodes, stamps, Repr := [], [], {this};
    }

    method Append(timestamp: int)
      requires Valid()
      modifies Repr
      ensures Valid() && fresh(Repr - old(Repr)) && stamps == old(stamps) + [timestamp]
    {
      var request := new Node(timestamp);
      if tail == null {
        head := request;
        tail := request;
      } else {
        tail.next := request;
        tail := request;
      }
      length := length + 1;
      nodes, stamps, Repr := nodes + [request], stamps + [timestamp], Repr + {request};
    }

    method RemoveExpired(now: int, duration: int)
      requires Valid()
      modifies Repr
      ensures Valid() && Repr == old(Repr) && stamps == Remaining(old(stamps), now, duration)
    {
      if head == null || now - head.timestamp < duration {
        return;
      }
      if now - tail.timestamp >= duration {
        Clear();
        return;
      }
      ghost var k := 0;
      while now - head.timestamp >= duration
        invariant 0 <= k < |nodes| && length == |nodes| - k
        invariant nodes == old(nodes) && stamps == old(stamps) && Repr == old(Repr)
        invariant head == nodes[k] && tail == nodes[|nodes| - 1] && tail.next == null
        invariant forall i :: k <= i < |nodes| - 1 ==> nodes[i].next == nodes[i + 1]
        invariant Expired(stamps, k, now, duration)
        decreases |nodes| - k
      {
        var expired := head;
        head := expired.next;
        expired.next := null;
        length := length - 1;
        k := k + 1;
      }
      DropsPrefix(stamps, k, now, duration);
      nodes, stamps := nodes[k..], stamps[k..];
    }

    method Clear()
      requires Valid()
      modifies this
      ensures Valid() && Repr == old(Repr) && stamps == []
    {
      head, tail, length := null, null, 0;
      nodes, stamps := [], [];
    }
  }
}
