/**
 The linked queues of all keys. The table is proved to hold the map `contents` from keys
 to timestamp lists; the queues of different keys share no nodes.
 */
module QueueTable {
  import opened RequestQueue

  /** The parts share nothing and lie inside the footprint. */
  ghost predicate Apart(parts: map<string, set<object>>, footprint: set<object>) {
    && (forall k :: k in parts ==> parts[k] <= footprint)
    && (forall k, k' :: k in parts && k' in parts && k != k' ==> parts[k] !! parts[k'])
  }

  lemma PartGrown(parts: map<string, set<object>>, footprint: set<object>, key: string, part: set<object>)
    requires Apart(parts, footprint)
    requires forall o :: o in part && o in footprint ==> key in parts && o in parts[key]
    ensures Apart(parts[key := part], footprint + part)
  {
  }

  /** This queue consists of this part and holds these stamps. */
  ghost predicate Is(q: Queue, part: set<object>, stamps: seq<int>)
    reads part, q
  {
    q in part && q.Repr == part && q.Valid() && q.stamps == stamps
  }

  /** What the queues stand for, and the objects they consist of. */
  datatype Layout = Layout(contents: map<string, seq<int>>, parts: map<string, set<object>>, footprint: set<object>)

  class Table {
    var queues: map<string, Queue>
    ghost var layout: Layout

    ghost predicate Valid()
      reads this, layout.footprint
      ensures Valid() ==> this !in layout.footprint
    {
      && this !in layout.footprint && Apart(layout.parts, layout.footprint)
      && queues.Keys == layout.contents.Keys == layout.parts.Keys
      && (forall k :: k in queues ==> queues[k] in layout.parts[k])
      && (forall k :: k in queues ==> Is(queues[k], layout.parts[k], layout.contents[k]))
    }

    constructor ()
      ensures Valid() && fresh(layout.footprint) && layout.contents == map[]
    {
      queues, layout := map[], Layout(map[], map[], {});
    }

    /** A new key starts with an empty queue. */
    method Add(key: string)
      requires Valid() && key !in layout.contents
      modifies this
      ensures Valid() && fresh(layout.footprint - old(layout.footprint))
      ensures layout.contents == old(layout.contents)[key := []]
    {
      hide Queue.Valid;
      var q := new Queue();
      PartGrown(layout.parts, layout.footprint, key, q.Repr);
      queues := queues[key := q];
      layout := Layout(layout.contents[key := []], layout.parts[key := q.Repr], layout.footprint + q.Repr);
    }

    method Length(key: string) returns (n: nat)
      requires Valid() && key in layout.contents
      ensures n == |layout.contents[key]|
    {
      n := queues[key].length;
    }

    method Append(key: string, timestamp: int)
      requires Valid() && key in layout.contents
      modifies this`layout, layout.footprint
      ensures Valid() && fresh(layout.footprint - old(layout.footprint))
      ensures layout.contents == old(layout.contents)[key := old(layout.contents)[key] + [timestamp]]
    {
      var q := queues[key];
      assert Is(q, layout.parts[key], layout.contents[key]);
      q.Append(timestamp);
      assert forall k :: k in queues && k != key ==> Is(queues[k], layout.parts[k], layout.contents[k]);
      PartGrown(layout.parts, layout.footprint, key, q.Repr);
      layout := Layout(layout.contents[key := q.stamps], layout.parts[key := q.Repr], layout.footprint + q.Repr);
    }

    method RemoveExpired(key: string, now: int, duration: int)
      requires Valid() && key in layout.contents
      modifies this`layout, layout.footprint
      ensures Valid() && layout.footprint == old(layout.footprint)
      ensures layout.contents == old(layout.contents)[key := Remaining(old(layout.contents)[key], now, duration)]
    {
      var q := queues[key];
      q.RemoveExpired(now, duration);
      layout := layout.(contents := layout.contents[key := q.stamps]);
    }

    method Forget(key: string) returns (q: Queue)
      requires Valid() && key in layout.contents
      modifies this
      ensures q.Valid() && q in old(layout.parts)[key] && q.Repr == old(layout.parts)[key]
      ensures Valid()
      ensures layout == Layout(old(layout.contents) - {key}, old(layout.parts) - {key}, old(layout.footprint))
    {
      hide Queue.Valid;
      q := queues[key];
      queues := queues - {key};
      layout := Layout(layout.contents - {key}, layout.parts - {key}, layout.footprint);
    }

    /** Evicting a key clears its queue. */
    method Delete(key: string)
      requires Valid() && key in layout.contents
      modifies this, layout.footprint
      ensures Valid() && layout.footprint == old(layout.footprint) && layout.contents == old(layout.contents) - {key}
    {
      var q := Forget(key);
      q.Clear();
    }
  }
}
