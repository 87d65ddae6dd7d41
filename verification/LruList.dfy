/** The doubly linked recency list of the LRU policy: `lru_ref`, `lru_evict` and `in_list`, relinking
    heap nodes.  It refines the sequence operations of LeastRecentlyUsed. */
module LruList {
  import opened LeastRecentlyUsed
  import opened Counting

  class Qnode {
    var frame: nat
    var prev: Qnode?
    var next: Qnode?

    constructor (frame: nat)
      ensures this.frame == frame && prev == null && next == null
    {
      this.frame, prev, next := frame, null, null;
    }
  }

  class List {
    var first: Qnode?
    var last: Qnode?
    ghost var nodes: seq<Qnode>

    /** first and last are the ends, and every pointer names the neighbour. */
    ghost predicate Valid()
      reads this, nodes
    {
      && Distinct(nodes)
      && (nodes == [] ==> first == null && last == null)
      && (nodes != [] ==> first == nodes[0] && last == nodes[|nodes| - 1])
      && (nodes != [] ==> nodes[0].prev == null && nodes[|nodes| - 1].next == null)
      && (forall i {:trigger nodes[i].prev} :: 1 <= i < |nodes| ==> nodes[i].prev == nodes[i - 1])
      && (forall i {:trigger nodes[i].next} :: 0 <= i < |nodes| - 1 ==> nodes[i].next == nodes[i + 1])
    }

    /** The frames in the list, least recently referenced first. */
    ghost function Order(): (s: seq<nat>)
      reads this, nodes
      ensures |s| == |nodes|
    {
      seq(|nodes|, i requires 0 <= i < |nodes| reads this, nodes => nodes[i].frame)
    }

    /** `lru_init`. */
    constructor ()
      ensures Valid() && nodes == []
    {
      first, last, nodes := null, null, [];
    }

    /** `lru_evict`: the frame at the head leaves the list. */
    method Evict() returns (frame: nat)
      requires Valid() && |nodes| >= 2
      modifies this, nodes
      ensures Valid() && nodes == old(nodes[1..])
      ensures frame == old(Order())[0] && Order() == old(Order())[1..]
    {
      frame := first.frame;
      first := first.next;
      nodes := nodes[1..];
      first.prev := null;
    }

    /** The relinking in `in_list` that takes an element out, wherever it stands. */
    method Unlink(element: Qnode, ghost k: nat)
      requires Valid() && |nodes| >= 2 && k < |nodes| && nodes[k] == element
      modifies this, nodes
      ensures Valid() && nodes == old(nodes[..k] + nodes[k + 1..])
      ensures element.prev == null && element.next == null
      ensures forall n :: n in old(nodes) ==> n.frame == old(n.frame)
    {
      if element.prev == null {
        element.next.prev := null;
        first := element.next;
      } else {
        element.prev.next := element.next;
      }
      if element.next == null {
        element.prev.next := null;
        last := element.prev;
      } else {
        element.next.prev := element.prev;
      }
      element.next := null;
      element.prev := null;
      nodes := nodes[..k] + nodes[k + 1..];
    }

    /** The relinking that puts a loose element behind the last one. */
    method Append(element: Qnode)
      requires Valid() && nodes != [] && element !in nodes && element.prev == null && element.next == null
      modifies this, nodes, element
      ensures Valid() && nodes == old(nodes) + [element]
      ensures element.frame == old(element.frame) && forall n :: n in old(nodes) ==> n.frame == old(n.frame)
    {
      last.next := element;
      element.prev := last;
      last := element;
      nodes := nodes + [element];
    }

    /** `in_list`: looks the frame up and, if it is there, moves its element to the end. */
    method InList(frame: nat) returns (found: bool)
      requires Valid() && Order() != [frame] && Distinct(Order())
      modifies this, nodes
      ensures Valid() && |nodes| == |old(nodes)| && (forall n :: n in nodes <==> n in old(nodes))
      ensures found <==> frame in old(Order())
      ensures !found ==> nodes == old(nodes)
      ensures Order() == if found then Touched(old(Order()), frame) else old(Order())
    {
      hide Without;
      var element := first;
      ghost var k := 0;
      while element != null
        invariant 0 <= k <= |nodes|
        invariant element == if k < |nodes| then nodes[k] else null
        invariant forall i :: 0 <= i < k ==> Order()[i] != frame
        decreases |nodes| - k
      {
        if element.frame == frame {
          ghost var before := Order();
          ghost var was := nodes;
          assert before[k] == frame;
          NotAlone(before, k);
          Unlink(element, k);
          Append(element);
          assert Order() == before[..k] + before[k + 1..] + [frame];
          WithoutAt(before, k);
          found := true;
          return;
        }
        element := element.next;
        k := k + 1;
      }
      found := false;
    }

    /** `lru_ref`: the frame becomes the most recent one. */
    method Ref(frame: nat)
      requires Valid() && Order() != [frame] && Distinct(Order())
      modifies this, nodes
      ensures Valid() && Order() == Touched(old(Order()), frame)
      ensures forall n :: n in nodes ==> n in old(nodes) || fresh(n)
    {
      hide Without;
      if first == null {
        var element := new Qnode(frame);
        first := element;
        last := first;
        nodes := [element];
        assert Order() == [frame];
      } else if first == last {
        var found := InList(frame);
        if !found {
          var element := new Qnode(frame);
          ghost var before := Order();
          first.next := element;
          last := element;
          element.prev := first;
          nodes := nodes + [element];
          assert Order() == before + [frame];
        }
      } else {
        var found := InList(frame);
        if !found {
          var element := new Qnode(frame);
          ghost var before := Order();
          Append(element);
          assert Order() == before + [frame];
        }
      }
    }
  }

  lemma NotAlone(s: seq<nat>, k: nat)
    requires k < |s| && s != [s[k]]
    ensures |s| >= 2
  {
  }

  /** Removing the value at position k of a list without repetitions. */
  lemma WithoutAt(s: seq<nat>, k: nat)
    requires k < |s| && Distinct(s)
    ensures Without(s, s[k]) == s[..k] + s[k + 1..]
  {
    hide Without;
    assert s == s[..k] + [s[k]] + s[k + 1..];
    WithoutMiddle(s[..k], s[k], s[k + 1..]);
  }

  lemma WithoutMiddle(a: seq<nat>, x: nat, b: seq<nat>)
    requires x !in a && x !in b
    ensures Without(a + [x] + b, x) == a + b
  {
    WithoutAppend(a + [x], b, x);
    WithoutAppend(a, [x], x);
  }
}
