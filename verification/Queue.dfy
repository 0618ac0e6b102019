/**
 The work queue of src/util/queue.c: a singly linked list in which a push replaces
 the data of an equal item that is still waiting.
 */
module Queue {
  import opened Prelude

  // ----------------------------------------------------- as a sequence of data

  ghost predicate Distinct<T>(eq: (T, T) -> bool, s: seq<T>) {
    forall i, j :: 0 <= i < j < |s| ==> !eq(s[i], s[j])
  }

  /** The first item equal to x, or the length if there is none. */
  function IndexOf<T>(eq: (T, T) -> bool, s: seq<T>, x: T): (i: nat)
    ensures i <= |s|
    ensures forall k :: 0 <= k < i ==> !eq(s[k], x)
    ensures i < |s| ==> eq(s[i], x)
  {
    if s == [] || eq(s[0], x) then 0 else
    var i := 1 + IndexOf(eq, s[1..], x);
    assert forall k {:trigger s[k]} :: 1 <= k < i ==> s[k] == s[1..][k - 1];
    i
  }

  predicate Waiting<T>(eq: (T, T) -> bool, s: seq<T>, x: T) { IndexOf(eq, s, x) < |s| }

  function Push<T>(eq: (T, T) -> bool, s: seq<T>, x: T): seq<T> {
    var i := IndexOf(eq, s, x);
    if i < |s| then s[i := x] else s + [x]
  }

  function Pop<T>(s: seq<T>): seq<T> { if s == [] then [] else s[1..] }

  function Front<T>(s: seq<T>): Option<T> { if s == [] then None else Some(s[0]) }

  function Remove<T>(eq: (T, T) -> bool, s: seq<T>, x: T): seq<T> {
    var i := IndexOf(eq, s, x);
    if i < |s| then Without(s, i) else s
  }

  lemma IndexOfIs<T>(eq: (T, T) -> bool, s: seq<T>, x: T, i: nat)
    requires i <= |s|
    requires forall k :: 0 <= k < i ==> !eq(s[k], x)
    requires i < |s| ==> eq(s[i], x)
    ensures IndexOf(eq, s, x) == i
  {
  }

  // -------------------------------------------------------------- linked list

  class Node<T> {
    var data: T
    var next: Node?<T>

    constructor (data: T)
      ensures this.data == data && next == null
    {
      this.data, next := data, null;
    }
  }

  class WorkQueue<T(!new)> {
    const equals: (T, T) -> bool
    var head: Node?<T>
    ghost var nodes: seq<Node<T>>   // the list, front first
    ghost var contents: seq<T>      // its data
    ghost var mallocs: nat          // nodes ever allocated
    ghost var frees: nat            // nodes ever freed

    /** The chain from `head` is `nodes`, so it has no cycle; it holds one item of each
        kind; and the nodes in it are all that is allocated and not yet freed. */
    ghost predicate Valid()
      reads this, nodes
    {
      && Linked()
      && Distinct(equals, contents)
      && mallocs == frees + |nodes|
    }

    ghost predicate Linked()
      reads this, nodes
    {
      && |nodes| == |contents|
      && (forall i, j :: 0 <= i < j < |nodes| ==> nodes[i] != nodes[j])
      && head == At(0)
      && (forall i :: 0 <= i < |nodes| ==> nodes[i].data == contents[i] && nodes[i].next == At(i + 1))
    }

    ghost function At(i: nat): Node?<T>
      reads this
    {
      if i < |nodes| then nodes[i] else null
    }

    /** queue_init. */
    constructor (equals: (T, T) -> bool)
      ensures Valid() && this.equals == equals && contents == [] && mallocs == frees == 0 && nodes == []
    {
      this.equals, head, nodes, contents, mallocs, frees := equals, null, [], [], 0, 0;
    }

    /** queue_cleanup. */
    method Cleanup()
      requires Valid()
      modifies this
      ensures Valid() && contents == []
      ensures mallocs == old(mallocs) == frees
    {
      while head != null
        invariant Valid() && mallocs == old(mallocs)
        decreases |nodes|
      {
        head := head.next;
        nodes, contents := nodes[1..], contents[1..];
        frees := frees + 1;
      }
    }

    /** The walk that push and remove make: to the first equal item, or to the end. */
    method Walk(data: T) returns (prev: Node?<T>, cur: Node?<T>, ghost i: nat)
      requires Valid()
      ensures i == IndexOf(equals, contents, data)
      ensures cur == At(IndexOf(equals, contents, data))
      ensures prev == if i == 0 then null else nodes[i - 1]
    {
      prev, cur, i := null, head, 0;
      while cur != null
        invariant i <= |nodes| && cur == At(i)
        invariant prev == if i == 0 then null else nodes[i - 1]
        invariant forall k :: 0 <= k < i ==> !equals(contents[k], data)
        decreases |nodes| - i
      {
        if equals(cur.data, data) {
          IndexOfIs(equals, contents, data, i);
          return;
        }
        prev, cur, i := cur, cur.next, i + 1;
      }
      IndexOfIs(equals, contents, data, i);
    }

    /** queue_push. */
    method PushItem(data: T)
      requires Valid() && Equivalence(equals)
      modifies this, nodes
      ensures Valid()
      ensures contents == Push(equals, old(contents), data)
      ensures frees == old(frees)
      ensures mallocs == old(mallocs) + if Waiting(equals, old(contents), data) then 0 else 1
      ensures if Waiting(equals, old(contents), data) then nodes == old(nodes)
              else nodes != [] && fresh(nodes[|nodes| - 1]) && nodes == old(nodes) + [nodes[|nodes| - 1]]
    {
      hide Distinct;
      PushStaysDistinct(equals, contents, data);
      var prev, cur, i := Walk(data);
      if cur != null {
        Replace(cur, i, data);
      } else {
        Append(prev, data);
      }
    }

    method Replace(cur: Node<T>, ghost i: nat, data: T)
      requires Linked() && i < |nodes| && cur == nodes[i]
      modifies this`contents, cur
      ensures Linked() && contents == old(contents)[i := data]
    {
      cur.data := data;
      contents := contents[i := data];
    }

    method Append(prev: Node?<T>, data: T)
      requires Linked() && prev == if nodes == [] then null else nodes[|nodes| - 1]
      modifies this, prev
      ensures Linked() && contents == old(contents) + [data]
      ensures nodes != [] && fresh(nodes[|nodes| - 1]) && nodes == old(nodes) + [nodes[|nodes| - 1]]
      ensures mallocs == old(mallocs) + 1 && frees == old(frees)
    {
      var node := new Node(data);
      mallocs := mallocs + 1;
      if prev == null {
        head := node;
      } else {
        prev.next := node;
      }
      nodes, contents := nodes + [node], contents + [data];
    }

    /** queue_pop; NULL when the queue is empty. */
    method PopItem() returns (data: Option<T>)
      requires Valid()
      modifies this
      ensures Valid()
      ensures data == Front(old(contents)) && contents == Pop(old(contents))
      ensures nodes == Pop(old(nodes))
      ensures mallocs == old(mallocs) && frees == old(frees) + if old(contents) == [] then 0 else 1
    {
      if head == null {
        return None;
      }
      data := Some(head.data);
      head := head.next;
      nodes, contents := nodes[1..], contents[1..];
      frees := frees + 1;
    }

    /** queue_remove. */
    method RemoveItem(data: T)
      requires Valid() && Equivalence(equals)
      modifies this, nodes
      ensures Valid()
      ensures contents == Remove(equals, old(contents), data)
      ensures mallocs == old(mallocs)
      ensures frees == old(frees) + if Waiting(equals, old(contents), data) then 1 else 0
      ensures var i := IndexOf(equals, old(contents), data);
              nodes == if i < |old(nodes)| then Without(old(nodes), i) else old(nodes)
    {
      hide Distinct;
      if head == null {
        NothingWaits(data);
        return;
      }
      RemoveStaysDistinct(equals, contents, data);
      var prev, cur, i := Walk(data);
      if cur != null {
        Unlink(prev, cur, i);
      }
    }

    lemma NothingWaits(data: T)
      requires Valid() && head == null
      ensures contents == [] && !Waiting(equals, contents, data)
    {
    }

    method Unlink(prev: Node?<T>, cur: Node<T>, ghost i: nat)
      requires Linked() && i < |nodes| && cur == nodes[i] && prev == if i == 0 then null else nodes[i - 1]
      modifies this, prev
      ensures Linked() && contents == Without(old(contents), i) && nodes == Without(old(nodes), i)
      ensures mallocs == old(mallocs) && frees == old(frees) + 1
    {
      if prev == null {
        head := cur.next;
        nodes, contents, frees := Without(nodes, 0), Without(contents, 0), frees + 1;
      } else {
        UnlinkAfter(prev, cur, i);
      }
    }

    method UnlinkAfter(prev: Node<T>, cur: Node<T>, ghost i: nat)
      requires Linked() && 0 < i < |nodes| && prev == nodes[i - 1] && cur == nodes[i]
      modifies this, prev
      ensures Linked() && contents == Without(old(contents), i) && nodes == Without(old(nodes), i)
      ensures mallocs == old(mallocs) && frees == old(frees) + 1
    {
      hide Without;
      ghost var was := nodes;
      prev.next := cur.next;
      nodes, contents, frees := Without(nodes, i), Without(contents, i), frees + 1;
      forall k | 0 <= k < |nodes| ensures nodes[k].data == contents[k] && nodes[k].next == At(k + 1) {
        var j := if k < i then k else k + 1;
        assert nodes[k] == was[j] && (k != i - 1 ==> was[j] != prev);
      }
    }
  }

  lemma RemoveStaysDistinct<T(!new)>(eq: (T, T) -> bool, s: seq<T>, x: T)
    requires Distinct(eq, s)
    ensures Distinct(eq, Remove(eq, s, x))
  {
  }

  lemma PushStaysDistinct<T(!new)>(eq: (T, T) -> bool, s: seq<T>, x: T)
    requires Equivalence(eq) && Distinct(eq, s)
    ensures Distinct(eq, Push(eq, s, x))
  {
  }
}
