/**
 * The FIFO queue that collects the result of a range query: a singly
 * linked list with references to its first and last nodes and a count.
 * The ghost sequence `Nodes` lists the live nodes front to back and
 * `Contents` their items; `Valid()` ties both to the links.
 */
module Fifo {
  import opened Wrappers

  class Node<T> {
    var item: T
    var next: Node?<T>

    constructor (item: T)
      ensures this.item == item && next == null
    {
      this.item := item;
      next := null;
    }
  }

  class Queue<T> {
    var first: Node?<T>
    var last: Node?<T>
    var count: nat

    ghost var Contents: seq<T>
    ghost var Nodes: seq<Node<T>>
    ghost var Repr: set<object>

    ghost predicate Valid()
      reads this, Repr
      ensures Valid() ==> this in Repr
    {
      && this in Repr
      && |Nodes| == |Contents| == count
      && (forall i {:trigger Nodes[i]} :: 0 <= i < |Nodes| ==> Nodes[i] in Repr && Nodes[i].item == Contents[i])
      && (forall i {:trigger Nodes[i].next} :: 0 <= i < |Nodes| - 1 ==> Nodes[i].next == Nodes[i + 1])
      && (Nodes == [] ==> first == null && last == null)
      && (Nodes != [] ==> first == Nodes[0] && last == Nodes[|Nodes| - 1] && last.next == null)
    }

    constructor ()
      ensures Valid() && fresh(Repr) && Contents == []
    {
      first, last, count := null, null, 0;
      Contents, Nodes := [], [];
      Repr := {this};
    }

    /** Appends `item` at the back. */
    method Enqueue(item: T)
      requires Valid()
      modifies Repr
      ensures Valid() && fresh(Repr - old(Repr))
      ensures Contents == old(Contents) + [item]
    {
      var oldLast := last;
      last := new Node(item);
      if first == null {
        first := last;
      } else {
        oldLast.next := last;
      }
      count := count + 1;
      Nodes, Contents := Nodes + [last], Contents + [item];
      Repr := Repr + {last};
    }

    /** Removes and returns the front item; `None` (Java's null) when empty. */
    method Dequeue() returns (r: Option<T>)
      requires Valid()
      modifies this
      ensures Valid() && Repr == old(Repr)
      ensures old(Contents) == [] ==> r == None && Contents == []
      ensures old(Contents) != [] ==> r == Some(old(Contents)[0]) && Contents == old(Contents)[1..]
    {
      if first == null {
        return None;
      }
      var item := first.item;
      first := first.next;
      if first == null {
        last := null;
      }
      count := count - 1;
      Nodes, Contents := Nodes[1..], Contents[1..];
      return Some(item);
    }

    method IsEmpty() returns (r: bool)
      requires Valid()
      ensures r <==> Contents == []
      ensures r <==> count == 0
    {
      return first == null;
    }

    method Size() returns (r: nat)
      requires Valid()
      ensures r == |Contents|
    {
      return count;
    }

    /** A fresh iterator positioned at the front; the queue is left as it is. */
    method Iterator() returns (it: QueueIterator<T>)
      requires Valid()
      ensures fresh(it) && it.Valid() && it.queue == this && it.pos == 0
    {
      it := new QueueIterator(this);
    }
  }

  /** Walks a queue front to back without changing it. */
  class QueueIterator<T> {
    var current: Node?<T>
    ghost const queue: Queue<T>
    ghost var pos: nat

    ghost predicate Valid()
      reads this, queue, queue.Repr
    {
      && queue.Valid()
      && this !in queue.Repr
      && pos <= |queue.Nodes|
      && current == (if pos < |queue.Nodes| then queue.Nodes[pos] else null)
    }

    constructor (q: Queue<T>)
      requires q.Valid()
      ensures Valid() && queue == q && pos == 0
    {
      current := q.first;
      queue := q;
      pos := 0;
    }

    method HasNext() returns (r: bool)
      requires Valid()
      ensures r <==> pos < |queue.Contents|
    {
      return current != null;
    }

    method Next() returns (item: T)
      requires Valid() && pos < |queue.Contents|
      modifies this
      ensures Valid() && pos == old(pos) + 1
      ensures item == queue.Contents[old(pos)]
    {
      item := current.item;
      current := current.next;
      pos := pos + 1;
    }
  }

  lemma PrefixStep<T>(s: seq<T>, i: nat)
    requires i < |s|
    ensures s[..i + 1] == s[..i] + [s[i]]
  {
  }

  /** A fresh queue holding `xs`, front to back, built by enqueueing each item. */
  method FromSeq<T>(xs: seq<T>) returns (q: Queue<T>)
    ensures q.Valid() && fresh(q.Repr) && q.Contents == xs
  {
    q := new Queue<T>();
    for i := 0 to |xs|
      invariant q.Valid() && fresh(q.Repr)
      invariant q.Contents == xs[..i]
    {
      PrefixStep(xs, i);
      q.Enqueue(xs[i]);
    }
  }

  /** Dequeueing until the queue is empty yields its contents front to back. */
  method Drain<T>(q: Queue<T>) returns (ys: seq<T>)
    requires q.Valid()
    modifies q
    ensures q.Valid() && q.Contents == [] && ys == old(q.Contents)
  {
    ys := [];
    var empty := q.IsEmpty();
    while !empty
      invariant q.Valid() && q.Repr == old(q.Repr)
      invariant ys + q.Contents == old(q.Contents)
      invariant empty <==> q.Contents == []
      decreases |q.Contents|
    {
      ghost var c := q.Contents;
      var r := q.Dequeue();
      assert c == [r.value] + q.Contents;
      ys := ys + [r.value];
      empty := q.IsEmpty();
    }
  }

  /** Enqueueing items and dequeueing them all gives them back in insertion order. */
  method FirstInFirstOut<T>(xs: seq<T>) returns (ys: seq<T>)
    ensures ys == xs
  {
    var q := FromSeq(xs);
    ys := Drain(q);
  }

  /** Iterating a queue yields its contents front to back and leaves it unchanged. */
  method Traverse<T>(q: Queue<T>) returns (ys: seq<T>)
    requires q.Valid()
    ensures ys == q.Contents
  {
    var it := q.Iterator();
    ys := [];
    var more := it.HasNext();
    while more
      invariant fresh(it) && it.Valid() && it.queue == q
      invariant ys == q.Contents[..it.pos]
      invariant more <==> it.pos < |q.Contents|
      decreases |q.Contents| - it.pos
    {
      PrefixStep(q.Contents, it.pos);
      var x := it.Next();
      ys := ys + [x];
      more := it.HasNext();
    }
  }
}
