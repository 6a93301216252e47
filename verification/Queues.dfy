// src/program/cp_library/cp_queue.c: a bounded queue of linked nodes with
// removal from the middle.
module Queues {
  import opened OptionSlots

  class QNode<T> {
    var item: T
    var next: QNode?<T>

    constructor (data: T)
      ensures item == data && next == null
    {
      item := data;
      next := null;
    }
  }

  /** The sequence without the first occurrence of x. */
  function RemoveFirst<T(==)>(s: seq<T>, x: T): (r: seq<T>)
    ensures x !in s ==> r == s
    ensures x in s ==> |r| == |s| - 1
    ensures forall y :: y in r ==> y in s
    ensures forall y :: y in s && y != x ==> y in r
    decreases |s|
  {
    if s == [] then [] else if s[0] == x then s[1..] else [s[0]] + RemoveFirst(s[1..], x)
  }

  function Splice<T>(s: seq<T>, k: nat): (t: seq<T>)
    requires k < |s|
    ensures |t| == |s| - 1
    ensures forall i :: 0 <= i < k ==> t[i] == s[i]
    ensures forall i :: k <= i < |t| ==> t[i] == s[i + 1]
    ensures forall x :: x in t ==> x in s
  {
    s[..k] + s[k + 1..]
  }

  lemma {:induction false} RemoveFirstAt<T>(s: seq<T>, x: T, k: nat)
    requires k < |s| && s[k] == x && x !in s[..k]
    ensures RemoveFirst(s, x) == Splice(s, k)
    decreases |s|
  {
    if k > 0 {
      assert s[..k][0] == s[0];
      assert s[1..][..k - 1] == s[..k][1..];
      RemoveFirstAt(s[1..], x, k - 1);
      assert s[..k] == [s[0]] + s[1..][..k - 1];
    }
  }

  ghost predicate Occurs<T>(s: seq<T>, x: T) {
    exists j :: 0 <= j < |s| && s[j] == x
  }

  lemma AmongByIndex<T>(s: seq<T>, t: seq<T>)
    requires forall x :: x in s ==> x in t
    ensures forall k :: 0 <= k < |s| ==> Occurs(t, s[k])
  {
    forall k | 0 <= k < |s| ensures Occurs(t, s[k]) {
      assert s[k] in t;
    }
  }

  predicate Distinct<T(==)>(s: seq<T>) {
    forall i, j :: 0 <= i < j < |s| ==> s[i] != s[j]
  }

  /** Removing from a queue without duplicates leaves every other element, in order, and not x. */
  lemma {:induction false} RemoveFirstDistinct<T>(s: seq<T>, x: T)
    requires Distinct(s)
    ensures Distinct(RemoveFirst(s, x)) && x !in RemoveFirst(s, x)
    decreases |s|
  {
    if s != [] && s[0] != x {
      RemoveFirstDistinct(s[1..], x);
      var r := RemoveFirst(s[1..], x);
      assert s[0] !in s[1..];
      assert s[0] !in r;
    } else if s != [] {
      assert s[0] !in s[1..];
    }
  }

  class Queue<T(==)> {
    var front: QNode?<T>
    var rear: QNode?<T>
    var items: nat
    var size: nat
    ghost var nodes: seq<QNode<T>>
    ghost var contents: seq<T>

    ghost predicate Valid()
      reads this, nodes
    {
      items == |nodes| == |contents| && items <= size
      && (forall i, j :: 0 <= i < j < |nodes| ==> nodes[i] != nodes[j])
      && (forall i :: 0 <= i < |nodes| ==> nodes[i].item == contents[i])
      && (forall i :: 0 <= i < |nodes| - 1 ==> nodes[i].next == nodes[i + 1])
      && (if items == 0 then front == null
          else front == nodes[0] && rear == nodes[items - 1] && nodes[items - 1].next == null)
    }

    constructor (capacity: nat)
      ensures Valid() && contents == [] && size == capacity && nodes == []
    {
      front := null;
      rear := null;
      items := 0;
      size := capacity;
      nodes := [];
      contents := [];
    }

    method Enqueue(data: T) returns (done: bool)
      requires Valid()
      modifies this, nodes
      ensures Valid() && size == old(size)
      ensures done <==> old(items) != size
      ensures contents == if done then old(contents) + [data] else old(contents)
      ensures forall n :: n in nodes ==> n in old(nodes) || fresh(n)
    {
      if items == size {
        return false;
      }
      var node := new QNode(data);
      if items == 0 {
        front := node;
      } else {
        rear.next := node;
      }
      rear := node;
      items := items + 1;
      nodes := nodes + [node];
      contents := contents + [data];
      done := true;
    }

    method Dequeue() returns (data: Option<T>)
      requires Valid()
      modifies this
      ensures Valid() && size == old(size)
      ensures data == if old(contents) == [] then None else Some(old(contents)[0])
      ensures contents == if old(contents) == [] then [] else old(contents)[1..]
      ensures forall n :: n in nodes ==> n in old(nodes)
    {
      if items == 0 {
        return None;
      }
      var node := front;
      front := front.next;
      data := Some(node.item);
      items := items - 1;
      if items == 0 {
        rear := null;
      }
      nodes := nodes[1..];
      contents := contents[1..];
    }

    /** Takes the first occurrence of data out; the walk needs it to be there. */
    method Remove(data: T) returns (r: Option<T>)
      requires Valid()
      requires contents != [] ==> data in contents
      modifies this, nodes
      ensures Valid() && size == old(size)
      ensures r == if old(contents) == [] then None else Some(data)
      ensures contents == RemoveFirst(old(contents), data)
      ensures forall n :: n in nodes ==> n in old(nodes)
    {
      if items == 0 {
        return None;
      }
      if front.item == data {
        front := front.next;
        items := items - 1;
        nodes := nodes[1..];
        contents := contents[1..];
        return Some(data);
      }
      var node := front;
      ghost var k := 0;
      while node.next.item != data
        invariant 0 <= k < |nodes| - 1 && node == nodes[k] && node.next == nodes[k + 1]
        invariant forall i :: 0 <= i <= k ==> contents[i] != data
        decreases |nodes| - k
      {
        assert contents[k + 1] != data;
        assert k + 1 < |nodes| - 1;
        node := node.next;
        k := k + 1;
      }
      RemoveAt(node, k, data);
      r := Some(data);
    }

    /** The node after nodes[k] is taken out of the chain. */
    method RemoveAt(node: QNode<T>, ghost k: nat, data: T)
      requires Valid() && k + 1 < |nodes| && node == nodes[k] && contents[k + 1] == data
      requires data !in contents[..k + 1]
      modifies this, node
      ensures Valid() && size == old(size)
      ensures contents == RemoveFirst(old(contents), data)
      ensures forall n :: n in nodes ==> n in old(nodes)
    {
      hide RemoveFirst, Splice;
      ghost var s, c := nodes, contents;
      RemoveFirstAt(c, data, k + 1);
      items := items - 1;
      if node.next != rear {
        node.next := node.next.next;
      } else {
        rear := node;
        rear.next := null;
      }
      ghost var u := Splice(s, k + 1);
      assert forall i :: 0 <= i <= k ==> u[i] == s[i];
      assert forall i :: k < i < |u| ==> u[i] == s[i + 1];
      nodes := u;
      contents := Splice(c, k + 1);
      forall i | 0 <= i < |u| - 1 ensures u[i].next == u[i + 1] {
        if i > k {
          assert s[i + 1].next == s[i + 2];
        } else if i < k {
          assert s[i].next == s[i + 1];
        }
      }
    }
  }
}
