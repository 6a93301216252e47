// src/program/cp_library/cp_klist.h: circular doubly linked lists of nodes that
// are embedded in other objects. A list is written as the sequence of its nodes
// around the ring, starting with the head.
module KList {

  /** struct list_head. A null link stands for a poisoned one. */
  class Node {
    var next: Node?
    var prev: Node?

    constructor ()
      ensures Ring([this])
    {
      next := this;
      prev := this;
    }
  }

  ghost predicate Linked(a: Node, b: Node)
    reads a, b
  {
    a.next == b && b.prev == a
  }

  ghost predicate NoDup(s: seq<Node>) {
    forall i, j :: 0 <= i < j < |s| ==> s[i] != s[j]
  }

  ghost predicate Disjoint(s: seq<Node>, t: seq<Node>) {
    forall i, j :: 0 <= i < |s| && 0 <= j < |t| ==> s[i] != t[j]
  }

  /** next and prev run around s in the two directions. */
  ghost predicate Ring(s: seq<Node>)
    reads s
  {
    |s| > 0 && NoDup(s)
    && (forall i :: 0 <= i < |s| - 1 ==> Linked(s[i], s[i + 1]))
    && Linked(s[|s| - 1], s[0])
  }

  function After(s: seq<Node>, k: nat): (n: Node)
    requires k < |s|
  {
    if k + 1 < |s| then s[k + 1] else s[0]
  }

  function Before(s: seq<Node>, k: nat): (n: Node)
    requires k < |s|
  {
    if k > 0 then s[k - 1] else s[|s| - 1]
  }

  function Without(s: seq<Node>, k: nat): (t: seq<Node>)
    requires k < |s|
    ensures |t| == |s| - 1
  {
    s[..k] + s[k + 1..]
  }

  lemma Neighbours(s: seq<Node>, k: nat)
    requires Ring(s) && k < |s|
    ensures s[k].next == After(s, k) && s[k].prev == Before(s, k)
  {
    if k + 1 < |s| { assert Linked(s[k], s[k + 1]); }
    if k > 0 { assert Linked(s[k - 1], s[k]); }
  }

  /** A ring by the links of its nodes: round the sequence in both directions, no node twice. */
  lemma RingIs(s: seq<Node>)
    ensures Ring(s) <==>
      && |s| > 0 && (forall i, j :: 0 <= i < |s| && 0 <= j < |s| && s[i] == s[j] ==> i == j)
      && forall i :: 0 <= i < |s| ==>
           s[i].next == s[if i == |s| - 1 then 0 else i + 1] && s[i].prev == s[if i == 0 then |s| - 1 else i - 1]
  {
    if |s| > 0 && forall i :: 0 <= i < |s| ==>
         s[i].next == s[if i == |s| - 1 then 0 else i + 1] && s[i].prev == s[if i == 0 then |s| - 1 else i - 1] {
      forall i | 0 <= i < |s| - 1
        ensures Linked(s[i], s[i + 1])
      {
        assert s[i + 1].prev == s[i];
      }
      assert Linked(s[|s| - 1], s[0]);
    }
    if Ring(s) {
      forall i | 0 <= i < |s|
        ensures s[i].next == s[if i == |s| - 1 then 0 else i + 1] && s[i].prev == s[if i == 0 then |s| - 1 else i - 1]
      {
        Neighbours(s, i);
      }
    }
  }

  /** A ring can be read from any of its nodes. */
  lemma Rotate(s: seq<Node>, k: nat)
    requires Ring(s) && k < |s|
    ensures Ring(s[k..] + s[..k])
  {
    var t := s[k..] + s[..k];
    forall i, j | 0 <= i < j < |t| ensures t[i] != t[j] {
      assert t[i] == (if i < |s| - k then s[k + i] else s[i - (|s| - k)]);
      assert t[j] == (if j < |s| - k then s[k + j] else s[j - (|s| - k)]);
    }
    forall i | 0 <= i < |t| - 1 ensures Linked(t[i], t[i + 1]) {
      if i == |s| - k - 1 {
        assert t[i] == s[|s| - 1] && t[i + 1] == s[0];
      } else if i < |s| - k - 1 {
        assert t[i] == s[k + i] && t[i + 1] == s[k + i + 1];
      } else {
        assert t[i] == s[i - (|s| - k)] && t[i + 1] == s[i - (|s| - k) + 1];
      }
    }
    if k > 0 {
      assert t[|t| - 1] == s[k - 1] && t[0] == s[k];
    } else {
      assert t == s;
    }
  }

  /** A node has one ring: two readings that start alike are the same. */
  lemma {:induction false} SameRing(s: seq<Node>, t: seq<Node>)
    requires Ring(s) && Ring(t) && s[0] == t[0]
    ensures s == t
  {
    var n := if |s| <= |t| then |s| else |t|;
    var i := 1;
    while i < n
      invariant 1 <= i <= n
      invariant forall j :: 0 <= j < i ==> s[j] == t[j]
    {
      assert Linked(s[i - 1], s[i]) && Linked(t[i - 1], t[i]);
      i := i + 1;
    }
    Neighbours(s, n - 1);
    Neighbours(t, n - 1);
  }

  method InitListHead(list: Node)
    modifies list
    ensures Ring([list])
  {
    list.next := list;
    list.prev := list;
  }

  method ListEmpty(head: Node, ghost s: seq<Node>) returns (r: bool)
    requires Ring(s) && s[0] == head
    ensures r <==> s == [head]
  {
    Neighbours(s, 0);
    r := head.next == head;
  }

  method ListIsSingular(head: Node, ghost s: seq<Node>) returns (r: bool)
    requires Ring(s) && s[0] == head
    ensures r <==> |s| == 2
  {
    Neighbours(s, 0);
    var e := ListEmpty(head, s);
    r := !e && head.next == head.prev;
  }

  method ListIsLast(list: Node, head: Node, ghost s: seq<Node>, ghost k: nat) returns (r: bool)
    requires Ring(s) && s[0] == head && k < |s| && s[k] == list
    ensures r <==> k == |s| - 1
  {
    Neighbours(s, k);
    r := list.next == head;
  }

  /** __list_add: new enters the ring between prev and next. */
  method Insert(added: Node, prev: Node, next: Node, ghost s: seq<Node>, ghost k: nat)
    requires Ring(s) && k < |s| && s[k] == prev && After(s, k) == next && added !in s
    modifies added, prev, next
    ensures Ring(s[..k + 1] + [added] + s[k + 1..])
  {
    next.prev := added;
    added.next := next;
    added.prev := prev;
    prev.next := added;
    ghost var t := s[..k + 1] + [added] + s[k + 1..];
    assert forall i :: 0 <= i <= k ==> t[i] == s[i];
    assert forall i :: k + 1 < i < |t| ==> t[i] == s[i - 1];
    forall i | 0 <= i < |t| - 1 ensures Linked(t[i], t[i + 1]) {
      if i < k { assert old(Linked(s[i], s[i + 1])); }
      else if i > k + 1 { assert old(Linked(s[i - 1], s[i])); }
    }
    if 0 < k < |s| - 1 { assert old(Linked(s[|s| - 1], s[0])); }
  }

  method ListAdd(added: Node, head: Node, ghost s: seq<Node>)
    requires Ring(s) && s[0] == head && added !in s
    modifies added, head, head.next
    ensures Ring([head, added] + s[1..])
  {
    Neighbours(s, 0);
    Insert(added, head, head.next, s, 0);
    assert s[..1] + [added] + s[1..] == [head, added] + s[1..];
  }

  method ListAddTail(added: Node, head: Node, ghost s: seq<Node>)
    requires Ring(s) && s[0] == head && added !in s
    modifies added, head, head.prev
    ensures Ring(s + [added])
  {
    Neighbours(s, 0);
    Insert(added, head.prev, head, s, |s| - 1);
    assert s[..|s|] + [added] + s[|s|..] == s + [added];
  }

  /** __list_del: the neighbours of s[k] are joined; s[k] itself keeps its links. */
  method Unlink(prev: Node, next: Node, ghost s: seq<Node>, ghost k: nat)
    requires Ring(s) && k < |s| && Before(s, k) == prev && After(s, k) == next
    modifies prev, next
    ensures |s| > 1 ==> Ring(Without(s, k))
  {
    next.prev := prev;
    prev.next := next;
    ghost var t := Without(s, k);
    assert forall i :: 0 <= i < k ==> t[i] == s[i];
    assert forall i :: k <= i < |t| ==> t[i] == s[i + 1];
  }

  method ListDel(entry: Node, ghost s: seq<Node>, ghost k: nat)
    requires Ring(s) && k < |s| && s[k] == entry
    modifies entry, entry.prev, entry.next
    ensures |s| > 1 ==> Ring(Without(s, k))
    ensures entry.next == null && entry.prev == null
  {
    Neighbours(s, k);
    Unlink(entry.prev, entry.next, s, k);
    entry.next := null;
    entry.prev := null;
    assert entry !in Without(s, k);
  }

  method ListDelInit(entry: Node, ghost s: seq<Node>, ghost k: nat)
    requires Ring(s) && k < |s| && s[k] == entry
    modifies entry, entry.prev, entry.next
    ensures |s| > 1 ==> Ring(Without(s, k))
    ensures Ring([entry])
  {
    Neighbours(s, k);
    Unlink(entry.prev, entry.next, s, k);
    InitListHead(entry);
    assert entry !in Without(s, k);
  }

  /** The new node takes exactly the place of the old one, even alone in a ring. */
  method ListReplace(replaced: Node, added: Node, ghost s: seq<Node>, ghost k: nat)
    requires Ring(s) && k < |s| && s[k] == replaced && added !in s
    modifies added, replaced.next, replaced.prev
    ensures Ring(s[k := added])
    ensures |s| > 1 ==> replaced.next == old(replaced.next) && replaced.prev == old(replaced.prev)
  {
    Neighbours(s, k);
    added.next := replaced.next;
    added.next.prev := added;
    added.prev := replaced.prev;
    added.prev.next := added;
    ghost var t := s[k := added];
    assert forall i :: 0 <= i < |s| && i != k ==> t[i] == s[i];
  }

  /** Moving within one ring: the entry leaves its place and follows the head. */
  method ListMove(list: Node, head: Node, ghost s: seq<Node>, ghost k: nat)
    requires Ring(s) && s[0] == head && 0 < k < |s| && s[k] == list
    modifies s
    ensures Ring([head, list] + Without(s, k)[1..])
  {
    Neighbours(s, k);
    Unlink(list.prev, list.next, s, k);
    ghost var t := Without(s, k);
    Neighbours(t, 0);
    assert list !in t;
    ListAdd(list, head, t);
  }

  method ListMoveTail(list: Node, head: Node, ghost s: seq<Node>, ghost k: nat)
    requires Ring(s) && s[0] == head && 0 < k < |s| && s[k] == list
    modifies s
    ensures Ring(Without(s, k) + [list])
  {
    Neighbours(s, k);
    Unlink(list.prev, list.next, s, k);
    ghost var t := Without(s, k);
    Neighbours(t, 0);
    assert list !in t;
    ListAddTail(list, head, t);
  }

  /** Moving to another ring: one loses the entry, the other gains it. */
  method ListMoveAcross(list: Node, head: Node, ghost s: seq<Node>, ghost k: nat, ghost t: seq<Node>)
    requires Ring(s) && k < |s| && s[k] == list
    requires Ring(t) && t[0] == head && Disjoint(s, t)
    modifies list, list.prev, list.next, head, head.next
    ensures |s| > 1 ==> Ring(Without(s, k))
    ensures Ring([head, list] + t[1..])
  {
    Neighbours(s, k);
    Neighbours(t, 0);
    assert list !in t;
    Unlink(list.prev, list.next, s, k);
    assert Ring(t);
    ListAdd(list, head, t);
    assert forall i :: 0 <= i < |s| - 1 ==> Without(s, k)[i] != list;
  }

  method ListMoveTailAcross(list: Node, head: Node, ghost s: seq<Node>, ghost k: nat, ghost t: seq<Node>)
    requires Ring(s) && k < |s| && s[k] == list
    requires Ring(t) && t[0] == head && Disjoint(s, t)
    modifies list, list.prev, list.next, head, head.prev
    ensures |s| > 1 ==> Ring(Without(s, k))
    ensures Ring(t + [list])
  {
    Neighbours(s, k);
    Neighbours(t, 0);
    assert list !in t;
    Unlink(list.prev, list.next, s, k);
    assert Ring(t);
    ListAddTail(list, head, t);
    assert forall i :: 0 <= i < |s| - 1 ==> Without(s, k)[i] != list;
  }

  /** __list_splice: the nodes behind the head of s enter t behind t[k]. */
  method Join(list: Node, prev: Node, next: Node, ghost s: seq<Node>, ghost t: seq<Node>, ghost k: nat)
    requires Ring(s) && s[0] == list && |s| > 1
    requires Ring(t) && k < |t| && t[k] == prev && After(t, k) == next && Disjoint(s, t)
    modifies list.next, list.prev, prev, next
    ensures Ring(t[..k + 1] + s[1..] + t[k + 1..])
    ensures list.next == old(list.next) && list.prev == old(list.prev)
  {
    Neighbours(s, 0);
    var first := list.next;
    var last := list.prev;
    first.prev := prev;
    prev.next := first;
    last.next := next;
    next.prev := last;
    ghost var u := t[..k + 1] + s[1..] + t[k + 1..];
    ghost var m := |s| - 1;
    assert forall i :: 0 <= i <= k ==> u[i] == t[i];
    assert forall i :: k < i <= k + m ==> u[i] == s[i - k];
    assert forall i :: k + m < i < |u| ==> u[i] == t[i - m];
    assert NoDup(u) by { JoinDistinct(s, t, k); }
    forall i | 0 <= i < |u| - 1 ensures Linked(u[i], u[i + 1]) {
      if i < k { assert Linked(t[i], t[i + 1]); }
      else if k < i < k + m { assert old(Linked(s[i - k], s[i - k + 1])); }
      else if k + m < i { assert old(Linked(t[i - m], t[i - m + 1])); }
    }
  }

  lemma JoinDistinct(s: seq<Node>, t: seq<Node>, k: nat)
    requires |s| > 0 && NoDup(s) && NoDup(t) && Disjoint(s, t) && k < |t|
    ensures NoDup(t[..k + 1] + s[1..] + t[k + 1..])
  {
    var u, m := t[..k + 1] + s[1..] + t[k + 1..], |s| - 1;
    forall i, j | 0 <= i < j < |u| ensures u[i] != u[j] {
      assert u[i] == if i <= k then t[i] else if i <= k + m then s[i - k] else t[i - m];
      assert u[j] == if j <= k then t[j] else if j <= k + m then s[j - k] else t[j - m];
    }
  }

  method ListSplice(list: Node, head: Node, ghost s: seq<Node>, ghost t: seq<Node>)
    requires Ring(s) && s[0] == list && Ring(t) && t[0] == head && Disjoint(s, t)
    modifies s, t
    ensures Ring([head] + s[1..] + t[1..])
    ensures list.next == old(list.next) && list.prev == old(list.prev)
  {
    var e := ListEmpty(list, s);
    Neighbours(t, 0);
    if !e {
      Neighbours(s, 0);
      Join(list, head, head.next, s, t, 0);
      assert t[..1] + s[1..] + t[1..] == [head] + s[1..] + t[1..];
    } else {
      assert [head] + s[1..] + t[1..] == t;
    }
  }

  method ListSpliceTail(list: Node, head: Node, ghost s: seq<Node>, ghost t: seq<Node>)
    requires Ring(s) && s[0] == list && Ring(t) && t[0] == head && Disjoint(s, t)
    modifies s, t
    ensures Ring(t + s[1..])
    ensures list.next == old(list.next) && list.prev == old(list.prev)
  {
    var e := ListEmpty(list, s);
    Neighbours(t, 0);
    if !e {
      Neighbours(s, 0);
      Join(list, head.prev, head, s, t, |t| - 1);
      assert t[..|t|] + s[1..] + t[|t|..] == t + s[1..];
    } else {
      assert t + s[1..] == t;
    }
  }

  method ListSpliceInit(list: Node, head: Node, ghost s: seq<Node>, ghost t: seq<Node>)
    requires Ring(s) && s[0] == list && Ring(t) && t[0] == head && Disjoint(s, t)
    modifies s, t
    ensures Ring([head] + s[1..] + t[1..]) && Ring([list])
  {
    var e := ListEmpty(list, s);
    if !e {
      ListSplice(list, head, s, t);
      assert list !in [head] + s[1..] + t[1..];
      InitListHead(list);
    } else {
      assert [head] + s[1..] + t[1..] == t && s == [list];
    }
  }

  method ListSpliceTailInit(list: Node, head: Node, ghost s: seq<Node>, ghost t: seq<Node>)
    requires Ring(s) && s[0] == list && Ring(t) && t[0] == head && Disjoint(s, t)
    modifies s, t
    ensures Ring(t + s[1..]) && Ring([list])
  {
    var e := ListEmpty(list, s);
    if !e {
      ListSpliceTail(list, head, s, t);
      assert list !in t + s[1..];
      InitListHead(list);
    } else {
      assert t + s[1..] == t && s == [list];
    }
  }

  lemma CutNoDup(list: Node, t: seq<Node>, k: nat)
    requires NoDup(t) && 0 < k < |t| && list !in t
    ensures NoDup([list] + t[1..k + 1]) && NoDup([t[0]] + t[k + 1..])
  {
    var v := [t[0]] + t[k + 1..];
    assert forall i :: 0 < i < |v| ==> v[i] == t[k + i];
  }

  /** __list_cut_position. */
  method Cut(list: Node, head: Node, entry: Node, ghost t: seq<Node>, ghost k: nat)
    requires Ring(t) && t[0] == head && 0 < k < |t| && t[k] == entry && list !in t
    modifies list, head, head.next, entry, entry.next
    ensures Ring([list] + t[1..k + 1]) && Ring([head] + t[k + 1..])
  {
    Neighbours(t, 0);
    Neighbours(t, k);
    var newFirst := entry.next;
    list.next := head.next;
    list.next.prev := list;
    list.prev := entry;
    entry.next := list;
    head.next := newFirst;
    newFirst.prev := head;
    ghost var u, v := [list] + t[1..k + 1], [head] + t[k + 1..];
    CutNoDup(list, t, k);
    assert forall i :: 0 < i < |u| ==> u[i] == t[i];
    assert forall i :: 0 < i < |v| ==> v[i] == t[k + i];
    assert Ring(u) by {
      forall i | 0 <= i < |u| - 1 ensures Linked(u[i], u[i + 1]) {
        if i > 0 { assert old(Linked(t[i], t[i + 1])); }
      }
    }
    assert Ring(v) by {
      forall i | 0 <= i < |v| - 1 ensures Linked(v[i], v[i + 1]) {
        if i > 0 { assert old(Linked(t[k + i], t[k + i + 1])); }
      }
      if |v| > 1 { assert old(Linked(t[|t| - 1], t[0])); }
    }
  }

  /**
   * Cuts the nodes up to entry off head's ring into a ring of their own. An
   * empty head leaves everything alone, even list; so does an entry that is
   * not there when head has a single entry.
   */
  method ListCutPosition(list: Node, head: Node, entry: Node, ghost t: seq<Node>, ghost k: nat)
    requires Ring(t) && t[0] == head && list !in t
    requires |t| > 2 || entry in t ==> k < |t| && t[k] == entry
    modifies list, t
    ensures |t| == 1 || (|t| == 2 && entry !in t) ==>
      Ring(t) && list.next == old(list.next) && list.prev == old(list.prev)
    ensures |t| > 1 && entry in t ==>
      Ring([list] + t[1..k + 1]) && Ring([head] + t[k + 1..])
  {
    Neighbours(t, 0);
    var e := ListEmpty(head, t);
    if e {
      return;
    }
    var one := ListIsSingular(head, t);
    if one && head.next != entry && head != entry {
      return;
    }
    if entry == head {
      InitListHead(list);
      assert [list] + t[1..1] == [list] && [head] + t[1..] == t;
    } else {
      Neighbours(t, k);
      Cut(list, head, entry, t, k);
    }
  }

  /** Splicing a list that was cut off back in front of the rest restores the ring. */
  method CutThenSplice(list: Node, head: Node, entry: Node, ghost t: seq<Node>, ghost k: nat)
    requires Ring(t) && t[0] == head && 0 < k < |t| && t[k] == entry && list !in t
    modifies list, t
    ensures Ring(t)
  {
    assert entry in t;
    CutParts(list, head, t, k);
    ghost var u, v := [list] + t[1..k + 1], [head] + t[k + 1..];
    ListCutPosition(list, head, entry, t, k);
    hide Ring;
    ListSplice(list, head, u, v);
  }

  lemma CutParts(list: Node, head: Node, t: seq<Node>, k: nat)
    requires 0 < k < |t| && NoDup(t) && t[0] == head && list !in t
    ensures var u, v := [list] + t[1..k + 1], [head] + t[k + 1..];
      Disjoint(u, v) && [head] + u[1..] + v[1..] == t
  {
    var u, v := [list] + t[1..k + 1], [head] + t[k + 1..];
    assert forall i :: 0 < i < |u| ==> u[i] == t[i];
    assert forall i :: 0 < i < |v| ==> v[i] == t[k + i];
  }
}
