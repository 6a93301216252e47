// Arrays whose slots may be empty, and the number of slots in use. Both the
// dictionary and the array of pending sockets are kept this way.
module OptionSlots {

  datatype Option<T> = None | Some(value: T)

  function Occupied<T>(s: seq<Option<T>>): (c: nat)
    ensures c <= |s|
    decreases |s|
  {
    if s == [] then 0
    else Occupied(s[..|s| - 1]) + (if s[|s| - 1].Some? then 1 else 0)
  }

  lemma {:induction false} OccupiedUpdate<T>(s: seq<Option<T>>, i: nat, v: Option<T>)
    requires i < |s|
    ensures Occupied(s[i := v]) + (if s[i].Some? then 1 else 0) == Occupied(s) + (if v.Some? then 1 else 0)
    decreases |s|
  {
    var t, m := s[i := v], |s| - 1;
    if i == m {
      assert t[..m] == s[..m];
    } else {
      assert t[..m] == s[..m][i := v];
      OccupiedUpdate(s[..m], i, v);
    }
  }

  lemma {:induction false} FreeSlot<T>(s: seq<Option<T>>) returns (i: nat)
    requires Occupied(s) < |s|
    ensures i < |s| && s[i].None?
    decreases |s|
  {
    var m := |s| - 1;
    if s[m].None? {
      i := m;
    } else {
      i := FreeSlot(s[..m]);
    }
  }

  lemma {:induction false} NothingOccupied<T>(s: seq<Option<T>>)
    requires Occupied(s) == 0
    ensures forall i :: 0 <= i < |s| ==> s[i].None?
    decreases |s|
  {
    if s != [] {
      NothingOccupied(s[..|s| - 1]);
    }
  }

  lemma {:induction false} AllOccupied<T>(s: seq<Option<T>>)
    requires Occupied(s) == |s|
    ensures forall i :: 0 <= i < |s| ==> s[i].Some?
    decreases |s|
  {
    if s != [] {
      AllOccupied(s[..|s| - 1]);
    }
  }

  lemma {:induction false} OccupiedGrown<T>(s: seq<Option<T>>, t: seq<Option<T>>)
    requires |s| <= |t| && t[..|s|] == s
    requires forall i :: |s| <= i < |t| ==> t[i].None?
    ensures Occupied(t) == Occupied(s)
    decreases |t|
  {
    if |t| == |s| {
      assert t == s;
    } else {
      assert t[..|t| - 1][..|s|] == s;
      OccupiedGrown(s, t[..|t| - 1]);
    }
  }

  lemma {:induction false} AllFree<T>(s: seq<Option<T>>)
    requires forall i :: 0 <= i < |s| ==> s[i].None?
    ensures Occupied(s) == 0
    decreases |s|
  {
    if s != [] {
      AllFree(s[..|s| - 1]);
    }
  }
}
