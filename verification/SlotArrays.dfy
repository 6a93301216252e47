// src/program/cp_library/cp_array.c: a fixed array of slots that objects are
// put into and taken out of by index or by value.
module SlotArrays {
  import opened OptionSlots

  class SlotArray<T(==)> {
    const data: array<Option<T>>
    var items: nat

    ghost predicate Valid()
      reads this, data
    {
      items == Occupied(data[..])
    }

    constructor (size: nat)
      ensures Valid() && data.Length == size && fresh(data)
      ensures forall i :: 0 <= i < size ==> data[i].None?
    {
      data := new Option<T>[size](_ => None);
      items := 0;
      new;
      AllFree(data[..]);
    }

    /** Puts the value into the first empty slot and returns its index. */
    method Add(d: Option<T>) returns (i: int)
      requires Valid()
      modifies this, data
      ensures Valid()
      ensures d.None? ==> i == -1
      ensures d.Some? && old(items) == data.Length ==> i == -2
      ensures d.Some? && old(items) < data.Length ==>
        0 <= i < data.Length && old(data[i]).None? && (forall j :: 0 <= j < i ==> old(data[j]).Some?)
        && data[..] == old(data[..])[i := d]
      ensures i < 0 ==> data[..] == old(data[..])
    {
      hide Occupied;
      if d.None? {
        return -1;
      }
      if items >= data.Length {
        return -2;
      }
      ghost var free := FreeSlot(data[..]);
      i := 0;
      while data[i].Some?
        invariant 0 <= i <= free < data.Length && data[free].None?
        invariant forall j :: 0 <= j < i ==> data[j].Some?
        decreases free - i
      {
        i := i + 1;
      }
      ghost var s := data[..];
      OccupiedUpdate(s, i, d);
      data[i] := d;
      items := items + 1;
      assert data[..] == s[i := d];
    }

    method RemoveByIndex(index: int)
      requires Valid() && index < data.Length
      modifies this, data
      ensures Valid()
      ensures data[..] == if index < 0 then old(data[..]) else old(data[..])[index := None]
    {
      hide Occupied;
      if index < 0 {
        return;
      }
      if data[index].Some? {
        ghost var s := data[..];
        OccupiedUpdate(s, index, None);
        items := items - 1;
        data[index] := None;
        assert data[..] == s[index := None];
      }
    }

    /** Empties the first slot that holds the value. */
    method RemoveByData(d: Option<T>) returns (rv: int)
      requires Valid()
      modifies this, data
      ensures Valid()
      ensures rv == if d.None? then -1 else if old(items) == 0 then -2
                    else if d in old(data[..]) then 0 else -3
      ensures rv != 0 ==> data[..] == old(data[..])
      ensures rv == 0 ==>
        (exists i :: 0 <= i < data.Length && old(data[i]) == d
                     && (forall j :: 0 <= j < i ==> old(data[j]) != d)
                     && data[..] == old(data[..])[i := None])
    {
      hide Occupied;
      if d.None? {
        return -1;
      }
      if items <= 0 {
        return -2;
      }
      rv := -3;
      var i := 0;
      while i < data.Length
        invariant 0 <= i <= data.Length && rv == -3 && Valid()
        invariant data[..] == old(data[..])
        invariant forall j :: 0 <= j < i ==> data[j] != d
      {
        if data[i] == d {
          ghost var s := data[..];
          OccupiedUpdate(s, i, None);
          items := items - 1;
          data[i] := None;
          assert data[..] == s[i := None];
          rv := 0;
          return;
        }
        i := i + 1;
      }
    }
  }
}
