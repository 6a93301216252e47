// src/program/cp_library/cp_dictionary.c: a dictionary kept in three parallel
// arrays that are searched slot by slot, with a hash to skip most comparisons.
module Dictionaries {
  import opened OptionSlots

  type Text = seq<bv8>
  type Slots = seq<Option<Text>>

  const MINSIZE: nat := 128

  // --- The hash -----------------------------------------------------------

  /** Whether plain char is a signed type, which C leaves to the compiler. */
  const charSigned: bool

  /** A character converted to unsigned: a negative one fills the upper bits. */
  function AsUnsigned(c: bv8): bv32 {
    if charSigned && c >= 0x80 then 0xFFFFFF00 | (c as bv32) else c as bv32
  }

  /** One character: hash += c, hash += hash << 10, hash ^= hash >> 6. */
  function Mix(hash: bv32, c: bv8): bv32 {
    var a := hash + AsUnsigned(c);
    var b := a + (a << 10);
    b ^ (b >> 6)
  }

  function Finish(hash: bv32): bv32 {
    var a := hash + (hash << 3);
    var b := a ^ (a >> 11);
    b + (b << 15)
  }

  function MixAll(hash: bv32, key: Text): bv32
    decreases |key|
  {
    if key == [] then hash else Mix(MixAll(hash, key[..|key| - 1]), key[|key| - 1])
  }

  function Hash(key: Text): bv32 { Finish(MixAll(0, key)) }

  /** The hash of the key "ab". */
  lemma HashOfAB()
    ensures Hash([0x61, 0x62]) == 0x45E61E58
  {
    var s: Text := [0x61, 0x62];
    assert s[..1][..0] == [];
    assert MixAll(0, s[..0]) == 0;
    assert MixAll(0, s[..1]) == Mix(0, 0x61);
  }

  method ComputeHash(key: Text) returns (hash: bv32)
    ensures hash == Hash(key)
  {
    hide Mix, Finish;
    hash := 0;
    var i := 0;
    while i < |key|
      invariant 0 <= i <= |key|
      invariant hash == MixAll(0, key[..i])
    {
      assert key[..i + 1][..i] == key[..i];
      hash := Mix(hash, key[i]);
      i := i + 1;
    }
    assert key[..i] == key;
    hash := Finish(hash);
  }

  // --- The dictionary -----------------------------------------------------

  /** The slots hold exactly the entries of m, each key once and under its hash. */
  ghost predicate Holds(keys: Slots, vals: Slots, hashes: seq<bv32>, m: map<Text, Option<Text>>) {
    |keys| == |vals| == |hashes|
    && (forall i :: 0 <= i < |keys| && keys[i].Some? ==>
          keys[i].value in m && m[keys[i].value] == vals[i] && hashes[i] == Hash(keys[i].value))
    && (forall i, j :: 0 <= i < j < |keys| && keys[i].Some? ==> keys[i] != keys[j])
    && (forall k :: k in m ==> exists i :: 0 <= i < |keys| && keys[i] == Some(k))
  }

  lemma HoldsInsert(keys: Slots, vals: Slots, hashes: seq<bv32>, m: map<Text, Option<Text>>,
                    i: nat, k: Text, v: Option<Text>)
    requires Holds(keys, vals, hashes, m) && i < |keys| && k !in m && keys[i].None?
    ensures Holds(keys[i := Some(k)], vals[i := v], hashes[i := Hash(k)], m[k := v])
  {
    hide Hash;
    var keys' := keys[i := Some(k)];
    assert keys'[i] == Some(k);
    forall k' | k' in m ensures exists j :: 0 <= j < |keys'| && keys'[j] == Some(k') {
      var j :| 0 <= j < |keys| && keys[j] == Some(k');
      assert keys'[j] == Some(k');
    }
  }

  lemma HoldsReplace(keys: Slots, vals: Slots, hashes: seq<bv32>, m: map<Text, Option<Text>>,
                     i: nat, k: Text, v: Option<Text>)
    requires Holds(keys, vals, hashes, m) && i < |keys| && keys[i] == Some(k)
    ensures k in m && Holds(keys, vals[i := v], hashes, m[k := v])
  {
    hide Hash;
    forall j | 0 <= j < |keys| && keys[j].Some? && j != i ensures keys[j].value != k {
      assert if i < j then keys[i] != keys[j] else keys[j] != keys[i];
    }
  }

  lemma HoldsRemove(keys: Slots, vals: Slots, hashes: seq<bv32>, m: map<Text, Option<Text>>,
                    i: nat, k: Text)
    requires Holds(keys, vals, hashes, m) && i < |keys| && keys[i] == Some(k)
    ensures |vals| == |hashes| == |keys|
    ensures k in m && Holds(keys[i := None], vals[i := None], hashes[i := 0], m - {k})
  {
    hide Hash;
    var keys' := keys[i := None];
    forall j | 0 <= j < |keys| && keys[j].Some? && j != i ensures keys[j].value != k {
      assert if i < j then keys[i] != keys[j] else keys[j] != keys[i];
    }
    forall k' | k' in m && k' != k ensures exists j :: 0 <= j < |keys'| && keys'[j] == Some(k') {
      var j :| 0 <= j < |keys| && keys[j] == Some(k');
      assert keys'[j] == Some(k');
    }
  }

  lemma HoldsGrow(keys: Slots, vals: Slots, hashes: seq<bv32>, m: map<Text, Option<Text>>,
                  keys': Slots, vals': Slots, hashes': seq<bv32>)
    requires Holds(keys, vals, hashes, m)
    requires |keys| <= |keys'| == |vals'| == |hashes'|
    requires keys'[..|keys|] == keys && vals'[..|keys|] == vals && hashes'[..|keys|] == hashes
    requires forall i :: |keys| <= i < |keys'| ==> keys'[i].None?
    ensures Holds(keys', vals', hashes', m)
  {
    hide Hash;
    assert forall i :: 0 <= i < |keys| ==> keys'[i] == keys[i] && vals'[i] == vals[i] && hashes'[i] == hashes[i];
    forall k | k in m ensures exists j :: 0 <= j < |keys'| && keys'[j] == Some(k) {
      var j :| 0 <= j < |keys| && keys[j] == Some(k);
      assert keys'[j] == Some(k);
    }
  }

  /** A finite map has as many entries as there are occupied slots. */
  lemma {:induction false} OccupiedIsSize(keys: Slots, vals: Slots, hashes: seq<bv32>, m: map<Text, Option<Text>>)
    requires Holds(keys, vals, hashes, m)
    ensures Occupied(keys) == |m|
    decreases |keys|
  {
    hide Hash, Holds;
    if keys == [] {
      HoldsNothing(keys, vals, hashes, m);
    } else {
      var l := |keys| - 1;
      if keys[l].Some? {
        var k := keys[l].value;
        HoldsRemove(keys, vals, hashes, m, l, k);
        assert |m| == |m - {k}| + 1 by { assert m == (m - {k})[k := m[k]]; }
        var keys', vals', hashes' := keys[l := None], vals[l := None], hashes[l := 0];
        HoldsShrink(keys', vals', hashes', m - {k});
        assert keys'[..l] == keys[..l];
        OccupiedIsSize(keys'[..l], vals'[..l], hashes'[..l], m - {k});
      } else {
        HoldsShrink(keys, vals, hashes, m);
        OccupiedIsSize(keys[..l], vals[..l], hashes[..l], m);
      }
    }
  }

  lemma HoldsNothing(keys: Slots, vals: Slots, hashes: seq<bv32>, m: map<Text, Option<Text>>)
    requires Holds(keys, vals, hashes, m) && keys == []
    ensures m == map[]
  {
  }

  lemma HoldsShrink(keys: Slots, vals: Slots, hashes: seq<bv32>, m: map<Text, Option<Text>>)
    requires Holds(keys, vals, hashes, m) && |keys| > 0 && keys[|keys| - 1].None?
    ensures |vals| == |hashes| == |keys|
    ensures var l := |keys| - 1; Holds(keys[..l], vals[..l], hashes[..l], m)
  {
    hide Hash;
    var l := |keys| - 1;
    forall k | k in m ensures exists j :: 0 <= j < l && keys[..l][j] == Some(k) {
      var j :| 0 <= j < |keys| && keys[j] == Some(k);
      assert keys[..l][j] == Some(k);
    }
  }

  class Dictionary {
    var n: nat
    var size: nat
    var val: array<Option<Text>>
    var key: array<Option<Text>>
    var hash: array<bv32>
    ghost var contents: map<Text, Option<Text>>

    ghost predicate Valid()
      reads this, val, key, hash
    {
      val.Length == key.Length == hash.Length == size && size >= MINSIZE
      && val != key && val as object != hash as object && key as object != hash as object
      && n == Occupied(key[..])
      && Holds(key[..], val[..], hash[..], contents)
    }

    constructor (requested: int)
      ensures Valid() && contents == map[]
      ensures size == if requested < MINSIZE then MINSIZE else requested
      ensures fresh(val) && fresh(key) && fresh(hash)
    {
      var s := if requested < MINSIZE then MINSIZE else requested;
      n := 0;
      size := s;
      var v := new Option<Text>[s](_ => None);
      var k := new Option<Text>[s](_ => None);
      var h := new bv32[s](_ => 0);
      val := v;
      key := k;
      hash := h;
      contents := map[];
      new;
      AllFree(key[..]);
    }

    /** The slot of a key, or size: the hash filter hides no key. */
    method Find(k: Text) returns (i: nat)
      requires Valid()
      ensures i <= size
      ensures i < size ==> key[i] == Some(k)
      ensures i < size <==> k in contents
    {
      hide Hash;
      var h := ComputeHash(k);
      i := 0;
      while i < size
        invariant 0 <= i <= size
        invariant forall j :: 0 <= j < i ==> key[j] != Some(k)
      {
        if key[i].Some? && h == hash[i] && k == key[i].value {
          assert key[..][i].Some?;
          return;
        }
        assert key[..][i] == key[i] && hash[..][i] == hash[i];
        i := i + 1;
      }
      assert forall j :: 0 <= j < |key[..]| ==> key[..][j] == key[j];
    }

    method Get(k: Text, def: Option<Text>) returns (r: Option<Text>)
      requires Valid()
      ensures r == if k in contents then contents[k] else def
    {
      hide Hash;
      var i := Find(k);
      if i < size {
        assert key[..][i] == Some(k) && val[..][i] == val[i];
        r := val[i];
      } else {
        r := def;
      }
    }

    /** mem_double on the three arrays. */
    method Grow()
      requires Valid()
      modifies this`val, this`key, this`hash, this`size
      ensures Valid() && size == 2 * old(size)
      ensures fresh(val) && fresh(key) && fresh(hash)
      ensures forall i :: old(size) <= i < size ==> key[i].None?
    {
      hide Hash, Holds, Occupied;
      var v := new Option<Text>[2 * size](i requires 0 <= i reads this, val => if i < val.Length then val[i] else None);
      var k := new Option<Text>[2 * size](i requires 0 <= i reads this, key => if i < key.Length then key[i] else None);
      var h := new bv32[2 * size](i requires 0 <= i reads this, hash => if i < hash.Length then hash[i] else 0);
      HoldsGrow(key[..], val[..], hash[..], contents, k[..], v[..], h[..]);
      OccupiedGrown(key[..], k[..]);
      val := v;
      key := k;
      hash := h;
      size := 2 * size;
    }

    /** The first empty slot from n on, wrapping around; there always is one. */
    method EmptySlot() returns (i: nat)
      requires Valid() && n < size
      ensures i < size && key[i].None?
    {
      ghost var free := FreeSlot(key[..]);
      assert key[free].None?;
      i := n;
      while key[i].Some?
        invariant 0 <= i < size
        decreases if i <= free then free - i else size - i + free
      {
        i := i + 1;
        if i == size {
          i := 0;
        }
      }
    }

    /** n counts the entries. */
    lemma CountsEntries()
      requires Valid()
      ensures n == |contents|
    {
      OccupiedIsSize(key[..], val[..], hash[..], contents);
    }

    method Replace(i: nat, k: Text, v: Option<Text>)
      requires Valid() && i < size && key[i] == Some(k)
      modifies this`contents, val
      ensures Valid() && contents == old(contents)[k := v]
    {
      hide Holds, Hash, Occupied;
      ghost var keys, vals, hashes := key[..], val[..], hash[..];
      HoldsReplace(keys, vals, hashes, contents, i, k, v);
      val[i] := v;
      contents := contents[k := v];
      assert key[..] == keys && val[..] == vals[i := v] && hash[..] == hashes;
    }

    method Insert(i: nat, k: Text, v: Option<Text>, h: bv32)
      requires Valid() && i < size && key[i].None? && k !in contents && h == Hash(k)
      modifies this`contents, this`n, val, key, hash
      ensures Valid() && contents == old(contents)[k := v]
    {
      hide Holds, Hash, Occupied;
      ghost var keys, vals, hashes := key[..], val[..], hash[..];
      HoldsInsert(keys, vals, hashes, contents, i, k, v);
      OccupiedUpdate(keys, i, Some(k));
      key[i] := Some(k);
      val[i] := v;
      hash[i] := h;
      n := n + 1;
      contents := contents[k := v];
      assert key[..] == keys[i := Some(k)] && val[..] == vals[i := v] && hash[..] == hashes[i := h];
    }

    method Remove(i: nat, k: Text)
      requires Valid() && i < size && key[i] == Some(k)
      modifies this`contents, this`n, val, key, hash
      ensures Valid() && contents == old(contents) - {k}
    {
      hide Holds, Hash, Occupied;
      ghost var keys, vals, hashes := key[..], val[..], hash[..];
      HoldsRemove(keys, vals, hashes, contents, i, k);
      OccupiedUpdate(keys, i, None);
      key[i] := None;
      val[i] := None;
      hash[i] := 0;
      n := n - 1;
      contents := contents - {k};
      assert key[..] == keys[i := None] && val[..] == vals[i := None] && hash[..] == hashes[i := 0];
    }

    /** Returns -1 and does nothing without a key; else binds the key to the value. */
    method Set(k: Option<Text>, v: Option<Text>) returns (rc: int)
      requires Valid()
      modifies this, val, key, hash
      ensures Valid()
      ensures k.None? ==> rc == -1 && contents == old(contents)
      ensures k.Some? ==> rc == 0 && contents == old(contents)[k.value := v]
      ensures val == old(val) || fresh(val)
      ensures key == old(key) || fresh(key)
      ensures hash == old(hash) || fresh(hash)
    {
      hide Hash, Occupied, Holds;
      if k.None? {
        return -1;
      }
      var h := ComputeHash(k.value);
      if n > 0 {
        var i := Find(k.value);
        if i < size {
          Replace(i, k.value, v);
          return 0;
        }
      } else {
        EmptyMap();
      }
      if n == size {
        Grow();
      }
      var i := EmptySlot();
      Insert(i, k.value, v, h);
      rc := 0;
    }

    lemma EmptyMap()
      requires Valid() && n == 0
      ensures contents == map[]
    {
      hide Hash;
      NothingOccupied(key[..]);
    }

    /** Forgets the key, if it is there. */
    method Unset(k: Option<Text>)
      requires Valid()
      modifies this`n, this`contents, val, key, hash
      ensures Valid()
      ensures contents == if k.None? then old(contents) else old(contents) - {k.value}
    {
      hide Hash, Occupied, Holds;
      if k.None? {
        return;
      }
      var i := Find(k.value);
      if i >= size {
        return;
      }
      Remove(i, k.value);
    }

    /** Every run of calls leaves what the same run leaves in a finite map. */
    method Run(calls: seq<Call>)
      requires Valid()
      modifies this, val, key, hash
      ensures Valid() && contents == Effect(old(contents), calls)
    {
      hide Hash, Occupied, Holds;
      ghost var v0, k0, h0 := val, key, hash;
      var i := 0;
      while i < |calls|
        invariant 0 <= i <= |calls| && Valid()
        invariant contents == Effect(old(contents), calls[..i])
        invariant (val == v0 || fresh(val)) && (key == k0 || fresh(key)) && (hash == h0 || fresh(hash))
      {
        assert calls[..i + 1][..i] == calls[..i];
        match calls[i] {
          case Setting(k, v) =>
            var rc := Set(k, v);
          case Unsetting(k) =>
            Unset(k);
        }
        i := i + 1;
      }
      assert calls[..i] == calls;
    }
  }

  datatype Call = Setting(k: Option<Text>, v: Option<Text>) | Unsetting(k: Option<Text>)

  function Effect(m: map<Text, Option<Text>>, calls: seq<Call>): map<Text, Option<Text>>
    decreases |calls|
  {
    if calls == [] then m
    else
      var before := Effect(m, calls[..|calls| - 1]);
      match calls[|calls| - 1]
      case Setting(k, v) => if k.None? then before else before[k.value := v]
      case Unsetting(k) => if k.None? then before else before - {k.value}
  }
}
