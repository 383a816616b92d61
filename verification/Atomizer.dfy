/**
 `atomizer`: numbering strings in the order they first come.
 */
module Atomizer {
  import opened Basics
  import opened CStrings
  import opened AtomStore
  import opened AtomRuns

  class Atomizer {
    const ext: map<int, string>
    var base: int
    var cap: nat
    var bytes: string
    var hash: seq<Entry>
    var order: seq<int>

    function View(): Store
      reads this
    {
      Store(Heap(base, cap, bytes, ext), hash, order)
    }

    /** `place` and `reserved` are the pool the constructor reserves. */
    constructor (ext: map<int, string>, place: int, reserved: nat)
      requires forall a :: a in ext ==> NUL !in ext[a] && !(place <= a < place + reserved)
      ensures View() == Store(Heap(place, reserved, [], ext), [], []) && View().Good()
    {
      this.ext := ext;
      base, cap, bytes, hash, order := place, reserved, [], [], [];
    }

    method Find(name: string) returns (hit: Option<nat>)
      ensures hit == FirstHit(View(), name, 0)
    {
      var i := 0;
      while i < |hash|
        invariant 0 <= i <= |hash| && FirstHit(View(), name, 0) == FirstHit(View(), name, i)
      {
        if View().heap.Deref(hash[i].key) == Some(name) {
          return Some(i);
        }
        i := i + 1;
      }
      return None;
    }

    /** The loop of `pool_insert` over the hash, after the pool has moved. */
    method ShiftKeys(key: int, delta: int)
      modifies this`hash
      ensures hash == Shifted(old(hash), key, delta)
    {
      ghost var was := hash;
      var i := 0;
      while i < |hash|
        invariant 0 <= i <= |hash| == |was|
        invariant forall k :: 0 <= k < i ==> hash[k] == Shifted(was, key, delta)[k]
        invariant forall k :: i <= k < |was| ==> hash[k] == was[k]
      {
        if hash[i].key != key {
          hash := hash[i := Entry(hash[i].key + delta, hash[i].atom)];
        }
        i := i + 1;
      }
    }

    /** The loop of `string_to_atom` over the order vector. */
    method Repoint(lo: int, hi: int, delta: int)
      modifies this`order
      ensures order == Repointed(old(order), lo, hi, delta)
    {
      ghost var was := order;
      var i := 0;
      while i < |order|
        invariant 0 <= i <= |order| == |was|
        invariant forall k :: 0 <= k < i ==> order[k] == Repointed(was, lo, hi, delta)[k]
        invariant forall k :: i <= k < |was| ==> order[k] == was[k]
      {
        if lo <= order[i] < hi {
          order := order[i := order[i] + delta];
        }
        i := i + 1;
      }
    }

    /** `pool_insert` of a string that is not present: the pool grows and the keys are repointed. */
    method InsertCopy(key: int, name: string, place: int)
      modifies this`base, this`cap, this`bytes, this`hash
      ensures View().heap == old(View()).heap.Append(name, place)
      ensures hash == old(View()).AddCopy(key, name, place, None).hash
    {
      hide Shifted, Repointed, PowerAbove;
      hash := hash + [Entry(key, (|hash| + 1) % TWO_32)];
      var oldPool, n := base, |name| + 1;
      if n > cap - |bytes| {
        base, cap := place, PowerAbove(1, 2 * (|bytes| + n));
      }
      bytes := bytes + name + [NUL];
      if base != oldPool {
        ShiftKeys(key, base - oldPool);
      }
      hash := hash[|hash| - 1 := Entry(base + |bytes| - n, hash[|hash| - 1].atom)];
    }

    /** The key may lie in the pool, unless the string is new and the pool is given back while it is read. */
    method StringToAtom(key: int, place: int) returns (atom: nat)
      requires View().heap.Deref(key).Some? && |order| == |hash|
      requires var name := View().heap.Deref(key).value; View().Steady(key, name, place, FirstHit(View(), name, 0))
      modifies this
      ensures var name := old(View()).heap.Deref(key).value;
        var hit := FirstHit(old(View()), name, 0);
        && View() == old(View()).AddCopy(key, name, place, hit)
        && atom == if hit.Some? then old(hash)[hit.value].atom else old(View()).NextAtom()
    {
      hide Shifted, Repointed, Heap.Append, FirstHit, Heap.Valid, Heap.Allocates, Heap.Deref, Store.Steady;
      var name, oldBegin, oldEnd := View().heap.Deref(key).value, base, base + |bytes|;
      var hit := Find(name);
      if hit.Some? {
        return hash[hit.value].atom;
      }
      InsertCopy(key, name, place);
      if base != oldBegin {
        Repoint(oldBegin, oldEnd, base - oldBegin);
      }
      order := order + [hash[|hash| - 1].key];
      return hash[|hash| - 1].atom;
    }

    method PermStringToAtom(key: int) returns (atom: nat)
      requires View().heap.Deref(key).Some?
      modifies this
      ensures var hit := FirstHit(old(View()), old(View()).heap.Deref(key).value, 0);
        && View() == old(View()).AddPerm(key, hit)
        && atom == if hit.Some? then old(hash)[hit.value].atom else old(View()).NextAtom()
    {
      var hit := Find(View().heap.Deref(key).value);
      if hit.Some? {
        return hash[hit.value].atom;
      }
      hash := hash + [Entry(key, (|hash| + 1) % TWO_32)];
      order := order + [key];
      return hash[|hash| - 1].atom;
    }
  }
}
