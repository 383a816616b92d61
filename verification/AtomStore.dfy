/**
 The string pool, the hash and the order vector of an atomizer, at the level of addresses.

 Keys are pointers.  A copied key lives in the pool, which moves when it grows; a permanent key lives
 in the caller's memory, which does not.
 */
module AtomStore {
  import opened Basics
  import opened CStrings

  /** The pool (`TBuffer`) and the caller's strings, by address. */
  datatype Heap = Heap(base: int, cap: nat, bytes: string, ext: map<int, string>) {

    predicate InPool(a: int) {
      base <= a < base + |bytes|
    }

    /** The pool holds whole C strings and does not overlap the caller's memory. */
    ghost predicate Valid() {
      && |bytes| <= cap && (bytes == [] || bytes[|bytes| - 1] == NUL)
      && (forall a :: a in ext ==> NUL !in ext[a] && !(base <= a < base + cap))
    }

    /** The C string at an address, if there is one. */
    function Deref(a: int): Option<string> {
      if InPool(a) then Some(CStr(bytes, a - base))
      else if a in ext then Some(ext[a])
      else None
    }

    predicate Grows(n: nat) {
      n > cap - |bytes|
    }

    /** `TBuffer::Append` of a string with its zero; `place` is where the allocator puts a grown pool. */
    function Append(s: string, place: int): Heap {
      var n := |s| + 1;
      if Grows(n) then Heap(place, PowerAbove(1, 2 * (|bytes| + n)), bytes + s + [NUL], ext)
      else Heap(base, cap, bytes + s + [NUL], ext)
    }

    /** The allocator does not hand out the caller's memory. */
    ghost predicate Allocates(s: string, place: int) {
      Grows(|s| + 1) ==> forall a :: a in ext ==> !(place <= a < place + Append(s, place).cap)
    }
  }

  /** The least power of two, from `p` on, that is at least `n`. */
  function PowerAbove(p: nat, n: nat): (q: nat)
    requires p > 0
    ensures q >= n
    decreases n - p
  {
    if p >= n then p else PowerAbove(2 * p, n)
  }

  predicate IsPower2(n: nat) {
    n == 1 || (n > 0 && n % 2 == 0 && IsPower2(n / 2))
  }

  /** It is a power of two, and half of it would not do. */
  lemma {:induction false} PowerAboveIs(p: nat, n: nat)
    requires IsPower2(p)
    ensures var q := PowerAbove(p, n); IsPower2(q) && (q == p || q / 2 < n)
    decreases n - p
  {
    if p < n {
      assert 2 * p / 2 == p;
      PowerAboveIs(2 * p, n);
    }
  }

  /**
   A string that fits leaves the pool where it is; one that does not moves it and makes it the least power of two
   that is twice what is needed.
   */
  lemma AppendMoves(h: Heap, s: string, place: int)
    ensures var h', n := h.Append(s, place), |h.bytes| + |s| + 1;
      && h'.bytes == h.bytes + (s + [NUL]) && h'.ext == h.ext
      && (n <= h.cap ==> h'.base == h.base && h'.cap == h.cap)
      && (n > h.cap ==> h'.base == place && IsPower2(h'.cap) && h'.cap / 2 < 2 * n <= h'.cap)
  {
    var n := |h.bytes| + |s| + 1;
    assert h.bytes + s + [NUL] == h.bytes + (s + [NUL]);
    PowerAboveIs(1, 2 * n);
    hide PowerAbove, IsPower2;
  }

  datatype Entry = Entry(key: int, atom: nat)

  lemma CStrPrefix(b: string, t: string, p: nat)
    requires p < |b| && b[|b| - 1] == NUL
    ensures CStr(b + t, p) == CStr(b, p)
  {
    var e := FirstIn({NUL}, b, p);
    assert e < |b|;
    CStrIs(b + t, p, e);
  }

  /** The string just appended is at the end of the pool. */
  lemma CStrSuffix(b: string, s: string)
    requires NUL !in s
    ensures CStr(b + s + [NUL], |b|) == s
  {
    var c := b + s + [NUL];
    CStrIs(c, |b|, |b| + |s|);
  }

  lemma DerefPlain(h: Heap, a: int)
    requires h.Valid() && h.Deref(a).Some?
    ensures NUL !in h.Deref(a).value
  {
  }

  lemma AppendValid(h: Heap, s: string, place: int)
    requires h.Valid() && h.Allocates(s, place)
    ensures var h' := h.Append(s, place);
      h'.Valid() && h'.bytes == h.bytes + (s + [NUL]) && h'.ext == h.ext
  {
    hide PowerAbove;
    assert h.bytes + s + [NUL] == h.bytes + (s + [NUL]);
  }

  /**
   Appending keeps every string: one in the pool is found shifted with the pool, one outside it is
   found where it was, and the new string is at the end.
   */
  lemma AppendKeeps(h: Heap, s: string, place: int, a: int)
    requires h.Valid() && NUL !in s && h.Allocates(s, place) && h.Deref(a).Some?
    ensures var h' := h.Append(s, place);
      h'.Deref(if h.InPool(a) then a + (h'.base - h.base) else a) == h.Deref(a)
  {
    AppendValid(h, s, place);
    hide Heap.Append, Heap.Allocates, CStr;
    if h.InPool(a) {
      CStrPrefix(h.bytes, s + [NUL], a - h.base);
    }
  }

  lemma AppendNew(h: Heap, s: string, place: int)
    requires h.Valid() && NUL !in s && h.Allocates(s, place)
    ensures var h' := h.Append(s, place); h'.InPool(h'.base + |h.bytes|) && h'.Deref(h'.base + |h.bytes|) == Some(s)
  {
    AppendValid(h, s, place);
    CStrSuffix(h.bytes, s);
    hide Heap.Append, Heap.Allocates, CStr;
    assert h.bytes + s + [NUL] == h.bytes + (s + [NUL]);
  }

  /** The repointing loop of `pool_insert`: every key but the new one moves, wherever it points. */
  function Shifted(hash: seq<Entry>, key: int, delta: int): (r: seq<Entry>)
    ensures |r| == |hash| && forall i :: 0 <= i < |r| ==> r[i].atom == hash[i].atom
  {
    seq(|hash|, i requires 0 <= i < |hash| =>
      if hash[i].key != key then Entry(hash[i].key + delta, hash[i].atom) else hash[i])
  }

  /** The repointing loop of `string_to_atom`: only pointers into the old pool move. */
  function Repointed(order: seq<int>, lo: int, hi: int, delta: int): (r: seq<int>)
    ensures |r| == |order|
  {
    seq(|order|, i requires 0 <= i < |order| => if lo <= order[i] < hi then order[i] + delta else order[i])
  }

  datatype Store = Store(heap: Heap, hash: seq<Entry>, order: seq<int>) {

    /** What a lookup by string may answer. */
    ghost predicate Lookup(name: string, hit: Option<nat>) {
      match hit
      case Some(i) => i < |hash| && heap.Deref(hash[i].key) == Some(name)
      case None => forall i :: 0 <= i < |hash| ==> heap.Deref(hash[i].key) != Some(name)
    }

    /** `ui32(size() + 1)`. */
    function NextAtom(): nat {
      (|hash| + 1) % TWO_32
    }

    /** There is an atom left for one more string. */
    predicate HasRoom() {
      |hash| + 1 < TWO_32
    }

    /** The key can be read while the pool grows: it is not in a pool that is given back. */
    predicate Steady(key: int, name: string, place: int, hit: Option<nat>) {
      heap.InPool(key) ==> hit.Some? || heap.Append(name, place).base == heap.base
    }

    /** `string_to_atom`, when the lookup answers `hit` and a grown pool is put at `place`. */
    function AddCopy(key: int, name: string, place: int, hit: Option<nat>): Store {
      if hit.Some? then this
      else
        var heap' := heap.Append(name, place);
        var delta, copy := heap'.base - heap.base, heap'.base + |heap.bytes|;
        var entries := hash + [Entry(key, NextAtom())];
        var moved := if delta != 0 then Shifted(entries, key, delta) else entries;
        var repointed :=
          if delta != 0 then Repointed(order, heap.base, heap.base + |heap.bytes|, delta) else order;
        Store(heap', moved[|hash| := Entry(copy, NextAtom())], repointed + [copy])
    }

    /** `perm_string_to_atom`. */
    function AddPerm(key: int, hit: Option<nat>): Store {
      if hit.Some? then this else Store(heap, hash + [Entry(key, NextAtom())], order + [key])
    }

    /** Every atom has a name. */
    ghost predicate Named() {
      heap.Valid() && |hash| == |order| && forall i :: 0 <= i < |order| ==> heap.Deref(order[i]).Some?
    }

    /** Every name of `this` is still the name of the same atom. */
    ghost predicate KeptBy(st: Store) {
      |order| <= |st.order| && forall i :: 0 <= i < |order| ==> st.heap.Deref(st.order[i]) == heap.Deref(order[i])
    }

    /** Hash and order agree on every atom, and no name occurs twice. */
    ghost predicate Good() {
      Named() && Distinct() && forall i :: 0 <= i < |hash| ==> hash[i] == Entry(order[i], i + 1)
    }

    ghost predicate Distinct() {
      forall i, j :: 0 <= i < j < |order| ==> heap.Deref(order[i]) != heap.Deref(order[j])
    }

    /** Inserting the string needs no atom that is too large, and moves no pool with keys outside it. */
    ghost predicate Safe(name: string, place: int, hit: Option<nat>) {
      hit.Some? || (HasRoom() && Unmoved(name, place))
    }

    ghost predicate Unmoved(name: string, place: int) {
      || heap.Append(name, place).base == heap.base
      || (forall i :: 0 <= i < |hash| ==> heap.InPool(hash[i].key))
    }
  }

  /** The pointers after a copying insertion of a new string, one by one. */
  lemma CopyShape(st: Store, key: int, name: string, place: int)
    ensures var st', h, h' := st.AddCopy(key, name, place, None), st.heap, st.heap.Append(name, place);
      var delta, copy := h'.base - h.base, h'.base + |h.bytes|;
      && st'.heap == h' && |st'.order| == |st.order| + 1 && |st'.hash| == |st.hash| + 1
      && st'.order[|st.order|] == copy && st'.hash[|st.hash|] == Entry(copy, st.NextAtom())
      && (forall i :: 0 <= i < |st.order| ==>
            st'.order[i] == if h.InPool(st.order[i]) then st.order[i] + delta else st.order[i])
      && (forall i :: 0 <= i < |st.hash| ==>
            st'.hash[i] == if st.hash[i].key != key then Entry(st.hash[i].key + delta, st.hash[i].atom) else st.hash[i])
  {
    hide Heap.Append;
  }

  lemma CopyName(st: Store, key: int, name: string, place: int, i: nat)
    requires st.Named() && NUL !in name && st.heap.Allocates(name, place) && i < |st.order|
    ensures var st' := st.AddCopy(key, name, place, None);
      |st'.order| == |st.order| + 1 && st'.heap.Deref(st'.order[i]) == st.heap.Deref(st.order[i])
  {
    hide Heap.Deref, Heap.Append, Heap.Allocates, Heap.Valid, Heap.InPool, Store.AddCopy;
    CopyShape(st, key, name, place);
    AppendKeeps(st.heap, name, place, st.order[i]);
  }

  lemma CopyNewName(st: Store, key: int, name: string, place: int)
    requires st.Named() && NUL !in name && st.heap.Allocates(name, place)
    ensures var st' := st.AddCopy(key, name, place, None);
      && st'.heap.Valid() && |st'.order| == |st'.hash| == |st.order| + 1
      && st'.heap.Deref(st'.order[|st.order|]) == Some(name)
  {
    hide Heap.Deref, Heap.Append, Heap.Allocates, Heap.Valid, Heap.InPool, Store.AddCopy;
    CopyShape(st, key, name, place);
    AppendValid(st.heap, name, place);
    AppendNew(st.heap, name, place);
  }

  /** Whatever the lookup answers, a copying insertion keeps the name of every atom issued before. */
  lemma CopyKeepsNames(st: Store, key: int, name: string, place: int, hit: Option<nat>)
    requires st.Named() && NUL !in name && st.heap.Allocates(name, place)
    ensures var st' := st.AddCopy(key, name, place, hit); st'.Named() && st.KeptBy(st')
  {
    if hit.None? {
      hide Heap.Deref, Heap.Append, Heap.Allocates, Heap.Valid, Heap.InPool, Store.AddCopy;
      CopyNewName(st, key, name, place);
      var st' := st.AddCopy(key, name, place, hit);
      forall i | 0 <= i < |st.order|
        ensures st'.heap.Deref(st'.order[i]) == st.heap.Deref(st.order[i])
      {
        CopyName(st, key, name, place, i);
      }
    }
  }

  lemma PermKeepsNames(st: Store, key: int, hit: Option<nat>)
    requires st.Named() && st.heap.Deref(key).Some?
    ensures var st' := st.AddPerm(key, hit); st'.Named() && st.KeptBy(st')
  {
    hide Heap.Deref;
  }

  lemma NextAtomIs(st: Store)
    ensures st.NextAtom() == |st.hash| + 1 <==> st.HasRoom()
  {
  }

  /** A new name beside names that are kept leaves all names distinct. */
  lemma StaysDistinct(st: Store, st': Store, name: string)
    requires st.Good() && st.Lookup(name, None) && st.KeptBy(st')
    requires |st'.order| == |st.order| + 1 && st'.heap.Deref(st'.order[|st.order|]) == Some(name)
    ensures st'.Distinct()
  {
    hide Heap.Deref, Heap.Valid;
    forall i | 0 <= i < |st.order|
      ensures st'.heap.Deref(st'.order[i]) != Some(name)
    {
      assert st.hash[i].key == st.order[i];
    }
  }

  /** A permanent insertion leaves hash and order in agreement exactly when it needs no atom that is too large. */
  lemma PermGoodIff(st: Store, key: int, name: string, hit: Option<nat>)
    requires st.Good() && st.heap.Deref(key) == Some(name) && st.Lookup(name, hit)
    ensures st.AddPerm(key, hit).Good() <==> hit.Some? || st.HasRoom()
  {
    if hit.None? {
      var st' := st.AddPerm(key, hit);
      NextAtomIs(st);
      PermKeepsNames(st, key, hit);
      StaysDistinct(st, st', name);
      hide Heap.Deref, Heap.Valid, Store.Distinct, Store.NextAtom, Store.HasRoom, Store.Lookup, Store.KeptBy;
      assert st'.hash[|st.hash|] == Entry(key, st.NextAtom()) && st'.order[|st.order|] == key;
    }
  }

  /** One entry of the hash and of the order vector after a copying insertion of a new string. */
  lemma CopyEntry(st: Store, key: int, name: string, place: int, i: nat)
    requires st.Good() && st.Lookup(name, None) && st.heap.Deref(key) == Some(name) && i < |st.hash|
    ensures var st', delta := st.AddCopy(key, name, place, None), st.heap.Append(name, place).base - st.heap.base;
      var k := st.hash[i].key;
      && |st'.hash| == |st'.order| == |st.hash| + 1 && st'.hash[i] == Entry(k + delta, i + 1)
      && st'.order[i] == if st.heap.InPool(k) then k + delta else k
  {
    hide Heap.Deref, Heap.Append, Store.AddCopy, Heap.Valid, Heap.InPool;
    CopyShape(st, key, name, place);
    assert st.hash[i].key != key;
  }

  lemma CopyGood(st: Store, key: int, name: string, place: int)
    requires st.Good() && st.heap.Allocates(name, place) && st.Lookup(name, None)
    requires st.HasRoom() && st.Unmoved(name, place) && st.heap.Deref(key) == Some(name)
    ensures st.AddCopy(key, name, place, None).Good()
  {
    var st' := st.AddCopy(key, name, place, None);
    DerefPlain(st.heap, key);
    CopyKeepsNames(st, key, name, place, None);
    CopyNewName(st, key, name, place);
    StaysDistinct(st, st', name);
    NextAtomIs(st);
    var unmoved := st.heap.Append(name, place).base == st.heap.base;
    assert unmoved || forall i :: 0 <= i < |st.hash| ==> st.heap.InPool(st.hash[i].key);
    forall i | 0 <= i < |st'.hash|
      ensures st'.hash[i] == Entry(st'.order[i], i + 1)
    {
      hide *;
      if i < |st.hash| {
        CopyEntry(st, key, name, place, i);
      } else {
        CopyShape(st, key, name, place);
      }
    }
  }

  /** The unsafe insertion: a key outside the pool is shifted in the hash but not in the order. */
  lemma CopyBreaks(st: Store, key: int, name: string, place: int)
    requires st.Good() && st.Lookup(name, None) && !st.Unmoved(name, place)
    requires st.heap.Deref(key) == Some(name)
    ensures !st.AddCopy(key, name, place, None).Good()
    ensures var st', delta := st.AddCopy(key, name, place, None), st.heap.Append(name, place).base - st.heap.base;
      exists i :: 0 <= i < |st.hash| && !st.heap.InPool(st.hash[i].key) && |st'.hash| == |st'.order| > i
                  && st'.hash[i].key == st.hash[i].key + delta && st'.order[i] == st.hash[i].key
  {
    hide Heap.Deref, Heap.Append, Store.AddCopy, Heap.Valid;
    var st' := st.AddCopy(key, name, place, None);
    var i :| 0 <= i < |st.hash| && !st.heap.InPool(st.hash[i].key);
    CopyEntry(st, key, name, place, i);
    assert st'.order[i] == st.hash[i].key != st'.hash[i].key;
  }

  /** A number that does not fit comes out as a different one. */
  lemma CopyWraps(st: Store, key: int, name: string, place: int)
    requires !st.HasRoom()
    ensures !st.AddCopy(key, name, place, None).Good()
  {
    CopyShape(st, key, name, place);
    NextAtomIs(st);
    hide Heap.Deref, Heap.Append, Store.AddCopy, Store.NextAtom, Store.HasRoom;
    var st' := st.AddCopy(key, name, place, None);
    assert st'.hash[|st.hash|].atom != |st.hash| + 1;
  }

  /**
   A copying insertion leaves hash and order in agreement exactly when the string is already present,
   or there is an atom left for it and the pool stays where it is or all keys lie in the pool.
   */
  lemma CopyGoodIff(st: Store, key: int, name: string, place: int, hit: Option<nat>)
    requires st.Good() && st.heap.Allocates(name, place) && st.Lookup(name, hit)
    requires st.heap.Deref(key) == Some(name)
    ensures st.AddCopy(key, name, place, hit).Good() <==> st.Safe(name, place, hit)
  {
    if hit.Some? {
    } else if st.Safe(name, place, hit) {
      CopyGood(st, key, name, place);
    } else if st.HasRoom() {
      CopyBreaks(st, key, name, place);
    } else {
      CopyWraps(st, key, name, place);
    }
  }
}
