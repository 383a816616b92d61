/**
 Runs of insertions: what an atomizer's numbering promises over any sequence of calls.
 */
module AtomRuns {
  import opened Basics
  import opened CStrings
  import opened AtomStore

  /** The first entry, from `i` on, whose key reads as `name`. */
  function FirstHit(st: Store, name: string, i: nat): (hit: Option<nat>)
    requires i <= |st.hash|
    ensures hit.Some? ==> i <= hit.value < |st.hash|
    decreases |st.hash| - i
  {
    if i == |st.hash| then None
    else if st.heap.Deref(st.hash[i].key) == Some(name) then Some(i)
    else FirstHit(st, name, i + 1)
  }

  lemma {:induction false} FirstHitLooksUp(st: Store, name: string, i: nat)
    requires i <= |st.hash| && forall k :: 0 <= k < i ==> st.heap.Deref(st.hash[k].key) != Some(name)
    ensures st.Lookup(name, FirstHit(st, name, i))
    decreases |st.hash| - i
  {
    hide Heap.Deref;
    if i < |st.hash| && st.heap.Deref(st.hash[i].key) != Some(name) {
      FirstHitLooksUp(st, name, i + 1);
    }
  }

  /** `find_atom`: zero is no atom. */
  function FindAtom(st: Store, name: string): nat {
    match FirstHit(st, name, 0)
    case None => 0
    case Some(i) => st.hash[i].atom
  }

  /** `get_atom_name`, read as a string. */
  function AtomName(st: Store, atom: nat): Option<string> {
    if 0 < atom <= |st.hash| && atom <= |st.order| then st.heap.Deref(st.order[atom - 1]) else None
  }

  /** In an intact store the two lookups are inverse to each other, and the atoms are 1 up to the size. */
  lemma Bijection(st: Store)
    requires st.Good()
    ensures forall name :: var a := FindAtom(st, name);
      a <= |st.hash| && (a > 0 ==> AtomName(st, a) == Some(name))
      && (a == 0 ==> forall b :: AtomName(st, b) != Some(name))
    ensures forall a :: 0 < a <= |st.hash| ==>
      AtomName(st, a).Some? && FindAtom(st, AtomName(st, a).value) == a
  {
    hide Heap.Deref, Heap.Valid;
    forall name
      ensures var a := FindAtom(st, name);
        a <= |st.hash| && (a > 0 ==> AtomName(st, a) == Some(name))
        && (a == 0 ==> forall b :: AtomName(st, b) != Some(name))
    {
      FirstHitLooksUp(st, name, 0);
    }
    forall a | 0 < a <= |st.hash|
      ensures AtomName(st, a).Some? && FindAtom(st, AtomName(st, a).value) == a
    {
      FirstHitLooksUp(st, AtomName(st, a).value, 0);
    }
  }

  /** One call, with the answer its lookup got and the place a grown pool was put. */
  datatype Step = Copy(key: int, place: int, hit: Option<nat>) | Perm(key: int, hit: Option<nat>)

  /** The key is a string that can be read throughout, and in an intact store the lookup tells the truth. */
  ghost predicate Legal(st: Store, x: Step) {
    && st.heap.Deref(x.key).Some? && (x.hit.Some? ==> x.hit.value < |st.hash|)
    && (x.Copy? ==> st.Steady(x.key, st.heap.Deref(x.key).value, x.place, x.hit))
    && (x.Copy? ==> st.heap.Allocates(st.heap.Deref(x.key).value, x.place))
    && (st.Good() ==> st.Lookup(st.heap.Deref(x.key).value, x.hit))
  }

  ghost function Apply(st: Store, x: Step): Store
    requires Legal(st, x)
  {
    match x
    case Copy(key, place, hit) => st.AddCopy(key, st.heap.Deref(key).value, place, hit)
    case Perm(key, hit) => st.AddPerm(key, hit)
  }

  /** The atom the call returns. */
  ghost function Issued(st: Store, x: Step): nat
    requires Legal(st, x)
  {
    if x.hit.Some? then st.hash[x.hit.value].atom else st.NextAtom()
  }

  ghost predicate SafeStep(st: Store, x: Step)
    requires Legal(st, x)
  {
    if x.Copy? then st.Safe(st.heap.Deref(x.key).value, x.place, x.hit) else x.hit.Some? || st.HasRoom()
  }

  ghost predicate LegalRun(st: Store, run: seq<Step>)
    decreases |run|
  {
    run == [] || (Legal(st, run[0]) && LegalRun(Apply(st, run[0]), run[1..]))
  }

  ghost predicate SafeRun(st: Store, run: seq<Step>)
    requires LegalRun(st, run)
    decreases |run|
  {
    run == [] || (SafeStep(st, run[0]) && SafeRun(Apply(st, run[0]), run[1..]))
  }

  ghost function After(st: Store, run: seq<Step>): Store
    requires LegalRun(st, run)
    decreases |run|
  {
    if run == [] then st else After(Apply(st, run[0]), run[1..])
  }

  lemma StepNames(st: Store, x: Step)
    requires st.Named() && Legal(st, x)
    ensures Apply(st, x).Named() && st.KeptBy(Apply(st, x))
  {
    hide Store.Steady;
    if x.Copy? {
      DerefPlain(st.heap, x.key);
      CopyKeepsNames(st, x.key, st.heap.Deref(x.key).value, x.place, x.hit);
    } else {
      PermKeepsNames(st, x.key, x.hit);
    }
  }

  lemma KeptTrans(a: Store, b: Store, c: Store)
    requires a.KeptBy(b) && b.KeptBy(c)
    ensures a.KeptBy(c)
  {
    hide Heap.Deref;
  }

  /**
   Over any interleaving of copying and permanent insertions, wherever the pool moves and whatever the
   lookups answer, every atom issued earlier keeps its name.
   */
  lemma {:induction false} RunNames(st: Store, run: seq<Step>)
    requires st.Named() && LegalRun(st, run)
    ensures After(st, run).Named() && st.KeptBy(After(st, run))
    decreases |run|
  {
    hide Store.Named, Store.KeptBy, Legal, Apply;
    if run == [] {
      KeptSelf(st);
    } else {
      var next := Apply(st, run[0]);
      StepNames(st, run[0]);
      RunNames(next, run[1..]);
      KeptTrans(st, next, After(next, run[1..]));
    }
  }

  lemma KeptSelf(st: Store)
    ensures st.KeptBy(st)
  {
  }

  lemma StepGood(st: Store, x: Step)
    requires st.Good() && Legal(st, x)
    ensures Apply(st, x).Good() <==> SafeStep(st, x)
  {
    var name := st.heap.Deref(x.key).value;
    if x.Copy? {
      CopyGoodIff(st, x.key, name, x.place, x.hit);
    } else {
      PermGoodIff(st, x.key, name, x.hit);
    }
  }

  /** The store is intact before and after every call of the run. */
  ghost predicate StaysGood(st: Store, run: seq<Step>)
    requires LegalRun(st, run)
    decreases |run|
  {
    st.Good() && (run == [] || StaysGood(Apply(st, run[0]), run[1..]))
  }

  /** Over any run, hash and order stay in agreement exactly when every insertion is safe. */
  lemma {:induction false} RunGoodIff(st: Store, run: seq<Step>)
    requires st.Good() && LegalRun(st, run)
    ensures StaysGood(st, run) <==> SafeRun(st, run)
    decreases |run|
  {
    hide Store.Good, Legal, Apply, SafeStep;
    if run != [] {
      var next := Apply(st, run[0]);
      StepGood(st, run[0]);
      if next.Good() {
        RunGoodIff(next, run[1..]);
      }
    }
  }

  ghost predicate AllInPool(st: Store) {
    forall i :: 0 <= i < |st.hash| ==> st.heap.InPool(st.hash[i].key)
  }

  lemma CopyStaysInPool(st: Store, x: Step)
    requires st.Good() && AllInPool(st) && Legal(st, x) && x.Copy?
    ensures AllInPool(Apply(st, x))
  {
    if x.hit.None? {
      var name := st.heap.Deref(x.key).value;
      assert forall i :: 0 <= i < |st.hash| ==> st.hash[i].key != x.key;
      CopyShape(st, x.key, name, x.place);
      DerefPlain(st.heap, x.key);
      AppendValid(st.heap, name, x.place);
      hide Heap.Deref, Heap.Append, Store.AddCopy, Heap.Valid, Heap.Allocates;
    }
  }

  lemma StepGrows(st: Store, x: Step)
    requires Legal(st, x)
    ensures |Apply(st, x).hash| == if x.hit.Some? then |st.hash| else |st.hash| + 1
  {
    hide Heap.Deref, Heap.Append;
  }

  lemma {:induction false} RunGrows(st: Store, run: seq<Step>)
    requires LegalRun(st, run)
    ensures |st.hash| <= |After(st, run).hash|
    decreases |run|
  {
    hide Legal, Apply;
    if run != [] {
      StepGrows(st, run[0]);
      RunGrows(Apply(st, run[0]), run[1..]);
    }
  }

  /** Copying insertions alone are safe exactly when the atoms they issue are not too large. */
  lemma {:induction false} CopiesAreSafe(st: Store, run: seq<Step>)
    requires st.Good() && |st.hash| < TWO_32 && AllInPool(st)
    requires LegalRun(st, run) && forall i :: 0 <= i < |run| ==> run[i].Copy?
    ensures SafeRun(st, run) <==> |After(st, run).hash| < TWO_32
    decreases |run|
  {
    hide Store.Good, Legal, Apply;
    if run != [] {
      var next := Apply(st, run[0]);
      StepGrows(st, run[0]);
      RunGrows(next, run[1..]);
      StepGood(st, run[0]);
      if SafeStep(st, run[0]) {
        CopyStaysInPool(st, run[0]);
        CopiesAreSafe(next, run[1..]);
      }
    }
  }

  /** So are permanent insertions alone. */
  lemma {:induction false} PermsAreSafe(st: Store, run: seq<Step>)
    requires st.Good() && |st.hash| < TWO_32
    requires LegalRun(st, run) && forall i :: 0 <= i < |run| ==> run[i].Perm?
    ensures SafeRun(st, run) <==> |After(st, run).hash| < TWO_32
    decreases |run|
  {
    hide Store.Good, Legal, Apply;
    if run != [] {
      var next := Apply(st, run[0]);
      StepGrows(st, run[0]);
      RunGrows(next, run[1..]);
      StepGood(st, run[0]);
      if SafeStep(st, run[0]) {
        PermsAreSafe(next, run[1..]);
      }
    }
  }

  /** A run that keeps the store intact never renumbers: names stay found under the atom they had. */
  lemma NeverRenumbered(st: Store, run: seq<Step>, name: string)
    requires LegalRun(st, run) && StaysGood(st, run) && FindAtom(st, name) > 0
    ensures FindAtom(After(st, run), name) == FindAtom(st, name)
  {
    var end, a := After(st, run), FindAtom(st, name);
    assert st.Good() && end.Good() by {
      hide Store.Good, Legal, Apply;
      EndsGood(st, run);
    }
    assert st.KeptBy(end) by {
      RunNames(st, run);
    }
    hide Heap.Deref, Legal, Apply, After, FirstHit, Heap.Valid;
    Bijection(st);
    Bijection(end);
    assert AtomName(end, a) == AtomName(st, a);
  }

  lemma {:induction false} EndsGood(st: Store, run: seq<Step>)
    requires LegalRun(st, run) && StaysGood(st, run)
    ensures After(st, run).Good()
    decreases |run|
  {
    hide Store.Good, Legal, Apply;
    if run != [] {
      EndsGood(Apply(st, run[0]), run[1..]);
    }
  }

  /** A call returns the atom of its string: the old one if it had one, the next number otherwise. */
  lemma StepIssues(st: Store, x: Step)
    requires st.Good() && Legal(st, x) && SafeStep(st, x)
    ensures var name, st' := st.heap.Deref(x.key).value, Apply(st, x);
      && AtomName(st', Issued(st, x)) == Some(name) && FindAtom(st', name) == Issued(st, x)
      && (FindAtom(st, name) > 0 ==> Issued(st, x) == FindAtom(st, name) && st' == st)
      && (FindAtom(st, name) == 0 ==> Issued(st, x) == |st.hash| + 1 == |st'.hash|)
  {
    var name, st' := st.heap.Deref(x.key).value, Apply(st, x);
    StepGood(st, x);
    assert AtomName(st', Issued(st, x)) == Some(name) by {
      IssuedName(st, x);
    }
    StepGrows(st, x);
    NextAtomIs(st);
    FirstHitLooksUp(st, name, 0);
    assert x.hit.Some? <==> FirstHit(st, name, 0).Some?;
    assert x.hit.Some? ==> st' == st;
    hide Heap.Deref, Heap.Valid, Apply, Store.Good, Legal, Store.Steady, Store.NextAtom, FirstHit, FindAtom, AtomName;
    Bijection(st');
    Bijection(st);
  }

  lemma LastName(st: Store, x: Step)
    requires st.Good() && Legal(st, x) && x.hit.None?
    ensures var st' := Apply(st, x);
      |st'.order| == |st.order| + 1 && st'.heap.Deref(st'.order[|st.order|]) == st.heap.Deref(x.key)
  {
    var name := st.heap.Deref(x.key).value;
    DerefPlain(st.heap, x.key);
    if x.Copy? {
      CopyNewName(st, x.key, name, x.place);
    }
    hide Heap.Deref, Store.AddCopy;
  }

  /** The atom returned names the string, also after an insertion that loses other keys, exactly when it fits. */
  lemma IssuedName(st: Store, x: Step)
    requires st.Good() && Legal(st, x)
    ensures AtomName(Apply(st, x), Issued(st, x)) == st.heap.Deref(x.key) <==> x.hit.Some? || st.HasRoom()
  {
    if x.hit.None? {
      var name, st' := st.heap.Deref(x.key).value, Apply(st, x);
      LastName(st, x);
      StepNames(st, x);
      StepGrows(st, x);
      NextAtomIs(st);
      hide Heap.Deref, Heap.Valid, Apply, Store.NextAtom, Store.HasRoom, Store.Steady, Store.Distinct;
      var a := st.NextAtom();
      if 0 < a <= |st.hash| {
        assert st.heap.Deref(st.hash[a - 1].key) != Some(name);
        assert st.hash[a - 1].key == st.order[a - 1];
      }
    }
  }

  /** Every atom is found under its name. */
  ghost predicate FindsAll(st: Store) {
    forall a :: 0 < a <= |st.hash| ==> AtomName(st, a).Some? && FindAtom(st, AtomName(st, a).value) == a
  }

  /** The hash is numbered in the order of insertion, and no name occurs twice in the order vector. */
  ghost predicate Numbered(st: Store) {
    st.Named() && st.Distinct() && forall i :: 0 <= i < |st.hash| ==> st.hash[i].atom == i + 1
  }

  /** The key of an atom in the hash reads as its name. */
  predicate Reads(st: Store, i: nat) {
    i < |st.hash| && i < |st.order| && st.heap.Deref(st.hash[i].key) == st.heap.Deref(st.order[i])
  }

  /** An atom whose key does not read as its name is not found under that name. */
  lemma NotFound(st: Store, i: nat)
    requires Numbered(st) && i < |st.hash| && !Reads(st, i)
    ensures FindAtom(st, st.heap.Deref(st.order[i]).value) != i + 1
  {
    hide Heap.Deref, Heap.Valid;
    FirstHitLooksUp(st, st.heap.Deref(st.order[i]).value, 0);
  }

  /** All atoms are found exactly when every key of the hash reads as the name in the order vector. */
  lemma FindsAllIff(st: Store)
    requires Numbered(st)
    ensures FindsAll(st) <==> forall i :: 0 <= i < |st.hash| ==> Reads(st, i)
  {
    hide Heap.Deref, Heap.Valid;
    forall i | 0 <= i < |st.hash| && !Reads(st, i)
      ensures !FindsAll(st)
    {
      NotFound(st, i);
      assert AtomName(st, i + 1) == st.heap.Deref(st.order[i]);
    }
    if forall i :: 0 <= i < |st.hash| ==> Reads(st, i) {
      forall a | 0 < a <= |st.hash|
        ensures AtomName(st, a).Some? && FindAtom(st, AtomName(st, a).value) == a
      {
        var name := AtomName(st, a).value;
        assert Reads(st, a - 1);
        FirstHitLooksUp(st, name, 0);
        assert Reads(st, FirstHit(st, name, 0).value);
      }
    }
  }

  lemma CopyNumbered(st: Store, key: int, name: string, place: int)
    requires st.Good() && st.heap.Allocates(name, place) && st.Lookup(name, None) && st.HasRoom()
    requires st.heap.Deref(key) == Some(name)
    ensures Numbered(st.AddCopy(key, name, place, None))
  {
    var st' := st.AddCopy(key, name, place, None);
    DerefPlain(st.heap, key);
    CopyKeepsNames(st, key, name, place, None);
    CopyNewName(st, key, name, place);
    StaysDistinct(st, st', name);
    NextAtomIs(st);
    forall i | 0 <= i < |st'.hash|
      ensures st'.hash[i].atom == i + 1
    {
      hide *;
      if i < |st.hash| {
        CopyEntry(st, key, name, place, i);
      } else {
        CopyShape(st, key, name, place);
      }
    }
  }

  /** A key survives the shift: it lay in the pool, or it reads as before at the new address. */
  predicate Survives(h: Heap, h': Heap, key: int) {
    h.InPool(key) || h'.Deref(key + (h'.base - h.base)) == h.Deref(key)
  }

  lemma CopyReads(st: Store, key: int, name: string, place: int, i: nat)
    requires st.Good() && st.heap.Allocates(name, place) && st.Lookup(name, None) && i < |st.hash|
    requires st.heap.Deref(key) == Some(name)
    ensures Reads(st.AddCopy(key, name, place, None), i)
      <==> Survives(st.heap, st.heap.Append(name, place), st.hash[i].key)
  {
    hide Heap.Deref, Heap.Append, Heap.InPool, Heap.Valid, Heap.Allocates, Store.AddCopy, Store.Distinct;
    DerefPlain(st.heap, key);
    assert st.order[i] == st.hash[i].key;
    hide Store.Good, Store.Named, Store.Lookup;
    assert st.AddCopy(key, name, place, None).heap == st.heap.Append(name, place) by {
      CopyShape(st, key, name, place);
    }
    CopyEntry(st, key, name, place, i);
    CopyName(st, key, name, place, i);
  }

  /**
   After a copying insertion of a new string every atom is found exactly when each key that was not in
   the pool reads as its name at the address to which it was shifted.
   */
  lemma CopyFindsIff(st: Store, key: int, name: string, place: int)
    requires st.Good() && st.heap.Allocates(name, place) && st.Lookup(name, None) && st.HasRoom()
    requires st.heap.Deref(key) == Some(name)
    ensures FindsAll(st.AddCopy(key, name, place, None))
      <==> forall i :: 0 <= i < |st.hash| ==> Survives(st.heap, st.heap.Append(name, place), st.hash[i].key)
  {
    var st', n := st.AddCopy(key, name, place, None), |st.hash|;
    CopyNumbered(st, key, name, place);
    FindsAllIff(st');
    CopyShape(st, key, name, place);
    assert |st'.hash| == n + 1 && Reads(st', n);
    hide *;
    forall i | 0 <= i < n
      ensures Reads(st', i) <==> Survives(st.heap, st.heap.Append(name, place), st.hash[i].key)
    {
      CopyReads(st, key, name, place, i);
    }
  }

  const STRINGS: map<int, string> := map[100 := "p", 200 := "q"]

  /** One permanent string, and an empty pool. */
  lemma MixedFirst()
    ensures var st, x := Store(Heap(0, 0, [], STRINGS), [], []), Perm(100, None);
      st.Good() && Legal(st, x) && Apply(st, x) == Store(Heap(0, 0, [], STRINGS), [Entry(100, 1)], [100])
  {
  }

  lemma MixedSecond()
    ensures var st, x := Store(Heap(0, 0, [], STRINGS), [Entry(100, 1)], [100]), Copy(200, 1000, None);
      Legal(st, x) && Apply(st, x) == Store(Heap(1000, 4, "q" + [NUL], STRINGS), [Entry(1100, 1), Entry(1000, 2)], [100, 1000])
  {
    var h := Heap(0, 0, [], STRINGS);
    var st, x := Store(h, [Entry(100, 1)], [100]), Copy(200, 1000, None);
    assert PowerAbove(1, 4) == PowerAbove(2, 4) == 4;
    assert h.Append("q", 1000) == Heap(1000, 4, "q" + [NUL], STRINGS);
    assert h.Deref(200) == Some("q") && h.Deref(100) == Some("p");
    CopyShape(st, 200, "q", 1000);
    hide Store.AddCopy, Heap.Append, PowerAbove;
    assert Legal(st, x);
  }

  lemma MixedLookup()
    ensures var st := Store(Heap(1000, 4, "q" + [NUL], STRINGS), [Entry(1100, 1), Entry(1000, 2)], [100, 1000]);
      FindAtom(st, "p") == 0 && AtomName(st, 1) == Some("p")
  {
    var h := Heap(1000, 4, "q" + [NUL], STRINGS);
    var st := Store(h, [Entry(1100, 1), Entry(1000, 2)], [100, 1000]);
    CStrSuffix("", "q");
    assert "" + "q" == "q";
    assert h.Deref(1100) == None && h.Deref(1000) == Some("q") && h.Deref(100) == Some("p");
    hide Heap.Deref;
    assert FirstHit(st, "p", 2) == None;
    assert FirstHit(st, "p", 1) == None;
  }

  /**
   Mixing the two kinds can lose an atom: a permanent string, then a copied one that makes the pool
   move.  The permanent string is no longer found, although its atom still names it.
   */
  lemma MixedRunLosesAtom()
    ensures var st, run := Store(Heap(0, 0, [], STRINGS), [], []), [Perm(100, None), Copy(200, 1000, None)];
      && st.Good() && LegalRun(st, run) && !SafeRun(st, run)
      && var end := After(st, run); FindAtom(end, "p") == 0 && AtomName(end, 1) == Some("p")
  {
    MixedFirst();
    MixedSecond();
    MixedLookup();
    hide Store.Good, Legal, Apply, FindAtom, AtomName;
    var st := Store(Heap(0, 0, [], STRINGS), [], []);
    var run := [Perm(100, None), Copy(200, 1000, None)];
    assert run[1..] == [Copy(200, 1000, None)] && run[1..][1..] == [];
    assert LegalRun(Apply(Apply(st, run[0]), run[1]), []);
    assert LegalRun(Apply(st, run[0]), run[1..]);
    if SafeRun(st, run) {
      RunGoodIff(st, run);
      EndsGood(st, run);
      assert false by {
        Bijection(After(st, run));
      }
    }
  }

  /** A copying insertion that fits the pool keeps every atom found, permanent strings included. */
  lemma FittingCopyFindsAll(st: Store, key: int, name: string, place: int)
    requires st.Good() && st.Lookup(name, None) && st.HasRoom() && st.heap.Deref(key) == Some(name)
    requires |st.heap.bytes| + |name| + 1 <= st.heap.cap
    ensures FindsAll(st.AddCopy(key, name, place, None)) && st.AddCopy(key, name, place, None).heap.base == st.heap.base
  {
    var st' := st.AddCopy(key, name, place, None);
    AppendMoves(st.heap, name, place);
    CopyShape(st, key, name, place);
    assert st'.Good() by {
      CopyGoodIff(st, key, name, place, None);
    }
    Bijection(st');
  }

  /** The atoms with a name are 1 up to the size, and no others, also where the order vector is longer. */
  lemma NamedAtoms(st: Store, a: nat)
    requires |st.hash| <= |st.order| && forall i :: 0 <= i < |st.order| ==> st.heap.Deref(st.order[i]).Some?
    ensures AtomName(st, a).Some? <==> 0 < a <= |st.hash|
  {
    hide Heap.Deref;
  }
}
