/** The atom file as a whole: what a store answers after it was saved and loaded again. */
module AtomReload {
  import opened Basics
  import opened CStrings
  import opened AtomStore
  import opened AtomRuns
  import opened AtomText
  import opened AtomTextLaws

  /** `find_atom` after loading. */
  function LoadedAtom(hash: map<string, nat>, name: string): nat {
    if name in hash then hash[name] else 0
  }

  /** `get_atom_name` after loading. */
  function LoadedName(hash: map<string, nat>, order: seq<Option<string>>, atom: nat): Option<string> {
    if 0 < atom <= |hash| && atom <= |order| then order[atom - 1] else None
  }

  ghost predicate SameAtoms(st: Store, hash: map<string, nat>) {
    forall name :: LoadedAtom(hash, name) == FindAtom(st, name)
  }

  ghost predicate SameNames(st: Store, hash: map<string, nat>, order: seq<Option<string>>) {
    forall a :: LoadedName(hash, order, a) == AtomName(st, a)
  }

  ghost function NamesOf(st: Store): (names: seq<string>)
    requires st.Named()
    ensures |names| == |st.order|
  {
    seq(|st.order|, i requires 0 <= i < |st.order| => st.heap.Deref(st.order[i]).value)
  }

  lemma NamesOfGood(st: Store)
    requires st.Good() && 0 < |st.order| < TWO_32 / 2
    ensures Names(NamesOf(st)) && NameList(st) == Order(NamesOf(st))
    ensures forall i :: 0 <= i < |st.order| ==> st.heap.Deref(st.order[i]) == Some(NamesOf(st)[i])
  {
    hide Heap.Deref, Heap.Valid;
    var names := NamesOf(st);
    forall i | 0 <= i < |names|
      ensures NUL !in names[i]
    {
      DerefPlain(st.heap, st.order[i]);
    }
    forall i, j | 0 <= i < j < |names|
      ensures names[i] != names[j]
    {
      assert st.heap.Deref(st.order[i]) != st.heap.Deref(st.order[j]);
    }
  }

  /** A good store numbers its names. */
  lemma GoodName(st: Store, i: nat)
    requires st.Good() && i < |st.order|
    ensures AtomName(st, i + 1) == Some(NamesOf(st)[i]) && FindAtom(st, NamesOf(st)[i]) == i + 1
  {
    Bijection(st);
    hide Heap.Deref, Heap.Valid, FirstHit, FindAtom, Store.Distinct;
    assert AtomName(st, i + 1) == st.heap.Deref(st.order[i]);
  }

  /** A good store finds no other names. */
  lemma GoodFinds(st: Store, name: string)
    requires st.Good()
    ensures var names, a := NamesOf(st), FindAtom(st, name); a <= |names| && (a > 0 ==> names[a - 1] == name)
  {
    Bijection(st);
    hide Heap.Deref, Heap.Valid, FirstHit, FindAtom, Store.Distinct;
    var a := FindAtom(st, name);
    assert a > 0 ==> AtomName(st, a) == Some(name);
  }

  /** The first `n` of distinct names are `n` names. */
  lemma {:induction false} CountNames(names: seq<string>, n: nat)
    requires n <= |names| && forall i, j :: 0 <= i < j < |names| ==> names[i] != names[j]
    ensures |set i | 0 <= i < n :: names[i]| == n
  {
    var s := set i | 0 <= i < n :: names[i];
    if n > 0 {
      CountNames(names, n - 1);
      var t := set i | 0 <= i < n - 1 :: names[i];
      assert s == t + {names[n - 1]};
    }
  }

  lemma NumbersCount(names: seq<string>, hash: map<string, nat>)
    requires Names(names) && Numbers(names, hash)
    ensures |hash| == |names|
  {
    CountNames(names, |names|);
    assert hash.Keys == set i | 0 <= i < |names| :: names[i];
  }

  lemma AnswerAtom(st: Store, hash: map<string, nat>, name: string)
    requires st.Good() && Numbers(NamesOf(st), hash)
    ensures LoadedAtom(hash, name) == FindAtom(st, name)
  {
    var names := NamesOf(st);
    GoodFinds(st, name);
    if name in hash {
      GoodName(st, hash[name] - 1);
    }
    hide Store.Good, FindAtom, NamesOf;
  }

  lemma AnswerName(st: Store, hash: map<string, nat>, a: nat)
    requires st.Good() && |hash| == |st.order|
    ensures LoadedName(hash, Order(NamesOf(st)), a) == AtomName(st, a)
  {
    if 0 < a <= |st.order| {
      GoodName(st, a - 1);
    }
    hide Store.Distinct, Heap.Deref, FindAtom, NamesOf;
  }

  /** A hash that numbers the store's names answers every look-up as the store does. */
  lemma NumbersAnswer(st: Store, hash: map<string, nat>)
    requires st.Good() && Names(NamesOf(st)) && Numbers(NamesOf(st), hash)
    ensures SameAtoms(st, hash) && SameNames(st, hash, Order(NamesOf(st)))
  {
    NumbersCount(NamesOf(st), hash);
    forall name
      ensures LoadedAtom(hash, name) == FindAtom(st, name)
    {
      hide *;
      AnswerAtom(st, hash, name);
    }
    forall a
      ensures LoadedName(hash, Order(NamesOf(st)), a) == AtomName(st, a)
    {
      hide *;
      AnswerName(st, hash, a);
    }
    hide Store.Good, Names, Numbers, LoadedAtom, LoadedName, FindAtom, AtomName, Order, NamesOf;
  }

  /** A name that is found under its number came from a line that fits. */
  lemma AnswerFits(recs: seq<Record>, name: string, i: nat)
    requires forall k :: 0 <= k < |recs| ==> Accepted(recs[k]) && Fits(recs[k])
    requires LoadedAtom(Entered(recs), name) == i + 1
    ensures Fits(Record(i + 1, name))
  {
    hide Entered, Fits;
    EnteredFrom(recs, name);
    var k :| 0 <= k < |recs| && recs[k].name == name && Entered(recs)[name] == recs[k].atom % TWO_32;
    WrapAtMost(recs[k].atom);
    FitsSmaller(recs[k], i + 1);
  }

  lemma WrapAtMost(n: nat)
    ensures n % TWO_32 <= n
  {
  }

  /** Look-ups that survive a file show that every line of it fits. */
  lemma AnswersFit(st: Store, file: string)
    requires st.Good() && NUL !in file && Readable(file) && SameAtoms(st, Entered(Taken(file)))
    ensures AllFit(NamesOf(st))
  {
    var names, recs := NamesOf(st), Taken(file);
    TakenFits(file);
    TakenAccepted(file);
    forall i | 0 <= i < |names|
      ensures Fits(Record(i + 1, names[i]))
    {
      assert LoadedAtom(Entered(recs), names[i]) == FindAtom(st, names[i]);
      hide *;
      GoodName(st, i);
      AnswerFits(recs, names[i], i);
    }
    hide Store.Good, Readable, Taken, Entered, Fits, SameAtoms, NamesOf;
  }

  /**
   An atomizer saved with `SaveC2N` and loaded with `LoadC2N` finds the same atoms under all names exactly
   when every line fits; and then every atom has the same name, whatever the order in which the hash is walked.
   */
  lemma ReloadIff(st: Store)
    requires st.Good() && 0 < |st.order| < TWO_32 / 2
    ensures var file := Lines(Records(NameList(st), 0)); var hash := Entered(Taken(file));
      && (AllFit(NamesOf(st)) <==> Readable(file) && SameAtoms(st, hash))
      && (AllFit(NamesOf(st)) ==> forall order: seq<Option<string>> :: Outcome(file, order) ==> SameNames(st, hash, order))
  {
    var names, recs := NamesOf(st), Records(NameList(st), 0);
    var file := Lines(recs);
    NamesOfGood(st);
    hide *;
    SavedShuffled(names);
    ShuffledPlain(names, recs);
    if AllFit(names) {
      LoadRestores(names, recs);
      NumbersAnswer(st, Entered(Taken(file)));
    }
    if Readable(file) && SameAtoms(st, Entered(Taken(file))) {
      AnswersFit(st, file);
    }
  }

  lemma ShuffledPlain(names: seq<string>, recs: seq<Record>)
    requires Names(names) && Shuffled(names, recs)
    ensures forall k :: 0 <= k < |recs| ==> recs[k].atom >= 0
    ensures NUL !in Lines(recs)
  {
    assert forall k :: 0 <= k < |recs| ==> NUL !in recs[k].name;
    LinesPlain(recs);
  }

  /**
   After loading any file, a name that is found under an atom of its own is the name of that atom exactly when
   the atom is not above the number of names: in a sparse file the rest is found but not named.
   */
  lemma NamedIff(hash: map<string, nat>, order: seq<Option<string>>, name: string)
    requires FilledFrom(hash, order) && forall other :: other in hash ==> hash[other] < TWO_32
    requires name in hash && 0 < hash[name] <= |order|
    requires forall other :: other in hash && hash[other] == hash[name] ==> other == name
    ensures LoadedName(hash, order, LoadedAtom(hash, name)) == Some(name) <==> hash[name] <= |hash|
  {
    var a := hash[name];
    SlotWraps(a);
    assert order[a - 1].Some?;
    var other := order[a - 1].value;
    assert Slot(hash[other]) == a - 1;
    SlotWraps(hash[other]);
    hide Slot, FilledFrom;
  }

  /** A file with one record of atom 2: the name is found, but atom 2 has no name. */
  lemma SparseFile(hash: map<string, nat>, order: seq<Option<string>>)
    requires hash == map["x" := 2] && |order| == 2 && FilledFrom(hash, order)
    ensures LoadedAtom(hash, "x") == 2 && LoadedName(hash, order, 2) == None
  {
    assert hash.Keys == {"x"};
    assert |hash| == 1;
  }
}
