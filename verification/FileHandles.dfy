/**
 Ownership of `FILE` handles by `TFILEPtr` objects, as a machine over whole runs.

 A file is an address; the library may hand out the address of a closed file again.
 */
module FileHandles {
  import opened CStrings

  /** A `TFILEPtr`: its file and its flags `SHOULD_CLOSE` and `IS_PIPE`. */
  datatype Handle = Handle(file: Ptr, shouldClose: bool, isPipe: bool) {

    predicate Owner() { file.At? && shouldClose }
  }

  const NO_FILE: Handle := Handle(Null, false, false)

  function Borrower(file: Ptr): Handle { Handle(file, false, false) }

  function Owning(file: Ptr, pipe: bool): Handle { Handle(file, true, pipe) }

  /** The C library's files: which are open, which of them are pipes, and all openings and closings so far. */
  datatype Files =
    Files(open: set<nat>, pipes: set<nat>, openings: multiset<nat>, closings: multiset<nat>, wrong: nat)
  {
    function Open(a: nat, pipe: bool): Files {
      Files(open + {a}, if pipe then pipes + {a} else pipes - {a}, openings + multiset{a}, closings, wrong)
    }

    /** `fclose` or `pclose`; closing a file that is not open, or by the wrong one of the two, counts as wrong. */
    function Close(a: nat, pipe: bool): Files {
      Files(open - {a}, pipes - {a}, openings, closings + multiset{a},
            if a in open && (a in pipes <==> pipe) then wrong else wrong + 1)
    }

    /** What `TFILEPtr::close` does to the files: only an owner closes. */
    function Released(h: Handle): Files {
      if h.Owner() then Close(h.file.index, h.isPipe) else this
    }
  }

  /** The program: files, `TFILEPtr` objects, raw files still held by the program, and files nobody holds. */
  datatype State = State(files: Files, objs: map<nat, Handle>, loose: set<nat>, lost: set<nat>) {

    /** The object is the owner of this file. */
    predicate Owns(o: nat, a: nat) {
      o in objs && objs[o].Owner() && objs[o].file.index == a
    }

    /**
     Every open file is held by the program, owned by exactly one object, or lost; owners hold open files
     only; and no file was ever closed twice or in the wrong way.
     */
    ghost predicate Valid() {
      && files.wrong == 0 && files.openings == files.closings + multiset(files.open)
      && loose <= files.open && lost <= files.open && loose !! lost && loose !! files.pipes
      && (forall o, a :: Owns(o, a) ==> a in files.open && a !in loose && a !in lost)
      && (forall o, a :: Owns(o, a) ==> (a in files.pipes <==> objs[o].isPipe))
      && (forall o, p, a :: Owns(o, a) && Owns(p, a) ==> o == p)
      && (forall a :: a in files.open && a !in loose && a !in lost ==> exists o :: Owns(o, a))
    }

    /** `close()` on one object. */
    function Closed(o: nat): State
      requires o in objs
    {
      State(files.Released(objs[o]), objs[o := NO_FILE], loose, lost)
    }

    /** The object becomes the owner of an open file taken from the program. */
    function Given(o: nat, f: Ptr): State {
      State(files, objs[o := Owning(f, false)], if f.At? then loose - {f.index} else loose, lost)
    }

    function Placed(o: nat, h: Handle): State {
      State(files, objs[o := h], loose, lost)
    }
  }

  /** One operation of a program; `throws` says that closing the old file failed and `close` threw. */
  datatype Op =
    | RawOpen(a: nat)                             // the program opens a file of its own
    | New(o: nat)                                 // TFILEPtr()
    | NewCopy(o: nat, src: nat)                   // TFILEPtr(const TFILEPtr&)
    | NewAdopt(o: nat, f: Ptr)                    // TFILEPtr(FILE*)
    | OpenFile(o: nat, a: nat, pipe: bool)        // open, popen
    | AssignCopy(o: nat, src: nat, throws: bool)  // operator=(const TFILEPtr&)
    | AssignRaw(o: nat, f: Ptr, throws: bool)     // operator=(FILE*)
    | CloseFile(o: nat)                           // close
    | Destroy(o: nat)                             // ~TFILEPtr

  /** What an operation may be applied to; a raw file is handed over only while the program holds it. */
  predicate Legal(st: State, op: Op) {
    match op
    case RawOpen(a) => a !in st.files.open
    case New(o) => o !in st.objs
    case NewCopy(o, src) => o !in st.objs && src in st.objs
    case NewAdopt(o, f) => o !in st.objs && (f.At? ==> f.index in st.loose)
    case OpenFile(o, a, pipe) => o in st.objs && st.objs[o].file == Null && a !in st.files.open
    case AssignCopy(o, src, throws) => o in st.objs && src in st.objs && (throws ==> st.objs[o].Owner())
    case AssignRaw(o, f, throws) =>
      o in st.objs && (f.At? ==> f.index in st.loose) && (throws ==> st.objs[o].Owner())
    case CloseFile(o) => o in st.objs
    case Destroy(o) => o in st.objs
  }

  /** A raw file assigned to an object that already points to it: the object stays as it is. */
  predicate Loses(st: State, op: Op)
    requires Legal(st, op)
  {
    op.AssignRaw? && op.f.At? && st.objs[op.o].file == op.f
  }

  function Apply(st: State, op: Op): State
    requires Legal(st, op)
  {
    match op
    case RawOpen(a) => st.(files := st.files.Open(a, false), loose := st.loose + {a})
    case New(o) => st.Placed(o, NO_FILE)
    case NewCopy(o, src) => st.Placed(o, Borrower(st.objs[src].file))
    case NewAdopt(o, f) => st.Given(o, f)
    case OpenFile(o, a, pipe) => st.(files := st.files.Open(a, pipe), objs := st.objs[o := Owning(At(a), pipe)])
    case AssignCopy(o, src, throws) =>
      if st.objs[src].file == st.objs[o].file then st
      else if throws then st.Closed(o)
      else st.Closed(o).Placed(o, Borrower(st.objs[src].file))
    case AssignRaw(o, f, throws) =>
      if f == st.objs[o].file then
        (if f.At? then st.(loose := st.loose - {f.index}, lost := st.lost + {f.index}) else st)
      else if throws then st.Closed(o)
      else st.Closed(o).Given(o, f)
    case CloseFile(o) => st.Closed(o)
    case Destroy(o) => var s := st.Closed(o); s.(objs := s.objs - {o})
  }

  lemma CloseKeeps(st: State, o: nat)
    requires st.Valid() && o in st.objs
    ensures st.Closed(o).Valid() && !st.Closed(o).objs[o].Owner()
  {
    var s := st.Closed(o);
    assert forall p, a :: s.Owns(p, a) <==> st.Owns(p, a) && p != o;
    if st.objs[o].Owner() {
      var a := st.objs[o].file.index;
      assert st.Owns(o, a);
      assert s.files.openings == s.files.closings + multiset(s.files.open);
    }
    forall a | a in s.files.open && a !in s.loose && a !in s.lost
      ensures exists p :: s.Owns(p, a)
    {
      var p :| st.Owns(p, a);
      assert s.Owns(p, a);
    }
  }

  /** Putting a handle that owns nothing in the place of one that owns nothing. */
  lemma PlaceKeeps(st: State, o: nat, h: Handle)
    requires st.Valid() && !h.Owner() && (o in st.objs ==> !st.objs[o].Owner())
    ensures st.Placed(o, h).Valid()
  {
    var s := st.Placed(o, h);
    assert forall p, a :: s.Owns(p, a) <==> st.Owns(p, a);
    assert forall p, a :: s.Owns(p, a) ==> s.objs[p] == st.objs[p];
  }

  lemma GiveKeeps(st: State, o: nat, f: Ptr)
    requires st.Valid() && (o in st.objs ==> !st.objs[o].Owner()) && (f.At? ==> f.index in st.loose)
    ensures st.Given(o, f).Valid()
  {
    var s := st.Given(o, f);
    assert forall p, a :: s.Owns(p, a) <==> st.Owns(p, a) || (p == o && f == At(a));
    assert forall p, a :: s.Owns(p, a) && p != o ==> s.objs[p] == st.objs[p];
    forall a | a in s.files.open && a !in s.loose && a !in s.lost
      ensures exists p :: s.Owns(p, a)
    {
      if f == At(a) {
        assert s.Owns(o, a);
      } else {
        var p :| st.Owns(p, a);
        assert s.Owns(p, a);
      }
    }
  }

  lemma OpenKeeps(st: State, o: nat, a: nat, pipe: bool)
    requires st.Valid() && o in st.objs && !st.objs[o].Owner() && a !in st.files.open
    requires Legal(st, OpenFile(o, a, pipe))
    ensures Apply(st, OpenFile(o, a, pipe)).Valid()
  {
    var s := Apply(st, OpenFile(o, a, pipe));
    assert forall p, b :: s.Owns(p, b) <==> st.Owns(p, b) || (p == o && b == a);
    assert forall p, b :: s.Owns(p, b) && p != o ==> s.objs[p] == st.objs[p];
    assert s.files.openings == s.files.closings + multiset(s.files.open);
    forall b | b in s.files.open && b !in s.loose && b !in s.lost
      ensures exists p :: s.Owns(p, b)
    {
      if b == a {
        assert s.Owns(o, b);
      } else {
        var p :| st.Owns(p, b);
        assert s.Owns(p, b);
      }
    }
  }

  lemma RawKeeps(st: State, a: nat)
    requires st.Valid() && a !in st.files.open
    ensures Apply(st, RawOpen(a)).Valid()
  {
    var s := Apply(st, RawOpen(a));
    assert forall p, b :: s.Owns(p, b) <==> st.Owns(p, b);
    assert s.files.openings == s.files.closings + multiset(s.files.open);
  }

  lemma LoseKeeps(st: State, o: nat, f: nat, throws: bool)
    requires st.Valid() && Legal(st, AssignRaw(o, At(f), throws)) && st.objs[o].file == At(f)
    ensures Apply(st, AssignRaw(o, At(f), throws)).Valid()
  {
    var s := Apply(st, AssignRaw(o, At(f), throws));
    assert forall p, b :: s.Owns(p, b) <==> st.Owns(p, b);
  }

  lemma DestroyKeeps(st: State, o: nat)
    requires st.Valid() && o in st.objs
    ensures Apply(st, Destroy(o)).Valid()
  {
    var s, t := st.Closed(o), Apply(st, Destroy(o));
    CloseKeeps(st, o);
    assert forall p, a :: t.Owns(p, a) <==> s.Owns(p, a);
    assert forall p, a :: t.Owns(p, a) ==> t.objs[p] == s.objs[p];
  }

  /** A closing is counted as wrong exactly if the file is not open or is closed in the way of the other kind. */
  lemma WrongIff(files: Files, a: nat, pipe: bool)
    ensures var after := files.Close(a, pipe);
      && after.wrong == files.wrong + (if a in files.open && pipe == (a in files.pipes) then 0 else 1)
      && a !in after.open && after.closings == files.closings + multiset{a}
  {
  }

  /** Every operation keeps the ownership invariant, and loses a file exactly when `Loses` says so. */
  lemma StepKeeps(st: State, op: Op)
    requires st.Valid() && Legal(st, op)
    ensures Apply(st, op).Valid()
    ensures Apply(st, op).lost == if Loses(st, op) then st.lost + {op.f.index} else st.lost
  {
    hide State.Valid;
    match op
    case RawOpen(a) => RawKeeps(st, a);
    case New(o) => PlaceKeeps(st, o, NO_FILE);
    case NewCopy(o, src) => PlaceKeeps(st, o, Borrower(st.objs[src].file));
    case NewAdopt(o, f) => GiveKeeps(st, o, f);
    case OpenFile(o, a, pipe) => OpenKeeps(st, o, a, pipe);
    case AssignCopy(o, src, throws) =>
      CloseKeeps(st, o);
      PlaceKeeps(st.Closed(o), o, Borrower(st.objs[src].file));
    case AssignRaw(o, f, throws) =>
      if f == st.objs[o].file {
        if f.At? { LoseKeeps(st, o, f.index, throws); }
      } else {
        CloseKeeps(st, o);
        GiveKeeps(st.Closed(o), o, f);
      }
    case CloseFile(o) => CloseKeeps(st, o);
    case Destroy(o) => DestroyKeeps(st, o);
  }

  /** An operation closes at most one file: an open one, in its own way, owned by an object that then no longer does. */
  lemma OnlyOwnersClose(st: State, op: Op)
    requires st.Valid() && Legal(st, op)
    ensures Apply(st, op).files.closings == st.files.closings
         || exists o, a :: st.Owns(o, a) && !Apply(st, op).Owns(o, a)
              && a in st.files.open && (a in st.files.pipes <==> st.objs[o].isPipe)
              && Apply(st, op).files.closings == st.files.closings + multiset{a}
  {
    var t := Apply(st, op);
    if op.AssignCopy? || op.AssignRaw? || op.CloseFile? || op.Destroy? {
      var h := st.objs[op.o];
      if h.Owner() && t.files.closings != st.files.closings {
        assert st.Owns(op.o, h.file.index) && !t.Owns(op.o, h.file.index);
      }
    }
  }

  /**
   What the object of an operation holds afterwards: an assigned object points to the file it was given,
   as a borrower after a copy and as an owner after a raw file, unless it pointed there already; after a
   closing, also one that threw, it holds nothing.
   */
  lemma Points(st: State, op: Op)
    requires Legal(st, op) && !op.RawOpen? && !op.Destroy?
    ensures op.o in Apply(st, op).objs
    ensures var h := Apply(st, op).objs[op.o];
      match op
      case New(_) => h.file == Null
      case NewCopy(_, src) => h.file == st.objs[src].file && !h.Owner()
      case NewAdopt(_, f) => h.file == f && (f.At? ==> h.Owner())
      case OpenFile(_, a, pipe) => h.file == At(a) && h.Owner() && h.isPipe == pipe
      case AssignCopy(o, src, throws) =>
        if st.objs[src].file == st.objs[o].file then h == st.objs[o]
        else if throws then h.file == Null
        else h.file == st.objs[src].file && !h.Owner()
      case AssignRaw(o, f, throws) =>
        if f == st.objs[o].file then h == st.objs[o]
        else if throws then h.file == Null
        else h.file == f && (f.At? ==> h.Owner() && !h.isPipe)
      case CloseFile(_) => h.file == Null
  {
  }

  /** An operation on one object leaves all others as they are, and a destroyed object is gone. */
  lemma OthersKept(st: State, op: Op, p: nat)
    requires Legal(st, op)
    ensures op.RawOpen? || p != op.o ==> (p in Apply(st, op).objs <==> p in st.objs)
    ensures (op.RawOpen? || p != op.o) && p in st.objs ==> Apply(st, op).objs[p] == st.objs[p]
    ensures op.Destroy? ==> op.o !in Apply(st, op).objs
  {
  }

  const START: State := State(Files({}, {}, multiset{}, multiset{}, 0), map[], {}, {})

  predicate LegalRun(st: State, ops: seq<Op>)
    decreases ops
  {
    ops == [] || (Legal(st, ops[0]) && LegalRun(Apply(st, ops[0]), ops[1..]))
  }

  function After(st: State, ops: seq<Op>): State
    requires LegalRun(st, ops)
    decreases ops
  {
    if ops == [] then st else After(Apply(st, ops[0]), ops[1..])
  }

  /** No operation of the run assigns a raw file to an object that already points to it. */
  predicate Careful(st: State, ops: seq<Op>)
    requires LegalRun(st, ops)
    decreases ops
  {
    ops == [] || (!Loses(st, ops[0]) && Careful(Apply(st, ops[0]), ops[1..]))
  }

  lemma {:induction false} RunKeeps(st: State, ops: seq<Op>)
    requires st.Valid() && LegalRun(st, ops)
    ensures After(st, ops).Valid()
    ensures st.lost <= After(st, ops).lost
    ensures After(st, ops).lost == st.lost <==> Careful(st, ops)
    decreases ops
  {
    hide State.Valid, Legal, Apply, Loses;
    if ops != [] {
      var t := Apply(st, ops[0]);
      StepKeeps(st, ops[0]);
      RunKeeps(t, ops[1..]);
      if Loses(st, ops[0]) {
        assert ops[0].f.index !in st.lost by { NewlyLost(st, ops[0]); }
      }
    }
  }

  lemma NewlyLost(st: State, op: Op)
    requires st.Valid() && Legal(st, op) && Loses(st, op)
    ensures op.AssignRaw? && op.f.At? && op.f.index !in st.lost
  {
    assert op.f.index in st.loose;
  }

  /**
   Whatever a program does, no file is closed twice, and no file has two owners. Once all objects are
   gone and the program holds no raw file, every file it opened has been closed, as often as it was
   opened, exactly when no raw file was assigned to an object that already pointed to its address.
   */
  lemma AllClosedIff(ops: seq<Op>)
    requires LegalRun(START, ops)
    ensures var st := After(START, ops);
      && st.files.wrong == 0
      && (forall o, p, a :: st.Owns(o, a) && st.Owns(p, a) ==> o == p)
      && (st.objs == map[] && st.loose == {} ==>
            ((st.files.openings == st.files.closings && st.files.open == {}) <==> Careful(START, ops)))
  {
    RunKeeps(START, ops);
    var st := After(START, ops);
    if st.objs == map[] && st.loose == {} {
      assert st.files.open == st.lost;
    }
  }

  /** A borrower outlives its file, the address is used again, and the new file is assigned to the borrower. */
  function Stale(a: nat): seq<Op> {
    [New(0), OpenFile(0, a, false), NewCopy(1, 0), Destroy(0), RawOpen(a), AssignRaw(1, At(a), false), Destroy(1)]
  }

  lemma StaleBorrowerLeaks(a: nat)
    ensures LegalRun(START, Stale(a)) && !Careful(START, Stale(a))
    ensures var st := After(START, Stale(a)); st.objs == map[] && st.loose == {} && st.files.open == {a}
  {
    var ops := Stale(a);
    var s1 := Apply(START, ops[0]);
    var s2 := Apply(s1, ops[1]);
    var s3 := Apply(s2, ops[2]);
    var s4 := Apply(s3, ops[3]);
    assert s4.objs == map[1 := Borrower(At(a))] && s4.loose == {} && s4.files.open == {};
    StaleEnd(s4, a);
    hide *;
    Unfold(s3, ops[3..]);
    Unfold(s2, ops[2..]);
    Unfold(s1, ops[1..]);
    Unfold(START, ops);
  }

  lemma StaleEnd(st: State, a: nat)
    requires st.objs == map[1 := Borrower(At(a))] && st.loose == {} && st.files.open == {}
    ensures var ops := Stale(a)[4..];
      && LegalRun(st, ops) && !Careful(st, ops)
      && After(st, ops).objs == map[] && After(st, ops).loose == {} && After(st, ops).files.open == {a}
  {
    var ops := Stale(a)[4..];
    var s5 := Apply(st, ops[0]);
    var s6 := Apply(s5, ops[1]);
    assert Loses(s5, ops[1]);
    Unfold(s6, ops[2..]);
    Unfold(s5, ops[1..]);
    Unfold(st, ops);
  }

  lemma Unfold(st: State, ops: seq<Op>)
    requires ops != [] && Legal(st, ops[0]) && LegalRun(Apply(st, ops[0]), ops[1..])
    ensures LegalRun(st, ops) && After(st, ops) == After(Apply(st, ops[0]), ops[1..])
    ensures Careful(st, ops) <==> !Loses(st, ops[0]) && Careful(Apply(st, ops[0]), ops[1..])
  {}
}
