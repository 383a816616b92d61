/**
 Storage and elements of `autoarray` objects, as a machine over whole runs.

 A block of storage is an address, possibly used before; its cells hold an element or raw memory.
 */
module ArrayStorage {
  import opened CStrings

  datatype Cell<T> = Raw | Built(value: T)

  /**
   The allocated blocks, and how often a program has gone wrong: building an element over another,
   destroying one that is not there, freeing storage that still holds one or is not allocated.
   A `trivial` element type needs no destroying.
   */
  datatype Memory<T> = Memory(blocks: map<nat, seq<Cell<T>>>, trivial: bool, wrong: nat) {

    function With(b: nat, cells: seq<Cell<T>>): Memory<T> {
      this.(blocks := blocks[b := cells])
    }

    function Allocate(b: nat, n: nat): Memory<T> {
      With(b, seq(n, i => Raw))
    }

    predicate In(b: nat, i: nat) {
      b in blocks && i < |blocks[b]|
    }

    /** A placement `new` that ran to its end. */
    function Construct(b: nat, i: nat, v: T): Memory<T> {
      if In(b, i) && blocks[b][i].Raw? then With(b, blocks[b][i := Built(v)]) else this.(wrong := wrong + 1)
    }

    function Destruct(b: nat, i: nat): Memory<T> {
      if In(b, i) && blocks[b][i].Built? then With(b, blocks[b][i := Raw]) else this.(wrong := wrong + 1)
    }

    predicate Vacant(b: nat) {
      b in blocks && (trivial || forall i :: 0 <= i < |blocks[b]| ==> blocks[b][i].Raw?)
    }

    function Deallocate(b: nat): Memory<T> {
      this.(blocks := blocks - {b}, wrong := if Vacant(b) then wrong else wrong + 1)
    }
  }

  /** The elements from `lo` up to `hi` are built, the others are not. */
  function Window<T>(values: seq<T>, lo: nat, hi: nat): seq<Cell<T>> {
    seq(|values|, i requires 0 <= i < |values| => if lo <= i < hi then Built(values[i]) else Raw)
  }

  function Full<T>(values: seq<T>): seq<Cell<T>> { Window(values, 0, |values|) }

  function RawCells<T>(cells: seq<Cell<T>>): nat {
    if cells == [] then 0
    else RawCells(cells[..|cells| - 1]) + if cells[|cells| - 1].Raw? then 1 else 0
  }

  predicate AllBuilt<T>(cells: seq<Cell<T>>) {
    forall i :: 0 <= i < |cells| ==> cells[i].Built?
  }

  lemma {:induction false} NoRawCells<T>(cells: seq<Cell<T>>)
    ensures RawCells(cells) == 0 <==> AllBuilt(cells)
  {
    if cells != [] {
      var front := cells[..|cells| - 1];
      NoRawCells(front);
      assert forall i :: 0 <= i < |front| ==> front[i] == cells[i];
    }
  }

  /** An `autoarray`: its storage and its size. */
  datatype Arr = Arr(block: Ptr, size: nat)

  const NOTHING: Arr := Arr(Null, 0)

  function ArrayAt(b: nat, n: nat): Arr {
    if n == 0 then NOTHING else Arr(At(b), n)
  }

  /** What the storage of an array holds. */
  function Contents<T>(mem: Memory<T>, a: Arr): seq<Cell<T>> {
    if a.block.At? && a.block.index in mem.blocks then mem.blocks[a.block.index] else []
  }

  /** What a constructor that runs to its end leaves. */
  function Created<T>(mem: Memory<T>, b: nat, cells: seq<Cell<T>>): Memory<T> {
    if cells == [] then mem else mem.With(b, cells)
  }

  /** What the destructor leaves. */
  function Dropped<T>(mem: Memory<T>, a: Arr): Memory<T> {
    if a.size == 0 || a.block.Null? then mem
    else Memory(mem.blocks - {a.block.index}, mem.trivial,
                mem.wrong + if mem.trivial then 0 else RawCells(Contents(mem, a)))
  }

  /** The elements after a resize: the old ones as far as they fit, and `fill` for the rest. */
  function Resized<T>(values: seq<T>, n: nat, fill: T): seq<T> {
    if n <= |values| then values[..n] else values + Repeated(n - |values|, fill)
  }

  function Repeated<T>(n: nat, v: T): seq<T> {
    seq(n, i => v)
  }

  function Values<T>(cells: seq<Cell<T>>): seq<T>
    requires AllBuilt(cells)
  {
    seq(|cells|, i requires 0 <= i < |cells| => cells[i].value)
  }

  function Smaller(a: nat, b: nat): nat { if a < b then a else b }

  /** What a copy with `n` elements of another array holds. */
  function CopyOf<T>(cells: seq<Cell<T>>, n: nat, fill: T): seq<T>
    requires AllBuilt(cells[..Smaller(n, |cells|)])
  {
    Resized(Values(cells[..Smaller(n, |cells|)]), n, fill)
  }

  lemma CopyStarts<T>(cells: seq<Cell<T>>, n: nat, fill: T)
    requires AllBuilt(cells[..Smaller(n, |cells|)])
    ensures var values, k := CopyOf(cells, n, fill), Smaller(n, |cells|);
      && |values| == n && (forall i :: 0 <= i < k ==> cells[i] == Built(values[i]))
      && (forall i :: k <= i < n ==> values[i] == fill)
  {
    var kept := cells[..Smaller(n, |cells|)];
    assert forall i :: 0 <= i < |kept| ==> kept[i] == cells[i];
  }

  datatype State<T> = State(mem: Memory<T>, objs: map<nat, Arr>) {

    predicate Holds(o: nat, b: nat) {
      o in objs && objs[o].block == At(b)
    }

    /** Every array has storage of its size, no two share it, and no storage is without an array. */
    ghost predicate Valid() {
      && (forall o :: o in objs ==> (objs[o].block.Null? <==> objs[o].size == 0))
      && (forall o, b :: Holds(o, b) ==> b in mem.blocks && |mem.blocks[b]| == objs[o].size)
      && (forall o, p, b :: Holds(o, b) && Holds(p, b) ==> o == p)
      && (forall b :: b in mem.blocks ==> exists o :: Holds(o, b))
    }

    function Cells(o: nat): seq<Cell<T>>
      requires o in objs
    {
      Contents(mem, objs[o])
    }
  }

  /**
   One operation of a program. Building the element number `failAt` throws, if there is such an element;
   `place` is the address of storage the allocator hands out.
   */
  datatype Op<T> =
    | Create(o: nat, values: seq<T>, failAt: nat, place: nat)        // the constructors
    | CreateRaw(o: nat, n: nat, place: nat)                          // autoarray(siz, aarr_nofill())
    | PlaceNew(o: nat, i: nat, v: T)                                 // the program builds an element itself
    | Resize(o: nat, n: nat, fill: T, failAt: nat, place: nat)       // resize
    | Swap(o: nat, p: nat)                                           // swap
    | Destroy(o: nat)                                                // ~autoarray

  predicate Legal<T>(st: State<T>, op: Op<T>) {
    match op
    case Create(o, values, failAt, place) => o !in st.objs && place !in st.mem.blocks
    case CreateRaw(o, n, place) => o !in st.objs && place !in st.mem.blocks
    case PlaceNew(o, i, v) => o in st.objs && i < |st.Cells(o)| && st.Cells(o)[i].Raw?
    case Resize(o, n, fill, failAt, place) =>
      o in st.objs && place !in st.mem.blocks && AllBuilt(st.Cells(o)[..Smaller(n, |st.Cells(o)|)])
    case Swap(o, p) => o in st.objs && p in st.objs
    case Destroy(o) => o in st.objs
  }

  function Apply<T>(st: State<T>, op: Op<T>): State<T>
    requires Legal(st, op)
  {
    match op
    case Create(o, values, failAt, place) =>
      if failAt < |values| then st
      else State(Created(st.mem, place, Full(values)), st.objs[o := ArrayAt(place, |values|)])
    case CreateRaw(o, n, place) =>
      State(Created(st.mem, place, seq(n, i => Raw)), st.objs[o := ArrayAt(place, n)])
    case PlaceNew(o, i, v) =>
      if st.objs[o].block.At? then st.(mem := st.mem.Construct(st.objs[o].block.index, i, v)) else st
    case Resize(o, n, fill, failAt, place) =>
      if failAt < n then st
      else State(Dropped(Created(st.mem, place, Full(CopyOf(st.Cells(o), n, fill))), st.objs[o]),
                 st.objs[o := ArrayAt(place, n)])
    case Swap(o, p) => st.(objs := st.objs[o := st.objs[p]][p := st.objs[o]])
    case Destroy(o) => State(Dropped(st.mem, st.objs[o]), st.objs - {o})
  }

  /** Nothing unbuilt is destroyed: the array holds all its elements, or its elements need no destroying. */
  predicate Clean<T>(st: State<T>, op: Op<T>)
    requires Legal(st, op)
  {
    (op.Destroy? || (op.Resize? && op.n <= op.failAt)) ==> st.mem.trivial || AllBuilt(st.Cells(op.o))
  }

  lemma CreateKeeps<T>(st: State<T>, o: nat, b: nat, cells: seq<Cell<T>>)
    requires st.Valid() && o !in st.objs && b !in st.mem.blocks
    ensures State(Created(st.mem, b, cells), st.objs[o := ArrayAt(b, |cells|)]).Valid()
  {
    var s := State(Created(st.mem, b, cells), st.objs[o := ArrayAt(b, |cells|)]);
    assert forall p, c :: s.Holds(p, c) <==> st.Holds(p, c) || (p == o && c == b && cells != []);
    forall c | c in s.mem.blocks
      ensures exists p :: s.Holds(p, c)
    {
      if c == b && cells != [] {
        assert s.Holds(o, c);
      } else {
        var p :| st.Holds(p, c);
        assert s.Holds(p, c);
      }
    }
  }

  lemma DropKeeps<T>(st: State<T>, o: nat)
    requires st.Valid() && o in st.objs
    ensures State(Dropped(st.mem, st.objs[o]), st.objs - {o}).Valid()
  {
    var s := State(Dropped(st.mem, st.objs[o]), st.objs - {o});
    assert forall p, c :: s.Holds(p, c) <==> st.Holds(p, c) && p != o;
    if st.objs[o].block.At? {
      assert st.Holds(o, st.objs[o].block.index);
    }
    forall c | c in s.mem.blocks
      ensures exists p :: s.Holds(p, c)
    {
      var p :| st.Holds(p, c);
      assert s.Holds(p, c);
    }
  }

  lemma SwapKeeps<T>(st: State<T>, o: nat, p: nat)
    requires st.Valid() && o in st.objs && p in st.objs
    ensures Apply(st, Swap(o, p)).Valid()
  {
    var s := Apply(st, Swap(o, p));
    assert forall q, c :: s.Holds(q, c) <==> st.Holds(if q == o then p else if q == p then o else q, c);
    forall c | c in s.mem.blocks
      ensures exists q :: s.Holds(q, c)
    {
      var q :| st.Holds(q, c);
      assert s.Holds(if q == o then p else if q == p then o else q, c);
    }
  }

  lemma PlaceKeeps<T>(st: State<T>, o: nat, i: nat, v: T)
    requires st.Valid() && Legal(st, PlaceNew(o, i, v))
    ensures Apply(st, PlaceNew(o, i, v)).Valid()
    ensures Apply(st, PlaceNew(o, i, v)).mem.wrong == st.mem.wrong
  {
    var s := Apply(st, PlaceNew(o, i, v));
    assert forall q, c :: s.Holds(q, c) <==> st.Holds(q, c);
  }

  /** Resizing is: build a new array beside the old one, exchange them, drop the old one. */
  lemma ResizeKeeps<T>(st: State<T>, o: nat, b: nat, cells: seq<Cell<T>>)
    requires st.Valid() && o in st.objs && b !in st.mem.blocks
    ensures State(Dropped(Created(st.mem, b, cells), st.objs[o]), st.objs[o := ArrayAt(b, |cells|)]).Valid()
  {
    var s := State(Dropped(st.mem, st.objs[o]), st.objs - {o});
    var t := State(Created(s.mem, b, cells), s.objs[o := ArrayAt(b, |cells|)]);
    var u := State(Dropped(Created(st.mem, b, cells), st.objs[o]), st.objs[o := ArrayAt(b, |cells|)]);
    assert t.Valid() by {
      DropKeeps(st, o);
      CreateKeeps(s, o, b, cells);
    }
    assert st.objs[o].block.At? ==> st.Holds(o, st.objs[o].block.index);
    assert st.objs[o].block != At(b);
    hide State.Valid;
    DropCreate(st.mem, st.objs[o], b, cells);
    assert t.objs == u.objs;
    SameStorage(t, u);
  }

  /** Dropping one array and creating another elsewhere, in either order. */
  lemma DropCreate<T>(mem: Memory<T>, a: Arr, b: nat, cells: seq<Cell<T>>)
    requires a.block != At(b)
    ensures Created(Dropped(mem, a), b, cells).blocks == Dropped(Created(mem, b, cells), a).blocks
  {
  }

  lemma SameStorage<T>(t: State<T>, u: State<T>)
    requires t.Valid() && t.objs == u.objs && t.mem.blocks == u.mem.blocks
    ensures u.Valid()
  {
    assert forall p, c :: u.Holds(p, c) <==> t.Holds(p, c);
  }

  /** Every operation keeps storage and arrays in step, and goes wrong exactly when it is not clean. */
  lemma StepKeeps<T>(st: State<T>, op: Op<T>)
    requires st.Valid() && Legal(st, op)
    ensures Apply(st, op).Valid() && Apply(st, op).mem.wrong >= st.mem.wrong
    ensures Apply(st, op).mem.wrong == st.mem.wrong <==> Clean(st, op)
  {
    hide State.Valid, AllBuilt, RawCells;
    match op
    case Create(o, values, failAt, place) => CreateKeeps(st, o, place, Full(values));
    case CreateRaw(o, n, place) => CreateKeeps(st, o, place, seq(n, i => Raw));
    case PlaceNew(o, i, v) => PlaceKeeps(st, o, i, v);
    case Resize(o, n, fill, failAt, place) =>
      ResizeKeeps(st, o, place, Full(CopyOf(st.Cells(o), n, fill)));
      DroppedWrong(st, o, place, Full(CopyOf(st.Cells(o), n, fill)));
    case Swap(o, p) => SwapKeeps(st, o, p);
    case Destroy(o) =>
      DropKeeps(st, o);
      DroppedWrong(st, o, 0, []);
  }

  lemma DroppedWrong<T>(st: State<T>, o: nat, b: nat, cells: seq<Cell<T>>)
    requires st.Valid() && o in st.objs && (cells != [] ==> b !in st.mem.blocks)
    ensures var mem := Created(st.mem, b, cells);
      && Dropped(mem, st.objs[o]).wrong >= mem.wrong
      && (Dropped(mem, st.objs[o]).wrong == mem.wrong <==> mem.trivial || AllBuilt(st.Cells(o)))
  {
    NoRawCells(st.Cells(o));
    if st.objs[o].block.At? {
      assert st.Holds(o, st.objs[o].block.index);
    }
  }

  /** An operation on one array, or a swap of two, leaves all other arrays as they are. */
  lemma OthersKept<T>(st: State<T>, op: Op<T>, q: nat)
    requires st.Valid() && Legal(st, op) && q in st.objs && q != op.o && (op.Swap? ==> q != op.p)
    ensures q in Apply(st, op).objs && Apply(st, op).Cells(q) == st.Cells(q)
  {
    if st.objs[q].block.At? {
      var b := st.objs[q].block.index;
      assert st.Holds(q, b);
      assert op.o in st.objs ==> !st.Holds(op.o, b);
    }
  }

  lemma SwapExchanges<T>(st: State<T>, o: nat, p: nat)
    requires Legal(st, Swap(o, p))
    ensures Apply(st, Swap(o, p)).Cells(o) == st.Cells(p) && Apply(st, Swap(o, p)).Cells(p) == st.Cells(o)
    ensures Apply(Apply(st, Swap(o, p)), Swap(o, p)) == st
  {
    assert Apply(Apply(st, Swap(o, p)), Swap(o, p)).objs == st.objs;
  }

  /**
   A resize that throws changes nothing. One that does not keeps the elements that fit, in place, and
   fills the rest.
   */
  lemma ResizeElements<T>(st: State<T>, o: nat, n: nat, fill: T, failAt: nat, place: nat)
    requires st.Valid() && Legal(st, Resize(o, n, fill, failAt, place))
    ensures var t := Apply(st, Resize(o, n, fill, failAt, place));
      var cells := st.Cells(o);
      if failAt < n then t == st
      else
        && t.objs[o].size == n == |t.Cells(o)|
        && (forall i :: 0 <= i < n && i < |cells| ==> t.Cells(o)[i] == cells[i])
        && (forall i :: |cells| <= i < n ==> t.Cells(o)[i] == Built(fill))
  {
    var cells := st.Cells(o);
    var kept := Values(cells[..Smaller(n, |cells|)]);
    if st.objs[o].block.At? {
      assert st.Holds(o, st.objs[o].block.index);
    }
    var all := CopyOf(cells, n, fill);
    assert |all| == n;
    assert n <= failAt ==> Apply(st, Resize(o, n, fill, failAt, place)).Cells(o) == Full(all);
  }

  predicate LegalRun<T>(st: State<T>, ops: seq<Op<T>>)
    decreases ops
  {
    ops == [] || (Legal(st, ops[0]) && LegalRun(Apply(st, ops[0]), ops[1..]))
  }

  function After<T>(st: State<T>, ops: seq<Op<T>>): State<T>
    requires LegalRun(st, ops)
    decreases ops
  {
    if ops == [] then st else After(Apply(st, ops[0]), ops[1..])
  }

  predicate CleanRun<T>(st: State<T>, ops: seq<Op<T>>)
    requires LegalRun(st, ops)
    decreases ops
  {
    ops == [] || (Clean(st, ops[0]) && CleanRun(Apply(st, ops[0]), ops[1..]))
  }

  lemma {:induction false} RunKeeps<T>(st: State<T>, ops: seq<Op<T>>)
    requires st.Valid() && LegalRun(st, ops)
    ensures After(st, ops).Valid() && After(st, ops).mem.wrong >= st.mem.wrong
    ensures After(st, ops).mem.wrong == st.mem.wrong <==> CleanRun(st, ops)
    decreases ops
  {
    hide State.Valid, Legal, Apply, Clean;
    if ops != [] {
      StepKeeps(st, ops[0]);
      RunKeeps(Apply(st, ops[0]), ops[1..]);
    }
  }

  /** No element is left to the program to build. */
  predicate Filling<T>(ops: seq<Op<T>>) {
    forall i :: 0 <= i < |ops| ==> !ops[i].CreateRaw?
  }

  ghost predicate Whole<T>(st: State<T>) {
    forall o :: o in st.objs ==> AllBuilt(st.Cells(o))
  }

  lemma StepWhole<T>(st: State<T>, op: Op<T>)
    requires st.Valid() && Legal(st, op) && Whole(st) && !op.CreateRaw?
    ensures Whole(Apply(st, op)) && Clean(st, op)
  {
    var t := Apply(st, op);
    forall q | q in t.objs
      ensures AllBuilt(t.Cells(q))
    {
      if op.Swap? && (q == op.o || q == op.p) {
        SwapExchanges(st, op.o, op.p);
      } else if q != op.o {
        OthersKept(st, op, q);
      } else if op.Resize? {
        ResizeElements(st, op.o, op.n, op.fill, op.failAt, op.place);
      }
    }
  }

  lemma {:induction false} FillingIsClean<T>(st: State<T>, ops: seq<Op<T>>)
    requires st.Valid() && LegalRun(st, ops) && Whole(st) && Filling(ops)
    ensures CleanRun(st, ops)
    decreases ops
  {
    hide State.Valid, Legal, Apply, Clean, Whole;
    if ops != [] {
      StepWhole(st, ops[0]);
      StepKeeps(st, ops[0]);
      FillingIsClean(Apply(st, ops[0]), ops[1..]);
    }
  }

  function Start<T>(trivial: bool): State<T> {
    State(Memory(map[], trivial, 0), map[])
  }

  /**
   Whatever throws, once all arrays are gone all storage has been given back. Every element was then
   destroyed once, and only after it was built, exactly when no array was dropped or resized with
   elements missing; and that is always so for a program that never asks for unbuilt elements.
   */
  lemma NothingLeftIff<T>(trivial: bool, ops: seq<Op<T>>)
    requires LegalRun(Start<T>(trivial), ops)
    ensures var st := After(Start<T>(trivial), ops);
      && (st.objs == map[] ==> st.mem.blocks == map[])
      && (st.mem.wrong == 0 <==> CleanRun(Start<T>(trivial), ops))
      && (Filling(ops) ==> st.mem.wrong == 0)
  {
    var start := Start<T>(trivial);
    RunKeeps(start, ops);
    if Filling(ops) {
      FillingIsClean(start, ops);
    }
    var st := After(start, ops);
    if st.objs == map[] {
      assert forall b :: b in st.mem.blocks ==> exists o :: st.Holds(o, b);
    }
  }

  /** An array asked to leave its elements unbuilt, and dropped that way. */
  lemma UnbuiltIsDestroyed<T>(n: nat)
    ensures var ops: seq<Op<T>> := [CreateRaw(0, n, 5), Destroy(0)];
      && LegalRun(Start<T>(false), ops)
      && After(Start<T>(false), ops).mem.wrong == n
  {
    var ops: seq<Op<T>> := [CreateRaw(0, n, 5), Destroy(0)];
    var s := Apply(Start<T>(false), ops[0]);
    assert ops[1..][0] == ops[1] && ops[1..][1..] == [];
    assert LegalRun(s, ops[1..]);
    var raw: seq<Cell<T>> := seq(n, i => Raw);
    AllRaw(raw);
    assert After(s, ops[1..]) == Apply(s, ops[1]);
  }

  lemma {:induction false} AllRaw<T>(cells: seq<Cell<T>>)
    requires forall i :: 0 <= i < |cells| ==> cells[i].Raw?
    ensures RawCells(cells) == |cells|
  {
    if cells != [] {
      AllRaw(cells[..|cells| - 1]);
    }
  }

  /** A constructor that throws leaves nothing behind; one that does not leaves an array of its elements. */
  lemma CreateElements<T>(st: State<T>, o: nat, values: seq<T>, failAt: nat, place: nat)
    requires Legal(st, Create(o, values, failAt, place))
    ensures var t := Apply(st, Create(o, values, failAt, place));
      if failAt < |values| then t == st && o !in t.objs
      else
        && o in t.objs && t.objs[o].size == |values| == |t.Cells(o)| && t.mem.wrong == st.mem.wrong
        && (forall i :: 0 <= i < |values| ==> t.Cells(o)[i] == Built(values[i]))
        && (values == [] ==> t.mem == st.mem)
        && (values != [] ==> t.mem.blocks.Keys == st.mem.blocks.Keys + {place})
  {
  }

  /** An array asked for without its elements has none of them, and the program adds them one by one. */
  lemma RawElements<T>(st: State<T>, o: nat, n: nat, place: nat)
    requires Legal(st, CreateRaw(o, n, place))
    ensures var t := Apply(st, CreateRaw(o, n, place));
      && o in t.objs && t.objs[o].size == n == |t.Cells(o)|
      && forall i :: 0 <= i < n ==> t.Cells(o)[i].Raw?
  {
  }

  lemma PlacedElement<T>(st: State<T>, o: nat, i: nat, v: T)
    requires st.Valid() && Legal(st, PlaceNew(o, i, v))
    ensures var t := Apply(st, PlaceNew(o, i, v)); o in t.objs && t.Cells(o) == st.Cells(o)[i := Built(v)]
  {
  }

  /** A dropped array is gone, and so is its storage and only that. */
  lemma DestroyGone<T>(st: State<T>, o: nat)
    requires st.Valid() && o in st.objs
    ensures var t := Apply(st, Destroy(o));
      && t.objs.Keys == st.objs.Keys - {o}
      && t.mem.blocks.Keys == st.mem.blocks.Keys - (if st.objs[o].size == 0 then {} else {st.objs[o].block.index})
      && t.mem.wrong == st.mem.wrong + if st.mem.trivial then 0 else RawCells(st.Cells(o))
  {
  }

  /** What counts as wrong: building over an element, destroying none, and freeing what is in use or not there. */
  lemma WrongIff<T>(mem: Memory<T>, b: nat, i: nat, v: T)
    ensures mem.Construct(b, i, v).wrong == mem.wrong <==>
      b in mem.blocks && i < |mem.blocks[b]| && mem.blocks[b][i] == Raw
    ensures mem.Destruct(b, i).wrong == mem.wrong <==>
      b in mem.blocks && i < |mem.blocks[b]| && mem.blocks[b][i] != Raw
    ensures mem.Deallocate(b).wrong == mem.wrong <==>
      b in mem.blocks && (mem.trivial || forall k :: 0 <= k < |mem.blocks[b]| ==> mem.blocks[b][k] == Raw)
  {
  }
}
