/**
 The text format of an atomizer: `SaveC2N` writes one line per atom, `LoadC2N` reads lines in any order.
 */
module AtomText {
  import opened Basics
  import opened CStrings
  import opened Decimal
  import opened AtomStore

  /** A line of the file: an atom and its name. */
  datatype Record = Record(atom: int, name: string)

  function Line(x: Record): string
    requires x.atom >= 0
  {
    Digits(x.atom) + [TAB] + x.name + [LF]
  }

  /** The lines of the records, one after the other. */
  function Lines(recs: seq<Record>): string
    requires forall i :: 0 <= i < |recs| ==> recs[i].atom >= 0
  {
    if recs == [] then "" else Line(recs[0]) + Lines(recs[1..])
  }

  /** The named atoms of an order vector, from `i` on. */
  function Records(order: seq<Option<string>>, i: nat): (r: seq<Record>)
    requires i <= |order|
    ensures forall k :: 0 <= k < |r| ==> r[k].atom >= 0
    decreases |order| - i
  {
    if i == |order| then []
    else if order[i].Some? then [Record(i + 1, order[i].value)] + Records(order, i + 1)
    else Records(order, i + 1)
  }

  /** The names in the order vector; a pointer that leads nowhere stands for the null pointer. */
  function NameList(st: Store): (order: seq<Option<string>>)
    ensures |order| == |st.order|
  {
    seq(|st.order|, i requires 0 <= i < |st.order| => st.heap.Deref(st.order[i]))
  }

  method SaveC2N(st: Store) returns (file: string)
    requires |st.order| < TWO_32 / 2
    ensures file == Lines(Records(NameList(st), 0))
  {
    hide Heap.Deref, Line;
    ghost var order := NameList(st);
    file := "";
    for i := 0 to |st.order|
      invariant file + Lines(Records(order, i)) == Lines(Records(order, 0))
    {
      var name := st.heap.Deref(st.order[i]);
      assert name == order[i];
      if name.Some? {
        var x := Record(i + 1, name.value);
        assert ([x] + Records(order, i + 1))[1..] == Records(order, i + 1);
        file := file + Line(x);
      }
    }
  }

  /** `fgets` with a buffer of 1000: up to 999 characters, at most one line. */
  function ChunkLength(t: string): (n: nat)
    ensures n <= |t| && n <= 999 && (t != [] ==> n > 0)
  {
    var m := if |t| < 999 then |t| else 999;
    var e := FirstIn({LF}, t[..m], 0);
    if e < m then e + 1 else m
  }

  /** The buffer after `fgets`, up to the zero it writes. */
  function Filled(chunk: string): (b: string)
    ensures b != []
  {
    chunk + [NUL]
  }

  lemma FilledText(chunk: string)
    ensures |CStr(Filled(chunk), 0)| <= |chunk|
  {
    assert Filled(chunk)[|chunk|] == NUL;
  }

  /** The number at the front of the chunk; a zero in the file ends it. */
  function NumberOf(chunk: string): (n: Number)
    ensures n.end <= |chunk|
  {
    FilledText(chunk);
    StrToL(CStr(Filled(chunk), 0))
  }

  /** What one chunk says; the first newline after the number, if no zero comes before it, is written over. */
  function Parse(chunk: string): (x: Record) {
    var n, b := NumberOf(chunk), Filled(chunk);
    var e := FirstIn({LF, NUL}, b, n.end);
    var c := if e < |b| && b[e] == LF then b[e := NUL] else b;
    Record(n.value, CStr(c, n.end + 1))
  }

  predicate Accepted(x: Record) {
    0 < x.atom != LONG_MAX
  }

  /** A number that is taken is followed by something, so that the name's start is inside the buffer. */
  predicate Bounded(chunk: string) {
    Accepted(Parse(chunk)) ==> NumberOf(chunk).end < |chunk|
  }

  ghost predicate Readable(t: string)
    decreases |t|
  {
    t == [] || (Bounded(t[..ChunkLength(t)]) && Readable(t[ChunkLength(t)..]))
  }

  /** The records taken from a text. */
  function Taken(t: string): seq<Record>
    decreases |t|
  {
    if t == [] then []
    else
      var n := ChunkLength(t);
      var x := Parse(t[..n]);
      if Accepted(x) then [x] + Taken(t[n..]) else Taken(t[n..])
  }

  /** Entering the records into a hash: a name keeps the number it got first. */
  function Entered(recs: seq<Record>): map<string, nat> {
    if recs == [] then map[]
    else
      var m, x := Entered(recs[..|recs| - 1]), recs[|recs| - 1];
      if x.name in m then m else m[x.name := x.atom % TWO_32]
  }

  function Greatest(recs: seq<Record>): nat {
    if recs == [] then 0
    else
      var m, x := Greatest(recs[..|recs| - 1]), recs[|recs| - 1];
      if x.atom > m then x.atom else m
  }

  /** The slot of an atom in the order vector, in 32-bit arithmetic. */
  function Slot(atom: nat): nat {
    (atom + TWO_32 - 1) % TWO_32
  }

  /** The order vector holds names of the hash in their slots, and leaves no slot with a name empty. */
  ghost predicate FilledFrom(hash: map<string, nat>, order: seq<Option<string>>) {
    && (forall i :: 0 <= i < |order| && order[i].Some? ==> order[i].value in hash && Slot(hash[order[i].value]) == i)
    && (forall name :: name in hash && Slot(hash[name]) < |order| ==> order[Slot(hash[name])].Some?)
  }

  lemma {:induction false} SlotsInRange(recs: seq<Record>)
    requires forall i :: 0 <= i < |recs| ==> Accepted(recs[i])
    ensures forall name :: name in Entered(recs) ==> Slot(Entered(recs)[name]) < Greatest(recs)
  {
    if recs != [] {
      SlotsInRange(recs[..|recs| - 1]);
    }
  }

  lemma Enter(done: seq<Record>, x: Record)
    ensures Entered(done + [x]) ==
      if x.name in Entered(done) then Entered(done) else Entered(done)[x.name := x.atom % TWO_32]
    ensures Greatest(done + [x]) == if x.atom > Greatest(done) then x.atom else Greatest(done)
  {
    assert (done + [x])[..|done|] == done;
  }

  lemma TakeChunk(done: seq<Record>, t: string)
    requires t != []
    ensures var n := ChunkLength(t);
      var x, rest := Parse(t[..n]), Taken(t[n..]);
      && (Accepted(x) ==> x.atom > 0 && done + Taken(t) == (done + [x]) + rest)
      && (!Accepted(x) ==> Taken(t) == rest)
  {
    hide ChunkLength, Parse;
  }

  /** The reading loop. */
  method ReadRecords(file: string) returns (hash: map<string, nat>, km: nat)
    requires Readable(file)
    ensures hash == Entered(Taken(file)) && km == Greatest(Taken(file))
  {
    hash, km := map[], 0;
    var rest := file;
    ghost var done: seq<Record> := [];
    while rest != []
      invariant Taken(file) == done + Taken(rest)
      invariant hash == Entered(done) && km == Greatest(done)
      decreases |rest|
    {
      hide *;
      var n := ChunkLength(rest);
      var x := Parse(rest[..n]);
      TakeChunk(done, rest);
      if Accepted(x) {
        Enter(done, x);
        km := if x.atom > km then x.atom else km;
        if x.name !in hash {
          hash := hash[x.name := x.atom % TWO_32];
        }
        done := done + [x];
      }
      rest := rest[n..];
    }
    assert done + Taken([]) == done;
  }

  lemma {:induction false} TakenAccepted(t: string)
    ensures forall i :: 0 <= i < |Taken(t)| ==> Accepted(Taken(t)[i])
    decreases |t|
  {
    hide ChunkLength, Parse;
    if t != [] {
      TakenAccepted(t[ChunkLength(t)..]);
    }
  }

  /** Entering the names of a hash into an order vector, in whatever order the hash is walked. */
  method FillOrder(hash: map<string, nat>, km: nat) returns (order: seq<Option<string>>)
    requires forall name :: name in hash ==> Slot(hash[name]) < km
    ensures |order| == km && FilledFrom(hash, order)
  {
    hide Slot;
    order := seq(km, _ => None);
    var left := hash.Keys;
    while left != {}
      invariant left <= hash.Keys && |order| == km
      invariant forall i :: 0 <= i < km && order[i].Some? ==> order[i].value in hash && Slot(hash[order[i].value]) == i
      invariant forall name :: name in hash && name !in left ==> order[Slot(hash[name])].Some?
      decreases left
    {
      var name :| name in left;
      order := order[Slot(hash[name]) := Some(name)];
      left := left - {name};
    }
  }

  /** Loads a file into an empty atomizer. */
  method LoadC2N(file: string) returns (hash: map<string, nat>, order: seq<Option<string>>)
    requires Readable(file)
    ensures hash == Entered(Taken(file)) && |order| == Greatest(Taken(file)) && FilledFrom(hash, order)
  {
    hide *;
    var km;
    hash, km := ReadRecords(file);
    TakenAccepted(file);
    SlotsInRange(Taken(file));
    order := FillOrder(hash, km);
  }
}
