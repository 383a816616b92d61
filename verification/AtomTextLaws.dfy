/**
 Saving an atomizer and loading the lines again, in any order.
 */
module AtomTextLaws {
  import opened Basics
  import opened CStrings
  import opened Decimal
  import opened AtomText

  /** The line without its newline fits the reader's buffer, and the name holds no newline. */
  predicate Fits(x: Record) {
    x.atom >= 0 && LF !in x.name && |Digits(x.atom)| + 1 + |x.name| <= 999
  }

  predicate Proper(x: Record) {
    0 < x.atom < TWO_32 / 2 && NUL !in x.name
  }

  /** No zero, and a newline at most at the end: what `fgets` reads of a text without zeros. */
  ghost predicate Plain(chunk: string) {
    NUL !in chunk && forall k :: 0 <= k < |chunk| - 1 ==> chunk[k] != LF
  }

  lemma PlainNumber(chunk: string)
    requires NUL !in chunk
    ensures NumberOf(chunk) == StrToL(chunk)
  {
    CStrIs(Filled(chunk), 0, |chunk|);
    assert Filled(chunk)[0..|chunk|] == chunk;
  }

  /** Where the first newline is in the buffer, if no zero comes before the end. */
  lemma NewlineIn(chunk: string, i: nat, e: nat)
    requires NUL !in chunk && i <= |chunk| && e == FirstIn({LF}, chunk, i)
    ensures FirstIn({LF, NUL}, Filled(chunk), i) == e
  {
    FirstInIs({LF, NUL}, Filled(chunk), i, e);
  }

  /** The buffer with its newline at `e` written over. */
  function Closed(chunk: string, e: nat): (c: string)
    requires e <= |chunk|
    ensures |c| == |chunk| + 1
  {
    Filled(chunk)[e := NUL]
  }

  /** The name that begins after `p` in that buffer. */
  lemma NameRead(chunk: string, p: nat, e: nat)
    requires Plain(chunk) && p <= e <= |chunk| && (e < |chunk| ==> chunk[e] == LF)
    ensures CStr(Closed(chunk, e), p + 1) == if p < e then chunk[p + 1..e] else ""
  {
    var c := Closed(chunk, e);
    if p < e {
      CStrIs(c, p + 1, e);
      assert c[p + 1..e] == chunk[p + 1..e];
    } else if e < |chunk| {
      CStrIs(c, |chunk|, |chunk|);
    }
  }

  lemma ParseClosed(chunk: string, e: nat)
    requires e == FirstIn({LF, NUL}, Filled(chunk), NumberOf(chunk).end) <= |chunk|
    ensures Parse(chunk) == Record(NumberOf(chunk).value, CStr(Closed(chunk, e), NumberOf(chunk).end + 1))
  {
    hide NumberOf, CStr;
    var b := Filled(chunk);
    assert b[e] == LF || b == b[e := NUL];
  }

  /** In a plain chunk the name runs from one past the number up to the newline. */
  lemma ParsePlain(chunk: string, n: Number, e: nat)
    requires Plain(chunk) && StrToL(chunk) == n && e == FirstIn({LF}, chunk, n.end)
    ensures Parse(chunk) == Record(n.value, if n.end < e then chunk[n.end + 1..e] else "")
  {
    assert NUL !in chunk;
    hide *;
    PlainNumber(chunk);
    NewlineIn(chunk, n.end, e);
    ParseClosed(chunk, e);
    NameRead(chunk, n.end, e);
  }

  /** A text of a number, a tab, a name, and possibly a newline parses as the record. */
  lemma ParseRecord(x: Record, tail: string)
    requires Proper(x) && Fits(x) && (tail == [] || tail == [LF])
    ensures var chunk := Digits(x.atom) + [TAB] + x.name + tail;
      Parse(chunk) == x && NumberOf(chunk).end < |chunk|
  {
    var d := Digits(x.atom);
    var chunk := d + [TAB] + x.name + tail;
    var e := |d| + 1 + |x.name|;
    assert StrToL(chunk) == Number(x.atom, |d|) by {
      var t := [TAB] + x.name + tail;
      assert chunk == d + t;
      StrToLReads(x.atom, t);
    }
    assert FirstIn({LF}, chunk, |d|) == e by {
      NameEnds(d, x.name, tail);
    }
    assert Plain(chunk) by {
      RecordPlain(x, tail);
    }
    assert NUL !in chunk;
    hide *;
    PlainNumber(chunk);
    ParsePlain(chunk, Number(x.atom, |d|), e);
    assert chunk[|d| + 1..e] == x.name;
  }

  lemma RecordPlain(x: Record, tail: string)
    requires Proper(x) && Fits(x) && (tail == [] || tail == [LF])
    ensures Plain(Digits(x.atom) + [TAB] + x.name + tail)
  {
    DigitsValue(x.atom);
    hide Digits, Value;
  }

  lemma NameEnds(d: string, name: string, tail: string)
    requires LF !in name && (tail == [] || tail == [LF])
    ensures FirstIn({LF}, d + [TAB] + name + tail, |d|) == |d| + 1 + |name|
  {
    var chunk := d + [TAB] + name + tail;
    var e := |d| + 1 + |name|;
    assert forall k :: |d| < k < e ==> chunk[k] == name[k - |d| - 1];
    FirstInIs({LF}, chunk, |d|, e);
  }

  /** No newline in a number, a tab and a name without newline. */
  lemma BodyHasNoNewline(x: Record)
    requires x.atom >= 0 && LF !in x.name
    ensures LF !in Digits(x.atom) + [TAB] + x.name
  {
    DigitsValue(x.atom);
  }

  /** How much of a text that begins with a line is read at once. */
  lemma LineChunk(body: string, rest: string)
    requires LF !in body && |body| <= 999
    ensures var t := body + [LF] + rest;
      ChunkLength(t) == if |body| <= 998 then |body| + 1 else 999
  {
    var t := body + [LF] + rest;
    var m := if |t| < 999 then |t| else 999;
    var e := if |body| <= 998 then |body| else 999;
    assert forall k :: 0 <= k < e ==> t[..m][k] == body[k];
    FirstInIs({LF}, t[..m], 0, e);
  }

  /** One chunk and the rest of a text. */
  lemma TakenStep(t: string, n: nat, chunk: string, rest: string)
    requires t != [] && n == ChunkLength(t) && chunk == t[..n] && rest == t[n..]
    ensures Taken(t) == if Accepted(Parse(chunk)) then [Parse(chunk)] + Taken(rest) else Taken(rest)
    ensures Readable(t) <==> Bounded(chunk) && Readable(rest)
  {
    hide Parse, Bounded, Accepted;
  }

  /** A lone newline is no record. */
  lemma NewlineChunk(rest: string)
    ensures var t := [LF] + rest; Taken(t) == Taken(rest) && (Readable(t) <==> Readable(rest))
  {
    var t := [LF] + rest;
    LineChunk([], rest);
    assert [] + [LF] + rest == t;
    assert t[..1] == [LF] && t[1..] == rest;
    NewlineNumber();
    hide StrToL, NumberOf, ChunkLength, FirstIn, Taken, Readable;
    TakenStep(t, 1, [LF], rest);
  }

  lemma NewlineNumber()
    ensures NumberOf([LF]) == Number(0, 0)
  {
    FirstNotInIs(SPACES, [LF], 0, 1);
    assert StrToL([LF]) == Number(0, 0);
    PlainNumber([LF]);
  }

  /** A chunk with a proper record is taken as that record. */
  lemma RecordTaken(x: Record, tail: string)
    requires Proper(x) && Fits(x) && (tail == [] || tail == [LF])
    ensures var chunk := Digits(x.atom) + [TAB] + x.name + tail; Parse(chunk) == x && Accepted(x) && Bounded(chunk)
  {
    hide Parse, NumberOf, Digits;
    ParseRecord(x, tail);
  }

  /** The parts of a text that begins with a line. */
  lemma LineFront(body: string, rest: string)
    ensures var t, n := body + [LF] + rest, |body|;
      && t != [] && t[..n + 1] == body + [LF] && t[n + 1..] == rest
      && t[..n] == body && t[n..] == [LF] + rest
  {
  }

  /** A line that leaves room for its newline is read at once. */
  lemma ShortLineTaken(x: Record, body: string, rest: string)
    requires Proper(x) && Fits(x) && body == Digits(x.atom) + [TAB] + x.name && |body| <= 998 && LF !in body
    ensures var t := body + [LF] + rest; Taken(t) == [x] + Taken(rest) && (Readable(t) <==> Readable(rest))
  {
    hide *;
    LineChunk(body, rest);
    LineFront(body, rest);
    RecordTaken(x, [LF]);
    TakenStep(body + [LF] + rest, |body| + 1, body + [LF], rest);
  }

  /** A line of 999 characters is read without its newline, which is then read alone. */
  lemma LongLineTaken(x: Record, body: string, rest: string)
    requires Proper(x) && Fits(x) && body == Digits(x.atom) + [TAB] + x.name && |body| == 999 && LF !in body
    ensures var t := body + [LF] + rest; Taken(t) == [x] + Taken(rest) && (Readable(t) <==> Readable(rest))
  {
    hide *;
    LineChunk(body, rest);
    LineFront(body, rest);
    assert body + [] == body;
    RecordTaken(x, []);
    TakenStep(body + [LF] + rest, 999, body, [LF] + rest);
    NewlineChunk(rest);
  }

  /** A line that fits is read as its record, whatever follows. */
  lemma LineTaken(x: Record, rest: string)
    requires Proper(x) && Fits(x)
    ensures Taken(Line(x) + rest) == [x] + Taken(rest)
    ensures Readable(Line(x) + rest) <==> Readable(rest)
  {
    var body := Digits(x.atom) + [TAB] + x.name;
    assert Line(x) == body + [LF];
    assert |body| <= 999 && LF !in x.name && x.atom >= 0;
    hide *;
    BodyHasNoNewline(x);
    if |body| <= 998 {
      ShortLineTaken(x, body, rest);
    } else {
      LongLineTaken(x, body, rest);
    }
  }

  lemma {:induction false} LinesTaken(recs: seq<Record>)
    requires forall i :: 0 <= i < |recs| ==> recs[i].atom >= 0 && Proper(recs[i]) && Fits(recs[i])
    ensures Taken(Lines(recs)) == recs && Readable(Lines(recs))
  {
    hide Taken, Readable, Line, Proper, Fits;
    if recs == [] {
      EmptyTaken();
    } else {
      LinesTaken(recs[1..]);
      LineTaken(recs[0], Lines(recs[1..]));
    }
  }

  lemma EmptyTaken()
    ensures Taken("") == [] && Readable("")
  {
  }

  /** The lines of the atoms `1, 2, ...` with these names, in some order. */
  ghost predicate Shuffled(names: seq<string>, recs: seq<Record>) {
    && (forall i :: 0 <= i < |names| ==> Record(i + 1, names[i]) in recs)
    && (forall k :: 0 <= k < |recs| ==> 0 < recs[k].atom <= |names| && recs[k].name == names[recs[k].atom - 1])
  }

  /** The names of an atomizer: distinct C strings, fewer than a signed 32-bit number can count. */
  ghost predicate Names(names: seq<string>) {
    && 0 < |names| < TWO_32 / 2 && (forall i :: 0 <= i < |names| ==> NUL !in names[i])
    && (forall i, j :: 0 <= i < j < |names| ==> names[i] != names[j])
  }

  ghost predicate AllFit(names: seq<string>) {
    forall i :: 0 <= i < |names| ==> Fits(Record(i + 1, names[i]))
  }

  /** The full order vector with these names. */
  function Order(names: seq<string>): (order: seq<Option<string>>)
    ensures |order| == |names|
  {
    seq(|names|, i requires 0 <= i < |names| => Some(names[i]))
  }

  /** An order vector that loading a file may produce. */
  ghost predicate Outcome(file: string, order: seq<Option<string>>) {
    |order| == Greatest(Taken(file)) && FilledFrom(Entered(Taken(file)), order)
  }

  /** Every entry of the hash comes from a record. */
  lemma {:induction false} EnteredFrom(recs: seq<Record>, name: string)
    requires name in Entered(recs)
    ensures exists k :: 0 <= k < |recs| && recs[k].name == name && Entered(recs)[name] == recs[k].atom % TWO_32
  {
    var m := |recs| - 1;
    if name in Entered(recs[..m]) {
      EnteredFrom(recs[..m], name);
      var k :| 0 <= k < m && recs[..m][k].name == name && Entered(recs[..m])[name] == recs[..m][k].atom % TWO_32;
      assert recs[k].name == name;
    } else {
      assert recs[m].name == name;
    }
  }

  /** Every record's name is in the hash. */
  lemma {:induction false} EnteredAll(recs: seq<Record>, k: nat)
    requires k < |recs|
    ensures recs[k].name in Entered(recs)
  {
    if k < |recs| - 1 {
      EnteredAll(recs[..|recs| - 1], k);
    }
  }

  lemma {:induction false} GreatestIs(recs: seq<Record>, n: nat)
    requires forall k :: 0 <= k < |recs| ==> 0 < recs[k].atom <= n
    ensures Greatest(recs) <= n
    ensures forall k :: 0 <= k < |recs| ==> recs[k].atom <= Greatest(recs)
  {
    if recs != [] {
      GreatestIs(recs[..|recs| - 1], n);
    }
  }

  /** The hash holds exactly these names, numbered from 1. */
  ghost predicate Numbers(names: seq<string>, hash: map<string, nat>) {
    && (forall i :: 0 <= i < |names| ==> names[i] in hash && hash[names[i]] == i + 1)
    && (forall name :: name in hash ==> 0 < hash[name] <= |names| && name == names[hash[name] - 1])
  }

  lemma SlotIs(i: nat)
    requires i < TWO_32
    ensures Slot(i + 1) == i
  {
  }

  /** A hash that numbers the names can only fill the order vector with them. */
  lemma OrderIs(names: seq<string>, hash: map<string, nat>, order: seq<Option<string>>)
    requires |names| < TWO_32 && Numbers(names, hash) && |order| == |names|
    ensures FilledFrom(hash, order) <==> order == Order(names)
  {
    hide Slot;
    forall name | name in hash
      ensures Slot(hash[name]) == hash[name] - 1
    {
      SlotIs(hash[name] - 1);
    }
    if FilledFrom(hash, order) {
      forall i | 0 <= i < |names|
        ensures order[i] == Some(names[i])
      {
        assert order[Slot(hash[names[i]])].Some?;
      }
    }
  }

  /** A name of the hash has the number of its record. */
  lemma ShuffledEntry(names: seq<string>, recs: seq<Record>, name: string)
    requires Names(names) && Shuffled(names, recs) && name in Entered(recs)
    ensures var a := Entered(recs)[name]; 0 < a <= |names| && name == names[a - 1]
  {
    hide Entered;
    EnteredFrom(recs, name);
    var k :| 0 <= k < |recs| && recs[k].name == name && Entered(recs)[name] == recs[k].atom % TWO_32;
    assert recs[k].atom % TWO_32 == recs[k].atom;
  }

  lemma ShuffledIn(names: seq<string>, recs: seq<Record>, i: nat)
    requires Names(names) && Shuffled(names, recs) && i < |names|
    ensures names[i] in Entered(recs) && Entered(recs)[names[i]] == i + 1
  {
    hide Entered;
    assert Record(i + 1, names[i]) in recs;
    var k :| 0 <= k < |recs| && recs[k] == Record(i + 1, names[i]);
    EnteredAll(recs, k);
    ShuffledEntry(names, recs, names[i]);
  }

  lemma ShuffledGreatest(names: seq<string>, recs: seq<Record>)
    requires Names(names) && Shuffled(names, recs)
    ensures Greatest(recs) == |names|
  {
    hide Greatest;
    GreatestIs(recs, |names|);
    assert Record(|names|, names[|names| - 1]) in recs;
  }

  /** The hash of shuffled records numbers the names as they were, and the greatest atom is their count. */
  lemma ShuffledHash(names: seq<string>, recs: seq<Record>)
    requires Names(names) && Shuffled(names, recs)
    ensures Greatest(recs) == |names|
    ensures Numbers(names, Entered(recs))
  {
    hide Entered, Greatest, Names, Shuffled;
    ShuffledGreatest(names, recs);
    forall name | name in Entered(recs)
      ensures var a := Entered(recs)[name]; 0 < a <= |names| && name == names[a - 1]
    {
      ShuffledEntry(names, recs, name);
    }
    forall i | 0 <= i < |names|
      ensures names[i] in Entered(recs) && Entered(recs)[names[i]] == i + 1
    {
      ShuffledIn(names, recs, i);
    }
  }

  lemma ShuffledProper(names: seq<string>, recs: seq<Record>)
    requires Names(names) && Shuffled(names, recs)
    ensures forall k :: 0 <= k < |recs| ==> recs[k].atom >= 0 && Proper(recs[k])
    ensures AllFit(names) ==> forall k :: 0 <= k < |recs| ==> Fits(recs[k])
  {
    hide Fits;
    forall k | 0 <= k < |recs|
      ensures Proper(recs[k]) && (AllFit(names) ==> Fits(recs[k]))
    {
      assert recs[k] == Record((recs[k].atom - 1) + 1, names[recs[k].atom - 1]);
    }
  }

  /**
   Names that fit: the saved lines, loaded in any order, give back the numbering, and nothing else
   can come out.
   */
  lemma LoadRestores(names: seq<string>, recs: seq<Record>)
    requires Names(names) && Shuffled(names, recs) && AllFit(names)
    requires forall k :: 0 <= k < |recs| ==> recs[k].atom >= 0
    ensures var file := Lines(recs);
      && Readable(file) && Outcome(file, Order(names))
      && (forall order: seq<Option<string>> :: Outcome(file, order) ==> order == Order(names))
      && Numbers(names, Entered(Taken(file)))
  {
    ShuffledProper(names, recs);
    LinesTaken(recs);
    ShuffledHash(names, recs);
    hide Taken, Readable, Entered, Greatest, Lines, Fits, Shuffled, Numbers, FilledFrom, Order, AllFit;
    var file := Lines(recs);
    OrderIs(names, Entered(recs), Order(names));
    forall order: seq<Option<string>> | Outcome(file, order)
      ensures order == Order(names)
    {
      OrderIs(names, Entered(recs), order);
    }
  }

  /** A record that was taken holds no newline and its line fits the buffer. */
  lemma ParseFits(chunk: string)
    requires Plain(chunk) && |chunk| <= 999 && Accepted(Parse(chunk)) && Bounded(chunk)
    ensures Fits(Parse(chunk))
  {
    hide StrToL, NumberOf, Parse, Digits, FirstIn;
    var n := StrToL(chunk);
    var e := FirstIn({LF}, chunk, n.end);
    PlainNumber(chunk);
    hide Plain;
    ParsePlain(chunk, n, e);
    StrToLPositive(chunk);
    NoNewline(chunk, n.end, e);
  }

  lemma NoNewline(chunk: string, i: nat, e: nat)
    requires i <= |chunk| && e == FirstIn({LF}, chunk, i)
    ensures i < e ==> LF !in chunk[i + 1..e]
  {
  }

  lemma ChunkPlain(t: string)
    requires NUL !in t
    ensures Plain(t[..ChunkLength(t)])
  {
  }

  lemma {:induction false} TakenFits(t: string)
    requires NUL !in t && Readable(t)
    ensures forall k :: 0 <= k < |Taken(t)| ==> Fits(Taken(t)[k])
    decreases |t|
  {
    hide ChunkLength, Parse, Fits, Bounded, Plain;
    if t != [] {
      var n := ChunkLength(t);
      TakenFits(t[n..]);
      if Accepted(Parse(t[..n])) {
        ChunkPlain(t);
        ParseFits(t[..n]);
      }
    }
  }

  /** A smaller atom with the same name fits as well. */
  lemma FitsSmaller(x: Record, a: nat)
    requires Fits(x) && a <= x.atom
    ensures Fits(Record(a, x.name))
  {
    DigitsMonotone(a, x.atom);
  }

  lemma SlotBelow(atom: int, i: nat)
    requires atom > 0 && Slot(atom % TWO_32) == i
    ensures i + 1 <= atom
  {
  }

  /** What was loaded always fits. */
  lemma OutcomeFits(file: string, names: seq<string>)
    requires NUL !in file && Readable(file) && Outcome(file, Order(names))
    ensures AllFit(names)
  {
    var recs := Taken(file);
    TakenFits(file);
    TakenAccepted(file);
    hide Taken, Readable, Entered, Greatest, Fits, Slot;
    forall i | 0 <= i < |names|
      ensures Fits(Record(i + 1, names[i]))
    {
      assert Order(names)[i] == Some(names[i]);
      SlotFits(recs, names[i], i);
    }
  }

  lemma SlotFits(recs: seq<Record>, name: string, i: nat)
    requires forall k :: 0 <= k < |recs| ==> Accepted(recs[k]) && Fits(recs[k])
    requires name in Entered(recs) && Slot(Entered(recs)[name]) == i
    ensures Fits(Record(i + 1, name))
  {
    hide Entered, Fits, Slot;
    EnteredFrom(recs, name);
    var k :| 0 <= k < |recs| && recs[k].name == name && Entered(recs)[name] == recs[k].atom % TWO_32;
    SlotBelow(recs[k].atom, i);
    FitsSmaller(recs[k], i + 1);
  }

  lemma {:induction false} LinesPlain(recs: seq<Record>)
    requires forall i :: 0 <= i < |recs| ==> recs[i].atom >= 0 && NUL !in recs[i].name
    ensures NUL !in Lines(recs)
  {
    if recs != [] {
      DigitsValue(recs[0].atom);
      hide Digits;
      LinesPlain(recs[1..]);
    }
  }

  /**
   Saving and loading in any order gives the numbering back exactly when no name holds a newline and
   every line, without its newline, is at most 999 characters long.
   */
  lemma SaveLoadIff(names: seq<string>, recs: seq<Record>)
    requires Names(names) && Shuffled(names, recs) && forall k :: 0 <= k < |recs| ==> recs[k].atom >= 0
    ensures AllFit(names) <==> Readable(Lines(recs)) && Outcome(Lines(recs), Order(names))
  {
    assert forall k :: 0 <= k < |recs| ==> NUL !in recs[k].name;
    LinesPlain(recs);
    hide Names, Shuffled, Readable, Outcome, AllFit;
    if AllFit(names) {
      LoadRestores(names, recs);
    }
    if Readable(Lines(recs)) && Outcome(Lines(recs), Order(names)) {
      OutcomeFits(Lines(recs), names);
    }
  }

  lemma RecordsUnfold(names: seq<string>, i: nat)
    requires i < |names|
    ensures Records(Order(names), i) == [Record(i + 1, names[i])] + Records(Order(names), i + 1)
  {
  }

  lemma {:induction false} SavedIn(names: seq<string>, i: nat, k: nat)
    requires i <= k < |names|
    ensures Record(k + 1, names[k]) in Records(Order(names), i)
    decreases k - i
  {
    hide *;
    RecordsUnfold(names, i);
    if i < k {
      SavedIn(names, i + 1, k);
    }
  }

  lemma {:induction false} SavedFrom(names: seq<string>, i: nat, x: Record)
    requires i <= |names| && x in Records(Order(names), i)
    ensures i < x.atom <= |names| && x.name == names[x.atom - 1]
    decreases |names| - i
  {
    if i < |names| {
      RecordsUnfold(names, i);
      if x != Record(i + 1, names[i]) {
        SavedFrom(names, i + 1, x);
      }
    }
  }

  /** The lines `SaveC2N` writes are such a list, in the order of the atoms. */
  lemma SavedShuffled(names: seq<string>)
    ensures Shuffled(names, Records(Order(names), 0))
  {
    var recs := Records(Order(names), 0);
    hide Records, Order;
    forall i | 0 <= i < |names|
      ensures Record(i + 1, names[i]) in recs
    {
      SavedIn(names, 0, i);
    }
    forall k | 0 <= k < |recs|
      ensures 0 < recs[k].atom <= |names| && recs[k].name == names[recs[k].atom - 1]
    {
      SavedFrom(names, 0, recs[k]);
    }
  }

  /** So the round trip of `SaveC2N` and `LoadC2N` has the same exact condition. */
  lemma SaveThenLoad(names: seq<string>)
    requires Names(names)
    ensures var file := Lines(Records(Order(names), 0));
      AllFit(names) <==> Readable(file) && Outcome(file, Order(names))
  {
    hide *;
    SavedShuffled(names);
    SaveLoadIff(names, Records(Order(names), 0));
  }

  /** A line: the number up to the first tab, then the name up to the newline at the end. */
  lemma LineIs(x: Record)
    requires x.atom >= 0
    ensures var t := Line(x);
      var i := FirstIn({'\t'}, t, 0);
      && i < |t| && AllDigits(t[..i]) && Value(t[..i]) == x.atom
      && t[i + 1..] == x.name + ['\n']
  {
    var t, d := Line(x), Digits(x.atom);
    DigitsValue(x.atom);
    assert forall k :: 0 <= k < |d| ==> t[k] == d[k];
    FirstInIs({'\t'}, t, 0, |d|);
    hide FirstIn, Digits;
    assert t[..|d|] == d && t[|d| + 1..] == x.name + ['\n'];
  }

  /** A record of the order vector is that of an atom with a name. */
  lemma {:induction false} RecordsAre(order: seq<Option<string>>, i: nat, k: nat)
    requires i <= |order| && k < |Records(order, i)|
    ensures var x := Records(order, i)[k]; i < x.atom <= |order| && order[x.atom - 1] == Some(x.name)
    decreases |order| - i
  {
    if order[i].None? {
      RecordsAre(order, i + 1, k);
    } else if k > 0 {
      RecordsAre(order, i + 1, k - 1);
    }
  }

  /** The records come in the order of the atoms. */
  lemma {:induction false} RecordsIncrease(order: seq<Option<string>>, i: nat, j: nat, k: nat)
    requires i <= |order| && j < k < |Records(order, i)|
    ensures Records(order, i)[j].atom < Records(order, i)[k].atom
    decreases |order| - i
  {
    if order[i].None? {
      RecordsIncrease(order, i + 1, j, k);
    } else if j > 0 {
      RecordsIncrease(order, i + 1, j - 1, k - 1);
    } else {
      RecordsAre(order, i + 1, k - 1);
    }
  }

  lemma {:induction false} RecordsAll(order: seq<Option<string>>, i: nat, a: nat)
    requires i <= a < |order| && order[a].Some?
    ensures Record(a + 1, order[a].value) in Records(order, i)
    decreases |order| - i
  {
    if i < a {
      RecordsAll(order, i + 1, a);
    }
  }

  /** What `fgets` reads: up to the first newline, that included, up to 999 characters, or all. */
  lemma ChunkIs(t: string, n: nat)
    ensures n == ChunkLength(t) <==>
      && n <= |t| && n <= 999 && (forall k :: 0 <= k < n - 1 ==> t[k] != LF)
      && (n == |t| || n == 999 || (n > 0 && t[n - 1] == LF))
  {
    var m := if |t| < 999 then |t| else 999;
    var e := FirstIn({LF}, t[..m], 0);
    assert forall k :: 0 <= k < m ==> t[..m][k] == t[k];
    hide FirstIn;
  }

  /** The C string that a buffer begins with. */
  lemma FrontText(text: string, rest: string)
    requires NUL !in text
    ensures CStr(Filled(text + [NUL] + rest), 0) == text
  {
    var b := Filled(text + [NUL] + rest);
    assert forall k :: 0 <= k < |text| ==> b[k] == text[k];
    CStrIs(b, 0, |text|);
    hide CStr;
    assert b[0..|text|] == text;
  }

  /** A zero right after the number is skipped like any other character, and no newline is looked for. */
  lemma ParseAfterZero(atom: nat, name: string)
    requires atom < LONG_MAX && NUL !in name
    ensures Parse(Digits(atom) + [NUL] + name) == Record(atom, name)
  {
    var d := Digits(atom);
    var chunk, n := d + [NUL] + name, |d|;
    assert NumberOf(chunk) == Number(atom, n) by {
      DigitsValue(atom);
      FrontText(d, name);
      assert [] + [] + d + [] == d;
      StrToLIs([], [], d, []);
    }
    hide Digits, NumberOf, Parse, CStr;
    SkippedText(d, name);
    ParseClosed(chunk, n);
  }

  lemma SkippedText(d: string, name: string)
    requires NUL !in name
    ensures var chunk, n := d + [NUL] + name, |d|;
      FirstIn({LF, NUL}, Filled(chunk), n) == n && CStr(Closed(chunk, n), n + 1) == name
  {
    var chunk, n := d + [NUL] + name, |d|;
    var b := Filled(chunk);
    assert b[n] == NUL && b[|chunk|] == NUL && forall k :: n < k < |chunk| ==> b[k] == name[k - n - 1];
    assert Closed(chunk, n) == b;
    hide Closed, Filled;
    FirstInIs({LF, NUL}, b, n, n);
    CStrIs(b, n + 1, |chunk|);
    hide FirstIn, CStr;
    assert b[n + 1..|chunk|] == name;
  }

  /** A zero after the name ends it, and hides a newline behind it. */
  lemma ParseBeforeZero(x: Record, rest: string)
    requires Proper(x) && LF !in x.name
    ensures Parse(Digits(x.atom) + [TAB] + x.name + [NUL] + rest) == x
  {
    var d := Digits(x.atom);
    var body := d + [TAB] + x.name;
    var chunk, e, n := body + [NUL] + rest, |body|, |d|;
    assert NUL !in body && LF !in body by {
      DigitsValue(x.atom);
    }
    assert NumberOf(chunk) == Number(x.atom, n) by {
      FrontText(body, rest);
      assert d + ([TAB] + x.name) == body;
      StrToLReads(x.atom, [TAB] + x.name);
    }
    hide Digits, NumberOf, Parse, CStr;
    ClosedText(body, rest, n);
    ParseClosed(chunk, e);
    assert body[n + 1..] == x.name;
  }

  lemma ClosedText(body: string, rest: string, n: nat)
    requires NUL !in body && LF !in body && n < |body|
    ensures var chunk, e := body + [NUL] + rest, |body|;
      FirstIn({LF, NUL}, Filled(chunk), n) == e && CStr(Closed(chunk, e), n + 1) == body[n + 1..]
  {
    var chunk, e := body + [NUL] + rest, |body|;
    var b := Filled(chunk);
    assert forall k :: 0 <= k < e ==> b[k] == body[k];
    assert Closed(chunk, e) == b && b[e] == NUL;
    hide Closed, Filled;
    FirstInIs({LF, NUL}, b, n, e);
    CStrIs(b, n + 1, e);
    hide FirstIn, CStr;
    assert b[n + 1..e] == body[n + 1..];
  }

  /** A number is taken exactly if it is positive and less than the largest `long`. */
  lemma AcceptedIff(sign: string, digits: string, t: string)
    requires sign == [] || sign == ['+'] || sign == ['-']
    requires digits != [] && AllDigits(digits) && (t == [] || !IsDigit(t[0])) && NUL !in t
    ensures Accepted(Parse(sign + digits + t)) <==> sign != ['-'] && 0 < Value(digits) < LONG_MAX
  {
    hide StrToL, NumberOf, Value, Parse, Filled;
    var chunk := sign + digits + t;
    assert [] + sign + digits + t == chunk;
    StrToLIs([], sign, digits, t);
    assert forall k :: 0 <= k < |digits| ==> digits[k] != NUL;
    hide AllDigits, IsDigit;
    PlainNumber(chunk);
    ParsedAtom(chunk);
  }

  lemma ParsedAtom(chunk: string)
    ensures Parse(chunk).atom == NumberOf(chunk).value
  {
    hide NumberOf, FirstIn, CStr;
  }

  /** A name keeps the number of the first record that has it. */
  lemma {:induction false} EnteredFirst(recs: seq<Record>, k: nat)
    requires k < |recs| && forall j :: 0 <= j < k ==> recs[j].name != recs[k].name
    ensures recs[k].name in Entered(recs) && Entered(recs)[recs[k].name] == recs[k].atom % TWO_32
  {
    var m := |recs| - 1;
    if k < m {
      EnteredFirst(recs[..m], k);
    } else if recs[k].name in Entered(recs[..m]) {
      EnteredFrom(recs[..m], recs[k].name);
      assert false;
    }
  }

  /** The greatest atom is one of them, or zero if there is none. */
  lemma {:induction false} GreatestIn(recs: seq<Record>)
    ensures forall k :: 0 <= k < |recs| ==> recs[k].atom <= Greatest(recs)
    ensures Greatest(recs) == 0 || exists k :: 0 <= k < |recs| && recs[k].atom == Greatest(recs)
  {
    if recs != [] {
      var m := |recs| - 1;
      GreatestIn(recs[..m]);
      if recs[m].atom > Greatest(recs[..m]) {
        assert recs[m].atom == Greatest(recs);
      } else if Greatest(recs) > 0 {
        var k :| 0 <= k < m && recs[..m][k].atom == Greatest(recs[..m]);
        assert recs[k].atom == Greatest(recs);
      }
    }
  }

  /** Atom 1 has the first slot, and atom 0 the last one of 32 bits. */
  lemma SlotWraps(atom: nat)
    requires atom < TWO_32
    ensures Slot(atom) == if atom == 0 then TWO_32 - 1 else atom - 1
  {
  }
}
