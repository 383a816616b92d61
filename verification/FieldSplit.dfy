/**
 The `sf` overloads that split a line at a tab or at a separator string and stop at a newline.

 The pointers go to `fb`, a zero is written over each separator, and the caller says how many
 pointers `fb` can take.
 */
module FieldSplit {
  import opened Basics
  import opened CStrings
  import opened Separators
  import opened LineSplitters

  /** The `(int)` conversion of an unsigned value. */
  function Int32(x: nat): int {
    var y := x % TWO_32;
    if y < TWO_32 / 2 then y else y - TWO_32
  }

  lemma Int32AtMost(x: nat)
    ensures Int32(x) <= x && (x < TWO_32 / 2 ==> Int32(x) == x)
  {
  }

  /** It is the one number of 32 bits that differs from the value by a multiple of 2^32. */
  lemma Int32Is(x: nat, y: int)
    requires -0x8000_0000 <= y < 0x8000_0000
    ensures Int32(x) == y <==> (x - y) % TWO_32 == 0
    ensures -0x8000_0000 <= Int32(x) < 0x8000_0000
  {
  }

  /** `fb_sz--` followed by `(int)fb_sz`: the bound the scanning loops compare with. */
  function Limit(fbSize: nat): int {
    Int32((fbSize + TWO_64 - 1) % TWO_64)
  }

  lemma LimitIs(fbSize: nat)
    requires fbSize < TWO_64
    ensures Limit(fbSize) < fbSize || (fbSize == 0 && Limit(fbSize) == -1)
    ensures 1 <= fbSize <= TWO_32 / 2 ==> Limit(fbSize) == fbSize - 1
  {
  }

  /** The bound in 32 bits, also where the size is zero and wraps around. */
  lemma LimitWraps(fbSize: nat)
    requires fbSize < TWO_64
    ensures (fbSize - 1 - Limit(fbSize)) % TWO_32 == 0 && -0x8000_0000 <= Limit(fbSize) < 0x8000_0000
  {
    var n := (fbSize + TWO_64 - 1) % TWO_64;
    assert n == if fbSize == 0 then TWO_64 - 1 else fbSize - 1;
    Int32Is(n, Int32(n));
  }

  /** How many of the fields `r` are reported. */
  function Count(r: seq<Span>, limit: int): (n: nat) {
    if limit <= 1 then 1 else if |r| <= limit then |r| else limit
  }

  /** Where the scan stops: at the end of the line, or at the field that used up the limit. */
  function StopAt(r: seq<Span>, limit: int): nat
    requires r != []
  {
    var n := Count(r, limit);
    if n < limit then r[|r| - 1].hi else r[n - 1].lo
  }

  /** The last writes: a carriage return before the newline and the stop position become zero. */
  function Terminate(c: string, e: nat): string
    requires e < |c|
  {
    (if e > 0 && c[e] == LF && c[e - 1] == CR then c[e - 1 := NUL] else c)[e := NUL]
  }

  /** Counting the fields when the scan stops. */
  lemma FinalCount(done: seq<Span>, rest: seq<Span>, cur: nat, n: nat, p: nat, limit: int)
    requires rest != [] && rest[0].lo == cur
    requires n == |done| + 1 && (n == 1 || n <= limit)
    requires if n < limit then rest == [Span(cur, p)] else p == cur
    ensures var r := done + rest;
      && n == Count(r, limit) && p == StopAt(r, limit)
      && r[..n - 1] == done && Starts(r[..n]) == Starts(done) + [cur]
  {
    var r := done + rest;
    assert r[n - 1] == rest[0];
    assert r[..n] == done + [rest[0]];
  }

  /** `fb` with the given pointers at its front. */
  function Filled(fb: seq<Ptr>, starts: seq<nat>): (r: seq<Ptr>)
    requires |starts| <= |fb|
    ensures |r| == |fb|
  {
    seq(|starts|, i requires 0 <= i < |starts| => At(starts[i])) + fb[|starts|..]
  }

  lemma FilledMore(fb: seq<Ptr>, done: seq<Span>, x: Span)
    requires |done| < |fb|
    ensures Starts(done + [x]) == Starts(done) + [x.lo]
    ensures Filled(fb, Starts(done + [x])) == Filled(fb, Starts(done))[|done| := At(x.lo)]
  {
    assert Starts(done + [x]) == Starts(done) + [x.lo];
  }

  /**
   What splitting the line in `b` into the fields `r` leaves: `n` pointers followed by a null pointer
   in `fb`, and a zero after each field and at the stop position.
   */
  ghost predicate Leaves(b: string, r: seq<Span>, limit: int, fb: seq<Ptr>, n: nat, fb': seq<Ptr>, c: string)
    requires b != [] && r != [] && Ordered(r, |b| - 1)
  {
    && n == Count(r, limit) && n < |fb|
    && fb' == Filled(fb, Starts(r[..n]))[n := Null]
    && c == Terminate(Cut(b, r[..n - 1]), StopAt(r, limit))
  }

  /** What a call is given: separator, buffer contents, limit, and the contents of `fb`. */
  datatype Call = Call(d: Separator, b: string, limit: int, fb: seq<Ptr>) {

    ghost predicate Proper() {
      NUL in b && limit < |fb| && 1 < |fb|
    }

    ghost function Fields(): (r: seq<Span>)
      requires Proper()
      ensures r != [] && Ordered(r, |CStr(b, 0)|) && Ordered(r, |b| - 1)
    {
      SpansOrdered(d, {LF}, CStr(b, 0), 0);
      Spans(d, {LF}, CStr(b, 0), 0)
    }

    /** What it leaves: `n` fields, their pointers followed by a null pointer, and the cut buffer. */
    ghost predicate Returns(n: nat, fb': seq<Ptr>, c: string)
      requires Proper()
    {
      if b[0] == NUL || b[0] == LF then n == 0 && c == b && fb' == fb[0 := Null]
      else Leaves(b, Fields(), limit, fb, n, fb', c)
    }

    /** The scanning loop's state. */
    ghost predicate Reaches(x: State)
      requires Proper()
    {
      var s := CStr(b, 0);
      && s != "" && s[0] != LF
      && Scanning(d, {LF}, s, x.done, x.cur, x.p) && Untouched(s, x.c, x.p) && IsCut(b, x.done, x.c)
      && x.n == |x.done| + 1 && (x.n == 1 || x.n <= limit) && (x.n >= limit ==> x.p == x.cur)
      && x.n < |fb| && x.fb == Filled(fb, Starts(x.done) + [x.cur])
    }

    lemma Start()
      requires Proper()
      ensures b[0] == NUL || b[0] == LF ==> Returns(0, fb[0 := Null], b)
      ensures b[0] != NUL && b[0] != LF ==> Reaches(State([], 0, 1, 0, fb[0 := At(0)], b))
    {
    }

    /** The loop reads the text itself, and knows its end. */
    lemma Reads(x: State)
      requires Proper() && Reaches(x)
      ensures var s := CStr(b, 0);
        && x.p <= |s| < |b| == |x.c| && x.n < |x.fb| == |fb|
        && (x.c[x.p] == NUL <==> x.p == |s|) && (x.p < |s| ==> x.c[x.p] == s[x.p])
        && (x.c[x.p] == LF ==> x.p > 0)
    {
      hide Scanning, Spans, Cut;
    }

    lemma StepSeparator(x: State)
      requires Proper() && Reaches(x) && x.n < limit && x.n < |x.fb| && x.p < |x.c|
      requires var s := CStr(b, 0); x.p < |s| && s[x.p] != LF && d.Occurs(s, x.p)
      ensures var q := x.p + d.Length();
        && x.p < q <= |CStr(b, 0)| && x.n + 1 < |fb|
        && Reaches(State(x.done + [Span(x.cur, x.p)], q, x.n + 1, q, x.fb[x.n := At(q)], x.c[x.p := NUL]))
    {
      hide Scanning, IsCut, CStr, Untouched, Starts, Filled, Separator.Occurs, Separator.Length;
      var s, q := CStr(b, 0), x.p + d.Length();
      ScanSeparator(d, {LF}, s, x.done, x.cur, x.p);
      CutMore(b, x.done, x.c, Span(x.cur, x.p));
      StillUntouched(s, x.c, x.p, x.p, q);
      FilledMore(fb, x.done, Span(x.cur, x.p));
      FilledMore(fb, x.done + [Span(x.cur, x.p)], Span(q, q));
    }

    lemma StepOther(x: State)
      requires Proper() && Reaches(x) && x.n < limit
      requires var s := CStr(b, 0); x.p < |s| && s[x.p] != LF && !d.Occurs(s, x.p)
      ensures Reaches(x.(p := x.p + 1))
    {
      hide Spans, Cut, IsCut;
    }

    lemma FinalFields(x: State)
      requires Proper() && Reaches(x)
      requires x.p == |CStr(b, 0)| || CStr(b, 0)[x.p] == LF || x.n >= limit
      ensures var r := Fields();
        && x.n == Count(r, limit) && x.p == StopAt(r, limit)
        && r[..x.n - 1] == x.done && Starts(r[..x.n]) == Starts(x.done) + [x.cur]
    {
      var s := CStr(b, 0);
      if x.n < limit {
        ScanEnd(d, {LF}, s, x.done, x.cur, x.p);
        SpansClose(d, {LF}, s, x.cur, x.p);
      }
      FinalCount(x.done, Spans(d, {LF}, s, x.cur), x.cur, x.n, x.p, limit);
    }

    lemma Finish(x: State)
      requires Proper() && Reaches(x) && x.n < |x.fb| && x.p < |x.c|
      requires x.p == |CStr(b, 0)| || CStr(b, 0)[x.p] == LF || x.n >= limit
      ensures Returns(x.n, x.fb[x.n := Null], Terminate(x.c, x.p))
    {
      FinalFields(x);
      hide Spans, Cut, Fields, Scanning, Count, StopAt, Terminate;
    }
  }

  /** Where a loop is: fields closed, start of the open field, pointers stored, position, `fb`, buffer. */
  datatype State = State(done: seq<Span>, cur: nat, n: nat, p: nat, fb: seq<Ptr>, c: string)

  /** The comparison with the separator string at a position. */
  predicate Matches(fs: string, c: string, p: nat) {
    p < |c| && fs != [] && c[p] == fs[0] && Stands(fs[1..], c, p + 1)
  }

  lemma MatchesOccurs(k: Call, x: State, fs: string)
    requires k.Proper() && k.Reaches(x) && NUL !in fs && x.p < |CStr(k.b, 0)|
    ensures Matches(fs, x.c, x.p) <==> Exact(fs).Occurs(CStr(k.b, 0), x.p)
    ensures fs == [TAB] ==> (x.c[x.p] == TAB <==> Exact(fs).Occurs(CStr(k.b, 0), x.p))
  {
    hide Scanning, Cut;
    StandsFrame(fs, x.c, CStr(k.b, 0), x.p);
  }

  /** `sf(fs, fb, buf, fb_sz)`: fields of a line separated by a string. */
  method SplitByString(fs: string, fb: array<Ptr>, buf: array<char>, fbSize: nat) returns (n: nat)
    requires NUL !in fs && NUL in buf[..] && fbSize < fb.Length && 2 <= fb.Length && fbSize < TWO_64
    modifies fb, buf
    ensures Call(Exact(fs), old(buf[..]), Limit(fbSize), old(fb[..])).Returns(n, fb[..], buf[..])
  {
    hide Call.Reaches, Call.Returns, Call.Fields, CStr, Separator.Occurs, Matches, Limit;
    LimitIs(fbSize);
    var limit := Limit(fbSize);
    ghost var k := Call(Exact(fs), buf[..], limit, fb[..]);
    k.Start();
    if buf[0] == NUL || buf[0] == LF {
      fb[0] := Null;
      return 0;
    }
    n := 1;
    fb[0] := At(0);
    var p: nat := 0;
    ghost var cur: nat, done: seq<Span> := 0, [];
    while buf[p] != NUL && buf[p] != LF && n < limit
      invariant p < buf.Length && n < fb.Length
      invariant k.Reaches(State(done, cur, n, p, fb[..], buf[..]))
      decreases buf.Length - p
    {
      ghost var x := State(done, cur, n, p, fb[..], buf[..]);
      k.Reads(x);
      MatchesOccurs(k, x, fs);
      if Matches(fs, buf[..], p) {
        k.StepSeparator(x);
        buf[p] := NUL;
        done := done + [Span(cur, p)];
        p := p + |fs|;
        cur := p;
        fb[n] := At(p);
        n := n + 1;
      } else {
        k.StepOther(x);
        p := p + 1;
      }
    }
    ghost var x := State(done, cur, n, p, fb[..], buf[..]);
    k.Reads(x);
    k.Finish(x);
    if buf[p] == LF && buf[p - 1] == CR {
      buf[p - 1] := NUL;
    }
    buf[p] := NUL;
    fb[n] := Null;
  }

  /** `sf(fb, buf, fb_sz)`: fields of a tab-delimited line. */
  method SplitByTab(fb: array<Ptr>, buf: array<char>, fbSize: nat) returns (n: nat)
    requires NUL in buf[..] && fbSize < fb.Length && 2 <= fb.Length && fbSize < TWO_64
    modifies fb, buf
    ensures Call(Exact([TAB]), old(buf[..]), Limit(fbSize), old(fb[..])).Returns(n, fb[..], buf[..])
  {
    hide Call.Reaches, Call.Returns, Call.Fields, CStr, Separator.Occurs, Matches, Limit;
    LimitIs(fbSize);
    var limit := Limit(fbSize);
    ghost var k := Call(Exact([TAB]), buf[..], limit, fb[..]);
    k.Start();
    if buf[0] == NUL || buf[0] == LF {
      fb[0] := Null;
      return 0;
    }
    n := 1;
    fb[0] := At(0);
    var p: nat := 0;
    ghost var cur: nat, done: seq<Span> := 0, [];
    while buf[p] != NUL && buf[p] != LF && n < limit
      invariant p < buf.Length && n < fb.Length
      invariant k.Reaches(State(done, cur, n, p, fb[..], buf[..]))
      decreases buf.Length - p
    {
      ghost var x := State(done, cur, n, p, fb[..], buf[..]);
      k.Reads(x);
      MatchesOccurs(k, x, [TAB]);
      if buf[p] == TAB {
        k.StepSeparator(x);
        buf[p] := NUL;
        done := done + [Span(cur, p)];
        p := p + 1;
        cur := p;
        fb[n] := At(p);
        n := n + 1;
      } else {
        k.StepOther(x);
        p := p + 1;
      }
    }
    ghost var x := State(done, cur, n, p, fb[..], buf[..]);
    k.Reads(x);
    k.Finish(x);
    if buf[p] == LF && buf[p - 1] == CR {
      buf[p - 1] := NUL;
    }
    buf[p] := NUL;
    fb[n] := Null;
  }

  /** `sf(fb, buf)`: the same loop with the bound 31 written out. */
  method SplitByTab32(fb: array<Ptr>, buf: array<char>) returns (n: nat)
    requires NUL in buf[..] && 32 <= fb.Length
    modifies fb, buf
    ensures Call(Exact([TAB]), old(buf[..]), Limit(32), old(fb[..])).Returns(n, fb[..], buf[..])
  {
    hide Call.Reaches, Call.Returns, Call.Fields, CStr, Separator.Occurs, Matches, Limit;
    LimitIs(32);
    ghost var k := Call(Exact([TAB]), buf[..], 31, fb[..]);
    k.Start();
    if buf[0] == NUL || buf[0] == LF {
      fb[0] := Null;
      return 0;
    }
    n := 1;
    fb[0] := At(0);
    var p: nat := 0;
    ghost var cur: nat, done: seq<Span> := 0, [];
    while buf[p] != NUL && buf[p] != LF && n < 31
      invariant p < buf.Length && n < fb.Length
      invariant k.Reaches(State(done, cur, n, p, fb[..], buf[..]))
      decreases buf.Length - p
    {
      ghost var x := State(done, cur, n, p, fb[..], buf[..]);
      k.Reads(x);
      MatchesOccurs(k, x, [TAB]);
      if buf[p] == TAB {
        k.StepSeparator(x);
        buf[p] := NUL;
        done := done + [Span(cur, p)];
        p := p + 1;
        cur := p;
        fb[n] := At(p);
        n := n + 1;
      } else {
        k.StepOther(x);
        p := p + 1;
      }
    }
    ghost var x := State(done, cur, n, p, fb[..], buf[..]);
    k.Reads(x);
    k.Finish(x);
    if buf[p] == LF && buf[p - 1] == CR {
      buf[p - 1] := NUL;
    }
    buf[p] := NUL;
    fb[n] := Null;
  }
}
