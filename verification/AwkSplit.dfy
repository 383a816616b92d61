/**
 The `sf` overloads that imitate awk: repeated separators count as one and leading ones are skipped.
 `sf_blank` splits at white space, `sf(char)` at a given character.
 */
module AwkSplit {
  import opened Basics
  import opened CStrings
  import opened Separators
  import opened SplitTheory
  import opened LineSplitters
  import opened LineSplitterLaws
  import opened FieldSplit
  import opened FieldSplitLaws
  import opened Tokens

  /** The tokens `sf_blank` finds from `i` on: a newline right after a token ends the scan. */
  function BlankRuns(cs: set<char>, s: string, i: nat): (r: seq<Span>)
    requires i <= |s|
    decreases |s| - i
  {
    var lo := FirstNotIn(cs, s, i);
    if lo == |s| then []
    else
      var hi := FirstIn(cs, s, lo);
      if hi == |s| || s[hi] == LF then [Span(lo, hi)] else [Span(lo, hi)] + BlankRuns(cs, s, hi + 1)
  }

  /** How many of the tokens there are up to the first one that a newline follows directly. */
  function LineTokens(s: string, r: seq<Span>): (n: nat)
    ensures n <= |r|
  {
    if r == [] then 0
    else if r[0].hi < |s| && s[r[0].hi] == LF then 1
    else 1 + LineTokens(s, r[1..])
  }

  lemma LineTokensCons(s: string, x: Span, r: seq<Span>)
    ensures var t := [x] + r;
      if x.hi < |s| && s[x.hi] == LF then t[..LineTokens(s, t)] == [x]
      else t[..LineTokens(s, t)] == [x] + r[..LineTokens(s, r)]
  {
    assert ([x] + r)[1..] == r;
  }

  /** The first token and the rest, for both ways of looking. */
  lemma BlankUnfold(cs: set<char>, s: string, i: nat)
    requires i <= |s|
    ensures var lo := FirstNotIn(cs, s, i);
      if lo == |s| then BlankRuns(cs, s, i) == [] && Runs(cs, s, i) == []
      else var hi := FirstIn(cs, s, lo);
        && i <= lo < hi && Runs(cs, s, i) == [Span(lo, hi)] + Runs(cs, s, hi)
        && BlankRuns(cs, s, i) ==
             if hi == |s| || s[hi] == LF then [Span(lo, hi)] else [Span(lo, hi)] + BlankRuns(cs, s, hi + 1)
  {
    var lo := FirstNotIn(cs, s, i);
    assert lo < |s| ==> lo < FirstIn(cs, s, lo);
    hide FirstIn, FirstNotIn;
  }

  /** On every text `sf_blank` sees the white-space tokens up to the first one that a newline follows. */
  lemma {:induction false} BlankIsLineTokens(cs: set<char>, s: string, i: nat)
    requires i <= |s|
    ensures BlankRuns(cs, s, i) == Runs(cs, s, i)[..LineTokens(s, Runs(cs, s, i))]
    decreases |s| - i
  {
    hide *;
    var lo := FirstNotIn(cs, s, i);
    BlankUnfold(cs, s, i);
    if lo == |s| {
      NoTokens(s);
    } else {
      var hi := FirstIn(cs, s, lo);
      LineTokensCons(s, Span(lo, hi), Runs(cs, s, hi));
      if hi == |s| {
        NoRuns(cs, s);
        NoTokens(s);
      } else if s[hi] != LF {
        BlankIsLineTokens(cs, s, hi + 1);
        RunsSkip(cs, s, hi);
      }
    }
  }

  lemma NoTokens(s: string)
    ensures LineTokens(s, []) == 0
  {
  }

  lemma NoRuns(cs: set<char>, s: string)
    ensures Runs(cs, s, |s|) == []
  {
    FirstNotInIs(cs, s, |s|, |s|);
  }

  lemma BlankOrdered(cs: set<char>, s: string)
    ensures Ordered(BlankRuns(cs, s, 0), |s|)
  {
    BlankIsLineTokens(cs, s, 0);
    RunsOrdered(cs, s, 0);
    hide Runs, BlankRuns, LineTokens;
  }

  lemma BlankSkip(cs: set<char>, s: string, i: nat)
    requires i <= |s|
    ensures BlankRuns(cs, s, i) == BlankRuns(cs, s, FirstNotIn(cs, s, i))
  {
    var lo := FirstNotIn(cs, s, i);
    FirstNotInIs(cs, s, lo, lo);
    hide FirstNotIn, FirstIn;
  }

  /** The token that is open at `cur` ends at `p`. */
  lemma BlankClose(cs: set<char>, s: string, cur: nat, p: nat)
    requires cur < p <= |s| && (forall k :: cur <= k < p ==> s[k] !in cs) && (p < |s| ==> s[p] in cs)
    ensures p == |s| || s[p] == LF ==> BlankRuns(cs, s, cur) == [Span(cur, p)]
    ensures p < |s| && s[p] != LF ==>
      BlankRuns(cs, s, cur) == [Span(cur, p)] + BlankRuns(cs, s, FirstNotIn(cs, s, p + 1))
  {
    hide *;
    FirstNotInIs(cs, s, cur, cur);
    FirstInIs(cs, s, cur, p);
    BlankUnfold(cs, s, cur);
    if p < |s| && s[p] != LF {
      BlankSkip(cs, s, p + 1);
    }
  }

  lemma BlankHead(cs: set<char>, s: string, cur: nat)
    requires cur < |s| && s[cur] !in cs
    ensures BlankRuns(cs, s, cur) != [] && BlankRuns(cs, s, cur)[0].lo == cur
  {
    FirstNotInIs(cs, s, cur, cur);
  }

  lemma FullCount(r: seq<Span>, limit: int)
    requires 0 < |r| < limit
    ensures Count(r, limit) == |r|
  {
  }

  /** Closing the token that began at `cur`, in the buffer and in the list. */
  lemma TakeToken(cs: set<char>, b: string, s: string, all: seq<Span>, done: seq<Span>, cur: nat, p: nat, c: string, q: nat)
    requires Untouched(s, c, cur) && IsCut(b, done, c) && all == done + BlankRuns(cs, s, cur)
    requires cur < p < |s| && (forall k :: cur <= k < p ==> s[k] !in cs)
    requires s[p] in cs && s[p] != LF && q == FirstNotIn(cs, s, p + 1)
    ensures p < |c| && p < q <= |s| && (q < |s| ==> s[q] !in cs)
    ensures Untouched(s, c[p := NUL], q) && IsCut(b, done + [Span(cur, p)], c[p := NUL])
    ensures all == (done + [Span(cur, p)]) + BlankRuns(cs, s, q)
    ensures q == |s| ==> all == done + [Span(cur, p)]
  {
    BlankClose(cs, s, cur, p);
    assert q == |s| ==> BlankRuns(cs, s, q) == [];
    hide BlankRuns;
    assert all == (done + [Span(cur, p)]) + BlankRuns(cs, s, q) by {
      hide *;
    }
    CutMore(b, done, c, Span(cur, p));
    StillUntouched(s, c, cur, p, q);
    hide *;
  }

  /** Where the loop is; `open` says that the last stored token has not been closed yet. */
  datatype BlankState = BlankState(done: seq<Span>, open: bool, cur: nat, n: nat, p: nat, fb: seq<Ptr>, c: string)

  datatype BlankCall = BlankCall(b: string, limit: int, fb: seq<Ptr>) {

    ghost predicate Proper() {
      NUL in b && limit < |fb| && 1 < |fb|
    }

    ghost function Fields(): (r: seq<Span>)
      requires Proper()
      ensures Ordered(r, |CStr(b, 0)|) && forall i :: 0 <= i < |r| ==> r[i].hi < |b|
    {
      BlankOrdered(SPACES, CStr(b, 0));
      BlankRuns(SPACES, CStr(b, 0), 0)
    }

    /** What the call leaves: a zero after each token, or at the start of the one that used up the limit. */
    ghost predicate Returns(n: nat, fb': seq<Ptr>, c: string)
      requires Proper()
    {
      var r := Fields();
      if r == [] then n == 0 && fb' == fb[0 := Null] && c == b
      else
        && n == Count(r, limit) && n < |fb| && fb' == Filled(fb, Starts(r[..n]))[n := Null]
        && c == if n < limit then Cut(b, r) else Cut(b, r[..n - 1])[r[n - 1].lo := NUL]
    }

    ghost predicate Reaches(x: BlankState)
      requires Proper()
    {
      var s := CStr(b, 0);
      && IsCut(b, x.done, x.c) && (x.n == 1 || x.n <= limit) && x.n < |fb|
      && if x.open then
           && x.cur <= x.p <= |s| && x.cur < |s| && Untouched(s, x.c, x.cur)
           && s[x.cur] !in SPACES && (forall k :: x.cur <= k < x.p ==> s[k] !in SPACES)
           && Fields() == x.done + BlankRuns(SPACES, s, x.cur) && x.n == |x.done| + 1
           && (x.n >= limit ==> x.p == x.cur) && x.fb == Filled(fb, Starts(x.done) + [x.cur])
         else
           && x.p == |s| && Untouched(s, x.c, |s|)
           && Fields() == x.done && x.n == |x.done| > 0 && x.n < limit && x.fb == Filled(fb, Starts(x.done))
    }

    lemma Start()
      requires Proper()
      ensures var s := CStr(b, 0); var q := FirstNotIn(SPACES, s, 0);
        && Untouched(s, b, 0) && |s| < |b| && (b[q] == NUL <==> q == |s|)
        && (q == |s| ==> Returns(0, fb[0 := Null], b))
        && (q < |s| ==> Reaches(BlankState([], true, q, 1, q, fb[0 := At(q)], b)))
    {
    }

    lemma Reads(x: BlankState)
      requires Proper() && Reaches(x)
      ensures var s := CStr(b, 0);
        && x.p <= |s| < |b| == |x.c| && x.n < |x.fb| == |fb| && Untouched(s, x.c, x.p)
        && (x.c[x.p] == NUL <==> x.p == |s|) && (x.p < |s| ==> x.c[x.p] == s[x.p] && x.open)
        && (x.c[x.p] == LF ==> x.p > 0 && x.c[x.p - 1] != CR)
    {
      hide Cut, BlankRuns, Starts, Filled;
    }

    lemma StepOther(x: BlankState)
      requires Proper() && Reaches(x) && x.n < limit && x.p < |CStr(b, 0)| && CStr(b, 0)[x.p] !in SPACES
      ensures Reaches(x.(p := x.p + 1))
    {
      hide IsCut, BlankRuns, Starts, Filled, CStr;
    }

    /** A blank closes the token; the next one, if any, begins after the blanks. */
    lemma StepBlank(x: BlankState, q: nat)
      requires Proper() && Reaches(x) && x.n < limit && x.n < |x.fb| && x.p < |x.c|
      requires var s := CStr(b, 0);
        x.p < |s| && s[x.p] in SPACES && s[x.p] != LF && q == FirstNotIn(SPACES, s, x.p + 1)
      ensures var s, done, c := CStr(b, 0), x.done + [Span(x.cur, x.p)], x.c[x.p := NUL];
        && (q < |s| ==> Reaches(BlankState(done, true, q, x.n + 1, q, x.fb[x.n := At(q)], c)))
        && (q == |s| ==> Reaches(BlankState(done, false, x.cur, x.n, q, x.fb, c)))
    {
      hide IsCut, BlankRuns, CStr, Untouched, Starts, Filled, FirstNotIn;
      TakeToken(SPACES, b, CStr(b, 0), Fields(), x.done, x.cur, x.p, x.c, q);
      FilledMore(fb, x.done, Span(x.cur, x.p));
      FilledMore(fb, x.done + [Span(x.cur, x.p)], Span(q, q));
    }

    /** Counting the tokens when the scan stops. */
    lemma FinalFields(x: BlankState)
      requires Proper() && Reaches(x) && x.p < |x.c|
      requires x.p == |CStr(b, 0)| || x.c[x.p] == LF || x.n >= limit
      ensures var r := Fields();
        && r != [] && x.n == Count(r, limit) && x.fb == Filled(fb, Starts(r[..x.n]))
        && (x.n < limit ==> r == if x.open then x.done + [Span(x.cur, x.p)] else x.done)
        && (x.n >= limit ==> x.open && r[..x.n - 1] == x.done && r[x.n - 1].lo == x.cur == x.p)
    {
      hide BlankRuns, IsCut, Fields, Filled, Starts, Count, StopAt, FirstNotIn;
      var s := CStr(b, 0);
      if x.open {
        BlankHead(SPACES, s, x.cur);
        assert x.p < |s| ==> x.c[x.p] == s[x.p];
        hide CStr, Untouched;
        if x.n < limit {
          BlankClose(SPACES, s, x.cur, x.p);
        }
        FinalCount(x.done, BlankRuns(SPACES, s, x.cur), x.cur, x.n, x.p, limit);
      } else {
        assert Fields()[..x.n] == Fields();
        FullCount(Fields(), limit);
      }
    }

    lemma Finish(x: BlankState)
      requires Proper() && Reaches(x) && x.n < |x.fb| && x.p < |x.c|
      requires x.p == |CStr(b, 0)| || x.c[x.p] == LF || x.n >= limit
      ensures Returns(x.n, x.fb[x.n := Null], x.c[x.p := NUL])
    {
      FinalFields(x);
      if x.n < limit {
        if x.open {
          CutMore(b, x.done, x.c, Span(x.cur, x.p));
        } else {
          assert x.c[x.p := NUL] == x.c;
        }
      }
      hide Fields, Cut, Count, Filled, CStr;
    }
  }

  lemma BlankSet()
    ensures NUL !in SPACES
  {
  }

  /** A blank in the loop of `sf_blank`: closes the token, skips the blanks and stores the next token, if any. */
  method CloseToken(fb: array<Ptr>, buf: array<char>, n: nat, p: nat, ghost k: BlankCall, ghost x: BlankState)
    returns (stored: nat, next: nat, ghost y: BlankState)
    requires k.Proper() && k.Reaches(x) && n == x.n < k.limit && n < fb.Length && x.fb == fb[..] && x.c == buf[..]
    requires var s := CStr(k.b, 0);
      p == x.p < |s| < buf.Length && Untouched(s, buf[..], p) && s[p] in SPACES && s[p] != LF
    modifies fb, buf
    ensures p < next < buf.Length && k.Reaches(y)
    ensures y.p == next && y.n == stored && y.fb == fb[..] && y.c == buf[..]
  {
    hide *;
    ghost var s := CStr(k.b, 0);
    ghost var q, done, c := FirstNotIn(SPACES, s, p + 1), x.done + [Span(x.cur, p)], x.c[p := NUL];
    k.StepBlank(x, q);
    StillUntouched(s, buf[..], p, p, p + 1);
    StillUntouched(s, c, p + 1, p, q);
    UntouchedEnd(s, c, q);
    BlankSet();
    buf[p] := NUL;
    assert buf[..] == c;
    next := CBrk(SPACES, buf, p + 1, s);
    stored := n;
    if buf[next] == NUL {
      y := BlankState(done, false, x.cur, n, q, x.fb, c);
      return;
    }
    fb[n] := At(next);
    assert fb[..] == x.fb[n := At(next)];
    stored := n + 1;
    y := BlankState(done, true, q, stored, q, x.fb[n := At(q)], c);
  }

  /** `sf_blank`: `stripped` tells whether the carriage-return branch at the end was taken. */
  method SplitBlank(fb: array<Ptr>, buf: array<char>, fbSize: nat) returns (n: nat, stripped: bool)
    requires NUL in buf[..] && fbSize < fb.Length && 2 <= fb.Length && fbSize < TWO_64
    modifies fb, buf
    ensures BlankCall(old(buf[..]), Limit(fbSize), old(fb[..])).Returns(n, fb[..], buf[..])
    ensures !stripped
  {
    hide BlankCall.Reaches, BlankCall.Returns, BlankCall.Fields, CStr, Limit, FirstNotIn, Untouched;
    LimitIs(fbSize);
    var limit := Limit(fbSize);
    ghost var k, s := BlankCall(buf[..], limit, fb[..]), CStr(buf[..], 0);
    k.Start();
    var p := CBrk(SPACES, buf, 0, s);
    if buf[p] == NUL {
      fb[0] := Null;
      return 0, false;
    }
    n := 1;
    fb[0] := At(p);
    ghost var x := BlankState([], true, p, 1, p, fb[..], buf[..]);
    while buf[p] != NUL && buf[p] != LF && n < limit
      invariant p < buf.Length && n < fb.Length
      invariant k.Reaches(x) && x.p == p && x.n == n && x.fb == fb[..] && x.c == buf[..]
      decreases buf.Length - p
    {
      k.Reads(x);
      if buf[p] in SPACES {
        n, p, x := CloseToken(fb, buf, n, p, k, x);
        k.Reads(x);
      } else {
        k.StepOther(x);
        p := p + 1;
        x := x.(p := p);
      }
    }
    k.Reads(x);
    k.Finish(x);
    stripped := buf[p] == LF && buf[p - 1] == CR;
    if stripped {
      assert false;
    }
    buf[p] := NUL;
    fb[n] := Null;
    assert buf[..] == x.c[p := NUL] && fb[..] == x.fb[n := Null];
  }

  lemma BlankTokens(s: string)
    ensures forall x :: x in BlankRuns(SPACES, s, 0) ==> MaximalRun(SPACES, s, x)
  {
    BlankIsLineTokens(SPACES, s, 0);
    RunsMaximal(SPACES, s, 0);
    hide Runs, BlankRuns, LineTokens, MaximalRun;
  }

  /** A token is not empty, does not begin with a newline and does not end with a carriage return. */
  ghost predicate Solid(s: string, x: Span) {
    x.lo < x.hi <= |s| && s[x.lo] != LF && s[x.hi - 1] != CR
  }

  lemma BlankSolid(s: string)
    ensures forall i :: 0 <= i < |BlankRuns(SPACES, s, 0)| ==> Solid(s, BlankRuns(SPACES, s, 0)[i])
  {
    hide BlankRuns;
    BlankTokens(s);
    forall i | 0 <= i < |BlankRuns(SPACES, s, 0)|
      ensures Solid(s, BlankRuns(SPACES, s, 0)[i])
    {
      var x := BlankRuns(SPACES, s, 0)[i];
      assert MaximalRun(SPACES, s, x);
      assert s[x.lo] !in SPACES && s[x.hi - 1] !in SPACES;
    }
  }

  lemma PlainStop(c: string, e: nat)
    requires e < |c|
    ensures c[e] != LF || (e > 0 && c[e - 1] != CR) ==> Terminate(c, e) == c[e := NUL]
  {
  }

  /** A token at the stop position leaves no carriage return before a newline there. */
  lemma NoReturn(c: string, s: string, x: Span, e: nat)
    requires Solid(s, x) && x.hi < |c| && (e == x.lo || e == x.hi)
    requires c[x.lo] == s[x.lo] && c[x.hi - 1] == s[x.hi - 1]
    ensures Terminate(c, e) == c[e := NUL]
  {
    PlainStop(c, e);
  }

  lemma TokenStop(b: string, s: string, r: seq<Span>, limit: int)
    requires Carries(b, s) && r != [] && Ordered(r, |s|)
    requires Solid(s, r[Count(r, limit) - 1])
    ensures var n := Count(r, limit); var c := Cut(b, r[..n - 1]);
      Terminate(c, StopAt(r, limit)) == if n < limit then Cut(b, r) else c[r[n - 1].lo := NUL]
  {
    var n := Count(r, limit);
    var x, c := r[n - 1], Cut(b, r[..n - 1]);
    var e := StopAt(r, limit);
    assert e == if n < limit then x.hi else x.lo;
    assert n < limit ==> r[..n - 1] + [x] == r;
    CutBefore(b, |s|, r, n - 1);
    assert c[x.hi - 1] == s[x.hi - 1] && c[x.lo] == s[x.lo] && x.hi < |c|;
    var front := r[..n - 1];
    assert forall i :: 0 <= i < |front| ==> front[i].hi < |b|;
    hide *;
    NoReturn(c, s, x, e);
    if n < limit {
      CutSnoc(b, front, x);
    }
  }

  /** Tokens hold no carriage return, so what `sf_blank` leaves has the shape the other overloads leave. */
  lemma BlankLeaves(k: BlankCall, n: nat, fb': seq<Ptr>, c: string)
    requires k.Proper() && k.Returns(n, fb', c) && k.Fields() != []
    ensures Ordered(k.Fields(), |k.b| - 1) && Leaves(k.b, k.Fields(), k.limit, k.fb, n, fb', c)
  {
    hide BlankRuns, Cut, Filled, Starts, StopAt, Terminate, Solid, Carries;
    var s, r := CStr(k.b, 0), k.Fields();
    BlankSolid(s);
    TextCarried(k.b);
    assert Solid(s, r[n - 1]);
    hide CStr, BlankCall.Fields, Count;
    TokenStop(k.b, s, r, k.limit);
  }

  lemma SolidExpected(s: string, r: seq<Span>, limit: int)
    requires r != [] && Ordered(r, |s|) && Solid(s, r[|r| - 1])
    ensures var n := Count(r, limit);
      forall i :: 0 <= i < n ==> ExpectedOf(s, r, limit)[i] == if i < n - 1 || n < limit then Text(s, r[i]) else ""
  {
    var n, x := Count(r, limit), r[|r| - 1];
    assert Chomp(Text(s, x), x.hi < |s| && s[x.hi] == LF) == Text(s, x);
    hide Chomp, ExpectedOf, Text, Solid;
    forall i | 0 <= i < n
      ensures ExpectedOf(s, r, limit)[i] == if i < n - 1 || n < limit then Text(s, r[i]) else ""
    {
      ExpectedAt(s, r, limit, i);
    }
  }

  lemma ExpectedCount(s: string, r: seq<Span>, limit: int)
    requires r != [] && Ordered(r, |s|)
    ensures |ExpectedOf(s, r, limit)| == Count(r, limit)
  {
    hide ExpectedOf;
  }

  lemma BlankExpected(k: BlankCall)
    requires k.Proper() && k.Fields() != []
    ensures var s, r, n := CStr(k.b, 0), k.Fields(), Count(k.Fields(), k.limit);
      forall i :: 0 <= i < n ==>
        ExpectedOf(s, r, k.limit)[i] == if i < n - 1 || n < k.limit then Text(s, r[i]) else ""
  {
    hide BlankRuns, Solid;
    var s, r := CStr(k.b, 0), k.Fields();
    BlankSolid(s);
    assert Solid(s, r[|r| - 1]);
    hide CStr, BlankCall.Fields;
    SolidExpected(s, r, k.limit);
  }

  /**
   Every call of `sf_blank`: the stored pointers read back as the white-space tokens up to the first
   one that a newline follows, the last of them empty if the limit was hit.
   */
  lemma BlankDelivered(k: BlankCall, n: nat, fb': seq<Ptr>, c: string)
    requires k.Proper() && k.Returns(n, fb', c)
    ensures var s := CStr(k.b, 0);
      && k.Fields() == Runs(SPACES, s, 0)[..LineTokens(s, Runs(SPACES, s, 0))]
      && n == (if k.Fields() == [] then 0 else Count(k.Fields(), k.limit))
      && |fb'| == |k.fb| && n < |fb'| && fb'[n] == Null && (forall i :: n < i < |fb'| ==> fb'[i] == k.fb[i])
      && (forall i :: 0 <= i < n ==> fb'[i].At? && fb'[i].index <= |c|)
      && (forall i :: 0 <= i < n ==>
            CStr(c, fb'[i].index) == if i < n - 1 || n < k.limit then Text(s, k.Fields()[i]) else "")
  {
    BlankIsLineTokens(SPACES, CStr(k.b, 0), 0);
    assert k.Fields() == [] ==> n == 0 && fb' == k.fb[0 := Null] && c == k.b;
    assert k.Fields() != [] ==> Ordered(k.Fields(), |CStr(k.b, 0)|);
    hide *;
    var s, r := CStr(k.b, 0), k.Fields();
    if r != [] {
      BlankLeaves(k, n, fb', c);
      FieldsDelivered(k.b, r, k.limit, k.fb, n, fb', c);
      assert n == Count(r, k.limit) by { ExpectedCount(s, r, k.limit); }
      BlankExpected(k);
    }
  }

  lemma {:induction false} NoNewlineTokens(s: string, r: seq<Span>)
    requires LF !in s
    ensures LineTokens(s, r) == |r|
  {
    if r != [] {
      NoNewlineTokens(s, r[1..]);
    }
  }

  lemma BlankAll(k: BlankCall)
    requires k.Proper() && LF !in CStr(k.b, 0)
    ensures k.Fields() == Runs(SPACES, CStr(k.b, 0), 0)
  {
    var s := CStr(k.b, 0);
    hide Runs, LineTokens;
    BlankIsLineTokens(SPACES, s, 0);
    NoNewlineTokens(s, Runs(SPACES, s, 0));
  }

  /**
   Below the limit, on text without newline, `sf_blank` delivers all white-space tokens, which is what
   the splitter built for a blank separator delivers.
   */
  lemma BlankSameAsSplitter(k: BlankCall, n: nat, fb': seq<Ptr>, c: string)
    requires k.Proper() && k.Returns(n, fb', c) && LF !in CStr(k.b, 0) && |k.Fields()| < k.limit
    ensures var words := Delivered(LineSplitter(AnyOf(SPACES), true), k.b);
      && words == Words(SPACES, CStr(k.b, 0), 0) && n == |words| < |fb'|
      && (forall i :: 0 <= i < n ==> fb'[i].At? && fb'[i].index <= |c| && CStr(c, fb'[i].index) == words[i])
  {
    hide Runs, CStr, BlankCall.Fields, BlankCall.Returns, Delivered, LineTokens;
    BlankDelivered(k, n, fb', c);
    BlankAll(k);
    NoEmptyDeliversWords(SPACES, k.b);
    var words := Words(SPACES, CStr(k.b, 0), 0);
    forall i | 0 <= i < n
      ensures CStr(c, fb'[i].index) == words[i]
    {
      assert words[i] == Text(CStr(k.b, 0), k.Fields()[i]);
    }
  }

  /** The fields `sf(char)` finds from `q` on: a separator swallows those that follow it. */
  function CharSpans(fs: char, s: string, q: nat): (r: seq<Span>)
    requires q <= |s|
    ensures r != [] && r[0].lo == q
    decreases |s| - q
  {
    var j := FirstIn({fs, LF}, s, q);
    if j == |s| || s[j] == LF then [Span(q, j)]
    else [Span(q, j)] + CharSpans(fs, s, FirstNotIn({fs}, s, j + 1))
  }

  lemma {:induction false} CharOrdered(fs: char, s: string, q: nat)
    requires q <= |s|
    ensures Ordered(CharSpans(fs, s, q), |s|)
    ensures forall i :: 0 <= i < |CharSpans(fs, s, q)| ==> q <= CharSpans(fs, s, q)[i].lo
    decreases |s| - q
  {
    hide FirstIn, FirstNotIn;
    var j := FirstIn({fs, LF}, s, q);
    if j < |s| && s[j] != LF {
      var q' := FirstNotIn({fs}, s, j + 1);
      CharOrdered(fs, s, q');
      assert CharSpans(fs, s, q) == [Span(q, j)] + CharSpans(fs, s, q');
      hide CharSpans;
    }
  }

  lemma CharClose(fs: char, s: string, q: nat, j: nat)
    requires q <= j <= |s| && (forall k :: q <= k < j ==> s[k] != fs && s[k] != LF)
    requires j == |s| || s[j] == fs || s[j] == LF
    ensures j == |s| || s[j] == LF ==> CharSpans(fs, s, q) == [Span(q, j)]
    ensures j < |s| && s[j] != LF ==>
      CharSpans(fs, s, q) == [Span(q, j)] + CharSpans(fs, s, FirstNotIn({fs}, s, j + 1))
  {
    hide FirstIn, FirstNotIn;
    FirstInIs({fs, LF}, s, q, j);
  }

  /** Closing the field that began at `cur`, in the buffer and in the list. */
  lemma TakeField(fs: char, b: string, s: string, all: seq<Span>, done: seq<Span>, cur: nat, p: nat, c: string, q: nat)
    requires Untouched(s, c, p) && IsCut(b, done, c) && cur <= p < |s| && all == done + CharSpans(fs, s, cur)
    requires forall k :: cur <= k < p ==> s[k] != fs && s[k] != LF
    requires s[p] == fs && s[p] != LF && q == FirstNotIn({fs}, s, p + 1)
    ensures p < |c| && p < q <= |s|
    ensures Untouched(s, c[p := NUL], q) && IsCut(b, done + [Span(cur, p)], c[p := NUL])
    ensures all == (done + [Span(cur, p)]) + CharSpans(fs, s, q)
  {
    hide CharSpans;
    CharClose(fs, s, cur, p);
    assert all == (done + [Span(cur, p)]) + CharSpans(fs, s, q) by {
      hide *;
    }
    CutMore(b, done, c, Span(cur, p));
    StillUntouched(s, c, p, p, q);
    hide *;
  }

  datatype CharCall = CharCall(fs: char, b: string, limit: int, fb: seq<Ptr>) {

    ghost predicate Proper() {
      NUL in b && fs != NUL && limit < |fb| && 1 < |fb|
    }

    /** Where the first field begins. */
    ghost function First(): (q: nat)
      requires Proper()
      ensures q <= |CStr(b, 0)|
    {
      FirstNotIn({fs}, CStr(b, 0), 0)
    }

    ghost function Fields(): (r: seq<Span>)
      requires Proper()
      ensures r != [] && Ordered(r, |CStr(b, 0)|) && Ordered(r, |b| - 1)
    {
      CharOrdered(fs, CStr(b, 0), First());
      CharSpans(fs, CStr(b, 0), First())
    }

    ghost predicate Returns(n: nat, fb': seq<Ptr>, c: string)
      requires Proper()
    {
      var s := CStr(b, 0);
      if First() == |s| || s[First()] == LF then n == 0 && c == b && fb' == fb[0 := Null]
      else Leaves(b, Fields(), limit, fb, n, fb', c)
    }

    ghost predicate Reaches(x: State)
      requires Proper()
    {
      var s := CStr(b, 0);
      && First() <= x.cur <= x.p <= |s| && First() < |s| && s[First()] != LF
      && Untouched(s, x.c, x.p) && IsCut(b, x.done, x.c)
      && Fields() == x.done + CharSpans(fs, s, x.cur) && (forall k :: x.cur <= k < x.p ==> s[k] != fs && s[k] != LF)
      && x.n == |x.done| + 1 && (x.n == 1 || x.n <= limit) && (x.n >= limit ==> x.p == x.cur)
      && x.n < |fb| && x.fb == Filled(fb, Starts(x.done) + [x.cur])
    }

    lemma Start()
      requires Proper()
      ensures var s, q := CStr(b, 0), First();
        && Untouched(s, b, 0) && |s| < |b| && (b[q] == NUL <==> q == |s|) && (q < |s| ==> b[q] == s[q])
        && (q == |s| || s[q] == LF ==> Returns(0, fb[0 := Null], b))
        && (q < |s| && s[q] != LF ==> Reaches(State([], q, 1, q, fb[0 := At(q)], b)))
    {
    }

    lemma Reads(x: State)
      requires Proper() && Reaches(x)
      ensures var s := CStr(b, 0);
        && x.p <= |s| < |b| == |x.c| && x.n < |x.fb| == |fb| && Untouched(s, x.c, x.p)
        && (x.c[x.p] == NUL <==> x.p == |s|) && (x.p < |s| ==> x.c[x.p] == s[x.p])
        && (x.c[x.p] == LF ==> x.p > 0)
    {
      hide Cut, CharSpans, Starts, Filled;
    }

    lemma StepOther(x: State)
      requires Proper() && Reaches(x) && x.n < limit
      requires var s := CStr(b, 0); x.p < |s| && s[x.p] != LF && s[x.p] != fs
      ensures Reaches(x.(p := x.p + 1))
    {
      hide IsCut, CharSpans, Starts, Filled, CStr, First, Fields;
    }

    lemma StepSeparator(x: State, q: nat)
      requires Proper() && Reaches(x) && x.n < limit && x.n < |x.fb| && x.p < |x.c|
      requires var s := CStr(b, 0);
        x.p < |s| && s[x.p] != LF && s[x.p] == fs && q == FirstNotIn({fs}, s, x.p + 1)
      ensures x.n + 1 < |fb|
      ensures Reaches(State(x.done + [Span(x.cur, x.p)], q, x.n + 1, q, x.fb[x.n := At(q)], x.c[x.p := NUL]))
    {
      hide IsCut, CharSpans, CStr, Untouched, Starts, Filled, FirstNotIn, First, Fields;
      TakeField(fs, b, CStr(b, 0), Fields(), x.done, x.cur, x.p, x.c, q);
      FilledMore(fb, x.done, Span(x.cur, x.p));
      FilledMore(fb, x.done + [Span(x.cur, x.p)], Span(q, q));
    }

    /** Counting the fields when the scan stops. */
    lemma FinalFields(x: State)
      requires Proper() && Reaches(x)
      requires x.p == |CStr(b, 0)| || CStr(b, 0)[x.p] == LF || x.n >= limit
      ensures var r := Fields();
        && x.n == Count(r, limit) && x.p == StopAt(r, limit)
        && r[..x.n - 1] == x.done && Starts(r[..x.n]) == Starts(x.done) + [x.cur]
    {
      hide CharSpans, CStr, Untouched, IsCut, Starts, Filled, FirstNotIn, First, Fields, Count, StopAt;
      var s := CStr(b, 0);
      if x.n < limit {
        CharClose(fs, s, x.cur, x.p);
      }
      FinalCount(x.done, CharSpans(fs, s, x.cur), x.cur, x.n, x.p, limit);
    }

    lemma Finish(x: State)
      requires Proper() && Reaches(x) && x.n < |x.fb| && x.p < |x.c|
      requires x.p == |CStr(b, 0)| || CStr(b, 0)[x.p] == LF || x.n >= limit
      ensures Returns(x.n, x.fb[x.n := Null], Terminate(x.c, x.p))
    {
      FinalFields(x);
      hide CharSpans, CStr, Untouched, Starts, Filled, First, Fields, Cut, Count, StopAt, Terminate;
    }
  }

  /** A separator in the loop of `sf(char)`: closes the field, skips the separators and stores the next field. */
  method CloseField(fs: char, fb: array<Ptr>, buf: array<char>, n: nat, p: nat, ghost k: CharCall, ghost x: State)
    returns (next: nat, ghost y: State)
    requires k.Proper() && fs == k.fs && fs != NUL && k.Reaches(x) && n == x.n < k.limit && n < fb.Length
    requires x.fb == fb[..] && x.c == buf[..]
    requires var s := CStr(k.b, 0);
      p == x.p < |s| < buf.Length && Untouched(s, buf[..], p) && s[p] == fs && s[p] != LF
    modifies fb, buf
    ensures p < next < buf.Length && k.Reaches(y)
    ensures y.p == next && y.n == n + 1 < fb.Length && y.fb == fb[..] && y.c == buf[..]
  {
    hide *;
    ghost var s := CStr(k.b, 0);
    k.StepSeparator(x, FirstNotIn({fs}, s, p + 1));
    StillUntouched(s, buf[..], p, p, p + 1);
    buf[p] := NUL;
    assert buf[..] == x.c[p := NUL];
    next := CBrk({fs}, buf, p + 1, s);
    fb[n] := At(next);
    assert fb[..] == x.fb[n := At(next)];
    y := State(x.done + [Span(x.cur, p)], next, n + 1, next, fb[..], buf[..]);
    k.Reads(y);
  }

  /** `sf(char)`: a blank stands for white space, any other character for itself. */
  method SplitByChar(fs: char, fb: array<Ptr>, buf: array<char>, fbSize: nat) returns (n: nat)
    requires fs != NUL && NUL in buf[..] && fbSize < fb.Length && 2 <= fb.Length && fbSize < TWO_64
    modifies fb, buf
    ensures fs == ' ' ==> BlankCall(old(buf[..]), Limit(fbSize), old(fb[..])).Returns(n, fb[..], buf[..])
    ensures fs != ' ' ==> CharCall(fs, old(buf[..]), Limit(fbSize), old(fb[..])).Returns(n, fb[..], buf[..])
  {
    hide CharCall.Reaches, CharCall.Returns, CharCall.Fields, BlankCall.Returns, CStr, Limit, FirstNotIn, Untouched;
    if fs == ' ' {
      var stripped;
      n, stripped := SplitBlank(fb, buf, fbSize);
      return;
    }
    LimitIs(fbSize);
    var limit := Limit(fbSize);
    ghost var k, s := CharCall(fs, buf[..], limit, fb[..]), CStr(buf[..], 0);
    k.Start();
    var p := CBrk({fs}, buf, 0, s);
    if buf[p] == NUL || buf[p] == LF {
      fb[0] := Null;
      return 0;
    }
    n := 1;
    fb[0] := At(p);
    ghost var x := State([], p, 1, p, fb[..], buf[..]);
    while buf[p] != NUL && buf[p] != LF && n < limit
      invariant p < buf.Length && n < fb.Length
      invariant k.Reaches(x) && x.p == p && x.n == n && x.fb == fb[..] && x.c == buf[..]
      decreases buf.Length - p
    {
      k.Reads(x);
      if buf[p] == fs {
        p, x := CloseField(fs, fb, buf, n, p, k, x);
        n := n + 1;
      } else {
        k.StepOther(x);
        p := p + 1;
        x := x.(p := p);
      }
    }
    k.Reads(x);
    k.Finish(x);
    if buf[p] == LF && buf[p - 1] == CR {
      buf[p - 1] := NUL;
    }
    buf[p] := NUL;
    fb[n] := Null;
    assert buf[..] == Terminate(x.c, p) && fb[..] == x.fb[n := Null];
  }

  /** The field texts of `sf(char)` from `q` on. */
  ghost function CharTexts(fs: char, s: string, q: nat): seq<string>
    requires q <= |s|
  {
    CharOrdered(fs, s, q);
    Texts(s, CharSpans(fs, s, q))
  }

  lemma CharUnfold(fs: char, s: string, q: nat)
    requires q <= |s| && LF !in s
    ensures var j := FirstIn({fs}, s, q);
      && (j == |s| ==> CharTexts(fs, s, q) == [s[q..j]])
      && (j < |s| ==> CharTexts(fs, s, q) == [s[q..j]] + CharTexts(fs, s, FirstNotIn({fs}, s, j + 1)))
  {
    hide CharSpans, FirstIn, FirstNotIn;
    var j := FirstIn({fs}, s, q);
    CharClose(fs, s, q, j);
    if j < |s| {
      var q' := FirstNotIn({fs}, s, j + 1);
      CharOrdered(fs, s, q');
      TextsCons(s, Span(q, j), CharSpans(fs, s, q'));
    }
  }

  /** A list of fields without its empty ones, except that the last field always stays. */
  function Squeeze(t: seq<string>): (r: seq<string>)
    requires t != []
    ensures |r| <= |t|
  {
    if |t| == 1 then t else if |t[0]| == 0 then Squeeze(t[1..]) else [t[0]] + Squeeze(t[1..])
  }

  lemma {:induction false} SqueezeSame(t: seq<string>)
    requires t != []
    ensures Squeeze(t) == t <==> forall i :: 0 <= i < |t| - 1 ==> |t[i]| != 0
  {
    if |t| > 1 {
      SqueezeSame(t[1..]);
      assert t == [t[0]] + t[1..];
      if |t[0]| != 0 {
        assert Squeeze(t)[1..] == Squeeze(t[1..]);
      }
      assert forall i :: 0 <= i < |t| - 2 ==> t[1..][i] == t[i + 1];
      assert forall i :: 1 <= i < |t| - 1 ==> t[i] == t[1..][i - 1];
    }
  }

  lemma SqueezeCons(f: string, t: seq<string>)
    requires t != []
    ensures Squeeze([f] + t) == if |f| == 0 then Squeeze(t) else [f] + Squeeze(t)
  {
    assert ([f] + t)[1..] == t;
  }

  lemma SplitStepAt(fs: char, s: string, q: nat)
    requires q <= |s|
    ensures var j, d := FirstIn({fs}, s, q), AnyOf({fs});
      && Split(d, {}, s, q) != []
      && (j == |s| ==> Split(d, {}, s, q) == [s[q..j]])
      && (j < |s| ==> Split(d, {}, s, q) == [s[q..j]] + Split(d, {}, s, j + 1))
  {
    NextOfSet({fs}, s, q);
    SplitUnfold(AnyOf({fs}), s, q);
    assert s[q..] == s[q..|s|];
  }

  /** Separators at the front only add empty fields, which are squeezed out. */
  lemma {:induction false} SqueezeSkip(fs: char, s: string, i: nat)
    requires i <= |s|
    ensures var d := AnyOf({fs});
      Split(d, {}, s, i) != [] && Split(d, {}, s, FirstNotIn({fs}, s, i)) != []
      && Squeeze(Split(d, {}, s, i)) == Squeeze(Split(d, {}, s, FirstNotIn({fs}, s, i)))
    decreases |s| - i
  {
    hide Split, Squeeze;
    SplitStepAt(fs, s, i);
    SplitStepAt(fs, s, FirstNotIn({fs}, s, i));
    if i < |s| && s[i] == fs {
      SqueezeSkip(fs, s, i + 1);
      FirstInIs({fs}, s, i, i);
      SqueezeCons(s[i..i], Split(AnyOf({fs}), {}, s, i + 1));
    }
  }

  lemma {:induction false} CharIsSqueezed(fs: char, s: string, q: nat)
    requires q <= |s| && LF !in s && (q == |s| || s[q] != fs)
    ensures Split(AnyOf({fs}), {}, s, q) != [] && CharTexts(fs, s, q) == Squeeze(Split(AnyOf({fs}), {}, s, q))
    decreases |s| - q
  {
    hide Split, CharTexts, FirstIn, FirstNotIn;
    var d, j := AnyOf({fs}), FirstIn({fs}, s, q);
    CharUnfold(fs, s, q);
    SplitStepAt(fs, s, q);
    if j < |s| {
      var q' := FirstNotIn({fs}, s, j + 1);
      CharIsSqueezed(fs, s, q');
      SqueezeSkip(fs, s, j + 1);
      SqueezeCons(s[q..j], Split(d, {}, s, j + 1));
      hide Squeeze;
    }
  }

  /**
   On a line without newline that has a field, `sf(char)` delivers the fields of the split without the
   empty ones, except that the last field stays; so it agrees with the exact splitters exactly when
   no field other than the last is empty.
   */
  lemma CharLaw(fs: char, s: string)
    requires LF !in s && FirstNotIn({fs}, s, 0) < |s|
    ensures var all := Split(Exact([fs]), {}, s, 0); var got := CharTexts(fs, s, FirstNotIn({fs}, s, 0));
      && all != [] && got == Squeeze(all)
      && (got == all <==> forall i :: 0 <= i < |all| - 1 ==> |all[i]| != 0)
  {
    hide CharTexts, Squeeze, Spans;
    CharIsSqueezed(fs, s, FirstNotIn({fs}, s, 0));
    SqueezeSkip(fs, s, 0);
    OneCharacter(fs, {}, s, 0);
    assert Split(Exact([fs]), {}, s, 0) == Split(AnyOf({fs}), {}, s, 0);
    SqueezeSame(Split(Exact([fs]), {}, s, 0));
  }

  /** Every call of `sf(char)`: the stored pointers read back as its fields, at every limit. */
  lemma CharDelivered(k: CharCall, n: nat, fb': seq<Ptr>, c: string)
    requires k.Proper() && k.Returns(n, fb', c) && k.First() < |CStr(k.b, 0)| && CStr(k.b, 0)[k.First()] != LF
    ensures var t := ExpectedOf(CStr(k.b, 0), k.Fields(), k.limit);
      && n == |t| && |fb'| == |k.fb| && n < |fb'| && fb'[n] == Null
      && (forall i :: n < i < |fb'| ==> fb'[i] == k.fb[i])
      && (forall i :: 0 <= i < n ==> fb'[i].At? && fb'[i].index <= |c| && CStr(c, fb'[i].index) == t[i])
  {
    hide CStr, CharCall.Fields, CharCall.First, ExpectedOf, Leaves;
    FieldsDelivered(k.b, k.Fields(), k.limit, k.fb, n, fb', c);
  }

  /** Only the last of the tokens counted may have a newline right after it, and it has one if others follow. */
  lemma {:induction false} LineTokensAre(s: string, r: seq<Span>)
    ensures var n := LineTokens(s, r);
      && (r != [] ==> n > 0)
      && (forall i :: 0 <= i < n - 1 ==> !(r[i].hi < |s| && s[r[i].hi] == LF))
      && (n < |r| ==> r[n - 1].hi < |s| && s[r[n - 1].hi] == LF)
  {
    if r != [] && !(r[0].hi < |s| && s[r[0].hi] == LF) {
      LineTokensAre(s, r[1..]);
      var n := LineTokens(s, r);
      forall i | 0 <= i < n - 1
        ensures !(r[i].hi < |s| && s[r[i].hi] == LF)
      {
        if i > 0 {
          assert r[i] == r[1..][i - 1];
        }
      }
    }
  }

  lemma FirstInLine(fs: char, s: string, q: nat, e: nat)
    requires LineEnds(s, q, e)
    ensures FirstIn({fs, LF}, s, q) == FirstIn({fs, LF}, s[..e], q)
  {
    var j := FirstIn({fs, LF}, s[..e], q);
    assert j < e ==> s[j] == s[..e][j];
    FirstInIs({fs, LF}, s, q, j);
  }

  lemma SkipInLine(fs: char, s: string, q: nat, e: nat)
    requires LineEnds(s, q, e) && fs != LF
    ensures FirstNotIn({fs}, s, q) == FirstNotIn({fs}, s[..e], q) <= e
  {
    var j := FirstNotIn({fs}, s[..e], q);
    FirstNotInIs({fs}, s, q, j);
  }

  lemma CharStep(fs: char, s: string, q: nat)
    requires q <= |s|
    ensures var j := FirstIn({fs, LF}, s, q);
      CharSpans(fs, s, q) == if j == |s| || s[j] == LF then [Span(q, j)]
        else [Span(q, j)] + CharSpans(fs, s, FirstNotIn({fs}, s, j + 1))
  {
    hide FirstIn, FirstNotIn;
  }

  /** `sf(char)` sees the fields of the line only. */
  lemma {:induction false} CharInLine(fs: char, s: string, q: nat, e: nat)
    requires LineEnds(s, q, e)
    ensures CharSpans(fs, s, q) == CharSpans(fs, s[..e], q)
    decreases |s| - q
  {
    hide FirstIn, FirstNotIn, CharSpans;
    var t := s[..e];
    var j := FirstIn({fs, LF}, s, q);
    FirstInLine(fs, s, q, e);
    CharStep(fs, s, q);
    CharStep(fs, t, q);
    if j < e {
      assert s[j] == t[j] == fs != LF;
      SkipInLine(fs, s, j + 1, e);
      CharInLine(fs, s, FirstNotIn({fs}, s, j + 1), e);
    }
  }

  /**
   The fields of a call, for every text: those of the split of its first line, without the empty ones but with
   the last; with the newline as separator, the first token between newlines.
   */
  lemma CharFields(k: CharCall)
    requires k.Proper() && k.First() < |CStr(k.b, 0)| && CStr(k.b, 0)[k.First()] != LF
    ensures var s := CStr(k.b, 0);
      var got, line := Texts(s, k.Fields()), s[..FirstIn({LF}, s, 0)];
      && (k.fs != LF ==> Split(Exact([k.fs]), {}, line, 0) != [] && got == Squeeze(Split(Exact([k.fs]), {}, line, 0)))
      && (k.fs == LF ==> Words({LF}, s, 0) != [] && got == [Words({LF}, s, 0)[0]])
  {
    var s, fs, q := CStr(k.b, 0), k.fs, k.First();
    assert q == FirstNotIn({fs}, s, 0) && k.Fields() == CharSpans(fs, s, q);
    hide CharCall.Fields, CharCall.First, CStr;
    if fs == LF {
      NewlineField(s);
    } else {
      FieldsOfFirstLine(fs, s);
    }
  }

  lemma NewlineField(s: string)
    requires FirstNotIn({LF}, s, 0) < |s|
    ensures var r := CharSpans(LF, s, FirstNotIn({LF}, s, 0));
      Ordered(r, |s|) && Words({LF}, s, 0) != [] && Texts(s, r) == [Words({LF}, s, 0)[0]]
  {
    var q := FirstNotIn({LF}, s, 0);
    assert {LF, LF} == {LF};
    RunsOrdered({LF}, s, 0);
    CharOrdered(LF, s, q);
    hide FirstIn, FirstNotIn;
    assert Runs({LF}, s, 0)[0] == Span(q, FirstIn({LF}, s, q));
    assert CharSpans(LF, s, q) == [Runs({LF}, s, 0)[0]];
  }

  lemma FieldsOfFirstLine(fs: char, s: string)
    requires fs != LF && FirstNotIn({fs}, s, 0) < |s| && s[FirstNotIn({fs}, s, 0)] != LF
    ensures var r, line := CharSpans(fs, s, FirstNotIn({fs}, s, 0)), s[..FirstIn({LF}, s, 0)];
      && Ordered(r, |s|) && Split(Exact([fs]), {}, line, 0) != []
      && Texts(s, r) == Squeeze(Split(Exact([fs]), {}, line, 0))
  {
    var q, e := FirstNotIn({fs}, s, 0), FirstIn({LF}, s, 0);
    var line := s[..e];
    assert LineEnds(s, 0, e) && LineEnds(s, q, e) && q < e;
    SkipInLine(fs, s, 0, e);
    CharInLine(fs, s, q, e);
    CharOrdered(fs, line, q);
    hide FirstIn, FirstNotIn, CharSpans, LineEnds;
    CharLaw(fs, line);
    TextsPrefix(s, e, CharSpans(fs, line, q));
    hide *;
  }

  /** A call reports no field exactly if the line, or with the newline as separator the text, is separators only. */
  lemma CharNothing(k: CharCall, n: nat, fb': seq<Ptr>, c: string)
    requires k.Proper() && k.Returns(n, fb', c)
    ensures var s := CStr(k.b, 0); var e := if k.fs == LF then |s| else FirstIn({LF}, s, 0);
      n == 0 <==> forall i :: 0 <= i < e ==> s[i] == k.fs
  {
    var s, fs, q := CStr(k.b, 0), k.fs, k.First();
    var e := if fs == LF then |s| else FirstIn({LF}, s, 0);
    assert q == FirstNotIn({fs}, s, 0);
    assert n == 0 <==> q == |s| || s[q] == LF by {
      hide Cut, Terminate, Filled, Starts, StopAt, CharSpans;
    }
    hide CharCall.Returns, CharCall.Fields, CharCall.First, CStr, FirstIn, FirstNotIn;
    if q < |s| && s[q] != LF {
      assert q < e;
    }
  }
}
