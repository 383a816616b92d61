/**
 Tokens: the maximal runs of text without separator characters, and the `sf` overload that
 collects them for a given set of separators.
 */
module Tokens {
  import opened Basics
  import opened CStrings
  import opened Separators
  import opened SplitTheory
  import opened LineSplitters
  import opened LineSplitterLaws
  import opened FieldSplit

  /** The maximal separator-free runs from `i` on. */
  function Runs(cs: set<char>, s: string, i: nat): (r: seq<Span>)
    requires i <= |s|
    decreases |s| - i
  {
    var lo := FirstNotIn(cs, s, i);
    if lo == |s| then []
    else var hi := FirstIn(cs, s, lo); [Span(lo, hi)] + Runs(cs, s, hi)
  }

  /** A run: not empty, free of separators, and not extensible on either side. */
  ghost predicate MaximalRun(cs: set<char>, s: string, x: Span) {
    && x.lo < x.hi <= |s| && (forall k :: x.lo <= k < x.hi ==> s[k] !in cs)
    && (x.lo == 0 || s[x.lo - 1] in cs) && (x.hi == |s| || s[x.hi] in cs)
  }

  lemma {:induction false} RunsOrdered(cs: set<char>, s: string, i: nat)
    requires i <= |s|
    ensures Ordered(Runs(cs, s, i), |s|)
    ensures forall k :: 0 <= k < |Runs(cs, s, i)| ==> i <= Runs(cs, s, i)[k].lo
    ensures i < |s| && s[i] in cs && Runs(cs, s, i) != [] ==> i < Runs(cs, s, i)[0].lo
    decreases |s| - i
  {
    hide FirstIn, FirstNotIn;
    var lo := FirstNotIn(cs, s, i);
    if lo < |s| {
      var hi := FirstIn(cs, s, lo);
      RunsOrdered(cs, s, hi);
      assert Runs(cs, s, i) == [Span(lo, hi)] + Runs(cs, s, hi);
      hide Runs;
    }
  }

  /** The runs are maximal, and every character outside the set lies in one of them. */
  lemma {:induction false} RunsMaximal(cs: set<char>, s: string, i: nat)
    requires i <= |s| && (i == 0 || i == |s| || s[i] in cs)
    ensures forall x :: x in Runs(cs, s, i) ==> MaximalRun(cs, s, x)
    ensures forall k :: i <= k < |s| && s[k] !in cs ==> exists x :: x in Runs(cs, s, i) && x.lo <= k < x.hi
    decreases |s| - i
  {
    var lo := FirstNotIn(cs, s, i);
    if lo < |s| {
      var hi := FirstIn(cs, s, lo);
      RunsMaximal(cs, s, hi);
      var r := Runs(cs, s, i);
      assert r == [Span(lo, hi)] + Runs(cs, s, hi);
      forall k | i <= k < |s| && s[k] !in cs
        ensures exists x :: x in r && x.lo <= k < x.hi
      {
        if k < hi {
          assert Span(lo, hi) in r;
        } else {
          var x :| x in Runs(cs, s, hi) && x.lo <= k < x.hi;
          assert x in r;
        }
      }
    }
  }

  lemma {:induction false} NonEmptyAppend(a: seq<string>, b: seq<string>)
    ensures NonEmpty(a + b) == NonEmpty(a) + NonEmpty(b)
    decreases |b|
  {
    if b == [] {
      assert a + b == a;
    } else {
      var m := |b| - 1;
      NonEmptyAppend(a, b[..m]);
      var x, y := NonEmpty(a), NonEmpty(b[..m]);
      var last := if |b[m]| > 0 then [b[m]] else [];
      assert (a + b)[..|a| + m] == a + b[..m];
      assert NonEmpty(b) == y + last && NonEmpty(a + b) == (x + y) + last;
      hide *;
      assert (x + y) + last == x + (y + last);
    }
  }

  lemma NonEmptyCons(t: string, rest: seq<string>)
    ensures |t| > 0 ==> NonEmpty([t] + rest) == [t] + NonEmpty(rest)
    ensures |t| == 0 ==> NonEmpty([t] + rest) == NonEmpty(rest)
  {
    NonEmptyAppend([t], rest);
    NonEmptyOne(t);
  }

  lemma NonEmptyOne(t: string)
    ensures NonEmpty([t]) == if |t| > 0 then [t] else []
  {
    assert [t][..0] == [];
  }

  /** A separator character at the front changes nothing. */
  lemma RunsSkip(cs: set<char>, s: string, i: nat)
    requires i < |s| && s[i] in cs
    ensures Runs(cs, s, i) == Runs(cs, s, i + 1)
  {
  }

  lemma NextOfSet(cs: set<char>, s: string, q: nat)
    requires q <= |s|
    ensures Next(AnyOf(cs), {}, s, q) == FirstIn(cs, s, q)
  {
    NextIs(AnyOf(cs), {}, s, q, FirstIn(cs, s, q));
  }

  /** The text from `q` is a run up to the next separator, if that is not right here. */
  lemma FirstRun(cs: set<char>, s: string, q: nat)
    requires q <= |s|
    ensures var j := FirstIn(cs, s, q);
      Runs(cs, s, q) == (if q < j then [Span(q, j)] else []) + Runs(cs, s, j)
  {
  }

  /** The tokens of the text from `q` on. */
  function Words(cs: set<char>, s: string, q: nat): seq<string>
    requires q <= |s|
  {
    RunsOrdered(cs, s, q);
    Texts(s, Runs(cs, s, q))
  }

  lemma WordsUnfold(cs: set<char>, s: string, q: nat)
    requires q <= |s|
    ensures var j := FirstIn(cs, s, q);
      && (q < j ==> Words(cs, s, q) == [s[q..j]] + Words(cs, s, j))
      && (j < |s| ==> Words(cs, s, j) == Words(cs, s, j + 1))
      && Words(cs, s, |s|) == []
  {
    var j := FirstIn(cs, s, q);
    FirstRun(cs, s, q);
    RunsOrdered(cs, s, j);
    TextsCons(s, Span(q, j), Runs(cs, s, j));
  }

  /** One step from a field to the next, for the tokens and for the non-empty fields. */
  lemma WordsStep(cs: set<char>, s: string, q: nat, j: nat, rest: seq<string>)
    requires q <= |s| && j == FirstIn(cs, s, q) < |s| && Words(cs, s, j + 1) == NonEmpty(rest)
    ensures Words(cs, s, q) == NonEmpty([s[q..j]] + rest)
  {
    hide *;
    WordsUnfold(cs, s, q);
    NonEmptyCons(s[q..j], rest);
  }

  lemma WordsLast(cs: set<char>, s: string, q: nat)
    requires q <= |s| && FirstIn(cs, s, q) == |s|
    ensures Words(cs, s, q) == NonEmpty([s[q..]])
  {
    hide *;
    WordsUnfold(cs, s, q);
    NonEmptyOne(s[q..]);
    assert s[q..] == s[q..|s|];
  }

  /** The tokens are the non-empty fields of the split at every separator character. */
  lemma {:induction false} WordsAreNonEmpty(cs: set<char>, s: string, q: nat)
    requires q <= |s|
    ensures Words(cs, s, q) == NonEmpty(Split(AnyOf(cs), {}, s, q))
    decreases |s| - q
  {
    hide *;
    var d, j := AnyOf(cs), FirstIn(cs, s, q);
    NextOfSet(cs, s, q);
    SplitUnfold(d, s, q);
    assert d.Length() == 1 by { OneLong(cs); }
    if j < |s| {
      WordsAreNonEmpty(cs, s, j + 1);
      WordsStep(cs, s, q, j, Split(d, {}, s, j + 1));
    } else {
      WordsLast(cs, s, q);
    }
  }

  lemma OneLong(cs: set<char>)
    ensures AnyOf(cs).Length() == 1
  {
  }

  /** So a splitter over a set that leaves out empty fields delivers the tokens. */
  lemma NoEmptyDeliversWords(cs: set<char>, b: string)
    requires NUL in b
    ensures Delivered(LineSplitter(AnyOf(cs), true), b) == Words(cs, CStr(b, 0), 0)
  {
    WordsAreNonEmpty(cs, CStr(b, 0), 0);
    NoEmptyLaw(LineSplitter(AnyOf(cs), true), b);
  }

  /** `str_spn::cbrk`: the first character outside the set. */
  method CBrk(cs: set<char>, buf: array<char>, p: nat, ghost s: string) returns (r: nat)
    requires Untouched(s, buf[..], p) && NUL !in cs
    ensures r == FirstNotIn(cs, s, p)
  {
    r := p;
    while buf[r] in cs
      invariant p <= r <= |s|
      invariant FirstNotIn(cs, s, p) == FirstNotIn(cs, s, r)
      decreases buf.Length - r
    {
      r := r + 1;
    }
  }

  /** How many of the tokens a call with room for `fbSize` pointers takes. */
  function Taken(count: nat, fbSize: nat): (n: nat)
    ensures n <= count && n <= fbSize
  {
    var limit := Int32(fbSize);
    if limit <= 0 then 0 else if count <= limit then count else limit
  }

  /** As many as there are and as fit, as long as the size is a positive 32-bit number; none for a negative one. */
  lemma TakenIs(count: nat, fbSize: nat)
    ensures fbSize < TWO_32 / 2 ==> Taken(count, fbSize) == if count < fbSize then count else fbSize
    ensures TWO_32 / 2 <= fbSize < TWO_32 ==> Taken(count, fbSize) == 0
    ensures fbSize >= TWO_32 ==> Taken(count, fbSize) == Taken(count, fbSize - TWO_32)
  {
  }

  /** The run that begins here, and where the next one begins. */
  lemma RunHere(cs: set<char>, s: string, p: nat)
    requires p < |s| && s[p] !in cs
    ensures var hi := FirstIn(cs, s, p + 1);
      var q := if hi < |s| then FirstNotIn(cs, s, hi + 1) else |s|;
      Runs(cs, s, p) == [Span(p, hi)] + Runs(cs, s, q)
  {
    assert FirstIn(cs, s, p) == FirstIn(cs, s, p + 1);
  }

  /** Closing the run at `p` in the buffer and in the list. */
  lemma TakeRun(cs: set<char>, b: string, s: string, all: seq<Span>, done: seq<Span>, p: nat, c: string, hi: nat, q: nat)
    requires Untouched(s, c, p) && IsCut(b, done, c) && all == done + Runs(cs, s, p)
    requires p < |s| && s[p] !in cs
    requires hi == FirstIn(cs, s, p + 1) && q == if hi < |s| then FirstNotIn(cs, s, hi + 1) else |s|
    ensures hi < |c| && p < q <= |s| && (q < |s| ==> s[q] !in cs)
    ensures Untouched(s, c[hi := NUL], q) && IsCut(b, done + [Span(p, hi)], c[hi := NUL])
    ensures all == (done + [Span(p, hi)]) + Runs(cs, s, q)
  {
    hide Runs;
    RunHere(cs, s, p);
    assert all == (done + [Span(p, hi)]) + Runs(cs, s, q) by {
      hide *;
    }
    CutMore(b, done, c, Span(p, hi));
    StillUntouched(s, c, p, hi, q);
    hide *;
  }

  datatype TokenCall = TokenCall(cs: set<char>, b: string, fbSize: nat, fb: seq<Ptr>) {

    ghost predicate Proper() {
      NUL in b && NUL !in cs && fbSize < |fb|
    }

    ghost function Fields(): (r: seq<Span>)
      requires Proper()
    {
      Runs(cs, CStr(b, 0), 0)
    }

    /** What the call leaves: the first tokens, a null pointer after them, each token closed by a zero. */
    ghost predicate Returns(n: nat, fb': seq<Ptr>, c: string)
      requires Proper()
    {
      && n == Taken(|Fields()|, fbSize)
      && fb' == Filled(fb, Starts(Fields()[..n]))[n := Null] && IsCut(b, Fields()[..n], c)
    }

    /** The loop's state: tokens closed so far, and the position where the next one begins or the text ends. */
    ghost predicate Reaches(done: seq<Span>, p: nat, fb': seq<Ptr>, c: string)
      requires Proper()
    {
      var s := CStr(b, 0);
      && Untouched(s, c, p) && IsCut(b, done, c)
      && Fields() == done + Runs(cs, s, p) && (p < |s| ==> s[p] !in cs)
      && |done| <= fbSize && fb' == Filled(fb[0 := Null], Starts(done))
    }

    lemma Start()
      requires Proper()
      ensures Untouched(CStr(b, 0), b, 0)
      ensures Reaches([], FirstNotIn(cs, CStr(b, 0), 0), fb[0 := Null], b)
      ensures b[0] == NUL || fbSize == 0 ==> Returns(0, fb[0 := Null], b)
    {
    }

    lemma Reads(done: seq<Span>, p: nat, fb': seq<Ptr>, c: string)
      requires Proper() && Reaches(done, p, fb', c)
      ensures var s := CStr(b, 0);
        && p <= |s| < |b| == |c| && |done| < |fb| == |fb'|
        && (c[p] == NUL <==> p == |s|) && Untouched(s, c, p)
    {
      hide Cut, Runs;
    }

    /** One turn of the loop: a pointer, the end of its token, and the next token's start. */
    lemma Step(done: seq<Span>, p: nat, fb': seq<Ptr>, c: string, hi: nat, q: nat)
      requires Proper() && Reaches(done, p, fb', c) && |done| < fbSize && |fb'| == |fb| && |c| == |b|
      requires var s := CStr(b, 0);
        && p < |s| && hi == FirstIn(cs, s, p + 1) && q == if hi < |s| then FirstNotIn(cs, s, hi + 1) else |s|
      ensures hi < |c| && Reaches(done + [Span(p, hi)], q, fb'[|done| := At(p)], c[hi := NUL])
    {
      hide Runs, IsCut, CStr, Filled, Starts, Untouched, FirstIn, FirstNotIn;
      TakeRun(cs, b, CStr(b, 0), Fields(), done, p, c, hi, q);
      FilledMore(fb[0 := Null], done, Span(p, hi));
    }

    /** The character after a token is the terminating zero or a separator. */
    lemma AtEnd(p: nat, c: string, e: nat)
      requires Proper() && Untouched(CStr(b, 0), c, p) && p < |CStr(b, 0)| && e == FirstIn(cs, CStr(b, 0), p + 1)
      ensures e < |c| && (c[e] == NUL <==> e == |CStr(b, 0)|)
      ensures e < |CStr(b, 0)| ==> Untouched(CStr(b, 0), c[e := NUL], e + 1)
    {
      hide CStr;
    }

    lemma Finish(done: seq<Span>, p: nat, fb': seq<Ptr>, c: string)
      requires Proper() && Reaches(done, p, fb', c) && |fb'| == |fb|
      requires (p == |CStr(b, 0)| || |done| >= Int32(fbSize)) && (done == [] || |done| <= Int32(fbSize))
      requires fbSize > 0
      ensures Returns(|done|, fb'[|done| := Null], c)
    {
      assert p == |CStr(b, 0)| ==> Fields() == done;
      hide Runs, Cut;
      assert Fields()[..|done|] == done;
    }
  }

  /** One turn of the storing loop: stores the token at `p`, closes it and finds the next one or the end. */
  method StoreField(
    seps: set<char>, buf: array<char>, fb: array<Ptr>, n: nat, p: nat, ghost k: TokenCall, ghost done: seq<Span>)
    returns (next: nat, ghost hi: nat)
    requires k.Proper() && seps == k.cs && NUL !in seps && n == |done| < k.fbSize && fb.Length == |k.fb|
    requires k.fbSize < |k.fb| && p < |CStr(k.b, 0)| < buf.Length && k.Reaches(done, p, fb[..], buf[..])
    modifies buf, fb
    ensures next <= |CStr(k.b, 0)| && (buf[next] == NUL <==> next == |CStr(k.b, 0)|)
    ensures k.Reaches(done + [Span(p, hi)], next, fb[..], buf[..])
  {
    hide *;
    ghost var s, f, c := CStr(k.b, 0), fb[..], buf[..];
    k.Reads(done, p, f, c);
    StillUntouched(s, c, p, p, p + 1);
    fb[n] := At(p);
    assert fb[..] == f[n := At(p)];
    var e := Brk(seps, buf, p + 1, s);
    hi := e;
    ghost var q := if e < |s| then FirstNotIn(seps, s, e + 1) else |s|;
    k.Step(done, p, f, c, e, q);
    k.AtEnd(p, c, e);
    k.Reads(done + [Span(p, e)], q, f[n := At(p)], c[e := NUL]);
    if buf[e] == NUL {
      assert c == c[e := NUL];
      return e, hi;
    }
    buf[e] := NUL;
    assert buf[..] == c[e := NUL];
    next := CBrk(seps, buf, e + 1, s);
  }

  /** The storing loop, from the first token on. */
  method StoreFields(seps: set<char>, buf: array<char>, fb: array<Ptr>, limit: int, first: nat, ghost k: TokenCall)
    returns (n: nat)
    requires k.Proper() && k.fbSize > 0 && seps == k.cs && limit == Int32(k.fbSize)
    requires fb.Length == |k.fb| && first < |CStr(k.b, 0)| < buf.Length
    requires k.Reaches([], first, fb[..], buf[..])
    modifies buf, fb
    ensures k.Returns(n, fb[..], buf[..])
  {
    Int32AtMost(k.fbSize);
    assert NUL !in seps && k.fbSize < |k.fb|;
    hide *;
    ghost var done: seq<Span> := [];
    var p: nat := first;
    n := 0;
    while n < limit
      invariant n == |done| && p < |CStr(k.b, 0)| && (n == 0 || n <= limit)
      invariant k.Reaches(done, p, fb[..], buf[..])
      decreases limit - n
    {
      ghost var hi;
      ghost var lo := p;
      p, hi := StoreField(seps, buf, fb, n, p, k, done);
      done := done + [Span(lo, hi)];
      n := n + 1;
      if buf[p] == NUL {
        break;
      }
    }
    k.Reads(done, p, fb[..], buf[..]);
    k.Finish(done, p, fb[..], buf[..]);
    ghost var f := fb[..];
    fb[n] := Null;
    assert fb[..] == f[n := Null];
  }

  /** `sf(seps, buf, fb, fb_sz)`: tokens of a text, given the set of separator characters. */
  method SplitBySet(seps: set<char>, buf: array?<char>, fb: array<Ptr>, fbSize: nat) returns (n: nat)
    requires NUL !in seps && fbSize < fb.Length && (buf != null ==> NUL in buf[..])
    modifies buf, fb
    ensures buf == null ==> n == 0 && fb[..] == old(fb[..])[0 := Null]
    ensures buf != null ==> TokenCall(seps, old(buf[..]), fbSize, old(fb[..])).Returns(n, fb[..], buf[..])
  {
    hide TokenCall.Reaches, TokenCall.Returns, TokenCall.Fields, CStr, Untouched, Int32, FirstIn, FirstNotIn;
    if fbSize < 1 || buf == null || buf[0] == NUL {
      if buf != null {
        TokenCall(seps, buf[..], fbSize, fb[..]).Start();
      }
      fb[0] := Null;
      return 0;
    }
    ghost var k := TokenCall(seps, buf[..], fbSize, fb[..]);
    k.Start();
    fb[0] := Null;
    var p := CBrk(seps, buf, 0, CStr(buf[..], 0));
    k.Reads([], p, fb[..], buf[..]);
    if buf[p] == NUL {
      k.Finish([], p, fb[..], buf[..]);
      assert fb[..] == fb[..][0 := Null];
      return 0;
    }
    n := StoreFields(seps, buf, fb, Int32(fbSize), p, k);
  }

  /** The pointers a call leaves, one by one. */
  lemma TokenPointers(fb: seq<Ptr>, r: seq<Span>, n: nat, fb': seq<Ptr>)
    requires n <= |r| && n < |fb| && fb' == Filled(fb, Starts(r[..n]))[n := Null]
    ensures |fb'| == |fb| && fb'[n] == Null && (forall i :: n < i < |fb'| ==> fb'[i] == fb[i])
    ensures forall i :: 0 <= i < n ==> fb'[i] == At(r[i].lo)
  {
  }

  /**
   Every call of the set splitter: its pointers read back as the first tokens, as many as fit, which are
   the first fields of the line splitter that leaves out empty fields.
   */
  lemma TokensDelivered(k: TokenCall, n: nat, fb': seq<Ptr>, c: string)
    requires k.Proper() && k.Returns(n, fb', c)
    ensures var words := Delivered(LineSplitter(AnyOf(k.cs), true), k.b);
      && words == Words(k.cs, CStr(k.b, 0), 0) && n == Taken(|words|, k.fbSize)
      && |fb'| == |k.fb| && fb'[n] == Null && (forall i :: n < i < |fb'| ==> fb'[i] == k.fb[i])
      && (forall i :: 0 <= i < n ==> fb'[i].At? && fb'[i].index <= |c| && CStr(c, fb'[i].index) == words[i])
  {
    var s, r := CStr(k.b, 0), k.Fields();
    assert n == Taken(|r|, k.fbSize) && n < |k.fb| && IsCut(k.b, r[..n], c);
    assert fb' == Filled(k.fb, Starts(r[..n]))[n := Null];
    WordsAreTexts(k.cs, s);
    hide *;
    NoEmptyDeliversWords(k.cs, k.b);
    TokenPointers(k.fb, r, n, fb');
    TextCarried(k.b);
    FirstOnes(k.b, s, r, n, c);
  }

  lemma WordsAreTexts(cs: set<char>, s: string)
    ensures var r := Runs(cs, s, 0);
      && Ordered(r, |s|) && (forall i :: 0 <= i < |r| ==> r[i].lo <= r[i].hi <= |s|)
      && Words(cs, s, 0) == Texts(s, r)
  {
    RunsOrdered(cs, s, 0);
  }

  /** Closing only the first fields is enough to read them. */
  lemma FirstOnes(b: string, s: string, r: seq<Span>, n: nat, c: string)
    requires Carries(b, s) && Ordered(r, |s|) && n <= |r| && IsCut(b, r[..n], c)
    ensures forall i :: 0 <= i < n ==> r[i].lo <= r[i].hi <= |s|
    ensures forall i :: 0 <= i < n ==> r[i].lo <= |c| && CStr(c, r[i].lo) == Text(s, r[i])
  {
    hide CStr, Cut;
    assert Ordered(r[..n], |s|);
    StringsOf(b, s, r[..n], r[..n]);
    forall i | 0 <= i < n
      ensures r[i].lo <= |c| && CStr(c, r[i].lo) == Text(s, r[i])
    {
      assert Strings(c, Starts(r[..n]))[i] == CStr(c, r[i].lo);
    }
  }

  /** The buffer after a call differs by zeros only, and only right after the tokens taken. */
  lemma TokenBuffer(k: TokenCall, n: nat, fb': seq<Ptr>, c: string, i: nat)
    requires k.Proper() && k.Returns(n, fb', c) && i < |k.b|
    ensures |c| == |k.b| && n <= |k.Fields()|
    ensures c[i] == if exists j :: 0 <= j < n && k.Fields()[j].hi == i then NUL else k.b[i]
  {
    var front := k.Fields()[..n];
    assert forall j :: 0 <= j < n ==> front[j] == k.Fields()[j];
    CutAt(k.b, front, i);
    hide Cut, Taken, Filled, TokenCall.Fields;
  }
}
