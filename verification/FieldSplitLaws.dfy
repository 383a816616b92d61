/**
 What a caller of `sf` finds in the fields, at every limit and for every line.
 */
module FieldSplitLaws {
  import opened Basics
  import opened CStrings
  import opened Separators
  import opened SplitTheory
  import opened LineSplitters
  import opened LineSplitterLaws
  import opened FieldSplit

  /** A field without the carriage return that precedes the newline of its line. */
  function Chomp(t: string, newline: bool): string {
    if newline && t != "" && t[|t| - 1] == CR then t[..|t| - 1] else t
  }

  /** The texts delivered of the fields `r`: exact ones, and a last one that is empty when the limit was hit. */
  ghost function ExpectedOf(s: string, r: seq<Span>, limit: int): (t: seq<string>)
    requires r != [] && Ordered(r, |s|)
    ensures |t| == Count(r, limit)
  {
    var n, m := Count(r, limit), |r| - 1;
    Texts(s, r[..n - 1]) + [if n < limit then Chomp(Text(s, r[m]), r[m].hi < |s| && s[r[m].hi] == LF) else ""]
  }

  ghost function Expected(k: Call): seq<string>
    requires k.Proper()
  {
    ExpectedOf(CStr(k.b, 0), k.Fields(), k.limit)
  }

  /** The last writes do not reach a field that ended before the stop position. */
  lemma TerminateBefore(c: string, s: string, e: nat, x: Span)
    requires x.lo <= x.hi < e <= |s| < |c| && NUL !in s && c[x.hi] == NUL
    requires forall k :: x.lo <= k < x.hi ==> c[k] == s[k]
    ensures CStr(Terminate(c, e), x.lo) == Text(s, x)
  {
    SpanRead(Terminate(c, e), s, x);
  }

  /** The last field runs up to the stop position, less a carriage return before a newline. */
  lemma TerminateLast(c: string, s: string, lo: nat, e: nat)
    requires lo <= e <= |s| < |c| && NUL !in s && (e < |s| ==> c[e] == s[e]) && (e == |s| ==> c[e] == NUL)
    requires forall k :: lo <= k < e ==> c[k] == s[k]
    ensures CStr(Terminate(c, e), lo) == Chomp(s[lo..e], e < |s| && s[e] == LF)
  {
    var t := s[lo..e];
    assert t != "" ==> t[|t| - 1] == c[e - 1];
    if e < |s| && s[e] == LF && t != "" && t[|t| - 1] == CR {
      SpanRead(Terminate(c, e), s, Span(lo, e - 1));
      assert t[..|t| - 1] == s[lo..e - 1];
    } else {
      SpanRead(Terminate(c, e), s, Span(lo, e));
    }
  }

  /** Cutting the spans before one leaves that one and everything after it alone. */
  lemma CutBefore(b: string, n: nat, r: seq<Span>, m: nat)
    requires Ordered(r, n) && n < |b| && m < |r|
    ensures forall k :: r[m].lo <= k < |b| ==> Cut(b, r[..m])[k] == b[k]
  {
    forall k | r[m].lo <= k < |b|
      ensures Cut(b, r[..m])[k] == b[k]
    {
      CutAt(b, r[..m], k);
      hide Cut;
    }
  }

  /** A field before the last one is read back exactly. */
  lemma EarlierField(b: string, s: string, r: seq<Span>, m: nat, e: nat, i: nat)
    requires Carries(b, s) && Ordered(r, |s|) && i < m < |r| && r[m].lo <= e <= |s|
    ensures CStr(Terminate(Cut(b, r[..m]), e), r[i].lo) == Text(s, r[i])
  {
    var c, x := Cut(b, r[..m]), r[i];
    assert r[..m][i] == x && Ordered(r[..m], |s|);
    CutInside(b, |s|, r[..m], i);
    assert x.hi < e && |c| == |b|;
    assert forall k :: x.lo <= k < x.hi ==> c[k] == s[k];
    assert |s| < |c| && NUL !in s;
    hide *;
    TerminateBefore(c, s, e, x);
  }

  /** The last field, when the scan stopped at `e`. */
  lemma LastField(b: string, s: string, r: seq<Span>, m: nat, e: nat)
    requires Carries(b, s) && Ordered(r, |s|) && m < |r| && r[m].lo <= e <= |s|
    ensures CStr(Terminate(Cut(b, r[..m]), e), r[m].lo) == Chomp(s[r[m].lo..e], e < |s| && s[e] == LF)
  {
    var c, lo := Cut(b, r[..m]), r[m].lo;
    CutBefore(b, |s|, r, m);
    assert forall k :: lo <= k < |s| ==> c[k] == s[k];
    assert |s| < |c| && c[|s|] == NUL && NUL !in s;
    hide *;
    TerminateLast(c, s, lo, e);
  }

  lemma {:induction false} LineEnd(d: Separator, s: string, q: nat)
    requires q <= |s|
    ensures var r := Spans(d, {LF}, s, q); var x := r[|r| - 1]; x.hi == |s| || (x.hi < |s| && s[x.hi] == LF)
    decreases |s| - q
  {
    hide Next, Spans, Separator.Length;
    var j := Next(d, {LF}, s, q);
    SpansUnfold(d, {LF}, s, q);
    if j < |s| && s[j] != LF {
      LineEnd(d, s, j + d.Length());
    }
  }

  /** One expected text. */
  lemma ExpectedAt(s: string, r: seq<Span>, limit: int, i: nat)
    requires r != [] && Ordered(r, |s|) && i < Count(r, limit)
    ensures var n, x := Count(r, limit), r[|r| - 1];
      ExpectedOf(s, r, limit)[i] ==
        if i < n - 1 then Text(s, r[i])
        else if n < limit then Chomp(Text(s, x), x.hi < |s| && s[x.hi] == LF)
        else ""
  {
    hide Chomp, Text;
  }

  /** Each expected text is read back at its field's start. */
  lemma FieldRead(b: string, s: string, r: seq<Span>, limit: int, i: nat)
    requires Carries(b, s) && r != [] && Ordered(r, |s|) && i < Count(r, limit)
    ensures var c := Terminate(Cut(b, r[..Count(r, limit) - 1]), StopAt(r, limit));
      CStr(c, r[i].lo) == ExpectedOf(s, r, limit)[i]
  {
    hide CStr, Cut, Terminate, ExpectedOf, Chomp, Carries;
    var n, e := Count(r, limit), StopAt(r, limit);
    ExpectedAt(s, r, limit, i);
    if i < n - 1 {
      EarlierField(b, s, r, n - 1, e, i);
    } else {
      LastField(b, s, r, n - 1, e);
      assert n < limit ==> n == |r| && s[r[i].lo..e] == Text(s, r[i]);
      assert n >= limit ==> s[r[i].lo..e] == "";
      ChompIff("", e < |s| && s[e] == LF);
    }
  }

  lemma PointersStored(b: string, r: seq<Span>, limit: int, fb: seq<Ptr>, n: nat, fb': seq<Ptr>, c: string)
    requires b != [] && r != [] && Ordered(r, |b| - 1) && Leaves(b, r, limit, fb, n, fb', c)
    ensures |fb'| == |fb| && n < |fb'| && fb'[n] == Null && n == Count(r, limit) <= |r|
    ensures forall i :: n < i < |fb'| ==> fb'[i] == fb[i]
    ensures forall i :: 0 <= i < n ==> fb'[i] == At(r[i].lo)
  {
    hide Cut, Terminate, StopAt;
    assert n <= |r|;
  }

  /**
   Every call, at every limit: each stored pointer is the start of a field and reads back as expected,
   a null pointer follows, the rest of `fb` is as it was, and the pointers increase inside the buffer.
   */
  lemma FieldsDelivered(b: string, r: seq<Span>, limit: int, fb: seq<Ptr>, n: nat, fb': seq<Ptr>, c: string)
    requires NUL in b && r != [] && Ordered(r, |CStr(b, 0)|) && Ordered(r, |b| - 1)
    requires Leaves(b, r, limit, fb, n, fb', c)
    ensures n == |ExpectedOf(CStr(b, 0), r, limit)| && |fb'| == |fb| && n < |fb'| && fb'[n] == Null
    ensures forall i :: n < i < |fb'| ==> fb'[i] == fb[i]
    ensures forall i :: 0 <= i < n ==>
      fb'[i].At? && fb'[i].index <= |c| && CStr(c, fb'[i].index) == ExpectedOf(CStr(b, 0), r, limit)[i]
    ensures forall i, j :: 0 <= i < j < n ==> fb'[i].index < fb'[j].index
  {
    var s := CStr(b, 0);
    TextCarried(b);
    assert |c| == |b|;
    PointersStored(b, r, limit, fb, n, fb', c);
    hide CStr, Cut, Terminate, StopAt, Count, ExpectedOf, Filled, Carries;
    forall i | 0 <= i < n
      ensures r[i].lo <= |c| && CStr(c, r[i].lo) == ExpectedOf(s, r, limit)[i]
    {
      FieldRead(b, s, r, limit, i);
    }
  }

  /** The tab and string splitters: what they return is delivered as expected. */
  lemma CallDelivered(k: Call, n: nat, fb': seq<Ptr>, c: string)
    requires k.Proper() && k.b[0] != NUL && k.b[0] != LF && k.Returns(n, fb', c)
    ensures n == |Expected(k)| && |fb'| == |k.fb| && n < |fb'| && fb'[n] == Null
    ensures forall i :: n < i < |fb'| ==> fb'[i] == k.fb[i]
    ensures forall i :: 0 <= i < n ==>
      fb'[i].At? && fb'[i].index <= |c| && CStr(c, fb'[i].index) == Expected(k)[i]
    ensures forall i, j :: 0 <= i < j < n ==> fb'[i].index < fb'[j].index
  {
    hide Spans, CStr, Leaves, ExpectedOf;
    FieldsDelivered(k.b, k.Fields(), k.limit, k.fb, n, fb', c);
  }

  /** Below the limit all texts are exact, exactly unless a carriage return is cut off before the newline. */
  lemma ExpectedAll(s: string, r: seq<Span>, limit: int)
    requires r != [] && Ordered(r, |s|) && |r| < limit
    ensures var x := r[|r| - 1];
      ExpectedOf(s, r, limit) == Texts(s, r)
      <==> !(x.lo < x.hi < |s| && s[x.hi] == LF && s[x.hi - 1] == CR)
  {
    var m := |r| - 1;
    var x, front := r[m], Texts(s, r[..m]);
    var t, newline := Text(s, x), x.hi < |s| && s[x.hi] == LF;
    assert ExpectedOf(s, r, limit) == front + [Chomp(t, newline)];
    TextsSnoc(s, r);
    assert x.lo < x.hi ==> t[|t| - 1] == s[x.hi - 1];
    hide *;
    ChompIff(t, newline);
    SnocIff(front, Chomp(t, newline), t);
  }

  lemma TextsSnoc(s: string, r: seq<Span>)
    requires r != [] && forall i :: 0 <= i < |r| ==> r[i].lo <= r[i].hi <= |s|
    ensures Texts(s, r) == Texts(s, r[..|r| - 1]) + [Text(s, r[|r| - 1])]
  {
    hide Text;
  }

  lemma ChompIff(t: string, newline: bool)
    ensures Chomp(t, newline) == t <==> !(newline && t != "" && t[|t| - 1] == CR)
  {
    assert |Chomp(t, newline)| == |t| <==> !(newline && t != "" && t[|t| - 1] == CR);
  }

  /** What is cut off is one carriage return, and only before a newline. */
  lemma ChompCuts(t: string, newline: bool)
    ensures Chomp(t, newline) == t || (newline && Chomp(t, newline) + [CR] == t)
  {
  }

  lemma SnocIff(front: seq<string>, x: string, y: string)
    ensures front + [x] == front + [y] <==> x == y
  {
    assert (front + [x])[|front|] == x && (front + [y])[|front|] == y;
  }

  /** Below the limit a line without newline is split exactly as the in-place line splitter splits it. */
  lemma SameAsLineSplitter(k: Call)
    requires k.Proper() && k.b[0] != NUL && LF !in CStr(k.b, 0) && |k.Fields()| < k.limit
    ensures Expected(k) == Delivered(LineSplitter(k.d, false), k.b)
  {
    var s, sp := CStr(k.b, 0), LineSplitter(k.d, false);
    NoStop(k.d, {LF}, s, 0);
    LineEnd(k.d, s, 0);
    assert k.Fields() == sp.All(s) && s != "";
    assert Expected(k) == ExpectedOf(s, k.Fields(), k.limit) && !sp.noEmpty;
    assert sp.Fields(s) == sp.Kept(s, sp.All(s));
    hide *;
    KeptSome(sp, s, sp.All(s));
    ExpectedAll(s, k.Fields(), k.limit);
    DeliveredTexts(sp, k.b);
  }

  /**
   The pointer counts a caller sees: with room for two or more pointers `sf` reports every field up to
   one less than that, and the last text is empty as soon as the fields use up the limit.
   */
  lemma LimitedCount(k: Call, fbSize: nat)
    requires k.Proper() && k.b[0] != NUL && k.b[0] != LF && k.limit == Limit(fbSize)
    requires 2 <= fbSize <= TWO_32 / 2
    ensures var m := |k.Fields()|;
      && |Expected(k)| == (if m <= fbSize - 1 then m else fbSize - 1)
      && (m >= fbSize - 1 ==> Expected(k)[|Expected(k)| - 1] == "")
      && (forall i :: 0 <= i < |Expected(k)| - 1 ==> Expected(k)[i] == Text(CStr(k.b, 0), k.Fields()[i]))
  {
    LimitIs(fbSize);
    hide Call.Fields, CStr;
  }

  /** A size that narrows to one or less reports one field, with an empty text. */
  lemma NarrowCount(k: Call)
    requires k.Proper() && k.b[0] != NUL && k.b[0] != LF && k.limit <= 1
    ensures Expected(k) == [""]
  {
    hide Call.Fields, CStr, Chomp;
    var t := Expected(k);
    assert |t| == 1 && t[0] == "";
  }

  /**
   The buffer after a call: it differs only by zeros, at most up to the position where the scan stopped, which
   is no further than the newline or the end of the text.
   */
  lemma BufferKept(b: string, r: seq<Span>, limit: int, fb: seq<Ptr>, n: nat, fb': seq<Ptr>, c: string, k: nat)
    requires b != [] && r != [] && Ordered(r, |b| - 1) && Leaves(b, r, limit, fb, n, fb', c) && k < |b|
    ensures |c| == |b| && (c[k] == b[k] || c[k] == NUL)
    ensures k > r[|r| - 1].hi ==> c[k] == b[k]
  {
    var front := r[..n - 1];
    assert forall i :: 0 <= i < |front| ==> front[i].hi <= r[|r| - 1].hi;
    assert StopAt(r, limit) <= r[|r| - 1].hi;
    CutAt(b, front, k);
    hide Cut, Ordered, StopAt, Filled;
  }

  /** The fields of a call are the leftmost split of the text up to the first newline. */
  lemma FieldsOfLine(k: Call)
    requires k.Proper() && k.d.Exact? && k.d.text != [] && InLine(k.d.text)
    ensures var s := CStr(k.b, 0);
      LeftmostSplit(s[..FirstIn({LF}, s, 0)], k.d.text, Texts(s, k.Fields()))
  {
    var s, sep := CStr(k.b, 0), k.d.text;
    var e := FirstIn({LF}, s, 0);
    var line := s[..e];
    assert k.Fields() == Spans(k.d, {LF}, s, 0) && LineEnds(s, 0, e);
    hide FirstIn, CStr, Spans, Call.Fields, InLine, LineEnds;
    SpansInLine(sep, s, 0, e);
    SplitIsLeftmost(line, sep, 0);
    SpansOrdered(k.d, {}, line, 0);
    assert line[0..] == line;
    TextsPrefix(s, e, k.Fields());
    hide *;
  }

  lemma TextsPrefix(s: string, e: nat, r: seq<Span>)
    requires e <= |s| && Ordered(r, e)
    ensures (forall i :: 0 <= i < |r| ==> r[i].lo <= r[i].hi <= e) && Texts(s[..e], r) == Texts(s, r)
  {
    forall i | 0 <= i < |r|
      ensures Text(s[..e], r[i]) == Text(s, r[i])
    {
    }
    hide Text;
  }

  /** A call's results are determined by what it was given, so the two tab splitters agree at 32. */
  lemma ReturnsUnique(k: Call, n: nat, fb': seq<Ptr>, c: string, n2: nat, fb2: seq<Ptr>, c2: string)
    requires k.Proper() && k.Returns(n, fb', c) && k.Returns(n2, fb2, c2)
    ensures n == n2 && fb' == fb2 && c == c2
  {
  }
}
