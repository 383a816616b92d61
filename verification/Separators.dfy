/**
 What it means to split a line.

 `Spans` is the reference: cut at the leftmost separator occurrence, continue after it,
 and end at the first `stop` character or at the end of the text.  Every in-place
 splitter of the program is proved against it.
 */
module Separators {
  import opened CStrings

  /** `t` stands in `s` at position `i`. */
  predicate Stands(t: string, s: string, i: nat)
    ensures Stands(t, s, i) ==> t == [] || i + |t| <= |s|
    decreases |t|
  {
    t == [] || (i < |s| && s[i] == t[0] && Stands(t[1..], s, i + 1))
  }

  lemma {:induction false} StandsSlice(t: string, s: string, i: nat)
    requires i + |t| <= |s|
    ensures Stands(t, s, i) <==> s[i..i + |t|] == t
    decreases |t|
  {
    if t != [] {
      StandsSlice(t[1..], s, i + 1);
      assert s[i..i + |t|] == [s[i]] + s[i + 1..i + 1 + |t[1..]|];
      assert t == [t[0]] + t[1..];
    }
  }

  /** Whether zero-free text stands at a position does not depend on what is before it or after the end. */
  lemma {:induction false} StandsFrame(t: string, b: string, s: string, i: nat)
    requires NUL !in t && i <= |s| < |b| && b[|s|] == NUL
    requires forall k :: i <= k < |s| ==> b[k] == s[k]
    ensures Stands(t, b, i) == Stands(t, s, i)
    decreases |t|
  {
    if t != [] && i < |s| && s[i] == t[0] {
      StandsFrame(t[1..], b, s, i + 1);
    }
  }

  /** A separator is an exact string, or any one character of a set. */
  datatype Separator = Exact(text: string) | AnyOf(chars: set<char>) {

    predicate Occurs(s: string, i: nat)
      ensures Occurs(s, i) ==> 0 < Length() && i + Length() <= |s| && s[i] in Heads()
    {
      match this
      case Exact(t) => t != [] && Stands(t, s, i)
      case AnyOf(cs) => i < |s| && s[i] in cs
    }

    function Length(): nat {
      match this
      case Exact(t) => |t|
      case AnyOf(_) => 1
    }

    /** The characters an occurrence can begin with. */
    function Heads(): set<char> {
      match this
      case Exact(t) => if t == [] then {} else {t[0]}
      case AnyOf(cs) => cs
    }
  }

  /** The half-open range of one field. */
  datatype Span = Span(lo: nat, hi: nat)

  /** The first position at or after `i` with a separator occurrence or a stop character, or the end. */
  function Next(d: Separator, stop: set<char>, s: string, i: nat): (j: nat)
    requires i <= |s|
    ensures i <= j <= |s|
    ensures j < |s| && s[j] !in stop ==> 0 < d.Length() && j + d.Length() <= |s|
    decreases |s| - i
  {
    if i == |s| || s[i] in stop || d.Occurs(s, i) then i else Next(d, stop, s, i + 1)
  }

  lemma {:induction false} NextSpec(d: Separator, stop: set<char>, s: string, i: nat)
    requires i <= |s|
    ensures var j := Next(d, stop, s, i);
      && (j < |s| ==> s[j] in stop || d.Occurs(s, j))
      && (forall k :: i <= k < j ==> s[k] !in stop)
      && (forall k :: i <= k < j ==> !d.Occurs(s, k))
    decreases |s| - i
  {
    if i < Next(d, stop, s, i) {
      NextSpec(d, stop, s, i + 1);
    }
  }

  /** The contract of `Next` determines it. */
  lemma {:induction false} NextIs(d: Separator, stop: set<char>, s: string, i: nat, j: nat)
    requires i <= j <= |s|
    requires j < |s| ==> s[j] in stop || d.Occurs(s, j)
    requires forall k :: i <= k < j ==> s[k] !in stop
    requires forall k :: i <= k < j ==> !d.Occurs(s, k)
    ensures Next(d, stop, s, i) == j
    decreases |s| - i
  {
    if i < j {
      NextIs(d, stop, s, i + 1, j);
    }
  }

  /** The fields of `s` from `q` on. */
  function Spans(d: Separator, stop: set<char>, s: string, q: nat): (r: seq<Span>)
    requires q <= |s|
    ensures r != [] && r[0].lo == q
    decreases |s| - q
  {
    var j := Next(d, stop, s, q);
    if j == |s| || s[j] in stop then [Span(q, j)]
    else [Span(q, j)] + Spans(d, stop, s, j + d.Length())
  }

  /** Closing the field that began at `q`: the scan found its end at `j`. */
  lemma SpansClose(d: Separator, stop: set<char>, s: string, q: nat, j: nat)
    requires q <= j <= |s|
    requires forall k :: q <= k < j ==> s[k] !in stop
    requires forall k :: q <= k < j ==> !d.Occurs(s, k)
    requires j < |s| ==> s[j] in stop || d.Occurs(s, j)
    ensures Spans(d, stop, s, q) ==
      [Span(q, j)] + if j == |s| || s[j] in stop then [] else Spans(d, stop, s, j + d.Length())
  {
    NextIs(d, stop, s, q, j);
  }

  /** A scan is at `p`, inside the field that began at `cur`, after the fields `done`. */
  ghost predicate Scanning(d: Separator, stop: set<char>, s: string, done: seq<Span>, cur: nat, p: nat) {
    && cur <= p <= |s|
    && Spans(d, stop, s, 0) == done + Spans(d, stop, s, cur)
    && (forall k :: cur <= k < p ==> s[k] !in stop)
    && (forall k :: cur <= k < p ==> !d.Occurs(s, k))
  }

  /** At a separator the field is closed and the next one begins after it. */
  lemma ScanSeparator(d: Separator, stop: set<char>, s: string, done: seq<Span>, cur: nat, p: nat)
    requires Scanning(d, stop, s, done, cur, p) && d.Occurs(s, p) && s[p] !in stop
    ensures Spans(d, stop, s, cur)[0] == Span(cur, p)
    ensures Scanning(d, stop, s, done + [Span(cur, p)], p + d.Length(), p + d.Length())
  {
    hide Spans, Separator.Occurs, Separator.Length;
    SpansClose(d, stop, s, cur, p);
    assert Spans(d, stop, s, 0) == (done + [Span(cur, p)]) + Spans(d, stop, s, p + d.Length()) by {
      hide *;
    }
  }

  /** At the end the last field is closed. */
  lemma ScanEnd(d: Separator, stop: set<char>, s: string, done: seq<Span>, cur: nat, p: nat)
    requires Scanning(d, stop, s, done, cur, p) && (p == |s| || s[p] in stop)
    ensures Spans(d, stop, s, cur)[0] == Span(cur, p)
    ensures Spans(d, stop, s, 0) == done + [Span(cur, p)]
  {
    SpansClose(d, stop, s, cur, p);
  }

  /** Consecutive spans are in order, inside the text, and more than zero characters apart. */
  ghost predicate Ordered(r: seq<Span>, n: nat) {
    && (forall i :: 0 <= i < |r| ==> r[i].lo <= r[i].hi <= n)
    && (forall i, j :: 0 <= i < j < |r| ==> r[i].hi < r[j].lo)
  }

  lemma OrderedCons(x: Span, r: seq<Span>, n: nat)
    requires x.lo <= x.hi <= n && Ordered(r, n) && forall i :: 0 <= i < |r| ==> x.hi < r[i].lo
    ensures Ordered([x] + r, n)
  {
    var t := [x] + r;
    assert forall i :: 0 < i < |t| ==> t[i] == r[i - 1];
  }

  lemma SpansUnfold(d: Separator, stop: set<char>, s: string, q: nat)
    requires q <= |s|
    ensures var j := Next(d, stop, s, q);
      if j == |s| || s[j] in stop then Spans(d, stop, s, q) == [Span(q, j)]
      else 0 < d.Length() && Spans(d, stop, s, q) == [Span(q, j)] + Spans(d, stop, s, j + d.Length())
  {
  }

  lemma {:induction false} SpansOrdered(d: Separator, stop: set<char>, s: string, q: nat)
    requires q <= |s|
    ensures Ordered(Spans(d, stop, s, q), |s|)
    ensures forall i :: 0 <= i < |Spans(d, stop, s, q)| ==> q <= Spans(d, stop, s, q)[i].lo
    decreases |s| - q
  {
    hide Next, Spans, Separator.Length;
    var j := Next(d, stop, s, q);
    SpansUnfold(d, stop, s, q);
    if j < |s| && s[j] !in stop {
      SpansOrdered(d, stop, s, j + d.Length());
      hide Ordered;
      OrderedCons(Span(q, j), Spans(d, stop, s, j + d.Length()), |s|);
    }
  }

  function Text(s: string, x: Span): string
    requires x.lo <= x.hi <= |s|
  {
    s[x.lo..x.hi]
  }

  /** The field texts. */
  function Texts(s: string, r: seq<Span>): (t: seq<string>)
    requires forall i :: 0 <= i < |r| ==> r[i].lo <= r[i].hi <= |s|
    ensures |t| == |r|
    ensures forall i :: 0 <= i < |t| ==> t[i] == Text(s, r[i])
  {
    seq(|r|, i requires 0 <= i < |r| => Text(s, r[i]))
  }

  lemma TextsCons(s: string, x: Span, r: seq<Span>)
    requires x.lo <= x.hi <= |s| && forall i :: 0 <= i < |r| ==> r[i].lo <= r[i].hi <= |s|
    ensures Texts(s, [x] + r) == [Text(s, x)] + Texts(s, r)
  {
    hide Text;
  }

  /** The buffer with a zero written at the end of every given span. */
  function Cut(b: string, r: seq<Span>): (c: string)
    requires forall i :: 0 <= i < |r| ==> r[i].hi < |b|
    ensures |c| == |b|
    ensures forall k :: 0 <= k < |b| ==> c[k] == b[k] || c[k] == NUL
  {
    if r == [] then b else Cut(b, r[..|r| - 1])[r[|r| - 1].hi := NUL]
  }

  lemma CutSnoc(b: string, r: seq<Span>, x: Span)
    requires (forall i :: 0 <= i < |r| ==> r[i].hi < |b|) && x.hi < |b|
    ensures Cut(b, r + [x]) == Cut(b, r)[x.hi := NUL]
  {
    assert (r + [x])[..|r|] == r;
  }

  lemma {:induction false} CutAt(b: string, r: seq<Span>, k: nat)
    requires forall i :: 0 <= i < |r| ==> r[i].hi < |b|
    requires k < |b|
    ensures (forall i :: 0 <= i < |r| ==> r[i].hi != k) ==> Cut(b, r)[k] == b[k]
    ensures (exists i :: 0 <= i < |r| && r[i].hi == k) ==> Cut(b, r)[k] == NUL
  {
    if r != [] {
      var m := |r| - 1;
      CutAt(b, r[..m], k);
      assert forall i :: 0 <= i < m ==> r[..m][i] == r[i];
      if i :| 0 <= i < |r| && r[i].hi == k && r[m].hi != k {
        assert r[..m][i].hi == k;
      }
    }
  }

  /** Cutting keeps the inside of each span and ends it with a zero. */
  lemma CutInside(b: string, n: nat, r: seq<Span>, i: nat)
    requires n < |b| && Ordered(r, n) && i < |r|
    ensures Cut(b, r)[r[i].hi] == NUL
    ensures forall k :: r[i].lo <= k < r[i].hi ==> Cut(b, r)[k] == b[k]
  {
    forall k | r[i].lo <= k < r[i].hi
      ensures Cut(b, r)[k] == b[k]
    {
      NoCutInside(r, n, i, k);
      CutAt(b, r, k);
    }
    CutAt(b, r, r[i].hi);
  }

  lemma NoCutInside(r: seq<Span>, n: nat, i: nat, k: nat)
    requires Ordered(r, n) && i < |r| && r[i].lo <= k < r[i].hi
    ensures forall j :: 0 <= j < |r| ==> r[j].hi != k
  {
    forall j | 0 <= j < |r|
      ensures r[j].hi != k
    {
      if j < i {
        assert r[j].hi < r[i].lo;
      } else if i < j {
        assert r[i].hi < r[j].lo;
      }
    }
  }

  /** A span that agrees with a text and ends with a zero reads as that part of the text. */
  lemma SpanRead(c: string, s: string, x: Span)
    requires x.lo <= x.hi <= |s| < |c| && NUL !in s && c[x.hi] == NUL
    requires forall k :: x.lo <= k < x.hi ==> c[k] == s[k]
    ensures CStr(c, x.lo) == Text(s, x)
  {
    CStrIs(c, x.lo, x.hi);
    hide CStr;
    assert c[x.lo..x.hi] == s[x.lo..x.hi];
  }

  /** After cutting, the C string at a span's start is exactly the span. */
  lemma CutField(b: string, s: string, r: seq<Span>, i: nat)
    requires Carries(b, s) && Ordered(r, |s|) && i < |r|
    ensures CStr(Cut(b, r), r[i].lo) == Text(s, r[i])
  {
    CutInside(b, |s|, r, i);
    hide Cut, CStr;
    SpanRead(Cut(b, r), s, r[i]);
  }
}
