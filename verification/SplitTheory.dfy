/**
 `Spans` with an exact separator, characterised without any scanning: the fields glue
 back to the text, no separator begins inside a field, and only one list does both.
 */
module SplitTheory {
  import opened CStrings
  import opened Separators

  /** The texts glued with the separator between them. */
  function Join(fields: seq<string>, sep: string): string
    requires fields != []
  {
    if |fields| == 1 then fields[0] else fields[0] + sep + Join(fields[1..], sep)
  }

  /** No occurrence of `sep` begins in the first `n` characters of `s`. */
  ghost predicate Free(s: string, sep: string, n: nat) {
    forall k :: 0 <= k < n ==> !Exact(sep).Occurs(s, k)
  }

  /** The declarative split: glues back to `s`, and every cut is at the leftmost occurrence. */
  ghost predicate LeftmostSplit(s: string, sep: string, fields: seq<string>) {
    && fields != []
    && Join(fields, sep) == s
    && (forall i :: 0 <= i < |fields| - 1 ==> Free(fields[i] + sep, sep, |fields[i]|))
    && Free(fields[|fields| - 1], sep, |fields[|fields| - 1]|)
  }

  lemma OccursShift(d: Separator, s: string, q: nat, k: nat)
    requires q <= |s|
    ensures d.Occurs(s[q..], k) == d.Occurs(s, q + k)
  {
    if d.Exact? && q + k + |d.text| <= |s| {
      StandsSlice(d.text, s, q + k);
      StandsSlice(d.text, s[q..], k);
      assert s[q..][k..k + |d.text|] == s[q + k..q + k + |d.text|];
    }
  }

  /** An occurrence is seen in a prefix that contains it. */
  lemma OccursPrefix(sep: string, s: string, n: nat, k: nat)
    requires n <= |s| && k + |sep| <= n
    ensures Exact(sep).Occurs(s[..n], k) == Exact(sep).Occurs(s, k)
  {
    StandsSlice(sep, s, k);
    StandsSlice(sep, s[..n], k);
    assert s[..n][k..k + |sep|] == s[k..k + |sep|];
  }

  /** The text from `q` on is the first field, the separator there, and the rest. */
  lemma SplitStep(s: string, sep: string, q: nat, j: nat)
    requires q <= j && Exact(sep).Occurs(s, j)
    requires forall k :: q <= k < j ==> !Exact(sep).Occurs(s, k)
    ensures s[q..] == s[q..j] + sep + s[j + |sep|..]
    ensures Free(s[q..j] + sep, sep, j - q)
  {
    StandsSlice(sep, s, j);
    var t := s[q..];
    assert t[..j - q + |sep|] == s[q..j] + sep;
    forall k | 0 <= k < j - q
      ensures !Exact(sep).Occurs(s[q..j] + sep, k)
    {
      OccursShift(Exact(sep), s, q, k);
      if k + |sep| <= j - q + |sep| {
        OccursPrefix(sep, t, j - q + |sep|, k);
      }
    }
  }

  lemma SplitNone(t: string, sep: string)
    requires Free(t, sep, |t|)
    ensures LeftmostSplit(t, sep, [t])
  {
  }

  lemma SplitCons(head: string, sep: string, tail: string, fields: seq<string>)
    requires LeftmostSplit(tail, sep, fields) && Free(head + sep, sep, |head|)
    ensures LeftmostSplit(head + sep + tail, sep, [head] + fields)
  {
    var all := [head] + fields;
    assert all[1..] == fields;
    forall i | 0 <= i < |all| - 1
      ensures Free(all[i] + sep, sep, |all[i]|)
    {
      if i > 0 {
        assert all[i] == fields[i - 1];
      }
    }
  }

  /** The field texts of `s` from `q` on. */
  function Split(d: Separator, stop: set<char>, s: string, q: nat): seq<string>
    requires q <= |s|
  {
    SpansOrdered(d, stop, s, q);
    Texts(s, Spans(d, stop, s, q))
  }

  lemma SplitUnfold(d: Separator, s: string, q: nat)
    requires q <= |s|
    ensures var j := Next(d, {}, s, q);
      Split(d, {}, s, q) == if j == |s| then [s[q..]] else [s[q..j]] + Split(d, {}, s, j + d.Length())
  {
    hide Next, Spans, Separator.Length;
    var j := Next(d, {}, s, q);
    SpansUnfold(d, {}, s, q);
    SpansOrdered(d, {}, s, q);
    if j == |s| {
      TextsCons(s, Span(q, j), []);
      hide Ordered, Texts;
      assert [Span(q, j)] + [] == [Span(q, j)] && s[q..] == s[q..j];
    } else {
      SpansOrdered(d, {}, s, j + d.Length());
      TextsCons(s, Span(q, j), Spans(d, {}, s, j + d.Length()));
      hide Ordered, Texts;
    }
  }

  /** No occurrence from `q` on is no occurrence in the tail. */
  lemma FreeTail(s: string, sep: string, q: nat)
    requires q <= |s| && forall k :: q <= k < |s| ==> !Exact(sep).Occurs(s, k)
    ensures Free(s[q..], sep, |s| - q)
  {
    hide Separator.Occurs;
    forall k | 0 <= k < |s| - q
      ensures !Exact(sep).Occurs(s[q..], k)
    {
      OccursShift(Exact(sep), s, q, k);
    }
  }

  /** The reference splitter produces the declarative split, from every position. */
  lemma {:induction false} SplitIsLeftmost(s: string, sep: string, q: nat)
    requires q <= |s|
    ensures LeftmostSplit(s[q..], sep, Split(Exact(sep), {}, s, q))
    decreases |s| - q
  {
    hide *;
    var d := Exact(sep);
    var j := Next(d, {}, s, q);
    assert d.Length() == |sep| by { ExactLength(sep); }
    SplitUnfold(d, s, q);
    NextSpec(d, {}, s, q);
    if j == |s| {
      FreeTail(s, sep, q);
      SplitNone(s[q..], sep);
    } else {
      SplitIsLeftmost(s, sep, j + |sep|);
      SplitStep(s, sep, q, j);
      SplitCons(s[q..j], sep, s[j + |sep|..], Split(d, {}, s, j + |sep|));
    }
  }

  lemma ExactLength(sep: string)
    ensures Exact(sep).Length() == |sep|
  {
  }

  /** In a glued list, an occurrence of the separator follows the first field. */
  lemma JoinHead(fields: seq<string>, sep: string)
    requires |fields| > 1
    ensures var s := Join(fields, sep); var n := |fields[0]| + |sep|;
      |s| >= n && s[..n] == fields[0] + sep && s[n..] == Join(fields[1..], sep)
      && s[..|fields[0]|] == fields[0] && s[|fields[0]|..n] == sep
  {
  }

  /** In a leftmost split of two or more fields the first occurrence is right after the first field. */
  lemma FirstCut(s: string, sep: string, f: seq<string>)
    requires sep != [] && LeftmostSplit(s, sep, f) && |f| > 1
    ensures Exact(sep).Occurs(s, |f[0]|) && Free(s, sep, |f[0]|)
    ensures LeftmostSplit(s[|f[0]| + |sep|..], sep, f[1..])
  {
    JoinHead(f, sep);
    StandsSlice(sep, s, |f[0]|);
    var n := |f[0]| + |sep|;
    forall k | 0 <= k < |f[0]|
      ensures !Exact(sep).Occurs(s, k)
    {
      OccursPrefix(sep, s, n, k);
      assert !Exact(sep).Occurs(f[0] + sep, k);
    }
    forall i | 0 <= i < |f[1..]| - 1
      ensures Free(f[1..][i] + sep, sep, |f[1..][i]|)
    {
      assert f[1..][i] == f[i + 1];
    }
  }

  /** Exactly one list of fields is a leftmost split. */
  lemma {:induction false} SplitUnique(s: string, sep: string, f: seq<string>, g: seq<string>)
    requires sep != [] && LeftmostSplit(s, sep, f) && LeftmostSplit(s, sep, g)
    ensures f == g
    decreases |f|
  {
    if |f| > 1 {
      FirstCut(s, sep, f);
    }
    if |g| > 1 {
      FirstCut(s, sep, g);
    }
    if |f| > 1 && |g| > 1 {
      assert |f[0]| == |g[0]|;
      JoinHead(f, sep);
      JoinHead(g, sep);
      SplitUnique(s[|f[0]| + |sep|..], sep, f[1..], g[1..]);
      assert f == [f[0]] + f[1..] && g == [g[0]] + g[1..];
    } else if |f| == 1 && |g| == 1 {
    }
  }

  /** One-character string separators and one-element sets split alike. */
  lemma {:induction false} OneCharacter(c: char, stop: set<char>, s: string, q: nat)
    requires q <= |s|
    ensures Spans(Exact([c]), stop, s, q) == Spans(AnyOf({c}), stop, s, q)
    decreases |s| - q
  {
    forall k | 0 <= k <= |s|
      ensures Exact([c]).Occurs(s, k) == AnyOf({c}).Occurs(s, k)
    {
      if k < |s| {
        StandsSlice([c], s, k);
        assert s[k..k + 1] == [s[k]];
      }
    }
    NextSpec(Exact([c]), stop, s, q);
    var j := Next(Exact([c]), stop, s, q);
    NextIs(AnyOf({c}), stop, s, q, j);
    if j < |s| && s[j] !in stop {
      OneCharacter(c, stop, s, j + 1);
    }
  }

  /** On text without stop characters, stopping changes nothing. */
  lemma {:induction false} NoStop(d: Separator, stop: set<char>, s: string, q: nat)
    requires q <= |s| && (forall k :: 0 <= k < |s| ==> s[k] !in stop)
    ensures Spans(d, stop, s, q) == Spans(d, {}, s, q)
    decreases |s| - q
  {
    hide Next, Spans, Separator.Occurs, Separator.Length;
    NextSpec(d, stop, s, q);
    var j := Next(d, stop, s, q);
    NextIs(d, {}, s, q, j);
    SpansUnfold(d, stop, s, q);
    SpansUnfold(d, {}, s, q);
    if j < |s| {
      NoStop(d, stop, s, j + d.Length());
    }
  }

  /** The separator does not reach over a newline from a position where the scan would look for it. */
  predicate InLine(sep: string) {
    sep == [] || sep[0] == LF || LF !in sep[1..]
  }

  /** The line that begins at `q` ends at `e`. */
  ghost predicate LineEnds(s: string, q: nat, e: nat) {
    q <= e <= |s| && (e < |s| ==> s[e] == LF) && forall k :: q <= k < e ==> s[k] != LF
  }

  lemma OccursInLine(sep: string, s: string, e: nat, k: nat)
    requires InLine(sep) && LineEnds(s, k, e) && k < e
    ensures Exact(sep).Occurs(s, k) == Exact(sep).Occurs(s[..e], k)
  {
    if k + |sep| <= e {
      OccursPrefix(sep, s, e, k);
    } else if Exact(sep).Occurs(s, k) {
      OccursAt(sep, s, k, e - k);
      assert false;
    }
  }

  lemma OccursAt(sep: string, s: string, k: nat, i: nat)
    requires Exact(sep).Occurs(s, k) && i < |sep|
    ensures k + i < |s| && sep[i] == s[k + i]
    ensures i > 0 ==> sep[1..][i - 1] == s[k + i]
  {
    StandsSlice(sep, s, k);
    assert s[k..k + |sep|][i] == s[k + i];
  }

  lemma NextInLine(sep: string, s: string, q: nat, e: nat)
    requires InLine(sep) && LineEnds(s, q, e)
    ensures Next(Exact(sep), {LF}, s, q) == Next(Exact(sep), {}, s[..e], q)
  {
    hide Separator.Occurs, Next, InLine;
    var d, t := Exact(sep), s[..e];
    var j := Next(d, {}, t, q);
    NextSpec(d, {}, t, q);
    forall k | q <= k <= j && k < e
      ensures d.Occurs(s, k) == d.Occurs(t, k)
    {
      OccursInLine(sep, s, e, k);
    }
    NextIs(d, {LF}, s, q, j);
  }

  /** Stopping at a newline is the same as looking at the line only. */
  lemma {:induction false} SpansInLine(sep: string, s: string, q: nat, e: nat)
    requires InLine(sep) && LineEnds(s, q, e)
    ensures Spans(Exact(sep), {LF}, s, q) == Spans(Exact(sep), {}, s[..e], q)
    decreases |s| - q
  {
    hide Next, Spans, Separator.Length, InLine;
    var d, t := Exact(sep), s[..e];
    var j := Next(d, {LF}, s, q);
    NextInLine(sep, s, q, e);
    SpansUnfold(d, {LF}, s, q);
    SpansUnfold(d, {}, t, q);
    if j < e {
      SpansInLine(sep, s, j + d.Length(), e);
    }
  }

  ghost predicate LineWise(sep: string, s: string) {
    Spans(Exact(sep), {LF}, s, 0) == Spans(Exact(sep), {}, s[..FirstIn({LF}, s, 0)], 0)
  }

  /** A separator with a newline inside takes the scan over the end of the line, for instance on itself. */
  lemma LeavesLine(sep: string)
    requires !InLine(sep)
    ensures !LineWise(sep, sep)
  {
    var d, e := Exact(sep), FirstIn({LF}, sep, 0);
    var t := sep[..e];
    assert 0 < e < |sep|;
    assert d.Occurs(sep, 0) by {
      StandsSlice(sep, sep, 0);
    }
    NextIs(d, {LF}, sep, 0, 0);
    NextIs(d, {}, t, 0, e);
    SpansUnfold(d, {LF}, sep, 0);
    SpansUnfold(d, {}, t, 0);
    hide Spans, Next, FirstIn, Separator.Occurs;
    assert |Spans(d, {LF}, sep, 0)| > 1;
  }

  /** All texts are split as their first lines are, exactly for the separators that stay in a line. */
  lemma LineWiseIff(sep: string)
    ensures (forall s :: LineWise(sep, s)) <==> InLine(sep)
  {
    hide Spans, FirstIn;
    if InLine(sep) {
      forall s
        ensures LineWise(sep, s)
      {
        SpansInLine(sep, s, 0, FirstIn({LF}, s, 0));
      }
    } else {
      LeavesLine(sep);
    }
  }
}
