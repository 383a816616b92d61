/**
 What the two `TLineSplitter` overloads deliver, for every separator and every text.
 */
module LineSplitterLaws {
  import opened CStrings
  import opened Separators
  import opened SplitTheory
  import opened LineSplitters

  /** The C strings at the reported starts. */
  function Strings(c: string, starts: seq<nat>): seq<string>
    requires forall i :: 0 <= i < |starts| ==> starts[i] <= |c|
  {
    seq(|starts|, i requires 0 <= i < |starts| => CStr(c, starts[i]))
  }

  /** Every scanned field ends at the end of the text or at a separator, and holds none. */
  ghost predicate Shaped(d: Separator, s: string, x: Span) {
    && x.lo <= x.hi <= |s| && (x.hi == |s| || d.Occurs(s, x.hi))
    && (forall k :: x.lo <= k < x.hi ==> !d.Occurs(s, k))
  }

  lemma {:induction false} SpansShaped(d: Separator, s: string, q: nat)
    requires q <= |s|
    ensures forall i :: 0 <= i < |Spans(d, {}, s, q)| ==> Shaped(d, s, Spans(d, {}, s, q)[i])
    decreases |s| - q
  {
    NextSpec(d, {}, s, q);
    var j := Next(d, {}, s, q);
    if j < |s| {
      SpansShaped(d, s, j + d.Length());
    }
  }

  /** The kept fields are some of the scanned fields, in order. */
  lemma {:induction false} KeptSome(sp: LineSplitter, s: string, r: seq<Span>)
    ensures forall x :: x in sp.Kept(s, r) ==> x in r
    ensures !sp.noEmpty ==> sp.Kept(s, r) == r
  {
    if r != [] {
      KeptSome(sp, s, r[..|r| - 1]);
      assert r == r[..|r| - 1] + [r[|r| - 1]];
    }
  }

  /** The texts that are neither empty nor begin like a separator. */
  function Visible(heads: set<char>, t: seq<string>): seq<string> {
    if t == [] then []
    else var f := t[|t| - 1];
      Visible(heads, t[..|t| - 1]) + if |f| > 0 && f[0] !in heads then [f] else []
  }

  function NonEmpty(t: seq<string>): seq<string> {
    if t == [] then [] else NonEmpty(t[..|t| - 1]) + if |t[|t| - 1]| > 0 then [t[|t| - 1]] else []
  }

  lemma KeepsShaped(sp: LineSplitter, s: string, x: Span)
    requires Shaped(sp.sep, s, x)
    ensures sp.Keeps(s, x) <==> !sp.noEmpty || (Text(s, x) != "" && Text(s, x)[0] !in sp.sep.Heads())
  {
  }

  /** With `noEmpty` exactly the visible fields are kept. */
  lemma {:induction false} KeptVisible(sp: LineSplitter, s: string, r: seq<Span>)
    requires sp.noEmpty && forall i :: 0 <= i < |r| ==> Shaped(sp.sep, s, r[i]) && r[i].lo <= r[i].hi <= |s|
    ensures forall x :: x in sp.Kept(s, r) ==> x.lo <= x.hi <= |s|
    ensures Texts(s, sp.Kept(s, r)) == Visible(sp.sep.Heads(), Texts(s, r))
  {
    KeptSome(sp, s, r);
    if r != [] {
      var m := |r| - 1;
      KeptVisible(sp, s, r[..m]);
      KeepsShaped(sp, s, r[m]);
      assert Texts(s, r)[..m] == Texts(s, r[..m]);
    }
  }

  /** Dropping what begins like a separator drops only empty fields exactly when no other field does so. */
  lemma {:induction false} VisibleIff(heads: set<char>, t: seq<string>)
    ensures |Visible(heads, t)| <= |NonEmpty(t)|
    ensures Visible(heads, t) == NonEmpty(t) <==> forall i :: 0 <= i < |t| && t[i] != "" ==> t[i][0] !in heads
  {
    if t != [] {
      var m := |t| - 1;
      VisibleIff(heads, t[..m]);
      assert forall i :: 0 <= i < m ==> t[..m][i] == t[i];
      if Visible(heads, t) == NonEmpty(t) {
        assert t[m] != "" ==> t[m][0] !in heads;
        var a, b := Visible(heads, t[..m]), NonEmpty(t[..m]);
        assert |a| == |b|;
        assert a == Visible(heads, t)[..|a|] && b == NonEmpty(t)[..|b|];
      }
    }
  }

  lemma KeptInside(sp: LineSplitter, b: string)
    requires NUL in b
    ensures var s := CStr(b, 0);
      && Ordered(sp.All(s), |s|) && |s| < |b|
      && (forall x :: x in sp.Fields(s) ==> x in sp.All(s) && x.lo <= x.hi <= |s|)
  {
    var s := CStr(b, 0);
    SpansOrdered(sp.sep, {}, s, 0);
    KeptSome(sp, s, sp.All(s));
    hide Spans, LineSplitter.Kept;
  }

  /** The fields a caller finds at the reported starts of the buffer the splitter leaves. */
  function Delivered(sp: LineSplitter, b: string): seq<string>
    requires NUL in b
  {
    KeptInside(sp, b);
    var s := CStr(b, 0);
    Strings(Cut(b, sp.All(s)), Starts(sp.Fields(s)))
  }

  /** Where the buffer is cut after the spans `all`, each of them can be read back. */
  lemma StringsOf(b: string, s: string, all: seq<Span>, r: seq<Span>)
    requires Carries(b, s) && Ordered(all, |s|) && forall i :: 0 <= i < |r| ==> r[i] in all
    ensures forall i :: 0 <= i < |r| ==> r[i].lo <= r[i].hi <= |s|
    ensures Strings(Cut(b, all), Starts(r)) == Texts(s, r)
  {
    assert forall i :: 0 <= i < |r| ==> r[i].lo <= r[i].hi <= |s|;
    hide Cut, Carries, Ordered, Text, CStr;
    forall i | 0 <= i < |r|
      ensures CStr(Cut(b, all), r[i].lo) == Text(s, r[i])
    {
      var j :| 0 <= j < |all| && all[j] == r[i];
      CutField(b, s, all, j);
    }
  }

  lemma DeliveredTexts(sp: LineSplitter, b: string)
    requires NUL in b
    ensures var s := CStr(b, 0); var r := sp.Fields(s);
      (forall i :: 0 <= i < |r| ==> r[i].lo <= r[i].hi <= |s|) && Delivered(sp, b) == Texts(s, r)
  {
    KeptInside(sp, b);
    hide LineSplitter.Fields, Spans, Cut;
    var s := CStr(b, 0);
    TextCarried(b);
    hide CStr, Carries, Ordered;
    StringsOf(b, s, sp.All(s), sp.Fields(s));
  }

  /**
   The splitter that keeps empty fields delivers the leftmost split of the text, exactly if there is
   text: glued with the separator the fields give the text back, and no other list of leftmost
   fields does.  Of the empty text it delivers no field, not the one empty field of its split.
   */
  lemma InPlaceSplit(sp: LineSplitter, b: string)
    requires NUL in b && sp.sep.Exact? && sp.sep.text != [] && !sp.noEmpty
    ensures LeftmostSplit(CStr(b, 0), sp.sep.text, Delivered(sp, b)) <==> b[0] != NUL
    ensures b[0] == NUL <==> Delivered(sp, b) == []
    ensures b[0] != NUL ==> forall f :: LeftmostSplit(CStr(b, 0), sp.sep.text, f) ==> f == Delivered(sp, b)
  {
    var s := CStr(b, 0);
    assert s == "" <==> b[0] == NUL;
    DeliveredTexts(sp, b);
    if s == "" {
      return;
    }
    KeptSome(sp, s, sp.All(s));
    SplitIsLeftmost(s, sp.sep.text, 0);
    assert s[0..] == s;
    hide *;
    forall f | LeftmostSplit(s, sp.sep.text, f)
      ensures f == Delivered(sp, b)
    {
      SplitUnique(s, sp.sep.text, f, Delivered(sp, b));
    }
  }

  /** No field begins with a separator's first character, unless it is empty. */
  ghost predicate NoFalseStart(d: Separator, t: seq<string>) {
    forall i :: 0 <= i < |t| && t[i] != "" ==> t[i][0] !in d.Heads()
  }

  lemma OneCharacterHeads(d: Separator, s: string)
    requires d.Length() == 1
    ensures NoFalseStart(d, Split(d, {}, s, 0))
  {
    var r, t := Spans(d, {}, s, 0), Split(d, {}, s, 0);
    SpansShaped(d, s, 0);
    forall i | 0 <= i < |t| && t[i] != ""
      ensures t[i][0] !in d.Heads()
    {
      assert Shaped(d, s, r[i]);
      assert !d.Occurs(s, r[i].lo);
      if d.Exact? && s[r[i].lo] == d.text[0] {
        assert Stands(d.text[1..], s, r[i].lo + 1);
      }
    }
  }

  /**
   What `noEmpty` delivers, for every separator: the fields of the split that are neither empty nor
   begin with a separator's first character.  These are all the non-empty fields exactly when no
   field begins that way, which one-character separators and separator sets guarantee.
   */
  lemma NoEmptyLaw(sp: LineSplitter, b: string)
    requires NUL in b && sp.noEmpty
    ensures var all := Split(sp.sep, {}, CStr(b, 0), 0);
      && Delivered(sp, b) == Visible(sp.sep.Heads(), all)
      && (Delivered(sp, b) == NonEmpty(all) <==> NoFalseStart(sp.sep, all))
      && (sp.sep.Length() == 1 ==> Delivered(sp, b) == NonEmpty(all))
  {
    var s := CStr(b, 0);
    DeliveredTexts(sp, b);
    SpansShaped(sp.sep, s, 0);
    SpansOrdered(sp.sep, {}, s, 0);
    KeptVisible(sp, s, sp.All(s));
    VisibleIff(sp.sep.Heads(), Split(sp.sep, {}, s, 0));
    if sp.sep.Length() == 1 {
      OneCharacterHeads(sp.sep, s);
    }
  }

  /** With `noEmpty` and the separator `ab`, the one-field line `a` yields no field at all. */
  lemma NoEmptyLosesField()
    ensures var d, b := Exact("ab"), ['a', NUL];
      Split(d, {}, CStr(b, 0), 0) == ["a"] && Delivered(LineSplitter(d, true), b) == []
  {
    var d, b, s := Exact("ab"), ['a', NUL], ['a'];
    CStrIs(b, 0, 1);
    assert b[0..1] == s;
    assert !Stands("ab", s, 0);
    NextIs(d, {}, s, 0, 1);
    SplitUnfold(d, s, 0);
    assert s[0..] == s;
    hide CStr, Split, Delivered;
    NoEmptyLaw(LineSplitter(d, true), b);
    assert Visible(d.Heads(), [s]) == Visible(d.Heads(), []);
  }

  /** How far the first pause of a field is from its start. */
  lemma PauseLength(sp: LineSplitter, s: string, x: Span)
    requires Shaped(sp.sep, s, x)
    ensures x.lo <= x.hi <= |s| && sp.Pause(s, x) <= x.hi
    ensures forall k :: x.lo <= k < sp.Pause(s, x) ==> s[k] !in sp.sep.Heads()
    ensures sp.Pause(s, x) < x.hi ==> s[sp.Pause(s, x)] in sp.sep.Heads()
    ensures sp.Pause(s, x) == x.hi <==> forall c :: c in Text(s, x) ==> c !in sp.sep.Heads()
    ensures sp.sep.Length() == 1 ==> sp.Pause(s, x) == x.hi
  {
    hide FirstIn;
    var e := sp.Pause(s, x);
    if e < x.hi {
      assert Text(s, x)[e - x.lo] == s[e];
      if sp.sep.Length() == 1 {
        assert !sp.sep.Occurs(s, e);
        assert sp.sep.Exact? ==> Stands(sp.sep.text[1..], s, e + 1);
      }
    }
  }

  /**
   The reading overload reports the same fields by start; its length runs up to the first character of
   the field that can begin a separator, and so is the field's true length exactly when there is none;
   one-character separators and separator sets never miss.
   */
  lemma ConstLength(sp: LineSplitter, s: string, i: nat)
    requires i < |sp.Fields(s)|
    ensures var r := sp.Fields(s); var x, piece := r[i], sp.Pieces(s, r)[i];
      && |sp.Pieces(s, r)| == |Starts(r)| && piece.start == Starts(r)[i] == x.lo
      && x.lo <= x.hi <= |s| && piece.length <= |Text(s, x)|
      && (forall k :: 0 <= k < piece.length ==> Text(s, x)[k] !in sp.sep.Heads())
      && (piece.length < |Text(s, x)| ==> Text(s, x)[piece.length] in sp.sep.Heads())
      && (piece.length == |Text(s, x)| <==> forall c :: c in Text(s, x) ==> c !in sp.sep.Heads())
      && (sp.sep.Length() == 1 ==> piece.length == |Text(s, x)|)
  {
    var r, x := sp.Fields(s), sp.Fields(s)[i];
    assert sp.Pieces(s, r)[i] == Piece(x.lo, sp.Pause(s, x) - x.lo) && |sp.Pieces(s, r)| == |Starts(r)|;
    assert Starts(r)[i] == x.lo;
    assert Shaped(sp.sep, s, x) by {
      KeptSome(sp, s, sp.All(s));
      SpansShaped(sp.sep, s, 0);
      hide LineSplitter.Kept, Spans, Shaped;
      assert x in sp.All(s);
    }
    hide *;
    PauseLength(sp, s, x);
    TextRead(s, x);
  }

  lemma TextRead(s: string, x: Span)
    requires x.lo <= x.hi <= |s|
    ensures |Text(s, x)| == x.hi - x.lo && forall k :: 0 <= k < x.hi - x.lo ==> Text(s, x)[k] == s[x.lo + k]
  {
  }
}
