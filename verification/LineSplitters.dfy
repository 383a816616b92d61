/**
 `TLineSplitter`: the splitter that writes zeros over separators, and the one that leaves
 the text alone and reports lengths.
 */
module LineSplitters {
  import opened CStrings
  import opened Separators

  /** From `p` on the buffer still holds the text `s` and its terminating zero. */
  ghost predicate Untouched(s: string, c: string, p: nat) {
    && p <= |s| < |c| && c[|s|] == NUL && NUL !in s
    && (forall k :: p <= k < |s| ==> c[k] == s[k])
  }

  /** A zero written behind the position is not seen. */
  lemma StillUntouched(s: string, c: string, p: nat, k: nat, q: nat)
    requires Untouched(s, c, p) && p <= q <= |s| && k < |c| && (k < q || k == |s|)
    ensures Untouched(s, c, q) && Untouched(s, c[k := NUL], q)
  {
  }

  /** Only the terminating zero is seen as one. */
  lemma UntouchedEnd(s: string, c: string, p: nat)
    requires Untouched(s, c, p)
    ensures p <= |s| < |c| && (c[p] == NUL <==> p == |s|) && (p < |s| ==> c[p] == s[p])
  {
  }

  /** `str_spn::brk`: the first character of the set, or the terminating zero. */
  method Brk(cs: set<char>, buf: array<char>, p: nat, ghost s: string) returns (r: nat)
    requires Untouched(s, buf[..], p)
    ensures r == FirstIn(cs, s, p)
  {
    r := p;
    while buf[r] != NUL && buf[r] !in cs
      invariant p <= r <= |s|
      invariant FirstIn(cs, s, p) == FirstIn(cs, s, r)
      decreases buf.Length - r
    {
      r := r + 1;
    }
  }

  function Starts(r: seq<Span>): seq<nat> {
    seq(|r|, i requires 0 <= i < |r| => r[i].lo)
  }

  /** `c` is `b` with a zero at the end of every span. */
  ghost predicate IsCut(b: string, r: seq<Span>, c: string) {
    (forall i :: 0 <= i < |r| ==> r[i].hi < |b|) && c == Cut(b, r)
  }

  lemma CutMore(b: string, r: seq<Span>, c: string, x: Span)
    requires IsCut(b, r, c) && x.hi < |c|
    ensures IsCut(b, r + [x], c[x.hi := NUL])
  {
    CutSnoc(b, r, x);
  }

  /** A field with its length, as the reading splitter reports it. */
  datatype Piece = Piece(start: nat, length: nat)

  datatype LineSplitter = LineSplitter(sep: Separator, noEmpty: bool) {

    /** All fields of the text, before any is left out. */
    function All(s: string): seq<Span> {
      Spans(sep, {}, s, 0)
    }

    /** Where the scan for a field first pauses: at a separator's first character or at the end. */
    function Pause(s: string, x: Span): (e: nat)
      ensures x.lo <= e
    {
      if x.lo <= |s| then FirstIn(sep.Heads(), s, x.lo) else x.lo
    }

    /** A field is reported unless `noEmpty` is set and the scan pauses where the field begins. */
    predicate Keeps(s: string, x: Span) {
      Pause(s, x) > x.lo || !noEmpty
    }

    function Kept(s: string, r: seq<Span>): seq<Span> {
      if r == [] then []
      else Kept(s, r[..|r| - 1]) + if Keeps(s, r[|r| - 1]) then [r[|r| - 1]] else []
    }

    /** The fields reported of a text; the empty text has none. */
    function Fields(s: string): seq<Span> {
      if s == "" then [] else Kept(s, All(s))
    }

    /** The fields as the reading splitter reports them: up to the first pause. */
    function Pieces(s: string, r: seq<Span>): seq<Piece> {
      seq(|r|, i requires 0 <= i < |r| => Piece(r[i].lo, Pause(s, r[i]) - r[i].lo))
    }

    /** The fields reported so far; the current field counts once the scan has paused in it. */
    ghost function Reported(s: string, done: seq<Span>, cur: nat, paused: bool): seq<Span>
      requires cur <= |s|
    {
      Kept(s, if paused then done + [Spans(sep, {}, s, cur)[0]] else done)
    }

    lemma OnPause(s: string, done: seq<Span>, cur: nat)
      requires cur <= |s|
      ensures var before, after := Reported(s, done, cur, false), Reported(s, done, cur, true);
        var n := FirstIn(sep.Heads(), s, cur) - cur;
        if n > 0 || !noEmpty then
          Starts(after) == Starts(before) + [cur] && Pieces(s, after) == Pieces(s, before) + [Piece(cur, n)]
        else after == before
    {
      var x := Spans(sep, {}, s, cur)[0];
      assert (done + [x])[..|done|] == done;
    }

    /** Moving on to the next pause. */
    lemma ToPause(s: string, c: string, done: seq<Span>, cur: nat, p: nat)
      requires Scanning(sep, {}, s, done, cur, p) && Untouched(s, c, p)
      ensures var e := FirstIn(sep.Heads(), s, p);
        && Scanning(sep, {}, s, done, cur, e) && Untouched(s, c, e)
        && (c[e] == NUL <==> e == |s|) && (e < |s| ==> s[e] in sep.Heads())
    {
    }

    /** At the last pause the field is closed and nothing follows. */
    lemma AtEnd(s: string, done: seq<Span>, cur: nat)
      requires Scanning(sep, {}, s, done, cur, |s|)
      ensures All(s) == done + [Span(cur, |s|)]
      ensures s != "" ==> Reported(s, done, cur, true) == Fields(s)
    {
      ScanEnd(sep, {}, s, done, cur, |s|);
    }

    /** The test made at a pause. */
    predicate Test(c: string, p: nat) {
      sep.Length() == 1 || (sep.Length() > 1 && Stands(sep.text[1..], c, p + 1))
    }

    lemma TestDecides(s: string, c: string, p: nat)
      requires sep.Exact? ==> NUL !in sep.text
      requires Untouched(s, c, p) && p < |s| && s[p] in sep.Heads()
      ensures Test(c, p) <==> sep.Occurs(s, p)
    {
      if sep.Exact? && |sep.text| > 1 {
        StandsFrame(sep.text[1..], c, s, p + 1);
      } else if sep.Exact? {
        assert Stands(sep.text[1..], s, p + 1);
      }
    }

    lemma CloseField(s: string, done: seq<Span>, cur: nat, p: nat)
      requires Scanning(sep, {}, s, done, cur, p) && sep.Occurs(s, p)
      ensures var e, done' := p + sep.Length(), done + [Span(cur, p)];
        Scanning(sep, {}, s, done', e, e) && Reported(s, done', e, false) == Reported(s, done, cur, true)
    {
      ScanSeparator(sep, {}, s, done, cur, p);
      hide Spans, Scanning;
    }

    /** A pause at a separator closes the field; the next one begins after the separator. */
    lemma AtSeparator(s: string, c: string, done: seq<Span>, cur: nat, p: nat)
      requires sep.Exact? ==> NUL !in sep.text
      requires Scanning(sep, {}, s, done, cur, p) && Untouched(s, c, p)
      requires p < |s| && s[p] in sep.Heads() && Test(c, p)
      ensures 0 < sep.Length() && p + sep.Length() <= |s|
      ensures var e, done' := p + sep.Length(), done + [Span(cur, p)];
        && Scanning(sep, {}, s, done', e, e) && Untouched(s, c, e) && Untouched(s, c[p := NUL], e)
        && Reported(s, done', e, false) == Reported(s, done, cur, true)
    {
      TestDecides(s, c, p);
      CloseField(s, done, cur, p);
      hide Scanning, Reported;
    }

    /** A pause anywhere else stays in the field. */
    lemma AtOther(s: string, c: string, done: seq<Span>, cur: nat, p: nat)
      requires sep.Exact? ==> NUL !in sep.text
      requires Scanning(sep, {}, s, done, cur, p) && Untouched(s, c, p)
      requires p < |s| && s[p] in sep.Heads() && !Test(c, p)
      ensures Scanning(sep, {}, s, done, cur, p + 1) && Untouched(s, c, p + 1)
    {
      TestDecides(s, c, p);
    }

    lemma Begin(b: string)
      requires NUL in b
      ensures var s := CStr(b, 0);
        && (s == "" <==> b[0] == NUL) && Scanning(sep, {}, s, [], 0, 0) && Untouched(s, b, 0)
        && Starts(Reported(s, [], 0, false)) == [] && Pieces(s, Reported(s, [], 0, false)) == [] && IsCut(b, [], b)
        && (s == "" ==> Starts(Fields(s)) == [] && Pieces(s, Fields(s)) == [])
    {
    }

    method SplitInPlace(buf: array?<char>, fields: seq<nat>) returns (r: seq<nat>)
      requires sep.Exact? ==> NUL !in sep.text
      requires buf != null ==> NUL in buf[..]
      modifies buf
      ensures buf == null ==> r == fields
      ensures buf != null ==>
        var s := old(CStr(buf[..], 0));
        && r == fields + Starts(Fields(s))
        && if s == "" then buf[..] == old(buf[..]) else IsCut(old(buf[..]), All(s), buf[..])
    {
      hide *;
      r := fields;
      if buf == null {
        return;
      }
      ghost var b := buf[..];
      Begin(b);
      if buf[0] == NUL {
        return;
      }
      ghost var s := CStr(b, 0);
      var p: nat, q := 0, At(0);
      ghost var cur: nat, done: seq<Span> := 0, [];
      while true
        invariant cur <= p <= |s| && (q.Null? || (q == At(cur) && p == cur))
        invariant Scanning(sep, {}, s, done, cur, p) && Untouched(s, buf[..], p) && IsCut(b, done, buf[..])
        invariant r == fields + Starts(Reported(s, done, cur, q.Null?))
        decreases |s| - p
      {
        ToPause(s, buf[..], done, cur, p);
        OnPause(s, done, cur);
        p := Brk(sep.Heads(), buf, p, s);
        if q.At? && (p - q.index > 0 || !noEmpty) {
          r := r + [q.index];
        }
        q := Null;
        if buf[p] == NUL {
          break;
        }
        if Test(buf[..], p) {
          AtSeparator(s, buf[..], done, cur, p);
          CutMore(b, done, buf[..], Span(cur, p));
          done := done + [Span(cur, p)];
          buf[p] := NUL;
          p := p + sep.Length();
          q, cur := At(p), p;
        } else {
          AtOther(s, buf[..], done, cur, p);
          p := p + 1;
        }
      }
      AtEnd(s, done, cur);
      CutMore(b, done, buf[..], Span(cur, |s|));
      assert buf[..] == buf[..][|s| := NUL];
    }

    method SplitConst(buf: array?<char>, fields: seq<Piece>) returns (r: seq<Piece>)
      requires sep.Exact? ==> NUL !in sep.text
      requires buf != null ==> NUL in buf[..]
      ensures buf == null ==> r == fields
      ensures buf != null ==>
        var s := CStr(buf[..], 0);
        r == fields + Pieces(s, Fields(s))
    {
      hide *;
      r := fields;
      if buf == null {
        return;
      }
      Begin(buf[..]);
      if buf[0] == NUL {
        return;
      }
      ghost var s := CStr(buf[..], 0);
      var p: nat, q := 0, At(0);
      ghost var cur: nat, done: seq<Span> := 0, [];
      while true
        invariant cur <= p <= |s| && (q.Null? || (q == At(cur) && p == cur))
        invariant Scanning(sep, {}, s, done, cur, p) && Untouched(s, buf[..], p)
        invariant r == fields + Pieces(s, Reported(s, done, cur, q.Null?))
        decreases |s| - p
      {
        ToPause(s, buf[..], done, cur, p);
        OnPause(s, done, cur);
        p := Brk(sep.Heads(), buf, p, s);
        if q.At? && (p - q.index > 0 || !noEmpty) {
          r := r + [Piece(q.index, p - q.index)];
        }
        q := Null;
        if buf[p] == NUL {
          break;
        }
        if Test(buf[..], p) {
          AtSeparator(s, buf[..], done, cur, p);
          done := done + [Span(cur, p)];
          p := p + sep.Length();
          q, cur := At(p), p;
        } else {
          AtOther(s, buf[..], done, cur, p);
          p := p + 1;
        }
      }
      AtEnd(s, done, cur);
    }
  }
}
