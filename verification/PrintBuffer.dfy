/**
 `prnstr`: a character buffer that doubles when an append does not fit.
 */
module PrintBuffer {
  import opened Basics
  import opened CStrings

  /** The growth loop: doubling until more than `need` fits. */
  function DoubledPast(asize: nat, need: nat): (a: nat)
    requires asize > 0
    ensures a > need && a >= asize
    decreases need + 1 - asize
  {
    if asize > need then asize else DoubledPast(2 * asize, need)
  }

  lemma {:induction false} DoubledAtMost(asize: nat, need: nat)
    requires asize > 0
    ensures DoubledPast(asize, need) <= if asize > need then asize else 2 * need
    decreases need + 1 - asize
  {
    if asize <= need {
      DoubledAtMost(2 * asize, need);
    }
  }

  /** `a` doubled some number of times is `b`. */
  predicate DoublesTo(a: nat, b: nat)
    requires a > 0
    decreases b
  {
    a == b || (b > a && b % 2 == 0 && DoublesTo(a, b / 2))
  }

  lemma {:induction false} DoublesOnce(a: nat, b: nat)
    requires a > 0 && (a == b || DoublesTo(2 * a, b))
    ensures DoublesTo(a, b)
    decreases b
  {
    if 2 * a == b {
      assert b / 2 == a;
    } else if a != b {
      DoublesOnce(a, b / 2);
    }
  }

  /** It stops at the first doubling that is large enough. */
  lemma {:induction false} DoubledFirst(asize: nat, need: nat)
    requires asize > 0
    ensures var a := DoubledPast(asize, need); DoublesTo(asize, a) && (a == asize || a / 2 <= need)
    decreases need + 1 - asize
  {
    if asize <= need {
      DoubledFirst(2 * asize, need);
      DoublesOnce(asize, DoubledPast(asize, need));
    }
  }

  /** An append reallocates exactly if the text and its zero do not fit, and then copies what was there. */
  lemma AppendIs(m: Meter, k: nat)
    requires m.Valid()
    ensures var r := m.Append(k);
      && r.pos == m.pos + k
      && (m.pos + k + 1 <= m.asize ==> r.asize == m.asize && r.copied == m.copied)
      && (m.pos + k + 1 > m.asize ==>
            && r.copied == m.copied + m.pos && r.asize >= 2 * m.asize && DoublesTo(2 * m.asize, r.asize)
            && (r.asize == 2 * m.asize || r.asize / 2 <= k + 2 * m.pos < r.asize))
  {
    DoubledFirst(2 * m.asize, k + 2 * m.pos);
    hide DoublesTo;
  }

  /** Size of the buffer, characters in it, and characters copied by reallocations so far. */
  datatype Meter = Meter(asize: nat, pos: nat, copied: nat) {

    predicate Valid() {
      0 < asize && pos < asize
    }

    /** An append of `k` characters; it reallocates if they and the zero do not fit. */
    function Append(k: nat): (m: Meter)
      requires Valid()
      ensures m.Valid()
    {
      if k < asize - pos then Meter(asize, pos + k, copied)
      else Meter(DoubledPast(2 * asize, k + 2 * pos), pos + k, copied + pos)
    }

    /** The amortised bounds, for a buffer that began with `initial` characters of room. */
    predicate Bounded(initial: nat) {
      && (asize <= initial || asize <= 4 * pos)
      && copied <= 2 * pos && copied <= asize
    }
  }

  lemma AppendBounded(m: Meter, initial: nat, k: nat)
    requires m.Valid() && m.Bounded(initial)
    ensures m.Append(k).Valid() && m.Append(k).Bounded(initial)
  {
    if k >= m.asize - m.pos {
      DoubledAtMost(2 * m.asize, k + 2 * m.pos);
    }
  }

  function Sum(ks: seq<nat>): nat {
    if ks == [] then 0 else ks[0] + Sum(ks[1..])
  }

  /** The meter after a run of appends. */
  function Run(m: Meter, ks: seq<nat>): (r: Meter)
    requires m.Valid()
    ensures r.Valid()
    decreases |ks|
  {
    if ks == [] then m else Run(m.Append(ks[0]), ks[1..])
  }

  /**
   Over any run of appends: all characters are counted, the buffer is no larger than it began or than
   four times its contents, and reallocations copied at most twice the contents.
   */
  lemma {:induction false} RunBounds(m: Meter, initial: nat, ks: seq<nat>)
    requires m.Valid() && m.Bounded(initial)
    ensures Run(m, ks).pos == m.pos + Sum(ks) && Run(m, ks).Bounded(initial)
    decreases |ks|
  {
    if ks != [] {
      AppendBounded(m, initial, ks[0]);
      hide Meter.Bounded;
      RunBounds(m.Append(ks[0]), initial, ks[1..]);
    }
  }

  /** What the formatter answers: a text, or a negative code. */
  datatype Formatted = Output(text: string) | Error(code: int)

  class PrnStr {
    var buf: array<char>
    var pos: int
    var asize: nat
    /** Room at the start of the current run of appends, characters copied since, whether a zero was written. */
    ghost var initial: nat
    ghost var copied: nat
    ghost var closed: bool

    ghost predicate Valid()
      reads this, buf
    {
      && 0 <= pos && buf.Length == asize && Count().Valid() && Count().Bounded(initial)
      && (closed ==> buf[pos] == NUL)
    }

    ghost function Count(): Meter
      reads this
      requires 0 <= pos
    {
      Meter(asize, pos, copied)
    }

    ghost function Contents(): string
      reads this, buf
      requires Valid()
    {
      buf[..pos]
    }

    constructor (asz: nat)
      requires asz > 0
      ensures Valid() && fresh(buf) && Contents() == "" && Count() == Meter(asz, 0, 0) && initial == asz
    {
      pos, asize, initial, copied, closed := 0, asz, asz, 0, false;
      buf := new char[asz];
    }

    /** The doubling loops of the growth code, and the copy into the new buffer. */
    method Grow(k: nat)
      requires buf.Length == asize && 0 <= pos < asize
      modifies this`buf, this`asize, this`copied
      ensures fresh(buf) && buf.Length == asize && pos < asize && buf[..pos] == old(buf[..pos])
      ensures asize == DoubledPast(2 * old(asize), k + 2 * pos) && copied == old(copied) + pos
    {
      var n, size := asize - pos + asize, 2 * asize;
      while k + pos >= n
        invariant n == size - pos && size > pos
        invariant DoubledPast(size, k + 2 * pos) == DoubledPast(2 * asize, k + 2 * pos)
        decreases k + 2 * pos + 1 - size
      {
        n, size := n + size, 2 * size;
      }
      var t := new char[size];
      forall i | 0 <= i < pos {
        t[i] := buf[i];
      }
      buf, asize := t, size;
      copied := copied + pos;
    }

    /** Makes room for `k` characters and a zero. */
    method Reserve(k: nat)
      requires 0 <= pos && buf.Length == asize && Count().Valid()
      modifies this`buf, this`asize, this`copied
      ensures buf.Length == asize && k < asize - pos && (buf == old(buf) || fresh(buf))
      ensures buf[..pos] == old(buf[..pos]) && Meter(asize, pos + k, copied) == old(Count()).Append(k)
    {
      hide DoubledPast;
      if k >= asize - pos {
        Grow(k);
      }
    }

    /** Takes over the text written at the end. */
    method Advance(k: nat, text: string)
      requires 0 <= pos && buf.Length == asize && k == |text| < asize - pos && buf[pos..pos + k] == text && buf[pos + k] == NUL
      modifies this`pos, this`closed
      ensures pos == old(pos) + k && closed && buf[pos] == NUL && buf[..pos] == old(buf[..pos]) + text
    {
      assert buf[..pos + k] == buf[..pos] + buf[pos..pos + k];
      pos, closed := pos + k, true;
    }

    /** `s(c, k)`: appends the text, if there is one. */
    method S(c: Option<string>) returns (k: nat)
      requires Valid()
      modifies this, buf
      ensures Valid() && initial == old(initial)
      ensures c.None? ==> k == 0 && Contents() == old(Contents()) && Count() == old(Count())
      ensures c.Some? ==> k == |c.value| && Contents() == old(Contents()) + c.value && Count() == old(Count()).Append(k)
                          && closed && buf[pos] == NUL
    {
      if c.None? {
        return 0;
      }
      k := |c.value|;
      AppendBounded(Count(), initial, k);
      Copy(c.value);
    }

    /** Makes room for the text and copies it. */
    method Copy(text: string)
      requires 0 <= pos && buf.Length == asize && Count().Valid()
      modifies this`buf, this`asize, this`copied, this`pos, this`closed, buf
      ensures 0 <= pos < asize == buf.Length && (buf == old(buf) || fresh(buf)) && closed && buf[pos] == NUL
      ensures buf[..pos] == old(buf[..pos]) + text && Count() == old(Count()).Append(|text|)
    {
      hide Meter.Append, Meter.Bounded;
      Reserve(|text|);
      Print(text);
      Advance(|text|, text);
    }

    /**
     `f`, given what the formatter answers.  A first attempt may be cut off and is then repeated.  An error
     code is added to the position like a length, so the buffer loses characters at its end.
     */
    method F(out: Formatted) returns (k: int)
      requires Valid() && (out.Output? ==> NUL !in out.text) && (out.Error? ==> out.code < 0)
      modifies this, buf
      ensures k == if out.Output? then |out.text| else out.code
      ensures pos == old(pos) + k
      ensures pos >= 0 ==> Valid()
      ensures out.Output? ==> Contents() == old(Contents()) + out.text && Count() == old(Count()).Append(k)
      ensures out.Output? ==> closed && buf[pos] == NUL && initial == old(initial)
      ensures out.Error? && pos >= 0 ==> Contents() == old(Contents())[..pos]
    {
      if out.Error? {
        k := out.code;
        pos, initial, copied, closed := pos + k, asize, 0, false;
        return;
      }
      k := |out.text|;
      AppendBounded(Count(), initial, k);
      PrintAll(out.text);
    }

    method PrintAll(out: string)
      requires 0 <= pos && buf.Length == asize && Count().Valid()
      modifies this`buf, this`asize, this`copied, this`pos, this`closed, buf
      ensures 0 <= pos < asize == buf.Length && (buf == old(buf) || fresh(buf)) && closed && buf[pos] == NUL
      ensures buf[..pos] == old(buf[..pos]) + out && Count() == old(Count()).Append(|out|)
    {
      var k := |out|;
      assert k < asize - pos ==> Count().Append(k) == Meter(asize, pos + k, copied);
      hide Meter.Append;
      Print(out);
      if k >= asize - pos {
        Reserve(k);
        Print(out);
      }
      Advance(k, out);
    }

    /** Writes at the end: as much of the text as fits, and a zero, as `vsnprintf` does. */
    method Print(out: string)
      requires buf.Length == asize && 0 <= pos < asize
      modifies buf
      ensures buf[..pos] == old(buf[..pos])
      ensures |out| < asize - pos ==> buf[pos..pos + |out|] == out && buf[pos + |out|] == NUL
    {
      var m := if |out| < asize - pos then |out| else asize - pos - 1;
      forall i | 0 <= i < m {
        buf[pos + i] := out[i];
      }
      buf[pos + m] := NUL;
    }

    /** `restart`: the next run of appends begins with the room there is. */
    method Restart()
      requires Valid()
      modifies this`pos, this`initial, this`copied, this`closed, buf
      ensures Valid() && Contents() == "" && closed && Count() == Meter(asize, 0, 0) && initial == asize
    {
      buf[0] := NUL;
      pos, initial, copied, closed := 0, asize, 0, true;
    }

    /** `clear`: gives back a large buffer; no zero is written. */
    method Clear()
      requires Valid()
      modifies this
      ensures Valid() && Contents() == "" && Count() == Meter(asize, 0, 0) && initial == asize
      ensures asize == if old(asize) > 32768 then 32768 else old(asize)
    {
      pos := 0;
      if asize > 32768 {
        asize := 32768;
        buf := new char[asize];
      }
      initial, copied, closed := asize, 0, false;
    }
  }
}
