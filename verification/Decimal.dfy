/**
 Decimal numbers as `fprintf("%d")` writes them and `strtol` reads them.
 */
module Decimal {
  import opened CStrings

  predicate IsDigit(c: char) {
    '0' <= c <= '9'
  }

  predicate AllDigits(s: string) {
    forall i :: 0 <= i < |s| ==> IsDigit(s[i])
  }

  function Digit(d: nat): (c: char)
    requires d < 10
    ensures IsDigit(c) && c as int - '0' as int == d
  {
    '0' + d as char
  }

  /** The decimal text of a number. */
  function Digits(n: nat): (s: string)
    ensures s != []
  {
    if n < 10 then [Digit(n)] else Digits(n / 10) + [Digit(n % 10)]
  }

  /** The number a digit string stands for. */
  function Value(s: string): nat
    requires AllDigits(s)
  {
    if s == [] then 0 else 10 * Value(s[..|s| - 1]) + (s[|s| - 1] as int - '0' as int)
  }

  lemma {:induction false} DigitsValue(n: nat)
    ensures AllDigits(Digits(n)) && Value(Digits(n)) == n
  {
    var s := Digits(n);
    if n >= 10 {
      DigitsValue(n / 10);
      assert s[..|s| - 1] == Digits(n / 10);
    } else {
      assert s[..0] == [];
    }
  }

  lemma {:induction false} DigitsMonotone(m: nat, n: nat)
    requires m <= n
    ensures |Digits(m)| <= |Digits(n)|
    decreases n
  {
    if m >= 10 {
      DigitsMonotone(m / 10, n / 10);
    }
  }

  /** No digit string for a number is shorter than its decimal text. */
  lemma {:induction false} DigitsShortest(s: string)
    requires s != [] && AllDigits(s)
    ensures |Digits(Value(s))| <= |s|
  {
    var m := |s| - 1;
    if m > 0 {
      var v, d := Value(s[..m]), s[m] as int - '0' as int;
      DigitsShortest(s[..m]);
      var n := 10 * v + d;
      if n >= 10 {
        assert n / 10 == v;
      }
    } else {
      assert Value(s[..0]) == 0;
    }
  }

  const LONG_MAX: int := 0x7FFF_FFFF_FFFF_FFFF

  /** The first position at or after `i` that holds no digit. */
  function DigitsEnd(s: string, i: nat): (j: nat)
    requires i <= |s|
    ensures i <= j <= |s|
    decreases |s| - i
  {
    if i == |s| || !IsDigit(s[i]) then i else DigitsEnd(s, i + 1)
  }

  lemma {:induction false} DigitsEndSpec(s: string, i: nat)
    requires i <= |s|
    ensures var j := DigitsEnd(s, i); AllDigits(s[i..j]) && (j < |s| ==> !IsDigit(s[j]))
    decreases |s| - i
  {
    if i < |s| && IsDigit(s[i]) {
      DigitsEndSpec(s, i + 1);
      var j := DigitsEnd(s, i);
      assert s[i..j] == [s[i]] + s[i + 1..j];
    }
  }

  lemma {:induction false} DigitsEndIs(s: string, i: nat, j: nat)
    requires i <= j <= |s| && AllDigits(s[i..j]) && (j < |s| ==> !IsDigit(s[j]))
    ensures DigitsEnd(s, i) == j
    decreases j - i
  {
    if i < j {
      assert s[i..j][0] == s[i];
      var rest := s[i + 1..j];
      forall k | 0 <= k < |rest|
        ensures IsDigit(rest[k])
      {
        assert rest[k] == s[i..j][k + 1];
      }
      DigitsEndIs(s, i + 1, j);
    }
  }

  /** What `strtol` in base 10 reads: the value, and the position after the number. */
  datatype Number = Number(value: int, end: nat)

  function StrToL(s: string): (r: Number)
    ensures r.end <= |s|
  {
    var i := FirstNotIn(SPACES, s, 0);
    var signed := i < |s| && (s[i] == '-' || s[i] == '+');
    var lo := if signed then i + 1 else i;
    var hi := DigitsEnd(s, lo);
    if hi == lo then Number(0, 0)
    else
      DigitsEndSpec(s, lo);
      var v: int := Value(s[lo..hi]);
      if signed && s[i] == '-' then Number(if v > LONG_MAX then -LONG_MAX - 1 else -v, hi)
      else Number(if v > LONG_MAX then LONG_MAX else v, hi)
  }

  /** A decimal number at the front of a text is read back, up to the character after it. */
  lemma StrToLReads(n: nat, t: string)
    requires n < LONG_MAX && t != [] && !IsDigit(t[0])
    ensures StrToL(Digits(n) + t) == Number(n, |Digits(n)|)
  {
    var d := Digits(n);
    var s := d + t;
    DigitsValue(n);
    assert IsDigit(d[0]) && s[0] == d[0];
    FirstNotInIs(SPACES, s, 0, 0);
    assert s[0..|d|] == d;
    DigitsEndIs(s, 0, |d|);
  }

  /** A positive number that was not cut off came from digits that stand for it. */
  lemma StrToLPositive(s: string)
    requires var r := StrToL(s); 0 < r.value != LONG_MAX
    ensures var r := StrToL(s); |Digits(r.value)| <= r.end
  {
    var i := FirstNotIn(SPACES, s, 0);
    var lo := if i < |s| && (s[i] == '-' || s[i] == '+') then i + 1 else i;
    var hi := DigitsEnd(s, lo);
    DigitsEndSpec(s, lo);
    DigitsShortest(s[lo..hi]);
  }

  /** A value with its sign, held within the bounds of `long`. */
  function Held(negative: bool, v: nat): int {
    if negative then (if v > LONG_MAX then -LONG_MAX - 1 else 0 - v)
    else if v > LONG_MAX then LONG_MAX else v
  }

  lemma NumberAt(s: string, i: nat, lo: nat, hi: nat, digits: string)
    requires i == FirstNotIn(SPACES, s, 0) <= lo <= |s| && lo < hi == DigitsEnd(s, lo) && s[lo..hi] == digits
    requires lo == if s[i] == '-' || s[i] == '+' then i + 1 else i
    ensures AllDigits(digits) && StrToL(s) == Number(Held(s[i] == '-', Value(digits)), hi)
  {
    DigitsEndSpec(s, lo);
    hide Value, FirstNotIn, DigitsEnd, IsDigit;
  }

  /** Where white space, a sign, digits and a rest are in a text. */
  lemma NumberParts(blanks: string, sign: string, digits: string, t: string)
    requires (forall i :: 0 <= i < |blanks| ==> blanks[i] in SPACES) && (sign == [] || sign == ['+'] || sign == ['-'])
    requires digits != [] && AllDigits(digits) && (t == [] || !IsDigit(t[0]))
    ensures var s, i, lo := blanks + sign + digits + t, |blanks|, |blanks| + |sign|;
      var hi := lo + |digits|;
      && FirstNotIn(SPACES, s, 0) == i < |s| && lo <= hi <= |s| && DigitsEnd(s, lo) == hi && s[lo..hi] == digits
      && (s[i] == '-' <==> sign == ['-']) && (lo == if s[i] == '-' || s[i] == '+' then i + 1 else i)
  {
    var s, i, lo := blanks + sign + digits + t, |blanks|, |blanks| + |sign|;
    var hi := lo + |digits|;
    assert IsDigit(digits[0]) && s[lo] == digits[0];
    assert sign != [] ==> s[i] == sign[0];
    assert sign == [] ==> s[i] == digits[0];
    FirstNotInIs(SPACES, s, 0, i);
    assert s[lo..hi] == digits;
    DigitsEndIs(s, lo, hi);
    hide FirstNotIn, DigitsEnd;
  }

  /**
   What is read of white space, a sign, digits and a rest: the value they stand for, held within the bounds of
   `long`, and the position after the digits.
   */
  lemma StrToLIs(blanks: string, sign: string, digits: string, t: string)
    requires (forall i :: 0 <= i < |blanks| ==> blanks[i] in SPACES) && (sign == [] || sign == ['+'] || sign == ['-'])
    requires digits != [] && AllDigits(digits) && (t == [] || !IsDigit(t[0]))
    ensures StrToL(blanks + sign + digits + t) ==
      Number(Held(sign == ['-'], Value(digits)), |blanks| + |sign| + |digits|)
  {
    hide StrToL, FirstNotIn, DigitsEnd, Held, IsDigit, AllDigits;
    NumberParts(blanks, sign, digits, t);
    var lo := |blanks| + |sign|;
    NumberAt(blanks + sign + digits + t, |blanks|, lo, lo + |digits|, digits);
  }

  /** Without a digit after white space and a sign nothing is read. */
  lemma StrToLNothing(blanks: string, sign: string, t: string)
    requires (forall i :: 0 <= i < |blanks| ==> blanks[i] in SPACES) && (sign == [] || sign == ['+'] || sign == ['-'])
    requires t == [] || (!IsDigit(t[0]) && t[0] !in SPACES && t[0] != '+' && t[0] != '-')
    ensures StrToL(blanks + sign + t) == Number(0, 0)
  {
    var s := blanks + sign + t;
    FirstNotInIs(SPACES, s, 0, |blanks|);
    assert sign != [] ==> s[|blanks|] == sign[0];
    DigitsEndIs(s, |blanks| + |sign|, |blanks| + |sign|);
    hide FirstNotIn, DigitsEnd;
  }
}
