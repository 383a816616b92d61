/**
 Zero-terminated character buffers.

 A C string is a position in a buffer; its text runs up to the first zero at or
 after that position.  Pointers into a buffer are indices, `Null` is the null pointer.
 */
module CStrings {

  const NUL: char := '\0'
  const TAB: char := '\t'
  const LF: char := '\n'
  const CR: char := '\r'

  /** `isspace` in the C locale. */
  const SPACES: set<char> := {' ', '\t', '\n', '\U{0B}', '\U{0C}', '\r'}

  datatype Ptr = Null | At(index: nat)

  /** The first position at or after `i` whose character is in `cs`, or the end of `s`. */
  function FirstIn(cs: set<char>, s: string, i: nat): (j: nat)
    requires i <= |s|
    ensures i <= j <= |s|
    ensures j < |s| ==> s[j] in cs
    ensures forall k :: i <= k < j ==> s[k] !in cs
    decreases |s| - i
  {
    if i == |s| || s[i] in cs then i else FirstIn(cs, s, i + 1)
  }

  /** The first position at or after `i` whose character is not in `cs`, or the end of `s`. */
  function FirstNotIn(cs: set<char>, s: string, i: nat): (j: nat)
    requires i <= |s|
    ensures i <= j <= |s|
    ensures j < |s| ==> s[j] !in cs
    ensures forall k :: i <= k < j ==> s[k] in cs
    decreases |s| - i
  {
    if i == |s| || s[i] !in cs then i else FirstNotIn(cs, s, i + 1)
  }

  lemma {:induction false} FirstInIs(cs: set<char>, s: string, i: nat, j: nat)
    requires i <= j <= |s| && (j < |s| ==> s[j] in cs) && forall k :: i <= k < j ==> s[k] !in cs
    ensures FirstIn(cs, s, i) == j
    decreases j - i
  {
    if i < j {
      FirstInIs(cs, s, i + 1, j);
    }
  }

  lemma {:induction false} FirstNotInIs(cs: set<char>, s: string, i: nat, j: nat)
    requires i <= j <= |s| && (j < |s| ==> s[j] !in cs) && forall k :: i <= k < j ==> s[k] in cs
    ensures FirstNotIn(cs, s, i) == j
    decreases j - i
  {
    if i < j {
      FirstNotInIs(cs, s, i + 1, j);
    }
  }

  /** The C string that starts at `p`. */
  function CStr(b: string, p: nat): (t: string)
    requires p <= |b|
    ensures NUL !in t && p + |t| <= |b| && t == b[p..p + |t|]
  {
    b[p..FirstIn({NUL}, b, p)]
  }

  lemma CStrIs(b: string, p: nat, e: nat)
    requires p <= e < |b| && b[e] == NUL
    requires forall k :: p <= k < e ==> b[k] != NUL
    ensures CStr(b, p) == b[p..e]
  {
    var _ := FirstIn({NUL}, b, p);
  }

  /** The buffer begins with the text and its terminating zero. */
  ghost predicate Carries(b: string, s: string) {
    |s| < |b| && b[|s|] == NUL && NUL !in s && forall k :: 0 <= k < |s| ==> b[k] == s[k]
  }

  lemma TextCarried(b: string)
    requires NUL in b
    ensures Carries(b, CStr(b, 0))
  {
  }

  /** The characters from tab to carriage return, and the blank. */
  lemma SpacesAre(c: char)
    ensures c in SPACES <==> c == ' ' || 9 <= c as int <= 13
  {
  }
}
