/**
 The request target: path, query and fragment of a request line, after sections 3.3 to 3.5 of RFC 3986.
 */
module RequestTarget {
  import opened Basics
  import opened CStrings

  const BLANKS: set<char> := {' ', '\t'}

  lemma BlanksAre(c: char)
    ensures c in BLANKS <==> c as int == 32 || c as int == 9
  {
  }

  /** What a request asks for. */
  datatype Target = Target(path: string, search: Option<string>)

  /** The path without a trailing slash, unless it is the root. */
  function Stripped(path: string): string {
    if |path| > 1 && path[|path| - 1] == '/' then path[..|path| - 1] else path
  }

  /** Where the target begins: after blanks, at the last of the slashes there. */
  function Begin(req: string, i: nat): (p: nat)
    requires i < |req|
    ensures i <= p < |req|
    decreases |req| - i
  {
    if i + 1 < |req| && req[i + 1] == '/' then Begin(req, i + 1) else i
  }

  /** Path and query of a target without blanks. */
  function Divided(t: string): Target {
    var u := t[..FirstIn({'#'}, t, 0)];
    var q := FirstIn({'?'}, u, 0);
    Target(Stripped(u[..q]), if q < |u| then Some(u[q + 1..]) else None)
  }

  /** `Parse`: none if the first character after blanks is not a slash. */
  function ParseTarget(req: string): Option<Target> {
    var b := FirstNotIn(BLANKS, req, 0);
    if b == |req| || req[b] != '/' then None
    else
      var p := Begin(req, b);
      Some(Divided(req[p..FirstIn(BLANKS, req, p)]))
  }

  /** An optional part with the character that leads it in. */
  function Tail(c: char, part: Option<string>): string {
    if part.Some? then [c] + part.value else []
  }

  /** None of the characters occurs in the text. */
  predicate Without(cs: set<char>, t: string) {
    forall i :: 0 <= i < |t| ==> t[i] !in cs
  }

  /** A request in its parts. */
  datatype Parts = Parts(blanks: string, slashes: string, path: string, slash: bool,
                         search: Option<string>, fragment: Option<string>, rest: string) {

    function PathText(): string {
      if slash then path + "/" else path
    }

    /** The target proper: everything between the slashes and the next blank. */
    function TargetText(): string {
      PathText() + Tail('?', search) + Tail('#', fragment)
    }

    /** The parts put together again. */
    function Text(): string {
      blanks + slashes + TargetText() + rest
    }

    /** The grammar: which characters each part may hold. */
    ghost predicate Valid() {
      && (forall i :: 0 <= i < |blanks| ==> blanks[i] in BLANKS)
      && (forall i :: 0 <= i < |slashes| ==> slashes[i] == '/')
      && path != "" && path[0] == '/' && (|path| > 1 ==> path[1] != '/')
      && (if slash then |path| > 1 else |path| == 1 || path[|path| - 1] != '/')
      && Without(BLANKS + {'?', '#'}, path)
      && (search.Some? ==> Without(BLANKS + {'#'}, search.value))
      && (fragment.Some? ==> Without(BLANKS, fragment.value))
      && (rest == "" || rest[0] in BLANKS)
    }
  }

  lemma {:induction false} BeginIs(req: string, i: nat, p: nat)
    requires i <= p < |req| && (forall k :: i < k <= p ==> req[k] == '/') && (p + 1 < |req| ==> req[p + 1] != '/')
    ensures Begin(req, i) == p
    decreases p - i
  {
    if i < p {
      BeginIs(req, i + 1, p);
    }
  }

  lemma {:induction false} BeginSpec(req: string, i: nat)
    requires i < |req|
    ensures var p := Begin(req, i);
      (forall k :: i < k <= p ==> req[k] == '/') && (p + 1 < |req| ==> req[p + 1] != '/')
    decreases |req| - i
  {
    if i + 1 < |req| && req[i + 1] == '/' {
      BeginSpec(req, i + 1);
    }
  }

  /** Cutting a text at the first of a character: what is before it and, if it occurs, what is after it. */
  lemma FirstOf(c: char, a: string, b: Option<string>)
    requires Without({c}, a)
    ensures var t := a + Tail(c, b);
      && FirstIn({c}, t, 0) == |a| && t[..|a|] == a
      && (b.Some? ==> |a| < |t| && t[|a| + 1..] == b.value) && (b.None? ==> |a| == |t|)
  {
    FirstInIs({c}, a + Tail(c, b), 0, |a|);
  }

  /** A path without its ends, a query without a fragment's beginning, and any fragment. */
  lemma DividedIs(path: string, search: Option<string>, fragment: Option<string>)
    requires Without({'#'}, path + Tail('?', search)) && Without({'?'}, path)
    ensures Divided(path + Tail('?', search) + Tail('#', fragment)) == Target(Stripped(path), search)
  {
    hide FirstIn, Without, Tail, Stripped;
    FirstOf('#', path + Tail('?', search), fragment);
    FirstOf('?', path, search);
  }

  lemma WithoutQuery(path: string, search: Option<string>)
    requires Without(BLANKS + {'?', '#'}, path) && (search.Some? ==> Without(BLANKS + {'#'}, search.value))
    ensures Without(BLANKS + {'#'}, path + Tail('?', search))
  {
  }

  lemma WithoutFewer(cs: set<char>, ds: set<char>, t: string)
    requires ds <= cs && Without(cs, t)
    ensures Without(ds, t)
  {
  }

  /** The path with the slash that is dropped from it. */
  lemma PathTextIs(x: Parts)
    requires x.Valid()
    ensures var p := x.PathText();
      && Stripped(p) == x.path && Without(BLANKS + {'?', '#'}, p)
      && p != "" && p[0] == '/' && (|p| > 1 ==> p[1] != '/')
  {
    assert x.slash ==> (x.path + "/")[..|x.path|] == x.path;
  }

  /** Cutting the target text of valid parts finds the path and the query. */
  lemma CutParts(x: Parts)
    requires x.Valid()
    ensures Divided(x.TargetText()) == Target(x.path, x.search)
  {
    PathTextIs(x);
    WithoutQuery(x.PathText(), x.search);
    hide Parts.Valid, Parts.PathText, Stripped, Without, Divided;
    WithoutFewer(BLANKS + {'#'}, {'#'}, x.PathText() + Tail('?', x.search));
    WithoutFewer(BLANKS + {'?', '#'}, {'?'}, x.PathText());
    DividedIs(x.PathText(), x.search, x.fragment);
  }

  lemma TargetWithoutBlanks(x: Parts)
    requires x.Valid()
    ensures var t := x.TargetText();
      t != "" && Without(BLANKS, t) && t[0] == '/' && (|t| > 1 ==> t[1] != '/')
  {
    PathTextIs(x);
    WithoutQuery(x.PathText(), x.search);
    assert x.fragment.Some? ==> Without(BLANKS, x.fragment.value);
    hide Parts.Valid, Parts.PathText, Stripped;
  }

  /** Where the target stands in a request made of blanks, slashes, a target and a rest. */
  lemma Located(blanks: string, slashes: string, t: string, rest: string)
    requires forall i :: 0 <= i < |blanks| ==> blanks[i] in BLANKS
    requires forall i :: 0 <= i < |slashes| ==> slashes[i] == '/'
    requires t != "" && Without(BLANKS, t) && t[0] == '/' && (|t| > 1 ==> t[1] != '/')
    requires rest == "" || rest[0] in BLANKS
    ensures var req, p := blanks + slashes + t + rest, |blanks| + |slashes|;
      && FirstNotIn(BLANKS, req, 0) == |blanks| && |blanks| < |req| && req[|blanks|] == '/'
      && Begin(req, |blanks|) == p && FirstIn(BLANKS, req, p) == p + |t| && req[p..p + |t|] == t
  {
    var req, p := blanks + slashes + t + rest, |blanks| + |slashes|;
    FirstNotInIs(BLANKS, req, 0, |blanks|);
    BeginIs(req, |blanks|, p);
    FirstInIs(BLANKS, req, p, p + |t|);
  }

  lemma LocatedParsed(blanks: string, slashes: string, t: string, rest: string)
    requires forall i :: 0 <= i < |blanks| ==> blanks[i] in BLANKS
    requires forall i :: 0 <= i < |slashes| ==> slashes[i] == '/'
    requires t != "" && Without(BLANKS, t) && t[0] == '/' && (|t| > 1 ==> t[1] != '/')
    requires rest == "" || rest[0] in BLANKS
    ensures ParseTarget(blanks + slashes + t + rest) == Some(Divided(t))
  {
    hide FirstIn, FirstNotIn, Begin, Divided, Without;
    Located(blanks, slashes, t, rest);
  }

  /** Every request of the grammar is parsed into its path and query. */
  lemma PartsParsed(x: Parts)
    requires x.Valid()
    ensures ParseTarget(x.Text()) == Some(Target(x.path, x.search))
  {
    TargetWithoutBlanks(x);
    CutParts(x);
    hide ParseTarget, Divided, Parts.TargetText, Without;
    LocatedParsed(x.blanks, x.slashes, x.TargetText(), x.rest);
  }

  /** A target in its pieces: path as it stands, query and fragment. */
  datatype Pieces = Pieces(path: string, search: Option<string>, fragment: Option<string>)

  function Behind(t: string, i: nat): Option<string> {
    if i < |t| then Some(t[i + 1..]) else None
  }

  function PiecesOf(t: string): Pieces {
    var h := FirstIn({'#'}, t, 0);
    var u := t[..h];
    var q := FirstIn({'?'}, u, 0);
    Pieces(u[..q], Behind(u, q), Behind(t, h))
  }

  /** Where the target begins and ends in a request. */
  function TargetStart(req: string): (p: nat)
    requires ParseTarget(req).Some?
    ensures p < |req|
  {
    Begin(req, FirstNotIn(BLANKS, req, 0))
  }

  function TargetIn(req: string): string
    requires ParseTarget(req).Some?
  {
    var p := TargetStart(req);
    req[p..FirstIn(BLANKS, req, p)]
  }

  /** The parts a successful parse sees. */
  function Seen(req: string): (x: Parts)
    requires ParseTarget(req).Some?
  {
    var b, p := FirstNotIn(BLANKS, req, 0), TargetStart(req);
    var y := PiecesOf(TargetIn(req));
    BeginAfter(req);
    Parts(req[..b], req[b..p], Stripped(y.path), |y.path| > 1 && y.path[|y.path| - 1] == '/',
          y.search, y.fragment, req[FirstIn(BLANKS, req, p)..])
  }

  lemma BeginAfter(req: string)
    requires ParseTarget(req).Some?
    ensures FirstNotIn(BLANKS, req, 0) <= TargetStart(req)
  {
  }

  /** A text is what is before the first of a character and, if it occurs, that and what is after it. */
  lemma SplitAt(t: string, c: char)
    ensures var i := FirstIn({c}, t, 0); t == t[..i] + Tail(c, Behind(t, i))
  {
    hide FirstIn;
    var i := FirstIn({c}, t, 0);
    if i < |t| {
      assert t[i] == c;
      assert t == t[..i] + ([t[i]] + t[i + 1..]);
    }
  }

  /** The pieces put together are the target. */
  lemma PiecesText(t: string)
    ensures var y := PiecesOf(t); t == y.path + Tail('?', y.search) + Tail('#', y.fragment)
  {
    hide FirstIn, Tail, Behind;
    SplitAt(t, '#');
    SplitAt(t[..FirstIn({'#'}, t, 0)], '?');
  }

  lemma DividedPieces(t: string)
    ensures var y := PiecesOf(t); Divided(t) == Target(Stripped(y.path), y.search)
  {
    hide FirstIn, Stripped;
  }

  lemma StrippedText(path: string)
    ensures path == if |path| > 1 && path[|path| - 1] == '/' then Stripped(path) + "/" else Stripped(path)
  {
  }

  /** The target is put together again from what was seen in it. */
  lemma SeenTargetText(req: string)
    requires ParseTarget(req).Some?
    ensures Seen(req).TargetText() == TargetIn(req)
  {
    hide PiecesOf, Stripped, Tail, TargetIn, TargetStart, FirstIn, FirstNotIn, ParseTarget;
    PiecesText(TargetIn(req));
    StrippedText(PiecesOf(TargetIn(req)).path);
  }

  lemma SeenText(req: string)
    requires ParseTarget(req).Some?
    ensures Seen(req).Text() == req
  {
    var x, b, p := Seen(req), FirstNotIn(BLANKS, req, 0), TargetStart(req);
    var e := FirstIn(BLANKS, req, p);
    assert x.blanks == req[..b] && x.slashes == req[b..p] && x.rest == req[e..] && TargetIn(req) == req[p..e];
    assert x.Text() == x.blanks + x.slashes + x.TargetText() + x.rest;
    BeginAfter(req);
    hide *;
    SeenTargetText(req);
    FourPieces(req, b, p, e);
  }

  lemma FourPieces(t: string, b: nat, p: nat, e: nat)
    requires b <= p <= e <= |t|
    ensures t == t[..b] + t[b..p] + t[p..e] + t[e..]
  {
  }

  lemma StrippedPath(path: string)
    requires path != "" && path[0] == '/' && (|path| > 1 ==> path[1] != '/')
    ensures var r, slash := Stripped(path), |path| > 1 && path[|path| - 1] == '/';
      && r != "" && r[0] == '/' && (|r| > 1 ==> r[1] != '/')
      && (if slash then |r| > 1 else |r| == 1 || r[|r| - 1] != '/') && r <= path
  {
  }

  /** The pieces of a target are clean of the characters that end them. */
  lemma PiecesClean(t: string)
    requires t != "" && t[0] == '/' && (|t| > 1 ==> t[1] != '/') && Without(BLANKS, t)
    ensures var y := PiecesOf(t);
      && y.path != "" && y.path[0] == '/' && (|y.path| > 1 ==> y.path[1] != '/')
      && Without(BLANKS + {'?', '#'}, y.path)
      && (y.search.Some? ==> Without(BLANKS + {'#'}, y.search.value))
      && (y.fragment.Some? ==> Without(BLANKS, y.fragment.value))
  {
    var h := FirstIn({'#'}, t, 0);
    var u := t[..h];
    var q := FirstIn({'?'}, u, 0);
    assert h > 0 && q > 0;
    hide FirstIn;
    assert forall k :: 0 <= k < |u| ==> u[k] == t[k];
  }

  lemma SeenTarget(req: string)
    requires ParseTarget(req).Some?
    ensures var t := TargetIn(req); t != "" && t[0] == '/' && (|t| > 1 ==> t[1] != '/') && Without(BLANKS, t)
  {
    BeginSpec(req, FirstNotIn(BLANKS, req, 0));
    var p := TargetStart(req);
    assert req[p] == '/' && (p + 1 < |req| ==> req[p + 1] != '/');
    assert FirstIn(BLANKS, req, p) > p;
    hide FirstIn, FirstNotIn, Begin, ParseTarget, TargetStart;
  }

  /** What was seen is what the parse returns. */
  lemma SeenParsed(req: string)
    requires ParseTarget(req).Some?
    ensures ParseTarget(req).value == Target(Seen(req).path, Seen(req).search)
  {
    DividedPieces(TargetIn(req));
    assert ParseTarget(req).value == Divided(TargetIn(req));
    hide ParseTarget, TargetIn, TargetStart, PiecesOf, Divided, FirstIn, FirstNotIn, Stripped;
  }

  /** What leads up to the target and what follows it. */
  lemma SeenAround(req: string)
    requires ParseTarget(req).Some?
    ensures var x := Seen(req);
      && (forall i :: 0 <= i < |x.blanks| ==> x.blanks[i] in BLANKS)
      && (forall i :: 0 <= i < |x.slashes| ==> x.slashes[i] == '/')
      && (x.rest == "" || x.rest[0] in BLANKS)
  {
    var b, p := FirstNotIn(BLANKS, req, 0), TargetStart(req);
    assert forall k :: b <= k < p ==> req[k] == '/' by {
      BeginSpec(req, b);
    }
    hide FirstIn, FirstNotIn, Begin, Stripped, ParseTarget, TargetStart, TargetIn, PiecesOf;
  }

  lemma SeenValid(req: string)
    requires ParseTarget(req).Some?
    ensures Seen(req).Valid() && ParseTarget(req).value == Target(Seen(req).path, Seen(req).search)
  {
    hide FirstIn, FirstNotIn, Stripped, Without, ParseTarget, TargetStart, TargetIn, PiecesOf;
    SeenParsed(req);
    SeenAround(req);
    SeenTarget(req);
    var y := PiecesOf(TargetIn(req));
    PiecesClean(TargetIn(req));
    StrippedPath(y.path);
    assert Stripped(y.path) == y.path[..|Stripped(y.path)|];
    WithoutPrefix(BLANKS + {'?', '#'}, y.path, |Stripped(y.path)|);
  }

  lemma WithoutPrefix(cs: set<char>, t: string, n: nat)
    requires n <= |t| && Without(cs, t)
    ensures Without(cs, t[..n])
  {
  }

  /**
   `Parse` accepts exactly the requests of the grammar, and what it finds is the path and the query of
   the parts; in particular it succeeds exactly when the first character after blanks is a slash.
   */
  lemma ParseIff(req: string, t: Target)
    ensures ParseTarget(req) == Some(t)
      <==> exists x: Parts :: x.Valid() && x.Text() == req && t == Target(x.path, x.search)
    ensures ParseTarget(req).Some? <==>
      var b := FirstNotIn(BLANKS, req, 0); b < |req| && req[b] == '/'
  {
    if ParseTarget(req) == Some(t) {
      SeenText(req);
      SeenValid(req);
      assert Seen(req).Valid() && Seen(req).Text() == req && t == Target(Seen(req).path, Seen(req).search);
    }
    hide Parts.Valid, Parts.Text;
    forall x: Parts | x.Valid() && x.Text() == req && t == Target(x.path, x.search)
      ensures ParseTarget(req) == Some(t)
    {
      PartsParsed(x);
    }
  }

  /** The part of a page address after the authority. */
  function Address(t: Target): string {
    t.path + Tail('?', t.search)
  }

  /** What a parse promises about the path and the query it finds. */
  ghost predicate CleanTarget(t: Target) {
    && t.path != "" && t.path[0] == '/' && (|t.path| > 1 ==> t.path[1] != '/')
    && Without(BLANKS + {'?', '#'}, t.path) && (t.search.Some? ==> Without(BLANKS + {'#'}, t.search.value))
  }

  lemma Reparse(path: string, slash: bool, search: Option<string>)
    requires CleanTarget(Target(path, search))
    requires if slash then |path| > 1 else |path| == 1 || path[|path| - 1] != '/'
    ensures ParseTarget(Address(Target(if slash then path + "/" else path, search))) == Some(Target(path, search))
  {
    var x := Parts("", "", path, slash, search, None, "");
    hide Without, ParseTarget;
    assert x.Valid();
    hide Parts.Valid;
    assert x.Text() == Address(Target(x.PathText(), search)) by {
      assert x.Text() == x.TargetText() == x.PathText() + Tail('?', search);
    }
    hide Parts.Text, Address;
    PartsParsed(x);
  }

  /**
   The address of a parsed target parses back to the same target exactly when its path is the root or
   does not end in a slash; a path that still ends in one loses it.
   */
  lemma AddressRoundTrip(req: string)
    requires ParseTarget(req).Some?
    ensures var t := ParseTarget(req).value;
      && ParseTarget(Address(t)).Some?
      && ParseTarget(Address(t)).value.search == t.search
      && (ParseTarget(Address(t)) == Some(t) <==> |t.path| == 1 || t.path[|t.path| - 1] != '/')
  {
    var t := ParseTarget(req).value;
    var n := |t.path|;
    assert CleanTarget(t) by {
      SeenValid(req);
    }
    hide ParseTarget;
    if n == 1 || t.path[n - 1] != '/' {
      Reparse(t.path, false, t.search);
    } else {
      assert t.path == t.path[..n - 1] + "/";
      Reparse(t.path[..n - 1], true, t.search);
    }
  }
}
