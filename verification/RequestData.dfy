/**
 `TServerRequestData`: the request line is cut in place, and the page address is put together once.
 */
module RequestData {
  import opened Basics
  import opened CStrings
  import opened Decimal
  import opened RequestTarget
  import opened RequestHeaders

  /** `strchr` on the C string at `p`. */
  method StrChr(buf: array<char>, p: nat, c: char) returns (r: Ptr)
    requires p < buf.Length && NUL in buf[p..] && c != NUL
    ensures var t := CStr(buf[..], p);
      var i := FirstIn({c}, t, 0);
      r == if i < |t| then At(p + i) else Null
  {
    ghost var t := CStr(buf[..], p);
    var i := p;
    while buf[i] != NUL && buf[i] != c
      invariant p <= i <= p + |t| < buf.Length && buf[p + |t|] == NUL
      invariant forall k :: 0 <= k < |t| ==> buf[p + k] == t[k]
      invariant FirstIn({c}, t, 0) == FirstIn({c}, t, i - p)
      decreases buf.Length - i
    {
      i := i + 1;
    }
    r := if buf[i] == NUL then Null else At(i);
  }

  /** `strlen` of the C string at `p`. */
  method StrLen(buf: array<char>, p: nat) returns (n: nat)
    requires p < buf.Length && NUL in buf[p..]
    ensures n == |CStr(buf[..], p)|
  {
    ghost var t := CStr(buf[..], p);
    n := 0;
    while buf[p + n] != NUL
      invariant n <= |t| && p + |t| < buf.Length && buf[p + |t|] == NUL
      invariant forall k :: 0 <= k < |t| ==> buf[p + k] == t[k]
      decreases buf.Length - n
    {
      n := n + 1;
    }
  }

  /** The text `t` stands at `p` and is closed by a zero. */
  ghost predicate Lies(b: string, p: nat, t: string) {
    p + |t| < |b| && b[p + |t|] == NUL && b[p..p + |t|] == t && NUL !in t
  }

  lemma LiesCStr(b: string, p: nat, t: string)
    requires Lies(b, p, t)
    ensures CStr(b, p) == t && NUL in b[p..]
  {
    assert forall k :: 0 <= k < |t| ==> t[k] == b[p + k];
    CStrIs(b, p, p + |t|);
    assert b[p..][|t|] == NUL;
  }

  lemma TextLies(b: string)
    requires NUL in b
    ensures Lies(b, 0, CStr(b, 0))
  {
  }

  /** A zero inside a text ends it there, and what follows stands on its own. */
  lemma CutInPlace(b: string, p: nat, t: string, i: nat)
    requires Lies(b, p, t) && i < |t|
    ensures Lies(b[p + i := NUL], p, t[..i]) && Lies(b[p + i := NUL], p + i + 1, t[i + 1..])
  {
    var c := b[p + i := NUL];
    assert forall k :: 0 <= k < |t| ==> t[k] == b[p + k];
    assert c[p..p + i] == t[..i] && c[p + i + 1..p + |t|] == t[i + 1..];
  }

  /** A zero written before a text does not touch it. */
  lemma CutBefore(b: string, k: nat, p: nat, t: string)
    requires k < p && Lies(b, p, t)
    ensures Lies(b[k := NUL], p, t)
  {
    assert b[k := NUL][p..p + |t|] == b[p..p + |t|];
  }

  /** The text without the blanks at its front. */
  method SkipBlanksIn(t: string) returns (r: string)
    ensures r == t[FirstNotIn(BLANKS, t, 0)..]
  {
    var i := 0;
    while i < |t| && (t[i] == ' ' || t[i] == '\t')
      invariant i <= |t| && FirstNotIn(BLANKS, t, 0) == FirstNotIn(BLANKS, t, i)
    {
      i := i + 1;
    }
    r := t[i..];
  }

  /** Where blanks end in a text and in its tail. */
  lemma BlanksEnd(line: string, q: nat, k: nat)
    requires q <= |line| && k == FirstNotIn(BLANKS, line[q..], 0)
    ensures FirstNotIn(BLANKS, line, q) == q + k
  {
    var t := line[q..];
    hide FirstNotIn;
    forall i | q <= i < q + k
      ensures line[i] in BLANKS
    {
      assert line[i] == t[i - q];
    }
    assert k < |t| ==> line[q + k] == t[k];
    FirstNotInIs(BLANKS, line, q, q + k);
  }

  lemma HeaderParts(line: string)
    ensures var c := FirstIn({':'}, line, 0);
      c < |line| ==>
        var t := line[c + 1..];
        ParseHeader(line) == Some(Header(line[..c], t[FirstNotIn(BLANKS, t, 0)..]))
  {
    hide FirstIn, FirstNotIn;
    var c := FirstIn({':'}, line, 0);
    if c < |line| {
      var t := line[c + 1..];
      var k := FirstNotIn(BLANKS, t, 0);
      BlanksEnd(line, c + 1, k);
      assert line[c + 1 + k..] == t[k..] by { hide *; }
    }
  }

  class TServerRequestData {
    var host: string
    var port: string
    var path: Ptr
    var search: Ptr
    var parseBuf: array<char>
    var curPage: string
    var headersIn: map<string, string>

    constructor (empty: array<char>)
      ensures host == port == curPage == "" && path == search == Null && parseBuf == empty && headersIn == map[]
    {
      host, port, curPage, path, search, parseBuf, headersIn := "", "", "", Null, Null, empty, map[];
    }

    /** What the headers have set. */
    function Heads(): Headers
      reads this
    {
      Headers(headersIn, host, port)
    }

    /** Cuts the line at its colon and enters the header. */
    method AddHeader(ss: array<char>)
      requires NUL in ss[..]
      modifies this`headersIn, this`host, this`port, ss
      ensures Heads() == old(Heads()).Add(old(CStr(ss[..], 0)))
    {
      hide Lies, CStr, FirstIn, Headers.Enter;
      ghost var line := CStr(ss[..], 0);
      TextLies(ss[..]);
      var colon := CutAtChar(ss, 0, ':', line);
      if colon.Null? {
        return;
      }
      ghost var c := FirstIn({':'}, line, 0);
      LiesCStr(ss[..], 0, line[..c]);
      LiesCStr(ss[..], c + 1, line[c + 1..]);
      LiesInside(ss[..], c + 1, line[c + 1..]);
      var name := CStr(ss[..], 0);
      var value := SkipBlanksIn(CStr(ss[..], colon.index + 1));
      assert ParseHeader(line) == Some(Header(name, value)) by {
        HeaderParts(line);
      }
      EnterHeader(name, value);
    }

    method EnterHeader(name: string, value: string)
      modifies this`headersIn, this`host, this`port
      ensures Heads() == old(Heads()).Enter(Header(name, value))
    {
      hide Lower, FirstIn;
      headersIn := headersIn[Lower(name) := value];
      if Lower(name) == "host" {
        var hostLen := FirstIn({':'}, value, 0);
        if hostLen < |value| {
          port := value[hostLen + 1..];
        }
        host := value[..hostLen];
      }
    }

    /** The port is a 16-bit number and is kept as its decimal text. */
    method SetHost(name: string, number: nat)
      requires number < TWO_16
      modifies this`host, this`port
      ensures host == name && AllDigits(port) && Value(port) == number && port != ""
    {
      DigitsValue(number);
      host, port := name, Digits(number);
    }

    /** The pointers stand for this target. */
    ghost predicate Holds(t: Target)
      reads this, parseBuf
    {
      && path.At? && Lies(parseBuf[..], path.index, t.path)
      && (t.search.None? ==> search == Null)
      && (t.search.Some? ==> search.At? && Lies(parseBuf[..], search.index, t.search.value))
    }

    /** Copies the request and cuts the copy in place. */
    method Parse(req: string) returns (ok: bool)
      requires NUL !in req
      modifies this`parseBuf, this`path, this`search
      ensures ok <==> ParseTarget(req).Some?
      ensures fresh(parseBuf)
      ensures if ok then Holds(ParseTarget(req).value) else path == old(path) && search == old(search)
    {
      hide Stripped, Lies;
      var buf := new char[|req| + 1](i requires 0 <= i <= |req| => if i < |req| then req[i] else NUL);
      parseBuf := buf;
      var p := SkipBlanks(buf, req);
      if buf[p] != '/' {
        return false;
      }
      p := SkipSlashes(buf, req, p);
      path := At(p);
      search := CutTarget(buf, req, p);
      return true;
    }

    /** The address of the page, put together on the first call after a host is known and kept from then on. */
    method GetCurPage(ghost t: Target) returns (page: string)
      requires curPage == "" && host != "" ==> Holds(t)
      modifies this`curPage
      ensures page == curPage
      ensures curPage ==
        if old(curPage) == "" && host != ""
        then Authority(host, port) + Address(t)
        else old(curPage)
    {
      if curPage == "" && host != "" {
        LiesCStr(parseBuf[..], path.index, t.path);
        if search.At? {
          LiesCStr(parseBuf[..], search.index, t.search.value);
        }
        hide Lies, CStr;
        var cur := "http://" + host;
        if port != "" {
          cur := cur + ":" + port;
        }
        assert cur == Authority(host, port);
        AddressTail(cur, t);
        hide *;
        cur := cur + CStr(parseBuf[..], path.index);
        if search.At? {
          cur := cur + "?" + CStr(parseBuf[..], search.index);
        }
        curPage := cur;
      }
      return curPage;
    }
  }

  /** The scheme and authority of a page address. */
  function Authority(host: string, port: string): string {
    if port != "" then "http://" + host + ":" + port else "http://" + host
  }

  /** The scheme comes first, and the authority is taken apart into host and port as a `Host` value is. */
  lemma AuthorityParts(host: string, port: string)
    requires Without({':'}, host)
    ensures var a := Authority(host, port);
      && |a| >= 7 && a[..7] == "http://" && HostOf(a[7..]) == host
      && PortOf(a[7..]) == if port != "" then Some(port) else None
  {
    var a := Authority(host, port);
    HostPortPlain(host, port);
    hide HostOf, PortOf;
    assert a[7..] == if port != "" then host + ":" + port else host;
  }

  /**
   A page address is taken apart again: after the scheme, the authority runs up to the first slash, and the
   rest is the address of the target.
   */
  lemma PageParts(host: string, port: string, t: Target)
    requires Without({'/'}, host) && Without({'/'}, port) && CleanTarget(t)
    ensures var page := Authority(host, port) + Address(t);
      var e := FirstIn({'/'}, page, 7);
      && 7 <= e < |page| && page[..e] == Authority(host, port) && page[e..] == Address(t)
  {
    var a := Authority(host, port);
    var page, e := a + Address(t), |a|;
    assert forall k :: 7 <= k < e ==> a[k] != '/';
    assert Address(t)[0] == '/';
    FirstInIs({'/'}, page, 7, e);
    hide FirstIn, Authority, Address;
    assert page[..e] == a && page[e..] == Address(t);
  }

  lemma AddressTail(a: string, t: Target)
    ensures a + Address(t) == if t.search.Some? then a + t.path + "?" + t.search.value else a + t.path
  {
    if t.search.Some? {
      assert a + t.path + "?" + t.search.value == a + (t.path + (['?'] + t.search.value));
    }
  }

  method SkipBlanks(buf: array<char>, req: string) returns (p: nat)
    requires buf[..] == req + [NUL] && NUL !in req
    ensures p == FirstNotIn(BLANKS, req, 0)
  {
    p := 0;
    while buf[p] == ' ' || buf[p] == '\t'
      invariant p <= |req| && FirstNotIn(BLANKS, req, 0) == FirstNotIn(BLANKS, req, p)
      decreases |req| - p
    {
      p := p + 1;
    }
  }

  method SkipSlashes(buf: array<char>, req: string, b: nat) returns (p: nat)
    requires buf[..] == req + [NUL] && NUL !in req && b < |req|
    ensures p == Begin(req, b)
  {
    p := b;
    while buf[p + 1] == '/'
      invariant p < |req| && Begin(req, b) == Begin(req, p)
      decreases |req| - p
    {
      p := p + 1;
    }
  }

  /** Ends the target at the first blank after it. */
  method EndAtBlank(buf: array<char>, req: string, p: nat)
    requires buf[..] == req + [NUL] && NUL !in req && p < |req|
    modifies buf
    ensures Lies(buf[..], p, req[p..FirstIn(BLANKS, req, p)])
  {
    var r := p;
    while buf[r] != NUL && buf[r] != ' ' && buf[r] != '\t'
      invariant p <= r <= |req| && FirstIn(BLANKS, req, p) == FirstIn(BLANKS, req, r)
      decreases |req| - r
    {
      r := r + 1;
    }
    if buf[r] != NUL {
      buf[r] := NUL;
    }
    assert buf[p..r] == req[p..r];
  }

  /** Cuts a text at a character, if it occurs. */
  method CutAtChar(buf: array<char>, p: nat, c: char, ghost t: string) returns (r: Ptr)
    requires Lies(buf[..], p, t) && c != NUL
    modifies buf
    ensures var i := FirstIn({c}, t, 0);
      && Lies(buf[..], p, t[..i])
      && (i == |t| ==> r == Null) && (i < |t| ==> r == At(p + i) && Lies(buf[..], p + i + 1, t[i + 1..]))
  {
    hide Lies, CStr, FirstIn;
    ghost var b, i := buf[..], FirstIn({c}, t, 0);
    LiesCStr(b, p, t);
    assert p + |t| < |b| by {
      LiesInside(b, p, t);
    }
    r := StrChr(buf, p, c);
    if r.At? {
      CutInPlace(b, p, t, i);
      buf[r.index] := NUL;
      assert buf[..] == b[p + i := NUL];
    } else {
      assert t[..i] == t;
    }
  }

  lemma LiesInside(b: string, p: nat, t: string)
    requires Lies(b, p, t)
    ensures p + |t| < |b| && forall k :: 0 <= k < |t| ==> b[p + k] == t[k]
  {
    assert forall k :: 0 <= k < |t| ==> t[k] == b[p..p + |t|][k];
  }

  /** The cuts of `Parse` from the target's start on. */
  method CutTarget(buf: array<char>, req: string, p: nat) returns (search: Ptr)
    requires buf[..] == req + [NUL] && NUL !in req && p < |req|
    modifies buf
    ensures var t := Divided(req[p..FirstIn(BLANKS, req, p)]);
      && Lies(buf[..], p, t.path)
      && (t.search.None? ==> search == Null)
      && (t.search.Some? ==> search.At? && Lies(buf[..], search.index, t.search.value))
  {
    hide Lies, FirstIn, CStr;
    ghost var t := req[p..FirstIn(BLANKS, req, p)];
    EndAtBlank(buf, req, p);
    var hash := CutAtChar(buf, p, '#', t);
    ghost var u := t[..FirstIn({'#'}, t, 0)];
    search := CutAtChar(buf, p, '?', u);
    ghost var q := FirstIn({'?'}, u, 0);
    ghost var path := u[..q];
    if search.At? {
      search := At(search.index + 1);
    }
    StripSlash(buf, p, path, search, if search.At? then u[q + 1..] else "");
  }

  /** Drops one trailing slash of a path that is not the root; the query behind it stays. */
  method StripSlash(buf: array<char>, p: nat, ghost path: string, search: Ptr, ghost query: string)
    requires Lies(buf[..], p, path)
    requires search.At? ==> p + |path| < search.index && Lies(buf[..], search.index, query)
    modifies buf
    ensures Lies(buf[..], p, Stripped(path))
    ensures search.At? ==> Lies(buf[..], search.index, query)
  {
    LiesCStr(buf[..], p, path);
    LiesInside(buf[..], p, path);
    var len := StrLen(buf, p);
    hide Lies, CStr;
    if len > 1 && buf[p + len - 1] == '/' {
      CutInPlace(buf[..], p, path, len - 1);
      if search.At? {
        CutBefore(buf[..], p + len - 1, search.index, query);
      }
      buf[p + len - 1] := NUL;
    }
  }
}
