/**
 Request headers: names compare without case, as section 4.2 of RFC 2616 has it, and the last one wins.
 */
module RequestHeaders {
  import opened Basics
  import opened CStrings
  import opened RequestTarget

  function LowerChar(c: char): char {
    if 'A' <= c <= 'Z' then c - 'A' + 'a' else c
  }

  /** A name in lower case: equal for names that `stricmp` takes for equal. */
  function Lower(s: string): (t: string)
    ensures |t| == |s|
  {
    seq(|s|, i requires 0 <= i < |s| => LowerChar(s[i]))
  }

  /** Equal characters, or the capital and the small form of one ASCII letter. */
  predicate SameLetter(a: char, b: char) {
    || a == b
    || ('A' <= a <= 'Z' && b as int == a as int + 32)
    || ('A' <= b <= 'Z' && a as int == b as int + 32)
  }

  lemma SameLetterIff(a: char, b: char)
    ensures LowerChar(a) == LowerChar(b) <==> SameLetter(a, b)
  {
  }

  /** Names that differ in the case of ASCII letters only. */
  predicate SameName(a: string, b: string) {
    |a| == |b| && forall i :: 0 <= i < |a| ==> SameLetter(a[i], b[i])
  }

  /** These are the names that are equal in lower case. */
  lemma SameNameIff(a: string, b: string)
    ensures Lower(a) == Lower(b) <==> SameName(a, b)
  {
    assert SameName(a, b) <==> |a| == |b| && forall i :: 0 <= i < |a| ==> SameLetter(a[i], b[i]);
    forall i | 0 <= i < |a| && i < |b|
      ensures Lower(a)[i] == Lower(b)[i] <==> SameLetter(a[i], b[i])
    {
      SameLetterIff(a[i], b[i]);
    }
    assert |a| == |Lower(a)| && |b| == |Lower(b)|;
    hide *;
    if |a| == |b| && forall i :: 0 <= i < |a| ==> SameLetter(a[i], b[i]) {
      assert Lower(a) == Lower(b);
    }
  }

  /** A header line: a name before the colon and a value after the blanks that follow it. */
  datatype Header = Header(name: string, value: string)

  function ParseHeader(line: string): Option<Header> {
    var c := FirstIn({':'}, line, 0);
    if c == |line| then None
    else Some(Header(line[..c], line[FirstNotIn(BLANKS, line, c + 1)..]))
  }

  /** The host part of a `Host` value. */
  function HostOf(value: string): string {
    value[..FirstIn({':'}, value, 0)]
  }

  /** The port part, if the value has a colon. */
  function PortOf(value: string): Option<string> {
    var i := FirstIn({':'}, value, 0);
    if i < |value| then Some(value[i + 1..]) else None
  }

  /** What the headers have set so far. */
  datatype Headers = Headers(table: map<string, string>, host: string, port: string) {

    /** Entering a header; a `Host` without port leaves the port alone. */
    function Enter(h: Header): Headers {
      var table' := table[Lower(h.name) := h.value];
      if Lower(h.name) != "host" then Headers(table', host, port)
      else Headers(table', HostOf(h.value), if PortOf(h.value).Some? then PortOf(h.value).value else port)
    }

    /** `AddHeader`: a line without colon is ignored. */
    function Add(line: string): Headers {
      match ParseHeader(line)
      case None => this
      case Some(h) => Enter(h)
    }

    /** `HeaderIn`. */
    function Get(key: string): Option<string> {
      if Lower(key) in table then Some(table[Lower(key)]) else None
    }
  }

  const NO_HEADERS: Headers := Headers(map[], "", "")

  /** The headers after a run of lines. */
  function After(lines: seq<string>): Headers {
    if lines == [] then NO_HEADERS else After(lines[..|lines| - 1]).Add(lines[|lines| - 1])
  }

  /** Whether a line is a header with this name, in any case. */
  predicate Names(line: string, key: string) {
    ParseHeader(line).Some? && SameName(ParseHeader(line).value.name, key)
  }

  lemma NamesIff(line: string, key: string)
    ensures Names(line, key) <==> ParseHeader(line).Some? && Lower(ParseHeader(line).value.name) == Lower(key)
  {
    hide ParseHeader, SameName, Lower;
    if ParseHeader(line).Some? {
      SameNameIff(ParseHeader(line).value.name, key);
    }
  }

  /** `i` is the last line that the property picks out, or -1. */
  ghost predicate LastOf(lines: seq<string>, p: string -> bool, i: int) {
    && -1 <= i < |lines| && (i >= 0 ==> p(lines[i]))
    && (forall k :: i < k < |lines| ==> !p(lines[k]))
  }

  lemma LastOfInit(lines: seq<string>, p: string -> bool, i: int)
    requires lines != [] && LastOf(lines, p, i) && !p(lines[|lines| - 1])
    ensures LastOf(lines[..|lines| - 1], p, i)
  {
  }

  /** `HeaderIn` answers with the value of the last line of that name, whatever the case. */
  lemma {:induction false} LastHeaderWins(lines: seq<string>, key: string, i: int)
    requires LastOf(lines, line => Names(line, key), i)
    ensures After(lines).Get(key) == if i < 0 then None else Some(ParseHeader(lines[i]).value.value)
  {
    hide ParseHeader, Lower, HostOf, PortOf, SameName;
    if lines != [] {
      var m := |lines| - 1;
      NamesIff(lines[m], key);
      if !Names(lines[m], key) {
        LastOfInit(lines, line => Names(line, key), i);
        LastHeaderWins(lines[..m], key, i);
      }
    }
  }

  predicate IsHost(line: string) {
    Names(line, "host")
  }

  predicate IsHostWithPort(line: string) {
    IsHost(line) && PortOf(ParseHeader(line).value.value).Some?
  }

  lemma LowerHost()
    ensures Lower("host") == "host"
  {
  }

  /** The host name is that of the last `Host` line, the port that of the last `Host` line that has one. */
  lemma {:induction false} HostAndPort(lines: seq<string>, h: int, p: int)
    requires LastOf(lines, IsHost, h) && LastOf(lines, IsHostWithPort, p)
    ensures After(lines).host == if h < 0 then "" else HostOf(ParseHeader(lines[h]).value.value)
    ensures After(lines).port == if p < 0 then "" else PortOf(ParseHeader(lines[p]).value.value).value
  {
    LowerHost();
    hide ParseHeader, Lower, HostOf, PortOf, SameName;
    if lines != [] {
      var m := |lines| - 1;
      var line := lines[m];
      NamesIff(line, "host");
      if IsHostWithPort(line) {
      } else if IsHost(line) {
        LastOfInit(lines, IsHostWithPort, p);
        HostBefore(lines[..m], p);
      } else {
        LastOfInit(lines, IsHost, h);
        LastOfInit(lines, IsHostWithPort, p);
        HostAndPort(lines[..m], h, p);
      }
    }
  }

  lemma {:induction false} HostBefore(lines: seq<string>, p: int)
    requires LastOf(lines, IsHostWithPort, p)
    ensures After(lines).port == if p < 0 then "" else PortOf(ParseHeader(lines[p]).value.value).value
  {
    LowerHost();
    hide ParseHeader, Lower, HostOf, PortOf, SameName;
    if lines != [] {
      var m := |lines| - 1;
      NamesIff(lines[m], "host");
      if !IsHostWithPort(lines[m]) {
        LastOfInit(lines, IsHostWithPort, p);
        HostBefore(lines[..m], p);
      }
    }
  }

  /**
   The port belongs to the last `Host` line exactly when that line has a port or no earlier one left a
   port behind.
   */
  lemma PortIsCurrentIff(lines: seq<string>, h: int, p: int)
    requires h >= 0 && LastOf(lines, IsHost, h) && LastOf(lines, IsHostWithPort, p)
    ensures var own := PortOf(ParseHeader(lines[h]).value.value);
      After(lines).port == (if own.Some? then own.value else "")
      <==> own.Some? || p < 0 || PortOf(ParseHeader(lines[p]).value.value).value == ""
  {
    HostAndPort(lines, h, p);
    hide ParseHeader, SameName, HostOf, PortOf, After;
    if IsHostWithPort(lines[h]) {
      assert p == h;
    }
  }

  /** A name without colon, a colon, blanks, and a value that does not begin with a blank. */
  lemma ParseBlanks(name: string, blanks: string, value: string)
    requires Without({':'}, name) && (value == "" || value[0] !in BLANKS)
    requires forall i :: 0 <= i < |blanks| ==> blanks[i] in BLANKS
    ensures ParseHeader(name + ":" + (blanks + value)) == Some(Header(name, value))
  {
    var line, q := name + ":" + (blanks + value), |name| + 1;
    var e := q + |blanks|;
    FirstInIs({':'}, line, 0, |name|);
    assert forall k :: q <= k < e ==> line[k] == blanks[k - q];
    FirstNotInIs(BLANKS, line, q, e);
    hide FirstIn, FirstNotIn;
    assert line[..|name|] == name && line[e..] == value;
  }

  lemma ParsePlain(name: string, value: string)
    requires Without({':'}, name) && (value == "" || value[0] !in BLANKS)
    ensures ParseHeader(name + ":" + value) == Some(Header(name, value))
  {
    hide ParseHeader;
    assert [] + value == value;
    ParseBlanks(name, [], value);
  }

  /** Every line with a colon is of that form, and a line without one is no header. */
  lemma ParseHeaderIff(line: string) returns (blanks: string)
    ensures ParseHeader(line).None? <==> ':' !in line
    ensures forall i :: 0 <= i < |blanks| ==> blanks[i] in BLANKS
    ensures ParseHeader(line).Some? ==>
      var h := ParseHeader(line).value;
      && line == h.name + ":" + (blanks + h.value)
      && Without({':'}, h.name) && (h.value == "" || h.value[0] !in BLANKS)
  {
    blanks := [];
    var c := FirstIn({':'}, line, 0);
    if c < |line| {
      var e := FirstNotIn(BLANKS, line, c + 1);
      blanks := line[c + 1..e];
      assert ParseHeader(line) == Some(Header(line[..c], line[e..])) && line[c] == ':';
      assert Without({':'}, line[..c]) && (e == |line| || line[e] !in BLANKS);
      assert forall i :: 0 <= i < |blanks| ==> blanks[i] == line[c + 1 + i];
      hide *;
      LinePieces(line, c, e);
    }
  }

  lemma LinePieces(line: string, c: nat, e: nat)
    requires c < e <= |line| && line[c] == ':'
    ensures line == line[..c] + ":" + (line[c + 1..e] + line[e..])
  {
  }

  lemma HostPortPlain(host: string, port: string)
    requires Without({':'}, host)
    ensures HostOf(host) == host && PortOf(host).None?
    ensures HostOf(host + ":" + port) == host && PortOf(host + ":" + port) == Some(port)
  {
    FirstInIs({':'}, host, 0, |host|);
    var v := host + ":" + port;
    FirstInIs({':'}, v, 0, |host|);
    hide FirstIn;
    assert v[..|host|] == host && v[|host| + 1..] == port;
  }

  /** Two `Host` lines, the second without a port: the first one's port stays. */
  lemma StalePort(host: string, port: string, other: string)
    requires Without({':'}, host) && Without({':'}, other)
    requires host != "" && host[0] !in BLANKS && (other == "" || other[0] !in BLANKS)
    ensures var h := NO_HEADERS.Add("Host" + ":" + (host + ":" + port)).Add("Host" + ":" + other);
      h.host == other && h.port == port
  {
    assert Without({':'}, "Host") && Lower("Host") == "host";
    hide ParseHeader, Lower, HostOf, PortOf;
    ParsePlain("Host", host + ":" + port);
    ParsePlain("Host", other);
    HostPortPlain(host, port);
    HostPortPlain(other, "");
  }
}
