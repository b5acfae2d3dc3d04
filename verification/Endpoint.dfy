/**
 Canonical form of an advertised endpoint `host:port`, where the host is an IP address or a
 DNS name (label and name sizes of section 2.3.4 of RFC 1035, host labels of section 2.1 of
 RFC 1123). Accepted texts are ASCII, so lengths in bytes and in characters agree.
 */
module Endpoint {
  import opened Basics
  import opened Texts
  import opened IpAddress

  const MAX_ENDPOINT_LEN: nat := 512
  const MAX_PORT: nat := 0xFFFF

  predicate IsAlphanumeric(c: char) { IsDigit(c) || 'a' <= c <= 'z' || 'A' <= c <= 'Z' }

  predicate IsSpace(c: char) { c == ' ' || '\t' <= c <= '\r' }

  /** Rust's `u16` parser: an optional plus sign, then at least one digit. */
  function ParsePort(t: string): Option<nat> {
    var digits := if t != "" && t[0] == '+' then t[1..] else t;
    if digits == "" then None
    else match Number(digits, 10)
      case Some(n) => if n <= MAX_PORT then Some(n) else None
      case None => None
  }

  // ----- Hosts

  function LowerChar(c: char): char { if 'A' <= c <= 'Z' then c - 'A' + 'a' else c }

  function Lower(s: string): string { seq(|s|, i requires 0 <= i < |s| => LowerChar(s[i])) }

  lemma LowerOfJoin(p: string, rest: string)
    requires '.' !in p
    ensures Lower(p + ['.'] + rest) == Lower(p) + ['.'] + Lower(rest) && '.' !in Lower(p)
  {
    assert forall i :: 0 <= i < |p| ==> p[i] in p;
  }

  function LowerAll(parts: seq<string>): seq<string> {
    seq(|parts|, i requires 0 <= i < |parts| => Lower(parts[i]))
  }

  lemma LowerAllCons(p: string, parts: seq<string>)
    ensures LowerAll([p] + parts) == [Lower(p)] + LowerAll(parts)
  {
  }

  lemma {:induction false} SplitOfLower(s: string)
    ensures Split(Lower(s), '.') == LowerAll(Split(s, '.'))
    decreases |s|
  {
    var p := FirstPart(s, '.');
    if |p| == |s| {
      LowerOfJoin(s, "");
      SplitOfPart(s, '.');
      SplitOfPart(Lower(s), '.');
    } else {
      var rest := s[|p| + 1..];
      assert s == p + ['.'] + rest;
      LowerOfJoin(p, rest);
      SplitOfJoin(p, '.', rest);
      SplitOfJoin(Lower(p), '.', Lower(rest));
      SplitOfLower(rest);
      LowerAllCons(p, Split(rest, '.'));
    }
  }

  predicate ValidLabel(t: string) {
    && 1 <= |t| <= 63
    && (forall c :: c in t ==> IsAlphanumeric(c) || c == '-')
    && IsAlphanumeric(t[0]) && IsAlphanumeric(t[|t| - 1])
  }

  function WithoutDot(host: string): string {
    if host != "" && host[|host| - 1] == '.' then host[..|host| - 1] else host
  }

  predicate ValidName(name: string) {
    1 <= |name| <= 253 && forall p :: p in Split(name, '.') ==> ValidLabel(p)
  }

  predicate ValidDnsName(host: string) {
    ValidName(WithoutDot(host))
  }

  function CanonicalHost(host: string): Option<string> {
    if IsIpv4(host) then (if Undialable(host) then None else Some(host))
    else match ParseIpv6(host)
      case Some(g) =>
        ParsedIsIpv6(host);
        if UndialableIpv6(g) then None else Some(PrintIpv6(g))
      case None => if ValidDnsName(host) then Some(Lower(WithoutDot(host))) else None
  }

  // ----- Host and port

  /** The position of the first (or last) occurrence, if any. */
  function Find(s: string, c: char): (r: Option<nat>)
    ensures r.Some? ==> r.value < |s| && s[r.value] == c && c !in s[..r.value]
    ensures r.None? ==> c !in s
  {
    if s == "" then None
    else if s[0] == c then Some(0)
    else match Find(s[1..], c)
      case Some(i) =>
        assert s[..i + 1] == [s[0]] + s[1..][..i];
        Some(i + 1)
      case None =>
        assert s == [s[0]] + s[1..];
        None
  }

  function FindLast(s: string, c: char): (r: Option<nat>)
    ensures r.Some? ==> r.value < |s| && s[r.value] == c && c !in s[r.value + 1..]
    ensures r.None? ==> c !in s
  {
    if s == "" then None
    else if s[|s| - 1] == c then Some(|s| - 1)
    else match FindLast(s[..|s| - 1], c)
      case Some(i) =>
        assert s[i + 1..] == s[..|s| - 1][i + 1..] + [s[|s| - 1]];
        Some(i)
      case None =>
        assert s == s[..|s| - 1] + [s[|s| - 1]];
        None
  }

  function WithPort(host: string, port: string): Option<(string, nat)> {
    match ParsePort(port)
    case Some(n) => Some((host, n))
    case None => None
  }

  function SplitBracketed(s: string): Option<(string, nat)> {
    match Find(s, ']')
    case Some(closing) =>
      if 0 < closing && closing + 1 < |s| && s[closing + 1] == ':' then WithPort(s[1..closing], s[closing + 2..])
      else None
    case None => None
  }

  function SplitPlain(s: string): Option<(string, nat)> {
    match FindLast(s, ':')
    case Some(colon) => if ':' in s[..colon] then None else WithPort(s[..colon], s[colon + 1..])
    case None => None
  }

  function SplitEndpoint(s: string): Option<(string, nat)> {
    if s != "" && s[0] == '[' then SplitBracketed(s) else SplitPlain(s)
  }

  function Join(host: string, port: nat): string {
    (if ':' in host then ['['] + host + [']'] else host) + [':'] + Digits(port, 10)
  }

  function CanonicalPair(host: string, port: nat): Option<string> {
    if port == 0 then None
    else match CanonicalHost(host)
      case Some(h) => Some(Join(h, port))
      case None => None
  }

  predicate WellSized(s: string) {
    s != "" && |s| <= MAX_ENDPOINT_LEN && !IsSpace(s[0]) && !IsSpace(s[|s| - 1])
  }

  function Canonicalize(s: string): Option<string> {
    if !WellSized(s) then None
    else match SplitEndpoint(s)
      case Some((host, port)) => CanonicalPair(host, port)
      case None => None
  }

  // ----- The canonical form is a fixed point

  predicate PlainChar(c: char) { IsAlphanumeric(c) || c == '-' || c == '.' }

  ghost predicate PlainHost(h: string) {
    1 <= |h| <= 253 && forall c :: c in h ==> PlainChar(c)
  }

  lemma Ipv4IsPlain(host: string)
    requires IsIpv4(host)
    ensures PlainHost(host)
  {
    Ipv4Chars(host);
  }

  lemma NameIsPlain(name: string)
    requires ValidName(name)
    ensures PlainHost(name) && name[|name| - 1] != '.'
  {
    forall i | 0 <= i < |name| ensures PlainChar(name[i]) {
      var p := CharsOfSplit(name, '.', i);
      assert p in Split(name, '.') ==> ValidLabel(p);
    }
    if name[|name| - 1] == '.' {
      TrailingSeparator(name, '.');
    }
  }

  /** The text of a canonical host: a plain one, or an IPv6 address. */
  ghost predicate HostText(h: string) { PlainHost(h) || AddressText(h) }

  lemma Ipv6HostIsText(host: string)
    requires ParseIpv6(host).Some?
    ensures IsIpv6(ParseIpv6(host).value) && AddressText(PrintIpv6(ParseIpv6(host).value))
  {
    ParsedIsIpv6(host);
    PrintedIsText(ParseIpv6(host).value);
  }

  lemma LowerIsPlain(h: string)
    requires PlainHost(h)
    ensures PlainHost(Lower(h))
  {
    assert forall i :: 0 <= i < |h| ==> h[i] in h;
  }

  lemma NameHostIsText(host: string)
    requires ValidDnsName(host)
    ensures PlainHost(Lower(WithoutDot(host)))
  {
    NameIsPlain(WithoutDot(host));
    LowerIsPlain(WithoutDot(host));
  }

  lemma CanonicalHostIsText(host: string)
    requires CanonicalHost(host).Some?
    ensures HostText(CanonicalHost(host).value) && NoCapitals(CanonicalHost(host).value)
  {
    HostHasNoCapital(host);
    if IsIpv4(host) {
      Ipv4IsPlain(host);
    } else if ParseIpv6(host).Some? {
      Ipv6HostIsText(host);
    } else {
      NameHostIsText(host);
    }
  }

  /** A host text taken for a name only because of its final dot: without it, an undialable address. */
  predicate DottedUndialable(host: string) {
    var name := WithoutDot(host);
    name != host && IsIpv4(name) && Undialable(name)
  }

  lemma LowerOfIpv4(name: string)
    requires IsIpv4(Lower(name)) || IsIpv4(name)
    ensures Lower(name) == name
  {
    Ipv4Chars(if IsIpv4(name) then name else Lower(name));
    forall i | 0 <= i < |name| ensures Lower(name)[i] == name[i] {
      assert name[i] in name && Lower(name)[i] in Lower(name);
    }
  }

  lemma LoweredLabels(name: string)
    requires ValidName(name)
    ensures ValidName(Lower(name)) && Lower(Lower(name)) == Lower(name)
  {
    SplitOfLower(name);
    forall i | 0 <= i < |Split(name, '.')| ensures ValidLabel(Split(Lower(name), '.')[i]) {
      assert Split(name, '.')[i] in Split(name, '.');
      LoweredLabel(Split(name, '.')[i]);
    }
  }

  lemma LoweredLabel(p: string)
    requires ValidLabel(p)
    ensures ValidLabel(Lower(p))
  {
    forall i | 0 <= i < |p| ensures IsAlphanumeric(Lower(p)[i]) || Lower(p)[i] == '-' {
      assert p[i] in p;
    }
  }

  lemma NoColonNoIpv6(host: string)
    requires ':' !in host
    ensures ParseIpv6(host) == None
  {
    if ParseIpv6(host).Some? {
      ParsedIsIpv6(host);
    }
  }

  lemma NameIsHost(name: string)
    requires ValidName(name) && !IsIpv4(name)
    ensures CanonicalHost(name) == Some(Lower(name))
  {
    NameIsPlain(name);
    NoColonNoIpv6(name);
    assert WithoutDot(name) == name;
  }

  lemma NameIsStable(name: string)
    requires ValidName(name) && !IsIpv4(Lower(name))
    ensures CanonicalHost(Lower(name)) == Some(Lower(name))
  {
    LoweredLabels(name);
    NameIsHost(Lower(name));
  }

  lemma Ipv6IsStable(g: seq<nat>)
    requires IsIpv6(g) && !UndialableIpv6(g)
    ensures !IsIpv4(PrintIpv6(g)) && CanonicalHost(PrintIpv6(g)) == Some(PrintIpv6(g))
  {
    Ipv6ComesBack(g);
    PrintedIsText(g);
    if IsIpv4(PrintIpv6(g)) {
      Ipv4HasNoColon(PrintIpv6(g));
    }
  }

  lemma Ipv4HasNoColon(host: string)
    requires IsIpv4(host) || IsIpv4(WithoutDot(host))
    ensures ':' !in host && ParseIpv6(host) == None
  {
    Ipv4Chars(if IsIpv4(host) then host else WithoutDot(host));
    DotIsNoColon(host);
    NoColonNoIpv6(host);
  }

  lemma DotIsNoColon(host: string)
    ensures ':' in host <==> ':' in WithoutDot(host)
  {
    assert host == WithoutDot(host) + host[|WithoutDot(host)|..];
  }

  /** Canonicalizing a host again changes nothing, except that the dotted address is now refused. */
  lemma HostIsStable(host: string)
    requires CanonicalHost(host).Some?
    ensures var h := CanonicalHost(host).value;
            CanonicalHost(h) == if DottedUndialable(host) then None else Some(h)
  {
    var name := WithoutDot(host);
    if IsIpv4(host) {
      Ipv4HasNoDot(host);
    } else if ParseIpv6(host).Some? {
      ParsedIsIpv6(host);
      Ipv6IsStable(ParseIpv6(host).value);
      if DottedUndialable(host) {
        Ipv4HasNoColon(host);
      }
    } else if IsIpv4(Lower(name)) || IsIpv4(name) {
      LowerOfIpv4(name);
    } else {
      NameIsStable(name);
    }
  }

  lemma Ipv4HasNoDot(host: string)
    requires IsIpv4(host)
    ensures WithoutDot(host) == host
  {
    Ipv4HasNoFinalDot(host);
  }

  lemma FindLastOfOnly(a: string, c: char, b: string)
    requires c !in a && c !in b
    ensures FindLast(a + [c] + b, c) == Some(|a|)
  {
    var s := a + [c] + b;
    assert s[|a|] == c && forall i :: 0 <= i < |s| && s[i] == c ==> i == |a|;
  }

  lemma SplitAtColon(a: string, b: string)
    requires ':' !in a && ':' !in b
    ensures SplitPlain(a + [':'] + b) == WithPort(a, b)
  {
    FindLastOfOnly(a, ':', b);
    var s := a + [':'] + b;
    assert s[..|a|] == a && s[|a| + 1..] == b;
  }

  lemma PortOfText(t: string, port: nat)
    requires t != "" && IsDigit(t[0]) && Number(t, 10) == Some(port) && port <= MAX_PORT
    ensures ParsePort(t) == Some(port)
  {
  }

  lemma PortOfDigits(host: string, port: nat)
    requires port <= MAX_PORT
    ensures WithPort(host, Digits(port, 10)) == Some((host, port))
    ensures 1 <= |Digits(port, 10)| <= 5 && forall c :: c in Digits(port, 10) ==> IsDigit(c)
  {
    var t := Digits(port, 10);
    assert forall c :: c in t ==> IsDigitOf(c, 10);
    assert t[0] in t;
    NumberOfDigits(port, 10);
    PortOfText(t, port);
    assert Power(10, 5) == 100000;
    DigitsAreFew(port, 10, 5);
  }

  lemma JoinIsWellSized(h: string, digits: string)
    requires 1 <= |h| <= 253 && !IsSpace(h[0])
    requires 1 <= |digits| <= 5 && forall c :: c in digits ==> IsDigit(c)
    ensures WellSized(h + [':'] + digits) && (h + [':'] + digits)[0] == h[0]
  {
    var s := h + [':'] + digits;
    assert digits[|digits| - 1] in digits;
    assert s[0] == h[0] && s[|s| - 1] == digits[|digits| - 1];
  }

  lemma FindOfOnly(a: string, c: char, b: string)
    requires c !in a && c !in b
    ensures Find(a + [c] + b, c) == Some(|a|)
  {
    var s := a + [c] + b;
    assert s[|a|] == c && s[..|a|] == a;
    assert forall i :: 0 <= i < |s| && s[i] == c ==> i == |a|;
  }

  lemma SplitAtBracket(h: string, digits: string)
    requires ']' !in h && ']' !in digits
    ensures SplitBracketed(['['] + h + [']'] + [':'] + digits) == WithPort(h, digits)
  {
    var s, open, port := ['['] + h + [']'] + [':'] + digits, ['['] + h, [':'] + digits;
    FindOfOnly(open, ']', port);
    assert s == open + [']'] + port;
    assert s[1..|h| + 1] == h && s[|h| + 3..] == digits;
  }

  lemma SplitOfPlain(h: string, port: nat)
    requires PlainHost(h) && port <= MAX_PORT
    ensures WellSized(Join(h, port)) && SplitEndpoint(Join(h, port)) == Some((h, port))
  {
    PortOfDigits(h, port);
    assert h[0] in h;
    JoinIsWellSized(h, Digits(port, 10));
    SplitAtColon(h, Digits(port, 10));
  }

  lemma SplitOfAddress(h: string, port: nat)
    requires AddressText(h) && port <= MAX_PORT
    ensures WellSized(Join(h, port)) && SplitEndpoint(Join(h, port)) == Some((h, port))
  {
    PortOfDigits(h, port);
    JoinIsWellSized(['['] + h + [']'], Digits(port, 10));
    SplitAtBracket(h, Digits(port, 10));
  }

  /** Host and port are read back, with brackets around a host that has colons. */
  lemma SplitOfCanonical(h: string, port: nat)
    requires HostText(h) && port <= MAX_PORT
    ensures WellSized(Join(h, port)) && SplitEndpoint(Join(h, port)) == Some((h, port))
  {
    if PlainHost(h) {
      SplitOfPlain(h, port);
    } else {
      SplitOfAddress(h, port);
    }
  }

  lemma PortIsU16(s: string)
    requires SplitEndpoint(s).Some?
    ensures SplitEndpoint(s).value.1 <= MAX_PORT
  {
  }

  // ----- The canonical form is in lower case

  lemma DigitsHaveNoCapital(n: nat, base: nat)
    requires IsBase(base)
    ensures NoCapitals(Digits(n, base))
  {
    DigitsAreLower(n, base);
  }

  lemma LowerHasNoCapital(t: string)
    ensures NoCapitals(Lower(t))
  {
  }

  lemma HostHasNoCapital(host: string)
    requires CanonicalHost(host).Some?
    ensures NoCapitals(CanonicalHost(host).value)
  {
    if IsIpv4(host) {
      Ipv4Chars(host);
    } else if ParseIpv6(host).Some? {
      ParsedIsIpv6(host);
      PrintedIsLower(ParseIpv6(host).value);
    } else {
      LowerHasNoCapital(WithoutDot(host));
    }
  }

  /** No capital letter is left in a canonical text. */
  lemma CanonicalIsLower(s: string)
    requires Canonicalize(s).Some?
    ensures NoCapitals(Canonicalize(s).value)
  {
    var (host, port) := SplitEndpoint(s).value;
    HostHasNoCapital(host);
    DigitsHaveNoCapital(port, 10);
  }

  /** The same letter, were it in another case. */
  predicate SameLetter(c: char, d: char) {
    || c == d
    || ('A' <= c <= 'Z' && d as int == c as int + 32)
    || ('A' <= d <= 'Z' && c as int == d as int + 32)
  }

  predicate SameButCase(a: string, b: string) {
    |a| == |b| && forall i :: 0 <= i < |a| ==> SameLetter(a[i], b[i])
  }

  /** The text is the name, or the name with a final dot. */
  predicate Names(host: string, name: string) {
    (host == name || host == name + ['.']) && (name == "" || name[|name| - 1] != '.')
  }

  lemma NamedIsWithoutDot(host: string, name: string)
    requires Names(host, name)
    ensures WithoutDot(host) == name
  {
  }

  lemma LowerIsSame(a: string, b: string)
    requires |a| == |b|
    ensures Lower(a) == Lower(b) <==> SameButCase(a, b)
  {
    if Lower(a) == Lower(b) {
      forall i | 0 <= i < |a| ensures SameLetter(a[i], b[i]) {
        assert Lower(a)[i] == Lower(b)[i];
      }
    }
  }

  /** What a host without colons becomes: the name in lower case. */
  lemma CanonicalNameIs(host: string, name: string)
    requires CanonicalHost(host).Some? && ':' !in host && Names(host, name)
    ensures CanonicalHost(host) == Some(Lower(name))
  {
    NamedIsWithoutDot(host, name);
    NoColonNoIpv6(host);
    if IsIpv4(host) {
      Ipv4HasNoDot(host);
      LowerOfIpv4(host);
    }
  }

  /** Accepted names and IPv4 literals have the same canonical form exactly when they differ in case and a final dot only. */
  lemma SameNameSameForm(host: string, name: string, host': string, name': string)
    requires CanonicalHost(host).Some? && ':' !in host && Names(host, name)
    requires CanonicalHost(host').Some? && ':' !in host' && Names(host', name')
    ensures CanonicalHost(host) == CanonicalHost(host') <==> SameButCase(name, name')
  {
    CanonicalNameIs(host, name);
    CanonicalNameIs(host', name');
    assert |Lower(name)| == |name| && |Lower(name')| == |name'|;
    if |name| == |name'| { LowerIsSame(name, name'); }
  }

  predicate HostIsDottedUndialable(s: string) {
    SplitEndpoint(s).Some? && DottedUndialable(SplitEndpoint(s).value.0)
  }

  /**
   Canonicalization is idempotent exactly off the family of dotted undialable addresses; on
   that family the canonical text itself is refused.
   */
  lemma CanonicalIsStable(s: string)
    requires Canonicalize(s).Some?
    ensures var c := Canonicalize(s).value;
            Canonicalize(c) == if HostIsDottedUndialable(s) then None else Some(c)
  {
    var (host, port) := SplitEndpoint(s).value;
    CanonicalHostIsText(host);
    HostIsStable(host);
    PortIsU16(s);
    SplitOfCanonical(CanonicalHost(host).value, port);
  }

  /** The host is an address nobody can dial. */
  predicate UndialableEndpoint(c: string) {
    SplitEndpoint(c).Some? && IsIpv4(SplitEndpoint(c).value.0) && Undialable(SplitEndpoint(c).value.0)
  }

  /** The text is what some accepted endpoint becomes. */
  ghost predicate IsImage(c: string) {
    exists text :: Canonicalize(text) == Some(c)
  }

  /** A canonical text either stands for itself or is refused, and it is refused only as undialable. */
  lemma ImageIsFixedOrRefused(c: string)
    requires IsImage(c)
    ensures Canonicalize(c) == if UndialableEndpoint(c) then None else Some(c)
  {
    var text :| Canonicalize(text) == Some(c);
    var (host, port) := SplitEndpoint(text).value;
    CanonicalIsStable(text);
    CanonicalHostIsText(host);
    PortIsU16(text);
    SplitOfCanonical(CanonicalHost(host).value, port);
    DottedHostIsUndialable(host);
  }

  lemma DottedHostIsUndialable(host: string)
    requires CanonicalHost(host).Some?
    ensures var h := CanonicalHost(host).value; DottedUndialable(host) <==> IsIpv4(h) && Undialable(h)
  {
    HostIsStable(host);
    if DottedUndialable(host) {
      if IsIpv4(host) { Ipv4HasNoDot(host); }
      Ipv4HasNoColon(host);
      LowerOfIpv4(WithoutDot(host));
    }
  }

  lemma OctetIsLabel(p: string)
    requires Octet(p).Some?
    ensures ValidLabel(p)
  {
    NumberIsDigits(p, 10);
    assert p[0] in p && p[|p| - 1] in p;
  }

  /** A final dot turns every dotted quad into a name. */
  lemma DottedIsName(host: string)
    requires IsIpv4(host)
    ensures PlainHost(host + ['.']) && CanonicalHost(host + ['.']) == Some(host)
  {
    var dotted := host + ['.'];
    Ipv4Chars(host);
    assert WithoutDot(dotted) == host;
    assert !IsIpv4(dotted) by { if IsIpv4(dotted) { Ipv4HasNoDot(dotted); } }
    Ipv4HasNoColon(dotted);
    forall p | p in Split(host, '.') ensures ValidLabel(p) { OctetIsLabel(p); }
    LowerOfIpv4(host);
  }

  /** So the exception is the whole family: each passes once and is refused the second time. */
  lemma DottedIsAcceptedOnce(host: string, port: nat)
    requires IsIpv4(host) && Undialable(host) && 0 < port <= MAX_PORT
    ensures Canonicalize(Join(host + ['.'], port)) == Some(Join(host, port))
    ensures UndialableEndpoint(Join(host, port)) && Canonicalize(Join(host, port)) == None
  {
    DottedIsName(host);
    SplitOfCanonical(host + ['.'], port);
    Ipv4IsPlain(host);
    SplitOfCanonical(host, port);
  }

  lemma ZerosAreUndialable()
    ensures IsIpv4(QuadText(0, 0)) && Undialable(QuadText(0, 0))
  {
    QuadComesBack(0, 0);
    OctetOfDigits(0);
  }

  // ----- Exactly what is accepted

  /** An IPv4 literal is accepted, as it stands, exactly with a port other than zero and an address one can dial. */
  lemma QuadAccepted(a: nat, b: nat, port: nat)
    requires a < 0x10000 && b < 0x10000 && port <= 65535
    ensures var s := QuadText(a, b) + [':'] + Digits(port, 10);
            Canonicalize(s) ==
              if port == 0 || (a == 0 && b == 0) || 0xE000 <= a <= 0xEFFF || (a == 0xFFFF && b == 0xFFFF) then None else Some(s)
  {
    var host := QuadText(a, b);
    UndialableExactly(a, b);
    Ipv4IsPlain(host);
    Ipv4HasNoColon(host);
    SplitOfCanonical(host, port);
  }

  lemma Ipv6Host(g: seq<nat>)
    requires IsIpv6(g)
    ensures CanonicalHost(PrintIpv6(g)) == if UndialableIpv6(g) then None else Some(PrintIpv6(g))
  {
    PrintedIsText(g);
    Ipv6ComesBack(g);
    if IsIpv4(PrintIpv6(g)) { Ipv4HasNoColon(PrintIpv6(g)); }
  }

  lemma AcceptedExactly(host: string, port: nat)
    requires HostText(host) && port <= MAX_PORT
    ensures Canonicalize(Join(host, port)) == CanonicalPair(host, port)
  {
    SplitOfCanonical(host, port);
  }

  /** So is an IPv6 address, printed in brackets. */
  lemma Ipv6Accepted(g: seq<nat>, port: nat)
    requires IsIpv6(g) && port <= 65535
    ensures var s := ['['] + PrintIpv6(g) + [']'] + [':'] + Digits(port, 10);
            Canonicalize(s) ==
              if port == 0 || (forall i :: 0 <= i < 8 ==> g[i] == 0) || g[0] >= 0xFF00 || 0xFE80 <= g[0] <= 0xFEBF then None
              else Some(s)
  {
    UndialableIpv6Exactly(g);
    PrintedIsText(g);
    Ipv6Host(g);
    AcceptedExactly(PrintIpv6(g), port);
  }

  /** The characters from `i` to `j` are a label of letters, digits and inner hyphens. */
  predicate LabelAt(name: string, i: nat, j: nat) {
    && i + 1 <= j <= i + 63 && j <= |name| && IsAlphanumeric(name[i]) && IsAlphanumeric(name[j - 1])
    && forall k :: i <= k < j ==> IsAlphanumeric(name[k]) || name[k] == '-'
  }

  lemma LabelIs(name: string, i: nat, j: nat)
    requires i <= j <= |name|
    ensures LabelAt(name, i, j) <==> ValidLabel(name[i..j])
  {
    var p := name[i..j];
    assert forall k :: i <= k < j ==> name[k] == p[k - i] && p[k - i] in p;
    assert forall k :: 0 <= k < |p| ==> p[k] == name[i + k];
  }

  /** A name in terms of its characters: what lies between dots is a label. */
  lemma NameExactly(name: string)
    ensures ValidName(name) <==>
            1 <= |name| <= 253 && forall i: nat, j: nat :: Stretch(name, '.', i, j) ==> LabelAt(name, i, j)
  {
    if ValidName(name) {
      forall i: nat, j: nat | Stretch(name, '.', i, j) ensures LabelAt(name, i, j) {
        assert IsStretch(name, '.', name[i..j]);
        PartsAreStretches(name, '.', name[i..j]);
        LabelIs(name, i, j);
      }
    } else if 1 <= |name| <= 253 {
      var p :| p in Split(name, '.') && !ValidLabel(p);
      PartsAreStretches(name, '.', p);
      var i: nat, j: nat :| Stretch(name, '.', i, j) && name[i..j] == p;
      LabelIs(name, i, j);
    }
  }

  lemma SignedPort(t: string)
    requires t != "" && t[0] != '+'
    ensures ParsePort(['+'] + t) == ParsePort(t)
  {
    assert (['+'] + t)[1..] == t;
  }

  /** Ports may carry a plus sign and leading zeros. */
  lemma PortSpelling(n: nat, k: nat)
    ensures var t := Padding(k) + Digits(n, 10);
            ParsePort(t) == ParsePort(['+'] + t) == if n <= 65535 then Some(n) else None
  {
    var t := Padding(k) + Digits(n, 10);
    NumberOfPadded(k, Digits(n, 10));
    NumberOfDigits(n, 10);
    NumberIsDigits(t, 10);
    assert t[0] in t;
    SignedPort(t);
  }

  lemma PortIsPlain(t: string)
    requires ParsePort(t).Some?
    ensures ':' !in t && ']' !in t
  {
    var digits := if t[0] == '+' then t[1..] else t;
    NumberIsDigits(digits, 10);
    assert forall i :: 0 <= i < |t| ==> i == 0 || t[i] in digits || t[0] != '+';
  }

  /** A host in brackets or one without a colon, then a colon, then a port. */
  predicate Spells(s: string, host: string, port: string) {
    || (']' !in host && s == ['['] + host + [']'] + [':'] + port)
    || (':' !in host && (host == "" || host[0] != '[') && s == host + [':'] + port)
  }

  lemma SplitGives(s: string) returns (port: string)
    requires SplitEndpoint(s).Some?
    ensures Spells(s, SplitEndpoint(s).value.0, port) && ParsePort(port) == Some(SplitEndpoint(s).value.1)
  {
    if s[0] == '[' {
      var closing := Find(s, ']').value;
      port := s[closing + 2..];
      assert forall i :: 1 <= i < closing ==> s[i] == s[..closing][i];
      assert s == ['['] + s[1..closing] + [']'] + [':'] + port;
    } else {
      var colon := FindLast(s, ':').value;
      port := s[colon + 1..];
      assert s == s[..colon] + [':'] + port;
    }
  }

  lemma SplitTakes(s: string, host: string, port: string)
    requires Spells(s, host, port) && ParsePort(port).Some?
    ensures SplitEndpoint(s) == Some((host, ParsePort(port).value))
  {
    PortIsPlain(port);
    if ']' !in host && s == ['['] + host + [']'] + [':'] + port {
      SplitAtBracket(host, port);
    } else {
      SplitAtColon(host, port);
    }
  }
}
