/**
 Texts of IP addresses: dotted quads, and IPv6 addresses read in the forms of section 2.2 of
 RFC 4291 and written in the form of section 4 of RFC 5952, as the parser and the printer of
 Rust's standard library do.
 */
module IpAddress {
  import opened Basics
  import opened Texts

  // ----- IPv4

  function Octet(t: string): Option<nat> {
    if t == "" || |t| > 3 || (t[0] == '0' && |t| > 1) then None
    else match Number(t, 10)
      case Some(n) => if n <= 255 then Some(n) else None
      case None => None
  }

  predicate IsIpv4(host: string) {
    var parts := Split(host, '.');
    |parts| == 4 && forall p :: p in parts ==> Octet(p).Some?
  }

  /** Unspecified, multicast or broadcast. */
  predicate Undialable(host: string)
    requires IsIpv4(host)
  {
    var parts := Split(host, '.');
    assert parts[0] in parts;
    || (forall p :: p in parts ==> Octet(p) == Some(0))
    || 224 <= Octet(parts[0]).value <= 239
    || (forall p :: p in parts ==> Octet(p) == Some(255))
  }

  lemma Ipv4Chars(host: string)
    requires IsIpv4(host)
    ensures 1 <= |host| <= 16 && forall c :: c in host ==> IsDigit(c) || c == '.'
  {
    forall i | 0 <= i < |host| ensures IsDigit(host[i]) || host[i] == '.' {
      var p := CharsOfSplit(host, '.', i);
      if host[i] != '.' {
        NumberIsDigits(p, 10);
      }
    }
    SplitLength(host, '.');
    assert Split("", '.') == [""];
  }

  lemma Ipv4HasNoFinalDot(host: string)
    requires IsIpv4(host)
    ensures host[|host| - 1] != '.'
  {
    Ipv4Chars(host);
    assert Octet("").None?;
    if host[|host| - 1] == '.' {
      TrailingSeparator(host, '.');
    }
  }

  lemma OctetOfDigits(n: nat)
    requires n <= 255
    ensures Octet(Digits(n, 10)) == Some(n) && '.' !in Digits(n, 10)
  {
    NumberOfDigits(n, 10);
    assert Power(10, 3) == 1000;
    DigitsAreFew(n, 10, 3);
    if n > 0 {
      NoLeadingZero(n, 10);
    }
  }

  function Dotted(a: string, b: string, c: string, d: string): string {
    a + ['.'] + (b + ['.'] + (c + ['.'] + d))
  }

  lemma SplitOfPair(a: string, b: string)
    requires '.' !in a && '.' !in b
    ensures Split(a + ['.'] + b, '.') == [a, b]
  {
    SplitOfPart(b, '.');
    SplitOfJoin(a, '.', b);
  }

  lemma SplitOfTriple(a: string, b: string, c: string)
    requires '.' !in a && '.' !in b && '.' !in c
    ensures Split(a + ['.'] + (b + ['.'] + c), '.') == [a, b, c]
  {
    SplitOfPair(b, c);
    SplitOfJoin(a, '.', b + ['.'] + c);
  }

  lemma SplitOfDotted(a: string, b: string, c: string, d: string)
    requires '.' !in a && '.' !in b && '.' !in c && '.' !in d
    ensures Split(Dotted(a, b, c, d), '.') == [a, b, c, d]
  {
    SplitOfTriple(b, c, d);
    SplitOfJoin(a, '.', b + ['.'] + (c + ['.'] + d));
  }

  /** The dotted quad of two segments, and the two segments of a dotted quad. */
  function QuadText(a: nat, b: nat): string {
    Dotted(Digits(a / 256, 10), Digits(a % 256, 10), Digits(b / 256, 10), Digits(b % 256, 10))
  }

  function QuadSegments(host: string): seq<nat>
    requires IsIpv4(host)
  {
    var parts := Split(host, '.');
    assert forall i :: 0 <= i < 4 ==> parts[i] in parts;
    [Octet(parts[0]).value * 256 + Octet(parts[1]).value, Octet(parts[2]).value * 256 + Octet(parts[3]).value]
  }

  lemma QuadComesBack(a: nat, b: nat)
    requires a < 0x10000 && b < 0x10000
    ensures IsIpv4(QuadText(a, b)) && QuadSegments(QuadText(a, b)) == [a, b]
    ensures Split(QuadText(a, b), '.')
         == [Digits(a / 256, 10), Digits(a % 256, 10), Digits(b / 256, 10), Digits(b % 256, 10)]
  {
    OctetOfDigits(a / 256);
    OctetOfDigits(a % 256);
    OctetOfDigits(b / 256);
    OctetOfDigits(b % 256);
    SplitOfDotted(Digits(a / 256, 10), Digits(a % 256, 10), Digits(b / 256, 10), Digits(b % 256, 10));
  }

  // ----- Reading IPv6

  predicate AreSegments(g: seq<nat>) { forall i :: 0 <= i < |g| ==> g[i] < 0x10000 }

  predicate IsIpv6(g: seq<nat>) { |g| == 8 && AreSegments(g) }

  function Group(t: string): Option<nat> {
    if 1 <= |t| <= 4 then Number(t, 16) else None
  }

  /** The segments of colon-separated groups; where allowed, the last group may be a dotted quad. */
  function Segments(groups: seq<string>, quad: bool): Option<seq<nat>> {
    if groups == [] then Some([])
    else if quad && |groups| == 1 && IsIpv4(groups[0]) then Some(QuadSegments(groups[0]))
    else match (Group(groups[0]), Segments(groups[1..], quad))
      case (Some(n), Some(rest)) => Some([n] + rest)
      case _ => None
  }

  function Groups(t: string): seq<string> { if t == "" then [] else Split(t, ':') }

  predicate GapAt(t: string, i: nat) { i + 1 < |t| && t[i] == ':' && t[i + 1] == ':' }

  /** The first double colon at or after a position. */
  function FindGap(t: string, from: nat): (r: Option<nat>)
    ensures r.Some? ==> GapAt(t, r.value) && from <= r.value && forall i: nat :: from <= i < r.value ==> !GapAt(t, i)
    ensures r.None? ==> forall i: nat :: from <= i ==> !GapAt(t, i)
    decreases |t| - from
  {
    if from >= |t| then None else if GapAt(t, from) then Some(from) else FindGap(t, from + 1)
  }

  function Nulls(n: nat): seq<nat> { seq(n, _ => 0) }

  function Whole(g: Option<seq<nat>>): Option<seq<nat>> {
    if g.Some? && |g.value| == 8 then g else None
  }

  function Padded(head: Option<seq<nat>>, tail: Option<seq<nat>>): Option<seq<nat>> {
    if head.Some? && tail.Some? && |head.value| + |tail.value| <= 7
    then Some(head.value + Nulls(8 - |head.value| - |tail.value|) + tail.value)
    else None
  }

  /** A double colon stands for at least one group of zeros; without it there are eight segments. */
  function ParseIpv6(t: string): Option<seq<nat>> {
    match FindGap(t, 0)
    case None => Whole(Segments(Groups(t), true))
    case Some(i) => Padded(Segments(Groups(t[..i]), false), Segments(Groups(t[i + 2..]), true))
  }

  // ----- Writing IPv6

  function JoinGroups(g: seq<nat>): string {
    if g == [] then ""
    else if |g| == 1 then Digits(g[0], 16)
    else Digits(g[0], 16) + [':'] + JoinGroups(g[1..])
  }

  /** How many zeros stand from a position on. */
  function Run(g: seq<nat>, i: nat): (n: nat)
    requires i <= |g|
    ensures i + n <= |g| && (forall j :: i <= j < i + n ==> g[j] == 0) && (i + n < |g| ==> g[i + n] != 0)
    decreases |g| - i
  {
    if i == |g| || g[i] != 0 then 0 else 1 + Run(g, i + 1)
  }

  /** Where the first of the longest runs of zeros starts. */
  function LongestRun(g: seq<nat>, from: nat): (start: nat)
    requires from <= |g|
    ensures from <= start <= |g|
    ensures forall i :: from <= i <= |g| ==> Run(g, i) <= Run(g, start)
    ensures forall i :: from <= i < start ==> Run(g, i) < Run(g, start)
    decreases |g| - from
  {
    if from == |g| then from
    else
      var later := LongestRun(g, from + 1);
      if Run(g, from) >= Run(g, later) then from else later
  }

  predicate IsMapped(g: seq<nat>)
    requires IsIpv6(g)
  {
    g[..5] == [0, 0, 0, 0, 0] && g[5] == 0xFFFF
  }

  const GAP: string := [':', ':']

  function PrintIpv6(g: seq<nat>): string
    requires IsIpv6(g)
  {
    if IsMapped(g) then GAP + (Digits(0xFFFF, 16) + [':'] + QuadText(g[6], g[7]))
    else
      var start := LongestRun(g, 0);
      var n := Run(g, start);
      if n > 1 then JoinGroups(g[..start]) + GAP + JoinGroups(g[start + n..]) else JoinGroups(g)
  }

  /** Unspecified, multicast (`ff00::/8`) or link-local (`fe80::/10`). */
  predicate UndialableIpv6(g: seq<nat>)
    requires IsIpv6(g)
  {
    g == Nulls(8) || g[0] / 0x100 == 0xFF || g[0] / 0x40 == 0xFE80 / 0x40
  }

  // ----- Reading what was written

  lemma GroupOfDigits(n: nat)
    requires n < 0x10000
    ensures Group(Digits(n, 16)) == Some(n) && !IsIpv4(Digits(n, 16)) && ':' !in Digits(n, 16)
    ensures 1 <= |Digits(n, 16)| <= 4
  {
    NumberOfDigits(n, 16);
    assert Power(16, 4) == 0x10000;
    DigitsAreFew(n, 16, 4);
    assert '.' !in Digits(n, 16);
    SplitOfPart(Digits(n, 16), '.');
  }

  lemma SegmentsCons(n: nat, groups: seq<string>, rest: seq<nat>, quad: bool)
    requires n < 0x10000 && Segments(groups, quad) == Some(rest)
    ensures Segments([Digits(n, 16)] + groups, quad) == Some([n] + rest)
  {
    GroupOfDigits(n);
    assert ([Digits(n, 16)] + groups)[1..] == groups;
  }

  lemma GroupsOfJoin(g: seq<nat>)
    requires AreSegments(g) && g != []
    ensures Groups(JoinGroups(g)) == [Digits(g[0], 16)] + Groups(JoinGroups(g[1..]))
  {
    var first := Digits(g[0], 16);
    GroupOfDigits(g[0]);
    if |g| == 1 {
      SplitOfPart(first, ':');
    } else {
      JoinIsClean(g[1..]);
      SplitOfJoin(first, ':', JoinGroups(g[1..]));
    }
  }

  lemma {:induction false} SegmentsOfJoin(g: seq<nat>, quad: bool)
    requires AreSegments(g)
    ensures Segments(Groups(JoinGroups(g)), quad) == Some(g)
  {
    if g == [] {
    } else {
      var rest := g[1..];
      assert g == [g[0]] + rest;
      GroupsOfJoin(g);
      SegmentsOfJoin(rest, quad);
      SegmentsCons(g[0], Groups(JoinGroups(rest)), rest, quad);
    }
  }

  predicate GroupChar(c: char) { IsDigitOf(c, 16) || c == ':' }

  /** Joined groups have no double colon and no colon at either end. */
  lemma {:induction false} JoinIsClean(g: seq<nat>)
    requires AreSegments(g)
    ensures var t := JoinGroups(g);
            && |t| <= 5 * |g| && (forall c :: c in t ==> GroupChar(c))
            && (forall i: nat :: !GapAt(t, i))
            && (g != [] ==> t != "" && t[0] != ':' && t[|t| - 1] != ':')
            && (|g| > 1 ==> ':' in t)
  {
    if g == [] {
    } else {
      var first, rest := Digits(g[0], 16), JoinGroups(g[1..]);
      GroupOfDigits(g[0]);
      JoinIsClean(g[1..]);
      assert forall i :: 0 <= i < |first| ==> first[i] in first;
      if |g| > 1 {
        var t := first + [':'] + rest;
        assert t[|first|] == ':' && forall i :: |first| < i < |t| ==> t[i] == rest[i - |first| - 1];
        forall i: nat ensures !GapAt(t, i) {
          if i > |first| { assert !GapAt(rest, i - |first| - 1); }
        }
      }
    }
  }

  /** The first double colon is the one written between two clean parts. */
  lemma GapIsFirst(a: string, b: string)
    requires (forall i: nat :: !GapAt(a, i)) && (a != "" ==> a[|a| - 1] != ':')
    ensures var t := a + GAP + b; FindGap(t, 0) == Some(|a|) && t[..|a|] == a && t[|a| + 2..] == b
  {
    var t := a + GAP + b;
    assert GapAt(t, |a|);
    forall i: nat | i < |a| ensures !GapAt(t, i) {
      assert !GapAt(a, i);
    }
  }

  lemma ParseOfGap(a: string, b: string)
    requires (forall i: nat :: !GapAt(a, i)) && (a != "" ==> a[|a| - 1] != ':')
    ensures ParseIpv6(a + GAP + b) == Padded(Segments(Groups(a), false), Segments(Groups(b), true))
  {
    GapIsFirst(a, b);
  }

  lemma QuadIsGroup(host: string)
    requires IsIpv4(host)
    ensures Segments([host], true) == Some(QuadSegments(host)) && Split(host, ':') == [host]
  {
    Ipv4Chars(host);
    SplitOfPart(host, ':');
  }

  lemma MappedTail(marker: nat, host: string)
    requires marker < 0x10000 && IsIpv4(host)
    ensures Segments(Groups(Digits(marker, 16) + [':'] + host), true) == Some([marker] + QuadSegments(host))
  {
    var first := Digits(marker, 16);
    GroupOfDigits(marker);
    QuadIsGroup(host);
    SplitOfJoin(first, ':', host);
    SegmentsCons(marker, [host], QuadSegments(host), true);
  }

  predicate NullsAt(g: seq<nat>, start: nat, n: nat) {
    n > 0 && start + n <= |g| && forall j :: start <= j < start + n ==> g[j] == 0
  }

  lemma PaddingIsExact(g: seq<nat>, start: nat, n: nat)
    requires |g| == 8 && NullsAt(g, start, n)
    ensures Padded(Some(g[..start]), Some(g[start + n..])) == Some(g)
  {
    assert g[..start] + Nulls(n) + g[start + n..] == g;
  }

  /** A gap written over zeros is filled with them again. */
  lemma GapComesBack(g: seq<nat>, start: nat, n: nat, a: string, b: string)
    requires |g| == 8 && NullsAt(g, start, n)
    requires (forall i: nat :: !GapAt(a, i)) && (a != "" ==> a[|a| - 1] != ':')
    requires Segments(Groups(a), false) == Some(g[..start]) && Segments(Groups(b), true) == Some(g[start + n..])
    ensures ParseIpv6(a + GAP + b) == Some(g)
  {
    ParseOfGap(a, b);
    PaddingIsExact(g, start, n);
  }

  lemma MappedQuad(g: seq<nat>, quad: string)
    requires IsIpv6(g) && NullsAt(g, 0, 5) && IsIpv4(quad) && g[5..] == [g[5]] + QuadSegments(quad)
    ensures ParseIpv6(GAP + (Digits(g[5], 16) + [':'] + quad)) == Some(g)
  {
    var tail := Digits(g[5], 16) + [':'] + quad;
    MappedTail(g[5], quad);
    assert g[..0] == [];
    GapComesBack(g, 0, 5, "", tail);
    assert "" + GAP + tail == GAP + tail;
  }

  lemma MappedComesBack(g: seq<nat>)
    requires IsIpv6(g) && IsMapped(g)
    ensures ParseIpv6(PrintIpv6(g)) == Some(g)
  {
    assert NullsAt(g, 0, 5) by { assert forall j :: 0 <= j < 5 ==> g[j] == g[..5][j]; }
    assert g[5..] == [g[5]] + [g[6], g[7]];
    QuadComesBack(g[6], g[7]);
    MappedQuad(g, QuadText(g[6], g[7]));
  }

  lemma ShortenedComesBack(g: seq<nat>, start: nat, n: nat)
    requires IsIpv6(g) && NullsAt(g, start, n)
    ensures ParseIpv6(JoinGroups(g[..start]) + GAP + JoinGroups(g[start + n..])) == Some(g)
  {
    var head, tail := g[..start], g[start + n..];
    JoinIsClean(head);
    SegmentsOfJoin(head, false);
    SegmentsOfJoin(tail, true);
    GapComesBack(g, start, n, JoinGroups(head), JoinGroups(tail));
  }

  /** An address is read back from its text. */
  lemma Ipv6ComesBack(g: seq<nat>)
    requires IsIpv6(g)
    ensures ParseIpv6(PrintIpv6(g)) == Some(g)
  {
    var start := LongestRun(g, 0);
    if IsMapped(g) {
      MappedComesBack(g);
    } else if Run(g, start) > 1 {
      ShortenedComesBack(g, start, Run(g, start));
    } else {
      JoinIsClean(g);
      SegmentsOfJoin(g, true);
    }
  }

  /** What is read is an address. */
  lemma ParsedIsIpv6(t: string)
    requires ParseIpv6(t).Some?
    ensures IsIpv6(ParseIpv6(t).value) && ':' in t
  {
    if FindGap(t, 0).None? {
      SegmentsAreSmall(Groups(t), true);
      if ':' !in t {
        SplitOfPart(t, ':');
      }
    } else {
      var i := FindGap(t, 0).value;
      assert t[i] in t;
      SegmentsAreSmall(Groups(t[..i]), false);
      SegmentsAreSmall(Groups(t[i + 2..]), true);
    }
  }

  lemma {:induction false} SegmentsAreSmall(groups: seq<string>, quad: bool)
    requires Segments(groups, quad).Some?
    ensures AreSegments(Segments(groups, quad).value) && |Segments(groups, quad).value| <= |groups| + 1
  {
    if groups == [] {
    } else if quad && |groups| == 1 && IsIpv4(groups[0]) {
      var parts := Split(groups[0], '.');
      assert forall i :: 0 <= i < 4 ==> parts[i] in parts;
    } else {
      GroupIsSmall(groups[0]);
      SegmentsAreSmall(groups[1..], quad);
    }
  }

  lemma GroupIsSmall(t: string)
    requires Group(t).Some?
    ensures Group(t).value < 0x10000
  {
    NumberIsSmall(t);
    assert Power(16, 4) == 0x10000 && Power(16, 3) == 0x1000 && Power(16, 2) == 0x100 && Power(16, 1) == 0x10;
  }

  lemma {:induction false} NumberIsSmall(t: string)
    requires Number(t, 16).Some?
    ensures Number(t, 16).value < Power(16, |t|)
  {
    if t == "" {
    } else {
      NumberIsSmall(t[..|t| - 1]);
    }
  }

  /** Hexadecimal digits, colons and dots, with a colon among them. */
  ghost predicate AddressText(t: string) {
    ':' in t && |t| <= 42 && forall c :: c in t ==> GroupChar(c) || c == '.'
  }

  lemma MappedIsText(a: nat, b: nat)
    requires a < 0x10000 && b < 0x10000
    ensures AddressText(GAP + (Digits(0xFFFF, 16) + [':'] + QuadText(a, b)))
  {
    GroupOfDigits(0xFFFF);
    QuadComesBack(a, b);
    Ipv4Chars(QuadText(a, b));
    assert (GAP + (Digits(0xFFFF, 16) + [':'] + QuadText(a, b)))[0] == ':';
  }

  lemma ShortenedIsText(head: seq<nat>, tail: seq<nat>)
    requires AreSegments(head) && AreSegments(tail) && |head| + |tail| <= 8
    ensures AddressText(JoinGroups(head) + GAP + JoinGroups(tail))
  {
    JoinIsClean(head);
    JoinIsClean(tail);
    assert (JoinGroups(head) + GAP + JoinGroups(tail))[|JoinGroups(head)|] == ':';
  }

  lemma PrintedIsText(g: seq<nat>)
    requires IsIpv6(g)
    ensures AddressText(PrintIpv6(g))
  {
    var start := LongestRun(g, 0);
    if IsMapped(g) {
      MappedIsText(g[6], g[7]);
    } else if Run(g, start) > 1 {
      ShortenedIsText(g[..start], g[start + Run(g, start)..]);
    } else {
      JoinIsClean(g);
    }
  }

  lemma {:induction false} JoinIsLower(g: seq<nat>)
    ensures NoCapitals(JoinGroups(g))
  {
    if g == [] {
    } else {
      DigitsAreLower(g[0], 16);
      JoinIsLower(g[1..]);
    }
  }

  predicate NoCapitals(t: string) { forall c :: c in t ==> !('A' <= c <= 'Z') }

  lemma ConcatIsLower(a: string, b: string)
    requires NoCapitals(a) && NoCapitals(b)
    ensures NoCapitals(a + b)
  {
  }

  lemma MappedIsLower(a: nat, b: nat)
    requires a < 0x10000 && b < 0x10000
    ensures NoCapitals(GAP + (Digits(0xFFFF, 16) + [':'] + QuadText(a, b)))
  {
    DigitsAreLower(0xFFFF, 16);
    QuadComesBack(a, b);
    Ipv4Chars(QuadText(a, b));
    ConcatIsLower(Digits(0xFFFF, 16), [':']);
    ConcatIsLower(Digits(0xFFFF, 16) + [':'], QuadText(a, b));
    ConcatIsLower(GAP, Digits(0xFFFF, 16) + [':'] + QuadText(a, b));
  }

  /** Addresses are printed in lower case. */
  lemma PrintedIsLower(g: seq<nat>)
    requires IsIpv6(g)
    ensures NoCapitals(PrintIpv6(g))
  {
    if IsMapped(g) {
      MappedIsLower(g[6], g[7]);
    } else {
      var start := LongestRun(g, 0);
      var head, tail := g[..start], g[start + Run(g, start)..];
      JoinIsLower(g);
      JoinIsLower(head);
      JoinIsLower(tail);
      ConcatIsLower(JoinGroups(head), GAP);
      ConcatIsLower(JoinGroups(head) + GAP, JoinGroups(tail));
    }
  }

  // ----- Exactly which texts, and which text

  /** An octet is written in decimal without leading zeros. */
  lemma OctetExactly(t: string, n: nat)
    ensures Octet(t) == Some(n) <==> n <= 255 && t == Digits(n, 10)
  {
    if Octet(t) == Some(n) { DigitsOfNumber(t); }
    if n <= 255 { OctetOfDigits(n); }
  }

  lemma {:induction false} JoinOfSplit(s: string, sep: char)
    ensures |Split(s, sep)| == 1 ==> s == Split(s, sep)[0]
    ensures |Split(s, sep)| > 1 ==> s == FirstPart(s, sep) + [sep] + s[|FirstPart(s, sep)| + 1..]
    ensures |Split(s, sep)| > 1 ==> Split(s, sep)[0] == FirstPart(s, sep) && Split(s, sep)[1..] == Split(s[|FirstPart(s, sep)| + 1..], sep)
  {
  }

  lemma DottedOfSplit(host: string)
    requires |Split(host, '.')| == 4
    ensures var p := Split(host, '.'); host == Dotted(p[0], p[1], p[2], p[3])
  {
    JoinOfSplit(host, '.');
    var second := host[|FirstPart(host, '.')| + 1..];
    JoinOfSplit(second, '.');
    var third := second[|FirstPart(second, '.')| + 1..];
    JoinOfSplit(third, '.');
    var fourth := third[|FirstPart(third, '.')| + 1..];
    JoinOfSplit(fourth, '.');
  }

  lemma TwoOctets(x: nat, y: nat)
    requires x <= 255 && y <= 255
    ensures (x * 256 + y) / 256 == x && (x * 256 + y) % 256 == y && x * 256 + y < 0x10000
  {
  }

  /** The IPv4 literals are exactly the printed ones, each of one pair of segments. */
  lemma Ipv4Exactly(host: string)
    ensures IsIpv4(host) <==> exists a, b :: a < 0x10000 && b < 0x10000 && host == QuadText(a, b)
  {
    if IsIpv4(host) {
      var p := Split(host, '.');
      assert p[0] in p && p[1] in p && p[2] in p && p[3] in p;
      var w, x, y, z := Octet(p[0]).value, Octet(p[1]).value, Octet(p[2]).value, Octet(p[3]).value;
      OctetExactly(p[0], w);
      OctetExactly(p[1], x);
      OctetExactly(p[2], y);
      OctetExactly(p[3], z);
      DottedOfSplit(host);
      TwoOctets(w, x);
      TwoOctets(y, z);
      assert host == QuadText(w * 256 + x, y * 256 + z);
    }
    if a, b :| a < 0x10000 && b < 0x10000 && host == QuadText(a, b) { QuadComesBack(a, b); }
  }

  lemma UndialableOctets(host: string, w: nat, x: nat, y: nat, z: nat)
    requires IsIpv4(host) && |Split(host, '.')| == 4
    requires var p := Split(host, '.');
             Octet(p[0]) == Some(w) && Octet(p[1]) == Some(x) && Octet(p[2]) == Some(y) && Octet(p[3]) == Some(z)
    ensures Undialable(host) <==>
            (w == x == y == z == 0) || 224 <= w <= 239 || (w == x == y == z == 255)
  {
    var p := Split(host, '.');
    assert p[0] in p && p[1] in p && p[2] in p && p[3] in p;
    assert forall q :: q in p ==> q == p[0] || q == p[1] || q == p[2] || q == p[3];
  }

  lemma OctetsOfSegment(a: nat)
    requires a < 0x10000
    ensures a / 256 <= 255 && a % 256 <= 255 && (a / 256 == a % 256 == 0 <==> a == 0)
    ensures (a / 256 == a % 256 == 255 <==> a == 0xFFFF) && (224 <= a / 256 <= 239 <==> 0xE000 <= a <= 0xEFFF)
  {
  }

  /** The IPv4 addresses nobody can dial: 0.0.0.0, 224.0.0.0 to 239.255.255.255, 255.255.255.255. */
  lemma UndialableExactly(a: nat, b: nat)
    requires a < 0x10000 && b < 0x10000
    ensures IsIpv4(QuadText(a, b))
    ensures Undialable(QuadText(a, b)) <==> (a == 0 && b == 0) || 0xE000 <= a <= 0xEFFF || (a == 0xFFFF && b == 0xFFFF)
  {
    QuadComesBack(a, b);
    OctetsOfSegment(a);
    OctetsOfSegment(b);
    OctetOfDigits(a / 256);
    OctetOfDigits(a % 256);
    OctetOfDigits(b / 256);
    OctetOfDigits(b % 256);
    UndialableOctets(QuadText(a, b), a / 256, a % 256, b / 256, b % 256);
  }

  /** The IPv6 addresses nobody can dial, in numbers. */
  lemma UndialableIpv6Exactly(g: seq<nat>)
    requires IsIpv6(g)
    ensures UndialableIpv6(g) <==>
            (forall i :: 0 <= i < 8 ==> g[i] == 0) || g[0] >= 0xFF00 || 0xFE80 <= g[0] <= 0xFEBF
  {
    assert g[0] < 0x10000;
    assert (forall i :: 0 <= i < 8 ==> g[i] == 0) ==> g == Nulls(8);
  }

  function Hexes(g: seq<nat>): seq<string> {
    seq(|g|, i requires 0 <= i < |g| => Digits(g[i], 16))
  }

  lemma {:induction false} GroupsAreHexes(g: seq<nat>)
    requires AreSegments(g)
    ensures Groups(JoinGroups(g)) == Hexes(g)
  {
    if g == [] {
    } else {
      GroupsOfJoin(g);
      GroupsAreHexes(g[1..]);
      assert Hexes(g) == [Digits(g[0], 16)] + Hexes(g[1..]);
    }
  }

  /** Two zeros stand side by side. */
  predicate HasGap(g: seq<nat>) {
    exists i :: 0 <= i < |g| - 1 && g[i] == 0 && g[i + 1] == 0
  }

  /** A run of at least two zeros, not longer than which there is another, nor as long before. */
  ghost predicate GapIs(g: seq<nat>, start: nat, n: nat) {
    && n >= 2 && NullsAt(g, start, n)
    && (forall i: nat, m: nat :: NullsAt(g, i, m) ==> m <= n)
    && (forall i: nat :: i < start ==> !NullsAt(g, i, n))
  }

  lemma {:induction false} RunIsLongest(g: seq<nat>, i: nat, m: nat)
    requires NullsAt(g, i, m)
    ensures m <= Run(g, i)
    decreases m
  {
    if m == 1 {
    } else {
      RunIsLongest(g, i + 1, m - 1);
    }
  }

  lemma LongestRunIsGap(g: seq<nat>)
    ensures Run(g, LongestRun(g, 0)) >= 2 <==> HasGap(g)
    ensures HasGap(g) ==> GapIs(g, LongestRun(g, 0), Run(g, LongestRun(g, 0)))
  {
    var start := LongestRun(g, 0);
    var n := Run(g, start);
    forall i: nat, m: nat | NullsAt(g, i, m) ensures m <= n { RunIsLongest(g, i, m); }
    forall i: nat | i < start && n > 0 ensures !NullsAt(g, i, n) {
      if NullsAt(g, i, n) { RunIsLongest(g, i, n); }
    }
    if HasGap(g) {
      var i :| 0 <= i < |g| - 1 && g[i] == 0 && g[i + 1] == 0;
      assert NullsAt(g, i, 2);
    }
    if n >= 2 { assert g[start] == 0 && g[start + 1] == 0; }
  }

  /** Where the text has a gap, the gap stands for as many zeros as are missing from eight, and for one at least. */
  lemma GapExactly(t: string, i: nat, g: seq<nat>)
    requires FindGap(t, 0) == Some(i)
    ensures ParseIpv6(t) == Some(g) <==>
              var head, tail := Segments(Groups(t[..i]), false), Segments(Groups(t[i + 2..]), true);
              && head.Some? && tail.Some? && |g| == 8
              && exists n: nat :: n >= 1 && g == head.value + Nulls(n) + tail.value
  {
    var head, tail := Segments(Groups(t[..i]), false), Segments(Groups(t[i + 2..]), true);
    if head.Some? && tail.Some? && |head.value| + |tail.value| <= 7 {
      var n: nat := 8 - |head.value| - |tail.value|;
      assert |head.value + Nulls(n) + tail.value| == 8;
    }
  }

  /** Without side-by-side zeros all eight groups are written out, in hexadecimal. */
  lemma PrintedInFull(g: seq<nat>)
    requires IsIpv6(g) && !(g[..5] == Nulls(5) && g[5] == 0xFFFF) && !HasGap(g)
    ensures FindGap(PrintIpv6(g), 0) == None && Split(PrintIpv6(g), ':') == Hexes(g)
  {
    LongestRunIsGap(g);
    JoinIsClean(g);
    GroupsAreHexes(g);
  }

  /** Otherwise the first of the longest runs of zeros, and nothing else, is left out. */
  lemma PrintedShortened(g: seq<nat>) returns (start: nat, n: nat, i: nat)
    requires IsIpv6(g) && !(g[..5] == Nulls(5) && g[5] == 0xFFFF) && HasGap(g)
    ensures GapIs(g, start, n) && FindGap(PrintIpv6(g), 0) == Some(i)
    ensures Groups(PrintIpv6(g)[..i]) == Hexes(g[..start]) && Groups(PrintIpv6(g)[i + 2..]) == Hexes(g[start + n..])
  {
    LongestRunIsGap(g);
    start := LongestRun(g, 0);
    n := Run(g, start);
    i := |JoinGroups(g[..start])|;
    ShortenedAt(g[..start], g[start + n..], PrintIpv6(g));
  }

  lemma ShortenedAt(head: seq<nat>, tail: seq<nat>, t: string)
    requires AreSegments(head) && AreSegments(tail) && t == JoinGroups(head) + GAP + JoinGroups(tail)
    ensures var i := |JoinGroups(head)|;
            FindGap(t, 0) == Some(i) && Groups(t[..i]) == Hexes(head) && Groups(t[i + 2..]) == Hexes(tail)
  {
    JoinIsClean(head);
    GroupsAreHexes(head);
    GroupsAreHexes(tail);
    GapIsFirst(JoinGroups(head), JoinGroups(tail));
  }

  /** An IPv4-mapped address is written with its dotted quad. */
  lemma PrintedMapped(g: seq<nat>)
    requires IsIpv6(g) && g[..5] == Nulls(5) && g[5] == 0xFFFF
    ensures PrintIpv6(g) == "::ffff:" + QuadText(g[6], g[7])
  {
    FourFs();
    assert GAP + (Digits(0xFFFF, 16) + [':'] + QuadText(g[6], g[7])) == "::ffff:" + QuadText(g[6], g[7]);
  }

  lemma FourFs()
    ensures Digits(0xFFFF, 16) == "ffff"
  {
    assert Digits(0xF, 16) == "f";
    assert Digits(0xFF, 16) == Digits(0xF, 16) + [DigitOf(15)];
    assert Digits(0xFFF, 16) == Digits(0xFF, 16) + [DigitOf(15)];
  }
}
