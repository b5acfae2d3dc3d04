/**
 Endpoints are read without regard to the case of their letters, whatever kind of host they name.
 */
module EndpointCase {
  import opened Basics
  import opened Texts
  import opened IpAddress
  import opened Endpoint

  // ----- Characters and slices

  lemma SameSlice(t: string, u: string, i: nat, j: nat)
    requires SameButCase(t, u) && i <= j <= |t|
    ensures SameButCase(t[i..j], u[i..j])
  {
    forall k | 0 <= k < j - i ensures SameLetter(t[i..j][k], u[i..j][k]) {
      assert SameLetter(t[i + k], u[i + k]);
    }
  }

  predicate IsLetter(c: char) { 'a' <= c <= 'z' || 'A' <= c <= 'Z' }

  /** A text without letters has no other spelling. */
  lemma NoLettersNoCase(t: string, u: string)
    requires SameButCase(t, u) && forall c :: c in t ==> !IsLetter(c)
    ensures t == u
  {
    forall i | 0 <= i < |t| ensures t[i] == u[i] {
      assert SameLetter(t[i], u[i]) && t[i] in t;
    }
  }

  lemma SameSides(t: string, u: string)
    requires SameButCase(t, u)
    ensures SameButCase(u, t)
  {
    forall i | 0 <= i < |t| ensures SameLetter(u[i], t[i]) { assert SameLetter(t[i], u[i]); }
  }

  // ----- Numbers and parts

  lemma {:induction false} SameNumber(t: string, u: string, base: nat)
    requires SameButCase(t, u) && IsBase(base)
    ensures Number(t, base) == Number(u, base)
  {
    if t == "" {
    } else {
      var n := |t| - 1;
      SameSlice(t, u, 0, n);
      SameNumber(t[..n], u[..n], base);
      assert SameLetter(t[n], u[n]);
      assert DigitValue(t[n]) == DigitValue(u[n]);
    }
  }

  lemma {:induction false} SameFirst(t: string, u: string, sep: char)
    requires SameButCase(t, u) && !IsLetter(sep)
    ensures |FirstPart(t, sep)| == |FirstPart(u, sep)|
  {
    if t == "" {
    } else {
      assert SameLetter(t[0], u[0]);
      SameSlice(t, u, 1, |t|);
      SameFirst(t[1..], u[1..], sep);
    }
  }

  ghost predicate SameParts(a: seq<string>, b: seq<string>) {
    |a| == |b| && forall i :: 0 <= i < |a| ==> SameButCase(a[i], b[i])
  }

  lemma {:induction false} SameSplit(t: string, u: string, sep: char)
    requires SameButCase(t, u) && !IsLetter(sep)
    ensures SameParts(Split(t, sep), Split(u, sep))
    decreases |t|
  {
    SameFirst(t, u, sep);
    var n := |FirstPart(t, sep)|;
    SameSlice(t, u, 0, n);
    if n < |t| {
      SameSlice(t, u, n + 1, |t|);
      SameSplit(t[n + 1..], u[n + 1..], sep);
    }
  }

  // ----- IP addresses

  lemma Ipv4HasNoCase(t: string, u: string)
    requires SameButCase(t, u) && IsIpv4(t)
    ensures t == u
  {
    Ipv4Chars(t);
    NoLettersNoCase(t, u);
  }

  lemma SameIpv4(t: string, u: string)
    requires SameButCase(t, u)
    ensures IsIpv4(t) || IsIpv4(u) ==> t == u
  {
    if IsIpv4(t) { Ipv4HasNoCase(t, u); }
    if IsIpv4(u) {
      SameSides(t, u);
      Ipv4HasNoCase(u, t);
    }
  }

  lemma {:induction false} SameSegments(a: seq<string>, b: seq<string>, quad: bool)
    requires SameParts(a, b)
    ensures Segments(a, quad) == Segments(b, quad)
  {
    if a == [] {
    } else {
      assert SameButCase(a[0], b[0]);
      SameIpv4(a[0], b[0]);
      SameNumber(a[0], b[0], 16);
      SameSegments(a[1..], b[1..], quad);
    }
  }

  lemma SameGroups(t: string, u: string)
    requires SameButCase(t, u)
    ensures SameParts(Groups(t), Groups(u))
  {
    if t != "" { SameSplit(t, u, ':'); }
  }

  lemma SameGap(t: string, u: string)
    requires SameButCase(t, u)
    ensures FindGap(t, 0) == FindGap(u, 0)
  {
    forall i: nat ensures GapAt(t, i) <==> GapAt(u, i) {
      if i + 1 < |t| { assert SameLetter(t[i], u[i]) && SameLetter(t[i + 1], u[i + 1]); }
    }
  }

  lemma SameIpv6(t: string, u: string)
    requires SameButCase(t, u)
    ensures ParseIpv6(t) == ParseIpv6(u)
  {
    SameGap(t, u);
    match FindGap(t, 0)
    case None =>
      SameGroups(t, u);
      SameSegments(Groups(t), Groups(u), true);
    case Some(i) =>
      SameSlice(t, u, 0, i);
      SameSlice(t, u, i + 2, |t|);
      SameGroups(t[..i], u[..i]);
      SameGroups(t[i + 2..], u[i + 2..]);
      SameSegments(Groups(t[..i]), Groups(u[..i]), false);
      SameSegments(Groups(t[i + 2..]), Groups(u[i + 2..]), true);
  }

  // ----- Names

  lemma SameLabel(t: string, u: string)
    requires SameButCase(t, u) && ValidLabel(t)
    ensures ValidLabel(u)
  {
    forall i | 0 <= i < |u| ensures IsAlphanumeric(u[i]) <==> IsAlphanumeric(t[i])
                            ensures IsAlphanumeric(u[i]) || u[i] == '-' {
      assert SameLetter(t[i], u[i]) && t[i] in t;
    }
  }

  lemma SameName(t: string, u: string)
    requires SameButCase(t, u) && ValidName(t)
    ensures ValidName(u)
  {
    SameSplit(t, u, '.');
    var a, b := Split(t, '.'), Split(u, '.');
    forall i | 0 <= i < |b| ensures ValidLabel(b[i]) {
      assert a[i] in a && SameButCase(a[i], b[i]);
      SameLabel(a[i], b[i]);
    }
  }

  lemma SameWithoutDot(t: string, u: string)
    requires SameButCase(t, u)
    ensures SameButCase(WithoutDot(t), WithoutDot(u))
  {
    if t != "" {
      assert SameLetter(t[|t| - 1], u[|t| - 1]);
      SameSlice(t, u, 0, |t| - 1);
    }
  }

  lemma SameHost(t: string, u: string)
    requires SameButCase(t, u)
    ensures CanonicalHost(t) == CanonicalHost(u)
  {
    SameIpv4(t, u);
    SameIpv6(t, u);
    SameWithoutDot(t, u);
    SameSides(WithoutDot(t), WithoutDot(u));
    if ValidDnsName(t) { SameName(WithoutDot(t), WithoutDot(u)); }
    if ValidDnsName(u) { SameName(WithoutDot(u), WithoutDot(t)); }
    LowerIsSame(WithoutDot(t), WithoutDot(u));
  }

  // ----- Endpoints

  lemma SamePort(t: string, u: string)
    requires SameButCase(t, u)
    ensures ParsePort(t) == ParsePort(u)
  {
    SameNumber(t, u, 10);
    if t != "" {
      assert SameLetter(t[0], u[0]);
      SameSlice(t, u, 1, |t|);
      SameNumber(t[1..], u[1..], 10);
    }
  }

  lemma {:induction false} SameFind(t: string, u: string, c: char)
    requires SameButCase(t, u) && !IsLetter(c)
    ensures Find(t, c) == Find(u, c)
  {
    if t == "" {
    } else {
      assert SameLetter(t[0], u[0]);
      SameSlice(t, u, 1, |t|);
      SameFind(t[1..], u[1..], c);
    }
  }

  lemma {:induction false} SameFindLast(t: string, u: string, c: char)
    requires SameButCase(t, u) && !IsLetter(c)
    ensures FindLast(t, c) == FindLast(u, c)
  {
    if t == "" {
    } else {
      assert SameLetter(t[|t| - 1], u[|t| - 1]);
      SameSlice(t, u, 0, |t| - 1);
      SameFindLast(t[..|t| - 1], u[..|t| - 1], c);
    }
  }

  /** The same port, and hosts that differ in case at most. */
  ghost predicate SamePair(a: Option<(string, nat)>, b: Option<(string, nat)>) {
    (a.None? <==> b.None?) && (a.Some? && b.Some? ==> SameButCase(a.value.0, b.value.0) && a.value.1 == b.value.1)
  }

  lemma SameBracketed(t: string, u: string)
    requires SameButCase(t, u)
    ensures SamePair(SplitBracketed(t), SplitBracketed(u))
  {
    SameFind(t, u, ']');
    var closing := Find(t, ']');
    if closing.Some? && 0 < closing.value && closing.value + 1 < |t| {
      assert SameLetter(t[closing.value + 1], u[closing.value + 1]);
      SameSlice(t, u, 1, closing.value);
      SameSlice(t, u, closing.value + 2, |t|);
      SamePort(t[closing.value + 2..], u[closing.value + 2..]);
    }
  }

  lemma SamePlain(t: string, u: string)
    requires SameButCase(t, u)
    ensures SamePair(SplitPlain(t), SplitPlain(u))
  {
    SameFindLast(t, u, ':');
    var colon := FindLast(t, ':');
    if colon.Some? {
      SameSlice(t, u, 0, colon.value);
      SameFind(t[..colon.value], u[..colon.value], ':');
      SameSlice(t, u, colon.value + 1, |t|);
      SamePort(t[colon.value + 1..], u[colon.value + 1..]);
    }
  }

  lemma SameEndpoint(t: string, u: string)
    requires SameButCase(t, u)
    ensures SamePair(SplitEndpoint(t), SplitEndpoint(u))
  {
    if t != "" { assert SameLetter(t[0], u[0]); }
    SameBracketed(t, u);
    SamePlain(t, u);
  }

  /** Endpoints that differ in case at most are accepted alike and become the same text. */
  lemma CaseIsIgnored(t: string, u: string)
    requires SameButCase(t, u)
    ensures Canonicalize(t) == Canonicalize(u)
  {
    if t != "" {
      assert SameLetter(t[0], u[0]) && SameLetter(t[|t| - 1], u[|t| - 1]);
      SameEndpoint(t, u);
      var a, b := SplitEndpoint(t), SplitEndpoint(u);
      if a.Some? { SameHost(a.value.0, b.value.0); }
    }
  }
}
