/** Numbers as text, and texts cut at a separator. */
module Texts {
  import opened Basics

  predicate IsDigit(c: char) { '0' <= c <= '9' }

  // ----- Numbers

  predicate IsBase(base: nat) { base == 10 || base == 16 }

  /** The value of a digit; letters in either case go up to fifteen. */
  function DigitValue(c: char): Option<nat> {
    if IsDigit(c) then Some((c - '0') as nat)
    else if 'a' <= c <= 'f' then Some((c - 'a') as nat + 10)
    else if 'A' <= c <= 'F' then Some((c - 'A') as nat + 10)
    else None
  }

  predicate IsDigitOf(c: char, base: nat) {
    DigitValue(c).Some? && DigitValue(c).value < base
  }

  function DigitOf(n: nat): (c: char)
    requires n < 16
    ensures DigitValue(c) == Some(n) && !('A' <= c <= 'F')
  {
    if n < 10 then '0' + n as char else 'a' + (n - 10) as char
  }

  function Shifted(n: nat, base: nat): nat
    requires IsBase(base)
  {
    if base == 10 then n * 10 else n * 16
  }

  lemma DigitIsLetter(n: nat)
    requires n < 16
    ensures DigitOf(n) == "0123456789abcdef"[n]
  {
  }

  /** All digits but the last, and the last. */
  function Higher(n: nat, base: nat): nat
    requires IsBase(base)
  {
    if base == 10 then n / 10 else n / 16
  }

  function Lowest(n: nat, base: nat): (d: nat)
    requires IsBase(base)
    ensures d < base && n == Shifted(Higher(n, base), base) + d
  {
    if base == 10 then n % 10 else n % 16
  }

  /** The shortest text of a number. */
  function Digits(n: nat, base: nat): (t: string)
    requires IsBase(base)
    ensures t != "" && forall c :: c in t ==> IsDigitOf(c, base)
  {
    if n < base then [DigitOf(n)] else Digits(Higher(n, base), base) + [DigitOf(Lowest(n, base))]
  }

  /** The number a run of digits stands for, leading zeros allowed. */
  function Number(t: string, base: nat): Option<nat>
    requires IsBase(base)
  {
    if t == "" then Some(0)
    else
      var last := t[|t| - 1];
      match Number(t[..|t| - 1], base)
      case Some(n) => if IsDigitOf(last, base) then Some(Shifted(n, base) + DigitValue(last).value) else None
      case None => None
  }

  lemma {:induction false} NumberOfDigits(n: nat, base: nat)
    requires IsBase(base)
    ensures Number(Digits(n, base), base) == Some(n)
  {
    var t := Digits(n, base);
    if n < base {
      assert t[..0] == "";
    } else {
      NumberOfDigits(Higher(n, base), base);
      assert t[..|t| - 1] == Digits(Higher(n, base), base);
    }
  }

  lemma {:induction false} DigitsAreLower(n: nat, base: nat)
    requires IsBase(base)
    ensures forall c :: c in Digits(n, base) ==> IsDigit(c) || 'a' <= c <= 'f'
  {
    if n < base {
    } else {
      DigitsAreLower(Higher(n, base), base);
    }
  }

  function Power(base: nat, e: nat): nat
    requires IsBase(base)
  {
    if e == 0 then 1 else Shifted(Power(base, e - 1), base)
  }

  lemma {:induction false} DigitsAreFew(n: nat, base: nat, count: nat)
    requires IsBase(base) && count > 0 && n < Power(base, count)
    ensures |Digits(n, base)| <= count
  {
    if n < base {
    } else {
      DigitsAreFew(Higher(n, base), base, count - 1);
    }
  }

  lemma {:induction false} NoLeadingZero(n: nat, base: nat)
    requires IsBase(base) && n > 0
    ensures Digits(n, base)[0] != '0'
  {
    if n < base {
      assert DigitValue(Digits(n, base)[0]) == Some(n);
    } else {
      NoLeadingZero(Higher(n, base), base);
    }
  }

  lemma {:induction false} NumberIsDigits(t: string, base: nat)
    requires IsBase(base) && Number(t, base).Some?
    ensures forall c :: c in t ==> IsDigitOf(c, base)
  {
    if t == "" {
    } else {
      NumberIsDigits(t[..|t| - 1], base);
      assert t == t[..|t| - 1] + [t[|t| - 1]];
    }
  }

  // ----- Separated parts

  function FirstPart(s: string, sep: char): (p: string)
    ensures |p| <= |s| && p == s[..|p|] && sep !in p && (|p| < |s| ==> s[|p|] == sep)
  {
    if s == "" || s[0] == sep then "" else [s[0]] + FirstPart(s[1..], sep)
  }

  function Split(s: string, sep: char): (parts: seq<string>)
    ensures parts != []
    decreases |s|
  {
    var p := FirstPart(s, sep);
    if |p| == |s| then [p] else [p] + Split(s[|p| + 1..], sep)
  }

  lemma SplitOfPart(p: string, sep: char)
    requires sep !in p
    ensures Split(p, sep) == [p]
  {
    var q := FirstPart(p, sep);
    assert forall i :: 0 <= i < |p| ==> p[i] in p;
    assert |q| == |p|;
    assert q == p[..|q|] == p;
  }

  lemma {:induction false} FirstPartOfJoin(p: string, sep: char, rest: string)
    requires sep !in p
    ensures FirstPart(p + [sep] + rest, sep) == p
  {
    if p == "" {
    } else {
      FirstPartOfJoin(p[1..], sep, rest);
      assert (p + [sep] + rest)[1..] == p[1..] + [sep] + rest;
    }
  }

  lemma SplitOfJoin(p: string, sep: char, rest: string)
    requires sep !in p
    ensures Split(p + [sep] + rest, sep) == [p] + Split(rest, sep)
  {
    FirstPartOfJoin(p, sep, rest);
    assert (p + [sep] + rest)[|p| + 1..] == rest;
  }

  /** Every character is a separator or belongs to a part. */
  lemma {:induction false} CharsOfSplit(s: string, sep: char, i: nat) returns (p: string)
    requires i < |s|
    ensures s[i] == sep || (p in Split(s, sep) && s[i] in p)
    decreases |s|
  {
    p := FirstPart(s, sep);
    assert Split(s, sep)[0] == p;
    if i < |p| {
      assert s[i] == p[i];
    } else if i > |p| {
      var rest := s[|p| + 1..];
      assert s[i] == rest[i - |p| - 1];
      assert forall q :: q in Split(rest, sep) ==> q in Split(s, sep);
      p := CharsOfSplit(rest, sep, i - |p| - 1);
    }
  }

  /** A trailing separator leaves an empty last part. */
  lemma {:induction false} TrailingSeparator(s: string, sep: char)
    requires s != "" && s[|s| - 1] == sep
    ensures "" in Split(s, sep)
    decreases |s|
  {
    var p := FirstPart(s, sep);
    var rest := s[|p| + 1..];
    if rest == "" {
      assert Split(rest, sep) == [""];
    } else {
      TrailingSeparator(rest, sep);
    }
  }

  lemma {:induction false} SplitLength(s: string, sep: char)
    requires forall p :: p in Split(s, sep) ==> |p| <= 3
    ensures |s| <= 4 * |Split(s, sep)|
    decreases |s|
  {
    var p := FirstPart(s, sep);
    assert Split(s, sep)[0] == p;
    if |p| == |s| {
    } else {
      var rest := s[|p| + 1..];
      var parts := Split(rest, sep);
      assert Split(s, sep) == [p] + parts;
      assert forall q :: q in parts ==> q in Split(s, sep);
      SplitLength(rest, sep);
    }
  }

  // ----- Parts by position

  /** The characters from `i` to `j` lie between separators or ends, with no separator inside. */
  predicate Stretch(s: string, sep: char, i: nat, j: nat) {
    && i <= j <= |s| && (i == 0 || s[i - 1] == sep) && (j == |s| || s[j] == sep)
    && forall k :: i <= k < j ==> s[k] != sep
  }

  lemma FirstIsStretch(s: string, sep: char)
    ensures Stretch(s, sep, 0, |FirstPart(s, sep)|)
    ensures forall j :: Stretch(s, sep, 0, j) ==> j == |FirstPart(s, sep)|
  {
    var p := FirstPart(s, sep);
    assert forall k :: 0 <= k < |p| ==> s[k] == p[k] && p[k] in p;
  }

  lemma LaterStretch(s: string, sep: char, n: nat, i: nat, j: nat)
    requires 0 < n <= |s| && s[n - 1] == sep
    ensures Stretch(s[n..], sep, i, j) <==> Stretch(s, sep, n + i, n + j)
  {
    assert forall k :: 0 <= k < |s| - n ==> s[n..][k] == s[n + k];
    if Stretch(s, sep, n + i, n + j) {
      forall k | i <= k < j ensures s[n..][k] != sep { assert s[n + k] != sep; }
    }
    if Stretch(s[n..], sep, i, j) {
      forall k | n + i <= k < n + j ensures s[k] != sep { assert s[n..][k - n] != sep; }
    }
  }

  /** A stretch starts at the beginning or behind the first part. */
  lemma StretchStarts(s: string, sep: char, i: nat, j: nat)
    requires Stretch(s, sep, i, j)
    ensures i == 0 || (|FirstPart(s, sep)| < |s| && i >= |FirstPart(s, sep)| + 1)
  {
    FirstIsStretch(s, sep);
    assert i > 0 ==> i - 1 >= |FirstPart(s, sep)|;
  }

  ghost predicate IsStretch(s: string, sep: char, p: string) {
    exists i: nat, j: nat :: Stretch(s, sep, i, j) && s[i..j] == p
  }

  lemma StretchAt(s: string, sep: char, i: nat, j: nat)
    requires Stretch(s, sep, i, j)
    ensures IsStretch(s, sep, s[i..j])
  {
  }

  lemma SliceOfRest(s: string, n: nat, i: nat, j: nat)
    requires i <= j && n + j <= |s|
    ensures s[n..][i..j] == s[n + i..n + j]
  {
  }

  lemma StretchOfRest(s: string, sep: char, n: nat, p: string)
    requires 0 < n <= |s| && s[n - 1] == sep && IsStretch(s[n..], sep, p)
    ensures IsStretch(s, sep, p)
  {
    var i: nat, j: nat :| Stretch(s[n..], sep, i, j) && s[n..][i..j] == p;
    LaterStretch(s, sep, n, i, j);
    SliceOfRest(s, n, i, j);
    StretchAt(s, sep, n + i, n + j);
  }

  lemma LaterIsStretch(s: string, sep: char, n: nat, i: nat, j: nat)
    requires 0 < n <= |s| && s[n - 1] == sep && Stretch(s, sep, n + i, n + j)
    ensures IsStretch(s[n..], sep, s[n + i..n + j])
  {
    LaterStretch(s, sep, n, i, j);
    SliceOfRest(s, n, i, j);
    StretchAt(s[n..], sep, i, j);
  }

  lemma StretchAtStart(s: string, sep: char, j: nat)
    requires Stretch(s, sep, 0, j)
    ensures s[0..j] == FirstPart(s, sep)
  {
    FirstIsStretch(s, sep);
  }

  lemma StretchIsFirstOrLater(s: string, sep: char, p: string)
    requires IsStretch(s, sep, p)
    ensures var first := FirstPart(s, sep);
            p == first || (|first| < |s| && IsStretch(s[|first| + 1..], sep, p))
  {
    var i: nat, j: nat :| Stretch(s, sep, i, j) && s[i..j] == p;
    StretchStarts(s, sep, i, j);
    if i == 0 {
      StretchAtStart(s, sep, j);
    } else {
      var n := |FirstPart(s, sep)| + 1;
      LaterIsStretch(s, sep, n, i - n, j - n);
    }
  }

  lemma {:induction false} PartIsStretch(s: string, sep: char, p: string)
    requires p in Split(s, sep)
    ensures IsStretch(s, sep, p)
    decreases |s|
  {
    var first := FirstPart(s, sep);
    if p == first {
      FirstIsStretch(s, sep);
      StretchAt(s, sep, 0, |first|);
    } else {
      PartIsStretch(s[|first| + 1..], sep, p);
      StretchOfRest(s, sep, |first| + 1, p);
    }
  }

  lemma {:induction false} StretchIsPart(s: string, sep: char, p: string)
    requires IsStretch(s, sep, p)
    ensures p in Split(s, sep)
    decreases |s|
  {
    var first := FirstPart(s, sep);
    StretchIsFirstOrLater(s, sep, p);
    if p != first { StretchIsPart(s[|first| + 1..], sep, p); }
  }

  /** Cutting a text yields exactly its stretches. */
  lemma PartsAreStretches(s: string, sep: char, p: string)
    ensures p in Split(s, sep) <==> IsStretch(s, sep, p)
  {
    if p in Split(s, sep) { PartIsStretch(s, sep, p); }
    if IsStretch(s, sep, p) { StretchIsPart(s, sep, p); }
  }

  /** A number is printed as the text it was read from, unless that has leading zeros. */
  lemma {:induction false} DigitsOfNumber(t: string)
    requires t != "" && Number(t, 10).Some? && (t[0] == '0' ==> |t| == 1)
    ensures Digits(Number(t, 10).value, 10) == t && (|t| > 1 ==> Number(t, 10).value >= 10)
  {
    var last, front := t[|t| - 1], t[..|t| - 1];
    assert t == front + [last];
    assert DigitOf(DigitValue(last).value) == last;
    if |t| == 1 {
      assert front == "" && Number(front, 10) == Some(0);
    } else {
      DigitsOfNumber(front);
      var m := Number(front, 10).value;
      if |front| == 1 {
        assert front == [front[0]] && front[..0] == "";
        assert m == DigitValue(front[0]).value && m > 0;
      }
    }
  }

  /** Leading zeros change nothing. */
  lemma {:induction false} NumberOfPadded(k: nat, t: string)
    ensures Number(Padding(k) + t, 10) == Number(t, 10)
    decreases |t|, k
  {
    var s := Padding(k) + t;
    if t == "" {
      if k > 0 {
        assert Padding(k)[..k - 1] == Padding(k - 1) && s == Padding(k);
        NumberOfPadded(k - 1, "");
        assert Padding(k - 1) + "" == Padding(k - 1);
      }
    } else {
      assert s[..|s| - 1] == Padding(k) + t[..|t| - 1];
      NumberOfPadded(k, t[..|t| - 1]);
    }
  }

  function Padding(k: nat): string { seq(k, _ => '0') }
}
