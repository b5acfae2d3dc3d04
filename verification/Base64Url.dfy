/**
 Base64url without padding (section 5 of RFC 4648), strict as the API decodes it: no padding,
 no foreign character, no stray length, no non-zero trailing bit.
 */
module Base64Url {
  import opened Basics
  import opened ByteOrder

  type Sextet = n: nat | n < 64

  function Symbol(v: Sextet): char {
    if v < 26 then 'A' + v as char
    else if v < 52 then 'a' + (v - 26) as char
    else if v < 62 then '0' + (v - 52) as char
    else if v == 62 then '-'
    else '_'
  }

  function Value(c: char): Option<nat> {
    if 'A' <= c <= 'Z' then Some((c - 'A') as nat)
    else if 'a' <= c <= 'z' then Some((c - 'a') as nat + 26)
    else if '0' <= c <= '9' then Some((c - '0') as nat + 52)
    else if c == '-' then Some(62)
    else if c == '_' then Some(63)
    else None
  }

  lemma SymbolsInvert(v: Sextet, c: char)
    ensures Value(Symbol(v)) == Some(v)
    ensures Value(c).Some? ==> Value(c).value < 64 && Symbol(Value(c).value) == c
  {
  }

  function Symbols(vs: seq<Sextet>): string {
    seq(|vs|, i requires 0 <= i < |vs| => Symbol(vs[i]))
  }

  /** The sextets of a text, unless some character is foreign. */
  function Values(t: string): (r: Option<seq<Sextet>>)
    ensures r.Some? ==> Symbols(r.value) == t
    ensures r.None? ==> exists i :: 0 <= i < |t| && Value(t[i]).None?
  {
    if t == "" then Some([])
    else
      SymbolsInvert(0, t[0]);
      match (Value(t[0]), Values(t[1..]))
      case (Some(v), Some(vs)) =>
        assert t == [t[0]] + t[1..];
        Some([v] + vs)
      case (None, _) => None
      case (_, None) =>
        assert forall i :: 0 <= i < |t[1..]| ==> t[1..][i] == t[i + 1];
        None
  }

  /** The bits of the bytes, cut into sixes and filled up with zero bits. */
  function Sextets(b: Bytes): seq<Sextet> {
    if b == [] then []
    else if |b| == 1 then [b[0] / 4, b[0] % 4 * 16]
    else if |b| == 2 then [b[0] / 4, b[0] % 4 * 16 + b[1] / 16, b[1] % 16 * 4]
    else [b[0] / 4, b[0] % 4 * 16 + b[1] / 16, b[1] % 16 * 4 + b[2] / 64, b[2] % 64] + Sextets(b[3..])
  }

  function First(a: nat, b: nat): nat { a * 4 + b / 16 }
  function Second(b: nat, c: nat): nat { b % 16 * 16 + c / 4 }
  function Third(c: nat, d: nat): nat { c % 4 * 64 + d }

  /** A single left-over sextet or a non-zero filling bit is refused. */
  function Octets(vs: seq<Sextet>): Option<Bytes> {
    if vs == [] then Some([])
    else if |vs| == 1 then None
    else if |vs| == 2 then
      if vs[1] % 16 != 0 then None else Some([First(vs[0], vs[1])])
    else if |vs| == 3 then
      if vs[2] % 4 != 0 then None else Some([First(vs[0], vs[1]), Second(vs[1], vs[2])])
    else match Octets(vs[4..])
      case Some(rest) => Some([First(vs[0], vs[1]), Second(vs[1], vs[2]), Third(vs[2], vs[3])] + rest)
      case None => None
  }

  function Encode(b: Bytes): string {
    Symbols(Sextets(b))
  }

  function Decode(t: string): Option<Bytes> {
    match Values(t)
    case Some(vs) => Octets(vs)
    case None => None
  }

  function EncodedLength(n: nat): nat {
    n / 3 * 4 + (if n % 3 == 0 then 0 else n % 3 + 1)
  }

  lemma {:induction false} EncodeHasLength(b: Bytes)
    ensures |Encode(b)| == EncodedLength(|b|)
  {
    if |b| < 3 {
    } else {
      EncodeHasLength(b[3..]);
    }
  }

  // ----- What the encoding is, bit by bit

  const ALPHABET: string := "ABCDEFGHIJKLMNOPQRSTUVWXYZ" + "abcdefghijklmnopqrstuvwxyz" + "0123456789" + "-_"

  /** The j-th bit of a byte, most significant first. */
  function BitOf(x: Byte, j: nat): nat {
    if j == 0 then x / 128 else if j == 1 then x / 64 % 2 else if j == 2 then x / 32 % 2 else if j == 3 then x / 16 % 2
    else if j == 4 then x / 8 % 2 else if j == 5 then x / 4 % 2 else if j == 6 then x / 2 % 2 else x % 2
  }

  /** The bits of a byte string, byte by byte. */
  function Bits(b: Bytes): (bits: seq<nat>)
    ensures |bits| == 8 * |b|
  {
    if b == [] then [] else seq(8, j requires 0 <= j => BitOf(b[0], j)) + Bits(b[1..])
  }

  /** The i-th bit; zero behind the last byte. */
  function BitAt(b: Bytes, i: nat): nat { if i < |Bits(b)| then Bits(b)[i] else 0 }

  /** The number that six bits form. */
  function Six(p: nat, q: nat, r: nat, s: nat, t: nat, u: nat): nat {
    32 * p + 16 * q + 8 * r + 4 * s + 2 * t + u
  }

  function SixBits(b: Bytes, i: nat): nat {
    Six(BitAt(b, i), BitAt(b, i + 1), BitAt(b, i + 2), BitAt(b, i + 3), BitAt(b, i + 4), BitAt(b, i + 5))
  }

  /** Eight bits that make up a number, by the parts that the sextets are made of. */
  ghost predicate Spells(x: nat, p: seq<nat>) {
    && |p| == 8
    && x / 4 == Six(p[0], p[1], p[2], p[3], p[4], p[5]) && x % 4 == 2 * p[6] + p[7]
    && x / 16 == 8 * p[0] + 4 * p[1] + 2 * p[2] + p[3] && x % 16 == 8 * p[4] + 4 * p[5] + 2 * p[6] + p[7]
    && x / 64 == 2 * p[0] + p[1] && x % 64 == Six(p[2], p[3], p[4], p[5], p[6], p[7])
  }

  lemma WeightedBitsSpell(x: nat, p: seq<nat>)
    requires |p| == 8 && forall j :: 0 <= j < 8 ==> p[j] <= 1
    requires x == 128 * p[0] + 64 * p[1] + 32 * p[2] + 16 * p[3] + 8 * p[4] + 4 * p[5] + 2 * p[6] + p[7]
    ensures Spells(x, p)
  {
  }

  lemma BitsAddUp(x: Byte)
    ensures x == 128 * (x / 128) + 64 * (x / 64 % 2) + 32 * (x / 32 % 2) + 16 * (x / 16 % 2)
                 + 8 * (x / 8 % 2) + 4 * (x / 4 % 2) + 2 * (x / 2 % 2) + x % 2
  {
    HighBits(x);
    LowBits(x);
  }

  lemma HighBits(x: Byte)
    ensures x / 16 == 8 * (x / 128) + 4 * (x / 64 % 2) + 2 * (x / 32 % 2) + x / 16 % 2
  {
    assert x / 64 == 2 * (x / 128) + x / 64 % 2;
    assert x / 32 == 2 * (x / 64) + x / 32 % 2;
    assert x / 16 == 2 * (x / 32) + x / 16 % 2;
  }

  lemma LowBits(x: Byte)
    ensures x == 16 * (x / 16) + 8 * (x / 8 % 2) + 4 * (x / 4 % 2) + 2 * (x / 2 % 2) + x % 2
  {
    assert x / 8 == 2 * (x / 16) + x / 8 % 2;
    assert x / 4 == 2 * (x / 8) + x / 4 % 2;
    assert x / 2 == 2 * (x / 4) + x / 2 % 2;
  }

  lemma ByteIsBits(x: Byte) returns (p: seq<nat>)
    ensures Spells(x, p) && forall j :: 0 <= j < 8 ==> p[j] == BitOf(x, j)
  {
    p := [x / 128, x / 64 % 2, x / 32 % 2, x / 16 % 2, x / 8 % 2, x / 4 % 2, x / 2 % 2, x % 2];
    BitsAddUp(x);
    WeightedBitsSpell(x, p);
  }

  lemma BitsOfFirst(b: Bytes, j: nat)
    requires b != []
    ensures j < 8 ==> BitAt(b, j) == BitOf(b[0], j)
    ensures BitAt(b, j + 8) == BitAt(b[1..], j)
  {
  }

  function At(b: Bytes, i: nat): Byte { if i < |b| then b[i] else 0 }

  lemma {:induction false} BitsOfByte(b: Bytes, k: nat, j: nat)
    requires j < 8
    ensures BitAt(b, 8 * k + j) == BitOf(At(b, k), j)
  {
    if b == [] {
    } else if k == 0 {
      BitsOfFirst(b, j);
    } else {
      BitsOfByte(b[1..], k - 1, j);
      BitsOfFirst(b, 8 * (k - 1) + j);
      assert 8 * (k - 1) + j + 8 == 8 * k + j;
    }
  }

  lemma BitsAt(b: Bytes, k: nat) returns (p: seq<nat>)
    ensures Spells(At(b, k), p)
    ensures BitAt(b, 8 * k) == p[0] && BitAt(b, 8 * k + 1) == p[1] && BitAt(b, 8 * k + 2) == p[2] && BitAt(b, 8 * k + 3) == p[3]
    ensures BitAt(b, 8 * k + 4) == p[4] && BitAt(b, 8 * k + 5) == p[5] && BitAt(b, 8 * k + 6) == p[6] && BitAt(b, 8 * k + 7) == p[7]
  {
    p := ByteIsBits(At(b, k));
    forall j | 0 <= j < 8 ensures BitAt(b, 8 * k + j) == p[j] { BitsOfByte(b, k, j); }
    assert 8 * k == 8 * k + 0;
  }

  /** The four sextets of three bytes. */
  function SextetOf(x: Byte, y: Byte, z: Byte, r: nat): nat {
    if r == 0 then x / 4 else if r == 1 then x % 4 * 16 + y / 16 else if r == 2 then y % 16 * 4 + z / 64 else z % 64
  }

  lemma SixOf(b: Bytes, i: nat, bits: seq<nat>)
    requires |bits| == 6 && BitAt(b, i) == bits[0] && BitAt(b, i + 1) == bits[1] && BitAt(b, i + 2) == bits[2]
    requires BitAt(b, i + 3) == bits[3] && BitAt(b, i + 4) == bits[4] && BitAt(b, i + 5) == bits[5]
    ensures SixBits(b, i) == Six(bits[0], bits[1], bits[2], bits[3], bits[4], bits[5])
  {
  }

  lemma SixInFront(b: Bytes, k: nat)
    ensures SixBits(b, 8 * k) == At(b, k) / 4
  {
    var p := BitsAt(b, k);
    SixOf(b, 8 * k, p[..6]);
  }

  lemma SixAtBack(b: Bytes, k: nat)
    ensures SixBits(b, 8 * k + 2) == At(b, k) % 64
  {
    var p := BitsAt(b, k);
    SixOf(b, 8 * k + 2, p[2..]);
  }

  lemma SixAfterSix(b: Bytes, k: nat)
    ensures SixBits(b, 8 * k + 6) == At(b, k) % 4 * 16 + At(b, k + 1) / 16
  {
    var p := BitsAt(b, k);
    var q := BitsAt(b, k + 1);
    SixOf(b, 8 * k + 6, [p[6], p[7], q[0], q[1], q[2], q[3]]);
  }

  lemma SixAfterFour(b: Bytes, k: nat)
    ensures SixBits(b, 8 * k + 4) == At(b, k) % 16 * 4 + At(b, k + 1) / 64
  {
    var p := BitsAt(b, k);
    var q := BitsAt(b, k + 1);
    SixOf(b, 8 * k + 4, [p[4], p[5], p[6], p[7], q[0], q[1]]);
  }

  lemma SixBitsOfBytes(b: Bytes, k: nat, r: nat)
    requires r < 4
    ensures SixBits(b, 8 * k + 6 * r) == SextetOf(At(b, k), At(b, k + 1), At(b, k + 2), r)
  {
    if r == 0 {
      SixInFront(b, k);
    } else if r == 1 {
      SixAfterSix(b, k);
    } else if r == 2 {
      SixAfterFour(b, k + 1);
      assert 8 * (k + 1) + 4 == 8 * k + 6 * r;
    } else {
      SixAtBack(b, k + 2);
      assert 8 * (k + 2) + 2 == 8 * k + 6 * r;
    }
  }

  lemma {:induction false} SextetAt(b: Bytes, i: nat)
    requires i < |Sextets(b)|
    ensures var k := i / 4 * 3; Sextets(b)[i] == SextetOf(At(b, k), At(b, k + 1), At(b, k + 2), i % 4)
    decreases |b|
  {
    if i < 4 {
    } else {
      SextetAt(b[3..], i - 4);
      GroupBefore(i);
    }
  }

  lemma GroupBefore(i: nat)
    requires i >= 4
    ensures i / 4 * 3 == (i - 4) / 4 * 3 + 3 && (i - 4) % 4 == i % 4
  {
  }

  lemma SextetsAreBits(b: Bytes, i: nat)
    requires i < |Sextets(b)|
    ensures Sextets(b)[i] == SixBits(b, 6 * i)
  {
    SextetAt(b, i);
    var k := i / 4 * 3;
    SixBitsOfBytes(b, k, i % 4);
    assert 6 * i == 8 * k + 6 * (i % 4);
  }

  lemma SymbolIsLetter(v: Sextet)
    ensures |ALPHABET| == 64 && Symbol(v) == ALPHABET[v]
  {
    match v
    case 0 => case 1 => case 2 => case 3 => case 4 => case 5 => case 6 => case 7 =>
    case 8 => case 9 => case 10 => case 11 => case 12 => case 13 => case 14 => case 15 =>
    case 16 => case 17 => case 18 => case 19 => case 20 => case 21 => case 22 => case 23 =>
    case 24 => case 25 => case 26 => case 27 => case 28 => case 29 => case 30 => case 31 =>
    case 32 => case 33 => case 34 => case 35 => case 36 => case 37 => case 38 => case 39 =>
    case 40 => case 41 => case 42 => case 43 => case 44 => case 45 => case 46 => case 47 =>
    case 48 => case 49 => case 50 => case 51 => case 52 => case 53 => case 54 => case 55 =>
    case 56 => case 57 => case 58 => case 59 => case 60 => case 61 => case 62 => case _ =>
  }

  /** Every character is the letter of the alphabet that the next six bits number. */
  lemma EncodeIsBits(b: Bytes, i: nat)
    requires i < |Encode(b)|
    ensures SixBits(b, 6 * i) < |ALPHABET| == 64 && Encode(b)[i] == ALPHABET[SixBits(b, 6 * i)]
  {
    SextetsAreBits(b, i);
    SymbolIsLetter(Sextets(b)[i]);
  }

  /** Encoding stays inside the alphabet, so it never contains the mark of the empty key. */
  lemma EncodeUsesAlphabet(b: Bytes)
    ensures forall c :: c in Encode(b) ==> Value(c).Some?
  {
    forall v: Sextet ensures Value(Symbol(v)).Some? { SymbolsInvert(v, 'A'); }
  }

  lemma SymbolsAreInjective(vs: seq<Sextet>, ws: seq<Sextet>)
    requires Symbols(vs) == Symbols(ws)
    ensures vs == ws
  {
    assert |vs| == |Symbols(vs)| == |ws|;
    forall i | 0 <= i < |vs| ensures vs[i] == ws[i] {
      assert Symbols(vs)[i] == Symbols(ws)[i];
      SymbolsInvert(vs[i], 'A');
      SymbolsInvert(ws[i], 'A');
    }
  }

  lemma GroupOfSextets(x: Byte, y: Byte, z: Byte)
    ensures First(x / 4, x % 4 * 16 + y / 16) == x
    ensures Second(x % 4 * 16 + y / 16, y % 16 * 4 + z / 64) == y
    ensures Third(y % 16 * 4 + z / 64, z % 64) == z
    ensures (x % 4 * 16) % 16 == 0 && (y % 16 * 4) % 4 == 0
  {
    assert (x % 4 * 16 + y / 16) / 16 == x % 4 && (x % 4 * 16 + y / 16) % 16 == y / 16;
    assert (y % 16 * 4 + z / 64) / 4 == y % 16 && (y % 16 * 4 + z / 64) % 4 == z / 64;
  }

  lemma OctetsOfFour(v: Sextet, w: Sextet, x: Sextet, y: Sextet, vs: seq<Sextet>, rest: Bytes)
    requires Octets(vs) == Some(rest)
    ensures Octets([v, w, x, y] + vs) == Some([First(v, w), Second(w, x), Third(x, y)] + rest)
  {
    assert ([v, w, x, y] + vs)[4..] == vs;
  }

  lemma OctetsOfTwo(v: Sextet, w: Sextet)
    requires w % 16 == 0
    ensures Octets([v, w]) == Some([First(v, w)])
  {
  }

  lemma OctetsOfThree(v: Sextet, w: Sextet, x: Sextet)
    requires x % 4 == 0
    ensures Octets([v, w, x]) == Some([First(v, w), Second(w, x)])
  {
  }

  lemma FirstThree(b: Bytes) returns (v: Sextet, w: Sextet, x: Sextet, y: Sextet)
    requires |b| >= 3
    ensures Sextets(b) == [v, w, x, y] + Sextets(b[3..])
    ensures First(v, w) == b[0] && Second(w, x) == b[1] && Third(x, y) == b[2]
  {
    GroupOfSextets(b[0], b[1], b[2]);
    v, w, x, y := b[0] / 4, b[0] % 4 * 16 + b[1] / 16, b[1] % 16 * 4 + b[2] / 64, b[2] % 64;
  }

  lemma OctetsOfGroup(v: Sextet, w: Sextet, x: Sextet, y: Sextet, vs: seq<Sextet>, all: seq<Sextet>, b: Bytes)
    requires |b| >= 3 && Octets(vs) == Some(b[3..]) && all == [v, w, x, y] + vs
    requires First(v, w) == b[0] && Second(w, x) == b[1] && Third(x, y) == b[2]
    ensures Octets(all) == Some(b)
  {
    OctetsOfFour(v, w, x, y, vs, b[3..]);
    assert b == [b[0], b[1], b[2]] + b[3..];
  }

  lemma {:induction false} OctetsOfSextets(b: Bytes)
    ensures Octets(Sextets(b)) == Some(b)
  {
    if b == [] {
    } else if |b| == 1 {
      GroupOfSextets(b[0], 0, 0);
      OctetsOfTwo(b[0] / 4, b[0] % 4 * 16);
      assert b == [b[0]];
    } else if |b| == 2 {
      GroupOfSextets(b[0], b[1], 0);
      OctetsOfThree(b[0] / 4, b[0] % 4 * 16 + b[1] / 16, b[1] % 16 * 4);
      assert b == [b[0], b[1]];
    } else {
      OctetsOfSextets(b[3..]);
      var v, w, x, y := FirstThree(b);
      OctetsOfGroup(v, w, x, y, Sextets(b[3..]), Sextets(b), b);
    }
  }

  /** Decoding undoes encoding. */
  lemma DecodeOfEncode(b: Bytes)
    ensures Decode(Encode(b)) == Some(b)
  {
    EncodeUsesAlphabet(b);
    SymbolsAreInjective(Values(Encode(b)).value, Sextets(b));
    OctetsOfSextets(b);
  }

  lemma PartsOfFirst(a: Sextet, b: Sextet)
    ensures First(a, b) / 4 == a && First(a, b) % 4 == b / 16
  {
  }

  lemma PartsOfSecond(b: Sextet, c: Sextet)
    ensures Second(b, c) / 16 == b % 16 && Second(b, c) % 16 == c / 4
  {
  }

  lemma PartsOfThird(c: Sextet, d: Sextet)
    ensures Third(c, d) / 64 == c % 4 && Third(c, d) % 64 == d
  {
  }

  lemma SextetsOfGroup(a: Sextet, b: Sextet, c: Sextet, d: Sextet)
    ensures First(a, b) / 4 == a
    ensures First(a, b) % 4 * 16 + Second(b, c) / 16 == b
    ensures Second(b, c) % 16 * 4 + Third(c, d) / 64 == c
    ensures Third(c, d) % 64 == d
  {
    PartsOfFirst(a, b);
    PartsOfSecond(b, c);
    PartsOfThird(c, d);
  }

  lemma {:induction false} SextetsOfOctets(vs: seq<Sextet>)
    requires Octets(vs).Some?
    ensures Sextets(Octets(vs).value) == vs
  {
    if vs == [] {
    } else if |vs| == 2 {
      SextetsOfGroup(vs[0], vs[1], 0, 0);
    } else if |vs| == 3 {
      SextetsOfGroup(vs[0], vs[1], vs[2], 0);
    } else {
      SextetsOfOctets(vs[4..]);
      SextetsOfGroup(vs[0], vs[1], vs[2], vs[3]);
      assert Octets(vs).value[3..] == Octets(vs[4..]).value;
      assert vs == [vs[0], vs[1], vs[2], vs[3]] + vs[4..];
    }
  }

  /** Every accepted text is the encoding of what it decodes to: no two texts mean the same bytes. */
  lemma EncodeOfDecode(t: string)
    requires Decode(t).Some?
    ensures Encode(Decode(t).value) == t
  {
    SextetsOfOctets(Values(t).value);
  }
}
