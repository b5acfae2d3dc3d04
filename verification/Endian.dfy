/** Unsigned 32-bit numbers as bytes, in both orders. */
module Endian {
  import opened Basics
  import opened ByteOrder

  predicate IsU32(n: nat) { n <= MAX_U32 }

  function LittleEndian(n: nat, width: nat): (b: Bytes)
    ensures |b| == width
  {
    if width == 0 then [] else [n % 0x100] + LittleEndian(n / 0x100, width - 1)
  }

  function FromLittleEndian(b: Bytes): nat {
    if b == [] then 0 else b[0] as nat + 0x100 * FromLittleEndian(b[1..])
  }

  function Power256(e: nat): nat { if e == 0 then 1 else 0x100 * Power256(e - 1) }

  lemma {:induction false} NumberRoundTrip(n: nat, width: nat)
    requires n < Power256(width)
    ensures FromLittleEndian(LittleEndian(n, width)) == n
  {
    if width == 0 {
    } else {
      NumberRoundTrip(n / 0x100, width - 1);
      assert LittleEndian(n, width)[1..] == LittleEndian(n / 0x100, width - 1);
    }
  }

  lemma LowByte(low: nat, rest: nat, limit: nat)
    requires low < 0x100 && rest < limit
    ensures (low + 0x100 * rest) % 0x100 == low && (low + 0x100 * rest) / 0x100 == rest
    ensures low + 0x100 * rest < 0x100 * limit
  {
  }

  lemma {:induction false} BytesRoundTrip(b: Bytes)
    ensures FromLittleEndian(b) < Power256(|b|) && LittleEndian(FromLittleEndian(b), |b|) == b
  {
    if b == [] {
    } else {
      BytesRoundTrip(b[1..]);
      LowByte(b[0], FromLittleEndian(b[1..]), Power256(|b| - 1));
      assert b == [b[0]] + b[1..];
    }
  }

  function Le32(n: nat): (b: Bytes)
    ensures |b| == 4
  {
    LittleEndian(n, 4)
  }

  function FromLe32(b: Bytes): (n: nat)
    requires |b| == 4
  {
    FromLittleEndian(b)
  }

  lemma Le32RoundTrip(n: nat, b: Bytes)
    requires IsU32(n) && |b| == 4
    ensures FromLe32(Le32(n)) == n && IsU32(FromLe32(b)) && Le32(FromLe32(b)) == b
  {
    assert Power256(4) == 0x1_0000_0000;
    NumberRoundTrip(n, 4);
    BytesRoundTrip(b);
  }

  function Reversed(b: Bytes): (r: Bytes)
    ensures |r| == |b| && forall i :: 0 <= i < |b| ==> r[i] == b[|b| - 1 - i]
  {
    seq(|b|, i requires 0 <= i < |b| => b[|b| - 1 - i])
  }

  function Be32(n: nat): (b: Bytes)
    ensures |b| == 4
  {
    Reversed(Le32(n))
  }

  function FromBe32(b: Bytes): nat
    requires |b| == 4
  {
    FromLe32(Reversed(b))
  }

  /** The number of four digits to the base 256, most significant first. */
  function Quad(a: nat, b: nat, c: nat, d: nat): nat { 0x100_0000 * a + 0x1_0000 * b + 0x100 * c + d }

  lemma FourDigits(n: nat)
    ensures LittleEndian(n, 4) == [n % 0x100, n / 0x100 % 0x100, n / 0x100 / 0x100 % 0x100, n / 0x100 / 0x100 / 0x100 % 0x100]
  {
    var m := n / 0x100;
    var k := m / 0x100;
    assert LittleEndian(k / 0x100, 1) == [k / 0x100 % 0x100] + LittleEndian(k / 0x100 / 0x100, 0);
    assert LittleEndian(k, 2) == [k % 0x100] + LittleEndian(k / 0x100, 1);
    assert LittleEndian(m, 3) == [m % 0x100] + LittleEndian(k, 2);
  }

  /** The two orders, byte by byte. */
  lemma Bytes32(n: nat)
    requires IsU32(n)
    ensures Le32(n) == [n % 0x100, n / 0x100 % 0x100, n / 0x1_0000 % 0x100, n / 0x100_0000]
    ensures Be32(n) == [n / 0x100_0000, n / 0x1_0000 % 0x100, n / 0x100 % 0x100, n % 0x100]
  {
    FourDigits(n);
    assert n / 0x100 / 0x100 == n / 0x1_0000 && n / 0x1_0000 / 0x100 == n / 0x100_0000 < 0x100;
  }

  /** The numbers that four bytes stand for. */
  lemma Number32(b: Bytes)
    requires |b| == 4
    ensures FromLe32(b) == Quad(b[3], b[2], b[1], b[0]) && FromBe32(b) == Quad(b[0], b[1], b[2], b[3])
  {
    FourBytes(b);
    FourBytes(Reversed(b));
  }

  lemma FourBytes(b: Bytes)
    requires |b| == 4
    ensures FromLittleEndian(b) == Quad(b[3], b[2], b[1], b[0])
  {
    var c, d, e := b[1..], b[1..][1..], b[1..][1..][1..];
    assert FromLittleEndian(e) == b[3] as nat + 0x100 * FromLittleEndian(e[1..]) && e[1..] == [];
    assert FromLittleEndian(d) == b[2] as nat + 0x100 * FromLittleEndian(e);
    assert FromLittleEndian(c) == b[1] as nat + 0x100 * FromLittleEndian(d);
  }

  lemma Be32RoundTrip(n: nat)
    requires IsU32(n)
    ensures FromBe32(Be32(n)) == n
  {
    assert Reversed(Reversed(Le32(n))) == Le32(n);
    Le32RoundTrip(n, Le32(n));
  }
}
