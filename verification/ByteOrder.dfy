/** Byte strings in lexicographic order, the order in which the store keeps its keys. */
module ByteOrder {
  import opened Basics

  type Bytes = seq<Byte>

  predicate Less(a: Bytes, b: Bytes) {
    b != [] && (a == [] || a[0] < b[0] || (a[0] == b[0] && Less(a[1..], b[1..])))
  }

  predicate StartsWith(k: Bytes, prefix: Bytes) {
    prefix <= k
  }

  /** The order is lexicographic: decided at the first byte that differs, or by length. */
  lemma {:induction false} LessIsLexicographic(a: Bytes, b: Bytes)
    ensures Less(a, b) <==>
            exists i: nat :: i <= |a| && i < |b| && a[..i] == b[..i] && (i == |a| || a[i] < b[i])
  {
    if a == [] || b == [] {
      assert b != [] ==> a[..0] == b[..0];
    } else {
      LessIsLexicographic(a[1..], b[1..]);
      if Less(a, b) {
        if a[0] == b[0] {
          var i: nat :| i <= |a[1..]| && i < |b[1..]| && a[1..][..i] == b[1..][..i] && (i == |a[1..]| || a[1..][i] < b[1..][i]);
          assert a[..i + 1] == [a[0]] + a[1..][..i] && b[..i + 1] == [b[0]] + b[1..][..i];
        } else {
          assert a[..0] == b[..0];
        }
      }
      if i: nat :| i <= |a| && i < |b| && a[..i] == b[..i] && (i == |a| || a[i] < b[i]) {
        if i > 0 {
          assert a[0] == a[..i][0] == b[0];
          assert a[1..][..i - 1] == a[..i][1..] == b[1..][..i - 1];
        }
      }
    }
  }

  lemma {:induction false} LessIrreflexive(a: Bytes)
    ensures !Less(a, a)
  {
    if a == [] {
    } else {
      LessIrreflexive(a[1..]);
    }
  }

  lemma {:induction false} LessTransitive(a: Bytes, b: Bytes, c: Bytes)
    requires Less(a, b) && Less(b, c)
    ensures Less(a, c)
  {
    if a == [] || a[0] != b[0] || b[0] != c[0] {
    } else {
      LessTransitive(a[1..], b[1..], c[1..]);
    }
  }

  lemma {:induction false} LessTotal(a: Bytes, b: Bytes)
    ensures Less(a, b) || a == b || Less(b, a)
  {
    if a == [] || b == [] || a[0] != b[0] {
    } else {
      LessTotal(a[1..], b[1..]);
      if a[1..] == b[1..] { assert a == [a[0]] + a[1..] && b == [b[0]] + b[1..]; }
    }
  }

  /** A prefix is the least of the keys that start with it. */
  lemma {:induction false} PrefixIsLeast(prefix: Bytes, k: Bytes)
    requires StartsWith(k, prefix)
    ensures !Less(k, prefix)
  {
    if prefix == [] {
    } else {
      PrefixIsLeast(prefix[1..], k[1..]);
    }
  }

  /** Keys that share a prefix are contiguous: whatever lies between two of them has it too. */
  lemma {:induction false} PrefixIsContiguous(prefix: Bytes, a: Bytes, b: Bytes, c: Bytes)
    requires StartsWith(a, prefix) && StartsWith(c, prefix) && Less(a, b) && Less(b, c)
    ensures StartsWith(b, prefix)
  {
    if prefix == [] {
    } else {
      PrefixIsContiguous(prefix[1..], a[1..], b[1..], c[1..]);
      assert b == [b[0]] + b[1..] && prefix == [prefix[0]] + prefix[1..];
    }
  }

  /** Appending a zero byte gives the immediate successor: nothing lies in between. */
  lemma {:induction false} ZeroIsNext(a: Bytes, b: Bytes)
    ensures Less(a, a + [0])
    ensures Less(a, b) ==> b == a + [0] || Less(a + [0], b)
  {
    if a == [] {
      if b != [] && b[0] == 0 {
        if b[1..] == [] { assert b == [0]; }
      }
    } else {
      assert (a + [0])[1..] == a[1..] + [0];
      if b != [] && a[0] == b[0] {
        ZeroIsNext(a[1..], b[1..]);
        if b[1..] == a[1..] + [0] { assert b == [b[0]] + b[1..] && a + [0] == [a[0]] + (a[1..] + [0]); }
      } else {
        ZeroIsNext(a[1..], []);
      }
    }
  }

  /** Above a prefix without starting with it means above everything that starts with it. */
  lemma {:induction false} AbovePrefixIsAboveAll(prefix: Bytes, a: Bytes, k: Bytes)
    requires Less(prefix, a) && !StartsWith(a, prefix) && StartsWith(k, prefix)
    ensures Less(k, a)
  {
    if prefix == [] || prefix[0] != a[0] {
    } else {
      assert prefix == [prefix[0]] + prefix[1..] && a == [a[0]] + a[1..];
      AbovePrefixIsAboveAll(prefix[1..], a[1..], k[1..]);
    }
  }

  predicate Ascending(keys: seq<Bytes>) {
    forall i, j :: 0 <= i < j < |keys| ==> Less(keys[i], keys[j])
  }

  /** An ascending listing is determined by its elements. */
  lemma {:induction false} AscendingIsUnique(a: seq<Bytes>, b: seq<Bytes>)
    requires Ascending(a) && Ascending(b) && (forall k :: k in a <==> k in b)
    ensures a == b
  {
    assert a != [] ==> a[0] in b;
    assert b != [] ==> b[0] in a;
    if a == [] || b == [] {
    } else {
      if a[0] != b[0] {
        LessIrreflexive(a[0]);
        LessTransitive(a[0], b[0], a[0]);
        assert false;
      }
      forall k ensures k in a[1..] <==> k in b[1..] {
        TailLacksHead(a, k);
        TailLacksHead(b, k);
      }
      AscendingIsUnique(a[1..], b[1..]);
      assert a == [a[0]] + a[1..] && b == [b[0]] + b[1..];
    }
  }

  lemma TailLacksHead(a: seq<Bytes>, k: Bytes)
    requires Ascending(a) && a != []
    ensures k in a[1..] <==> k in a && k != a[0]
  {
    LessIrreflexive(a[0]);
  }
}
