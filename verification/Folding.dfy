/** Running a list of operations, and when the order of the list does not matter. */
module Folding {

  function Run<S, A>(step: (S, A) -> S, s: S, ops: seq<A>): S {
    if ops == [] then s else step(Run(step, s, ops[..|ops| - 1]), ops[|ops| - 1])
  }

  ghost predicate Commute<S(!new), A>(step: (S, A) -> S, a: A, b: A) {
    forall s :: step(step(s, a), b) == step(step(s, b), a)
  }

  predicate Distinct<T(==)>(s: seq<T>) {
    forall i, j :: 0 <= i < j < |s| ==> s[i] != s[j]
  }

  lemma RunOneMore<S, A>(step: (S, A) -> S, s: S, ops: seq<A>, a: A)
    ensures Run(step, s, ops + [a]) == step(Run(step, s, ops), a)
  {
    assert (ops + [a])[..|ops|] == ops;
  }

  lemma {:induction false} RunOfConcat<S, A>(step: (S, A) -> S, s: S, a: seq<A>, b: seq<A>)
    ensures Run(step, s, a + b) == Run(step, Run(step, s, a), b)
  {
    if b == [] {
      assert a + b == a;
    } else {
      assert (a + b)[..|a + b| - 1] == a + b[..|b| - 1];
      RunOfConcat(step, s, a, b[..|b| - 1]);
    }
  }

  /** An operation may as well have come last. */
  lemma {:induction false} ComesLast<S(!new), A>(step: (S, A) -> S, s: S, before: seq<A>, x: A, behind: seq<A>)
    requires forall y :: y in behind ==> Commute(step, x, y)
    ensures Run(step, s, before + [x] + behind) == step(Run(step, s, before + behind), x)
  {
    if behind == [] {
      assert before + [x] + behind == before + [x] && before + behind == before;
      RunOneMore(step, s, before, x);
    } else {
      var y, rest := behind[|behind| - 1], behind[..|behind| - 1];
      assert before + [x] + behind == before + [x] + rest + [y] && before + behind == before + rest + [y];
      RunOneMore(step, s, before + [x] + rest, y);
      RunOneMore(step, s, before + rest, y);
      assert y in behind && forall z :: z in rest ==> z in behind;
      ComesLast(step, s, before, x, rest);
      assert Commute(step, x, y);
    }
  }

  lemma {:induction false} OrderIsIrrelevant<S(!new), A>(step: (S, A) -> S, s: S, a: seq<A>, b: seq<A>)
    requires Distinct(a) && Distinct(b) && (forall x :: x in a <==> x in b)
    requires forall x, y :: x in a && y in a ==> Commute(step, x, y)
    ensures Run(step, s, a) == Run(step, s, b)
  {
    assert b != [] ==> b[0] in a;
    if a == [] {
    } else {
      var x, rest := a[|a| - 1], a[..|a| - 1];
      assert a == rest + [x] && x in a;
      var j :| 0 <= j < |b| && b[j] == x;
      var before, behind := b[..j], b[j + 1..];
      assert b == before + [x] + behind;
      ComesLast(step, s, before, x, behind);
      SameWithout(a, b, j);
      OrderIsIrrelevant(step, s, rest, before + behind);
    }
  }

  lemma SameWithout<A>(a: seq<A>, b: seq<A>, j: nat)
    requires Distinct(a) && Distinct(b) && (forall x :: x in a <==> x in b) && a != []
    requires j < |b| && b[j] == a[|a| - 1]
    ensures var without := b[..j] + b[j + 1..];
            Distinct(without) && forall x :: x in a[..|a| - 1] <==> x in without
  {
    var last, rest, without := a[|a| - 1], a[..|a| - 1], b[..j] + b[j + 1..];
    assert a == rest + [last] && b == b[..j] + [last] + b[j + 1..];
    assert forall x :: x in rest <==> x in a && x != last;
    assert forall x :: x in without <==> x in b && x != last;
  }

  /** A list without repeats is no longer than a list that holds all its elements. */
  lemma {:induction false} DistinctFits<T>(s: seq<T>, all: seq<T>)
    requires Distinct(s) && forall x :: x in s ==> x in all
    ensures |s| <= |all|
  {
    if s == [] {
    } else {
      var last, rest := s[|s| - 1], s[..|s| - 1];
      assert s == rest + [last] && last in s;
      var i :| 0 <= i < |all| && all[i] == last;
      var others := all[..i] + all[i + 1..];
      assert all == all[..i] + [last] + all[i + 1..];
      forall x | x in rest ensures x in others {
        assert x in s && x != last;
        assert x in all;
      }
      DistinctFits(rest, others);
    }
  }
}
