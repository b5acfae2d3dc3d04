/**
 The sequence order of the replicated growable array: every element hangs below the element it
 was inserted after, an element whose parent is unknown hangs at the root, and siblings stand in
 identifier order. Elements are listed as the ordered map yields them, by identifier.
 */
module RgaOrder {
  import opened Basics
  import opened ByteOrder
  import opened Folding

  datatype Item = Item(id: Bytes, parent: Option<Bytes>)

  type Path = seq<Bytes>

  ghost predicate Sorted(items: seq<Item>) {
    forall i, j :: 0 <= i < j < |items| ==> Less(items[i].id, items[j].id)
  }

  predicate Has(items: seq<Item>, id: Bytes) {
    exists i :: 0 <= i < |items| && items[i].id == id
  }

  /** Where an item hangs: below its parent if that is known, else at the root. */
  function HangsBelow(items: seq<Item>, it: Item): Option<Bytes> {
    if it.parent.Some? && Has(items, it.parent.value) then it.parent else None
  }

  function Places(items: seq<Item>, from: seq<Item>): map<Bytes, Option<Bytes>> {
    if from == [] then map[] else Places(items, from[1..])[from[0].id := HangsBelow(items, from[0])]
  }

  /** The place of an identifier, if it is listed. */
  function PlaceIn(items: seq<Item>, from: seq<Item>, id: Bytes): Option<Option<Bytes>> {
    var places := Places(items, from);
    if id in places then Some(places[id]) else None
  }

  function Place(items: seq<Item>, id: Bytes): Option<Option<Bytes>> {
    PlaceIn(items, items, id)
  }

  lemma {:induction false} PlacedIsListed(items: seq<Item>, from: seq<Item>, id: Bytes)
    ensures PlaceIn(items, from, id).Some? <==> Has(from, id)
  {
    if from == [] {
    } else {
      PlacedIsListed(items, from[1..], id);
      if Has(from[1..], id) {
        var i :| 0 <= i < |from[1..]| && from[1..][i].id == id;
        assert from[i + 1].id == id;
      }
      if Has(from, id) && from[0].id != id {
        var i :| 0 <= i < |from| && from[i].id == id;
        assert from[1..][i - 1].id == id;
      }
    }
  }

  /** The identifiers below a parent, in the order of the listing. */
  function ChildrenIn(items: seq<Item>, from: seq<Item>, parent: Option<Bytes>): seq<Bytes> {
    if from == [] then []
    else
      (if HangsBelow(items, from[0]) == parent then [from[0].id] else []) + ChildrenIn(items, from[1..], parent)
  }

  function Children(items: seq<Item>, parent: Option<Bytes>): seq<Bytes> {
    ChildrenIn(items, items, parent)
  }

  lemma {:induction false} ChildrenHold(items: seq<Item>, from: seq<Item>, parent: Option<Bytes>)
    requires Sorted(from)
    ensures Ascending(ChildrenIn(items, from, parent))
    ensures forall id :: id in ChildrenIn(items, from, parent) <==> PlaceIn(items, from, id) == Some(parent)
  {
    if from == [] {
    } else {
      var rest := ChildrenIn(items, from[1..], parent);
      ChildrenHold(items, from[1..], parent);
      forall id | Has(from[1..], id) ensures Less(from[0].id, id) {
        var i :| 0 <= i < |from[1..]| && from[1..][i].id == id;
        assert from[i + 1].id == id;
      }
      forall id | id in rest ensures Less(from[0].id, id) {
        PlacedIsListed(items, from[1..], id);
      }
      LessIrreflexive(from[0].id);
    }
  }

  // ----- Paths from the root

  function Above(path: Path, i: nat): Option<Bytes>
    requires i <= |path|
  {
    if i == 0 then None else Some(path[i - 1])
  }

  ghost predicate IsPath(items: seq<Item>, path: Path) {
    forall i :: 0 <= i < |path| ==> Place(items, path[i]) == Some(Above(path, i))
  }

  /** A chain of elements in which each hangs below the one before, for any map of places. */
  ghost predicate Chain(places: map<Bytes, Option<Bytes>>, path: Path) {
    forall i :: 0 <= i < |path| ==> path[i] in places && places[path[i]] == Above(path, i)
  }

  lemma PathIsChain(items: seq<Item>, path: Path)
    requires IsPath(items, path)
    ensures Chain(Places(items, items), path)
  {
    forall i | 0 <= i < |path|
      ensures path[i] in Places(items, items) && Places(items, items)[path[i]] == Above(path, i)
    {
      assert Place(items, path[i]) == Some(Above(path, i));
    }
  }

  lemma {:induction false} ChainIsSimple(places: map<Bytes, Option<Bytes>>, path: Path, i: nat, j: nat)
    requires Chain(places, path) && i < j < |path|
    ensures path[i] != path[j]
  {
    if i == 0 {
    } else {
      ChainIsSimple(places, path, i - 1, j - 1);
    }
  }

  /** Two chains to the same element agree step by step on the way up. */
  lemma {:induction false} AgreeUpwards(places: map<Bytes, Option<Bytes>>, p: Path, q: Path, k: nat)
    requires Chain(places, p) && Chain(places, q) && k < |p| && k < |q|
    requires p[|p| - 1] == q[|q| - 1]
    ensures p[|p| - 1 - k] == q[|q| - 1 - k]
  {
    if k == 0 {
    } else {
      AgreeUpwards(places, p, q, k - 1);
      assert places[p[|p| - k]] == Above(p, |p| - k) && places[q[|q| - k]] == Above(q, |q| - k);
    }
  }

  lemma NotLonger(places: map<Bytes, Option<Bytes>>, p: Path, q: Path)
    requires Chain(places, p) && Chain(places, q) && p != [] && q != []
    requires p[|p| - 1] == q[|q| - 1]
    ensures |q| <= |p|
  {
    if |p| < |q| {
      AgreeUpwards(places, p, q, |p| - 1);
      assert false;
    }
  }

  /** A path never comes back to an element. */
  lemma NoReturn(items: seq<Item>, path: Path, i: nat, j: nat)
    requires IsPath(items, path) && i < j < |path|
    ensures path[i] != path[j]
  {
    PathIsChain(items, path);
    ChainIsSimple(Places(items, items), path, i, j);
  }

  /** An element has at most one path. */
  lemma OnePath(items: seq<Item>, p: Path, q: Path)
    requires IsPath(items, p) && IsPath(items, q) && p != [] && q != []
    requires p[|p| - 1] == q[|q| - 1]
    ensures p == q
  {
    PathIsChain(items, p);
    PathIsChain(items, q);
    SameChain(Places(items, items), p, q);
  }

  lemma SameChain(places: map<Bytes, Option<Bytes>>, p: Path, q: Path)
    requires Chain(places, p) && Chain(places, q) && p != [] && q != []
    requires p[|p| - 1] == q[|q| - 1]
    ensures p == q
  {
    NotLonger(places, p, q);
    NotLonger(places, q, p);
    forall i | 0 <= i < |p| ensures p[i] == q[i] {
      AgreeUpwards(places, p, q, |p| - 1 - i);
    }
  }

  function IdsOf(items: seq<Item>): (ids: seq<Bytes>)
    ensures |ids| == |items|
  {
    seq(|items|, i requires 0 <= i < |items| => items[i].id)
  }

  lemma PathFits(items: seq<Item>, path: Path)
    requires IsPath(items, path)
    ensures Distinct(path) && |path| <= |items|
  {
    forall i, j | 0 <= i < j < |path| ensures path[i] != path[j] {
      NoReturn(items, path, i, j);
    }
    forall x | x in path ensures x in IdsOf(items) {
      PlacedIsListed(items, items, x);
      var k :| 0 <= k < |items| && items[k].id == x;
      assert IdsOf(items)[k] == x;
    }
    DistinctFits(path, IdsOf(items));
  }

  // ----- The walk

  /** All these identifiers hang at the end of the path. */
  ghost predicate Hang(items: seq<Item>, path: Path, kids: seq<Bytes>) {
    IsPath(items, path) && forall k :: k in kids ==> Place(items, k) == Some(Above(path, |path|))
  }

  lemma StepDown(items: seq<Item>, path: Path, kids: seq<Bytes>)
    requires Sorted(items) && Hang(items, path, kids) && kids != []
    ensures var longer := path + [kids[0]];
            |longer| <= |items| && Hang(items, longer, Children(items, Some(kids[0]))) && Hang(items, path, kids[1..])
  {
    var longer := path + [kids[0]];
    assert kids[0] in kids;
    forall i | 0 <= i < |longer| ensures Place(items, longer[i]) == Some(Above(longer, i)) {
      if i < |path| { assert Place(items, path[i]) == Some(Above(path, i)); }
    }
    PathFits(items, longer);
    ChildrenHold(items, items, Some(kids[0]));
  }

  /** Depth first: each child, then everything below it, then its later siblings. */
  ghost function Walk(items: seq<Item>, path: Path, kids: seq<Bytes>): seq<Path>
    requires Sorted(items) && Hang(items, path, kids)
    decreases |items| - |path|, |kids|
  {
    if kids == [] then []
    else
      StepDown(items, path, kids);
      var longer := path + [kids[0]];
      [longer] + Walk(items, longer, Children(items, Some(kids[0]))) + Walk(items, path, kids[1..])
  }

  predicate Extends(p: Path, path: Path, kids: seq<Bytes>) {
    |path| < |p| && p[..|path|] == path && p[|path|] in kids
  }

  /** The walk visits exactly the paths that go on with one of the children. */
  lemma {:induction false} WalkVisits(items: seq<Item>, path: Path, kids: seq<Bytes>, p: Path)
    requires Sorted(items) && Hang(items, path, kids)
    ensures p in Walk(items, path, kids) <==> IsPath(items, p) && Extends(p, path, kids)
    decreases |items| - |path|, |kids|
  {
    if kids == [] {
    } else {
      StepDown(items, path, kids);
      var longer, below := path + [kids[0]], Children(items, Some(kids[0]));
      WalkVisits(items, longer, below, p);
      WalkVisits(items, path, kids[1..], p);
      ExtendsSplits(items, path, kids, p);
    }
  }

  lemma ExtendsSplits(items: seq<Item>, path: Path, kids: seq<Bytes>, p: Path)
    requires Sorted(items) && Hang(items, path, kids) && kids != []
    ensures var longer := path + [kids[0]];
            && IsPath(items, longer)
            && (IsPath(items, p) && Extends(p, path, kids) <==>
                  || p == longer
                  || (IsPath(items, p) && Extends(p, longer, Children(items, Some(kids[0]))))
                  || (IsPath(items, p) && Extends(p, path, kids[1..])))
  {
    StepDown(items, path, kids);
    var longer := path + [kids[0]];
    ChildrenHold(items, items, Some(kids[0]));
    if |path| < |p| && p[..|path|] == path && p[|path|] == kids[0] {
      assert p[..|longer|] == longer;
      if |p| > |longer| && IsPath(items, p) {
        assert Place(items, p[|longer|]) == Some(Above(p, |longer|));
      }
    }
    if |longer| < |p| && p[..|longer|] == longer {
      assert p[..|path|] == longer[..|path|] == path && p[|path|] == longer[|path|];
    }
  }

  // ----- Path order

  /** Component by component; a path precedes its continuations. */
  predicate PathLess(p: Path, q: Path) {
    q != [] && (p == [] || Less(p[0], q[0]) || (p[0] == q[0] && PathLess(p[1..], q[1..])))
  }

  lemma {:induction false} PathLessAt(p: Path, q: Path, n: nat)
    requires n <= |p| && n < |q| && p[..n] == q[..n] && (|p| == n || Less(p[n], q[n]))
    ensures PathLess(p, q)
  {
    if n == 0 {
    } else {
      assert p[0] == p[..n][0] == q[..n][0] == q[0];
      assert p[1..][..n - 1] == p[..n][1..] == q[..n][1..] == q[1..][..n - 1];
      PathLessAt(p[1..], q[1..], n - 1);
    }
  }

  lemma {:induction false} PathLessStrict(p: Path, q: Path)
    ensures !(PathLess(p, q) && PathLess(q, p)) && !PathLess(p, p)
  {
    if p == [] {
    } else {
      LessIrreflexive(p[0]);
      PathLessStrict(p[1..], if q == [] then [] else q[1..]);
      if q != [] && Less(p[0], q[0]) && Less(q[0], p[0]) {
        LessTransitive(p[0], q[0], p[0]);
        assert false;
      }
      if q != [] && p[0] == q[0] { LessIrreflexive(q[0]); }
    }
  }

  ghost predicate InPathOrder(s: seq<Path>) {
    forall i, j :: 0 <= i < j < |s| ==> PathLess(s[i], s[j])
  }

  lemma PathOrderConcat(x: Path, a: seq<Path>, b: seq<Path>)
    requires InPathOrder(a) && InPathOrder(b)
    requires forall p :: p in a ==> PathLess(x, p)
    requires forall q :: q in b ==> PathLess(x, q)
    requires forall p, q :: p in a && q in b ==> PathLess(p, q)
    ensures InPathOrder([x] + a + b)
  {
    var s := [x] + a + b;
    forall i, j | 0 <= i < j < |s| ensures PathLess(s[i], s[j]) {
      if j > |a| { assert s[j] in b; }
      if 0 < i <= |a| { assert s[i] in a; }
      if 0 < j <= |a| { assert s[j] in a; }
    }
  }

  /** The walk lists paths in path order. */
  lemma {:induction false} WalkAscends(items: seq<Item>, path: Path, kids: seq<Bytes>)
    requires Sorted(items) && Hang(items, path, kids) && Ascending(kids)
    ensures InPathOrder(Walk(items, path, kids))
    decreases |items| - |path|, |kids|
  {
    if kids == [] {
    } else {
      StepDown(items, path, kids);
      var longer, below, later := path + [kids[0]], Children(items, Some(kids[0])), kids[1..];
      ChildrenHold(items, items, Some(kids[0]));
      WalkAscends(items, longer, below);
      WalkAscends(items, path, later);
      forall p | p in Walk(items, longer, below) ensures PathLess(longer, p) {
        WalkVisits(items, longer, below, p);
        PathLessAt(longer, p, |longer|);
      }
      forall p, q | (p == longer || p in Walk(items, longer, below)) && q in Walk(items, path, later) ensures PathLess(p, q) {
        WalkVisits(items, longer, below, p);
        WalkVisits(items, path, later, q);
        assert p[..|longer|] == longer;
        Siblings(path, kids, p, q);
      }
      PathOrderConcat(longer, Walk(items, longer, below), Walk(items, path, later));
    }
  }

  lemma Siblings(path: Path, kids: seq<Bytes>, p: Path, q: Path)
    requires Ascending(kids) && kids != [] && Extends(q, path, kids[1..])
    requires |path| < |p| && p[..|path| + 1] == path + [kids[0]]
    ensures PathLess(p, q)
  {
    assert p[..|path|] == p[..|path| + 1][..|path|] == path;
    assert p[|path|] == p[..|path| + 1][|path|] == kids[0];
    PathLessAt(p, q, |path|);
  }

  // ----- The sequence

  lemma RootsHang(items: seq<Item>)
    requires Sorted(items)
    ensures Hang(items, [], Children(items, None)) && Ascending(Children(items, None))
  {
    ChildrenHold(items, items, None);
  }

  ghost function Paths(items: seq<Item>): seq<Path>
    requires Sorted(items)
  {
    RootsHang(items);
    Walk(items, [], Children(items, None))
  }

  /** An element is rooted when its chain of parents ends. */
  ghost predicate Rooted(items: seq<Item>, id: Bytes) {
    exists p :: IsPath(items, p) && p != [] && p[|p| - 1] == id
  }

  /** The listing holds every path from the root once, in path order. */
  lemma PathsHold(items: seq<Item>)
    requires Sorted(items)
    ensures InPathOrder(Paths(items)) && forall p :: p in Paths(items) <==> IsPath(items, p) && p != []
  {
    var roots := Children(items, None);
    RootsHang(items);
    WalkAscends(items, [], roots);
    ChildrenHold(items, items, None);
    forall p ensures p in Paths(items) <==> IsPath(items, p) && p != [] {
      WalkVisits(items, [], roots, p);
      if p != [] && IsPath(items, p) {
        assert Place(items, p[0]) == Some(Above(p, 0));
        assert p[..0] == [];
      }
    }
  }

  function End(p: Path): Bytes {
    if p == [] then [] else p[|p| - 1]
  }

  function Ends(paths: seq<Path>): (ids: seq<Bytes>)
    ensures |ids| == |paths| && forall i :: 0 <= i < |paths| ==> ids[i] == End(paths[i])
  {
    seq(|paths|, i requires 0 <= i < |paths| => End(paths[i]))
  }

  /** The identifiers in sequence order. */
  ghost function Sequence(items: seq<Item>): seq<Bytes>
    requires Sorted(items)
  {
    Ends(Paths(items))
  }

  method OrderedIds(items: seq<Item>) returns (ids: seq<Bytes>)
    requires Sorted(items)
    ensures ids == Sequence(items)
  {
    RootsHang(items);
    ids := AppendChildren(items, None, [], []);
  }

  method AppendChildren(items: seq<Item>, parent: Option<Bytes>, ghost path: Path, out: seq<Bytes>)
    returns (grown: seq<Bytes>)
    requires Sorted(items) && parent == Above(path, |path|) && Hang(items, path, Children(items, parent))
    ensures grown == out + Ends(Walk(items, path, Children(items, parent)))
    decreases |items| - |path|
  {
    var kids := Children(items, parent);
    grown := out;
    ghost var all := Ends(Walk(items, path, kids));
    for i := 0 to |kids|
      invariant Hang(items, path, kids[i..])
      invariant grown + Ends(Walk(items, path, kids[i..])) == out + all
    {
      StepDown(items, path, kids[i..]);
      assert kids[i..][1..] == kids[i + 1..];
      ghost var longer := path + [kids[i]];
      ghost var below := Walk(items, longer, Children(items, Some(kids[i])));
      ghost var later := Walk(items, path, kids[i + 1..]);
      EndsOfConcat(grown, longer, below, later);
      grown := AppendChildren(items, Some(kids[i]), longer, grown + [kids[i]]);
    }
  }

  lemma EndsOfConcat(before: seq<Bytes>, p: Path, a: seq<Path>, b: seq<Path>)
    ensures before + Ends([p] + a + b) == before + [End(p)] + Ends(a) + Ends(b)
  {
  }

  lemma NoneTwice(items: seq<Item>)
    requires Sorted(items)
    ensures Distinct(Sequence(items))
  {
    PathsHold(items);
    var paths, ids := Paths(items), Sequence(items);
    forall i, j | 0 <= i < j < |ids| ensures ids[i] != ids[j] {
      assert paths[i] in paths && paths[j] in paths;
      PathLessStrict(paths[i], paths[j]);
      if ids[i] == ids[j] {
        OnePath(items, paths[i], paths[j]);
        assert false;
      }
    }
  }

  lemma ListedIsRooted(items: seq<Item>, id: Bytes)
    requires Sorted(items)
    ensures id in Sequence(items) <==> Rooted(items, id)
  {
    PathsHold(items);
    var paths, ids := Paths(items), Sequence(items);
    if id in ids {
      var i :| 0 <= i < |ids| && ids[i] == id;
      assert paths[i] in paths;
    }
    if Rooted(items, id) {
      var p :| IsPath(items, p) && p != [] && p[|p| - 1] == id;
      var i :| 0 <= i < |paths| && paths[i] == p;
      assert ids[i] == id;
    }
  }

  /** Every rooted element stands in the sequence exactly once, and nothing else does. */
  lemma EachOnce(items: seq<Item>)
    requires Sorted(items)
    ensures Distinct(Sequence(items)) && forall id :: id in Sequence(items) <==> Rooted(items, id)
  {
    NoneTwice(items);
    forall id ensures id in Sequence(items) <==> Rooted(items, id) { ListedIsRooted(items, id); }
  }

  // ----- When nothing is lost

  /** Parents come before children in some ranking. */
  ghost predicate Causal(items: seq<Item>, rank: map<Bytes, nat>) {
    forall id :: Has(items, id) ==>
      && id in rank
      && var place := Place(items, id);
         place.Some? && place.value.Some? ==> place.value.value in rank && rank[place.value.value] < rank[id]
  }

  /** Causal parents lead to the root. */
  lemma {:induction false} CausalIsRooted(items: seq<Item>, rank: map<Bytes, nat>, id: Bytes) returns (p: Path)
    requires Causal(items, rank) && Has(items, id)
    ensures IsPath(items, p) && p != [] && p[|p| - 1] == id
    decreases rank[id]
  {
    PlacedIsListed(items, items, id);
    var place := Place(items, id).value;
    if place.None? {
      p := [id];
    } else {
      PlaceIsListed(items, items, id);
      var q := CausalIsRooted(items, rank, place.value);
      p := q + [id];
      forall i | 0 <= i < |p| ensures Place(items, p[i]) == Some(Above(p, i)) {
        if i < |q| { assert Place(items, q[i]) == Some(Above(q, i)); }
      }
    }
  }

  lemma {:induction false} PlaceIsListed(items: seq<Item>, from: seq<Item>, id: Bytes)
    ensures var place := PlaceIn(items, from, id);
            place.Some? && place.value.Some? ==> Has(items, place.value.value)
  {
    if from == [] {
    } else {
      PlaceIsListed(items, from[1..], id);
    }
  }

  /** The length of its path ranks a rooted element above its parent. */
  lemma RootedIsCausal(items: seq<Item>) returns (rank: map<Bytes, nat>)
    requires forall id :: Has(items, id) ==> Rooted(items, id)
    ensures Causal(items, rank)
  {
    rank := Ranks(items, items);
    forall id | Has(items, id)
      ensures id in rank
      ensures var place := Place(items, id);
              place.Some? && place.value.Some? ==> place.value.value in rank && rank[place.value.value] < rank[id]
    {
      RankOf(items, items, id);
      PlaceIsListed(items, items, id);
      var place := Place(items, id);
      if place.Some? && place.value.Some? {
        RankOf(items, items, place.value.value);
        ParentPath(items, id, place.value.value);
      }
    }
  }

  ghost function Depth(items: seq<Item>, id: Bytes): nat
    requires Rooted(items, id)
  {
    var p :| IsPath(items, p) && p != [] && p[|p| - 1] == id;
    |p|
  }

  lemma ParentPath(items: seq<Item>, id: Bytes, parent: Bytes)
    requires Rooted(items, id) && Rooted(items, parent) && Place(items, id) == Some(Some(parent))
    ensures Depth(items, parent) < Depth(items, id)
  {
    var p :| IsPath(items, p) && p != [] && p[|p| - 1] == id && Depth(items, id) == |p|;
    var q :| IsPath(items, q) && q != [] && q[|q| - 1] == parent && Depth(items, parent) == |q|;
    assert Place(items, p[|p| - 1]) == Some(Above(p, |p| - 1));
    var up := p[..|p| - 1];
    assert up != [] && up[|up| - 1] == parent;
    forall i | 0 <= i < |up| ensures Place(items, up[i]) == Some(Above(up, i)) {
      assert Place(items, p[i]) == Some(Above(p, i));
    }
    OnePath(items, up, q);
  }

  ghost function Ranks(items: seq<Item>, from: seq<Item>): map<Bytes, nat> {
    if from == [] then map[]
    else if Rooted(items, from[0].id) then Ranks(items, from[1..])[from[0].id := Depth(items, from[0].id)]
    else Ranks(items, from[1..])
  }

  lemma {:induction false} RankOf(items: seq<Item>, from: seq<Item>, id: Bytes)
    requires Has(from, id) && Rooted(items, id)
    ensures id in Ranks(items, from) && Ranks(items, from)[id] == Depth(items, id)
  {
    if from[0].id == id {
    } else {
      var i :| 0 <= i < |from| && from[i].id == id;
      assert from[1..][i - 1].id == id;
      RankOf(items, from[1..], id);
    }
  }

  /** Nothing is missing from the sequence exactly when the parents can be ranked. */
  lemma CompleteIffCausal(items: seq<Item>)
    requires Sorted(items)
    ensures (forall id :: Has(items, id) <==> id in Sequence(items)) <==> exists rank :: Causal(items, rank)
  {
    EachOnce(items);
    if forall id :: Has(items, id) <==> id in Sequence(items) {
      var rank := RootedIsCausal(items);
    }
    if rank :| Causal(items, rank) {
      forall id ensures Has(items, id) <==> id in Sequence(items) {
        if Has(items, id) { var p := CausalIsRooted(items, rank, id); }
        if Rooted(items, id) {
          var p :| IsPath(items, p) && p != [] && p[|p| - 1] == id;
          assert Place(items, p[|p| - 1]) == Some(Above(p, |p| - 1));
          PlacedIsListed(items, items, id);
        }
      }
    }
  }

  // ----- Later insertions

  /** The larger listing keeps every element in its place: no element was waiting for a new one. */
  ghost predicate KeepsPlaces(items: seq<Item>, more: seq<Item>) {
    forall id :: Has(items, id) ==> Place(more, id) == Place(items, id)
  }

  /** Elements inserted later slip in between; those already there keep their relative order. */
  lemma InsertKeepsOrder(items: seq<Item>, more: seq<Item>, i: nat, j: nat) returns (k: nat, l: nat)
    requires Sorted(items) && Sorted(more) && KeepsPlaces(items, more) && i < j < |Sequence(items)|
    ensures k < l < |Sequence(more)|
    ensures Sequence(more)[k] == Sequence(items)[i] && Sequence(more)[l] == Sequence(items)[j]
  {
    PathsHold(items);
    PathsHold(more);
    var p, q := Paths(items)[i], Paths(items)[j];
    assert p in Paths(items) && q in Paths(items);
    PathStays(items, more, p);
    PathStays(items, more, q);
    PathLessStrict(p, q);
    k :| 0 <= k < |Paths(more)| && Paths(more)[k] == p;
    l :| 0 <= l < |Paths(more)| && Paths(more)[l] == q;
  }

  lemma {:induction false} PlaceOfItem(items: seq<Item>, from: seq<Item>, it: Item)
    requires Sorted(from) && it in from
    ensures PlaceIn(items, from, it.id) == Some(HangsBelow(items, it))
  {
    if it == from[0] {
    } else {
      LessIrreflexive(it.id);
      PlaceOfItem(items, from[1..], it);
    }
  }

  /** Places are kept when no element already there names a newcomer as its parent. */
  lemma NobodyWaits(items: seq<Item>, more: seq<Item>)
    requires Sorted(items) && Sorted(more) && (forall it :: it in items ==> it in more)
    requires forall it :: it in items && it.parent.Some? && Has(more, it.parent.value) ==> Has(items, it.parent.value)
    ensures KeepsPlaces(items, more)
  {
    forall id | Has(items, id) ensures Place(more, id) == Place(items, id) {
      var i :| 0 <= i < |items| && items[i].id == id;
      var it := items[i];
      assert it in items;
      PlaceOfItem(items, items, it);
      PlaceOfItem(more, more, it);
      if it.parent.Some? && Has(items, it.parent.value) {
        var k :| 0 <= k < |items| && items[k].id == it.parent.value;
        assert items[k] in more;
      }
    }
  }

  lemma PathStays(items: seq<Item>, more: seq<Item>, p: Path)
    requires KeepsPlaces(items, more) && IsPath(items, p)
    ensures IsPath(more, p)
  {
    forall i | 0 <= i < |p| ensures Place(more, p[i]) == Some(Above(p, i)) {
      assert Place(items, p[i]) == Some(Above(p, i));
      PlacedIsListed(items, items, p[i]);
    }
  }

  // ----- When the order is stable

  /** The element names a parent that is not there yet. */
  ghost predicate Waits(items: seq<Item>, it: Item) {
    it in items && it.parent.Some? && !Has(items, it.parent.value)
  }

  ghost predicate Before(s: seq<Bytes>, a: Bytes, b: Bytes) {
    exists i, j :: 0 <= i < j < |s| && s[i] == a && s[j] == b
  }

  /** Everything listed stays listed, in the same relative order. */
  ghost predicate OrderKept(items: seq<Item>, more: seq<Item>)
    requires Sorted(items) && Sorted(more)
  {
    && (forall id :: id in Sequence(items) ==> id in Sequence(more))
    && (forall a, b :: Before(Sequence(items), a, b) ==> Before(Sequence(more), a, b))
  }

  ghost predicate Grows(items: seq<Item>, more: seq<Item>) {
    Sorted(more) && forall it :: it in items ==> it in more
  }

  lemma SettledOrderIsKept(items: seq<Item>, more: seq<Item>)
    requires Sorted(items) && Grows(items, more) && forall it :: !Waits(items, it)
    ensures OrderKept(items, more)
  {
    forall it | it in items && it.parent.Some? ensures Has(items, it.parent.value) {
      assert !Waits(items, it);
    }
    NobodyWaits(items, more);
    var s := Sequence(items);
    forall id | id in s ensures id in Sequence(more) {
      ListedIsRooted(items, id);
      var p :| IsPath(items, p) && p != [] && p[|p| - 1] == id;
      PathStays(items, more, p);
      ListedIsRooted(more, id);
    }
    forall a, b | Before(s, a, b) ensures Before(Sequence(more), a, b) {
      var i, j :| 0 <= i < j < |s| && s[i] == a && s[j] == b;
      var k, l := InsertKeepsOrder(items, more, i, j);
    }
  }

  /** An element put into its place in identifier order. */
  function Inserted(items: seq<Item>, it: Item): seq<Item> {
    if items == [] || Less(it.id, items[0].id) then [it] + items else [items[0]] + Inserted(items[1..], it)
  }

  lemma TailHas(items: seq<Item>, id: Bytes)
    requires items != []
    ensures Has(items[1..], id) ==> Has(items, id)
  {
    if Has(items[1..], id) {
      var i :| 0 <= i < |items[1..]| && items[1..][i].id == id;
      assert items[i + 1].id == id;
    }
  }

  lemma {:induction false} InsertedIsSorted(items: seq<Item>, it: Item)
    requires Sorted(items) && !Has(items, it.id)
    ensures Sorted(Inserted(items, it)) && forall x :: x in Inserted(items, it) <==> x == it || x in items
  {
    if items == [] {
    } else {
      assert items[0].id != it.id && forall x :: x in items[1..] ==> Less(items[0].id, x.id);
      LessTotal(it.id, items[0].id);
      if Less(it.id, items[0].id) {
        forall x | x in items ensures Less(it.id, x.id) {
          if x != items[0] { LessTransitive(it.id, items[0].id, x.id); }
        }
      } else {
        TailHas(items, it.id);
        InsertedIsSorted(items[1..], it);
      }
    }
  }

  /** Two elements that hang below each other lead nowhere. */
  lemma CycleIsUnlisted(items: seq<Item>, a: Bytes, b: Bytes)
    requires Sorted(items) && Place(items, a) == Some(Some(b)) && Place(items, b) == Some(Some(a))
    ensures a !in Sequence(items)
  {
    ListedIsRooted(items, a);
    if p :| IsPath(items, p) && p != [] && p[|p| - 1] == a {
      var n := |p|;
      PathIsChain(items, p);
      assert Above(p, n - 1) == Some(b);
      assert Above(p, n - 2) == Some(a);
      NoReturn(items, p, n - 3, n - 1);
      assert false;
    }
  }

  /** A waiting element can vanish: its parent may arrive below the element itself. */
  lemma LateParentHidesElement(items: seq<Item>, it: Item) returns (more: seq<Item>)
    requires Sorted(items) && Waits(items, it)
    ensures Grows(items, more) && it.id in Sequence(items) && it.id !in Sequence(more)
  {
    var parent := Item(it.parent.value, Some(it.id));
    more := Inserted(items, parent);
    InsertedIsSorted(items, parent);
    PlaceOfItem(items, items, it);
    ListedIsRooted(items, it.id);
    assert IsPath(items, [it.id]);
    PlaceOfItem(more, more, it);
    PlaceOfItem(more, more, parent);
    var i :| 0 <= i < |more| && more[i] == it;
    var j :| 0 <= j < |more| && more[j] == parent;
    assert Has(more, it.id) && Has(more, parent.id);
    CycleIsUnlisted(more, it.id, parent.id);
  }

  /** Every later insertion keeps the listed order, if and only if no element waits for its parent. */
  lemma StableIffNobodyWaits(items: seq<Item>)
    requires Sorted(items)
    ensures (forall more :: Grows(items, more) ==> OrderKept(items, more)) <==> forall it :: !Waits(items, it)
  {
    if forall it :: !Waits(items, it) {
      forall more | Grows(items, more) ensures OrderKept(items, more) { SettledOrderIsKept(items, more); }
    } else {
      var it :| Waits(items, it);
      var more := LateParentHidesElement(items, it);
      assert Grows(items, more) && !OrderKept(items, more);
    }
  }

  // ----- The sequence in terms of the elements

  /** The position of an element is that of its path. */
  lemma PathOfListed(items: seq<Item>, j: nat)
    requires Sorted(items) && j < |Sequence(items)|
    ensures var p := Paths(items)[j]; p != [] && IsPath(items, p) && p[|p| - 1] == Sequence(items)[j]
  {
    PathsHold(items);
    assert Paths(items)[j] in Paths(items);
  }

  lemma PathPosition(items: seq<Item>, p: Path) returns (i: nat)
    requires Sorted(items) && IsPath(items, p) && p != []
    ensures i < |Sequence(items)| && Paths(items)[i] == p && Sequence(items)[i] == p[|p| - 1]
  {
    PathsHold(items);
    i :| 0 <= i < |Paths(items)| && Paths(items)[i] == p;
  }

  lemma LesserComesFirst(items: seq<Item>, i: nat, j: nat)
    requires Sorted(items) && i < |Paths(items)| && j < |Paths(items)| && PathLess(Paths(items)[i], Paths(items)[j])
    ensures i < j
  {
    PathsHold(items);
    PathLessStrict(Paths(items)[i], Paths(items)[j]);
  }

  lemma PrefixIsPath(items: seq<Item>, p: Path, n: nat)
    requires IsPath(items, p) && n <= |p|
    ensures IsPath(items, p[..n])
  {
    forall i | 0 <= i < n ensures Place(items, p[..n][i]) == Some(Above(p[..n], i)) {
      assert Place(items, p[i]) == Some(Above(p, i));
    }
  }

  /** An element whose parent is in the array stands behind it. */
  lemma ParentComesFirst(items: seq<Item>, it: Item, j: nat) returns (i: nat)
    requires Sorted(items) && it in items && it.parent.Some? && Has(items, it.parent.value)
    requires j < |Sequence(items)| && Sequence(items)[j] == it.id
    ensures i < j && Sequence(items)[i] == it.parent.value
  {
    PathOfListed(items, j);
    PlaceOfItem(items, items, it);
    var p := Paths(items)[j];
    var n := |p| - 1;
    assert Place(items, p[n]) == Some(Above(p, n));
    PrefixIsPath(items, p, n);
    i := PathPosition(items, p[..n]);
    PathLessAt(p[..n], p, n);
    LesserComesFirst(items, i, j);
  }

  /** Both hang below the same element, or neither names a parent that is in the array. */
  predicate AreSiblings(items: seq<Item>, x: Item, y: Item) {
    || x.parent == y.parent
    || ((x.parent.Some? ==> !Has(items, x.parent.value)) && (y.parent.Some? ==> !Has(items, y.parent.value)))
  }

  lemma PrefixIsChain(places: map<Bytes, Option<Bytes>>, p: Path, n: nat)
    requires Chain(places, p) && n <= |p|
    ensures Chain(places, p[..n])
  {
    forall i | 0 <= i < n ensures p[..n][i] in places && places[p[..n][i]] == Above(p[..n], i) {
      assert p[i] in places && places[p[i]] == Above(p, i);
    }
  }

  lemma LinkOf(places: map<Bytes, Option<Bytes>>, p: Path, n: nat)
    requires Chain(places, p) && n < |p|
    ensures p[n] in places && places[p[n]] == Above(p, n)
  {
  }

  /** What hangs at one place has one path above it. */
  lemma SameAbove(places: map<Bytes, Option<Bytes>>, p: Path, q: Path, x: Bytes, y: Bytes)
    requires Chain(places, p) && Chain(places, q) && x in places && y in places && places[x] == places[y]
    requires places[x] == Above(p, |p|) && places[y] == Above(q, |q|)
    ensures p == q
  {
    if p != [] && q != [] { SameChain(places, p, q); }
  }

  lemma SiblingChains(places: map<Bytes, Option<Bytes>>, p: Path, q: Path, m: nat, n: nat)
    requires Chain(places, p) && Chain(places, q) && |p| == m + 1 && |q| == n + 1
    requires p[m] in places && q[n] in places && places[p[m]] == places[q[n]]
    ensures p[..m] == q[..n]
  {
    PrefixIsChain(places, p, m);
    PrefixIsChain(places, q, n);
    LinkOf(places, p, m);
    LinkOf(places, q, n);
    SameAbove(places, p[..m], q[..n], p[m], q[n]);
  }

  lemma LaterSibling(p: Path, q: Path, m: nat, n: nat)
    requires |p| == m + 1 && |q| == n + 1 && p[..m] == q[..n] && Less(p[m], q[n])
    ensures PathLess(p, q)
  {
    assert |p[..m]| == |q[..n]|;
    PathLessAt(p, q, m);
  }

  /** The identifiers end the chains, in path order. */
  ghost predicate Lists(places: map<Bytes, Option<Bytes>>, paths: seq<Path>, ids: seq<Bytes>) {
    |paths| == |ids| && InPathOrder(paths) &&
    forall k :: 0 <= k < |ids| ==> EndsIn(places, paths[k], ids[k])
  }

  ghost predicate EndsIn(places: map<Bytes, Option<Bytes>>, p: Path, id: Bytes) {
    p != [] && Chain(places, p) && p[|p| - 1] == id
  }

  lemma SequenceLists(items: seq<Item>)
    requires Sorted(items)
    ensures Lists(Places(items, items), Paths(items), Sequence(items))
  {
    PathsHold(items);
    forall k | 0 <= k < |Sequence(items)| ensures EndsIn(Places(items, items), Paths(items)[k], Sequence(items)[k]) {
      PathOfListed(items, k);
      PathIsChain(items, Paths(items)[k]);
    }
  }

  lemma SiblingsIn(places: map<Bytes, Option<Bytes>>, paths: seq<Path>, ids: seq<Bytes>, i: nat, j: nat)
    requires Lists(places, paths, ids) && i < |ids| && j < |ids|
    requires ids[i] in places && ids[j] in places && places[ids[i]] == places[ids[j]] && Less(ids[i], ids[j])
    ensures i < j
  {
    var p, q := paths[i], paths[j];
    assert EndsIn(places, p, ids[i]) && EndsIn(places, q, ids[j]);
    SiblingChains(places, p, q, |p| - 1, |q| - 1);
    LaterSibling(p, q, |p| - 1, |q| - 1);
    PathLessStrict(p, q);
  }

  lemma PlacedAt(items: seq<Item>, it: Item)
    requires Sorted(items) && it in items
    ensures it.id in Places(items, items) && Places(items, items)[it.id] == HangsBelow(items, it)
  {
    PlaceOfItem(items, items, it);
  }

  /** Elements of one parent, or of none that is in the array, stand in the order of their identifiers. */
  lemma SiblingsInOrder(items: seq<Item>, x: Item, y: Item, i: nat, j: nat)
    requires Sorted(items) && x in items && y in items && Less(x.id, y.id) && AreSiblings(items, x, y)
    requires i < |Sequence(items)| && Sequence(items)[i] == x.id && j < |Sequence(items)| && Sequence(items)[j] == y.id
    ensures i < j
  {
    SequenceLists(items);
    PlacedAt(items, x);
    PlacedAt(items, y);
    SiblingsIn(Places(items, items), Paths(items), Sequence(items), i, j);
  }

  /** The element hangs below the other one, directly or through others. */
  ghost predicate Descends(places: map<Bytes, Option<Bytes>>, d: Bytes, a: Bytes) {
    exists p: Path :: Chain(places, p) && p != [] && p[|p| - 1] == d && a in p[..|p| - 1]
  }

  lemma ChainOfDescendant(places: map<Bytes, Option<Bytes>>, p: Path, q: Path)
    requires Chain(places, p) && Chain(places, q) && p != [] && q != [] && p[|p| - 1] in q[..|q| - 1]
    ensures |p| < |q| && q[..|p|] == p
  {
    var k :| 0 <= k < |q| - 1 && q[k] == p[|p| - 1];
    PrefixIsChain(places, q, k + 1);
    SameChain(places, p, q[..k + 1]);
  }

  lemma {:induction false} BetweenExtends(p: Path, q: Path, r: Path)
    requires PathLess(p, q) && PathLess(q, r) && p <= r
    ensures p <= q && |p| < |q|
  {
    if p == [] {
    } else {
      LessIrreflexive(p[0]);
      if Less(p[0], q[0]) && Less(q[0], p[0]) { LessTransitive(p[0], q[0], p[0]); }
      if p[0] == q[0] {
        BetweenExtends(p[1..], q[1..], r[1..]);
        assert q == [q[0]] + q[1..] && p == [p[0]] + p[1..];
      }
    }
  }

  lemma DescendantIsLonger(places: map<Bytes, Option<Bytes>>, p: Path, r: Path)
    requires Chain(places, p) && Chain(places, r) && p != [] && r != []
    requires Descends(places, r[|r| - 1], p[|p| - 1])
    ensures |p| < |r| && r[..|p|] == p
  {
    var s: Path :| Chain(places, s) && s != [] && s[|s| - 1] == r[|r| - 1] && p[|p| - 1] in s[..|s| - 1];
    SameChain(places, s, r);
    ChainOfDescendant(places, p, s);
  }

  lemma LongerDescends(places: map<Bytes, Option<Bytes>>, p: Path, q: Path)
    requires Chain(places, q) && p != [] && p <= q && |p| < |q|
    ensures Descends(places, q[|q| - 1], p[|p| - 1])
  {
    assert q[..|q| - 1][|p| - 1] == p[|p| - 1];
  }

  lemma ChainsBetween(places: map<Bytes, Option<Bytes>>, p: Path, q: Path, r: Path, a: Bytes, b: Bytes, d: Bytes)
    requires EndsIn(places, p, a) && EndsIn(places, q, b) && EndsIn(places, r, d) && Descends(places, d, a)
    requires PathLess(p, q) && PathLess(q, r)
    ensures Descends(places, b, a)
  {
    DescendantIsLonger(places, p, r);
    BetweenExtends(p, q, r);
    LongerDescends(places, p, q);
  }

  lemma ContiguousIn(places: map<Bytes, Option<Bytes>>, paths: seq<Path>, ids: seq<Bytes>, i: nat, m: nat, j: nat)
    requires Lists(places, paths, ids) && i < m < j < |ids| && Descends(places, ids[j], ids[i])
    ensures Descends(places, ids[m], ids[i])
  {
    ChainsBetween(places, paths[i], paths[m], paths[j], ids[i], ids[m], ids[j]);
  }

  /** Between an element and what hangs below it stands only what hangs below it. */
  lemma SubtreeIsContiguous(items: seq<Item>, i: nat, m: nat, j: nat)
    requires Sorted(items) && i < m < j < |Sequence(items)|
    requires Descends(Places(items, items), Sequence(items)[j], Sequence(items)[i])
    ensures Descends(Places(items, items), Sequence(items)[m], Sequence(items)[i])
  {
    SequenceLists(items);
    ContiguousIn(Places(items, items), Paths(items), Sequence(items), i, m, j);
  }
}
