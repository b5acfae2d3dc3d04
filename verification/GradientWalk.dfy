/**
 The greedy walk of the ants renderer. The walk looks at pheromone first, yet it always ends
 up on a shortest path: the pheromone only chooses among neighbours that make progress.
 */
module GradientWalk {
  import opened Basics

  type Cell = (int, int)

  function Abs(x: int): nat {
    if x < 0 then -x else x
  }

  function Manhattan(a: Cell, b: Cell): nat {
    Abs(a.0 - b.0) + Abs(a.1 - b.1)
  }

  /** The pheromone of a cell that was never logged is zero. */
  function Pheromone(trail: map<Cell, int>, c: Cell): int {
    if c in trail then trail[c] else 0
  }

  /** Order of Python's `max` over the pairs `(pheromone, -distance)`. */
  predicate ScoreLess(trail: map<Cell, int>, goal: Cell, a: Cell, b: Cell) {
    || Pheromone(trail, a) < Pheromone(trail, b)
    || (Pheromone(trail, a) == Pheromone(trail, b) && Manhattan(a, goal) > Manhattan(b, goal))
  }

  ghost predicate IsNeighbor(c: Cell, w: int, h: int, n: Cell) {
    || (n == (c.0 - 1, c.1) && c.0 > 0)
    || (n == (c.0 + 1, c.1) && c.0 + 1 < w)
    || (n == (c.0, c.1 - 1) && c.1 > 0)
    || (n == (c.0, c.1 + 1) && c.1 + 1 < h)
  }

  /** The order in which a cell's neighbours are listed: left, right, up, down. */
  function Direction(c: Cell, n: Cell): nat {
    if n.0 < c.0 then 0 else if n.0 > c.0 then 1 else if n.1 < c.1 then 2 else 3
  }

  /** Each neighbour inside the grid once, in a fixed order of directions. */
  method Neighbors(c: Cell, w: int, h: int) returns (out: seq<Cell>)
    ensures forall n :: n in out <==> IsNeighbor(c, w, h, n)
    ensures InDirections(c, out)
  {
    out := [];
    if c.0 > 0 { out := out + [(c.0 - 1, c.1)]; }
    if c.0 + 1 < w { out := out + [(c.0 + 1, c.1)]; }
    if c.1 > 0 { out := out + [(c.0, c.1 - 1)]; }
    if c.1 + 1 < h { out := out + [(c.0, c.1 + 1)]; }
  }

  /** The cells lie in the order of their directions from `c`. */
  predicate InDirections(c: Cell, cells: seq<Cell>) {
    forall i, j :: 0 <= i < j < |cells| ==> Direction(c, cells[i]) < Direction(c, cells[j])
  }

  method Unvisited(cells: seq<Cell>, visited: set<Cell>, ghost c: Cell) returns (out: seq<Cell>)
    requires InDirections(c, cells)
    ensures InDirections(c, out) && forall n :: n in out <==> n in cells && n !in visited
  {
    out := [];
    for i := 0 to |cells|
      invariant forall n :: n in out <==> n in cells[..i] && n !in visited
      invariant InDirections(c, out) && forall n :: n in out && i < |cells| ==> Direction(c, n) < Direction(c, cells[i])
    {
      if cells[i] !in visited { out := out + [cells[i]]; }
    }
    assert cells[..|cells|] == cells;
  }

  method Closer(cells: seq<Cell>, goal: Cell, distance: nat, ghost c: Cell) returns (out: seq<Cell>)
    requires InDirections(c, cells)
    ensures InDirections(c, out) && forall n :: n in out <==> n in cells && Manhattan(n, goal) < distance
  {
    out := [];
    for i := 0 to |cells|
      invariant forall n :: n in out <==> n in cells[..i] && Manhattan(n, goal) < distance
      invariant InDirections(c, out) && forall n :: n in out && i < |cells| ==> Direction(c, n) < Direction(c, cells[i])
    {
      if Manhattan(cells[i], goal) < distance { out := out + [cells[i]]; }
    }
    assert cells[..|cells|] == cells;
  }

  /** `max` with a key: the first cell of the highest score. */
  method Best(cells: seq<Cell>, goal: Cell, trail: map<Cell, int>) returns (best: Cell)
    requires cells != []
    ensures best in cells && forall n :: n in cells ==> !ScoreLess(trail, goal, best, n)
    ensures exists k :: FirstBest(cells, k, best, goal, trail)
  {
    best := cells[0];
    ghost var k := 0;
    for i := 1 to |cells|
      invariant k < i && FirstBest(cells, k, best, goal, trail)
      invariant forall j :: 0 <= j < i ==> !ScoreLess(trail, goal, best, cells[j])
    {
      if ScoreLess(trail, goal, best, cells[i]) { best, k := cells[i], i; }
    }
  }

  /** The k-th cell, and every cell before it scores less. */
  ghost predicate FirstBest(cells: seq<Cell>, k: int, best: Cell, goal: Cell, trail: map<Cell, int>) {
    0 <= k < |cells| && cells[k] == best && forall j :: 0 <= j < k ==> ScoreLess(trail, goal, cells[j], best)
  }

  /** One coordinate can be walked from `from` to `to` without leaving `[0, size)` on the way. */
  predicate Attainable(from: int, to: int, size: int) {
    from == to || (to < from && 0 <= to) || (from < to && to < size)
  }

  function StepCap(w: int, h: int): nat {
    if w + h > 0 then 3 * (w + h) else 0
  }

  /** What the caller can check beforehand: exactly then the walk arrives. */
  predicate CanArrive(start: Cell, goal: Cell, w: int, h: int) {
    && Attainable(start.0, goal.0, w)
    && Attainable(start.1, goal.1, h)
    && Manhattan(start, goal) <= StepCap(w, h)
  }

  predicate InGrid(c: Cell, w: int, h: int) {
    0 <= c.0 < w && 0 <= c.1 < h
  }

  /** A step that gains ground and takes the strongest trail among those that do, ties by direction. */
  ghost predicate GreedyStep(c: Cell, n: Cell, goal: Cell, trail: map<Cell, int>, w: int, h: int) {
    && IsNeighbor(c, w, h, n)
    && Manhattan(n, goal) + 1 == Manhattan(c, goal)
    && forall m :: IsNeighbor(c, w, h, m) && Manhattan(m, goal) < Manhattan(c, goal) ==>
         Pheromone(trail, m) <= Pheromone(trail, n) &&
         (Pheromone(trail, m) == Pheromone(trail, n) ==> Direction(c, n) <= Direction(c, m))
  }

  /** The number of cells visited is one more than the distance covered so far. */
  ghost predicate ShortestSoFar(path: seq<Cell>, start: Cell, goal: Cell, trail: map<Cell, int>, w: int, h: int) {
    && |path| > 0
    && path[0] == start
    && (forall i :: 0 <= i < |path| ==> Manhattan(path[i], goal) + i == Manhattan(start, goal))
    && (forall i :: 0 <= i < |path| - 1 ==> GreedyStep(path[i], path[i + 1], goal, trail, w, h))
  }

  /** While the walk can still arrive, some neighbour is closer to the goal. */
  lemma SomeNeighborGains(c: Cell, goal: Cell, w: int, h: int) returns (n: Cell)
    requires c != goal && Attainable(c.0, goal.0, w) && Attainable(c.1, goal.1, h)
    ensures IsNeighbor(c, w, h, n) && Manhattan(n, goal) + 1 == Manhattan(c, goal)
  {
    if c.0 != goal.0 {
      n := if goal.0 < c.0 then (c.0 - 1, c.1) else (c.0 + 1, c.1);
    } else {
      n := if goal.1 < c.1 then (c.0, c.1 - 1) else (c.0, c.1 + 1);
    }
  }

  /** An unattainable coordinate stays off the goal whatever step is taken. */
  lemma UnattainableStays(c: Cell, n: Cell, goal: Cell, w: int, h: int)
    requires IsNeighbor(c, w, h, n)
    ensures !Attainable(c.0, goal.0, w) ==> !Attainable(n.0, goal.0, w)
    ensures !Attainable(c.1, goal.1, h) ==> !Attainable(n.1, goal.1, h)
    ensures Manhattan(n, goal) + 1 >= Manhattan(c, goal)
  {
  }

  /** A neighbour that was not visited, as long as there is one. */
  ghost predicate IsCandidate(c: Cell, n: Cell, visited: set<Cell>, w: int, h: int) {
    IsNeighbor(c, w, h, n) && (n !in visited || forall m :: IsNeighbor(c, w, h, m) ==> m in visited)
  }

  /** A candidate that gains ground, as long as there is one. */
  ghost predicate IsEligible(c: Cell, n: Cell, visited: set<Cell>, goal: Cell, w: int, h: int) {
    && IsCandidate(c, n, visited, w, h)
    && (Manhattan(n, goal) < Manhattan(c, goal) ||
        forall m :: IsCandidate(c, m, visited, w, h) ==> Manhattan(m, goal) >= Manhattan(c, goal))
  }

  /** More pheromone, or as much and nearer to the goal, or both alike and listed no later. */
  predicate Preferred(c: Cell, n: Cell, m: Cell, goal: Cell, trail: map<Cell, int>) {
    || Pheromone(trail, n) > Pheromone(trail, m)
    || (Pheromone(trail, n) == Pheromone(trail, m) && Manhattan(n, goal) < Manhattan(m, goal))
    || (Pheromone(trail, n) == Pheromone(trail, m) && Manhattan(n, goal) == Manhattan(m, goal) && Direction(c, n) <= Direction(c, m))
  }

  ghost predicate Chosen(c: Cell, n: Cell, visited: set<Cell>, goal: Cell, trail: map<Cell, int>, w: int, h: int) {
    IsEligible(c, n, visited, goal, w, h) && forall m :: IsEligible(c, m, visited, goal, w, h) ==> Preferred(c, n, m, goal, trail)
  }

  lemma BestIsChosen(cells: seq<Cell>, c: Cell, best: Cell, goal: Cell, trail: map<Cell, int>)
    requires InDirections(c, cells) && (forall n :: n in cells ==> !ScoreLess(trail, goal, best, n))
    requires exists k :: FirstBest(cells, k, best, goal, trail)
    ensures best in cells && forall m :: m in cells ==> Preferred(c, best, m, goal, trail)
  {
    var k :| FirstBest(cells, k, best, goal, trail);
    forall m | m in cells ensures Preferred(c, best, m, goal, trail) {
      var i :| 0 <= i < |cells| && cells[i] == m;
    }
  }

  /** Laying no pheromone on a cell without any changes no preference. */
  lemma NoneIsZero(c: Cell, n: Cell, m: Cell, goal: Cell, trail: map<Cell, int>, x: Cell)
    requires x !in trail
    ensures Preferred(c, n, m, goal, trail[x := 0]) <==> Preferred(c, n, m, goal, trail)
    ensures forall y :: y in trail ==> Pheromone(trail, y) == trail[y]
  {
    assert Pheromone(trail[x := 0], n) == Pheromone(trail, n) && Pheromone(trail[x := 0], m) == Pheromone(trail, m);
  }

  /** The eligible cells, in the order of their directions. */
  method Eligible(current: Cell, visited: set<Cell>, goal: Cell, w: int, h: int) returns (cells: seq<Cell>)
    ensures InDirections(current, cells) && forall n :: n in cells <==> IsEligible(current, n, visited, goal, w, h)
    ensures cells == [] <==> forall n :: !IsNeighbor(current, w, h, n)
  {
    var around := Neighbors(current, w, h);
    var candidates := Unvisited(around, visited, current);
    assert candidates != [] ==> candidates[0] in candidates;
    assert candidates == [] ==> forall n :: n in around ==> n in visited;
    if candidates == [] { candidates := around; }
    assert forall n :: n in candidates <==> IsCandidate(current, n, visited, w, h);
    assert candidates == [] ==> forall n :: n !in around;
    cells := Closer(candidates, goal, Manhattan(current, goal), current);
    assert cells != [] ==> cells[0] in cells;
    assert cells == [] ==> forall n :: n in candidates ==> Manhattan(n, goal) >= Manhattan(current, goal);
    if cells == [] { cells := candidates; }
    assert cells != [] ==> cells[0] in cells && IsNeighbor(current, w, h, cells[0]);
    assert cells == [] ==> forall n :: IsNeighbor(current, w, h, n) ==> n in around;
  }

  /** As long as no visited cell is nearer to an attainable goal, the choice gains ground. */
  lemma ChoiceGains(c: Cell, n: Cell, visited: set<Cell>, goal: Cell, trail: map<Cell, int>, w: int, h: int)
    requires c != goal && Chosen(c, n, visited, goal, trail, w, h)
    requires Attainable(c.0, goal.0, w) && Attainable(c.1, goal.1, h)
    requires forall v :: v in visited ==> Manhattan(v, goal) >= Manhattan(c, goal)
    ensures GreedyStep(c, n, goal, trail, w, h)
  {
    var gain := SomeNeighborGains(c, goal, w, h);
    assert IsEligible(c, gain, visited, goal, w, h);
    forall m | IsNeighbor(c, w, h, m) && Manhattan(m, goal) < Manhattan(c, goal)
      ensures Pheromone(trail, m) <= Pheromone(trail, n)
      ensures Pheromone(trail, m) == Pheromone(trail, n) ==> Direction(c, n) <= Direction(c, m)
    {
      assert IsEligible(c, m, visited, goal, w, h);
    }
  }

  /** The choice of the next cell; there is none exactly when the cell has no neighbour at all. */
  method NextCell(current: Cell, visited: set<Cell>, goal: Cell, trail: map<Cell, int>, w: int, h: int)
    returns (next: Option<Cell>)
    requires current != goal
    ensures next.None? <==> forall n :: !IsNeighbor(current, w, h, n)
    ensures next.Some? ==> Chosen(current, next.value, visited, goal, trail, w, h)
    ensures Attainable(current.0, goal.0, w) && Attainable(current.1, goal.1, h) &&
            (forall v :: v in visited ==> Manhattan(v, goal) >= Manhattan(current, goal)) ==>
              next.Some? && GreedyStep(current, next.value, goal, trail, w, h)
  {
    var cells := Eligible(current, visited, goal, w, h);
    if cells == [] {
      if Attainable(current.0, goal.0, w) && Attainable(current.1, goal.1, h) {
        ghost var gain := SomeNeighborGains(current, goal, w, h);
      }
      return None;
    }
    var best := Best(cells, goal, trail);
    next := Some(best);
    BestIsChosen(cells, current, best, goal, trail);
    if Attainable(current.0, goal.0, w) && Attainable(current.1, goal.1, h) &&
       (forall v :: v in visited ==> Manhattan(v, goal) >= Manhattan(current, goal))
    {
      ChoiceGains(current, best, visited, goal, trail, w, h);
    }
  }

  lemma ShortestStep(path: seq<Cell>, next: Cell, start: Cell, goal: Cell, trail: map<Cell, int>, w: int, h: int)
    requires ShortestSoFar(path, start, goal, trail, w, h)
    requires GreedyStep(path[|path| - 1], next, goal, trail, w, h)
    ensures ShortestSoFar(path + [next], start, goal, trail, w, h)
    ensures Attainable(path[|path| - 1].0, goal.0, w) ==> Attainable(next.0, goal.0, w)
    ensures Attainable(path[|path| - 1].1, goal.1, h) ==> Attainable(next.1, goal.1, h)
  {
  }

  function Seen(path: seq<Cell>, i: nat): set<Cell>
    requires i < |path|
  {
    set j | 0 <= j <= i :: path[j]
  }

  /** Every step leaves a cell that is not the goal for the one chosen there, with all cells so far as visited. */
  ghost predicate Walked(path: seq<Cell>, goal: Cell, trail: map<Cell, int>, w: int, h: int) {
    forall i :: 0 <= i < |path| - 1 ==> ChosenAt(path, i, goal, trail, w, h)
  }

  ghost predicate ChosenAt(path: seq<Cell>, i: nat, goal: Cell, trail: map<Cell, int>, w: int, h: int)
    requires i + 1 < |path|
  {
    path[i] != goal && Chosen(path[i], path[i + 1], Seen(path, i), goal, trail, w, h)
  }

  /** A cell without neighbours. */
  ghost predicate Alone(c: Cell, w: int, h: int) {
    forall n :: !IsNeighbor(c, w, h, n)
  }

  lemma WalkedOn(path: seq<Cell>, next: Cell, goal: Cell, trail: map<Cell, int>, w: int, h: int)
    requires path != [] && Walked(path, goal, trail, w, h) && path[|path| - 1] != goal
    requires Chosen(path[|path| - 1], next, Seen(path, |path| - 1), goal, trail, w, h)
    ensures Walked(path + [next], goal, trail, w, h) && Seen(path + [next], |path|) == Seen(path, |path| - 1) + {next}
  {
    var more := path + [next];
    forall i | 0 <= i < |path| ensures more[i] == path[i] && Seen(more, i) == Seen(path, i) {
      assert forall j :: 0 <= j <= i ==> more[j] == path[j];
    }
    forall i | 0 <= i < |more| - 1 ensures ChosenAt(more, i, goal, trail, w, h) {
      if i < |path| - 1 { assert ChosenAt(path, i, goal, trail, w, h); }
    }
    SeenMore(path, next);
  }

  lemma SeenMore(path: seq<Cell>, next: Cell)
    requires path != []
    ensures Seen(path + [next], |path|) == Seen(path, |path| - 1) + {next}
  {
    var more := path + [next];
    forall c ensures c in Seen(more, |path|) <==> c in Seen(path, |path| - 1) + {next} {
      if c in Seen(path, |path| - 1) {
        var j :| 0 <= j <= |path| - 1 && path[j] == c;
        assert more[j] == c;
      }
      assert more[|path|] == next;
    }
  }

  /**
   The walk arrives exactly when `CanArrive`, for any trail, start, goal and grid. When it
   does, it made Manhattan-distance steps, every one to a neighbour that gained ground.
   `stuck` is Python's error on the maximum of an empty list.
   */
  method GradientPath(start: Cell, goal: Cell, trail: map<Cell, int>, w: int, h: int)
    returns (path: seq<Cell>, stuck: bool)
    ensures |path| > 0 && path[0] == start && |path| <= StepCap(w, h) + 1
    ensures path[|path| - 1] == goal <==> CanArrive(start, goal, w, h)
    ensures CanArrive(start, goal, w, h) ==>
              && |path| == Manhattan(start, goal) + 1
              && ShortestSoFar(path, start, goal, trail, w, h)
    ensures Walked(path, goal, trail, w, h)
    ensures stuck ==> path[|path| - 1] != goal && Alone(path[|path| - 1], w, h)
    ensures path[|path| - 1] == goal || stuck || |path| == (if w + h > 0 then 3 * (w + h) else 0) + 1
  {
    path, stuck := [start], false;
    var visited := {start};
    var current := start;
    ghost var hopeful := CanArrive(start, goal, w, h);
    for step := 0 to StepCap(w, h)
      invariant |path| == step + 1 && path[0] == start && path[step] == current && !stuck
      invariant visited == Seen(path, step) && Walked(path, goal, trail, w, h)
      invariant hopeful ==> ShortestSoFar(path, start, goal, trail, w, h)
      invariant hopeful ==> Attainable(current.0, goal.0, w) && Attainable(current.1, goal.1, h)
      invariant !Attainable(start.0, goal.0, w) ==> !Attainable(current.0, goal.0, w)
      invariant !Attainable(start.1, goal.1, h) ==> !Attainable(current.1, goal.1, h)
      invariant Manhattan(current, goal) + step >= Manhattan(start, goal)
    {
      if current == goal { break; }
      var next := NextCell(current, visited, goal, trail, w, h);
      if next.None? {
        stuck := true;
        break;
      }
      UnattainableStays(current, next.value, goal, w, h);
      if hopeful { ShortestStep(path, next.value, start, goal, trail, w, h); }
      WalkedOn(path, next.value, goal, trail, w, h);
      path := path + [next.value];
      visited := visited + {next.value};
      current := next.value;
    }
  }

  /** Inside the grid the walk always arrives, never repeats a cell and never leaves the grid. */
  lemma InGridWalkIsSimple(path: seq<Cell>, start: Cell, goal: Cell, trail: map<Cell, int>, w: int, h: int)
    requires InGrid(start, w, h) && InGrid(goal, w, h)
    requires ShortestSoFar(path, start, goal, trail, w, h)
    ensures CanArrive(start, goal, w, h)
    ensures forall i, j :: 0 <= i < j < |path| ==> path[i] != path[j]
    ensures forall i :: 0 <= i < |path| ==> InGrid(path[i], w, h)
  {
    forall i | 0 <= i < |path| ensures InGrid(path[i], w, h) {
      StaysInGrid(path, start, goal, trail, w, h, i);
    }
  }

  lemma {:induction false} StaysInGrid(path: seq<Cell>, start: Cell, goal: Cell, trail: map<Cell, int>, w: int, h: int, i: nat)
    requires InGrid(start, w, h) && ShortestSoFar(path, start, goal, trail, w, h) && i < |path|
    ensures InGrid(path[i], w, h)
  {
    if i == 0 {
    } else {
      StaysInGrid(path, start, goal, trail, w, h, i - 1);
      assert GreedyStep(path[i - 1], path[i - 1 + 1], goal, trail, w, h);
    }
  }
}
