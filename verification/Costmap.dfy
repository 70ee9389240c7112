/** Shortest 4-connected paths through a set of open cells: what the costmap check has to answer. */
module GridPaths {
  import opened Wrappers
  import opened Sequences

  datatype Cell = Cell(col: int, row: int)

  predicate Adjacent(c: Cell, d: Cell) {
    (c.row == d.row && (c.col - d.col == 1 || d.col - c.col == 1)) ||
    (c.col == d.col && (c.row - d.row == 1 || d.row - c.row == 1))
  }

  /** `p` steps from `a` to `b` through open cells, both ends included. */
  ghost predicate IsPath(open: set<Cell>, p: seq<Cell>, a: Cell, b: Cell) {
    && |p| > 0 && p[0] == a && p[|p| - 1] == b
    && (forall i :: 0 <= i < |p| ==> p[i] in open)
    && (forall i, j :: 0 <= i && i + 1 == j && j < |p| ==> Adjacent(p[i], p[j]))
  }

  ghost predicate Connected(open: set<Cell>, a: Cell, b: Cell) {
    exists p :: IsPath(open, p, a, b)
  }

  /** The number of cells on a shortest path, None when there is no path. */
  ghost function Distance(open: set<Cell>, a: Cell, b: Cell): (d: Option<nat>)
    ensures d.Some? ==> exists p :: IsPath(open, p, a, b) && |p| == d.value
    ensures d.Some? ==> forall p :: IsPath(open, p, a, b) ==> d.value <= |p|
    ensures d.None? <==> !Connected(open, a, b)
  {
    if Connected(open, a, b) then
      var p :| IsPath(open, p, a, b);
      ShortestExists(open, p, a, b);
      var q :| IsPath(open, q, a, b) && forall r :: IsPath(open, r, a, b) ==> |q| <= |r|;
      Some(|q|)
    else
      None
  }

  lemma {:induction false} ShortestExists(open: set<Cell>, p: seq<Cell>, a: Cell, b: Cell)
    requires IsPath(open, p, a, b)
    ensures exists q :: IsPath(open, q, a, b) && forall r :: IsPath(open, r, a, b) ==> |q| <= |r|
    decreases |p|
  {
    if r :| IsPath(open, r, a, b) && |r| < |p| {
      ShortestExists(open, r, a, b);
    }
  }

  // ---------- laws of the distance ----------

  function Reversed(p: seq<Cell>): (r: seq<Cell>) {
    seq(|p|, i requires 0 <= i < |p| => p[|p| - 1 - i])
  }

  /** Swapping the two ends changes neither reachability nor path length. */
  lemma DistanceSymmetric(open: set<Cell>, a: Cell, b: Cell)
    ensures Distance(open, a, b) == Distance(open, b, a)
  {
    forall p, c, d | IsPath(open, p, c, d) ensures IsPath(open, Reversed(p), d, c) {
      var r := Reversed(p);
      forall i, j | 0 <= i && i + 1 == j && j < |r| ensures Adjacent(r[i], r[j]) {
        assert Adjacent(p[|p| - 1 - j], p[|p| - 1 - i]);
      }
    }
    if p :| IsPath(open, p, a, b) && Distance(open, a, b) == Some(|p|) {
      assert IsPath(open, Reversed(p), b, a);
    }
    if p :| IsPath(open, p, b, a) && Distance(open, b, a) == Some(|p|) {
      assert IsPath(open, Reversed(p), a, b);
    }
  }

  /** Opening more cells never loses reachability and never lengthens the path. */
  lemma DistanceMonotone(open: set<Cell>, wider: set<Cell>, a: Cell, b: Cell)
    requires open <= wider
    ensures Distance(open, a, b).Some? ==>
              Distance(wider, a, b).Some? && Distance(wider, a, b).value <= Distance(open, a, b).value
  {
    if p :| IsPath(open, p, a, b) && Distance(open, a, b) == Some(|p|) {
      assert IsPath(wider, p, a, b);
    }
  }

  /** Going through an intermediate cell counts that cell once. */
  lemma DistanceTriangle(open: set<Cell>, a: Cell, b: Cell, c: Cell)
    requires Distance(open, a, b).Some? && Distance(open, b, c).Some?
    ensures Distance(open, a, c).Some?
    ensures Distance(open, a, c).value <= Distance(open, a, b).value + Distance(open, b, c).value - 1
  {
    var p :| IsPath(open, p, a, b) && |p| == Distance(open, a, b).value;
    var q :| IsPath(open, q, b, c) && |q| == Distance(open, b, c).value;
    assert IsPath(open, p + q[1..], a, c);
  }

  /** A shortest path visits no cell twice, so its length is at most the number of open cells. */
  lemma DistanceBounded(open: set<Cell>, a: Cell, b: Cell)
    requires Distance(open, a, b).Some?
    ensures Distance(open, a, b).value <= |open|
  {
    var p :| IsPath(open, p, a, b) && |p| == Distance(open, a, b).value;
    forall i, j | 0 <= i < j < |p| ensures p[i] != p[j] {
      if p[i] == p[j] {
        assert IsPath(open, p[..i] + p[j..], a, b);
      }
    }
    DistinctBound(p, Itself(), open);
  }

  // ---------- what a breadth-first search knows ----------

  ghost predicate Waiting(c: Cell, pending: seq<(Cell, nat)>) {
    exists i :: 0 <= i < |pending| && pending[i].0 == c
  }

  /** The search invariant. `pending` is the queue, preceded by the cell being expanded if there is one;
      `path` records, for every open cell already seen, the path on which it was found. */
  ghost predicate Frontier(open: set<Cell>, start: Cell, goal: Cell, seen: set<Cell>,
                           path: map<Cell, seq<Cell>>, pending: seq<(Cell, nat)>)
  {
    && start in path && |path[start]| == 1 && goal !in path
    && (forall c :: c in path <==> c in seen && c in open)
    && (forall c :: c in path ==> IsPath(open, path[c], start, c))
    && (forall i :: 0 <= i < |pending| ==> pending[i].0 in path && |path[pending[i].0]| == pending[i].1)
    && (forall i, j :: 0 <= i < j < |pending| ==> pending[i].1 <= pending[j].1)
    && (|pending| > 0 ==> forall c :: c in path ==> |path[c]| <= pending[0].1 + 1)
    && (forall c, d :: c in path && !Waiting(c, pending) && Adjacent(c, d) && d in open ==>
          d in path && |path[d]| <= |path[c]| + 1)
  }

  lemma StartFrontier(open: set<Cell>, start: Cell, goal: Cell)
    requires start in open && start != goal
    ensures Frontier(open, start, goal, {start}, map[start := [start]], [(start, 1)])
  {
    assert [(start, 1)][0].0 == start;
  }

  /** Every path from the start is matched in length at its end, or passes through a waiting cell. */
  lemma {:induction false} PathMeetsFrontier(open: set<Cell>, start: Cell, goal: Cell, seen: set<Cell>,
                                             path: map<Cell, seq<Cell>>, pending: seq<(Cell, nat)>,
                                             p: seq<Cell>, e: Cell)
    returns (i: nat)
    requires Frontier(open, start, goal, seen, path, pending)
    requires IsPath(open, p, start, e)
    ensures i < |p| && p[i] in path && |path[p[i]]| <= i + 1
    ensures Waiting(p[i], pending) || i == |p| - 1
  {
    if |p| == 1 {
      i := 0;
    } else {
      var q, f := p[..|p| - 1], p[|p| - 2];
      assert IsPath(open, q, start, f);
      i := PathMeetsFrontier(open, start, goal, seen, path, pending, q, f);
      if !Waiting(p[i], pending) {
        assert Adjacent(p[i], p[i + 1]);
        i := i + 1;
      }
    }
  }

  /** Seeing a neighbour of the cell `u` under expansion keeps the invariant: a blocked one is only
      marked, an open one joins the queue one step further out. */
  lemma Discover(open: set<Cell>, start: Cell, goal: Cell, seen: set<Cell>, path: map<Cell, seq<Cell>>,
                 u: Cell, n: nat, queue: seq<(Cell, nat)>, d: Cell)
    requires Frontier(open, start, goal, seen, path, [(u, n)] + queue)
    requires d !in seen && Adjacent(u, d)
    ensures u in path
    ensures d !in open ==> Frontier(open, start, goal, seen + {d}, path, [(u, n)] + queue)
    ensures d in open && d != goal ==>
              Frontier(open, start, goal, seen + {d}, path[d := path[u] + [d]], [(u, n)] + (queue + [(d, n + 1)]))
  {
    var pending := [(u, n)] + queue;
    assert pending[0] == (u, n);
    if d in open && d != goal {
      var path' := path[d := path[u] + [d]];
      var pending' := [(u, n)] + (queue + [(d, n + 1)]);
      assert pending' == pending + [(d, n + 1)];
      assert pending'[|pending|].0 == d;
      forall c | Waiting(c, pending) ensures Waiting(c, pending') {
        var i :| 0 <= i < |pending| && pending[i].0 == c;
        assert pending'[i].0 == c;
      }
      assert IsPath(open, path'[d], start, d);
      assert d !in path;
    }
  }

  /** Once every open neighbour of the cell under expansion has been seen, that cell is settled. */
  lemma Settle(open: set<Cell>, start: Cell, goal: Cell, seen: set<Cell>, path: map<Cell, seq<Cell>>,
               u: Cell, n: nat, queue: seq<(Cell, nat)>)
    requires Frontier(open, start, goal, seen, path, [(u, n)] + queue)
    requires forall d :: Adjacent(u, d) && d in open ==> d in seen
    ensures Frontier(open, start, goal, seen, path, queue)
  {
    var pending := [(u, n)] + queue;
    assert pending[0] == (u, n);
    assert forall i :: 0 <= i < |queue| ==> queue[i] == pending[i + 1];
    assert forall i :: 1 <= i < |pending| ==> pending[i] == queue[i - 1];
  }

  /** A goal first seen beside the cell under expansion is one step further than that cell. */
  lemma GoalFound(open: set<Cell>, start: Cell, goal: Cell, seen: set<Cell>, path: map<Cell, seq<Cell>>,
                  u: Cell, n: nat, queue: seq<(Cell, nat)>)
    requires Frontier(open, start, goal, seen, path, [(u, n)] + queue)
    requires goal in open && Adjacent(u, goal)
    ensures Distance(open, start, goal) == Some(n + 1)
  {
    var pending := [(u, n)] + queue;
    assert pending[0] == (u, n);
    assert IsPath(open, path[u] + [goal], start, goal);
    forall p | IsPath(open, p, start, goal) ensures n + 1 <= |p| {
      var i := PathMeetsFrontier(open, start, goal, seen, path, pending, p, goal);
      var k :| 0 <= k < |pending| && pending[k].0 == p[i];
      assert pending[0].1 <= pending[k].1;
    }
  }

  /** An empty queue means that the goal cannot be reached. */
  lemma NoPathLeft(open: set<Cell>, start: Cell, goal: Cell, seen: set<Cell>, path: map<Cell, seq<Cell>>)
    requires Frontier(open, start, goal, seen, path, [])
    ensures Distance(open, start, goal) == None
  {
    if p :| IsPath(open, p, start, goal) {
      var i := PathMeetsFrontier(open, start, goal, seen, path, [], p, goal);
    }
  }
}

/** The costmap connectivity check of omninav_nav2/adapter.py (GridCostmapChecker). */
module Costmap {
  import opened Wrappers
  import opened GridPaths

  datatype Point = Point(x: real, y: real)

  datatype Grid = Grid(width: int, height: int, resolution: real, originX: real, originY: real,
                       data: seq<int>, lethalCost: int, allowUnknown: bool)
  {
    /** What the constructor of the checker insists on. */
    predicate Valid() {
      width > 0 && height > 0 && resolution > 0.0 && |data| == width * height
    }

    predicate Inside(c: Cell) {
      0 <= c.col < width && 0 <= c.row < height
    }

    /** The cell under a map point, or None when the point is off the grid. */
    function CellOf(p: Point): Option<Cell>
      requires Valid()
    {
      var c := Cell(((p.x - originX) / resolution).Floor, ((p.y - originY) / resolution).Floor);
      if Inside(c) then Some(c) else None
    }

    function Cost(c: Cell): int
      requires Valid() && Inside(c)
    {
      RowMajorInRange(width, height, c);
      data[c.row * width + c.col]
    }

    predicate Traversable(c: Cell)
      requires Valid() && Inside(c)
    {
      (Cost(c) < 0 && allowUnknown) || 0 <= Cost(c) < lethalCost
    }

    ghost function Cells(): (all: set<Cell>)
      ensures forall c :: c in all <==> Inside(c)
    {
      set x, y | 0 <= x < width && 0 <= y < height :: Cell(x, y)
    }

    /** The cells that a path may use. */
    ghost function OpenCells(): (open: set<Cell>)
      requires Valid()
      ensures forall c :: c in open <==> Inside(c) && Traversable(c)
    {
      set c | c in Cells() && Traversable(c)
    }
  }

  lemma RowMajorInRange(width: int, height: int, c: Cell)
    requires 0 <= c.col < width && 0 <= c.row < height
    ensures 0 <= c.row * width + c.col < width * height
  {
    assert c.row * width <= (height - 1) * width;
  }

  // ---------- points, cells and costs ----------

  /** The point lies in the square that the cell covers, lower edges included. */
  ghost predicate InSquare(g: Grid, c: Cell, p: Point) {
    && g.originX + c.col as real * g.resolution <= p.x < g.originX + (c.col + 1) as real * g.resolution
    && g.originY + c.row as real * g.resolution <= p.y < g.originY + (c.row + 1) as real * g.resolution
  }

  /** The cell of the grid that covers the point. */
  ghost predicate Under(g: Grid, c: Cell, p: Point) { g.Inside(c) && InSquare(g, c, p) }

  lemma FloorExactly(d: real, size: real, k: int)
    requires size > 0.0
    ensures (d / size).Floor == k <==> k as real * size <= d < (k + 1) as real * size
  {
    ScaleExactly(k as real, d / size, d, size);
    ScaleExactly((k + 1) as real, d / size, d, size);
    assert (d / size).Floor == k <==> k as real <= d / size < (k + 1) as real;
  }

  lemma ScaleExactly(x: real, q: real, d: real, size: real)
    requires size > 0.0 && q == d / size
    ensures x <= q <==> x * size <= d
  {
    assert d == q * size;
    if x <= q { ScaleUp(x, q, size); } else { ScaleUpStrictly(q, x, size); }
  }

  lemma ScaleUp(x: real, y: real, size: real)
    requires x <= y && size > 0.0
    ensures x * size <= y * size
  {
  }

  lemma ScaleUpStrictly(x: real, y: real, size: real)
    requires x < y && size > 0.0
    ensures x * size < y * size
  {
  }

  lemma AxisExactly(p: real, origin: real, size: real, k: int)
    requires size > 0.0
    ensures ((p - origin) / size).Floor == k <==> origin + k as real * size <= p < origin + (k + 1) as real * size
  {
    FloorExactly(p - origin, size, k);
  }

  /** The cell of a point is the one cell of the grid whose square has the point in it, if there is one. */
  lemma CellOfExactly(g: Grid, p: Point)
    requires g.Valid()
    ensures g.CellOf(p).Some? ==> Under(g, g.CellOf(p).value, p)
    ensures g.CellOf(p).None? ==> forall c :: !Under(g, c, p)
    ensures forall c :: Under(g, c, p) ==> g.CellOf(p) == Some(c)
  {
    hide InSquare;
    forall c: Cell { SquareExactly(g, c, p); }
  }

  lemma SquareExactly(g: Grid, c: Cell, p: Point)
    requires g.Valid()
    ensures InSquare(g, c, p) <==>
              c == Cell(((p.x - g.originX) / g.resolution).Floor, ((p.y - g.originY) / g.resolution).Floor)
  {
    AxisExactly(p.x, g.originX, g.resolution, c.col);
    AxisExactly(p.y, g.originY, g.resolution, c.row);
  }

  /** The data lists the costs row by row. */
  lemma CostsRowByRow(g: Grid, k: nat)
    requires g.Valid() && k < |g.data|
    ensures g.Inside(Cell(k % g.width, k / g.width)) && g.Cost(Cell(k % g.width, k / g.width)) == g.data[k]
  {
    RowInRange(k, g.width, g.height);
  }

  lemma RowInRange(k: nat, width: int, height: int)
    requires width > 0 && k < width * height
    ensures k / width < height && k == (k / width) * width + k % width
  {
    assert !(k / width >= height) by {
      if k / width >= height { ScaleRows(height, k / width, width); }
    }
  }

  lemma ScaleRows(a: int, b: int, width: int)
    requires a <= b && width > 0
    ensures a * width <= b * width
  {
  }

  /** An unknown cell can be used if that is allowed, a known one below the lethal cost. */
  ghost predicate Usable(g: Grid, cost: int) { if cost < 0 then g.allowUnknown else cost < g.lethalCost }

  datatype Reason =
    | Reachable | StartOutOfCostmap | GoalOutOfCostmap | GoalUnknown | GoalLethal
    | StartNotTraversable | NoCostmapPath

  datatype CostmapCheck = CostmapCheck(reason: Reason, cellCost: Option<int>, pathCells: Option<nat>) {
    predicate IsReachable() { reason.Reachable? }
  }

  /** What a check must answer, in terms of shortest paths and not of the search. */
  ghost function CheckSpec(g: Grid, start: Point, goal: Point): (r: CostmapCheck)
    requires g.Valid()
  {
    var a, b := g.CellOf(start), g.CellOf(goal);
    if a.None? then CostmapCheck(StartOutOfCostmap, None, None)
    else if b.None? then CostmapCheck(GoalOutOfCostmap, None, None)
    else if !g.Traversable(b.value) then
      CostmapCheck(if g.Cost(b.value) < 0 then GoalUnknown else GoalLethal, Some(g.Cost(b.value)), None)
    else if !g.Traversable(a.value) then
      CostmapCheck(StartNotTraversable, Some(g.Cost(a.value)), None)
    else match Distance(g.OpenCells(), a.value, b.value)
      case Some(n) => CostmapCheck(Reachable, Some(g.Cost(b.value)), Some(n))
      case None => CostmapCheck(NoCostmapPath, Some(g.Cost(b.value)), None)
  }

  /** What each answer says about the two points, the costs under them and the paths between them. */
  lemma VerdictExactly(g: Grid, start: Point, goal: Point)
    requires g.Valid()
    ensures var r := CheckSpec(g, start, goal);
            && (r.reason.StartOutOfCostmap? <==> forall c :: !Under(g, c, start))
            && (r.reason.GoalOutOfCostmap? <==> (exists c :: Under(g, c, start)) && forall c :: !Under(g, c, goal))
            && forall a, b :: Under(g, a, start) && Under(g, b, goal) ==>
                 var near, far := g.Cost(a), g.Cost(b);
                 && (r.reason.GoalUnknown? <==> far < 0 && !g.allowUnknown)
                 && (r.reason.GoalLethal? <==> far >= 0 && far >= g.lethalCost)
                 && (r.reason.StartNotTraversable? <==> Usable(g, far) && !Usable(g, near))
                 && (r.reason.Reachable? ==> Connected(g.OpenCells(), a, b))
                 && (r.reason.NoCostmapPath? <==> Usable(g, far) && Usable(g, near) && !Connected(g.OpenCells(), a, b))
                 && r.cellCost == Some(if r.reason.StartNotTraversable? then near else far)
                 && r.pathCells == if r.reason.Reachable? then Distance(g.OpenCells(), a, b) else None
    ensures forall c :: c in g.OpenCells() <==> g.Inside(c) && Usable(g, g.Cost(c))
  {
    CellOfExactly(g, start);
    CellOfExactly(g, goal);
  }

  /** A check is positive exactly when both points are on the grid and their cells are connected. */
  lemma ReachableExactly(g: Grid, start: Point, goal: Point)
    requires g.Valid()
    ensures CheckSpec(g, start, goal).IsReachable() <==>
              g.CellOf(start).Some? && g.CellOf(goal).Some? &&
              Connected(g.OpenCells(), g.CellOf(start).value, g.CellOf(goal).value)
  {
    if g.CellOf(start).Some? && g.CellOf(goal).Some? {
      var a, b := g.CellOf(start).value, g.CellOf(goal).value;
      if p :| IsPath(g.OpenCells(), p, a, b) {
        assert a in g.OpenCells() && b in g.OpenCells();
      }
    }
  }

  /** Swapping start and goal keeps the verdict and the path length. */
  lemma CheckSymmetric(g: Grid, start: Point, goal: Point)
    requires g.Valid()
    ensures CheckSpec(g, start, goal).IsReachable() == CheckSpec(g, goal, start).IsReachable()
    ensures CheckSpec(g, start, goal).pathCells == CheckSpec(g, goal, start).pathCells
  {
    if g.CellOf(start).Some? && g.CellOf(goal).Some? {
      DistanceSymmetric(g.OpenCells(), g.CellOf(start).value, g.CellOf(goal).value);
    }
  }

  /** `h` is at least as permissive as `g`: every value that `g` lets through did not rise, if it was a known
      cost, or is still unknown or a known cost below the threshold, if it was unknown. The threshold is not
      lower, and unknown cells are allowed whenever `g` allows them. Values that `g` blocks may be anything. */
  predicate AtLeastAsPermissive(g: Grid, h: Grid)
    requires g.Valid() && h.Valid()
  {
    && h == g.(data := h.data, lethalCost := h.lethalCost, allowUnknown := h.allowUnknown)
    && (g.allowUnknown ==> h.allowUnknown) && g.lethalCost <= h.lethalCost
    && forall i :: 0 <= i < |g.data| ==>
         (0 <= g.data[i] < g.lethalCost ==> 0 <= h.data[i] <= g.data[i])
         && (g.data[i] < 0 && g.allowUnknown ==> h.data[i] < 0 || h.data[i] < h.lethalCost)
  }

  /** A more permissive grid never loses reachability or lengthens a path. */
  lemma CheckMonotone(g: Grid, h: Grid, start: Point, goal: Point)
    requires g.Valid() && h.Valid() && AtLeastAsPermissive(g, h)
    requires CheckSpec(g, start, goal).IsReachable()
    ensures CheckSpec(h, start, goal).IsReachable()
    ensures CheckSpec(h, start, goal).pathCells.value <= CheckSpec(g, start, goal).pathCells.value
  {
    forall c | c in g.OpenCells() ensures c in h.OpenCells() {
      RowMajorInRange(g.width, g.height, c);
    }
    DistanceMonotone(g.OpenCells(), h.OpenCells(), g.CellOf(start).value, g.CellOf(goal).value);
  }

  // ---------- the search itself ----------

  /** The four neighbours, in the order in which the search tries them. */
  function Neighbours(c: Cell): (around: seq<Cell>)
    ensures forall d :: d in around <==> Adjacent(c, d)
    ensures |around| == 4
  {
    [Cell(c.col - 1, c.row), Cell(c.col + 1, c.row), Cell(c.col, c.row - 1), Cell(c.col, c.row + 1)]
  }

  /** The breadth-first loop of the check: the exact distance between two different open cells. It ends
      because every turn either sees a new cell or shortens the queue. */
  method Search(g: Grid, a: Cell, b: Cell) returns (cells: Option<nat>)
    requires g.Valid() && a in g.OpenCells() && b in g.OpenCells() && a != b
    ensures cells == Distance(g.OpenCells(), a, b)
  {
    var queue: seq<(Cell, nat)> := [(a, 1)];
    var seen := {a};
    ghost var open, unseen, path := g.OpenCells(), g.Cells() - {a}, map[a := [a]];
    hide Frontier, IsPath, Grid.Cells, Grid.OpenCells;
    StartFrontier(open, a, b);
    while queue != []
      invariant Frontier(open, a, b, seen, path, queue)
      invariant forall c :: g.Inside(c) && c !in seen ==> c in unseen
      decreases unseen, |queue|
    {
      var u, distance := queue[0].0, queue[0].1;
      ghost var rest, before := queue[1..], unseen;
      assert queue == [(u, distance)] + rest;
      queue := queue[1..];
      var around := Neighbours(u);
      for k := 0 to 4
        invariant Frontier(open, a, b, seen, path, [(u, distance)] + queue)
        invariant forall d :: d in around[..k] && g.Inside(d) ==> d in seen
        invariant forall c :: g.Inside(c) && c !in seen ==> c in unseen
        invariant if unseen == before then queue == rest else unseen < before
      {
        var candidate := around[k];
        assert around[..k + 1] == around[..k] + [candidate];
        if candidate in seen || !g.Inside(candidate) { continue; }
        Discover(open, a, b, seen, path, u, distance, queue, candidate);
        if g.Traversable(candidate) {
          if candidate == b {
            GoalFound(open, a, b, seen, path, u, distance, queue);
            return Some(distance + 1);
          }
          path := path[candidate := path[u] + [candidate]];
          queue := queue + [(candidate, distance + 1)];
        }
        seen := seen + {candidate};
        unseen := unseen - {candidate};
      }
      assert around[..4] == around;
      Settle(open, a, b, seen, path, u, distance, queue);
    }
    NoPathLeft(open, a, b, seen, path);
    return None;
  }

  method Check(g: Grid, start: Point, goal: Point) returns (r: CostmapCheck)
    requires g.Valid()
    ensures r == CheckSpec(g, start, goal)
  {
    var startCell, goalCell := g.CellOf(start), g.CellOf(goal);
    if startCell.None? { return CostmapCheck(StartOutOfCostmap, None, None); }
    if goalCell.None? { return CostmapCheck(GoalOutOfCostmap, None, None); }
    var a, b := startCell.value, goalCell.value;
    var goalCost := g.Cost(b);
    if !g.Traversable(b) {
      return CostmapCheck(if goalCost < 0 then GoalUnknown else GoalLethal, Some(goalCost), None);
    }
    if !g.Traversable(a) {
      return CostmapCheck(StartNotTraversable, Some(g.Cost(a)), None);
    }
    if a == b {
      assert IsPath(g.OpenCells(), [a], a, a);
      return CostmapCheck(Reachable, Some(goalCost), Some(1));
    }
    var cells := Search(g, a, b);
    match cells {
      case Some(n) => return CostmapCheck(Reachable, Some(goalCost), Some(n));
      case None => return CostmapCheck(NoCostmapPath, Some(goalCost), None);
    }
  }
}
