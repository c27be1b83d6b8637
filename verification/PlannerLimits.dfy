/** Which goals the planner finds on a grid without obstacles, started in the corner. */
module PlannerLimits {
  import opened Planner

  function Corner(): GridPos {
    GridPos(0, 0, 0)
  }

  /** The free cells of a grid without obstacles. */
  ghost function EmptyGrid(): iset<GridPos> {
    iset p: GridPos | InGrid(p)
  }

  /** Steps from the origin. */
  function Steps(v: GridPos): int {
    v.x + v.y + v.z
  }

  /** The cells within reach: all of the shells up to 51 and, of shell 52, those that the order of the table puts first. */
  predicate Near(v: GridPos) {
    InGrid(v) && (Steps(v) <= 51 || (Steps(v) == 52 && v.x >= 13))
  }

  // ----- Routes on the empty grid -----

  /** Directions 0, 2 and 4 lead one step out, the others one step back; only the first two move along x. */
  lemma StepOut(p: GridPos, n: dir)
    ensures Steps(Neighbour(p, n)) == Steps(p) + if n == 0 || n == 2 || n == 4 then 1 else -1
    ensures Neighbour(p, n).x == p.x + if n == 0 then 1 else if n == 1 then -1 else 0
    ensures Neighbour(p, n).y >= p.y - if n == 3 then 1 else 0
    ensures Neighbour(p, n).z >= p.z - if n == 5 then 1 else 0
  {
  }

  lemma {:induction false} NoShortcut(u: seq<dir>)
    ensures Steps(End(Corner(), u)) <= |u|
  {
    if u != [] {
      NoShortcut(u[..|u| - 1]);
      StepOut(End(Corner(), u[..|u| - 1]), u[|u| - 1]);
    }
  }

  /** The last step of the walk along x, then y, then z: where from, and in which direction. */
  function Back(v: GridPos): (GridPos, dir) {
    if v.z > 0 then (v.(z := v.z - 1), 4) else if v.y > 0 then (v.(y := v.y - 1), 2) else (v.(x := v.x - 1), 0)
  }

  lemma BackStep(v: GridPos)
    requires InGrid(v) && Steps(v) > 0
    ensures var (p, n) := Back(v);
            InGrid(p) && Steps(p) == Steps(v) - 1 && Neighbour(p, n) == v && p.x == if v.y == v.z == 0 then v.x - 1 else v.x
  {
  }

  /** `w` is the walk to `v` along x, then y, then z. */
  ghost predicate FirstRoute(v: GridPos, w: seq<dir>) {
    InGrid(v) && |w| == Steps(v) && forall k :: 0 <= k < |w| ==> w[k] == if k < v.x then 0 else if k < v.x + v.y then 2 else 4
  }

  lemma FirstInit(v: GridPos, w: seq<dir>)
    requires FirstRoute(v, w) && w != []
    ensures w[|w| - 1] == Back(v).1 && FirstRoute(Back(v).0, w[..|w| - 1])
  {
  }

  lemma {:induction false} Canonical(free: iset<GridPos>, v: GridPos) returns (w: seq<dir>)
    requires InGrid(v) && forall p :: InGrid(p) ==> p in free
    ensures FirstRoute(v, w) && Route(free, Corner(), v, w)
    decreases Steps(v)
  {
    if Steps(v) == 0 {
      w := [];
    } else {
      var p, n := BackFrom(v);
      var u := Canonical(free, p);
      w := OneMore(free, v, p, n, u);
    }
  }

  lemma BackFrom(v: GridPos) returns (p: GridPos, n: dir)
    requires InGrid(v) && Steps(v) > 0
    ensures InGrid(p) && Steps(p) == Steps(v) - 1 && Back(v) == (p, n)
  {
    p, n := Back(v).0, Back(v).1;
  }

  lemma OneMore(free: iset<GridPos>, v: GridPos, p: GridPos, n: dir, u: seq<dir>) returns (w: seq<dir>)
    requires InGrid(v) && v in free && Steps(v) > 0 && Back(v) == (p, n) && FirstRoute(p, u) && Route(free, Corner(), p, u)
    ensures FirstRoute(v, w) && Route(free, Corner(), v, w)
  {
    BackStep(v);
    ExtendRoute(free, Corner(), p, u, n);
    FirstExtends(v, p, n, u);
    w := u + [n];
  }

  lemma FirstExtends(v: GridPos, p: GridPos, n: dir, u: seq<dir>)
    requires InGrid(v) && Steps(v) > 0 && Back(v) == (p, n) && FirstRoute(p, u)
    ensures FirstRoute(v, u + [n])
  {
  }

  /** As long as its end is far: such a route never turns back. */
  ghost predicate Tight(u: seq<dir>, e: GridPos) {
    End(Corner(), u) == e && Steps(e) == |u|
  }

  lemma TightInit(u: seq<dir>, f: GridPos) returns (e: GridPos)
    requires u != [] && Tight(u, f)
    ensures Tight(u[..|u| - 1], e) && e.x <= f.x && (u[|u| - 1] == 0 <==> e.x == f.x - 1) && e.y <= f.y && e.z <= f.z
  {
    e := End(Corner(), u[..|u| - 1]);
    NoShortcut(u[..|u| - 1]);
    StepOut(e, u[|u| - 1]);
  }

  predicate Inside(p: GridPos) {
    p.x >= 0 && p.y >= 0 && p.z >= 0
  }

  lemma OutwardInside(d: GridPos, e: GridPos)
    requires Inside(d) && d.x <= e.x && d.y <= e.y && d.z <= e.z
    ensures Inside(e)
  {
  }

  lemma {:induction false} TightInside(u: seq<dir>, e: GridPos)
    requires Tight(u, e)
    ensures Inside(e)
    decreases |u|
  {
    if u == [] {
      assert e == Corner();
    } else {
      var d := TightInit(u, e);
      TightInside(u[..|u| - 1], d);
      OutwardInside(d, e);
    }
  }

  /** Only one route runs straight along x. */
  lemma {:induction false} Straight(u: seq<dir>, w: seq<dir>, e: GridPos)
    requires Tight(u, e) && e.y == e.z == 0 && FirstRoute(e, w)
    ensures u == w
    decreases |u|
  {
    if u != [] {
      var d := TightInit(u, e);
      TightInside(u[..|u| - 1], d);
      BackStep(e);
      FirstInit(e, w);
      assert d == Back(e).0;
      Straight(u[..|u| - 1], w[..|w| - 1], d);
      assert u == u[..|u| - 1] + [u[|u| - 1]] && w == w[..|w| - 1] + [w[|w| - 1]];
    }
  }

  /** Of two cells at one distance, the one farther along x has the first route. */
  lemma {:induction false} FartherAlong(v: GridPos, w: seq<dir>, u: seq<dir>, f: GridPos)
    requires FirstRoute(v, w) && Tight(u, f) && |u| == |w| && v.x > f.x
    ensures Lower(w, u)
    decreases |u|
  {
    TightInside(u, f);
    var e := TightInit(u, f);
    TightInside(u[..|u| - 1], e);
    BackStep(v);
    FirstInit(v, w);
    if e.x < Back(v).0.x {
      FartherAlong(Back(v).0, w[..|w| - 1], u[..|u| - 1], e);
    } else {
      assert e == Back(v).0;
      Straight(u[..|u| - 1], w[..|w| - 1], e);
    }
  }

  // ----- What comes before a goal -----

  /** `v` is nearer to the corner than the goal, or as near and farther along x. */
  predicate Outranks(v: GridPos, goal: GridPos) {
    Steps(v) < Steps(goal) || (Steps(v) == Steps(goal) && v.x > goal.x)
  }

  lemma FirstBefore(goal: GridPos, v: GridPos, w: seq<dir>, u: seq<dir>)
    requires FirstRoute(v, w) && End(Corner(), u) == goal && Outranks(v, goal)
    ensures Before(w, u)
  {
    NoShortcut(u);
    if |u| == |w| {
      FartherAlong(v, w, u, goal);
    }
  }

  lemma OutrankingIsEarlier(goal: GridPos, v: GridPos)
    requires InGrid(v) && Outranks(v, goal)
    ensures Earlier(EmptyGrid(), Corner(), goal, v)
  {
    var w := Canonical(EmptyGrid(), v);
    FirstPrecedes(EmptyGrid(), goal, v, w);
    IsEarlier(EmptyGrid(), Corner(), goal, v, w);
  }

  lemma FirstPrecedes(free: iset<GridPos>, goal: GridPos, v: GridPos, w: seq<dir>)
    requires FirstRoute(v, w) && Outranks(v, goal)
    ensures Precedes(free, Corner(), goal, w)
  {
    forall u | Route(free, Corner(), goal, u)
      ensures Before(w, u)
    {
      FirstBefore(goal, v, w, u);
    }
  }

  lemma IsEarlier(free: iset<GridPos>, start: GridPos, goal: GridPos, v: GridPos, w: seq<dir>)
    requires Route(free, start, v, w) && Precedes(free, start, goal, w)
    ensures Earlier(free, start, goal, v)
  {
  }

  lemma EarlierRoute(free: iset<GridPos>, start: GridPos, goal: GridPos, v: GridPos, u: seq<dir>) returns (w: seq<dir>)
    requires Earlier(free, start, goal, v) && Route(free, start, goal, u)
    ensures Route(free, start, v, w) && Before(w, u)
  {
    w :| Route(free, start, v, w) && Precedes(free, start, goal, w);
  }

  lemma NoEarlierThanItself(free: iset<GridPos>, start: GridPos, goal: GridPos)
    ensures !Earlier(free, start, goal, goal)
  {
    if w :| Route(free, start, goal, w) && Precedes(free, start, goal, w) {
      Irreflexive(w);
    }
  }

  lemma {:induction false} RouteInGrid(v: GridPos, w: seq<dir>)
    requires Route(EmptyGrid(), Corner(), v, w)
    ensures InGrid(v)
  {
  }

  /** Nothing that the goal outranks comes earlier. */
  lemma NotOutranked(goal: GridPos, v: GridPos, w: seq<dir>, u: seq<dir>)
    requires FirstRoute(goal, u) && End(Corner(), w) == v && Before(w, u)
    ensures !Outranks(goal, v)
  {
    if Outranks(goal, v) {
      FirstBefore(v, goal, u, w);
      if Lower(w, u) {
        Asymmetric(w, u);
      }
    }
  }

  lemma RouteNotOutranked(free: iset<GridPos>, goal: GridPos, v: GridPos, w: seq<dir>, u: seq<dir>)
    requires FirstRoute(goal, u) && Route(free, Corner(), v, w) && Before(w, u)
    ensures !Outranks(goal, v)
  {
    NotOutranked(goal, v, w, u);
  }

  lemma EarlierIsNotOutranked(free: iset<GridPos>, goal: GridPos, v: GridPos)
    requires InGrid(goal) && free == EmptyGrid() && Earlier(free, Corner(), goal, v)
    ensures InGrid(v) && !Outranks(goal, v)
  {
    var u := Canonical(free, goal);
    var w := EarlierRoute(free, Corner(), goal, v, u);
    RouteInGrid(v, w);
    RouteNotOutranked(free, goal, v, w, u);
  }

  // ----- Counting -----

  /** The cells of layer `z` at distance `d` along the layer, at least `lo` along x. */
  ghost function Diagonal(d: nat, lo: nat, z: nat): (cells: set<GridPos>)
    requires lo <= d + 1
    ensures |cells| == d + 1 - lo
    ensures forall v :: v in cells <==> lo <= v.x <= d && v.y == d - v.x && v.z == z
    decreases d + 1 - lo
  {
    if lo == d + 1 then {} else {GridPos(lo, d - lo, z)} + Diagonal(d, lo + 1, z)
  }

  /** The cells of layer `z` up to distance `d` along the layer. */
  ghost function Triangle(d: nat, z: nat): (cells: set<GridPos>)
    ensures 2 * |cells| == (d + 1) * (d + 2)
    ensures forall v :: v in cells <==> 0 <= v.x && 0 <= v.y && v.x + v.y <= d && v.z == z
  {
    if d == 0 then Diagonal(0, 0, z)
    else
      assert Triangle(d - 1, z) !! Diagonal(d, 0, z);
      Triangle(d - 1, z) + Diagonal(d, 0, z)
  }

  lemma TwoSets(a: set<GridPos>, b: set<GridPos>) returns (c: set<GridPos>)
    requires forall v :: v in a ==> v !in b
    ensures |c| == |a| + |b| && forall v :: v in c <==> v in a || v in b
  {
    assert a !! b;
    c := a + b;
  }

  predicate InPart(v: GridPos, d: nat, lo: nat, z: nat) {
    v.z == z && 0 <= v.x && 0 <= v.y && (v.x + v.y < d || (v.x + v.y == d && lo <= v.x))
  }

  /** The cells within reach that lie in layer `z`. */
  lemma Part(d: nat, lo: nat, z: nat) returns (cells: set<GridPos>)
    requires 0 < d && lo <= d + 1
    ensures 2 * |cells| == d * (d + 1) + 2 * (d + 1 - lo)
    ensures forall v :: v in cells <==> InPart(v, d, lo, z)
  {
    cells := TwoSets(Triangle(d - 1, z), Diagonal(d, lo, z));
  }

  lemma NearParts(v: GridPos)
    ensures Near(v) <==> InPart(v, 52, 13, 0) || InPart(v, 51, 13, 1) || InPart(v, 50, 13, 2)
  {
  }

  lemma ReachSize() returns (cells: set<GridPos>)
    ensures |cells| == 4096 && forall v :: v in cells <==> Near(v)
  {
    var a := Part(52, 13, 0);
    var b := Part(51, 13, 1);
    var c := Part(50, 13, 2);
    var ab := TwoSets(a, b);
    cells := TwoSets(ab, c);
    forall v
      ensures v in cells <==> Near(v)
    {
      NearParts(v);
    }
  }

  lemma {:induction false} SubsetSize(a: set<GridPos>, b: set<GridPos>)
    requires a <= b
    ensures |a| <= |b|
  {
    if v :| v in a {
      SubsetSize(a - {v}, b - {v});
    }
  }

  // ----- What the planner finds -----

  lemma BeyondReach(goal: GridPos)
    requires InGrid(goal) && !Near(goal)
    ensures !InReach(EmptyGrid(), Corner(), goal)
  {
    var cells := ReachSize();
    forall v | v in cells
      ensures Earlier(EmptyGrid(), Corner(), goal, v)
    {
      OutrankingIsEarlier(goal, v);
    }
    TooMany(EmptyGrid(), Corner(), goal, cells);
  }

  lemma TooMany(free: iset<GridPos>, start: GridPos, goal: GridPos, cells: set<GridPos>)
    requires AllEarlier(free, start, goal, cells) && |cells| > 4095
    ensures !InReach(free, start, goal)
  {
  }

  lemma WithinReach(free: iset<GridPos>, goal: GridPos)
    requires free == EmptyGrid() && Near(goal)
    ensures InReach(free, Corner(), goal)
  {
    var near := ReachSize();
    forall cells | AllEarlier(free, Corner(), goal, cells)
      ensures |cells| <= 4095
    {
      EarlierAreNear(free, goal, cells, near);
    }
  }

  lemma EarlierAreNear(free: iset<GridPos>, goal: GridPos, cells: set<GridPos>, near: set<GridPos>)
    requires free == EmptyGrid() && Near(goal) && AllEarlier(free, Corner(), goal, cells)
    requires forall v :: v in near <==> Near(v)
    ensures |cells| < |near|
  {
    forall v | v in cells
      ensures v in near - {goal}
    {
      EarlierIsNear(free, goal, v);
    }
    SubsetSize(cells, near - {goal});
  }

  lemma EarlierIsNear(free: iset<GridPos>, goal: GridPos, v: GridPos)
    requires free == EmptyGrid() && Near(goal) && Earlier(free, Corner(), goal, v)
    ensures Near(v) && v != goal
  {
    EarlierIsNotOutranked(free, goal, v);
    NoEarlierThanItself(free, Corner(), goal);
  }

  lemma Reachable(goal: GridPos)
    requires InGrid(goal)
    ensures !Unreachable(EmptyGrid(), Corner(), goal)
  {
    var w := Canonical(EmptyGrid(), goal);
    var p := RoutePath(EmptyGrid(), Corner(), goal, w);
  }

  /** Every goal is reachable, and exactly those of the first 4096 cells are within reach. */
  lemma ReachExactly(goal: GridPos)
    requires InGrid(goal)
    ensures !Unreachable(EmptyGrid(), Corner(), goal)
    ensures InReach(EmptyGrid(), Corner(), goal) <==> Near(goal)
  {
    Reachable(goal);
    if Near(goal) {
      WithinReach(EmptyGrid(), goal);
    } else {
      BeyondReach(goal);
    }
  }

  /**
   On a grid without obstacles, from the corner, the planner finds every goal up to 51 steps away,
   none from 53 on, and at 52 steps those at least 13 cells along x.
   */
  method PlanOnEmptyGrid(planner: Planner, goal: GridPos, pathOut: array<GridPos>, pathMax: nat) returns (len: nat)
    requires planner.Valid() && planner.Free() == EmptyGrid() && InGrid(goal)
    requires pathMax <= pathOut.Length && pathOut != planner.bfsQueue
    modifies planner.bfsQueue, planner.bfsParent, planner.bfsVisited, pathOut
    ensures pathMax > 0 ==> (len > 0 <==> goal.x + goal.y + goal.z <= 51 || (goal.x + goal.y + goal.z == 52 && goal.x >= 13))
  {
    ReachExactly(goal);
    len := planner.PlanPath(Corner(), goal, pathOut, pathMax);
  }
}
