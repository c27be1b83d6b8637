/** The breadth-first corridor planner over the three-layer grid, with its 4096-entry queue. */
module Planner {
  import opened Bytes

  datatype GridPos = GridPos(x: int, y: int, z: int)

  predicate InGrid(p: GridPos) {
    0 <= p.x < 128 && 0 <= p.y < 128 && 0 <= p.z < 3
  }

  /** The mark of a cell without a predecessor. */
  const NONE: GridPos := GridPos(-1, -1, -1)

  /** The six neighbours, in the order of the table. */
  function Neighbour(p: GridPos, n: nat): GridPos
    requires n < 6
  {
    if n == 0 then p.(x := p.x + 1)
    else if n == 1 then p.(x := p.x - 1)
    else if n == 2 then p.(y := p.y + 1)
    else if n == 3 then p.(y := p.y - 1)
    else if n == 4 then p.(z := p.z + 1)
    else p.(z := p.z - 1)
  }

  ghost predicate Adjacent(p: GridPos, v: GridPos) {
    exists n :: 0 <= n < 6 && v == Neighbour(p, n)
  }

  /** 6-connected, and every cell after the first is free. */
  ghost predicate IsPath(free: iset<GridPos>, p: seq<GridPos>) {
    p != [] && forall i :: 0 < i < |p| ==> Adjacent(p[i - 1], p[i]) && p[i] in free
  }

  ghost predicate Connects(free: iset<GridPos>, start: GridPos, goal: GridPos, p: seq<GridPos>) {
    IsPath(free, p) && p[0] == start && p[|p| - 1] == goal
  }

  ghost predicate IsShortest(free: iset<GridPos>, start: GridPos, goal: GridPos, p: seq<GridPos>) {
    Connects(free, start, goal, p) && forall q :: Connects(free, start, goal, q) ==> |p| <= |q|
  }

  // ----- Routes -----

  /** A direction of the table. */
  type dir = n: nat | n < 6

  /** Where a route from `start` ends. */
  function End(start: GridPos, w: seq<dir>): GridPos {
    if w == [] then start else Neighbour(End(start, w[..|w| - 1]), w[|w| - 1])
  }

  /** Every cell the route enters is free. */
  ghost predicate Leads(free: iset<GridPos>, start: GridPos, w: seq<dir>) {
    w == [] || (Leads(free, start, w[..|w| - 1]) && End(start, w) in free)
  }

  ghost predicate Route(free: iset<GridPos>, start: GridPos, v: GridPos, w: seq<dir>) {
    Leads(free, start, w) && End(start, w) == v
  }

  /** Of equal length, and the first difference decides. */
  predicate Lower(u: seq<dir>, w: seq<dir>) {
    |u| == |w| > 0 && (Lower(u[..|u| - 1], w[..|w| - 1]) || (u[..|u| - 1] == w[..|w| - 1] && u[|u| - 1] < w[|w| - 1]))
  }

  /** Shorter routes come first; routes of one length come in the order of the table. */
  predicate Before(u: seq<dir>, w: seq<dir>) {
    |u| < |w| || Lower(u, w)
  }

  predicate DiffersAt(u: seq<dir>, w: seq<dir>, k: nat) {
    k < |u| == |w| && u[..k] == w[..k] && u[k] < w[k]
  }

  lemma InitDiffers(u: seq<dir>, w: seq<dir>, k: nat)
    requires |u| == |w| && k < |u| - 1
    ensures DiffersAt(u, w, k) <==> DiffersAt(u[..|u| - 1], w[..|w| - 1], k)
  {
    assert u[..|u| - 1][..k] == u[..k] && w[..|w| - 1][..k] == w[..k];
  }

  /** `Lower` is the lexicographic order. */
  lemma {:induction false} FirstDifference(u: seq<dir>, w: seq<dir>)
    ensures Lower(u, w) <==> exists k :: DiffersAt(u, w, k)
  {
    if |u| == |w| > 0 {
      var n := |u| - 1;
      FirstDifference(u[..n], w[..n]);
      forall k: nat | k < n
        ensures DiffersAt(u, w, k) <==> DiffersAt(u[..n], w[..n], k)
      {
        InitDiffers(u, w, k);
      }
      assert DiffersAt(u, w, n) <==> u[..n] == w[..n] && u[n] < w[n];
    }
  }

  lemma {:induction false} LowerTotal(u: seq<dir>, w: seq<dir>)
    requires |u| == |w|
    ensures u == w || Lower(u, w) || Lower(w, u)
  {
    if u != [] {
      LowerTotal(u[..|u| - 1], w[..|w| - 1]);
      assert u == u[..|u| - 1] + [u[|u| - 1]] && w == w[..|w| - 1] + [w[|w| - 1]];
    }
  }

  lemma {:induction false} Irreflexive(u: seq<dir>)
    ensures !Lower(u, u)
  {
    if u != [] {
      Irreflexive(u[..|u| - 1]);
    }
  }

  lemma {:induction false} Asymmetric(u: seq<dir>, w: seq<dir>)
    requires Lower(u, w)
    ensures !Lower(w, u)
  {
    if Lower(u[..|u| - 1], w[..|w| - 1]) {
      Asymmetric(u[..|u| - 1], w[..|w| - 1]);
    } else {
      Irreflexive(u[..|u| - 1]);
    }
  }

  lemma ExtendRoute(free: iset<GridPos>, start: GridPos, v: GridPos, w: seq<dir>, n: dir)
    requires Route(free, start, v, w) && Neighbour(v, n) in free
    ensures Route(free, start, Neighbour(v, n), w + [n])
  {
    assert (w + [n])[..|w|] == w;
  }

  /** Every path is a route. */
  lemma {:induction false} PathRoute(free: iset<GridPos>, p: seq<GridPos>) returns (w: seq<dir>)
    requires IsPath(free, p)
    ensures |w| == |p| - 1 && Route(free, p[0], p[|p| - 1], w)
  {
    if |p| == 1 {
      w := [];
    } else {
      var m := |p| - 1;
      var u := PathRoute(free, p[..m]);
      assert Adjacent(p[m - 1], p[m]);
      var n: dir :| p[m] == Neighbour(p[m - 1], n);
      ExtendRoute(free, p[0], p[m - 1], u, n);
      w := u + [n];
    }
  }

  /** And every route is a path. */
  lemma {:induction false} RoutePath(free: iset<GridPos>, start: GridPos, v: GridPos, w: seq<dir>) returns (p: seq<GridPos>)
    requires Route(free, start, v, w)
    ensures Connects(free, start, v, p)
    decreases |w|
  {
    if w == [] {
      p := [start];
    } else {
      var q := RoutePath(free, start, End(start, w[..|w| - 1]), w[..|w| - 1]);
      assert Adjacent(q[|q| - 1], v);
      p := q + [v];
    }
  }

  // ----- The search tree -----

  /** `q` lists the queued cells, `word` the routes taken to them and `pi` the index of each one's parent. */
  datatype Search = Search(q: seq<GridPos>, word: seq<seq<dir>>, pi: seq<nat>)

  ghost predicate Tree(s: Search, free: iset<GridPos>, start: GridPos) {
    && 1 <= |s.q| == |s.word| == |s.pi| && s.q[0] == start && s.word[0] == []
    && (forall i, j :: 0 <= i < j < |s.q| ==> s.q[i] != s.q[j])
    && (forall j :: 0 <= j < |s.q| ==> Route(free, start, s.q[j], s.word[j]))
    && (forall j :: 0 < j < |s.q| ==>
          s.pi[j] < j && Adjacent(s.q[s.pi[j]], s.q[j]) && s.q[j] in free && |s.word[j]| == |s.word[s.pi[j]]| + 1)
  }

  /** All free neighbours of the first `h` cells are queued. */
  ghost predicate Covered(s: Search, free: iset<GridPos>, h: nat)
    requires h <= |s.q|
  {
    forall j, n :: 0 <= j < h && 0 <= n < 6 && Neighbour(s.q[j], n) in free ==> Neighbour(s.q[j], n) in s.q
  }

  /** Whatever a route before that of entry `j` leads to is queued before it. */
  ghost predicate Prior(s: Search, free: iset<GridPos>, start: GridPos, j: nat)
    requires j < |s.q| == |s.word|
  {
    forall u :: Leads(free, start, u) && Before(u, s.word[j]) ==> End(start, u) in s.q[..j]
  }

  ghost predicate Priors(s: Search, free: iset<GridPos>, start: GridPos)
    requires |s.q| == |s.word|
  {
    forall j :: 0 <= j < |s.q| ==> Prior(s, free, start, j)
  }

  /** When everything queued is processed and nothing was dropped, every reachable cell is queued. */
  lemma {:induction false} ReachesAll(s: Search, free: iset<GridPos>, start: GridPos, u: seq<dir>)
    requires Tree(s, free, start) && Covered(s, free, |s.q|) && Leads(free, start, u)
    ensures End(start, u) in s.q
  {
    if u != [] {
      ReachesAll(s, free, start, u[..|u| - 1]);
      var j :| 0 <= j < |s.q| && s.q[j] == End(start, u[..|u| - 1]);
      assert Neighbour(s.q[j], u[|u| - 1]) in s.q;
    }
  }

  function Pushed(s: Search, h: nat, n: dir): Search
    requires h < |s.q| && h < |s.word|
  {
    Search(s.q + [Neighbour(s.q[h], n)], s.word + [s.word[h] + [n]], s.pi + [h])
  }

  lemma PushTree(s: Search, free: iset<GridPos>, start: GridPos, h: nat, n: dir)
    requires Tree(s, free, start) && h < |s.q| && Neighbour(s.q[h], n) in free && Neighbour(s.q[h], n) !in s.q
    ensures Tree(Pushed(s, h, n), free, start)
  {
    var w := s.word[h] + [n];
    assert w[..|w| - 1] == s.word[h];
    assert Route(free, start, s.q[h], s.word[h]);
    assert Adjacent(s.q[h], Neighbour(s.q[h], n));
  }

  /** Every route before that of the next queued cell leads to a queued cell. */
  lemma PriorRoute(s: Search, free: iset<GridPos>, start: GridPos, h: nat, n: dir, u: seq<dir>)
    requires Tree(s, free, start) && h < |s.q| && Prior(s, free, start, h) && Covered(s, free, h) && Tried(s, free, h, n)
    requires Leads(free, start, u) && Before(u, s.word[h] + [n])
    ensures End(start, u) in s.q
  {
    var w := s.word[h] + [n];
    assert w[..|w| - 1] == s.word[h];
    if u != [] {
      var init, d := u[..|u| - 1], u[|u| - 1];
      if init == s.word[h] {
        assert Route(free, start, s.q[h], s.word[h]);
        assert Neighbour(s.q[h], d) in s.q;
      } else {
        assert Before(init, s.word[h]);
        var j :| 0 <= j < h && s.q[j] == End(start, init);
        assert Neighbour(s.q[j], d) in s.q;
      }
    }
  }

  lemma PushPriors(s: Search, free: iset<GridPos>, start: GridPos, h: nat, n: dir)
    requires Tree(s, free, start) && h < |s.q| && Priors(s, free, start) && Covered(s, free, h) && Tried(s, free, h, n)
    ensures Priors(Pushed(s, h, n), free, start)
  {
    var t := Pushed(s, h, n);
    forall j | 0 <= j < |t.q|
      ensures Prior(t, free, start, j)
    {
      assert t.q[..j] == s.q[..j];
      if j < |s.q| {
        assert Prior(s, free, start, j);
      } else {
        forall u | Leads(free, start, u) && Before(u, t.word[j])
          ensures End(start, u) in s.q[..j]
        {
          PriorRoute(s, free, start, h, n, u);
        }
      }
    }
  }

  // ----- Reading the path off the tree -----

  /** Parents precede their children. */
  ghost predicate LinksBack(s: Search) {
    |s.q| == |s.pi| && forall i :: 0 < i < |s.q| ==> s.pi[i] < i
  }

  ghost function TreePath(s: Search, j: nat): (p: seq<GridPos>)
    requires j < |s.q| && LinksBack(s)
    ensures p != []
    decreases j
  {
    if j == 0 then [s.q[0]] else TreePath(s, s.pi[j]) + [s.q[j]]
  }

  lemma {:induction false} TreePathConnects(s: Search, free: iset<GridPos>, start: GridPos, j: nat)
    requires Tree(s, free, start) && j < |s.q|
    ensures Connects(free, start, s.q[j], TreePath(s, j)) && |TreePath(s, j)| == |s.word[j]| + 1
    decreases j
  {
    if j > 0 {
      TreePathConnects(s, free, start, s.pi[j]);
    }
  }

  /** Whatever a path no longer than the route of entry `j` ends at is queued before it. */
  lemma ShortPathEnd(s: Search, free: iset<GridPos>, start: GridPos, j: nat, p: seq<GridPos>)
    requires Tree(s, free, start) && Priors(s, free, start) && j < |s.q|
    requires IsPath(free, p) && p[0] == start && |p| <= |s.word[j]|
    ensures p[|p| - 1] in s.q[..j]
  {
    var u := PathRoute(free, p);
    assert Prior(s, free, start, j) && Before(u, s.word[j]);
  }

  /** Tree paths are shortest, whatever was dropped later. */
  lemma TreePathShortest(s: Search, free: iset<GridPos>, start: GridPos, j: nat)
    requires Tree(s, free, start) && Priors(s, free, start) && j < |s.q|
    ensures IsShortest(free, start, s.q[j], TreePath(s, j))
  {
    TreePathConnects(s, free, start, j);
    forall q | Connects(free, start, s.q[j], q)
      ensures |s.word[j]| + 1 <= |q|
    {
      if |q| <= |s.word[j]| {
        ShortPathEnd(s, free, start, j, q);
      }
    }
  }

  /** `v` is reachable, and strictly nearer to the start than the goal is. */
  ghost predicate Nearer(free: iset<GridPos>, start: GridPos, goal: GridPos, v: GridPos) {
    exists p :: Connects(free, start, v, p) && forall q :: Connects(free, start, goal, q) ==> |p| < |q|
  }

  ghost predicate AllNearer(free: iset<GridPos>, start: GridPos, goal: GridPos, cells: set<GridPos>) {
    forall v :: v in cells ==> Nearer(free, start, goal, v)
  }

  lemma {:induction false} SetWithin(cells: set<GridPos>, q: seq<GridPos>)
    requires forall v :: v in cells ==> v in q
    ensures |cells| <= |q|
    decreases |q|
  {
    if q == [] {
      assert cells == {};
    } else {
      SetWithin(cells - {q[0]}, q[1..]);
    }
  }

  /** Cells strictly nearer than a queued one precede it in the queue. */
  lemma FewNearer(s: Search, free: iset<GridPos>, start: GridPos, j: nat, cells: set<GridPos>)
    requires Tree(s, free, start) && Priors(s, free, start) && j < |s.q|
    requires AllNearer(free, start, s.q[j], cells)
    ensures |cells| <= j
  {
    TreePathConnects(s, free, start, j);
    forall v | v in cells
      ensures v in s.q[..j]
    {
      var p :| Connects(free, start, v, p) && forall q :: Connects(free, start, s.q[j], q) ==> |p| < |q|;
      ShortPathEnd(s, free, start, j, p);
    }
    SetWithin(cells, s.q[..j]);
  }

  /** 4096 distinct cells other than the goal, none farther from the start than the goal is. */
  ghost predicate Crowded(free: iset<GridPos>, start: GridPos, goal: GridPos, q: seq<GridPos>) {
    && |q| == 4096 && goal !in q && (forall i, j :: 0 <= i < j < |q| ==> q[i] != q[j])
    && forall v :: v in q ==> NoFarther(free, start, goal, v)
  }

  ghost predicate NoFarther(free: iset<GridPos>, start: GridPos, goal: GridPos, v: GridPos) {
    exists p :: Connects(free, start, v, p) && forall r :: Connects(free, start, goal, r) ==> |p| <= |r|
  }

  lemma FullIsCrowded(s: Search, free: iset<GridPos>, start: GridPos, goal: GridPos)
    requires Tree(s, free, start) && Priors(s, free, start) && |s.q| == 4096 && goal !in s.q
    ensures Crowded(free, start, goal, s.q)
  {
    forall v | v in s.q
      ensures NoFarther(free, start, goal, v)
    {
      var j :| 0 <= j < |s.q| && s.q[j] == v;
      TreePathConnects(s, free, start, j);
      var p := TreePath(s, j);
      forall r | Connects(free, start, goal, r)
        ensures |p| <= |r|
      {
        if |r| < |p| {
          ShortPathEnd(s, free, start, j, r);
        }
      }
      assert Connects(free, start, v, p);
    }
  }

  // ----- The rank of a goal -----

  /** `v` has a route before every route to the goal. */
  ghost predicate Earlier(free: iset<GridPos>, start: GridPos, goal: GridPos, v: GridPos) {
    exists w :: Route(free, start, v, w) && Precedes(free, start, goal, w)
  }

  ghost predicate Precedes(free: iset<GridPos>, start: GridPos, goal: GridPos, w: seq<dir>) {
    forall u :: Route(free, start, goal, u) ==> Before(w, u)
  }

  ghost predicate AllEarlier(free: iset<GridPos>, start: GridPos, goal: GridPos, cells: set<GridPos>) {
    forall v :: v in cells ==> Earlier(free, start, goal, v)
  }

  /** Fewer than 4096 cells come earlier than the goal. */
  ghost predicate InReach(free: iset<GridPos>, start: GridPos, goal: GridPos) {
    forall cells :: AllEarlier(free, start, goal, cells) ==> |cells| <= 4095
  }

  /** Cells earlier than a queued one precede it in the queue. */
  lemma FewEarlier(s: Search, free: iset<GridPos>, start: GridPos, j: nat, cells: set<GridPos>)
    requires Tree(s, free, start) && Priors(s, free, start) && j < |s.q|
    requires AllEarlier(free, start, s.q[j], cells)
    ensures |cells| <= j
  {
    forall v | v in cells
      ensures v in s.q[..j]
    {
      var w :| Route(free, start, v, w) && Precedes(free, start, s.q[j], w);
      assert Route(free, start, s.q[j], s.word[j]) && Prior(s, free, start, j);
    }
    SetWithin(cells, s.q[..j]);
  }

  /** Every queued cell is earlier than any that is not queued. */
  lemma QueuedIsEarlier(s: Search, free: iset<GridPos>, start: GridPos, goal: GridPos, j: nat)
    requires Tree(s, free, start) && Priors(s, free, start) && goal !in s.q && j < |s.q|
    ensures Earlier(free, start, goal, s.q[j])
  {
    var w := s.word[j];
    assert Route(free, start, s.q[j], w) && Prior(s, free, start, j);
    forall u | Route(free, start, goal, u)
      ensures Before(w, u)
    {
      assert !Before(u, w);
      if |u| == |w| {
        LowerTotal(u, w);
      }
    }
  }

  lemma {:induction false} AsSet(q: seq<GridPos>) returns (cells: set<GridPos>)
    requires forall i, j :: 0 <= i < j < |q| ==> q[i] != q[j]
    ensures |cells| == |q| && forall v :: v in cells <==> v in q
  {
    if q == [] {
      cells := {};
    } else {
      var n := |q| - 1;
      var rest := AsSet(q[..n]);
      assert q[n] !in q[..n];
      cells := rest + {q[n]};
    }
  }

  lemma FullIsOutOfReach(s: Search, free: iset<GridPos>, start: GridPos, goal: GridPos)
    requires Tree(s, free, start) && Priors(s, free, start) && |s.q| == 4096 && goal !in s.q
    ensures !InReach(free, start, goal)
  {
    var cells := AsSet(s.q);
    forall v | v in cells
      ensures Earlier(free, start, goal, v)
    {
      var j :| 0 <= j < |s.q| && s.q[j] == v;
      QueuedIsEarlier(s, free, start, goal, j);
    }
    assert AllEarlier(free, start, goal, cells);
  }

  // ----- What the planner answers -----

  /** The last cells of a shortest path, all of it if `room` suffices. */
  ghost predicate EndOfShortest(free: iset<GridPos>, start: GridPos, goal: GridPos, out: seq<GridPos>, room: nat) {
    exists path :: IsShortest(free, start, goal, path) && |path| <= 4096
                   && |out| == Min(|path|, room) && out == path[|path| - |out|..]
  }

  /** Fewer than 4096 cells are strictly nearer than the goal. */
  ghost predicate Uncrowded(free: iset<GridPos>, start: GridPos, goal: GridPos) {
    forall cells :: AllNearer(free, start, goal, cells) ==> |cells| <= 4095
  }

  ghost predicate Unreachable(free: iset<GridPos>, start: GridPos, goal: GridPos) {
    forall p :: !Connects(free, start, goal, p)
  }

  /**
   A path is returned exactly when the goal is reachable and fewer than 4096 cells have a route
   before all of its routes: shorter, or of the same length and first in the order of the table.
   It is the end of a shortest path, all of it when `room` allows. So at most 4095 cells are
   strictly nearer than a goal that is found, and 4096 others are no farther than one that is missed.
   */
  ghost predicate Answers(free: iset<GridPos>, start: GridPos, goal: GridPos, out: seq<GridPos>, room: nat) {
    && (room > 0 ==> (out != [] <==> !Unreachable(free, start, goal) && InReach(free, start, goal)))
    && (out != [] ==> EndOfShortest(free, start, goal, out, room) && Uncrowded(free, start, goal))
    && (out == [] && room > 0 ==> Unreachable(free, start, goal) || exists q :: Crowded(free, start, goal, q))
  }

  // ----- The planner -----

  /** The neighbours of the current cell tried so far are queued if free. */
  ghost predicate Tried(s: Search, free: iset<GridPos>, h: nat, n: nat)
    requires h < |s.q| && n <= 6
  {
    forall k :: 0 <= k < n && Neighbour(s.q[h], k) in free ==> Neighbour(s.q[h], k) in s.q
  }

  /** The search after some turns, `h` being the cell at hand; coverage is claimed while the queue has room. */
  ghost predicate Searching(s: Search, free: iset<GridPos>, start: GridPos, h: nat, n: nat)
    requires n <= 6
  {
    && Tree(s, free, start) && Priors(s, free, start) && h < |s.q|
    && (|s.q| < 4096 ==> Covered(s, free, h) && Tried(s, free, h, n))
  }

  lemma PushKeeps(s: Search, free: iset<GridPos>, start: GridPos, h: nat, n: dir, t: Search)
    requires Searching(s, free, start, h, n) && |s.q| < 4096
    requires Neighbour(s.q[h], n) in free && Neighbour(s.q[h], n) !in s.q && t == Pushed(s, h, n)
    ensures Searching(t, free, start, h, n + 1)
  {
    PushTree(s, free, start, h, n);
    PushPriors(s, free, start, h, n);
    assert forall v :: v in s.q ==> v in t.q;
    assert t.q[|s.q|] == Neighbour(s.q[h], n);
  }

  /** A neighbour that is occupied or already queued needs no push. */
  lemma SkipKeeps(s: Search, free: iset<GridPos>, start: GridPos, h: nat, n: nat)
    requires n < 6 && Searching(s, free, start, h, n)
    requires |s.q| == 4096 || Neighbour(s.q[h], n) !in free || Neighbour(s.q[h], n) in s.q
    ensures Searching(s, free, start, h, n + 1)
  {
  }

  class Planner {
    /** Occupancy, indexed layer, row, column. */
    const grid: array3<byte>
    const bfsQueue: array<GridPos>
    const bfsParent: array3<GridPos>
    const bfsVisited: array3<bool>

    ghost predicate Valid() {
      && grid.Length0 == bfsParent.Length0 == bfsVisited.Length0 == 3
      && grid.Length1 == bfsParent.Length1 == bfsVisited.Length1 == 128
      && grid.Length2 == bfsParent.Length2 == bfsVisited.Length2 == 128
      && bfsQueue.Length == 4096
    }

    constructor ()
      ensures Valid() && fresh(grid) && fresh(bfsQueue) && fresh(bfsParent) && fresh(bfsVisited)
      ensures forall z, y, x :: 0 <= z < 3 && 0 <= y < 128 && 0 <= x < 128 ==> grid[z, y, x] == 0
    {
      grid := new byte[3, 128, 128]((_, _, _) => 0);
      bfsQueue := new GridPos[4096](_ => NONE);
      bfsParent := new GridPos[3, 128, 128]((_, _, _) => NONE);
      bfsVisited := new bool[3, 128, 128]((_, _, _) => false);
    }

    /** The cells not above the occupancy threshold. */
    ghost function Free(): iset<GridPos>
      requires Valid()
      reads grid
    {
      iset p: GridPos | InGrid(p) && grid[p.z, p.y, p.x] <= 180
    }

    ghost predicate Queued(s: Search)
      requires Valid()
      reads bfsQueue
    {
      1 <= |s.q| <= 4096 && forall j :: 0 <= j < |s.q| ==> bfsQueue[j] == s.q[j] && InGrid(s.q[j])
    }

    predicate Visited(v: GridPos)
      requires Valid() && InGrid(v)
      reads bfsVisited
    {
      bfsVisited[v.z, v.y, v.x]
    }

    function ParentOf(v: GridPos): GridPos
      requires Valid() && InGrid(v)
      reads bfsParent
    {
      bfsParent[v.z, v.y, v.x]
    }

    /** Queued cells are marked; while the queue has room, no others are. */
    ghost predicate Marked(s: Search)
      requires Valid()
      reads bfsVisited
    {
      && (forall v :: v in s.q ==> InGrid(v) && Visited(v))
      && (|s.q| < 4096 ==> forall v :: InGrid(v) && Visited(v) ==> v in s.q)
    }

    /** The tree's parents; those of dropped cells and of earlier searches are of no account. */
    ghost predicate Parents(s: Search)
      requires Valid()
      reads bfsParent
    {
      && |s.q| == |s.pi|
      && forall j :: 0 <= j < |s.q| ==>
           InGrid(s.q[j]) && s.pi[j] < |s.q| && ParentOf(s.q[j]) == if j == 0 then NONE else s.q[s.pi[j]]
    }

    ghost predicate Holds(s: Search)
      requires Valid()
      reads bfsQueue, bfsParent, bfsVisited
    {
      Queued(s) && Marked(s) && Parents(s)
    }

    method Begin(start: GridPos) returns (ghost s: Search)
      requires Valid() && InGrid(start)
      modifies bfsQueue, bfsParent, bfsVisited
      ensures s == Search([start], [[]], [0]) && Holds(s)
    {
      forall z, y, x | 0 <= z < 3 && 0 <= y < 128 && 0 <= x < 128 {
        bfsVisited[z, y, x] := false;
      }
      bfsQueue[0] := start;
      bfsVisited[start.z, start.y, start.x] := true;
      bfsParent[start.z, start.y, start.x] := NONE;
      s := Search([start], [[]], [0]);
    }

    method Mark(ghost s: Search, ghost t: Search, nb: GridPos)
      requires Valid() && Marked(s) && InGrid(nb)
      requires t.q == if |s.q| < 4096 then s.q + [nb] else s.q
      modifies bfsVisited
      ensures Marked(t)
    {
      bfsVisited[nb.z, nb.y, nb.x] := true;
      assert forall v :: v in t.q ==> v == nb || v in s.q;
      assert |s.q| < 4096 ==> nb in t.q && forall v :: v in s.q ==> v in t.q;
    }

    method SetParent(ghost s: Search, ghost t: Search, ghost h: nat, cur: GridPos, nb: GridPos)
      requires Valid() && Parents(s) && h < |s.q| && |s.q| >= 1 && cur == s.q[h] && InGrid(nb) && nb !in s.q
      requires if |s.q| < 4096 then t.q == s.q + [nb] && t.pi == s.pi + [h] else t == s
      modifies bfsParent
      ensures Parents(t)
    {
      bfsParent[nb.z, nb.y, nb.x] := cur;
      forall j | 0 <= j < |t.q|
        ensures InGrid(t.q[j]) && t.pi[j] < |t.q| && ParentOf(t.q[j]) == if j == 0 then NONE else t.q[t.pi[j]]
      {
        if j < |s.q| {
          assert t.q[j] == s.q[j] && t.q[j] != nb;
        }
      }
    }

    /** Look at one neighbour of the current cell: queue it, or drop it when the queue is full. */
    method Visit(ghost s: Search, ghost free: iset<GridPos>, ghost start: GridPos, cur: GridPos, ghost h: nat, n: nat, qTail: nat)
      returns (ghost t: Search, tail: nat)
      requires Valid() && free == Free() && n < 6 && Searching(s, free, start, h, n) && Holds(s)
      requires qTail == |s.q| && cur == s.q[h]
      modifies bfsQueue, bfsParent, bfsVisited
      ensures Searching(t, free, start, h, n + 1) && Holds(t)
      ensures tail == |t.q| && s.q <= t.q
    {
      t, tail := s, qTail;
      var nb := Neighbour(cur, n);
      if !InGrid(nb) || Visited(nb) || grid[nb.z, nb.y, nb.x] > 180 {
        SkipKeeps(s, free, start, h, n);
        return;
      }
      if qTail < 4096 {
        t := Pushed(s, h, n);
        PushKeeps(s, free, start, h, n, t);
      } else {
        SkipKeeps(s, free, start, h, n);
      }
      tail := Record(s, t, h, cur, nb, qTail);
    }

    /** Mark the cell, note its parent, and queue it if there is room. */
    method Record(ghost s: Search, ghost t: Search, ghost h: nat, cur: GridPos, nb: GridPos, qTail: nat) returns (tail: nat)
      requires Valid() && Holds(s) && qTail == |s.q| && h < |s.q| && cur == s.q[h] && InGrid(nb) && nb !in s.q
      requires if |s.q| < 4096 then t.q == s.q + [nb] && t.pi == s.pi + [h] else t == s
      modifies bfsQueue, bfsParent, bfsVisited
      ensures Holds(t) && tail == |t.q|
    {
      Mark(s, t, nb);
      SetParent(s, t, h, cur, nb);
      tail := qTail;
      if qTail < 4096 {
        bfsQueue[qTail] := nb;
        tail := qTail + 1;
      }
    }

    /** All six neighbours of the current cell. */
    method Expand(ghost s: Search, ghost free: iset<GridPos>, ghost start: GridPos, cur: GridPos, ghost h: nat, qTail: nat)
      returns (ghost t: Search, tail: nat)
      requires Valid() && free == Free() && Searching(s, free, start, h, 0) && Holds(s)
      requires qTail == |s.q| && cur == s.q[h]
      modifies bfsQueue, bfsParent, bfsVisited
      ensures Searching(t, free, start, h, 6) && Holds(t)
      ensures tail == |t.q| && s.q <= t.q
    {
      t, tail := s, qTail;
      var n := 0;
      while n < 6
        invariant n <= 6 && Holds(t) && tail == |t.q| && s.q <= t.q
        invariant Searching(t, free, start, h, n)
      {
        t, tail := Visit(t, free, start, cur, h, n, tail);
        n := n + 1;
      }
    }

    /** Read the path off the parents, then shift it to the front. */
    method Reconstruct(ghost s: Search, ghost h: nat, goal: GridPos, pathOut: array<GridPos>, pathMax: nat) returns (len: nat)
      requires Valid() && Parents(s) && h < |s.q| && goal == s.q[h] && LinksBack(s)
      requires pathMax <= pathOut.Length
      modifies pathOut
      ensures len == Min(|TreePath(s, h)|, pathMax)
      ensures pathOut[..len] == TreePath(s, h)[|TreePath(s, h)| - len..]
    {
      len := TraceBack(s, TreePath(s, h), h, goal, pathOut, pathMax);
      ShiftToFront(pathOut, pathMax - len, len);
    }

    /** Follow the parents back from the goal, filling `pathOut` from its end. */
    method TraceBack(ghost s: Search, ghost path: seq<GridPos>, ghost h: nat, goal: GridPos, pathOut: array<GridPos>, pathMax: nat)
      returns (len: nat)
      requires Valid() && Parents(s) && h < |s.q| && goal == s.q[h] && LinksBack(s) && path == TreePath(s, h)
      requires pathMax <= pathOut.Length
      modifies pathOut
      ensures len == Min(|path|, pathMax)
      ensures pathOut[pathMax - len..pathMax] == path[|path| - len..]
    {
      ghost var j: nat, tail: seq<GridPos> := h, [];
      assert path == TreePath(s, j) + tail;
      len := 0;
      var c := goal;
      while c != NONE && len < pathMax
        invariant len == |tail| <= pathMax && pathOut[pathMax - len..pathMax] == tail
        invariant c == NONE ==> path == tail
        invariant c != NONE ==> j < |s.q| && c == s.q[j] && path == TreePath(s, j) + tail
        decreases pathMax - len
      {
        StepBack(s, path, j, tail);
        Prepend(pathOut, pathMax - 1 - len, pathMax, c, tail);
        tail := [c] + tail;
        len := len + 1;
        c := ParentOf(c);
        j := s.pi[j];
      }
    }

    method Prepend(pathOut: array<GridPos>, at: nat, ghost end: nat, c: GridPos, ghost tail: seq<GridPos>)
      requires at < end <= pathOut.Length && pathOut[at + 1..end] == tail
      modifies pathOut
      ensures pathOut[at..end] == [c] + tail
    {
      pathOut[at] := c;
    }

    method ShiftToFront(pathOut: array<GridPos>, offset: nat, len: nat)
      requires offset + len <= pathOut.Length
      modifies pathOut
      ensures pathOut[..len] == old(pathOut[offset..offset + len])
    {
      forall i | 0 <= i < len {
        pathOut[i] := pathOut[offset + i];
      }
    }

    /** The cells written to the front of `pathOut` answer the query. */
    method PlanPath(start: GridPos, goal: GridPos, pathOut: array<GridPos>, pathMax: nat) returns (len: nat)
      requires Valid() && InGrid(start) && pathMax <= pathOut.Length && pathOut != bfsQueue
      modifies bfsQueue, bfsParent, bfsVisited, pathOut
      ensures Free() == old(Free())
      ensures len <= pathMax && Answers(Free(), start, goal, pathOut[..len], pathMax)
    {
      ghost var free := Free();
      var found, hit;
      ghost var s;
      s, found, hit := Explore(free, start, goal);
      len := Report(s, free, start, goal, found, hit, pathOut, pathMax);
    }

    /** Write the path to the goal, if the search has met it. */
    method Report(ghost s: Search, ghost free: iset<GridPos>, ghost start: GridPos, goal: GridPos, found: bool, ghost hit: nat,
                  pathOut: array<GridPos>, pathMax: nat)
      returns (len: nat)
      requires Valid() && Parents(s) && Searched(s, free, start, goal, found, hit) && pathMax <= pathOut.Length
      modifies pathOut
      ensures len <= pathMax && Answers(free, start, goal, pathOut[..len], pathMax)
    {
      if found {
        len := Reconstruct(s, hit, goal, pathOut, pathMax);
        Found(s, free, start, goal, hit, pathOut[..len], pathMax);
      } else {
        len := 0;
        NotFound(s, free, start, goal, pathOut[..len], pathMax);
      }
    }

    /** One turn of the queue loop for a cell that is not the goal. */
    method Turn(ghost s: Search, ghost free: iset<GridPos>, ghost start: GridPos, ghost goal: GridPos, cur: GridPos,
                ghost h: nat, qTail: nat)
      returns (ghost t: Search, tail: nat)
      requires Valid() && free == Free() && Unfinished(s, free, start, goal, h) && Holds(s)
      requires qTail == |s.q| && h < |s.q| && cur == s.q[h] && cur != goal
      modifies bfsQueue, bfsParent, bfsVisited
      ensures Unfinished(t, free, start, goal, h + 1) && Holds(t) && tail == |t.q|
    {
      t, tail := Expand(s, free, start, cur, h, qTail);
      NextCell(s, t, free, start, goal, h, h + 1);
    }

    /** The queue loop: dequeue, stop at the goal, expand otherwise. */
    method Explore(ghost free: iset<GridPos>, start: GridPos, goal: GridPos) returns (ghost s: Search, found: bool, hit: nat)
      requires Valid() && InGrid(start) && free == Free()
      modifies bfsQueue, bfsParent, bfsVisited
      ensures Holds(s) && Searched(s, free, start, goal, found, hit)
    {
      s := Begin(start);
      StartSearch(s, free, start);
      var qHead, qTail := 0, 1;
      while qHead < qTail
        invariant qHead <= qTail == |s.q| && Holds(s) && Unfinished(s, free, start, goal, qHead)
        decreases 4096 - qHead
      {
        var cur := bfsQueue[qHead];
        qHead := qHead + 1;
        if cur == goal {
          return s, true, qHead - 1;
        }
        s, qTail := Turn(s, free, start, goal, cur, qHead - 1, qTail);
      }
      return s, false, 0;
    }
  }

  /** How the search ends: at the goal, or with nothing left to expand. */
  ghost predicate Searched(s: Search, free: iset<GridPos>, start: GridPos, goal: GridPos, found: bool, hit: nat) {
    && Tree(s, free, start) && Priors(s, free, start) && |s.q| <= 4096
    && (found ==> hit < |s.q| && s.q[hit] == goal)
    && (!found ==> (forall i :: 0 <= i < |s.q| ==> s.q[i] != goal) && (|s.q| < 4096 ==> Covered(s, free, |s.q|)))
  }

  /** The first `h` cells have been expanded, and none of them was the goal. */
  ghost predicate Unfinished(s: Search, free: iset<GridPos>, start: GridPos, goal: GridPos, h: nat) {
    && Tree(s, free, start) && Priors(s, free, start) && h <= |s.q| <= 4096
    && (h < |s.q| ==> Searching(s, free, start, h, 0))
    && (h == |s.q| < 4096 ==> Covered(s, free, |s.q|))
    && (forall i :: 0 <= i < h ==> s.q[i] != goal)
  }

  lemma StartSearch(s: Search, free: iset<GridPos>, start: GridPos)
    requires s == Search([start], [[]], [0])
    ensures Searching(s, free, start, 0, 0)
  {
  }

  lemma NextCell(s: Search, t: Search, free: iset<GridPos>, start: GridPos, goal: GridPos, h: nat, h': nat)
    requires h' == h + 1 <= |s.q| && s.q <= t.q && |t.q| <= 4096 && s.q[h] != goal
    requires Searching(t, free, start, h, 6) && forall i :: 0 <= i < h ==> s.q[i] != goal
    ensures Unfinished(t, free, start, goal, h')
  {
    if |t.q| < 4096 {
      forall j, n | 0 <= j < h' && 0 <= n < 6 && Neighbour(t.q[j], n) in free
        ensures Neighbour(t.q[j], n) in t.q
      {
      }
    }
  }

  /** One parent link of a tree path. */
  lemma StepBack(s: Search, path: seq<GridPos>, j: nat, tail: seq<GridPos>)
    requires j < |s.q| && LinksBack(s)
    requires path == TreePath(s, j) + tail
    ensures path == (if j > 0 then TreePath(s, s.pi[j]) else []) + ([s.q[j]] + tail)
  {
  }

  lemma Found(s: Search, free: iset<GridPos>, start: GridPos, goal: GridPos, h: nat, out: seq<GridPos>, pathMax: nat)
    requires Tree(s, free, start) && Priors(s, free, start) && h < |s.q| <= 4096 && s.q[h] == goal
    requires |out| == Min(|TreePath(s, h)|, pathMax) && out == TreePath(s, h)[|TreePath(s, h)| - |out|..]
    ensures Answers(free, start, goal, out, pathMax)
  {
    TreePathShortest(s, free, start, h);
    LevelBound(s, free, start, h);
    TreePathConnects(s, free, start, h);
    forall cells | AllNearer(free, start, s.q[h], cells)
      ensures |cells| <= 4095
    {
      FewNearer(s, free, start, h, cells);
    }
    forall cells | AllEarlier(free, start, s.q[h], cells)
      ensures |cells| <= 4095
    {
      FewEarlier(s, free, start, h, cells);
    }
  }

  lemma {:induction false} LevelBound(s: Search, free: iset<GridPos>, start: GridPos, j: nat)
    requires Tree(s, free, start) && j < |s.q|
    ensures |s.word[j]| <= j
    decreases j
  {
    if j > 0 {
      LevelBound(s, free, start, s.pi[j]);
    }
  }

  lemma NotFound(s: Search, free: iset<GridPos>, start: GridPos, goal: GridPos, out: seq<GridPos>, pathMax: nat)
    requires Tree(s, free, start) && Priors(s, free, start) && |s.q| <= 4096 && forall i :: 0 <= i < |s.q| ==> s.q[i] != goal
    requires |s.q| < 4096 ==> Covered(s, free, |s.q|)
    requires out == []
    ensures Answers(free, start, goal, out, pathMax)
  {
    if |s.q| == 4096 {
      FullIsCrowded(s, free, start, goal);
      FullIsOutOfReach(s, free, start, goal);
    } else {
      forall p
        ensures !Connects(free, start, goal, p)
      {
        if Connects(free, start, goal, p) {
          var u := PathRoute(free, p);
          ReachesAll(s, free, start, u);
        }
      }
    }
  }
}
