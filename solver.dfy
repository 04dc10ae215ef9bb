/**
 * `MazeSolver`: an incremental A*-style search over the carved grid. Each
 * `doStep` picks a cell from `openList` by a running comparison, closes it,
 * and either reconstructs the path (at the goal) or relaxes the cell's open
 * neighbours and rebuilds the tentative path.
 */
module Solver {
  import opened Seqs
  import opened Grid

  /** A search node; `Parent` is the coordinate of the node it was reached from. */
  datatype Node = Node(x: int, y: int, G: int, H: int, Parent: Option<Coord>)
  {
    /** With a non-negative cost so far, the estimate is never below the heuristic. */
    function F(): (f: int)
      ensures G >= 0 ==> f >= H
    {
      G + H
    }
  }

  type Nodes = map<Coord, Node>

  function Abs(v: int): nat {
    if v < 0 then -v else v
  }

  /** `manhattanDistance`. */
  function Manhattan(van: Coord, naar: Coord): (r: nat)
    ensures r == 0 <==> van == naar
    ensures r == 1 <==> Adjacent(van, naar)
  {
    Abs(van.col - naar.col) + Abs(van.row - naar.row)
  }

  lemma ManhattanSymmetric(a: Coord, b: Coord)
    ensures Manhattan(a, b) == Manhattan(b, a)
  {
  }

  /** The order in which `getNeighbours` tries the directions: up, down, left, right. */
  const ScanOrder: seq<Dir> := [0, 2, 3, 1]

  /** Position of a direction in `ScanOrder`. */
  function ScanRank(d: Dir): (k: nat)
    ensures k < 4 && ScanOrder[k] == d
  {
    if d == 0 then 0 else if d == 2 then 1 else if d == 3 then 2 else 3
  }

  /** The tests of `getNeighbours` from the `k`-th direction of `ScanOrder` on. */
  function NeighboursFrom(nodes: Nodes, g: WallMap, c: Coord, k: nat): (r: seq<Coord>)
    requires c in g && |g[c]| == 4 && k <= 4
    ensures forall i :: 0 <= i < |r| ==> r[i] in nodes && Adjacent(c, r[i])
    decreases 4 - k
  {
    if k == 4 then []
    else
      var n := Neighbour(c, ScanOrder[k]);
      var rest := NeighboursFrom(nodes, g, c, k + 1);
      if n in nodes && !g[c][ScanOrder[k]] then [n] + rest else rest
  }

  /** A neighbour is listed exactly when it is a node, its wall flag on `c` is down and its direction is not yet passed. */
  lemma {:induction false} NeighboursFromMembers(nodes: Nodes, g: WallMap, c: Coord, k: nat)
    requires c in g && |g[c]| == 4 && k <= 4
    ensures forall d: Dir :: Neighbour(c, d) in NeighboursFrom(nodes, g, c, k) <==>
      k <= ScanRank(d) && Neighbour(c, d) in nodes && !g[c][d]
    decreases 4 - k
  {
    if k < 4 {
      NeighboursFromMembers(nodes, g, c, k + 1);
      var d := ScanOrder[k];
      forall e: Dir | e != d ensures Neighbour(c, e) != Neighbour(c, d) {
        DirToNeighbour(c, e);
        DirToNeighbour(c, d);
      }
    }
  }

  /** The listed neighbours come in `ScanOrder`. */
  lemma {:induction false} NeighboursFromOrdered(nodes: Nodes, g: WallMap, c: Coord, k: nat)
    requires c in g && |g[c]| == 4 && k <= 4
    ensures var r := NeighboursFrom(nodes, g, c, k);
      (forall i :: 0 <= i < |r| ==> k <= ScanRank(DirTo(c, r[i]))) &&
      (forall i, j :: 0 <= i < j < |r| ==> ScanRank(DirTo(c, r[i])) < ScanRank(DirTo(c, r[j])))
    decreases 4 - k
  {
    if k < 4 {
      NeighboursFromOrdered(nodes, g, c, k + 1);
      DirToNeighbour(c, ScanOrder[k]);
    }
  }

  /** `getNeighbours`. */
  function Neighbours(nodes: Nodes, g: WallMap, c: Coord): (r: seq<Coord>)
    requires c in nodes && c in g && |g[c]| == 4
    ensures forall i :: 0 <= i < |r| ==> r[i] in nodes
  {
    NeighboursFrom(nodes, g, c, 0)
  }

  lemma NeighboursPassages(nodes: Nodes, g: WallMap, c: Coord)
    requires c in nodes && c in g && |g[c]| == 4
    ensures var r := Neighbours(nodes, g, c);
      forall i :: 0 <= i < |r| ==> r[i] in nodes && Passage(g, c, r[i])
  {
    var r := NeighboursFrom(nodes, g, c, 0);
    NeighboursFromMembers(nodes, g, c, 0);
    forall i | 0 <= i < |r| ensures r[i] in nodes && Passage(g, c, r[i]) {
      assert Neighbour(c, DirTo(c, r[i])) in r;
    }
  }

  lemma NeighboursDistinct(nodes: Nodes, g: WallMap, c: Coord)
    requires c in nodes && c in g && |g[c]| == 4
    ensures NoDuplicates(NeighboursFrom(nodes, g, c, 0))
  {
    var r := NeighboursFrom(nodes, g, c, 0);
    NeighboursFromOrdered(nodes, g, c, 0);
    forall i, j | 0 <= i < j < |r| ensures r[i] != r[j] {
      assert ScanRank(DirTo(c, r[i])) < ScanRank(DirTo(c, r[j]));
    }
  }

  /**
   * `getNeighbours` lists the cell in direction `d` exactly when it is a node
   * and `c`'s own flag `d` is down; every listed cell is such a node behind an
   * open wall of `c`; the cells come in the order up, down, left, right, each once.
   */
  lemma NeighboursSpec(nodes: Nodes, g: WallMap, c: Coord)
    requires c in nodes && c in g && |g[c]| == 4
    ensures var r := Neighbours(nodes, g, c);
      (forall d: Dir :: Neighbour(c, d) in r <==> Neighbour(c, d) in nodes && !g[c][d]) &&
      (forall i :: 0 <= i < |r| ==> r[i] in nodes && Passage(g, c, r[i])) &&
      (forall i, j :: 0 <= i < j < |r| ==> ScanRank(DirTo(c, r[i])) < ScanRank(DirTo(c, r[j]))) &&
      NoDuplicates(r)
  {
    var r := Neighbours(nodes, g, c);
    assert r == NeighboursFrom(nodes, g, c, 0);
    NeighboursFromMembers(nodes, g, c, 0);
    NeighboursFromOrdered(nodes, g, c, 0);
    NeighboursPassages(nodes, g, c);
    NeighboursDistinct(nodes, g, c);
  }

  /** The solver's state: the node map, `openList` and `closedList`. */
  datatype Search = Search(nodes: Nodes, open: seq<Coord>, closed: seq<Coord>)

  /** Every node sits on a grid cell, knows its own coordinate and has `H` = distance to the goal. */
  ghost predicate NodesOk(g: WallMap, goal: Coord, nodes: Nodes) {
    KeysMatch(nodes) &&
    forall c :: c in nodes ==> c in g && |g[c]| == 4 && nodes[c].H == Manhattan(goal, c)
  }

  /** Every node records its own coordinate in `x` and `y`. */
  ghost predicate KeysMatch(nodes: Nodes) {
    forall c :: c in nodes ==> nodes[c].x == c.col && nodes[c].y == c.row
  }

  /** `openList` and `closedList` are disjoint lists of nodes without repeats. */
  ghost predicate ListsOk(s: Search) {
    NoDuplicates(s.open) && NoDuplicates(s.closed) &&
    (forall i :: 0 <= i < |s.open| ==> s.open[i] in s.nodes && s.open[i] !in s.closed) &&
    (forall i :: 0 <= i < |s.closed| ==> s.closed[i] in s.nodes)
  }

  /** The start has `G` = 0 and no parent; it is the only open cell before the first step and closed after it. */
  ghost predicate StartOk(start: Coord, s: Search) {
    start in s.nodes && s.nodes[start].G == 0 && s.nodes[start].Parent == None &&
    (s.closed == [] ==> s.open == [start]) &&
    (s.closed != [] ==> start in s.closed)
  }

  /** `c` was reached from the closed cell `p` through an open wall of `p`, one step further from the start. */
  ghost predicate ParentOk(g: WallMap, s: Search, c: Coord, p: Coord)
    requires c in s.nodes
  {
    p in s.closed && p in s.nodes && Passage(g, p, c) && s.nodes[c].G == s.nodes[p].G + 1
  }

  /** Every `G` is non-negative and every parent link is sound. */
  ghost predicate LinksOk(g: WallMap, s: Search) {
    (forall c :: c in s.nodes ==> s.nodes[c].G >= 0) &&
    forall c {:trigger s.nodes[c].Parent} :: c in s.nodes && s.nodes[c].Parent.Some? ==> ParentOk(g, s, c, s.nodes[c].Parent.value)
  }

  /** A cell the search has reached is the start or has a parent. */
  ghost predicate Rooted(start: Coord, s: Search, c: Coord) {
    c == start || (c in s.nodes && s.nodes[c].Parent.Some?)
  }

  ghost predicate ClosedRooted(start: Coord, s: Search) {
    forall i {:trigger Rooted(start, s, s.closed[i])} :: 0 <= i < |s.closed| ==> Rooted(start, s, s.closed[i])
  }

  ghost predicate OpenRooted(start: Coord, s: Search) {
    forall i {:trigger Rooted(start, s, s.open[i])} :: 0 <= i < |s.open| ==> Rooted(start, s, s.open[i])
  }

  /** The solver's invariant. */
  ghost predicate Inv(g: WallMap, start: Coord, goal: Coord, s: Search) {
    NodesOk(g, goal, s.nodes) && ListsOk(s) && StartOk(start, s) && LinksOk(g, s) &&
    OpenRooted(start, s) && ClosedRooted(start, s)
  }

  /** The running comparison of `doStep`: `a` replaces the current pick `b`. */
  predicate Beats(a: Node, b: Node) {
    a.F() <= b.F() && a.H < b.H
  }

  /** The pick after the scan of `doStep` has looked at `open[..k]`. */
  function ScanTo(nodes: Nodes, open: seq<Coord>, k: nat): (c: Coord)
    requires 0 < |open| && k <= |open|
    requires forall i :: 0 <= i < |open| ==> open[i] in nodes
    ensures c in open
  {
    if k == 0 then open[0]
    else
      var c := ScanTo(nodes, open, k - 1);
      if Beats(nodes[open[k - 1]], nodes[c]) then open[k - 1] else c
  }

  /** Along the scan the pick's `F` and `H` never grow. */
  lemma {:induction false} ScanMonotone(nodes: Nodes, open: seq<Coord>, j: nat, k: nat)
    requires 0 < |open| && j <= k <= |open|
    requires forall i :: 0 <= i < |open| ==> open[i] in nodes
    ensures nodes[ScanTo(nodes, open, k)].F() <= nodes[ScanTo(nodes, open, j)].F()
    ensures nodes[ScanTo(nodes, open, k)].H <= nodes[ScanTo(nodes, open, j)].H
  {
    if j < k {
      ScanMonotone(nodes, open, j, k - 1);
    }
  }

  /**
   * The scan's pick is an element of `open`, its `F` and `H` are at most
   * those of `open[0]`, and no element already looked at beats it.
   */
  lemma {:induction false} ScanBest(nodes: Nodes, open: seq<Coord>, k: nat)
    requires 0 < |open| && k <= |open|
    requires forall i :: 0 <= i < |open| ==> open[i] in nodes
    ensures ScanTo(nodes, open, k) in open
    ensures nodes[ScanTo(nodes, open, k)].F() <= nodes[open[0]].F()
    ensures nodes[ScanTo(nodes, open, k)].H <= nodes[open[0]].H
    ensures forall j :: 0 <= j < k ==> !Beats(nodes[open[j]], nodes[ScanTo(nodes, open, k)])
  {
    ScanMonotone(nodes, open, 0, k);
    forall j | 0 <= j < k ensures !Beats(nodes[open[j]], nodes[ScanTo(nodes, open, k)]) {
      ScanMonotone(nodes, open, j + 1, k);
    }
  }

  /** The cell `doStep` closes. */
  function Pick(s: Search): (c: Coord)
    requires 0 < |s.open| && forall i :: 0 <= i < |s.open| ==> s.open[i] in s.nodes
    ensures c in s.open
  {
    ScanTo(s.nodes, s.open, |s.open|)
  }

  /** `openList.remove(p)` followed by `closedList.append(p)`. */
  function Close(s: Search, p: Coord): (t: Search)
    requires p in s.open
    ensures t.nodes == s.nodes && t.closed == s.closed + [p]
    ensures |t.open| == |s.open| - 1
    ensures forall i :: 0 <= i < |t.open| ==> t.open[i] == s.open[if i < IndexOf(s.open, p) then i else i + 1]
  {
    Search(s.nodes, RemoveFirst(s.open, p), s.closed + [p])
  }

  /** One iteration of the relaxation loop of `doStep`, for neighbour `n` of the closed cell `cur`. */
  function RelaxOne(goal: Coord, s: Search, cur: Coord, n: Coord): (t: Search)
    requires cur in s.nodes && n in s.nodes
    ensures t.nodes.Keys == s.nodes.Keys && t.closed == s.closed
    ensures forall c :: c in s.nodes && c != n ==> t.nodes[c] == s.nodes[c]
    ensures n in s.closed ==> t == s
    ensures t.open == s.open || (n !in s.closed && n !in s.open && t.open == s.open + [n])
  {
    if n in s.closed then s
    else
      var moveCost := s.nodes[cur].G + Manhattan(cur, n);
      if moveCost < s.nodes[n].G || n !in s.open then
        var node := s.nodes[n].(G := moveCost, H := Manhattan(n, goal), Parent := Some(cur));
        Search(s.nodes[n := node], if n !in s.open then s.open + [n] else s.open, s.closed)
      else s
  }

  /** The relaxation loop of `doStep` over the neighbour list `ns`. */
  function RelaxAll(goal: Coord, s: Search, cur: Coord, ns: seq<Coord>): (t: Search)
    requires cur in s.nodes && forall i :: 0 <= i < |ns| ==> ns[i] in s.nodes
    ensures t.nodes.Keys == s.nodes.Keys && t.closed == s.closed
    ensures forall c :: c in s.nodes && c in s.closed ==> t.nodes[c] == s.nodes[c]
    ensures forall c :: c in s.closed ==> (c in t.open <==> c in s.open)
  {
    if ns == [] then s
    else
      var r := RelaxAll(goal, s, cur, ns[..|ns| - 1]);
      RelaxOne(goal, r, cur, ns[|ns| - 1])
  }

  /** What one `doStep` needs: the open cells and the grid cells under the nodes exist. */
  ghost predicate StepReady(g: WallMap, s: Search) {
    (forall i :: 0 <= i < |s.open| ==> s.open[i] in s.nodes) &&
    (forall c :: c in s.nodes ==> c in g && |g[c]| == 4)
  }

  /** One `doStep` of the solver, on its node map and lists. */
  function Step(g: WallMap, goal: Coord, s: Search): (t: Search)
    requires StepReady(g, s)
    ensures t.nodes.Keys == s.nodes.Keys
    ensures s.open == [] ==> t == s
    ensures s.open != [] ==> t.closed == s.closed + [Pick(s)]
  {
    if s.open == [] then s
    else
      var p := Pick(s);
      var t := Close(s, p);
      if p == goal then t else RelaxAll(goal, t, p, Neighbours(t.nodes, g, p))
  }

  /** Closing an open cell keeps the two lists disjoint and free of repeats. */
  lemma CloseLists(s: Search, p: Coord)
    requires ListsOk(s) && p in s.open
    ensures ListsOk(Close(s, p))
    ensures forall c :: c in Close(s, p).open ==> c in s.open
  {
    var t := Close(s, p);
    RemoveFirstDistinct(s.open, p);
    assert NoDuplicates(t.closed) by {
      forall i, j | 0 <= i < j < |t.closed| ensures t.closed[i] != t.closed[j] {
        if j == |s.closed| {
          assert t.closed[i] == s.closed[i];
        }
      }
    }
    forall i | 0 <= i < |t.open| ensures t.open[i] in s.open && t.open[i] !in t.closed {
      assert t.open[i] in RemoveFirst(s.open, p);
    }
  }

  /** Closing the pick keeps the invariant. */
  lemma CloseInv(g: WallMap, start: Coord, goal: Coord, s: Search, p: Coord)
    requires Inv(g, start, goal, s) && p in s.open
    ensures Inv(g, start, goal, Close(s, p))
  {
    var t := Close(s, p);
    CloseLists(s, p);
    assert StartOk(start, t);
    assert LinksOk(g, t);
    var j :| 0 <= j < |s.open| && s.open[j] == p;
    assert Rooted(start, s, s.open[j]);
    forall i | 0 <= i < |t.closed| ensures Rooted(start, t, t.closed[i]) {
      if i < |s.closed| {
        assert Rooted(start, s, s.closed[i]);
      }
    }
    forall i | 0 <= i < |t.open| ensures Rooted(start, t, t.open[i]) {
      var k :| 0 <= k < |s.open| && s.open[k] == t.open[i];
      assert Rooted(start, s, s.open[k]);
    }
  }

  /** The cells the closed cell `cur` may relax: node cells behind an open wall of `cur`. */
  ghost predicate RelaxTargets(g: WallMap, s: Search, cur: Coord, ns: seq<Coord>) {
    forall i :: 0 <= i < |ns| ==> ns[i] in s.nodes && Passage(g, cur, ns[i])
  }

  /** One relaxation keeps the invariant. */
  lemma RelaxOneInv(g: WallMap, start: Coord, goal: Coord, s: Search, cur: Coord, n: Coord)
    requires Inv(g, start, goal, s) && cur in s.closed && n in s.nodes && Passage(g, cur, n)
    ensures Inv(g, start, goal, RelaxOne(goal, s, cur, n))
  {
    var t := RelaxOne(goal, s, cur, n);
    if n !in s.closed && t != s {
      ManhattanSymmetric(n, goal);
      assert Manhattan(cur, n) == 1;
      assert n != start;
      assert NodesOk(g, goal, t.nodes);
      assert ListsOk(t);
      forall c | c in t.nodes && t.nodes[c].Parent.Some? && c != n
        ensures ParentOk(g, t, c, t.nodes[c].Parent.value)
      {
        assert ParentOk(g, s, c, s.nodes[c].Parent.value);
      }
      assert LinksOk(g, t);
      forall i | 0 <= i < |t.closed| ensures Rooted(start, t, t.closed[i]) {
        assert Rooted(start, s, s.closed[i]);
      }
      forall i | 0 <= i < |t.open| ensures Rooted(start, t, t.open[i]) {
        if i < |s.open| {
          assert Rooted(start, s, s.open[i]);
        }
      }
    }
  }

  /** The whole relaxation loop keeps the invariant. */
  lemma {:induction false} RelaxAllInv(g: WallMap, start: Coord, goal: Coord, s: Search, cur: Coord, ns: seq<Coord>)
    requires Inv(g, start, goal, s) && cur in s.closed && RelaxTargets(g, s, cur, ns)
    ensures Inv(g, start, goal, RelaxAll(goal, s, cur, ns))
  {
    if ns != [] {
      var init := ns[..|ns| - 1];
      assert RelaxTargets(g, s, cur, init);
      RelaxAllInv(g, start, goal, s, cur, init);
      var r := RelaxAll(goal, s, cur, init);
      RelaxOneInv(g, start, goal, r, cur, ns[|ns| - 1]);
    }
  }

  /** The invariant provides what a step needs. */
  lemma InvReady(g: WallMap, start: Coord, goal: Coord, s: Search)
    requires Inv(g, start, goal, s)
    ensures StepReady(g, s)
  {
  }

  /** Between two cells the search has looked at, a step keeps the invariant (the pick then relaxed). */
  lemma StepInv(g: WallMap, start: Coord, goal: Coord, s: Search)
    requires Inv(g, start, goal, s)
    ensures StepReady(g, s) && Inv(g, start, goal, Step(g, goal, s))
  {
    InvReady(g, start, goal, s);
    if s.open != [] {
      var p := Pick(s);
      CloseInv(g, start, goal, s, p);
      var t := Close(s, p);
      if p != goal {
        var ns := Neighbours(t.nodes, g, p);
        NeighboursSpec(t.nodes, g, p);
        assert RelaxTargets(g, t, p, ns);
        RelaxAllInv(g, start, goal, t, p, ns);
      }
    }
  }

  /** Under the invariant a node's estimate `F` is its cost so far plus its Manhattan distance to the goal, so never below that distance. */
  lemma CostEstimate(g: WallMap, start: Coord, goal: Coord, s: Search)
    requires Inv(g, start, goal, s)
    ensures forall c :: c in s.nodes ==> s.nodes[c].F() == s.nodes[c].G + Manhattan(goal, c) >= Manhattan(goal, c)
  {
  }

  /**
   * The scan's pick is an open cell whose `F` and `H` are at most those of
   * `openList[0]` and which no open cell beats.
   */
  lemma PickSpec(s: Search)
    requires 0 < |s.open| && forall i :: 0 <= i < |s.open| ==> s.open[i] in s.nodes
    ensures var p := Pick(s);
      p in s.open &&
      s.nodes[p].F() <= s.nodes[s.open[0]].F() && s.nodes[p].H <= s.nodes[s.open[0]].H &&
      forall j :: 0 <= j < |s.open| ==> !Beats(s.nodes[s.open[j]], s.nodes[p])
  {
    ScanBest(s.nodes, s.open, |s.open|);
  }

  /**
   * A step on an empty `openList` changes nothing. Otherwise the pick leaves
   * `openList` and is appended to `closedList`, and at the goal nothing else
   * changes. No step adds or drops a node, and no closed node ever changes.
   */
  lemma StepClose(g: WallMap, goal: Coord, s: Search)
    requires StepReady(g, s) && ListsOk(s)
    ensures s.open == [] ==> Step(g, goal, s) == s
    ensures s.open != [] ==>
      var p, t := Pick(s), Step(g, goal, s);
      t.closed == s.closed + [p] && p !in t.open && (p == goal ==> t == Close(s, p))
    ensures var t := Step(g, goal, s);
      t.nodes.Keys == s.nodes.Keys &&
      forall c :: c in t.closed ==> c in s.nodes && t.nodes[c] == s.nodes[c]
  {
    if s.open != [] {
      var p := Pick(s);
      RemoveFirstDistinct(s.open, p);
      var t := Close(s, p);
      assert p !in t.open && p in t.closed;
      forall c | c in t.closed ensures c in s.nodes {
        var i :| 0 <= i < |t.closed| && t.closed[i] == c;
        if i < |s.closed| {
          assert s.closed[i] == c;
        }
      }
    }
  }

  /** `closedList` and `openList` together never hold more cells than there are nodes. */
  lemma ClosedBound(s: Search)
    requires ListsOk(s)
    ensures |s.closed| + |s.open| <= |s.nodes.Keys|
  {
    var both := s.closed + s.open;
    assert NoDuplicates(both) by {
      forall i, j | 0 <= i < j < |both| ensures both[i] != both[j] {
        if i < |s.closed| && j >= |s.closed| {
          assert both[j] == s.open[j - |s.closed|];
        }
      }
    }
    forall i | 0 <= i < |both| ensures both[i] in s.nodes.Keys {
      if i >= |s.closed| {
        assert both[i] == s.open[i - |s.closed|];
      }
    }
    DistinctBound(both, s.nodes.Keys);
  }

  /** Every step on a non-empty `openList` closes one more cell, so the search stops after at most one step per node. */
  lemma StepBound(g: WallMap, start: Coord, goal: Coord, s: Search)
    requires Inv(g, start, goal, s) && s.open != []
    ensures StepReady(g, s)
    ensures |Step(g, goal, s).closed| == |s.closed| + 1 <= |s.nodes.Keys|
  {
    StepInv(g, start, goal, s);
    StepClose(g, goal, s);
    ClosedBound(Step(g, goal, s));
  }

  /** `getSolution`'s walk from `c` back to the start along parent links, before the reversal. */
  ghost function WalkBack(g: WallMap, start: Coord, s: Search, c: Coord): (w: seq<Coord>)
    requires LinksOk(g, s) && ClosedRooted(start, s) && c in s.closed && c in s.nodes
    ensures w == [] <==> c == start
    ensures w != [] ==> w[0] == c
    decreases s.nodes[c].G
  {
    if c == start then []
    else
      assert Rooted(start, s, c);
      var p := s.nodes[c].Parent.value;
      assert ParentOk(g, s, c, p);
      [c] + WalkBack(g, start, s, p)
  }

  /** `buildTempSolution`'s walk, which also stops at a cell without a parent. */
  ghost function TempWalk(g: WallMap, start: Coord, s: Search, c: Coord): (w: seq<Coord>)
    requires LinksOk(g, s) && c in s.nodes
    ensures w == [] <==> c == start
    ensures w != [] ==> w[0] == c
    ensures forall i :: 0 <= i < |w| ==> w[i] in s.nodes
    decreases s.nodes[c].G
  {
    if c == start then []
    else if s.nodes[c].Parent.None? then [c]
    else
      var p := s.nodes[c].Parent.value;
      assert ParentOk(g, s, c, p);
      [c] + TempWalk(g, start, s, p)
  }

  /** One step of the walk back: a closed cell other than the start moves on to its closed parent, one `G` lower. */
  lemma WalkBackStep(g: WallMap, start: Coord, s: Search, c: Coord)
    requires LinksOk(g, s) && ClosedRooted(start, s) && c in s.closed && c in s.nodes && c != start
    ensures s.nodes[c].Parent.Some?
    ensures var p := s.nodes[c].Parent.value;
      p in s.closed && p in s.nodes && 0 <= s.nodes[p].G < s.nodes[c].G &&
      WalkBack(g, start, s, c) == [c] + WalkBack(g, start, s, p)
  {
    var i :| 0 <= i < |s.closed| && s.closed[i] == c;
    assert Rooted(start, s, s.closed[i]);
    assert ParentOk(g, s, c, s.nodes[c].Parent.value);
  }

  /** One step of the tentative walk: a node other than the start with a parent moves on to it, one `G` lower. */
  lemma TempWalkStep(g: WallMap, start: Coord, s: Search, c: Coord)
    requires LinksOk(g, s) && c in s.nodes && c != start && s.nodes[c].Parent.Some?
    ensures var p := s.nodes[c].Parent.value;
      p in s.nodes && 0 <= s.nodes[p].G < s.nodes[c].G &&
      TempWalk(g, start, s, c) == [c] + TempWalk(g, start, s, p)
  {
    assert ParentOk(g, s, c, s.nodes[c].Parent.value);
  }

  /** The walk back from a closed cell has one entry per unit of `G` and starts at the cell. */
  lemma {:induction false} WalkLength(g: WallMap, start: Coord, s: Search, c: Coord)
    requires LinksOk(g, s) && ClosedRooted(start, s) && c in s.closed && c in s.nodes
    requires start in s.nodes && s.nodes[start].G == 0
    ensures var w := WalkBack(g, start, s, c);
      |w| == s.nodes[c].G && (c != start ==> w[0] == c)
    decreases s.nodes[c].G
  {
    if c != start {
      assert Rooted(start, s, c);
      var p := s.nodes[c].Parent.value;
      assert ParentOk(g, s, c, p);
      WalkLength(g, start, s, p);
    }
  }

  /**
   * The walk back follows parent links through open walls, its `G` values
   * fall by one per entry, it has no repeats and never holds the start, and
   * its last cell was entered from the start.
   */
  lemma {:induction false} WalkLinks(g: WallMap, start: Coord, s: Search, c: Coord)
    requires LinksOk(g, s) && ClosedRooted(start, s) && c in s.closed && c in s.nodes
    ensures var w := WalkBack(g, start, s, c);
      (forall i :: 0 <= i < |w| ==> w[i] in s.nodes && s.nodes[w[i]].G == s.nodes[c].G - i) &&
      start !in w && NoDuplicates(w) &&
      (forall i :: 0 <= i < |w| - 1 ==> Passage(g, w[i + 1], w[i])) &&
      (|w| > 0 ==> Passage(g, start, w[|w| - 1]))
    decreases s.nodes[c].G
  {
    if c != start {
      assert Rooted(start, s, c);
      var p := s.nodes[c].Parent.value;
      assert ParentOk(g, s, c, p);
      WalkLinks(g, start, s, p);
      var v := WalkBack(g, start, s, p);
      assert WalkBack(g, start, s, c) == [c] + v;
      if p != start {
        assert v[0] == p;
      }
      assert c !in v by {
        forall i | 0 <= i < |v| ensures v[i] != c {
          assert s.nodes[v[i]].G < s.nodes[c].G;
        }
      }
    }
  }

  /** On a closed cell the tentative walk is the full walk back to the start. */
  lemma {:induction false} TempWalkClosed(g: WallMap, start: Coord, s: Search, c: Coord)
    requires LinksOk(g, s) && ClosedRooted(start, s) && c in s.closed && c in s.nodes
    ensures TempWalk(g, start, s, c) == WalkBack(g, start, s, c)
    decreases s.nodes[c].G
  {
    if c != start {
      assert Rooted(start, s, c);
      var p := s.nodes[c].Parent.value;
      assert ParentOk(g, s, c, p);
      TempWalkClosed(g, start, s, p);
    }
  }

  /** The path `getSolution` stores: the walk back to the start, reversed. */
  ghost function SolutionPath(g: WallMap, start: Coord, s: Search, c: Coord): (path: seq<Coord>)
    requires LinksOk(g, s) && ClosedRooted(start, s) && c in s.closed && c in s.nodes
    ensures path == [] <==> c == start
    ensures path != [] ==> path[|path| - 1] == c
  {
    Reverse(WalkBack(g, start, s, c))
  }

  /** The path `buildTempSolution` stores. */
  ghost function TempPath(g: WallMap, start: Coord, s: Search, c: Coord): (path: seq<Coord>)
    requires LinksOk(g, s) && c in s.nodes
    ensures path == [] <==> c == start
    ensures path != [] ==> path[|path| - 1] == c
    ensures forall i :: 0 <= i < |path| ==> path[i] in s.nodes
  {
    Reverse(TempWalk(g, start, s, c))
  }

  /**
   * The solution to a closed cell has length `G`, runs from a cell entered
   * from the start to the cell itself through open walls, consists of closed
   * cells other than the start, and has no repeats.
   */
  lemma PathShape(g: WallMap, start: Coord, s: Search, c: Coord)
    requires LinksOk(g, s) && ClosedRooted(start, s) && StartOk(start, s) && c in s.closed && c in s.nodes
    ensures var path := SolutionPath(g, start, s, c);
      |path| == s.nodes[c].G &&
      (c != start ==> path[|path| - 1] == c && Passage(g, start, path[0])) &&
      (forall i :: 0 <= i < |path| - 1 ==> Passage(g, path[i], path[i + 1])) &&
      start !in path && NoDuplicates(path)
  {
    WalkLength(g, start, s, c);
    WalkLinks(g, start, s, c);
    var w := WalkBack(g, start, s, c);
    ReversePassages(g, start, w);
    ReverseDistinct(w);
  }

  /** Reversing a walk back gives a path forward through the same open walls. */
  lemma ReversePassages(g: WallMap, start: Coord, w: seq<Coord>)
    requires forall i :: 0 <= i < |w| - 1 ==> Passage(g, w[i + 1], w[i])
    requires |w| > 0 ==> Passage(g, start, w[|w| - 1])
    ensures var path := Reverse(w);
      (forall i :: 0 <= i < |path| - 1 ==> Passage(g, path[i], path[i + 1])) &&
      (|path| > 0 ==> Passage(g, start, path[0]) && path[|path| - 1] == w[0])
  {
    var path := Reverse(w);
    forall i | 0 <= i < |path| - 1 ensures Passage(g, path[i], path[i + 1]) {
      assert path[i] == w[|w| - 1 - i] && path[i + 1] == w[|w| - 2 - i];
    }
  }

  /** The tentative path to a closed cell other than the start ends at that cell, and is the path `getSolution` would build. */
  lemma TempPathShape(g: WallMap, start: Coord, s: Search, c: Coord)
    requires LinksOk(g, s) && ClosedRooted(start, s) && c in s.closed && c in s.nodes
    ensures TempPath(g, start, s, c) == SolutionPath(g, start, s, c)
    ensures c != start ==> var path := TempPath(g, start, s, c);
      |path| > 0 && path[|path| - 1] == c
  {
    TempWalkClosed(g, start, s, c);
  }

  class MazeSolver {
    const maze: Maze
    const start: Coord
    const goal: Coord
    var nodes: Nodes
    var openList: seq<Coord>
    var closedList: seq<Coord>
    var currentPos: Option<Coord>
    var tempSolution: Option<seq<Coord>>

    constructor (maze: Maze, start: Coord, goal: Coord)
      ensures this.maze == maze && this.start == start && this.goal == goal
      ensures nodes == map[] && openList == [start] && closedList == []
      ensures currentPos == None && tempSolution == None
    {
      this.maze := maze;
      this.start := start;
      this.goal := goal;
      nodes := map[];
      openList := [start];
      closedList := [];
      currentPos := None;
      tempSolution := None;
    }

    ghost function State(): Search
      reads this
    {
      Search(nodes, openList, closedList)
    }

    ghost predicate Valid()
      reads this, maze
    {
      Inv(maze.grid, start, goal, State())
    }

    /** The inner loop of `build_nodes`: a fresh node for every grid cell of column `i`. */
    method BuildNodesColumn(i: int)
      requires 0 <= i < XCELLS
      modifies this`nodes
      ensures forall c: Coord :: c in nodes <==> c in old(nodes) || (c.col == i && InLattice(c) && c in maze.grid)
      ensures forall c: Coord :: c.col == i && InLattice(c) && c in maze.grid ==> nodes[c] == Node(c.col, c.row, 0, Manhattan(goal, c), None)
      ensures forall c: Coord :: c in old(nodes) && !(c.col == i && InLattice(c) && c in maze.grid) ==> nodes[c] == old(nodes)[c]
    {
      for j := 0 to YCELLS
        invariant forall c: Coord :: c in nodes <==> c in old(nodes) || (c.col == i && 0 <= c.row < j && c in maze.grid)
        invariant forall c: Coord :: c.col == i && 0 <= c.row < j && c in maze.grid ==> nodes[c] == Node(c.col, c.row, 0, Manhattan(goal, c), None)
        invariant forall c: Coord :: c in old(nodes) && !(c.col == i && 0 <= c.row < j && c in maze.grid) ==> nodes[c] == old(nodes)[c]
      {
        var key := Coord(i, j);
        if key in maze.grid {
          var n := Node(i, j, 0, Manhattan(goal, key), None);
          nodes := nodes[key := n];
        }
      }
    }

    /** `build_nodes`: one node per grid cell of the lattice, with `G` = 0, `H` = distance to the goal and no parent. */
    method BuildNodes()
      modifies this`nodes
      ensures forall c :: c in nodes <==> c in old(nodes) || (InLattice(c) && c in maze.grid)
      ensures forall c :: InLattice(c) && c in maze.grid ==> nodes[c] == Node(c.col, c.row, 0, Manhattan(goal, c), None)
      ensures forall c :: c in old(nodes) && !(InLattice(c) && c in maze.grid) ==> nodes[c] == old(nodes)[c]
      ensures (old(nodes) == map[] && openList == [start] && closedList == [] &&
               WellFormed(maze.grid) && start in maze.grid && InLattice(start)) ==> Valid()
    {
      for i := 0 to XCELLS
        invariant forall c: Coord :: c in nodes <==> c in old(nodes) || (0 <= c.col < i && InLattice(c) && c in maze.grid)
        invariant forall c: Coord :: 0 <= c.col < i && InLattice(c) && c in maze.grid ==> nodes[c] == Node(c.col, c.row, 0, Manhattan(goal, c), None)
        invariant forall c: Coord :: c in old(nodes) && !(0 <= c.col < i && InLattice(c) && c in maze.grid) ==> nodes[c] == old(nodes)[c]
      {
        BuildNodesColumn(i);
      }
      if old(nodes) == map[] && openList == [start] && closedList == [] &&
        WellFormed(maze.grid) && start in maze.grid && InLattice(start)
      {
        assert NodesOk(maze.grid, goal, nodes);
        assert ListsOk(State());
        assert StartOk(start, State());
        assert LinksOk(maze.grid, State());
      }
    }

    /** The scan of `doStep`: the running comparison over `openList`, from `openList[0]` on. */
    method ScanOpen() returns (pos: Coord, currentNode: Node)
      requires 0 < |openList| && forall i :: 0 <= i < |openList| ==> openList[i] in nodes
      ensures pos == Pick(State()) && pos in nodes && currentNode == nodes[pos]
    {
      pos := openList[0];
      currentNode := nodes[pos];
      for k := 0 to |openList|
        invariant pos == ScanTo(nodes, openList, k) && pos in nodes && currentNode == nodes[pos]
      {
        var n := openList[k];
        var node := nodes[n];
        if node.F() <= currentNode.F() && node.H < currentNode.H {
          pos := n;
          currentNode := node;
        }
      }
    }

    /** One pass of the relaxation loop of `doStep`, for the neighbour `n` of the closed cell `cur`. */
    method RelaxNeighbour(cur: Coord, currentNode: Node, n: Coord)
      requires cur in nodes && currentNode == nodes[cur] && n in nodes
      modifies this`nodes, this`openList
      ensures State() == RelaxOne(goal, old(State()), cur, n)
    {
      var node := nodes[n];
      if n in closedList {
        return;
      }
      var moveCost := currentNode.G + Manhattan(cur, n);
      if moveCost < node.G || n !in openList {
        node := node.(G := moveCost, H := Manhattan(n, goal), Parent := Some(cur));
        nodes := nodes[n := node];
        if n !in openList {
          openList := openList + [n];
        }
      }
    }

    /** The relaxation loop of `doStep` over the neighbours of the closed cell `cur`. */
    method RelaxNeighbours(cur: Coord, currentNode: Node, neighbours: seq<Coord>)
      requires cur in nodes && cur in closedList && currentNode == nodes[cur]
      requires forall i :: 0 <= i < |neighbours| ==> neighbours[i] in nodes
      modifies this`nodes, this`openList
      ensures State() == RelaxAll(goal, old(State()), cur, neighbours)
    {
      ghost var s := State();
      for k := 0 to |neighbours|
        invariant State() == RelaxAll(goal, s, cur, neighbours[..k])
        invariant currentNode == nodes[cur] && cur in closedList
      {
        assert neighbours[..k + 1][..k] == neighbours[..k];
        RelaxNeighbour(cur, currentNode, neighbours[k]);
      }
      assert neighbours[..|neighbours|] == neighbours;
    }

    /** `openList.remove(p)` and `closedList.append(p)`. */
    method CloseCell(p: Coord)
      requires p in openList
      modifies this`openList, this`closedList
      ensures State() == Close(old(State()), p)
    {
      openList := RemoveFirst(openList, p);
      closedList := closedList + [p];
    }

    /** `getSolution`: walks the parent links from the goal to the start and stores the reversed walk. */
    method GetSolution()
      requires KeysMatch(nodes) && LinksOk(maze.grid, State()) && ClosedRooted(start, State())
      requires goal in closedList && goal in nodes
      modifies maze`solution
      ensures maze.solution == Some(SolutionPath(maze.grid, start, State(), goal))
    {
      ghost var s := State();
      var path: seq<Coord> := [];
      var current := nodes[goal];
      ghost var c := goal;
      while Coord(current.x, current.y) != start
        invariant c in closedList && c in nodes && current == nodes[c] && Coord(current.x, current.y) == c
        invariant WalkBack(maze.grid, start, s, goal) == path + WalkBack(maze.grid, start, s, c)
        decreases current.G
      {
        WalkBackStep(maze.grid, start, s, c);
        var p := current.Parent.value;
        assert path + WalkBack(maze.grid, start, s, c) == (path + [c]) + WalkBack(maze.grid, start, s, p);
        path := path + [Coord(current.x, current.y)];
        c := p;
        current := nodes[p];
      }
      assert c == start;
      assert WalkBack(maze.grid, start, s, c) == [];
      assert path == WalkBack(maze.grid, start, s, goal);
      path := Reverse(path);
      maze.solution := Some(path);
    }

    /** `buildTempSolution`: the same walk from `currentPos`, which also stops at a cell without a parent. */
    method BuildTempSolution()
      requires KeysMatch(nodes) && LinksOk(maze.grid, State())
      requires currentPos.Some? && currentPos.value in nodes
      modifies this`tempSolution
      ensures tempSolution == Some(TempPath(maze.grid, start, State(), currentPos.value))
    {
      ghost var s, g := State(), maze.grid;
      ghost var walk := TempWalk(g, start, s, currentPos.value);
      var path: seq<Coord> := [];
      var current: Option<Node> := Some(nodes[currentPos.value]);
      ghost var c := currentPos.value;
      ghost var rest := walk;
      while current.Some? && Coord(current.value.x, current.value.y) != start
        invariant walk == path + rest
        invariant current.Some? ==> c in s.nodes && current.value == s.nodes[c] && rest == TempWalk(g, start, s, c)
        invariant current.None? ==> rest == []
        decreases if current.Some? then current.value.G + 1 else 0
      {
        assert Coord(current.value.x, current.value.y) == c;
        ghost var before := path;
        path := path + [Coord(current.value.x, current.value.y)];
        if current.value.Parent.None? {
          assert rest == [c];
          rest := [];
          current := None;
        } else {
          var p := current.value.Parent.value;
          TempWalkStep(g, start, s, c);
          ghost var next := TempWalk(g, start, s, p);
          assert before + ([c] + next) == path + next;
          rest := next;
          c := p;
          current := Some(nodes[p]);
        }
      }
      assert current.Some? ==> c == start && rest == [];
      assert path == walk;
      path := Reverse(path);
      tempSolution := Some(path);
      assert State() == s;
    }

    /** The part of `doStep` after a cell other than the goal is closed: relaxation, then `buildTempSolution`. */
    method Expand(pos: Coord, currentNode: Node)
      requires Valid() && pos in closedList && pos in nodes && currentNode == nodes[pos] && currentPos == Some(pos)
      modifies this`nodes, this`openList, this`tempSolution
      ensures Valid()
      ensures State() == RelaxAll(goal, old(State()), pos, Neighbours(old(nodes), maze.grid, pos))
      ensures tempSolution == Some(SolutionPath(maze.grid, start, State(), pos))
    {
      ghost var s := State();
      var neighbours := Neighbours(nodes, maze.grid, pos);
      NeighboursPassages(nodes, maze.grid, pos);
      RelaxAllInv(maze.grid, start, goal, s, pos, neighbours);
      RelaxNeighbours(pos, currentNode, neighbours);
      BuildTempSolution();
      TempPathShape(maze.grid, start, State(), pos);
    }

    /** One search step; `done` is what `doStep` returns. */
    method DoStep() returns (done: bool)
      requires Valid()
      modifies this, maze`solution
      ensures Valid()
      ensures State() == Step(maze.grid, goal, old(State()))
      ensures nodes.Keys == old(nodes).Keys
      ensures done <==> old(openList) == [] || Pick(old(State())) == goal
      ensures old(openList) == [] ==>
        currentPos == old(currentPos) && tempSolution == old(tempSolution) && maze.solution == old(maze.solution)
      ensures old(openList) != [] ==> currentPos == Some(Pick(old(State()))) && Pick(old(State())) in closedList
      ensures old(openList) != [] && Pick(old(State())) == goal ==>
        maze.solution == Some(SolutionPath(maze.grid, start, State(), goal)) && tempSolution == old(tempSolution)
      ensures old(openList) != [] && Pick(old(State())) != goal ==>
        tempSolution == Some(SolutionPath(maze.grid, start, State(), Pick(old(State())))) &&
        maze.solution == old(maze.solution)
    {
      ghost var s := State();
      InvReady(maze.grid, start, goal, s);
      if |openList| == 0 {
        return true;
      }
      var pos, currentNode := ScanOpen();
      currentPos := Some(pos);
      CloseCell(pos);
      CloseInv(maze.grid, start, goal, s, pos);
      if pos == goal {
        assert State() == Step(maze.grid, goal, s);
        GetSolution();
        return true;
      }
      Expand(pos, currentNode);
      assert State() == Step(maze.grid, goal, s);
      return false;
    }
  }
}
