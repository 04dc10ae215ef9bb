/**
 * `MazeBuilder`: a randomized depth-first carver that makes one move per
 * `doStep`, with `q` as its backtracking stack and `visited` as the list of
 * cells it has entered, in order.
 */
module Builder {
  import opened Seqs
  import opened Grid

  /** `build_grid` starts carving here. */
  const ORIGIN: Coord := Coord(0, 0)

  /** A wall pair, named by its upper or left cell and the direction right (1) or down (2). */
  type Edge = (Coord, Dir)

  function EdgeOf(c: Coord, d: Dir): (e: Edge)
    ensures e.1 == 1 || e.1 == 2
    ensures e == (c, d) || e == (Neighbour(c, d), Opposite(d))
  {
    if d == 1 || d == 2 then (c, d) else (Neighbour(c, d), Opposite(d))
  }

  /** Both sides of a wall name the same pair. */
  lemma EdgeOfPair(c: Coord, d: Dir)
    ensures EdgeOf(Neighbour(c, d), Opposite(d)) == EdgeOf(c, d)
  {
    DirToNeighbour(c, d);
  }

  /** Only the two sides of a wall name the same pair. */
  lemma EdgeOfInjective(a: Coord, e: Dir, b: Coord, f: Dir)
    requires EdgeOf(a, e) == EdgeOf(b, f)
    ensures (a == b && e == f) || (a == Neighbour(b, f) && e == Opposite(f))
  {
    DirToNeighbour(a, e);
    DirToNeighbour(b, f);
    if !(e == 1 || e == 2) && (f == 1 || f == 2) {
      assert Neighbour(a, e) == b && Opposite(e) == f;
      assert a == Neighbour(Neighbour(a, e), Opposite(e));
    }
  }

  /**
   * The builder's state: the wall map, `currentPos`, `q` and `visited`, plus
   * two records of the carving so far that exist only for the proof.
   */
  datatype BuildState = BuildState(
    grid: WallMap,
    current: Coord,
    stack: seq<Coord>,
    visited: seq<Coord>,
    stackIdx: seq<int>,     // the position in `visited` of each stack entry
    treeParent: seq<int>)   // for each visited cell, the earlier visited cell it was entered from

  /** Whether `doStep` lists direction `d`: the wall is up towards an existing, unvisited cell. */
  predicate Open(g: WallMap, visited: seq<Coord>, cur: Coord, d: Dir)
    requires WellFormed(g) && cur in g
  {
    g[cur][d] && Neighbour(cur, d) in g && Neighbour(cur, d) !in visited
  }

  /** The directions from `d` on that `doStep` lists, in increasing order. */
  function CandidatesFrom(g: WallMap, visited: seq<Coord>, cur: Coord, d: int): (sides: seq<Dir>)
    requires WellFormed(g) && cur in g && 0 <= d <= 4
    ensures forall e: Dir :: e in sides <==> d <= e && Open(g, visited, cur, e)
    ensures forall i :: 0 <= i < |sides| ==> d <= sides[i]
    ensures forall i, j :: 0 <= i < j < |sides| ==> sides[i] < sides[j]
    decreases 4 - d
  {
    if d == 4 then []
    else if Open(g, visited, cur, d) then [d] + CandidatesFrom(g, visited, cur, d + 1)
    else CandidatesFrom(g, visited, cur, d + 1)
  }

  /** The `sides` list of `doStep`. */
  function Candidates(g: WallMap, visited: seq<Coord>, cur: Coord): (sides: seq<Dir>)
    requires WellFormed(g) && cur in g
    ensures forall d: Dir :: d in sides <==> Open(g, visited, cur, d)
    ensures forall i, j :: 0 <= i < j < |sides| ==> sides[i] < sides[j]
  {
    CandidatesFrom(g, visited, cur, 0)
  }

  /** The cells of the grid are those of the shape, and every wall agrees from both sides. */
  ghost predicate GridOk(g: WallMap) {
    WallsConsistent(g) && (forall c :: c in g <==> InShape(c))
  }

  /** `visited` starts at the origin, has no repeats, lies in the grid and holds the current cell. */
  ghost predicate VisitedOk(s: BuildState) {
    |s.visited| > 0 && s.visited[0] == ORIGIN &&
    NoDuplicates(s.visited) &&
    (forall i :: 0 <= i < |s.visited| ==> s.visited[i] in s.grid) &&
    s.current in s.visited
  }

  /** The stack is an ordered subsequence of `visited`, without repeats. */
  ghost predicate StackOk(s: BuildState) {
    NoDuplicates(s.stack) &&
    |s.stackIdx| == |s.stack| &&
    (forall i :: 0 <= i < |s.stack| ==> 0 <= s.stackIdx[i] < |s.visited| && s.visited[s.stackIdx[i]] == s.stack[i]) &&
    (forall i, j :: 0 <= i < j < |s.stack| ==> s.stackIdx[i] < s.stackIdx[j])
  }

  /** The wall pairs between two grid cells that are down, each named once. */
  ghost function CarvedPairs(g: WallMap): set<Edge>
    requires WellFormed(g)
  {
    set c, d: Dir | c in g && (d == 1 || d == 2) && Neighbour(c, d) in g && !g[c][d] :: (c, d)
  }

  /**
   * Walls facing outside the grid stay up, only visited cells have a wall
   * down, and there is one carved wall pair fewer than visited cells.
   */
  ghost predicate EdgesOk(s: BuildState)
    requires WellFormed(s.grid)
  {
    var g := s.grid;
    (forall c, d: Dir :: c in g && Neighbour(c, d) !in g ==> g[c][d]) &&
    (forall c, d: Dir :: c in g && !g[c][d] ==> c in s.visited) &&
    |CarvedPairs(g)| == |s.visited| - 1
  }

  /** Every visited cell but the origin was entered through an open wall from an earlier one. */
  ghost predicate TreeOk(s: BuildState) {
    |s.treeParent| == |s.visited| &&
    (forall i :: 0 < i < |s.visited| ==>
      0 <= s.treeParent[i] < i && Passage(s.grid, s.visited[s.treeParent[i]], s.visited[i]))
  }

  /** The builder's invariant. */
  ghost predicate Inv(s: BuildState) {
    GridOk(s.grid) && VisitedOk(s) && StackOk(s) && EdgesOk(s) && TreeOk(s)
  }

  /** Twice the number of unvisited cells plus the stack height. */
  ghost function Measure(s: BuildState): nat {
    2 * |s.grid.Keys - Elements(s.visited)| + |s.stack|
  }

  /** A forward move in direction `d`, as `go_up`, `go_right`, `go_down` and `go_left` make it. */
  ghost function Carve(s: BuildState, d: Dir): (t: BuildState)
    requires WellFormed(s.grid) && s.current in s.grid && Neighbour(s.current, d) in s.grid
    requires s.current in s.visited
    ensures t.grid.Keys == s.grid.Keys && WellFormed(t.grid) && t.current == Neighbour(s.current, d)
    ensures !t.grid[s.current][d] && !t.grid[t.current][Opposite(d)]
    ensures t.stack == s.stack + [t.current] && t.visited == s.visited + [t.current]
  {
    var n := Neighbour(s.current, d);
    BuildState(CarveWall(s.grid, s.current, d), n, s.stack + [n], s.visited + [n],
      s.stackIdx + [|s.visited|],
      s.treeParent + [IndexOf(s.visited, s.current)])
  }

  /** `currentPos = q.pop()`. */
  ghost function Backtrack(s: BuildState): (t: BuildState)
    requires |s.stack| > 0 && |s.stackIdx| == |s.stack|
    ensures t.grid == s.grid && t.visited == s.visited
    ensures t.stack + [t.current] == s.stack
  {
    var top := |s.stack| - 1;
    BuildState(s.grid, s.stack[top], s.stack[..top], s.visited, s.stackIdx[..top], s.treeParent)
  }

  /** The range `random.choice` draws from: any index into a non-empty `sides`. */
  predicate PickOk(g: WallMap, stack: seq<Coord>, visited: seq<Coord>, cur: Coord, pick: nat)
    requires WellFormed(g) && cur in g
  {
    |stack| > 0 && |Candidates(g, visited, cur)| > 0 ==> pick < |Candidates(g, visited, cur)|
  }

  /** One `doStep`, with `pick` standing for the index `random.choice` draws. */
  ghost function Step(s: BuildState, pick: nat): (t: BuildState)
    requires WellFormed(s.grid) && s.current in s.grid && s.current in s.visited
    requires |s.stackIdx| == |s.stack|
    requires PickOk(s.grid, s.stack, s.visited, s.current, pick)
    ensures t.grid.Keys == s.grid.Keys
    ensures |s.stack| == 0 ==> t == s
    ensures |s.stack| > 0 && Candidates(s.grid, s.visited, s.current) == [] ==>
      t.grid == s.grid && t.visited == s.visited && t.stack + [t.current] == s.stack
    ensures |s.stack| > 0 && Candidates(s.grid, s.visited, s.current) != [] ==>
      Passage(t.grid, s.current, t.current) && t.current !in s.visited &&
      t.visited == s.visited + [t.current] && t.stack == s.stack + [t.current]
  {
    if |s.stack| == 0 then s
    else
      var sides := Candidates(s.grid, s.visited, s.current);
      if |sides| == 0 then Backtrack(s)
      else
        var d := sides[pick];
        assert Open(s.grid, s.visited, s.current, d);
        DirToNeighbour(s.current, d);
        Carve(s, d)
  }

  /** The state `build_grid` leaves behind satisfies the invariant. */
  lemma InitialInv(g: WallMap)
    requires forall c :: c in g <==> InShape(c)
    requires forall c :: InShape(c) ==> g[c] == [true, true, true, true]
    ensures Inv(BuildState(g, ORIGIN, [ORIGIN], [ORIGIN], [0], [0]))
  {
    var s := BuildState(g, ORIGIN, [ORIGIN], [ORIGIN], [0], [0]);
    assert WellFormed(g);
    assert WallsConsistent(g);
    assert GridOk(g);
    assert VisitedOk(s);
    assert StackOk(s);
    assert EdgesOk(s);
    assert TreeOk(s);
  }

  /** What a forward move needs: a candidate direction from a state satisfying the invariant. */
  ghost predicate CanCarve(s: BuildState, d: Dir) {
    Inv(s) && d in Candidates(s.grid, s.visited, s.current)
  }

  lemma CarveGrid(s: BuildState, d: Dir)
    requires CanCarve(s, d)
    ensures GridOk(Carve(s, d).grid)
  {
    CarveKeepsConsistent(s.grid, s.current, d);
  }

  lemma CarveVisited(s: BuildState, d: Dir)
    requires CanCarve(s, d)
    ensures VisitedOk(Carve(s, d))
  {
    var t := Carve(s, d);
    assert NoDuplicates(t.visited);
  }

  lemma CarveStack(s: BuildState, d: Dir)
    requires WellFormed(s.grid) && s.current in s.grid && Neighbour(s.current, d) in s.grid
    requires s.current in s.visited && Neighbour(s.current, d) !in s.visited && StackOk(s)
    ensures StackOk(Carve(s, d))
  {
    var n := Neighbour(s.current, d);
    var t := Carve(s, d);
    assert n !in s.stack;
    assert t.stackIdx == s.stackIdx + [|s.visited|];
    forall i | 0 <= i < |t.stack| ensures 0 <= t.stackIdx[i] < |t.visited| && t.visited[t.stackIdx[i]] == t.stack[i] {
      if i < |s.stack| {
        assert t.stackIdx[i] == s.stackIdx[i] && t.stack[i] == s.stack[i];
      }
    }
  }

  /** Carving a wall that is up adds exactly its pair to the carved pairs. */
  lemma CarvePairs(g: WallMap, c: Coord, d: Dir)
    requires WallsConsistent(g) && c in g && Neighbour(c, d) in g && g[c][d]
    ensures EdgeOf(c, d) !in CarvedPairs(g)
    ensures CarvedPairs(CarveWall(g, c, d)) == CarvedPairs(g) + {EdgeOf(c, d)}
  {
    var n := Neighbour(c, d);
    var r := CarveWall(g, c, d);
    var edge := EdgeOf(c, d);
    EdgeOfPair(c, d);
    DirToNeighbour(c, d);
    assert edge in CarvedPairs(r);
    forall x | x in CarvedPairs(r) && x != edge ensures x in CarvedPairs(g) {
      var a, e := x.0, x.1;
      assert EdgeOf(a, e) == x;
      if (a == c && e == d) || (a == n && e == Opposite(d)) {
        assert false;
      }
    }
    forall x | x in CarvedPairs(g) ensures x in CarvedPairs(r) && x != edge {
      var a, e := x.0, x.1;
      assert EdgeOf(a, e) == x;
      if x == edge {
        EdgeOfInjective(a, e, c, d);
      }
    }
  }

  /** A forward move leaves the walls facing outside the grid up and takes down walls of visited cells only. */
  lemma CarveWalls(s: BuildState, d: Dir)
    requires WellFormed(s.grid) && s.current in s.grid && Neighbour(s.current, d) in s.grid
    requires s.current in s.visited && EdgesOk(s)
    ensures var t := Carve(s, d);
      (forall c, e: Dir :: c in t.grid && Neighbour(c, e) !in t.grid ==> t.grid[c][e]) &&
      (forall c, e: Dir :: c in t.grid && !t.grid[c][e] ==> c in t.visited)
  {
    var t := Carve(s, d);
    var n := Neighbour(s.current, d);
    assert t.grid == CarveWall(s.grid, s.current, d) && t.visited == s.visited + [n];
    forall c, e: Dir | c in t.grid && Neighbour(c, e) !in t.grid ensures t.grid[c][e] {
      assert s.grid[c][e];
    }
    forall c, e: Dir | c in t.grid && !t.grid[c][e] ensures c in t.visited {
      if c != n && c != s.current {
        assert !s.grid[c][e];
      }
    }
  }

  lemma CarveEdges(s: BuildState, d: Dir)
    requires WallsConsistent(s.grid) && s.current in s.grid && Neighbour(s.current, d) in s.grid
    requires s.current in s.visited && Neighbour(s.current, d) !in s.visited && s.grid[s.current][d]
    requires EdgesOk(s)
    ensures EdgesOk(Carve(s, d))
  {
    var t := Carve(s, d);
    assert t.grid == CarveWall(s.grid, s.current, d) && |t.visited| == |s.visited| + 1;
    CarvePairs(s.grid, s.current, d);
    assert |CarvedPairs(t.grid)| == |CarvedPairs(s.grid)| + 1;
    CarveWalls(s, d);
  }

  lemma CarveTree(s: BuildState, d: Dir)
    requires WellFormed(s.grid) && s.current in s.grid && Neighbour(s.current, d) in s.grid
    requires s.current in s.visited && TreeOk(s)
    ensures TreeOk(Carve(s, d))
  {
    var cur := s.current;
    var n := Neighbour(cur, d);
    var t := Carve(s, d);
    var g, r := s.grid, t.grid;
    DirToNeighbour(cur, d);
    var k := IndexOf(s.visited, cur);
    assert Passage(r, t.visited[k], n);
    forall i | 0 < i < |t.visited|
      ensures 0 <= t.treeParent[i] < i && Passage(r, t.visited[t.treeParent[i]], t.visited[i])
    {
      if i < |s.visited| {
        var a, b := s.visited[s.treeParent[i]], s.visited[i];
        assert Passage(g, a, b);
        assert Neighbour(a, DirTo(a, b)) == b;
      }
    }
  }

  lemma CarveMeasure(s: BuildState, d: Dir)
    requires WellFormed(s.grid) && s.current in s.grid && Neighbour(s.current, d) in s.grid
    requires s.current in s.visited && Neighbour(s.current, d) !in s.visited
    ensures Measure(Carve(s, d)) == Measure(s) - 1
  {
    var n := Neighbour(s.current, d);
    var t := Carve(s, d);
    assert Elements(t.visited) == Elements(s.visited) + {n};
    assert s.grid.Keys - Elements(s.visited) == (t.grid.Keys - Elements(t.visited)) + {n};
  }

  /** A forward move keeps the invariant and lowers the measure by one. */
  lemma CarveInv(s: BuildState, d: Dir)
    requires CanCarve(s, d)
    ensures Inv(Carve(s, d))
    ensures Measure(Carve(s, d)) == Measure(s) - 1
  {
    CarveGrid(s, d);
    CarveVisited(s, d);
    CarveStack(s, d);
    CarveEdges(s, d);
    CarveTree(s, d);
    CarveMeasure(s, d);
  }

  /** A backtracking move keeps the invariant and lowers the measure by one. */
  lemma BacktrackInv(s: BuildState)
    requires Inv(s) && |s.stack| > 0
    ensures Inv(Backtrack(s))
    ensures Measure(Backtrack(s)) == Measure(s) - 1
  {
    var t := Backtrack(s);
    var top := |s.stack| - 1;
    assert s.visited[s.stackIdx[top]] == s.stack[top];
    assert VisitedOk(t);
    assert StackOk(t);
    assert t.grid == s.grid && t.visited == s.visited && t.treeParent == s.treeParent;
    assert EdgesOk(t);
    assert TreeOk(t);
    assert Elements(t.visited) == Elements(s.visited);
  }

  /**
   * Every `doStep` keeps the invariant; a step on an empty stack changes
   * nothing and every other step lowers the measure; walls only come down.
   * With no candidate side the step pops the stack into `currentPos` and
   * changes no wall and no visited entry; otherwise `visited` grows by an
   * existing, unvisited neighbour of `currentPos` whose wall was up, the wall
   * pair between them comes down, and the neighbour is pushed and becomes current.
   */
  lemma StepSpec(s: BuildState, pick: nat)
    requires Inv(s) && PickOk(s.grid, s.stack, s.visited, s.current, pick)
    ensures Inv(Step(s, pick))
    ensures |s.stack| == 0 ==> Step(s, pick) == s
    ensures |s.stack| > 0 ==> Measure(Step(s, pick)) < Measure(s)
    ensures Step(s, pick).grid.Keys == s.grid.Keys
    ensures forall c, e: Dir :: c in s.grid && !s.grid[c][e] ==> !Step(s, pick).grid[c][e]
    ensures s.visited <= Step(s, pick).visited
    ensures var t := Step(s, pick);
      (|s.stack| > 0 && Candidates(s.grid, s.visited, s.current) == []) ==>
        t.grid == s.grid && t.visited == s.visited &&
        t.current == s.stack[|s.stack| - 1] && t.stack == s.stack[..|s.stack| - 1]
    ensures var t := Step(s, pick);
      (|s.stack| > 0 && Candidates(s.grid, s.visited, s.current) != []) ==>
        |t.visited| == |s.visited| + 1 &&
        var n := t.visited[|s.visited|];
        n in s.grid && n !in s.visited && Adjacent(s.current, n) && s.grid[s.current][DirTo(s.current, n)] &&
        Passage(t.grid, s.current, n) && Passage(t.grid, n, s.current) && t.stack == s.stack + [n] && t.current == n
  {
    if |s.stack| > 0 {
      var sides := Candidates(s.grid, s.visited, s.current);
      if |sides| == 0 {
        BacktrackInv(s);
      } else {
        var d := sides[pick];
        CarveInv(s, d);
        DirToNeighbour(s.current, d);
      }
    }
  }

  class MazeBuilder {
    const maze: Maze
    var currentPos: Option<Coord>
    var q: seq<Coord>
    var visited: seq<Coord>
    ghost var stackIdx: seq<int>
    ghost var treeParent: seq<int>

    constructor (maze: Maze)
      ensures this.maze == maze && currentPos == None && q == [] && visited == []
      ensures stackIdx == [] && treeParent == []
    {
      this.maze := maze;
      currentPos := None;
      q, visited := [], [];
      stackIdx, treeParent := [], [];
    }

    ghost function State(): BuildState
      reads this, maze
      requires currentPos.Some?
    {
      BuildState(maze.grid, currentPos.value, q, visited, stackIdx, treeParent)
    }

    ghost predicate Valid()
      reads this, maze
    {
      currentPos.Some? && Inv(State())
    }

    /** The inner loop of `build_grid`: adds the cells of column `j`, walls up, skipping the interior block. */
    method BuildColumn(j: int)
      requires 0 <= j < XCELLS
      modifies maze`grid
      ensures forall c :: c in maze.grid <==> c in old(maze.grid) || (InShape(c) && c.col == j)
      ensures forall c :: InShape(c) && c.col == j ==> maze.grid[c] == [true, true, true, true]
      ensures forall c :: c in old(maze.grid) && !(InShape(c) && c.col == j) ==> maze.grid[c] == old(maze.grid)[c]
    {
      for i := 0 to YCELLS
        invariant forall c :: c in maze.grid <==> c in old(maze.grid) || (InShape(c) && c.col == j && c.row < i)
        invariant forall c :: InShape(c) && c.col == j && c.row < i ==> maze.grid[c] == [true, true, true, true]
        invariant forall c :: c in old(maze.grid) && !(InShape(c) && c.col == j && c.row < i) ==>
          maze.grid[c] == old(maze.grid)[c]
      {
        var g := [true, true, true, true];
        if !(i > 10 && i < 20 && j > 10 && j < 20) {
          maze.grid := maze.grid[Coord(j, i) := g];
        }
      }
    }

    /** Fills the lattice with all-walls-up cells except the interior block, and seeds `q` and `visited`. */
    method BuildGrid()
      modifies this, maze`grid
      ensures forall c :: c in maze.grid <==> c in old(maze.grid) || InShape(c)
      ensures forall c :: InShape(c) ==> maze.grid[c] == [true, true, true, true]
      ensures forall c :: c in old(maze.grid) && !InShape(c) ==> maze.grid[c] == old(maze.grid)[c]
      ensures currentPos == Some(ORIGIN) && q == old(q) + [ORIGIN] && visited == old(visited) + [ORIGIN]
      ensures old(maze.grid) == map[] && old(q) == [] && old(visited) == [] ==> Valid()
    {
      for j := 0 to XCELLS
        invariant q == old(q) && visited == old(visited)
        invariant forall c :: c in maze.grid <==> c in old(maze.grid) || (InShape(c) && c.col < j)
        invariant forall c :: InShape(c) && c.col < j ==> maze.grid[c] == [true, true, true, true]
        invariant forall c :: c in old(maze.grid) && !(InShape(c) && c.col < j) ==> maze.grid[c] == old(maze.grid)[c]
      {
        BuildColumn(j);
      }
      currentPos := Some(ORIGIN);
      q := q + [currentPos.value];
      visited := visited + [currentPos.value];
      stackIdx, treeParent := [0], [0];
      if old(maze.grid) == map[] && old(q) == [] && old(visited) == [] {
        InitialInv(maze.grid);
        assert State() == BuildState(maze.grid, ORIGIN, [ORIGIN], [ORIGIN], [0], [0]);
      }
    }

    method GoUp()
      requires currentPos.Some? && WellFormed(maze.grid) && currentPos.value in maze.grid
      requires Neighbour(currentPos.value, 0) in maze.grid && currentPos.value in visited
      modifies this, maze`grid
      ensures currentPos.Some? && State() == Carve(old(State()), 0)
    {
      ghost var s := State();
      maze.grid := maze.grid[currentPos.value := maze.grid[currentPos.value][0 := false]];
      currentPos := Some(Coord(currentPos.value.col, currentPos.value.row - 1));
      maze.grid := maze.grid[currentPos.value := maze.grid[currentPos.value][2 := false]];
      visited := visited + [currentPos.value];
      q := q + [currentPos.value];
      stackIdx := stackIdx + [|s.visited|];
      treeParent := treeParent + [IndexOf(s.visited, s.current)];
    }

    method GoRight()
      requires currentPos.Some? && WellFormed(maze.grid) && currentPos.value in maze.grid
      requires Neighbour(currentPos.value, 1) in maze.grid && currentPos.value in visited
      modifies this, maze`grid
      ensures currentPos.Some? && State() == Carve(old(State()), 1)
    {
      ghost var s := State();
      maze.grid := maze.grid[currentPos.value := maze.grid[currentPos.value][1 := false]];
      currentPos := Some(Coord(currentPos.value.col + 1, currentPos.value.row));
      maze.grid := maze.grid[currentPos.value := maze.grid[currentPos.value][3 := false]];
      visited := visited + [currentPos.value];
      q := q + [currentPos.value];
      stackIdx := stackIdx + [|s.visited|];
      treeParent := treeParent + [IndexOf(s.visited, s.current)];
    }

    method GoDown()
      requires currentPos.Some? && WellFormed(maze.grid) && currentPos.value in maze.grid
      requires Neighbour(currentPos.value, 2) in maze.grid && currentPos.value in visited
      modifies this, maze`grid
      ensures currentPos.Some? && State() == Carve(old(State()), 2)
    {
      ghost var s := State();
      maze.grid := maze.grid[currentPos.value := maze.grid[currentPos.value][2 := false]];
      currentPos := Some(Coord(currentPos.value.col, currentPos.value.row + 1));
      maze.grid := maze.grid[currentPos.value := maze.grid[currentPos.value][0 := false]];
      visited := visited + [currentPos.value];
      q := q + [currentPos.value];
      stackIdx := stackIdx + [|s.visited|];
      treeParent := treeParent + [IndexOf(s.visited, s.current)];
    }

    method GoLeft()
      requires currentPos.Some? && WellFormed(maze.grid) && currentPos.value in maze.grid
      requires Neighbour(currentPos.value, 3) in maze.grid && currentPos.value in visited
      modifies this, maze`grid
      ensures currentPos.Some? && State() == Carve(old(State()), 3)
    {
      ghost var s := State();
      maze.grid := maze.grid[currentPos.value := maze.grid[currentPos.value][3 := false]];
      currentPos := Some(Coord(currentPos.value.col - 1, currentPos.value.row));
      maze.grid := maze.grid[currentPos.value := maze.grid[currentPos.value][1 := false]];
      visited := visited + [currentPos.value];
      q := q + [currentPos.value];
      stackIdx := stackIdx + [|s.visited|];
      treeParent := treeParent + [IndexOf(s.visited, s.current)];
    }

    /** The dispatch on the chosen side at the end of `doStep`. */
    method Go(side: Dir)
      requires currentPos.Some? && WellFormed(maze.grid) && currentPos.value in maze.grid
      requires Neighbour(currentPos.value, side) in maze.grid && currentPos.value in visited
      modifies this, maze`grid
      ensures currentPos.Some? && State() == Carve(old(State()), side)
    {
      if side == 0 {
        GoUp();
      } else if side == 1 {
        GoRight();
      } else if side == 2 {
        GoDown();
      } else {
        GoLeft();
      }
    }

    /** `currentPos = q.pop()`. */
    method Pop()
      requires currentPos.Some? && |q| > 0 && |stackIdx| == |q|
      modifies this
      ensures currentPos.Some? && State() == Backtrack(old(State()))
    {
      currentPos := Some(q[|q| - 1]);
      q := q[..|q| - 1];
      stackIdx := stackIdx[..|stackIdx| - 1];
    }

    /** One move of the carver; `pick` is the index `random.choice` would draw from `sides`. */
    method DoStep(pick: nat) returns (done: bool)
      requires Valid() && PickOk(maze.grid, q, visited, currentPos.value, pick)
      modifies this, maze`grid
      ensures Valid()
      ensures done <==> old(|q|) == 0
      ensures State() == Step(old(State()), pick)
    {
      ghost var s := State();
      StepSpec(s, pick);
      if |q| == 0 {
        return true;
      }
      var sides := Candidates(maze.grid, visited, currentPos.value);
      if |sides| == 0 {
        Pop();
      } else {
        var side := sides[pick];
        assert Neighbour(currentPos.value, side) in maze.grid;
        Go(side);
      }
      return false;
    }
  }
}
