/**
 * The wall map shared by the maze builder and the maze solver (`Maze.grid`):
 * a map from a cell's (col, row) to its four wall flags, together with the
 * paired wall clearing that carving a passage performs.
 */
module Grid {

  datatype Option<T> = None | Some(value: T)

  /** Lattice size used by `build_grid` and `build_nodes`. */
  const XCELLS: int := 30
  const YCELLS: int := 40

  datatype Coord = Coord(col: int, row: int)

  /** Index into a cell's wall flags: 0 = up (row - 1), 1 = right (col + 1), 2 = down (row + 1), 3 = left (col - 1). */
  type Dir = d: int | 0 <= d < 4

  /** Wall flags per cell; `true` means the wall is up. */
  type WallMap = map<Coord, seq<bool>>

  predicate Adjacent(a: Coord, b: Coord) {
    (a.col == b.col && (b.row == a.row - 1 || b.row == a.row + 1)) ||
    (a.row == b.row && (b.col == a.col + 1 || b.col == a.col - 1))
  }

  /** The cell one step from `c` in direction `d`. */
  function Neighbour(c: Coord, d: Dir): (n: Coord)
    ensures Adjacent(c, n)
  {
    if d == 0 then Coord(c.col, c.row - 1)
    else if d == 1 then Coord(c.col + 1, c.row)
    else if d == 2 then Coord(c.col, c.row + 1)
    else Coord(c.col - 1, c.row)
  }

  /** The wall index on the far side of a wall: 0 <-> 2, 1 <-> 3. */
  function Opposite(d: Dir): (e: Dir)
    ensures e != d
    ensures forall c :: Neighbour(Neighbour(c, d), e) == c
  {
    (d + 2) % 4
  }

  /** The direction leading from `a` to its neighbour `b`. */
  function DirTo(a: Coord, b: Coord): (d: Dir)
    requires Adjacent(a, b)
    ensures Neighbour(a, d) == b
  {
    if b.row == a.row - 1 then 0
    else if b.col == a.col + 1 then 1
    else if b.row == a.row + 1 then 2
    else 3
  }

  lemma DirToNeighbour(c: Coord, d: Dir)
    ensures Opposite(Opposite(d)) == d
    ensures DirTo(c, Neighbour(c, d)) == d
    ensures DirTo(Neighbour(c, d), c) == Opposite(d)
  {
  }

  predicate InLattice(c: Coord) {
    0 <= c.col < XCELLS && 0 <= c.row < YCELLS
  }

  /** The cells `build_grid` creates: the lattice minus the block 10 < col < 20, 10 < row < 20. */
  predicate InShape(c: Coord) {
    InLattice(c) && !(10 < c.col < 20 && 10 < c.row < 20)
  }

  /** Every cell carries exactly four wall flags. */
  predicate WellFormed(g: WallMap) {
    forall c :: c in g ==> |g[c]| == 4
  }

  /** Between two cells of the grid, the wall seen from either side is the same. */
  predicate WallsConsistent(g: WallMap) {
    WellFormed(g) &&
    forall c, d: Dir :: c in g && Neighbour(c, d) in g ==> g[c][d] == g[Neighbour(c, d)][Opposite(d)]
  }

  /** There is no wall up on `a`'s side between `a` and its grid neighbour `b`. */
  predicate Passage(g: WallMap, a: Coord, b: Coord) {
    a in g && |g[a]| == 4 && Adjacent(a, b) && !g[a][DirTo(a, b)]
  }

  /**
   * Clearing a wall pair as `go_up`, `go_right`, `go_down` and `go_left` do:
   * the flag `d` of `c` is cleared, then the opposite flag of the neighbour.
   */
  function CarveWall(g: WallMap, c: Coord, d: Dir): (r: WallMap)
    requires WellFormed(g) && c in g && Neighbour(c, d) in g
    ensures r.Keys == g.Keys && WellFormed(r)
    ensures forall a, e: Dir :: a in g ==>
      r[a][e] == (g[a][e] && !((a == c && e == d) || (a == Neighbour(c, d) && e == Opposite(d))))
  {
    var g1 := g[c := g[c][d := false]];
    var n := Neighbour(c, d);
    g1[n := g1[n][Opposite(d) := false]]
  }

  /** Carving keeps the two sides of every wall in agreement. */
  lemma CarveKeepsConsistent(g: WallMap, c: Coord, d: Dir)
    requires WallsConsistent(g) && c in g && Neighbour(c, d) in g
    ensures WallsConsistent(CarveWall(g, c, d))
  {
    var r := CarveWall(g, c, d);
    var n := Neighbour(c, d);
    forall a, e: Dir | a in r && Neighbour(a, e) in r
      ensures r[a][e] == r[Neighbour(a, e)][Opposite(e)]
    {
      var b := Neighbour(a, e);
      assert Neighbour(b, Opposite(e)) == a;
      if b == c && Opposite(e) == d {
        assert a == n && e == Opposite(d);
      } else if b == n && Opposite(e) == Opposite(d) {
        assert a == c && e == d;
      }
    }
  }

  /** The wall map of one maze session; the solver records its final path here. */
  class Maze {
    var grid: WallMap
    var solution: Option<seq<Coord>>

    constructor ()
      ensures grid == map[] && solution == None
    {
      grid := map[];
      solution := None;
    }
  }
}
