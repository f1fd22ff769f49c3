/**
 * The corridor grid (classes/lattice.py): `len_x` rows of `len_y` cells, cell
 * `cells[x][y]` at position `(x, y)`, each wired to its clipped Moore
 * neighbourhood. The container is never reassigned after construction; only the
 * cells' own fields change, so `cells` is a constant sequence of rows and every
 * mutator's frame is the set of cells.
 */
module Lattices {
  import opened Helpers
  import opened Wrappers
  import opened Randomness
  import opened Cells
  import T = Transitions

  class Lattice {
    const lenX: nat
    const lenY: nat
    const nCells: int
    const cells: seq<seq<Cell>>

    /** `cells` is `lenX` rows of `lenY` cells and `cells[x][y]` is at `(x, y)`. */
    predicate Shaped()
    {
      |cells| == lenX
      && (forall i :: 0 <= i < lenX ==> |cells[i]| == lenY)
      && (forall i, j :: 0 <= i < lenX && 0 <= j < lenY ==> cells[i][j].x == i && cells[i][j].y == j)
    }

    /** All cells of the grid. */
    function CellSet(): set<Cell>
    {
      set i, j | 0 <= i < |cells| && 0 <= j < |cells[i]| :: cells[i][j]
    }

    /** The cell at position `c`. */
    function At(c: Coord): (r: Cell)
      requires Shaped() && InGrid(c, lenX, lenY)
      ensures r in CellSet()
    {
      cells[c.0][c.1]
    }

    /** Every cell of the grid is allocated, so functions of the grid keep their values across calls that change none of its cells. */
    lemma CellsAllocated()
      ensures forall c :: c in CellSet() ==> allocated(c)
    {
    }

    /** A cell belongs to the grid exactly when it sits at its own position in it. */
    lemma Members(c: Cell)
      requires Shaped()
      ensures c in CellSet() <==> InGrid((c.x, c.y), lenX, lenY) && At((c.x, c.y)) == c
    {
    }

    /** The cells at a list of positions, in order. */
    function CellsAt(cs: seq<Coord>): (r: seq<Cell>)
      requires Shaped() && forall k :: 0 <= k < |cs| ==> InGrid(cs[k], lenX, lenY)
      ensures |r| == |cs| && forall k :: 0 <= k < |cs| ==> r[k] == At(cs[k])
    {
      seq(|cs|, k requires 0 <= k < |cs| => At(cs[k]))
    }

    /** The cells `load_neighbours` gives the cell at `(x, y)`. */
    function NeighborCells(x: int, y: int): (r: seq<Cell>)
      requires Shaped() && InGrid((x, y), lenX, lenY)
      ensures |r| == |NeighborCoords(x, y, lenX, lenY)|
      ensures forall k :: 0 <= k < |r| ==> InGrid((r[k].x, r[k].y), lenX, lenY)
    {
      NeighborsValid(x, y, lenX, lenY);
      CellsAt(NeighborCoords(x, y, lenX, lenY))
    }

    /** Every occupant is -1, 0 or 1. */
    ghost predicate Occupancies()
      reads CellSet()
      requires Shaped()
    {
      forall i, j :: 0 <= i < lenX && 0 <= j < lenY ==> -1 <= cells[i][j].value <= 1
    }

    /** Every neighbour of every cell is the cell of this grid at the neighbour's position. */
    ghost predicate Wired()
      reads CellSet()
      requires Shaped()
    {
      forall i, j, k :: 0 <= i < lenX && 0 <= j < lenY && 0 <= k < |cells[i][j].neighbors| ==>
        InGrid((cells[i][j].neighbors[k].x, cells[i][j].neighbors[k].y), lenX, lenY)
        && cells[i][j].neighbors[k] == At((cells[i][j].neighbors[k].x, cells[i][j].neighbors[k].y))
    }

    /** Each cell's neighbour list is exactly the cells at its neighbour coordinates, in their order. */
    ghost predicate Loaded()
      reads CellSet()
      requires Shaped()
    {
      forall i, j :: 0 <= i < lenX && 0 <= j < lenY ==> cells[i][j].neighbors == NeighborCells(i, j)
    }

    /** A grid as `Lattice(len_x, len_y)` leaves it: shaped, with occupants in range and neighbours loaded once. */
    ghost predicate Valid()
      reads CellSet()
    {
      Shaped() && Occupancies() && Loaded() && nCells == lenX * lenY
    }

    /** Neighbour lists that did not change keep pointing into the grid. */
    twostate lemma KeepsWired()
      requires Shaped() && old(Wired()) && Neighbourhoods() == old(Neighbourhoods())
      ensures Wired()
    {
      assert forall i, j :: 0 <= i < lenX && 0 <= j < lenY ==> cells[i][j].neighbors == Neighbourhoods()[i][j];
    }

    lemma LoadedIsWired()
      requires Shaped() && Loaded()
      ensures Wired()
    {
      forall i, j, k | 0 <= i < lenX && 0 <= j < lenY && 0 <= k < |cells[i][j].neighbors|
        ensures InGrid((cells[i][j].neighbors[k].x, cells[i][j].neighbors[k].y), lenX, lenY)
        ensures cells[i][j].neighbors[k] == At((cells[i][j].neighbors[k].x, cells[i][j].neighbors[k].y))
      {
        NeighborsValid(i, j, lenX, lenY);
        var c := NeighborCoords(i, j, lenX, lenY)[k];
        assert cells[i][j].neighbors[k] == cells[c.0][c.1];
      }
    }

    /** `get_value_array`: the grid of occupants. */
    function Values(): (g: seq<seq<int>>)
      reads CellSet()
      requires Shaped()
      ensures T.IsGrid(g, lenX, lenY)
      ensures forall i, j :: 0 <= i < lenX && 0 <= j < lenY ==> g[i][j] == cells[i][j].value
    {
      seq(|cells|, i requires 0 <= i < |cells| reads CellSet() =>
        seq(|cells[i]|, j requires 0 <= j < |cells[i]| reads CellSet() => cells[i][j].value))
    }

    /** The grid of left-exit distances. */
    ghost function LeftDistances(): (d: seq<seq<real>>)
      reads CellSet()
      requires Shaped()
      ensures T.IsGrid(d, lenX, lenY)
      ensures forall i, j :: 0 <= i < lenX && 0 <= j < lenY ==> d[i][j] == cells[i][j].leftExitDistance
    {
      seq(|cells|, i requires 0 <= i < |cells| reads CellSet() =>
        seq(|cells[i]|, j requires 0 <= j < |cells[i]| reads CellSet() => cells[i][j].leftExitDistance))
    }

    /** The grid of right-exit distances. */
    ghost function RightDistances(): (d: seq<seq<real>>)
      reads CellSet()
      requires Shaped()
      ensures T.IsGrid(d, lenX, lenY)
      ensures forall i, j :: 0 <= i < lenX && 0 <= j < lenY ==> d[i][j] == cells[i][j].rightExitDistance
    {
      seq(|cells|, i requires 0 <= i < |cells| reads CellSet() =>
        seq(|cells[i]|, j requires 0 <= j < |cells[i]| reads CellSet() => cells[i][j].rightExitDistance))
    }

    /** The grid of neighbour lists. */
    ghost function Neighbourhoods(): (g: seq<seq<seq<Cell>>>)
      reads CellSet()
      requires Shaped()
      ensures T.IsGrid(g, lenX, lenY)
      ensures forall i, j :: 0 <= i < lenX && 0 <= j < lenY ==> g[i][j] == cells[i][j].neighbors
    {
      seq(|cells|, i requires 0 <= i < |cells| reads CellSet() =>
        seq(|cells[i]|, j requires 0 <= j < |cells[i]| reads CellSet() => cells[i][j].neighbors))
    }

    /**
     * `Lattice(len_x, len_y)`. The exit distances, computed in the source with
     * `math.dist`, are the caller's functions `leftExit` and `rightExit` here.
     */
    constructor (lenX: nat, lenY: nat, leftExit: (int, int) -> real, rightExit: (int, int) -> real)
      ensures this.lenX == lenX && this.lenY == lenY
      ensures Valid() && fresh(CellSet())
      ensures forall i, j :: 0 <= i < lenX && 0 <= j < lenY ==>
                cells[i][j].value == 0
                && cells[i][j].leftExitDistance == leftExit(i, j)
                && cells[i][j].rightExitDistance == rightExit(i, j)
    {
      this.lenX := lenX;
      this.lenY := lenY;
      var grid := InitializeGrid(lenX, lenY, leftExit, rightExit);
      this.cells := grid;
      this.nCells := lenX * lenY;
      new;
      LoadFresh();
    }

    /**
     * The `load_neighbours` of `__init__`, on cells with no neighbours yet: every
     * cell fits, and each list becomes the cell's neighbourhood.
     */
    method LoadFresh()
      requires Shaped() && forall i, j :: 0 <= i < lenX && 0 <= j < lenY ==> cells[i][j].neighbors == []
      modifies CellSet()
      ensures Loaded()
      ensures forall i, j :: 0 <= i < lenX && 0 <= j < lenY ==>
                cells[i][j].Snap() == old(cells[i][j].Snap()).(neighbors := cells[i][j].neighbors)
    {
      forall i, j | 0 <= i < lenX && 0 <= j < lenY
        ensures Fits(cells[i][j].neighbors, |NeighborCoords(i, j, lenX, lenY)|)
      {
        NeighborShape(i, j, lenX, lenY);
      }
      var ok := LoadNeighbours();
      forall i, j | 0 <= i < lenX && 0 <= j < lenY
        ensures cells[i][j].neighbors == [] + NeighborCells(i, j)
      {
        assert [] + NeighborCells(i, j) == NeighborCells(i, j);
      }
    }

    /**
     * `initialize_grid`: row by row, a fresh empty cell with no neighbours at every
     * position.
     */
    static method InitializeGrid(lenX: nat, lenY: nat, leftExit: (int, int) -> real, rightExit: (int, int) -> real)
      returns (grid: seq<seq<Cell>>)
      ensures |grid| == lenX && forall i :: 0 <= i < lenX ==> |grid[i]| == lenY
      ensures forall i, j :: 0 <= i < lenX && 0 <= j < lenY ==>
                fresh(grid[i][j]) && grid[i][j].x == i && grid[i][j].y == j
                && grid[i][j].Snap() == Snapshot(0, leftExit(i, j), rightExit(i, j), [])
    {
      grid := seq(lenX, _ => []);
      for x := 0 to lenX
        invariant |grid| == lenX
        invariant forall i :: 0 <= i < x ==> |grid[i]| == lenY
        invariant forall i :: x <= i < lenX ==> grid[i] == []
        invariant forall i, j :: 0 <= i < x && 0 <= j < lenY ==>
                    fresh(grid[i][j]) && grid[i][j].x == i && grid[i][j].y == j
                    && grid[i][j].Snap() == Snapshot(0, leftExit(i, j), rightExit(i, j), [])
      {
        for y := 0 to lenY
          invariant |grid| == lenX
          invariant forall i :: 0 <= i < x ==> |grid[i]| == lenY
          invariant |grid[x]| == y
          invariant forall i :: x < i < lenX ==> grid[i] == []
          invariant forall i, j :: 0 <= i < x && 0 <= j < lenY ==>
                      fresh(grid[i][j]) && grid[i][j].x == i && grid[i][j].y == j
                      && grid[i][j].Snap() == Snapshot(0, leftExit(i, j), rightExit(i, j), [])
          invariant forall j :: 0 <= j < y ==>
                      fresh(grid[x][j]) && grid[x][j].x == x && grid[x][j].y == j
                      && grid[x][j].Snap() == Snapshot(0, leftExit(x, j), rightExit(x, j), [])
        {
          var cell := new Cell(x, y, leftExit(x, y), rightExit(x, y));
          grid := grid[x := grid[x] + [cell]];
        }
      }
    }

    /** `add_neighbor`'s assertion holds throughout when `extra` neighbours are appended to `ns`. */
    static predicate Fits(ns: seq<Cell>, extra: nat)
    {
      extra == 0 || |ns| + extra <= 9
    }

    /**
     * `load_neighbours`: appends to each cell, in row-major order, the cells at its
     * neighbour coordinates. `ok` is false when some `add_neighbor` assertion fails,
     * which happens exactly when a cell would be taken past 9 neighbours; only
     * neighbour lists change, and on success each one is extended by its
     * neighbourhood.
     */
    method LoadNeighbours() returns (ok: bool)
      requires Shaped()
      modifies CellSet()
      ensures forall i, j :: 0 <= i < lenX && 0 <= j < lenY ==>
                cells[i][j].Snap() == old(cells[i][j].Snap()).(neighbors := cells[i][j].neighbors)
      ensures ok <==> forall i, j :: 0 <= i < lenX && 0 <= j < lenY ==>
                        Fits(old(cells[i][j].neighbors), |NeighborCoords(i, j, lenX, lenY)|)
      ensures ok ==> forall i, j :: 0 <= i < lenX && 0 <= j < lenY ==>
                       cells[i][j].neighbors == old(cells[i][j].neighbors) + NeighborCells(i, j)
    {
      for x := 0 to lenX
        invariant forall i, j :: 0 <= i < lenX && 0 <= j < lenY ==>
                    cells[i][j].Snap() == old(cells[i][j].Snap()).(neighbors := cells[i][j].neighbors)
        invariant forall i, j :: 0 <= i < x && 0 <= j < lenY ==>
                    Fits(old(cells[i][j].neighbors), |NeighborCoords(i, j, lenX, lenY)|)
                    && cells[i][j].neighbors == old(cells[i][j].neighbors) + NeighborCells(i, j)
        invariant forall i, j :: x <= i < lenX && 0 <= j < lenY ==>
                    cells[i][j].neighbors == old(cells[i][j].neighbors)
      {
        for y := 0 to lenY
          invariant forall i, j :: 0 <= i < lenX && 0 <= j < lenY ==>
                      cells[i][j].Snap() == old(cells[i][j].Snap()).(neighbors := cells[i][j].neighbors)
          invariant forall i, j :: (0 <= i < x && 0 <= j < lenY) || (i == x && 0 <= j < y) ==>
                      Fits(old(cells[i][j].neighbors), |NeighborCoords(i, j, lenX, lenY)|)
                      && cells[i][j].neighbors == old(cells[i][j].neighbors) + NeighborCells(i, j)
          invariant forall i, j :: (x < i < lenX && 0 <= j < lenY) || (i == x && y <= j < lenY) ==>
                      cells[i][j].neighbors == old(cells[i][j].neighbors)
        {
          ok := LoadCell(x, y);
          if !ok {
            return;
          }
        }
      }
      ok := true;
    }

    /** The innermost loop of `load_neighbours`, for the cell at `(x, y)`. */
    method LoadCell(x: int, y: int) returns (ok: bool)
      requires Shaped() && InGrid((x, y), lenX, lenY)
      modifies cells[x][y]
      ensures cells[x][y].Snap() == old(cells[x][y].Snap()).(neighbors := cells[x][y].neighbors)
      ensures ok <==> Fits(old(cells[x][y].neighbors), |NeighborCoords(x, y, lenX, lenY)|)
      ensures ok ==> cells[x][y].neighbors == old(cells[x][y].neighbors) + NeighborCells(x, y)
    {
      var cell := cells[x][y];
      var coords := NeighborCoords(cell.x, cell.y, lenX, lenY);
      NeighborsValid(x, y, lenX, lenY);
      ghost var before := cell.neighbors;
      for k := 0 to |coords|
        invariant cell.Snap() == old(cell.Snap()).(neighbors := cell.neighbors)
        invariant k > 0 ==> |before| + k <= 9
        invariant |cell.neighbors| == |before| + k && cell.neighbors[..|before|] == before
        invariant forall m :: 0 <= m < k ==> cell.neighbors[|before| + m] == At(coords[m])
      {
        ok := cell.AddNeighbor(At(coords[k]));
        if !ok {
          return;
        }
      }
      assert cell.neighbors == before + NeighborCells(x, y);
      ok := true;
    }

    /** `get_random_cell`: a cell at a position drawn uniformly (two draws). */
    method GetRandomCell(g: Rng) returns (c: Cell, g': Rng)
      requires Shaped() && lenX >= 1 && lenY >= 1
      ensures InGrid((c.x, c.y), lenX, lenY) && c == At((c.x, c.y))
      ensures g' == Advance(Advance(g))
    {
      var rx := RandInt(g, 0, lenX - 1);
      var ry := RandInt(rx.1, 0, lenY - 1);
      c, g' := cells[rx.0][ry.0], ry.1;
    }

    /** The cells of `r` sit at strictly increasing positions in row-major order (so no cell repeats). */
    static predicate Ascending(r: seq<Cell>)
    {
      forall a, b :: 0 <= a < b < |r| ==> Before((r[a].x, r[a].y), (r[b].x, r[b].y))
    }

    /** The occupied cells from position `(x, y)` on, in row-major order. */
    function PopulatedFrom(x: nat, y: nat): (r: seq<Cell>)
      reads CellSet()
      requires Shaped() && x <= lenX && y <= lenY
      ensures forall k :: 0 <= k < |r| ==>
                InGrid((r[k].x, r[k].y), lenX, lenY) && r[k] == At((r[k].x, r[k].y)) && r[k].value != 0
                && !Before((r[k].x, r[k].y), (x, y))
      decreases lenX - x, lenY - y
    {
      if x == lenX then []
      else if y == lenY then PopulatedFrom(x + 1, 0)
      else
        var rest := PopulatedFrom(x, y + 1);
        if cells[x][y].value != 0 then [cells[x][y]] + rest else rest
    }

    /** Every occupied cell at or after `(x, y)` is listed. */
    lemma {:induction false} PopulatedFromComplete(x: nat, y: nat)
      requires Shaped() && x <= lenX && y <= lenY
      ensures forall i, j :: 0 <= i < lenX && 0 <= j < lenY && !Before((i, j), (x, y)) && cells[i][j].value != 0
                ==> cells[i][j] in PopulatedFrom(x, y)
      decreases lenX - x, lenY - y
    {
      if x == lenX {
      } else if y == lenY {
        PopulatedFromComplete(x + 1, 0);
        assert PopulatedFrom(x, y) == PopulatedFrom(x + 1, 0);
        forall i, j | 0 <= i < lenX && 0 <= j < lenY && !Before((i, j), (x, y)) && cells[i][j].value != 0
          ensures cells[i][j] in PopulatedFrom(x, y)
        {
          assert !Before((i, j), (x + 1, 0));
        }
      } else {
        PopulatedFromComplete(x, y + 1);
        var rest := PopulatedFrom(x, y + 1);
        assert PopulatedFrom(x, y) == if cells[x][y].value != 0 then [cells[x][y]] + rest else rest;
        forall i, j | 0 <= i < lenX && 0 <= j < lenY && !Before((i, j), (x, y)) && cells[i][j].value != 0
          ensures cells[i][j] in PopulatedFrom(x, y)
        {
          if (i, j) != (x, y) {
            assert !Before((i, j), (x, y + 1));
            assert cells[i][j] in rest;
          }
        }
      }
    }

    /** The listed cells are in strictly increasing row-major order. */
    lemma {:induction false} PopulatedFromOrdered(x: nat, y: nat)
      requires Shaped() && x <= lenX && y <= lenY
      ensures Ascending(PopulatedFrom(x, y))
      decreases lenX - x, lenY - y
    {
      if x == lenX {
      } else if y == lenY {
        PopulatedFromOrdered(x + 1, 0);
        assert PopulatedFrom(x, y) == PopulatedFrom(x + 1, 0);
      } else {
        PopulatedFromOrdered(x, y + 1);
        var rest := PopulatedFrom(x, y + 1);
        if cells[x][y].value == 0 {
          assert PopulatedFrom(x, y) == rest;
        } else {
          assert PopulatedFrom(x, y) == [cells[x][y]] + rest;
          AscendingCons(cells[x][y], rest, x, y);
        }
      }
    }

    /** A cell at `(x, y)` ahead of ascending cells that all lie after it keeps them ascending. */
    static lemma AscendingCons(c: Cell, rest: seq<Cell>, x: int, y: int)
      requires c.x == x && c.y == y && Ascending(rest)
      requires forall k :: 0 <= k < |rest| ==> !Before((rest[k].x, rest[k].y), (x, y + 1))
      ensures Ascending([c] + rest)
    {
      var r := [c] + rest;
      forall a, b | 0 <= a < b < |r| ensures Before((r[a].x, r[a].y), (r[b].x, r[b].y)) {
        assert r[b] == rest[b - 1];
        if a > 0 {
          assert r[a] == rest[a - 1];
        }
      }
    }

    /** `get_populated_cells`: the occupied cells in row-major order, each once. */
    function PopulatedCells(): (r: seq<Cell>)
      reads CellSet()
      requires Shaped()
      ensures forall k :: 0 <= k < |r| ==> r[k] in CellSet() && r[k].value != 0
      ensures forall i, j :: 0 <= i < lenX && 0 <= j < lenY && cells[i][j].value != 0 ==> cells[i][j] in r
      ensures Ascending(r)
    {
      PopulatedFromComplete(0, 0);
      PopulatedFromOrdered(0, 0);
      var r := PopulatedFrom(0, 0);
      assert forall k :: 0 <= k < |r| ==> r[k] == cells[r[k].x][r[k].y];
      r
    }

    /** The number of occupied cells is the number of occupied positions of the occupant grid. */
    lemma PopulatedCount()
      requires Shaped()
      ensures (set k | 0 <= k < |PopulatedCells()| :: (PopulatedCells()[k].x, PopulatedCells()[k].y)) == T.Populated(Values())
      ensures |PopulatedCells()| == |T.Populated(Values())|
    {
      var r := PopulatedCells();
      var cs := set k | 0 <= k < |r| :: (r[k].x, r[k].y);
      assert cs == T.Populated(Values()) by {
        forall c | c in T.Populated(Values()) ensures c in cs {
          assert cells[c.0][c.1] in r;
        }
      }
      DistinctCard(r);
    }

    /** `n` distinct cells of the grid sit at `n` distinct positions. */
    lemma {:induction false} DistinctCard(r: seq<Cell>)
      requires Shaped()
      requires forall k :: 0 <= k < |r| ==> r[k] in CellSet()
      requires forall a, b :: 0 <= a < b < |r| ==> r[a] != r[b]
      ensures |set k | 0 <= k < |r| :: (r[k].x, r[k].y)| == |r|
    {
      if r != [] {
        var n := |r| - 1;
        DistinctCard(r[..n]);
        var prefix := set k | 0 <= k < n :: (r[..n][k].x, r[..n][k].y);
        assert (set k | 0 <= k < |r| :: (r[k].x, r[k].y)) == prefix + {(r[n].x, r[n].y)};
      }
    }

    /** The copies of a cell's neighbours in a grid of the same shape are that grid's neighbours of the cell. */
    lemma MappedNeighborCells(copy: Lattice, i: int, j: int)
      requires Shaped() && copy.Shaped() && copy.lenX == lenX && copy.lenY == lenY && InGrid((i, j), lenX, lenY)
      ensures Mapped(copy.cells, NeighborCells(i, j)) == copy.NeighborCells(i, j)
    {
      var cs := NeighborCoords(i, j, lenX, lenY);
      NeighborsValid(i, j, lenX, lenY);
      assert forall k :: 0 <= k < |cs| ==> NeighborCells(i, j)[k] == cells[cs[k].0][cs[k].1];
    }

    /**
     * The source does not show `get_random_empty_edge_cell`; this follows its
     * documented behaviour. With a draw below `p`, the cell in column `y` of row `x` is
     * taken when empty; otherwise the rows `x-1, x, x+1` inside the grid are tried in
     * a random order and the first empty cell of column `y` is taken. None means all
     * of those cells are occupied.
     */
    method GetRandomEmptyEdgeCell(y: int, x: int, p: real, g: Rng) returns (r: Option<Cell>, g': Rng)
      requires Shaped() && InGrid((x, y), lenX, lenY)
      ensures r.Some? ==> r.value.value == 0 && r.value.y == y && -1 <= r.value.x - x <= 1
                          && InGrid((r.value.x, y), lenX, lenY) && r.value == At((r.value.x, y))
      ensures r.None? <==> forall i :: 0 <= i < lenX && -1 <= i - x <= 1 ==> cells[i][y].value != 0
    {
      var draw := Random(g);
      g' := draw.1;
      if draw.0 < p && cells[x][y].IsEmpty() {
        return Some(cells[x][y]), g';
      }
      var rows := (if x - 1 >= 0 then [x - 1] else []) + [x] + (if x + 1 < lenX then [x + 1] else []);
      while rows != []
        invariant forall k :: 0 <= k < |rows| ==> 0 <= rows[k] < lenX && -1 <= rows[k] - x <= 1
        invariant forall i :: 0 <= i < lenX && -1 <= i - x <= 1 && i !in rows ==> cells[i][y].value != 0
        decreases |rows|
      {
        var pick := RandInt(g', 0, |rows| - 1);
        g' := pick.1;
        var i := rows[pick.0];
        if cells[i][y].IsEmpty() {
          return Some(cells[i][y]), g';
        }
        rows := rows[..pick.0] + rows[pick.0 + 1..];
      }
      r := None;
    }

    /**
     * `copy.deepcopy` of a grid whose neighbours are its own cells: a fresh grid of
     * fresh cells with the same occupants and distances, each neighbour list
     * pointing at the copies of the original neighbours.
     */
    method Clone() returns (copy: Lattice)
      requires Shaped() && Wired()
      ensures fresh(copy) && fresh(copy.CellSet())
      ensures copy.lenX == lenX && copy.lenY == lenY && copy.nCells == nCells && copy.Shaped()
      ensures copy.Values() == Values()
      ensures copy.LeftDistances() == LeftDistances() && copy.RightDistances() == RightDistances()
      ensures forall i, j :: 0 <= i < lenX && 0 <= j < lenY ==>
                copy.cells[i][j].neighbors == Mapped(copy.cells, cells[i][j].neighbors)
    {
      var grid := CopyCells();
      copy := new Lattice.Assemble(lenX, lenY, nCells, grid);
      SameViews(copy);
    }

    /** The cells of that copy: fresh, at their own positions, each holding the copy of this grid's cell there. */
    method CopyCells() returns (grid: seq<seq<Cell>>)
      requires Shaped() && Wired()
      ensures |grid| == lenX && forall i :: 0 <= i < lenX ==> |grid[i]| == lenY
      ensures forall i, j :: 0 <= i < lenX && 0 <= j < lenY ==>
                fresh(grid[i][j]) && grid[i][j].x == i && grid[i][j].y == j
      ensures forall i, j :: 0 <= i < lenX && 0 <= j < lenY ==>
                grid[i][j].value == cells[i][j].value
                && grid[i][j].leftExitDistance == cells[i][j].leftExitDistance
                && grid[i][j].rightExitDistance == cells[i][j].rightExitDistance
                && grid[i][j].neighbors == Mapped(grid, cells[i][j].neighbors)
    {
      grid := InitializeGrid(lenX, lenY, (i, j) => 0.0, (i, j) => 0.0);
      for x := 0 to lenX
        invariant forall i, j :: 0 <= i < lenX && 0 <= j < lenY ==> fresh(grid[i][j])
        invariant forall i, j :: 0 <= i < x && 0 <= j < lenY ==> CopiedTo(grid, i, j)
      {
        CopyRow(grid, x);
      }
      forall i, j | 0 <= i < lenX && 0 <= j < lenY
        ensures grid[i][j].value == cells[i][j].value
        ensures grid[i][j].leftExitDistance == cells[i][j].leftExitDistance
        ensures grid[i][j].rightExitDistance == cells[i][j].rightExitDistance
        ensures grid[i][j].neighbors == Mapped(grid, cells[i][j].neighbors)
      {
        assert CopiedTo(grid, i, j);
      }
    }

    /** Two grids of the same shape whose cells hold the same occupants and distances have the same views. */
    lemma SameViews(other: Lattice)
      requires Shaped() && other.Shaped() && other.lenX == lenX && other.lenY == lenY
      requires forall i, j :: 0 <= i < lenX && 0 <= j < lenY ==>
                 other.cells[i][j].value == cells[i][j].value
                 && other.cells[i][j].leftExitDistance == cells[i][j].leftExitDistance
                 && other.cells[i][j].rightExitDistance == cells[i][j].rightExitDistance
      ensures other.Values() == Values()
      ensures other.LeftDistances() == LeftDistances() && other.RightDistances() == RightDistances()
    {
      forall i | 0 <= i < lenX
        ensures other.Values()[i] == Values()[i]
        ensures other.LeftDistances()[i] == LeftDistances()[i]
        ensures other.RightDistances()[i] == RightDistances()[i]
      {
      }
    }

    /** The cell at `(i, j)` of `grid` holds a copy of this grid's cell there. */
    ghost predicate CopiedTo(grid: seq<seq<Cell>>, i: int, j: int)
      reads CellSet(), if 0 <= i < |grid| && 0 <= j < |grid[i]| then {grid[i][j]} else {}
      requires Shaped() && Wired() && InGrid((i, j), lenX, lenY)
      requires |grid| == lenX && (forall r :: 0 <= r < lenX ==> |grid[r]| == lenY)
    {
      grid[i][j].value == cells[i][j].value
      && grid[i][j].leftExitDistance == cells[i][j].leftExitDistance
      && grid[i][j].rightExitDistance == cells[i][j].rightExitDistance
      && grid[i][j].neighbors == Mapped(grid, cells[i][j].neighbors)
    }

    /** The copy of row `x`, cell by cell, leaving the rows already copied as they are. */
    method CopyRow(grid: seq<seq<Cell>>, x: int)
      requires Shaped() && Wired() && 0 <= x < lenX
      requires |grid| == lenX && (forall i :: 0 <= i < lenX ==> |grid[i]| == lenY)
      requires forall i, j :: 0 <= i < lenX && 0 <= j < lenY ==>
                 grid[i][j].x == i && grid[i][j].y == j && grid[i][j] !in CellSet()
      requires forall i, j :: 0 <= i < x && 0 <= j < lenY ==> CopiedTo(grid, i, j)
      modifies set j | 0 <= j < lenY :: grid[x][j]
      ensures Shaped() && Wired()
      ensures forall i, j :: 0 <= i <= x && 0 <= j < lenY ==> CopiedTo(grid, i, j)
    {
      for y := 0 to lenY
        invariant Shaped() && Wired()
        invariant forall i, j :: ((0 <= i < x && 0 <= j < lenY) || (i == x && 0 <= j < y)) ==> CopiedTo(grid, i, j)
      {
        label before:
        CopyCell(grid, x, y);
        forall i, j | (0 <= i < x && 0 <= j < lenY) || (i == x && 0 <= j < y)
          ensures CopiedTo(grid, i, j)
        {
          assert old@before(CopiedTo(grid, i, j));
          assert grid[i][j] != grid[x][y];
        }
      }
    }

    /** One step of the copy: the copy of the cell at `(x, y)` takes its occupant, distances and remapped neighbours. */
    method CopyCell(grid: seq<seq<Cell>>, x: int, y: int)
      requires Shaped() && Wired() && InGrid((x, y), lenX, lenY)
      requires |grid| == lenX && (forall i :: 0 <= i < lenX ==> |grid[i]| == lenY)
      modifies grid[x][y]
      ensures grid[x][y].value == old(cells[x][y].value)
      ensures grid[x][y].leftExitDistance == old(cells[x][y].leftExitDistance)
      ensures grid[x][y].rightExitDistance == old(cells[x][y].rightExitDistance)
      ensures grid[x][y].neighbors == Mapped(grid, old(cells[x][y].neighbors))
    {
      var source, target := cells[x][y], grid[x][y];
      var ns := Mapped(grid, source.neighbors);
      var v, l, r := source.value, source.leftExitDistance, source.rightExitDistance;
      target.value := v;
      target.leftExitDistance := l;
      target.rightExitDistance := r;
      target.neighbors := ns;
    }

    /** The copies, in `grid`, of the cells `ns` of this grid. */
    function Mapped(grid: seq<seq<Cell>>, ns: seq<Cell>): (r: seq<Cell>)
      requires |grid| == lenX && (forall i :: 0 <= i < lenX ==> |grid[i]| == lenY)
      requires forall k :: 0 <= k < |ns| ==> 0 <= ns[k].x < lenX && 0 <= ns[k].y < lenY
      ensures |r| == |ns| && forall k :: 0 <= k < |ns| ==> r[k] == grid[ns[k].x][ns[k].y]
    {
      seq(|ns|, k requires 0 <= k < |ns| => grid[ns[k].x][ns[k].y])
    }

    /** The grid object around already built cells (the last step of the copy). */
    constructor Assemble(lenX: nat, lenY: nat, nCells: int, grid: seq<seq<Cell>>)
      ensures this.lenX == lenX && this.lenY == lenY && this.nCells == nCells && cells == grid
    {
      this.lenX := lenX;
      this.lenY := lenY;
      this.nCells := nCells;
      this.cells := grid;
    }
  }
}
