/**
 * One square of the corridor (classes/cell.py): its occupant (0 empty, -1 a
 * left-mover, 1 a right-mover), its two exit distances, its position and the
 * list of its neighbouring cells, plus the greedy choice of where its occupant
 * would like to go next.
 */
module Cells {
  import opened Wrappers
  import opened Randomness

  /** What `lower_distance_to_exit` subtracts on each departure (0.00001, a float in the source). */
  const Decay: real := 0.00001

  /** The probability with which `get_best_neighbor` takes a same-row candidate (the literal 0.8). */
  const StraightAcceptance: real := 0.8

  /** The fields of a cell that change, as one value. */
  datatype Snapshot = Snapshot(value: int, leftExitDistance: real, rightExitDistance: real, neighbors: seq<Cell>)

  class Cell {
    var value: int
    var leftExitDistance: real
    var rightExitDistance: real
    const x: int
    const y: int
    var neighbors: seq<Cell>

    ghost function Snap(): Snapshot
      reads this
    {
      Snapshot(value, leftExitDistance, rightExitDistance, neighbors)
    }

    /** A new cell is empty and has no neighbours yet. */
    constructor (x: int, y: int, leftExitDistance: real, rightExitDistance: real)
      ensures this.x == x && this.y == y
      ensures Snap() == Snapshot(0, leftExitDistance, rightExitDistance, [])
    {
      this.value := 0;
      this.leftExitDistance := leftExitDistance;
      this.rightExitDistance := rightExitDistance;
      this.x := x;
      this.y := y;
      this.neighbors := [];
    }

    predicate IsEmpty()
      reads this
    {
      value == 0
    }

    /** A left-mover in the first column is about to leave on the left. */
    predicate IsLeavingLeft()
      reads this
    {
      y == 0 && value == -1
    }

    /** A right-mover in the last column is about to leave on the right. */
    predicate IsLeavingRight(lenY: int)
      reads this
    {
      y == lenY - 1 && value == 1
    }

    /** The two boundary tests never both hold, and each needs an occupant. */
    lemma LeavingTestsExclusive(lenY: int)
      ensures !(IsLeavingLeft() && IsLeavingRight(lenY))
      ensures IsLeavingLeft() || IsLeavingRight(lenY) ==> !IsEmpty()
    {
    }

    /**
     * `populate`: both of its assertions become preconditions (only -1 or 1 may be
     * placed, and only in an empty cell); nothing but the occupant changes.
     */
    method Populate(v: int)
      requires v == -1 || v == 1
      requires value == 0
      modifies this
      ensures Snap() == old(Snap()).(value := v)
    {
      value := v;
    }

    /** `clear`: the cell becomes empty and nothing else changes. */
    method Clear()
      modifies this
      ensures Snap() == old(Snap()).(value := 0)
    {
      value := 0;
    }

    /**
     * `add_neighbor`. Its assertion that fewer than 9 neighbours are already listed
     * is an outcome here: `ok` is false exactly when the assertion would fail, and
     * then nothing changes.
     */
    method AddNeighbor(c: Cell) returns (ok: bool)
      modifies this
      ensures ok <==> |old(neighbors)| < 9
      ensures Snap() == if ok then old(Snap()).(neighbors := old(neighbors) + [c]) else old(Snap())
    {
      ok := |neighbors| < 9;
      if ok {
        neighbors := neighbors + [c];
      }
    }

    /** `get_distance_value(v)`: the right-exit distance for `v > 0`, the left-exit one otherwise (0 included). */
    function DistanceFor(v: int): real
      reads this
    {
      if v > 0 then rightExitDistance else leftExitDistance
    }

    /**
     * `lower_distance_to_exit`: the occupant's own exit distance drops by `Decay`;
     * the other distance, the occupant and the neighbours stay; an empty cell is untouched.
     */
    method LowerDistanceToExit()
      modifies this
      ensures Snap() == if old(value) < 0 then old(Snap()).(leftExitDistance := old(leftExitDistance) - Decay)
                        else if old(value) > 0 then old(Snap()).(rightExitDistance := old(rightExitDistance) - Decay)
                        else old(Snap())
      ensures DistanceFor(value) <= old(DistanceFor(value))
    {
      if value < 0 {
        leftExitDistance := leftExitDistance + -0.00001;
      } else if value > 0 {
        rightExitDistance := rightExitDistance + -0.00001;
      }
    }

    /** The candidates `get_best_neighbor` ends up with: empty neighbours strictly closer to the occupant's exit. */
    function Improving(): seq<Cell>
      reads this, neighbors
    {
      Closer(EmptyCells(neighbors), value, DistanceFor(value))
    }

    /**
     * `get_best_neighbor`, as written: the straight-ahead probability is the literal
     * 0.8, the method takes no `p`, and the rejected same-row candidate stays in the
     * pool of the final uniform pick (the result of `np.delete` is discarded).
     * `g` supplies the draws of `random.random()` and `np.random.choice`.
     */
    method GetBestNeighbor(g: Rng) returns (r: Option<Cell>, g': Rng)
      ensures r.None? <==> Improving() == []
      ensures r.Some? ==> r.value in neighbors && r.value.value == 0
                          && r.value.DistanceFor(value) < DistanceFor(value)
      ensures |Improving()| == 1 ==> r == Some(Improving()[0]) && g' == g
      ensures |Improving()| >= 2 ==> (r.value, g') == Choose(Improving(), x, g)
    {
      var empty := EmptyCells(neighbors);
      if |empty| == 0 {
        return None, g;
      }
      var distances := DistanceArray(empty, value);
      var current := DistanceFor(value);
      MinGate(empty, value, current);
      if Min(distances) >= current {
        return None, g;
      }
      var cands := Closer(empty, value, current);
      if |cands| == 1 {
        ImprovingSound(cands[0]);
        return Some(cands[0]), g;
      }
      var c;
      c, g' := ChooseCandidate(cands, x, g);
      r := Some(c);
      ImprovingSound(c);
    }

    /** Every candidate is an empty neighbour strictly closer to the occupant's exit. */
    lemma ImprovingSound(c: Cell)
      requires c in Improving()
      ensures c in neighbors && c.value == 0 && c.DistanceFor(value) < DistanceFor(value)
    {
      var empty := EmptyCells(neighbors);
      var k :| 0 <= k < |Improving()| && Improving()[k] == c;
      assert c in empty;
      var j :| 0 <= j < |empty| && empty[j] == c;
    }
  }

  /** `get_empty_neighbors`: the empty cells of `ns`, in their order. */
  function EmptyCells(ns: seq<Cell>): (r: seq<Cell>)
    reads ns
    ensures |r| <= |ns|
    ensures forall i :: 0 <= i < |r| ==> r[i] in ns && r[i].value == 0
    ensures forall i :: 0 <= i < |ns| && ns[i].value == 0 ==> ns[i] in r
  {
    if ns == [] then []
    else (if ns[0].value == 0 then [ns[0]] else []) + EmptyCells(ns[1..])
  }

  /** `get_distance_array(ns, v)`: each cell's distance as seen by a mover of kind `v`. */
  function DistanceArray(ns: seq<Cell>, v: int): (ds: seq<real>)
    reads ns
    ensures |ds| == |ns|
    ensures forall i :: 0 <= i < |ns| ==> ds[i] == ns[i].DistanceFor(v)
  {
    seq(|ns|, i reads ns requires 0 <= i < |ns| => ns[i].DistanceFor(v))
  }

  /** `distances.min()`. */
  function Min(ds: seq<real>): (m: real)
    requires ds != []
    ensures m in ds
    ensures forall d :: d in ds ==> m <= d
  {
    if |ds| == 1 then ds[0]
    else
      var rest := Min(ds[1..]);
      assert forall d :: d in ds ==> d == ds[0] || d in ds[1..];
      if ds[0] <= rest then ds[0] else rest
  }

  /** Comparing the least distance with `current` decides whether any cell is strictly closer. */
  lemma MinGate(ns: seq<Cell>, v: int, current: real)
    requires ns != []
    ensures Min(DistanceArray(ns, v)) >= current <==> Closer(ns, v, current) == []
  {
    var ds := DistanceArray(ns, v);
    var cs := Closer(ns, v, current);
    var m := Min(ds);
    if cs != [] {
      var j :| 0 <= j < |ns| && ns[j] == cs[0];
      assert ds[j] in ds;
      assert m < current;
    }
    if m < current {
      var i :| 0 <= i < |ds| && ds[i] == m;
      assert ns[i] in cs;
    }
  }

  /** `ns[distances < current]`: the cells of `ns` strictly closer than `current` for a mover of kind `v`. */
  function Closer(ns: seq<Cell>, v: int, current: real): (r: seq<Cell>)
    reads ns
    ensures |r| <= |ns|
    ensures forall i :: 0 <= i < |r| ==> r[i] in ns && r[i].DistanceFor(v) < current
    ensures forall i :: 0 <= i < |ns| && ns[i].DistanceFor(v) < current ==> ns[i] in r
  {
    if ns == [] then []
    else (if ns[0].DistanceFor(v) < current then [ns[0]] else []) + Closer(ns[1..], v, current)
  }

  /**
   * The loop over the candidates from index `i` on: each candidate in row `row`
   * costs one draw and is taken when the draw is below `StraightAcceptance`.
   */
  function StraightScan(cands: seq<Cell>, row: int, i: nat, g: Rng): (res: (Option<Cell>, Rng))
    requires i <= |cands|
    ensures res.0.Some? ==> res.0.value in cands[i..] && res.0.value.x == row
    ensures res.1.source == g.source && res.1.pos >= g.pos
    decreases |cands| - i
  {
    if i == |cands| then (None, g)
    else if cands[i].x == row then
      var (u, g1) := Random(g);
      if u < StraightAcceptance then (Some(cands[i]), g1) else StraightScan(cands, row, i + 1, g1)
    else StraightScan(cands, row, i + 1, g)
  }

  /**
   * The choice among two or more candidates: the first accepted same-row candidate,
   * else a uniform pick from the whole candidate list.
   */
  function Choose(cands: seq<Cell>, row: int, g: Rng): (res: (Cell, Rng))
    requires cands != []
    ensures res.0 in cands
  {
    match StraightScan(cands, row, 0, g)
    case (Some(c), g1) => (c, g1)
    case (None, g1) =>
      var (k, g2) := RandInt(g1, 0, |cands| - 1);
      (cands[k], g2)
  }

  /**
   * Lines 97-108 of `get_best_neighbor` for two or more candidates `cands` of a
   * cell in row `row`.
   */
  method ChooseCandidate(cands: seq<Cell>, row: int, g: Rng) returns (c: Cell, g': Rng)
    requires cands != []
    ensures (c, g') == Choose(cands, row, g)
  {
    g' := g;
    var i := 0;
    while i < |cands|
      invariant 0 <= i <= |cands|
      invariant StraightScan(cands, row, i, g') == StraightScan(cands, row, 0, g)
    {
      if cands[i].x == row {
        var draw := Random(g');
        g' := draw.1;
        if draw.0 < StraightAcceptance {
          return cands[i], g';
        }
        // np.delete(empty_neighbors, i) discards its result: cands is left as it is
      }
      i := i + 1;
    }
    var pick := RandInt(g', 0, |cands| - 1);
    c, g' := cands[pick.0], pick.1;
  }

  /** Candidates before index `i` that are not in row `row` cost no draw. */
  lemma {:induction false} ScanSkipsOtherRows(cands: seq<Cell>, row: int, i: nat, j: nat, g: Rng)
    requires i <= j <= |cands|
    requires forall k :: i <= k < j ==> cands[k].x != row
    ensures StraightScan(cands, row, i, g) == StraightScan(cands, row, j, g)
    decreases j - i
  {
    if i < j {
      ScanSkipsOtherRows(cands, row, i + 1, j, g);
    }
  }

  /** When the draw for the first same-row candidate is accepted, that candidate is the choice. */
  lemma ChooseFirstStraight(cands: seq<Cell>, row: int, g: Rng, i: nat)
    requires i < |cands| && cands[i].x == row
    requires forall k :: 0 <= k < i ==> cands[k].x != row
    requires Random(g).0 < StraightAcceptance
    ensures Choose(cands, row, g) == (cands[i], Advance(g))
  {
    ScanSkipsOtherRows(cands, row, 0, i, g);
  }

  /** With no same-row candidate, no draw is spent on the scan and the pick is uniform over all candidates. */
  lemma ChooseWithoutStraight(cands: seq<Cell>, row: int, g: Rng)
    requires cands != []
    requires forall k :: 0 <= k < |cands| ==> cands[k].x != row
    ensures Choose(cands, row, g) == (cands[RandInt(g, 0, |cands| - 1).0], Advance(g))
  {
    ScanSkipsOtherRows(cands, row, 0, |cands|, g);
  }

  /**
   * The discarded `np.delete`: a same-row candidate whose draw was rejected can still
   * be returned by the final pick. With a straight candidate `s` before a diagonal one
   * `d`, a first draw of 0.9 rejects `s` and a second draw of 0.1 then picks `s`.
   */
  lemma RejectedStraightStaysInPool(s: Cell, d: Cell, row: int, g: Rng)
    requires s.x == row && d.x != row
    requires g.source(g.pos) == 0.9 && g.source(g.pos + 1) == 0.1
    ensures StraightScan([s, d], row, 0, g).0 == None
    ensures Choose([s, d], row, g).0 == s
  {
    assert (0.9).Floor == 0 && (0.1).Floor == 0 && (0.2).Floor == 0;
    var g1 := Advance(g);
    assert Random(g) == (0.9, g1);
    assert StraightScan([s, d], row, 0, g) == StraightScan([s, d], row, 1, g1) == (None, g1);
    assert g1.source(g1.pos) == 0.1;
    assert RandInt(g1, 0, 1).0 == 0;
  }
}
