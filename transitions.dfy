/**
 * One synchronous step of the automaton seen on plain grids: the occupant grid
 * (`get_value_array`), the two exit-distance grids, and the resolved moves of the
 * step as a map from destination to source position. `execute_timestep`
 * (classes/simulation.py) is proved against these functions; the counting
 * lemmas below give the conservation of agents asserted at the end of `run`.
 */
module Transitions {
  import opened Helpers
  import Cells

  /** A `lenX` by `lenY` grid, indexed `g[x][y]`. */
  predicate IsGrid<T>(g: seq<seq<T>>, lenX: nat, lenY: nat)
  {
    |g| == lenX && forall i :: 0 <= i < lenX ==> |g[i]| == lenY
  }

  function Get<T>(g: seq<seq<T>>, c: Coord): T
    requires 0 <= c.0 < |g| && 0 <= c.1 < |g[c.0]|
  {
    g[c.0][c.1]
  }

  /** The positions holding the value `v`. */
  function Holding(g: seq<seq<int>>, v: int): set<Coord>
  {
    set i, j | 0 <= i < |g| && 0 <= j < |g[i]| && g[i][j] == v :: (i, j)
  }

  /** The positions holding an agent. */
  function Populated(g: seq<seq<int>>): set<Coord>
  {
    set i, j | 0 <= i < |g| && 0 <= j < |g[i]| && g[i][j] != 0 :: (i, j)
  }

  /** The resolved moves of a step: destination position to source position. */
  type Moves = map<Coord, Coord>

  predicate Injective(m: Moves)
  {
    forall a, b :: a in m && b in m && m[a] == m[b] ==> a == b
  }

  /** The sources that really leave their position. */
  function Departures(m: Moves): set<Coord>
  {
    set k | k in m && m[k] != k :: m[k]
  }

  /**
   * What a step's moves must satisfy for `execute_timestep` to run without tripping
   * `populate`'s assertions: positions inside the grid, each source used once and
   * occupied, and each destination either empty or the source's own position.
   */
  predicate Consistent(g: seq<seq<int>>, lenX: nat, lenY: nat, m: Moves)
  {
    IsGrid(g, lenX, lenY)
    && (forall k :: k in m ==> InGrid(k, lenX, lenY) && InGrid(m[k], lenX, lenY))
    && Injective(m)
    && (forall k :: k in m ==> Get(g, m[k]) != 0)
    && (forall k :: k in m ==> m[k] == k || Get(g, k) == 0)
  }

  /** The occupants after the moves: each destination holds its source's occupant, a vacated source is empty. */
  function StepValues(g: seq<seq<int>>, lenX: nat, lenY: nat, m: Moves): (g': seq<seq<int>>)
    requires Consistent(g, lenX, lenY, m)
    ensures IsGrid(g', lenX, lenY)
  {
    seq(lenX, i requires 0 <= i < lenX =>
      seq(lenY, j requires 0 <= j < lenY =>
        if (i, j) in m then Get(g, m[(i, j)])
        else if (i, j) in m.Values then 0
        else g[i][j]))
  }

  /**
   * An exit-distance grid after the moves: `sign` is -1 for the left-exit grid and 1
   * for the right-exit grid; a departing left-mover lowers its source's left-exit
   * distance by `Decay`, a departing right-mover its right-exit distance.
   */
  function StepDistances(d: seq<seq<real>>, g: seq<seq<int>>, lenX: nat, lenY: nat, m: Moves, sign: int): (d': seq<seq<real>>)
    requires IsGrid(d, lenX, lenY) && IsGrid(g, lenX, lenY)
    ensures IsGrid(d', lenX, lenY)
  {
    seq(lenX, i requires 0 <= i < lenX =>
      seq(lenY, j requires 0 <= j < lenY =>
        if (i, j) in Departures(m) && g[i][j] * sign > 0 then d[i][j] - Cells.Decay else d[i][j]))
  }

  /** `g'` is the occupant grid after the moves `m` from `g`, position by position. */
  ghost predicate IsStep(g': seq<seq<int>>, g: seq<seq<int>>, lenX: nat, lenY: nat, m: Moves)
  {
    Consistent(g, lenX, lenY, m) && IsGrid(g', lenX, lenY)
    && forall i, j :: 0 <= i < lenX && 0 <= j < lenY ==> g'[i][j] == ValueAfter(g, lenX, lenY, m, (i, j))
  }

  /** The populated positions after the moves: the destinations, plus the occupied positions no move touched. */
  lemma PopulatedAfter(g': seq<seq<int>>, g: seq<seq<int>>, lenX: nat, lenY: nat, m: Moves)
    requires IsStep(g', g, lenX, lenY, m)
    ensures Populated(g') == m.Keys + (Populated(g) - m.Values)
  {
    forall c | c in m.Keys ensures c in Populated(g') {
      assert g'[c.0][c.1] == Get(g, m[c]);
    }
    forall c | c in Populated(g') ensures c in m.Keys + (Populated(g) - m.Values) {
      assert g'[c.0][c.1] != 0;
    }
    forall c | c in Populated(g) - m.Values ensures c in Populated(g') {
      assert g'[c.0][c.1] == if c in m then Get(g, m[c]) else g[c.0][c.1];
    }
  }

  /** The image of a set of destinations under the moves. */
  function Image(m: Moves, a: set<Coord>): set<Coord>
    requires a <= m.Keys
  {
    set k | k in a :: m[k]
  }

  /** Injective moves map a set of destinations onto a set of sources of the same size. */
  lemma {:induction false} ImageCard(m: Moves, a: set<Coord>)
    requires a <= m.Keys && Injective(m)
    ensures |Image(m, a)| == |a|
    decreases |a|
  {
    if a != {} {
      var k :| k in a;
      var rest := a - {k};
      ImageCard(m, rest);
      assert Image(m, a) == Image(m, rest) + {m[k]};
      assert m[k] !in Image(m, rest);
    }
  }

  /**
   * Conservation: when every occupied position is the source of a move, the step
   * leaves exactly the destinations occupied, and there are as many of them as
   * there were agents.
   */
  lemma Conservation(g: seq<seq<int>>, lenX: nat, lenY: nat, m: Moves)
    requires Consistent(g, lenX, lenY, m)
    requires Populated(g) <= m.Values
    ensures Populated(StepValues(g, lenX, lenY, m)) == m.Keys
    ensures |Populated(StepValues(g, lenX, lenY, m))| == |Populated(g)|
  {
    StepValuesAfter(g, lenX, lenY, m);
    ConservedAfter(StepValues(g, lenX, lenY, m), g, lenX, lenY, m);
  }

  /** `Conservation` for any grid that is the step position by position. */
  lemma ConservedAfter(g': seq<seq<int>>, g: seq<seq<int>>, lenX: nat, lenY: nat, m: Moves)
    requires IsStep(g', g, lenX, lenY, m)
    requires Populated(g) <= m.Values
    ensures Populated(g') == m.Keys && |Populated(g')| == |Populated(g)|
  {
    PopulatedAfter(g', g, lenX, lenY, m);
    assert Image(m, m.Keys) == Populated(g) by {
      forall k | k in m ensures m[k] in Populated(g) {
        assert Get(g, m[k]) != 0;
      }
    }
    ImageCard(m, m.Keys);
  }

  /**
   * No agent changes direction: under the same conditions, the number of left-movers
   * and the number of right-movers are each conserved.
   */
  lemma DirectionsConserved(g: seq<seq<int>>, lenX: nat, lenY: nat, m: Moves, v: int)
    requires Consistent(g, lenX, lenY, m)
    requires Populated(g) <= m.Values
    requires v != 0
    ensures |Holding(StepValues(g, lenX, lenY, m), v)| == |Holding(g, v)|
  {
    StepValuesAfter(g, lenX, lenY, m);
    HoldingAfter(StepValues(g, lenX, lenY, m), g, lenX, lenY, m, v);
  }

  /** `DirectionsConserved` for any grid that is the step position by position. */
  lemma HoldingAfter(g': seq<seq<int>>, g: seq<seq<int>>, lenX: nat, lenY: nat, m: Moves, v: int)
    requires IsStep(g', g, lenX, lenY, m)
    requires Populated(g) <= m.Values
    requires v != 0
    ensures |Holding(g', v)| == |Holding(g, v)|
  {
    ConservedAfter(g', g, lenX, lenY, m);
    var dests := Holding(g', v);
    assert dests <= m.Keys by {
      forall c | c in dests ensures c in m.Keys {
        assert c in Populated(g');
      }
    }
    assert Image(m, dests) == Holding(g, v) by {
      forall k | k in dests ensures m[k] in Holding(g, v) {
        assert g'[k.0][k.1] == Get(g, m[k]);
      }
      forall c | c in Holding(g, v) ensures c in Image(m, dests) {
        assert c in Populated(g);
        var k :| k in m && m[k] == c;
        assert g'[k.0][k.1] == Get(g, c);
        assert k in dests;
      }
    }
    ImageCard(m, dests);
  }

  /**
   * Decay: the exit distances never rise, and one falls, by exactly `Decay`, only at the
   * source of a real move and only in the grid matching the mover's direction.
   */
  lemma DistancesDecay(d: seq<seq<real>>, g: seq<seq<int>>, lenX: nat, lenY: nat, m: Moves, sign: int, c: Coord)
    requires IsGrid(d, lenX, lenY) && IsGrid(g, lenX, lenY) && InGrid(c, lenX, lenY)
    ensures Get(StepDistances(d, g, lenX, lenY, m, sign), c) <= Get(d, c)
    ensures Get(StepDistances(d, g, lenX, lenY, m, sign), c) != Get(d, c)
            <==> (exists k :: k in m && m[k] == c && k != c) && Get(g, c) * sign > 0
    ensures Get(StepDistances(d, g, lenX, lenY, m, sign), c) == Get(d, c)
            || Get(StepDistances(d, g, lenX, lenY, m, sign), c) == Get(d, c) - Cells.Decay
  {
    var d' := StepDistances(d, g, lenX, lenY, m, sign);
    if exists k :: k in m && m[k] == c && k != c {
      var k :| k in m && m[k] == c && k != c;
      assert c in Departures(m);
    }
    assert d'[c.0][c.1] == if c in Departures(m) && g[c.0][c.1] * sign > 0 then d[c.0][c.1] - Cells.Decay else d[c.0][c.1];
  }

  /** Dropping a move keeps the moves consistent. */
  lemma DropConsistent(g: seq<seq<int>>, lenX: nat, lenY: nat, m: Moves, k: Coord)
    requires Consistent(g, lenX, lenY, m)
    ensures Consistent(g, lenX, lenY, m - {k})
  {
    var m0 := m - {k};
    assert forall a :: a in m0 ==> a in m && m0[a] == m[a];
  }

  /** Any subset of consistent moves is consistent. */
  lemma RestrictConsistent(g: seq<seq<int>>, lenX: nat, lenY: nat, m: Moves, s: set<Coord>)
    requires Consistent(g, lenX, lenY, m)
    ensures Consistent(g, lenX, lenY, m - s)
  {
    var m0 := m - s;
    assert forall a :: a in m0 ==> a in m && m0[a] == m[a];
  }

  /** Two grids of the same shape that agree at every position are equal. */
  lemma GridsEqual<T>(a: seq<seq<T>>, b: seq<seq<T>>, lenX: nat, lenY: nat)
    requires IsGrid(a, lenX, lenY) && IsGrid(b, lenX, lenY)
    requires forall i, j :: 0 <= i < lenX && 0 <= j < lenY ==> a[i][j] == b[i][j]
    ensures a == b
  {
    forall i | 0 <= i < lenX ensures a[i] == b[i] {
      assert forall j :: 0 <= j < lenY ==> a[i][j] == b[i][j];
    }
  }

  /** Neither end of a move is the source or the destination of any other move. */
  lemma MoveIsolated(g: seq<seq<int>>, lenX: nat, lenY: nat, m: Moves, k: Coord)
    requires Consistent(g, lenX, lenY, m) && k in m
    ensures m[k] !in m - {k} && m[k] !in (m - {k}).Values
    ensures k !in (m - {k}).Values
  {
  }

  /** Dropping a move `m[k]` to `k` removes exactly that departure, if it is one. */
  lemma DropDeparture(g: seq<seq<int>>, lenX: nat, lenY: nat, m: Moves, k: Coord)
    requires Consistent(g, lenX, lenY, m) && k in m
    ensures Departures(m) == Departures(m - {k}) + (if m[k] != k then {m[k]} else {})
    ensures m[k] !in Departures(m - {k})
  {
    var m0 := m - {k};
    MoveIsolated(g, lenX, lenY, m, k);
    forall c | c in Departures(m) ensures c in Departures(m0) + (if m[k] != k then {m[k]} else {}) {
      var a :| a in m && m[a] == c && a != c;
      if a != k {
        assert a in m0;
      }
    }
    forall c | c in Departures(m0) ensures c in Departures(m) {
      var a :| a in m0 && m0[a] == c && a != c;
      assert a in m;
    }
  }

  /** The occupant of `c` after the moves. */
  function ValueAfter(g: seq<seq<int>>, lenX: nat, lenY: nat, m: Moves, c: Coord): int
    requires Consistent(g, lenX, lenY, m) && InGrid(c, lenX, lenY)
  {
    if c in m then Get(g, m[c]) else if c in m.Values then 0 else Get(g, c)
  }

  /** The exit distance at `c` after the moves, for the grid of direction `sign`. */
  function DistanceAfter(d: seq<seq<real>>, g: seq<seq<int>>, lenX: nat, lenY: nat, m: Moves, sign: int, c: Coord): real
    requires IsGrid(d, lenX, lenY) && IsGrid(g, lenX, lenY) && InGrid(c, lenX, lenY)
  {
    if c in Departures(m) && Get(g, c) * sign > 0 then Get(d, c) - Cells.Decay else Get(d, c)
  }

  /** `StepValues` cell by cell. */
  lemma StepValuesAfter(g: seq<seq<int>>, lenX: nat, lenY: nat, m: Moves)
    requires Consistent(g, lenX, lenY, m)
    ensures forall i, j :: 0 <= i < lenX && 0 <= j < lenY ==>
              StepValues(g, lenX, lenY, m)[i][j] == ValueAfter(g, lenX, lenY, m, (i, j))
  {
  }

  /** `StepDistances` cell by cell. */
  lemma StepDistancesAfter(d: seq<seq<real>>, g: seq<seq<int>>, lenX: nat, lenY: nat, m: Moves, sign: int)
    requires IsGrid(d, lenX, lenY) && IsGrid(g, lenX, lenY)
    ensures forall i, j :: 0 <= i < lenX && 0 <= j < lenY ==>
              StepDistances(d, g, lenX, lenY, m, sign)[i][j] == DistanceAfter(d, g, lenX, lenY, m, sign, (i, j))
  {
  }

  /**
   * The moves can be applied one at a time: with the move `m[k]` to `k` added to
   * the others, its source is emptied, then `k` takes the source's occupant;
   * before it, neither end had been touched.
   */
  lemma ValueAfterOne(g: seq<seq<int>>, lenX: nat, lenY: nat, m: Moves, k: Coord, c: Coord)
    requires Consistent(g, lenX, lenY, m) && k in m && InGrid(c, lenX, lenY)
    ensures Consistent(g, lenX, lenY, m - {k})
    ensures ValueAfter(g, lenX, lenY, m - {k}, m[k]) == Get(g, m[k])
    ensures ValueAfter(g, lenX, lenY, m - {k}, k) == Get(g, k)
    ensures ValueAfter(g, lenX, lenY, m, c)
            == if c == k then Get(g, m[k])
               else if c == m[k] then 0
               else ValueAfter(g, lenX, lenY, m - {k}, c)
  {
    DropConsistent(g, lenX, lenY, m, k);
    MoveIsolated(g, lenX, lenY, m, k);
    var m0 := m - {k};
    if c != k && c != m[k] {
      assert c in m <==> c in m0;
      if c in m {
        assert m[c] == m0[c];
      }
      assert c in m.Values <==> c in m0.Values;
    }
  }

  /**
   * The same for an exit distance: adding the move to `k` lowers at most the
   * distance at its source, and only when it departs in the grid's direction.
   */
  lemma DistanceAfterOne(d: seq<seq<real>>, g: seq<seq<int>>, lenX: nat, lenY: nat, m: Moves, sign: int, k: Coord, c: Coord)
    requires IsGrid(d, lenX, lenY) && Consistent(g, lenX, lenY, m) && k in m && InGrid(c, lenX, lenY)
    ensures DistanceAfter(d, g, lenX, lenY, m - {k}, sign, m[k]) == Get(d, m[k])
    ensures DistanceAfter(d, g, lenX, lenY, m, sign, c)
            == if c == m[k] && m[k] != k && Get(g, m[k]) * sign > 0 then Get(d, m[k]) - Cells.Decay
               else DistanceAfter(d, g, lenX, lenY, m - {k}, sign, c)
  {
    DropDeparture(g, lenX, lenY, m, k);
  }
}
