/**
 * The simulation loop (classes/simulation.py): each populated cell proposes a
 * target, conflicts over a target are settled by random draws, and the winning
 * moves are applied to the corridor. Random draws come from an `Rng` oracle that
 * is threaded through every operation.
 */
module Simulations {
  import opened Helpers
  import opened Wrappers
  import opened Randomness
  import opened Cells
  import opened Lattices
  import T = Transitions

  /** The position of a cell. */
  function Pos(c: Cell): Coord
  {
    (c.x, c.y)
  }

  /**
   * The proposals of one iteration (`next_cells`): for each targeted position, the
   * cells that target it, in the order they asked.
   */
  type Proposals = map<Coord, seq<Cell>>

  /** `order` lists the keys of `next` once each, in insertion order. */
  predicate Listing(order: seq<Coord>, next: Proposals)
  {
    (forall j :: 0 <= j < |order| ==> order[j] in next)
    && (forall t :: t in next ==> t in order)
    && (forall i, j :: 0 <= i < j < |order| ==> order[i] != order[j])
  }

  /** Every list of proposals is non-empty, as lists built by appending are. */
  predicate NonEmpty(next: Proposals)
  {
    forall t :: t in next ==> |next[t]| >= 1
  }

  /** The positions of all proposers. */
  function ProposerPositions(next: Proposals): set<Coord>
  {
    set t, a | t in next && 0 <= a < |next[t]| :: Pos(next[t][a])
  }

  /** All proposers. */
  function Proposers(next: Proposals): set<Cell>
  {
    set t, a | t in next && 0 <= a < |next[t]| :: next[t][a]
  }

  /** No two proposals come from the same position. */
  predicate Distinct(next: Proposals)
  {
    forall t1, a1, t2, a2 ::
      (t1 in next && t2 in next && 0 <= a1 < |next[t1]| && 0 <= a2 < |next[t2]|
       && Pos(next[t1][a1]) == Pos(next[t2][a2])) ==> t1 == t2 && a1 == a2
  }

  /**
   * The shape of the proposals one iteration builds: they are distinct, and a
   * proposer's own position is targeted only when the proposer stays put, alone.
   */
  predicate Separate(next: Proposals)
  {
    Distinct(next)
    && (forall t, a :: t in next && 0 <= a < |next[t]| && Pos(next[t][a]) in next
          ==> Pos(next[t][a]) == t && |next[t]| == 1)
  }

  /**
   * The proposals against the occupants `g`: every proposer is an occupied position
   * of the grid, and every target is an empty position or a proposer's own
   * position, proposed by that proposer alone.
   */
  predicate Targets(next: Proposals, g: seq<seq<int>>, lenX: nat, lenY: nat)
    requires T.IsGrid(g, lenX, lenY)
  {
    (forall t :: t in next ==>
       InGrid(t, lenX, lenY) && (T.Get(g, t) == 0 || (|next[t]| == 1 && Pos(next[t][0]) == t)))
    && (forall t, a :: t in next && 0 <= a < |next[t]| ==>
          InGrid(Pos(next[t][a]), lenX, lenY) && T.Get(g, Pos(next[t][a])) != 0)
  }

  /** Proposals that target empty cells or their own cell are `Separate`. */
  lemma TargetsSeparate(next: Proposals, g: seq<seq<int>>, lenX: nat, lenY: nat)
    requires T.IsGrid(g, lenX, lenY) && Targets(next, g, lenX, lenY) && Distinct(next)
    ensures Separate(next)
  {
    forall t, a | t in next && 0 <= a < |next[t]| && Pos(next[t][a]) in next
      ensures Pos(next[t][a]) == t && |next[t]| == 1
    {
      var u := Pos(next[t][a]);
      assert T.Get(g, u) != 0;
      assert Pos(next[u][0]) == u;
    }
  }

  /** The resolved moves (`cell_assigned`) as destination-to-source positions. */
  function MovesOf(assignment: map<Coord, Cell>): T.Moves
  {
    map k | k in assignment :: Pos(assignment[k])
  }

  /** The moves `m` split into those `done` and the sources still `remaining`. */
  predicate Split(m: T.Moves, done: T.Moves, remaining: set<Coord>)
  {
    done.Keys !! remaining && done.Keys + remaining == m.Keys
    && forall k :: k in done ==> k in m && done[k] == m[k]
  }

  /** Taking one more remaining move keeps the split and its consistency. */
  lemma SplitStep(g: seq<seq<int>>, lenX: nat, lenY: nat, m: T.Moves, done: T.Moves, remaining: set<Coord>, k: Coord)
    requires T.Consistent(g, lenX, lenY, m) && Split(m, done, remaining) && k in remaining
    ensures Split(m, done[k := m[k]], remaining - {k}) && T.Consistent(g, lenX, lenY, done[k := m[k]])
    ensures k in done[k := m[k]] && done[k := m[k]] - {k} == done
  {
    T.RestrictConsistent(g, lenX, lenY, m, remaining - {k});
    assert done[k := m[k]] == m - (remaining - {k});
  }

  /** Nothing remaining: all moves are done. */
  lemma SplitEnd(m: T.Moves, done: T.Moves)
    requires Split(m, done, {})
    ensures done == m
  {
  }

  /**
   * The draws of `resolve_conflicts` for one disputed target: `rounds` times, a
   * uniformly drawn candidate is popped and assigned to its own position.
   */
  function Eliminate(cands: seq<Cell>, rounds: nat, assignment: map<Coord, Cell>, g: Rng): (res: (seq<Cell>, map<Coord, Cell>, Rng))
    requires rounds < |cands|
    ensures |res.0| == |cands| - rounds
    decreases rounds
  {
    if rounds == 0 then (cands, assignment, g)
    else
      var pick := RandInt(g, 0, |cands| - 1);
      var loser := cands[pick.0];
      Eliminate(cands[..pick.0] + cands[pick.0 + 1..], rounds - 1, assignment[Pos(loser) := loser], pick.1)
  }

  /**
   * One target of `resolve_conflicts`: a single candidate is assigned to it; otherwise
   * all but one candidate are popped as losers and the one left is assigned to it.
   */
  function Settle(t: Coord, cands: seq<Cell>, assignment: map<Coord, Cell>, g: Rng): (map<Coord, Cell>, Rng)
    requires |cands| >= 1
  {
    if |cands| == 1 then (assignment[t := cands[0]], g)
    else
      var res := Eliminate(cands, |cands| - 1, assignment, g);
      (res.1[t := res.0[0]], res.2)
  }

  /** `resolve_conflicts` from the `i`-th target of `order` on. */
  function ResolveFrom(order: seq<Coord>, next: Proposals, i: nat, assignment: map<Coord, Cell>, g: Rng): (map<Coord, Cell>, Rng)
    requires i <= |order| && NonEmpty(next) && forall j :: 0 <= j < |order| ==> order[j] in next
    decreases |order| - i
  {
    if i == |order| then (assignment, g)
    else
      var res := Settle(order[i], next[order[i]], assignment, g);
      ResolveFrom(order, next, i + 1, res.0, res.1)
  }

  /** The candidates are at distinct positions, none of them assigned yet or the source of an assignment. */
  predicate Spread(cands: seq<Cell>, assignment: map<Coord, Cell>)
  {
    (forall a, b :: 0 <= a < b < |cands| ==> Pos(cands[a]) != Pos(cands[b]))
    && (forall a :: 0 <= a < |cands| ==> Pos(cands[a]) !in assignment)
    && (forall a, k :: 0 <= a < |cands| && k in assignment ==> Pos(cands[a]) != Pos(assignment[k]))
  }

  /** What popping losers from `cands` does to the candidates and the assignment. */
  predicate Eliminated(cands: seq<Cell>, assignment: map<Coord, Cell>, res: (seq<Cell>, map<Coord, Cell>, Rng))
  {
    (forall a :: 0 <= a < |res.0| ==> res.0[a] in cands)
    && Spread(res.0, res.1)
    && (forall k :: k in assignment ==> k in res.1 && res.1[k] == assignment[k])
    && (forall k :: k in res.1 ==> k in assignment || (res.1[k] in cands && k == Pos(res.1[k])))
    && (forall a :: 0 <= a < |cands| ==> cands[a] in res.0 || (Pos(cands[a]) in res.1 && res.1[Pos(cands[a])] == cands[a]))
    && T.Injective(MovesOf(res.1))
  }

  /** Each popped loser is assigned to its own position, and nothing assigned before is overwritten. */
  lemma {:induction false} EliminateSpec(cands: seq<Cell>, rounds: nat, assignment: map<Coord, Cell>, g: Rng)
    requires rounds < |cands| && Spread(cands, assignment) && T.Injective(MovesOf(assignment))
    ensures Eliminated(cands, assignment, Eliminate(cands, rounds, assignment, g))
    decreases rounds
  {
    if rounds > 0 {
      var pick := RandInt(g, 0, |cands| - 1);
      var loser := cands[pick.0];
      var rest := cands[..pick.0] + cands[pick.0 + 1..];
      var a' := assignment[Pos(loser) := loser];
      PopSpread(cands, pick.0, assignment);
      EliminateSpec(rest, rounds - 1, a', pick.1);
      var res := Eliminate(rest, rounds - 1, a', pick.1);
      assert Eliminate(cands, rounds, assignment, g) == res;
      PopEliminated(cands, pick.0, assignment, res);
    } else {
      assert Eliminate(cands, rounds, assignment, g) == (cands, assignment, g);
      NoneEliminated(cands, assignment, g);
    }
  }

  /** Popping nothing eliminates nothing. */
  lemma NoneEliminated(cands: seq<Cell>, assignment: map<Coord, Cell>, g: Rng)
    requires Spread(cands, assignment) && T.Injective(MovesOf(assignment))
    ensures Eliminated(cands, assignment, (cands, assignment, g))
  {
    assert forall a :: 0 <= a < |cands| ==> cands[a] in cands;
  }

  /** Popping the candidate at `j` and assigning it to its own position keeps the rest spread. */
  lemma PopSpread(cands: seq<Cell>, j: nat, assignment: map<Coord, Cell>)
    requires j < |cands| && Spread(cands, assignment) && T.Injective(MovesOf(assignment))
    ensures Spread(cands[..j] + cands[j + 1..], assignment[Pos(cands[j]) := cands[j]])
    ensures T.Injective(MovesOf(assignment[Pos(cands[j]) := cands[j]]))
  {
    var rest := cands[..j] + cands[j + 1..];
    assert forall a :: 0 <= a < |rest| ==> rest[a] == if a < j then cands[a] else cands[a + 1];
    AssignFresh(assignment, Pos(cands[j]), cands[j]);
  }

  /** Assigning a cell at a new key keeps the moves injective when no assigned cell shares its position. */
  lemma AssignFresh(assignment: map<Coord, Cell>, k: Coord, c: Cell)
    requires T.Injective(MovesOf(assignment)) && k !in assignment
    requires forall q :: q in assignment ==> Pos(assignment[q]) != Pos(c)
    ensures T.Injective(MovesOf(assignment[k := c]))
  {
    var m0 := MovesOf(assignment);
    var m := MovesOf(assignment[k := c]);
    forall a, b | a in m && b in m && m[a] == m[b] ensures a == b {
      if a != k && b != k {
        assert m[a] == m0[a] && m[b] == m0[b];
      }
    }
  }

  /** The facts of `Eliminated` carry over from the candidates left after a pop to those before it. */
  lemma PopEliminated(cands: seq<Cell>, j: nat, assignment: map<Coord, Cell>, res: (seq<Cell>, map<Coord, Cell>, Rng))
    requires j < |cands| && Spread(cands, assignment)
    requires Eliminated(cands[..j] + cands[j + 1..], assignment[Pos(cands[j]) := cands[j]], res)
    ensures Eliminated(cands, assignment, res)
  {
    var loser := cands[j];
    var rest := cands[..j] + cands[j + 1..];
    var a' := assignment[Pos(loser) := loser];
    assert forall a :: 0 <= a < |rest| ==> rest[a] == if a < j then cands[a] else cands[a + 1];
    forall a | 0 <= a < |cands| && a != j ensures cands[a] in rest {
      if a < j {
        assert rest[a] == cands[a];
      } else {
        assert rest[a - 1] == cands[a];
      }
    }
    assert Pos(loser) in a';
  }

  /** What settling one target does to the assignment. */
  predicate Settled(t: Coord, cands: seq<Cell>, assignment: map<Coord, Cell>, a': map<Coord, Cell>)
  {
    t in a' && a'[t] in cands
    && (forall k :: k in assignment ==> k in a' && a'[k] == assignment[k])
    && (forall k :: k in a' ==> k in assignment || k == t || (a'[k] in cands && k == Pos(a'[k])))
    && (forall a :: 0 <= a < |cands| && cands[a] != a'[t] ==> Pos(cands[a]) in a' && a'[Pos(cands[a])] == cands[a])
    && (forall k :: k in a' ==> k in assignment || a'[k] in cands)
    && T.Injective(MovesOf(a'))
  }

  /** A target gets one of its candidates, every other candidate is assigned to its own position, and nothing else changes. */
  lemma SettleSpec(t: Coord, cands: seq<Cell>, assignment: map<Coord, Cell>, g: Rng)
    requires |cands| >= 1 && Spread(cands, assignment) && T.Injective(MovesOf(assignment)) && t !in assignment
    requires |cands| > 1 ==> forall a :: 0 <= a < |cands| ==> Pos(cands[a]) != t
    ensures Settled(t, cands, assignment, Settle(t, cands, assignment, g).0)
  {
    if |cands| == 1 {
      AssignFresh(assignment, t, cands[0]);
    } else {
      EliminateSpec(cands, |cands| - 1, assignment, g);
      var res := Eliminate(cands, |cands| - 1, assignment, g);
      assert t !in res.1;
      AssignFresh(res.1, t, res.0[0]);
      assert forall a :: 0 <= a < |cands| && cands[a] != res.0[0] ==> cands[a] !in res.0;
    }
  }

  /** The meaning of a resolved assignment, for proposals that are `Separate`. */
  predicate Resolved(next: Proposals, assignment: map<Coord, Cell>)
  {
    (forall t :: t in next ==> t in assignment && assignment[t] in next[t])
    && (forall t, a :: t in next && 0 <= a < |next[t]| && next[t][a] != assignment[t]
          ==> Pos(next[t][a]) in assignment && assignment[Pos(next[t][a])] == next[t][a])
    && Sourced(next, assignment)
    && T.Injective(MovesOf(assignment))
  }

  /** Every assigned cell is a proposer: at its target, or at its own position. */
  predicate Sourced(next: Proposals, assignment: map<Coord, Cell>)
  {
    forall k :: k in assignment ==>
      (k in next && assignment[k] in next[k]) || (k == Pos(assignment[k]) && assignment[k] in Proposers(next))
  }

  /** The first `i` targets are settled: each has a candidate, the others stay where they are. */
  predicate Behind(order: seq<Coord>, next: Proposals, i: nat, assignment: map<Coord, Cell>)
    requires i <= |order| && forall j :: 0 <= j < |order| ==> order[j] in next
  {
    (forall j :: 0 <= j < i ==> order[j] in assignment && assignment[order[j]] in next[order[j]])
    && (forall j, a :: 0 <= j < i && 0 <= a < |next[order[j]]| && next[order[j]][a] != assignment[order[j]]
          ==> Pos(next[order[j]][a]) in assignment && assignment[Pos(next[order[j]][a])] == next[order[j]][a])
  }

  /** The targets from the `i`-th on are untouched. */
  predicate Ahead(order: seq<Coord>, next: Proposals, i: nat, assignment: map<Coord, Cell>)
    requires i <= |order| && forall j :: 0 <= j < |order| ==> order[j] in next
  {
    forall j :: i <= j < |order| ==> order[j] !in assignment && Spread(next[order[j]], assignment)
  }

  /** The state of `resolve_conflicts` before its `i`-th target. */
  predicate ResolvedUpTo(order: seq<Coord>, next: Proposals, i: nat, assignment: map<Coord, Cell>)
    requires i <= |order| && forall j :: 0 <= j < |order| ==> order[j] in next
  {
    Behind(order, next, i, assignment) && Sourced(next, assignment) && Ahead(order, next, i, assignment)
    && T.Injective(MovesOf(assignment))
  }

  /** Settling the `i`-th target keeps the state of `resolve_conflicts` consistent. */
  lemma ResolveStep(order: seq<Coord>, next: Proposals, i: nat, assignment: map<Coord, Cell>, g: Rng)
    requires Listing(order, next) && NonEmpty(next) && Separate(next)
    requires i < |order| && ResolvedUpTo(order, next, i, assignment)
    ensures ResolvedUpTo(order, next, i + 1, Settle(order[i], next[order[i]], assignment, g).0)
  {
    var t := order[i];
    var cands := next[t];
    var a' := Settle(t, cands, assignment, g).0;
    NoSelfTarget(next, t);
    SettleSpec(t, cands, assignment, g);
    SettledBehind(order, next, i, assignment, a');
    SettledKeys(next, t, assignment, a');
    SettledAheadAll(order, next, i, assignment, a');
  }

  /** Settling the `i`-th target extends the settled prefix by one. */
  lemma SettledBehind(order: seq<Coord>, next: Proposals, i: nat, assignment: map<Coord, Cell>, a': map<Coord, Cell>)
    requires i < |order| && forall j :: 0 <= j < |order| ==> order[j] in next
    requires Behind(order, next, i, assignment) && Settled(order[i], next[order[i]], assignment, a')
    ensures Behind(order, next, i + 1, a')
  {
  }

  /** Settling the `i`-th target leaves the later ones untouched. */
  lemma SettledAheadAll(order: seq<Coord>, next: Proposals, i: nat, assignment: map<Coord, Cell>, a': map<Coord, Cell>)
    requires Listing(order, next) && Separate(next) && i < |order|
    requires Ahead(order, next, i, assignment) && Settled(order[i], next[order[i]], assignment, a')
    ensures Ahead(order, next, i + 1, a')
  {
    forall j | i + 1 <= j < |order| ensures order[j] !in a' && Spread(next[order[j]], a') {
      SettledAhead(next, order[i], order[j], assignment, a');
    }
  }

  /** A disputed target is not the position of any of its candidates. */
  lemma NoSelfTarget(next: Proposals, t: Coord)
    requires Separate(next) && t in next
    ensures |next[t]| > 1 ==> forall a :: 0 <= a < |next[t]| ==> Pos(next[t][a]) != t
  {
  }

  /** After a target is settled, every assigned cell is a proposer: at its target or at its own position. */
  lemma SettledKeys(next: Proposals, t: Coord, assignment: map<Coord, Cell>, a': map<Coord, Cell>)
    requires t in next && Settled(t, next[t], assignment, a')
    requires Sourced(next, assignment)
    ensures Sourced(next, a')
  {
    forall k | k in a' && k !in assignment && k != t
      ensures k == Pos(a'[k]) && a'[k] in Proposers(next)
    {
      var a :| 0 <= a < |next[t]| && next[t][a] == a'[k];
      assert next[t][a] in Proposers(next);
    }
  }

  /** Settling `t` leaves a later target `u` unassigned and its candidates spread. */
  lemma SettledAhead(next: Proposals, t: Coord, u: Coord, assignment: map<Coord, Cell>, a': map<Coord, Cell>)
    requires Separate(next) && t in next && u in next && u != t
    requires Settled(t, next[t], assignment, a')
    requires u !in assignment && Spread(next[u], assignment)
    ensures u !in a' && Spread(next[u], a')
  {
    var cands := next[t];
    forall a | 0 <= a < |cands| ensures Pos(cands[a]) != u {
    }
    forall b, k | 0 <= b < |next[u]| && k in a' && k !in assignment
      ensures Pos(next[u][b]) != k && Pos(next[u][b]) != Pos(a'[k])
    {
      var a :| 0 <= a < |cands| && cands[a] == a'[k];
      assert Pos(next[t][a]) != Pos(next[u][b]);
    }
  }

  /** After the last target, the assignment is resolved. */
  lemma {:induction false} ResolveSpec(order: seq<Coord>, next: Proposals, i: nat, assignment: map<Coord, Cell>, g: Rng)
    requires Listing(order, next) && NonEmpty(next) && Separate(next)
    requires i <= |order| && ResolvedUpTo(order, next, i, assignment)
    ensures Resolved(next, ResolveFrom(order, next, i, assignment, g).0)
    decreases |order| - i
  {
    if i < |order| {
      var res := Settle(order[i], next[order[i]], assignment, g);
      ResolveStep(order, next, i, assignment, g);
      ResolveSpec(order, next, i + 1, res.0, res.1);
      ResolveFromStep(order, next, i, assignment, g);
    } else {
      ResolvedAtEnd(order, next, assignment);
    }
  }

  /** `resolve_conflicts` from the `i`-th target on settles that target, then goes on from the next. */
  lemma ResolveFromStep(order: seq<Coord>, next: Proposals, i: nat, assignment: map<Coord, Cell>, g: Rng)
    requires i < |order| && NonEmpty(next) && forall j :: 0 <= j < |order| ==> order[j] in next
    ensures var res := Settle(order[i], next[order[i]], assignment, g);
            ResolveFrom(order, next, i, assignment, g) == ResolveFrom(order, next, i + 1, res.0, res.1)
  {
  }

  /** Once every target is settled, the state of `resolve_conflicts` is a resolved assignment. */
  lemma ResolvedAtEnd(order: seq<Coord>, next: Proposals, assignment: map<Coord, Cell>)
    requires Listing(order, next) && ResolvedUpTo(order, next, |order|, assignment)
    ensures Resolved(next, assignment)
  {
    forall t | t in next ensures t in assignment && assignment[t] in next[t] {
      var j :| 0 <= j < |order| && order[j] == t;
    }
    forall t, a | t in next && 0 <= a < |next[t]| && next[t][a] != assignment[t]
      ensures Pos(next[t][a]) in assignment && assignment[Pos(next[t][a])] == next[t][a]
    {
      var j :| 0 <= j < |order| && order[j] == t;
      assert next[order[j]][a] != assignment[order[j]];
    }
  }

  /**
   * A resolved assignment moves every proposer exactly once: the sources of the
   * moves are the proposers' positions, one move per proposer.
   */
  lemma ResolvedCount(next: Proposals, assignment: map<Coord, Cell>)
    requires Resolved(next, assignment)
    ensures MovesOf(assignment).Values == ProposerPositions(next)
    ensures |assignment| == |ProposerPositions(next)|
  {
    ProposersMoved(next, assignment);
    MovedAreProposers(next, assignment);
    MovesCount(assignment);
  }

  /** Injective moves have as many sources as destinations. */
  lemma MovesCount(assignment: map<Coord, Cell>)
    requires T.Injective(MovesOf(assignment))
    ensures |MovesOf(assignment).Values| == |assignment|
  {
    var m := MovesOf(assignment);
    T.ImageCard(m, m.Keys);
    assert T.Image(m, m.Keys) == m.Values;
    assert m.Keys == assignment.Keys;
  }

  lemma ProposersMoved(next: Proposals, assignment: map<Coord, Cell>)
    requires Resolved(next, assignment)
    ensures ProposerPositions(next) <= MovesOf(assignment).Values
  {
    var m := MovesOf(assignment);
    forall p | p in ProposerPositions(next) ensures p in m.Values {
      var t, a :| t in next && 0 <= a < |next[t]| && Pos(next[t][a]) == p;
      if next[t][a] == assignment[t] {
        assert m[t] == p;
      } else {
        assert m[p] == p;
      }
    }
  }

  lemma MovedAreProposers(next: Proposals, assignment: map<Coord, Cell>)
    requires Resolved(next, assignment)
    ensures MovesOf(assignment).Values <= ProposerPositions(next)
  {
    var m := MovesOf(assignment);
    forall p | p in m.Values ensures p in ProposerPositions(next) {
      var k :| k in m && m[k] == p;
      if k in next && assignment[k] in next[k] {
        var a :| 0 <= a < |next[k]| && next[k][a] == assignment[k];
        assert Pos(next[k][a]) == p;
      } else {
        var t, a :| t in next && 0 <= a < |next[t]| && next[t][a] == assignment[k];
        assert Pos(next[t][a]) == p;
      }
    }
  }

  /**
   * Against the occupants the proposals were made from, a resolved assignment is a
   * consistent step: sources are occupied, and a move that does not stay put goes
   * to an empty position.
   */
  lemma ResolvedConsistent(next: Proposals, assignment: map<Coord, Cell>, g: seq<seq<int>>, lenX: nat, lenY: nat)
    requires T.IsGrid(g, lenX, lenY) && Targets(next, g, lenX, lenY) && Resolved(next, assignment)
    ensures T.Consistent(g, lenX, lenY, MovesOf(assignment))
  {
    var m := MovesOf(assignment);
    forall k | k in m
      ensures InGrid(k, lenX, lenY) && InGrid(m[k], lenX, lenY) && T.Get(g, m[k]) != 0
      ensures m[k] == k || T.Get(g, k) == 0
    {
      if k in next && assignment[k] in next[k] {
        var a :| 0 <= a < |next[k]| && next[k][a] == assignment[k];
        assert InGrid(Pos(next[k][a]), lenX, lenY);
      } else {
        var t, a :| t in next && 0 <= a < |next[t]| && next[t][a] == assignment[k];
        assert InGrid(Pos(next[t][a]), lenX, lenY);
      }
    }
  }

  /** Adding a proposal from `c` to target `t`, as `iteration` does with its `defaultdict`. */
  function Propose(next: Proposals, t: Coord, c: Cell): Proposals
  {
    next[t := (if t in next then next[t] else []) + [c]]
  }

  /** Overwriting a key that is not there is the same as appending to it. */
  lemma ProposeOverwrite(next: Proposals, t: Coord, c: Cell)
    requires t !in next
    ensures next[t := [c]] == Propose(next, t, c)
  {
    assert [] + [c] == [c];
  }

  /** The key order after that proposal: a new target goes last. */
  function ProposeOrder(order: seq<Coord>, next: Proposals, t: Coord): seq<Coord>
  {
    if t in next then order else order + [t]
  }

  /** Where a cell proposes to go: its target, or its own position when it has none. */
  function Dest(c: Cell, target: Option<Cell>): Coord
  {
    if target.Some? then Pos(target.value) else Pos(c)
  }

  /**
   * The first loop of `iteration` over the cells `cs` whose targets are `targets`:
   * each cell in turn is appended to the list of its destination, a new key going
   * last in the key order.
   */
  function Gather(cs: seq<Cell>, targets: seq<Option<Cell>>): (seq<Coord>, Proposals)
    requires |cs| == |targets|
  {
    if cs == [] then ([], map[])
    else
      var n := |cs| - 1;
      var prev := Gather(cs[..n], targets[..n]);
      var t := Dest(cs[n], targets[n]);
      (ProposeOrder(prev.0, prev.1, t), Propose(prev.1, t, cs[n]))
  }

  /** Gathering one more cell adds its proposal on top of those before it. */
  lemma GatherStep(cs: seq<Cell>, targets: seq<Option<Cell>>, i: nat, target: Option<Cell>)
    requires i < |cs| && |targets| == i
    ensures var prev := Gather(cs[..i], targets);
            var t := Dest(cs[i], target);
            Gather(cs[..i + 1], targets + [target]) == (ProposeOrder(prev.0, prev.1, t), Propose(prev.1, t, cs[i]))
  {
    assert cs[..i + 1][..i] == cs[..i];
    assert (targets + [target])[..i] == targets;
  }

  /**
   * After gathering, a cell is among the proposers of a position exactly when it
   * is one of the cells and that position is its destination.
   */
  lemma {:induction false} GatherMembers(cs: seq<Cell>, targets: seq<Option<Cell>>, t: Coord, c: Cell)
    requires |cs| == |targets|
    ensures var next := Gather(cs, targets).1;
            (t in next && c in next[t]) <==> exists k :: 0 <= k < |cs| && cs[k] == c && Dest(cs[k], targets[k]) == t
    decreases |cs|
  {
    if cs != [] {
      var n := |cs| - 1;
      var prev := Gather(cs[..n], targets[..n]).1;
      var d := Dest(cs[n], targets[n]);
      var next := Gather(cs, targets).1;
      assert next == Propose(prev, d, cs[n]);
      GatherMembers(cs[..n], targets[..n], t, c);
      if exists k :: 0 <= k < |cs| && cs[k] == c && Dest(cs[k], targets[k]) == t {
        var k :| 0 <= k < |cs| && cs[k] == c && Dest(cs[k], targets[k]) == t;
        if k < n {
          assert cs[..n][k] == c && targets[..n][k] == targets[k];
          assert t in prev && c in prev[t];
        }
      }
      if t in next && c in next[t] {
        if t == d && c == cs[n] {
          assert Dest(cs[n], targets[n]) == t;
        } else {
          assert t in prev && c in prev[t];
          var k :| 0 <= k < n && cs[..n][k] == c && Dest(cs[..n][k], targets[..n][k]) == t;
          assert cs[k] == c && targets[k] == targets[..n][k];
        }
      }
    }
  }

  /**
   * With proposals gathered from the cells `cs` with their `targets`, every cell an
   * assignment places either stays where it is or goes to its own destination.
   */
  lemma MovesToDest(cs: seq<Cell>, targets: seq<Option<Cell>>, next: Proposals, assignment: map<Coord, Cell>)
    requires |cs| == |targets| && next == Gather(cs, targets).1 && Sourced(next, assignment)
    ensures forall k :: k in assignment ==>
              k == Pos(assignment[k])
              || exists m :: 0 <= m < |cs| && cs[m] == assignment[k] && Dest(cs[m], targets[m]) == k
  {
    forall k | k in assignment && k != Pos(assignment[k])
      ensures exists m :: 0 <= m < |cs| && cs[m] == assignment[k] && Dest(cs[m], targets[m]) == k
    {
      GatherMembers(cs, targets, k, assignment[k]);
    }
  }

  /**
   * The proposals gathered so far: well formed, with the given proposer
   * positions, every proposer drawn from `cells`.
   */
  predicate Gathering(order: seq<Coord>, next: Proposals, g: seq<seq<int>>, lenX: nat, lenY: nat,
                      positions: set<Coord>, cells: set<Cell>)
  {
    T.IsGrid(g, lenX, lenY) && Listing(order, next) && NonEmpty(next) && Distinct(next)
    && Targets(next, g, lenX, lenY) && ProposerPositions(next) == positions && Proposers(next) <= cells
  }

  /**
   * One proposal keeps the proposals well formed, when the proposer is a new,
   * occupied position and the target is empty or the proposer itself; a
   * proposer staying put is never already a key.
   */
  lemma ProposeStep(order: seq<Coord>, next: Proposals, t: Coord, c: Cell, g: seq<seq<int>>, lenX: nat, lenY: nat,
                    positions: set<Coord>, cells: set<Cell>)
    requires Gathering(order, next, g, lenX, lenY, positions, cells) && c in cells
    requires InGrid(Pos(c), lenX, lenY) && T.Get(g, Pos(c)) != 0 && Pos(c) !in positions
    requires InGrid(t, lenX, lenY) && (T.Get(g, t) == 0 || t == Pos(c))
    ensures t == Pos(c) ==> t !in next
    ensures Gathering(ProposeOrder(order, next, t), Propose(next, t, c), g, lenX, lenY, positions + {Pos(c)}, cells)
  {
    ProposeTargets(next, t, c, g, lenX, lenY);
    ProposeDistinct(next, t, c);
    ProposePositions(next, t, c);
    ProposeCells(next, t, c);
  }

  /** The entries of a list after a proposal: the old ones, then the proposer. */
  lemma ProposeEntries(next: Proposals, t: Coord, c: Cell)
    ensures var next' := Propose(next, t, c);
            |next'[t]| >= 1 && next'[t][|next'[t]| - 1] == c
            && (forall u, a :: u in next && 0 <= a < |next[u]| ==> u in next' && a < |next'[u]| && next'[u][a] == next[u][a])
            && (forall u, a :: u in next' && 0 <= a < |next'[u]| && (u, a) != (t, |next'[t]| - 1) ==> u in next && a < |next[u]| && next'[u][a] == next[u][a])
  {
  }

  lemma ProposeTargets(next: Proposals, t: Coord, c: Cell, g: seq<seq<int>>, lenX: nat, lenY: nat)
    requires T.IsGrid(g, lenX, lenY) && Targets(next, g, lenX, lenY)
    requires InGrid(Pos(c), lenX, lenY) && T.Get(g, Pos(c)) != 0
    requires InGrid(t, lenX, lenY) && (T.Get(g, t) == 0 || (t == Pos(c) && t !in next))
    ensures Targets(Propose(next, t, c), g, lenX, lenY)
  {
    ProposeEntries(next, t, c);
  }

  lemma ProposeDistinct(next: Proposals, t: Coord, c: Cell)
    requires Distinct(next) && Pos(c) !in ProposerPositions(next)
    ensures Distinct(Propose(next, t, c))
  {
    var next' := Propose(next, t, c);
    var n := |next'[t]| - 1;
    ProposeEntries(next, t, c);
    forall t1, a1, t2, a2 | t1 in next' && t2 in next' && 0 <= a1 < |next'[t1]| && 0 <= a2 < |next'[t2]|
                            && Pos(next'[t1][a1]) == Pos(next'[t2][a2])
      ensures t1 == t2 && a1 == a2
    {
    }
  }

  lemma ProposePositions(next: Proposals, t: Coord, c: Cell)
    ensures ProposerPositions(Propose(next, t, c)) == ProposerPositions(next) + {Pos(c)}
  {
    var next' := Propose(next, t, c);
    var n := |next'[t]| - 1;
    ProposeEntries(next, t, c);
    forall q | q in ProposerPositions(next') ensures q in ProposerPositions(next) + {Pos(c)} {
      var t1, a1 :| t1 in next' && 0 <= a1 < |next'[t1]| && Pos(next'[t1][a1]) == q;
      if (t1, a1) != (t, n) {
        assert Pos(next[t1][a1]) in ProposerPositions(next);
      }
    }
    forall q | q in ProposerPositions(next) ensures q in ProposerPositions(next') {
      var t1, a1 :| t1 in next && 0 <= a1 < |next[t1]| && Pos(next[t1][a1]) == q;
      assert Pos(next'[t1][a1]) == q;
    }
    assert Pos(next'[t][n]) in ProposerPositions(next');
  }

  lemma ProposeCells(next: Proposals, t: Coord, c: Cell)
    ensures Proposers(Propose(next, t, c)) == Proposers(next) + {c}
  {
    var next' := Propose(next, t, c);
    var n := |next'[t]| - 1;
    ProposeEntries(next, t, c);
    forall q | q in Proposers(next') ensures q in Proposers(next) + {c} {
      var t1, a1 :| t1 in next' && 0 <= a1 < |next'[t1]| && next'[t1][a1] == q;
      if (t1, a1) != (t, n) {
        assert next[t1][a1] in Proposers(next);
      }
    }
    forall q | q in Proposers(next) ensures q in Proposers(next') {
      var t1, a1 :| t1 in next && 0 <= a1 < |next[t1]| && next[t1][a1] == q;
      assert next'[t1][a1] == q;
    }
    assert next'[t][n] in Proposers(next');
  }

  /**
   * A simulation (`Simulation`): `n` agents in a corridor that the simulation owns,
   * `iters` iterations to run and the soberness `p`. `populatedCells` is the list of
   * occupied cells, refreshed after every iteration.
   */
  class Simulation {
    const n: int
    const iters: int
    const corridor: Lattice
    var populatedCells: seq<Cell>
    const p: real

    /**
     * The state between iterations: a well-shaped corridor with no side of 0 (on
     * which `get_populated_cells` can run), whose neighbour lists point into it,
     * `populatedCells` listing its occupied cells, and `n` of them.
     */
    ghost predicate Valid()
      reads this, corridor.CellSet()
    {
      corridor.lenX >= 1 && corridor.lenY >= 1
      && corridor.Shaped() && corridor.Occupancies() && corridor.Wired()
      && populatedCells == corridor.PopulatedCells()
      && |populatedCells| == n
    }

    /**
     * `Simulation(iters, corridor, p)` with the neighbour lists of the copy loaded
     * once: `n` is the template's number of agents, and the simulation runs on a fresh
     * copy of the template whose neighbour lists are its own neighbourhoods. The
     * template has no side of 0: on such a lattice `get_populated_cells` raises, as
     * `Start` shows.
     */
    constructor (iters: int, template: Lattice, p: real)
      requires template.Valid() && template.lenX >= 1 && template.lenY >= 1
      ensures Valid() && corridor.Loaded()
      ensures this.iters == iters && this.p == p && n == old(|template.PopulatedCells()|)
      ensures corridor.lenX == template.lenX && corridor.lenY == template.lenY
      ensures corridor.Values() == old(template.Values())
      ensures fresh(corridor) && fresh(corridor.CellSet())
    {
      var copy := DeepCopy(template);
      copy.CellsAllocated();
      var populated := copy.PopulatedCells();
      n := |populated|;
      this.iters := iters;
      corridor := copy;
      populatedCells := populated;
      this.p := p;
    }

    /**
     * `copy.deepcopy` of a grid as `Lattice` leaves it: fresh cells with the same
     * occupants, each neighbour list that of its own neighbourhood in the copy.
     */
    static method DeepCopy(template: Lattice) returns (copy: Lattice)
      requires template.Valid()
      ensures fresh(copy) && fresh(copy.CellSet())
      ensures copy.Shaped() && copy.Occupancies() && copy.Loaded() && copy.Wired()
      ensures copy.lenX == template.lenX && copy.lenY == template.lenY
      ensures copy.Values() == old(template.Values())
      ensures |copy.PopulatedCells()| == old(|template.PopulatedCells()|)
    {
      template.CellsAllocated();
      template.LoadedIsWired();
      copy := template.Clone();
      copy.CellsAllocated();
      CopyLoaded(template, copy);
      template.PopulatedCount();
      copy.PopulatedCount();
    }

    /** A clone of a loaded grid is loaded, holds the same agents and is wired. */
    static lemma CopyLoaded(template: Lattice, copy: Lattice)
      requires template.Valid() && copy.Shaped()
      requires copy.lenX == template.lenX && copy.lenY == template.lenY && copy.Values() == template.Values()
      requires forall i, j :: 0 <= i < template.lenX && 0 <= j < template.lenY ==>
                 copy.cells[i][j].neighbors == template.Mapped(copy.cells, template.cells[i][j].neighbors)
      ensures copy.Loaded() && copy.Wired() && copy.Occupancies()
    {
      forall i, j | 0 <= i < copy.lenX && 0 <= j < copy.lenY
        ensures copy.cells[i][j].neighbors == copy.NeighborCells(i, j)
      {
        template.MappedNeighborCells(copy, i, j);
      }
      copy.LoadedIsWired();
      forall i, j | 0 <= i < copy.lenX && 0 <= j < copy.lenY ensures -1 <= copy.cells[i][j].value <= 1 {
        assert copy.Values()[i][j] == template.Values()[i][j];
      }
    }

    /**
     * `Simulation.__init__` as written. On a lattice with a side of 0 its first line
     * fails: `get_populated_cells` vectorizes over an empty array of cells, which
     * raises. Otherwise the copy of the template, whose neighbour lists are already
     * loaded, has `load_neighbours` called on it again. The assertion of
     * `add_neighbor` then fails exactly when some cell has five or more neighbours;
     * otherwise every neighbour list holds its neighbourhood twice. Either failure
     * is None here.
     */
    static method Start(iters: int, template: Lattice, p: real) returns (r: Option<Simulation>)
      requires template.Valid()
      ensures r.None? <==> template.lenX == 0 || template.lenY == 0 || HasCrowdedCell(template.lenX, template.lenY)
      ensures r.Some? ==> r.value.Valid() && r.value.n == old(|template.PopulatedCells()|)
                          && r.value.corridor.lenX == template.lenX && r.value.corridor.lenY == template.lenY
      ensures r.Some? ==> forall i, j :: 0 <= i < template.lenX && 0 <= j < template.lenY ==>
                            r.value.corridor.cells[i][j].neighbors
                            == r.value.corridor.NeighborCells(i, j) + r.value.corridor.NeighborCells(i, j)
    {
      if template.lenX == 0 || template.lenY == 0 {
        return None;
      }
      template.CellsAllocated();
      var count := |template.PopulatedCells()|;
      template.PopulatedCount();
      var copy := DeepCopy(template);
      var ok := Reload(copy);
      if !ok {
        return None;
      }
      copy.PopulatedCount();
      var sim := new Simulation.Assemble(count, iters, copy, p);
      r := Some(sim);
    }

    /**
     * The second `load_neighbours` of `__init__`, on a grid whose lists are loaded:
     * it succeeds exactly when no cell has five or more neighbours, and then every
     * list holds its neighbourhood twice; occupants are untouched.
     */
    static method Reload(grid: Lattice) returns (ok: bool)
      requires grid.Shaped() && grid.Loaded() && grid.Occupancies()
      modifies grid.CellSet()
      ensures ok <==> !HasCrowdedCell(grid.lenX, grid.lenY)
      ensures grid.Values() == old(grid.Values())
      ensures ok ==> grid.Occupancies() && grid.Wired()
      ensures ok ==> forall i, j :: 0 <= i < grid.lenX && 0 <= j < grid.lenY ==>
                       grid.cells[i][j].neighbors == grid.NeighborCells(i, j) + grid.NeighborCells(i, j)
    {
      ghost var before := grid.Values();
      ok := grid.LoadNeighbours();
      ReloadFits(grid.lenX, grid.lenY);
      T.GridsEqual(grid.Values(), before, grid.lenX, grid.lenY);
      if ok {
        DoubledWired(grid);
      }
    }

    /** Loading a loaded grid again fits every cell exactly when no cell has five or more neighbours. */
    static lemma ReloadFits(lenX: nat, lenY: nat)
      ensures (forall i, j :: 0 <= i < lenX && 0 <= j < lenY ==>
                 |NeighborCoords(i, j, lenX, lenY)| == 0 || 2 * |NeighborCoords(i, j, lenX, lenY)| <= 9)
              <==> !HasCrowdedCell(lenX, lenY)
    {
      if HasCrowdedCell(lenX, lenY) {
        var x, y :| 0 <= x < lenX && 0 <= y < lenY && |NeighborCoords(x, y, lenX, lenY)| >= 5;
      }
    }

    /**
     * The smallest corridors the second load rejects: in a 3 by 2 grid the cell at
     * `(1, 0)` has five neighbours, while a 2 by 2 grid, with three per cell, passes.
     */
    static lemma ThreeByTwoRejected()
      ensures |NeighborCoords(1, 0, 3, 2)| == 5
      ensures HasCrowdedCell(3, 2) && !HasCrowdedCell(2, 2)
    {
      NeighborCount(1, 0, 3, 2);
      CrowdedCellIff(3, 2);
      CrowdedCellIff(2, 2);
    }

    /** Neighbour lists that hold the neighbourhood twice still point into the grid. */
    static lemma DoubledWired(grid: Lattice)
      requires grid.Shaped()
      requires forall i, j :: 0 <= i < grid.lenX && 0 <= j < grid.lenY ==>
                 grid.cells[i][j].neighbors == grid.NeighborCells(i, j) + grid.NeighborCells(i, j)
      ensures grid.Wired()
    {
      forall i, j, k | 0 <= i < grid.lenX && 0 <= j < grid.lenY && 0 <= k < |grid.cells[i][j].neighbors|
        ensures InGrid((grid.cells[i][j].neighbors[k].x, grid.cells[i][j].neighbors[k].y), grid.lenX, grid.lenY)
        ensures grid.cells[i][j].neighbors[k] == grid.At((grid.cells[i][j].neighbors[k].x, grid.cells[i][j].neighbors[k].y))
      {
        var ns := grid.NeighborCells(i, j);
        var k' := if k < |ns| then k else k - |ns|;
        assert grid.cells[i][j].neighbors[k] == ns[k'];
        NeighborsValid(i, j, grid.lenX, grid.lenY);
      }
    }

    /**
     * The fields of a simulation, as `__init__` sets them once the corridor is
     * ready: its occupied cells are listed, and there are `n` of them.
     */
    constructor Assemble(n: int, iters: int, corridor: Lattice, p: real)
      requires corridor.lenX >= 1 && corridor.lenY >= 1 && corridor.Shaped() && corridor.Occupancies() && corridor.Wired()
      requires |corridor.PopulatedCells()| == n
      ensures Valid() && this.n == n && this.iters == iters && this.corridor == corridor && this.p == p
    {
      corridor.CellsAllocated();
      this.n := n;
      this.iters := iters;
      this.corridor := corridor;
      this.populatedCells := corridor.PopulatedCells();
      this.p := p;
    }

    /**
     * `find_target_cell`, for an occupied cell. A cell leaving on the left looks for
     * an empty cell in the last column, one leaving on the right in the first
     * column, both within one row of its own; any other cell takes its best
     * neighbour. The straight-ahead chance of `get_best_neighbor` is its own
     * constant, not `p`. A target is always an empty cell of the corridor.
     */
    method FindTargetCell(cell: Cell, g: Rng) returns (r: Option<Cell>, g': Rng)
      requires corridor.Shaped() && corridor.Wired() && cell in corridor.CellSet() && cell.value != 0
      ensures Found(cell, r)
    {
      corridor.Members(cell);
      if cell.IsLeavingLeft() {
        r, g' := corridor.GetRandomEmptyEdgeCell(corridor.lenY - 1, cell.x, p, g);
      } else if cell.IsLeavingRight(corridor.lenY) {
        r, g' := corridor.GetRandomEmptyEdgeCell(0, cell.x, p, g);
      } else {
        r, g' := cell.GetBestNeighbor(g);
        if r.Some? {
          var k :| 0 <= k < |cell.neighbors| && cell.neighbors[k] == r.value;
          assert r.value == corridor.At((r.value.x, r.value.y));
        }
      }
      if r.Some? {
        corridor.Members(r.value);
      }
    }

    /** Each of the cells `cs` has its `find_target_cell` result in `targets`. */
    ghost predicate AllFound(cs: seq<Cell>, targets: seq<Option<Cell>>)
      reads corridor.CellSet()
      requires corridor.Shaped() && corridor.Wired() && forall k :: 0 <= k < |cs| ==> cs[k] in corridor.CellSet()
    {
      |targets| == |cs| && forall k :: 0 <= k < |cs| ==> Found(cs[k], targets[k])
    }

    /** A found target for the next cell extends `AllFound` by one. */
    lemma FoundStep(cs: seq<Cell>, targets: seq<Option<Cell>>, i: nat, target: Option<Cell>)
      requires corridor.Shaped() && corridor.Wired() && forall k :: 0 <= k < |cs| ==> cs[k] in corridor.CellSet()
      requires i < |cs| && AllFound(cs[..i], targets) && Found(cs[i], target)
      ensures AllFound(cs[..i + 1], targets + [target])
    {
      assert forall k :: 0 <= k < i ==> cs[..i + 1][k] == cs[..i][k];
    }

    /** What `find_target_cell` may return for `cell`, as `FindTargetCell` describes it. */
    ghost predicate Found(cell: Cell, r: Option<Cell>)
      reads corridor.CellSet()
      requires corridor.Shaped() && corridor.Wired() && cell in corridor.CellSet()
    {
      (r.Some? ==> r.value in corridor.CellSet() && r.value.value == 0)
      && (cell.IsLeavingLeft() ==>
                (r.Some? ==> r.value.y == corridor.lenY - 1 && -1 <= r.value.x - cell.x <= 1)
                && (r.None? <==> forall i :: 0 <= i < corridor.lenX && -1 <= i - cell.x <= 1 ==>
                                   corridor.cells[i][corridor.lenY - 1].value != 0))
      && (cell.IsLeavingRight(corridor.lenY) ==>
                (r.Some? ==> r.value.y == 0 && -1 <= r.value.x - cell.x <= 1)
                && (r.None? <==> forall i :: 0 <= i < corridor.lenX && -1 <= i - cell.x <= 1 ==>
                                   corridor.cells[i][0].value != 0))
      && (!cell.IsLeavingLeft() && !cell.IsLeavingRight(corridor.lenY) ==>
                (r.None? <==> cell.Improving() == [])
                && (r.Some? ==> r.value in cell.neighbors && r.value.DistanceFor(cell.value) < cell.DistanceFor(cell.value)))
    }

    /**
     * The first loop of `iteration`: every occupied cell, in row-major order,
     * proposes its target, or its own position, overwriting, when it has none.
     * The proposals are the `Gather` of the occupied cells with `targets`, each the
     * cell's `find_target_cell` result. Every occupied position proposes exactly
     * once, each to an empty cell or to itself.
     */
    method GatherProposals(g: Rng) returns (order: seq<Coord>, next: Proposals, g': Rng, ghost targets: seq<Option<Cell>>)
      requires Valid()
      ensures |targets| == |populatedCells|
      ensures AllFound(populatedCells, targets)
      ensures (order, next) == Gather(populatedCells, targets)
      ensures Gathering(order, next, corridor.Values(), corridor.lenX, corridor.lenY,
                        T.Populated(corridor.Values()), corridor.CellSet())
    {
      order, next, g', targets := GatherLoop(g);
      GatheredAll(order, next, targets);
    }

    /** The loop itself: after it, every occupied cell has proposed. */
    method GatherLoop(g: Rng) returns (order: seq<Coord>, next: Proposals, g': Rng, ghost targets: seq<Option<Cell>>)
      requires Valid()
      ensures Gathered(|populatedCells|, order, next, targets, corridor.Values())
    {
      ghost var values := corridor.Values();
      order, next, g', targets := [], map[], g, [];
      GatheredNone(values);
      for i := 0 to |populatedCells|
        invariant Valid() && Gathered(i, order, next, targets, values)
      {
        order, next, g', targets := GatherNext(i, order, next, g', targets, values);
      }
    }

    /** Before the first cell, nothing is gathered. */
    lemma GatheredNone(values: seq<seq<int>>)
      requires Valid() && values == corridor.Values()
      ensures Gathered(0, [], map[], [], values)
    {
      assert populatedCells[..0] == [];
    }

    /** The state of that loop after the last cell is what `GatherProposals` promises. */
    lemma GatheredAll(order: seq<Coord>, next: Proposals, targets: seq<Option<Cell>>)
      requires Valid() && Gathered(|populatedCells|, order, next, targets, corridor.Values())
      ensures |targets| == |populatedCells|
      ensures AllFound(populatedCells, targets)
      ensures (order, next) == Gather(populatedCells, targets)
      ensures Gathering(order, next, corridor.Values(), corridor.lenX, corridor.lenY,
                        T.Populated(corridor.Values()), corridor.CellSet())
    {
      assert populatedCells[..|populatedCells|] == populatedCells;
      AllPositions();
    }

    /**
     * The state of that loop before the `i`-th cell: the proposals of the first `i`
     * cells, gathered with their `find_target_cell` results `targets`.
     */
    ghost predicate Gathered(i: nat, order: seq<Coord>, next: Proposals, targets: seq<Option<Cell>>,
                             values: seq<seq<int>>)
      reads this, corridor.CellSet()
      requires i <= |populatedCells| && corridor.Shaped() && corridor.Wired()
      requires forall k :: 0 <= k < |populatedCells| ==> populatedCells[k] in corridor.CellSet()
    {
      Gathering(order, next, values, corridor.lenX, corridor.lenY, Positions(populatedCells, i), corridor.CellSet())
      && |targets| == i && AllFound(populatedCells[..i], targets)
      && (order, next) == Gather(populatedCells[..i], targets)
    }

    /** The positions of all the occupied cells are the occupied positions. */
    lemma AllPositions()
      requires Valid()
      ensures Positions(populatedCells, |populatedCells|) == T.Populated(corridor.Values())
    {
      PositionsSet(populatedCells, |populatedCells|);
      corridor.PopulatedCount();
    }

    /**
     * The body of that loop for the `i`-th occupied cell: `target` is its
     * `find_target_cell` result; the cell is appended to the target's list, or, with
     * no target, its own position gets a list holding just the cell.
     */
    method GatherOne(i: nat, order: seq<Coord>, next: Proposals, g: Rng, ghost values: seq<seq<int>>)
      returns (order': seq<Coord>, next': Proposals, g': Rng, target: Option<Cell>)
      requires Valid() && values == corridor.Values() && i < |populatedCells|
      requires Gathering(order, next, values, corridor.lenX, corridor.lenY, Positions(populatedCells, i), corridor.CellSet())
      ensures Gathering(order', next', values, corridor.lenX, corridor.lenY, Positions(populatedCells, i + 1), corridor.CellSet())
      ensures Found(populatedCells[i], target)
      ensures target.Some? ==> next' == Propose(next, Pos(target.value), populatedCells[i])
      ensures target.None? ==> next' == next[Pos(populatedCells[i]) := [populatedCells[i]]]
      ensures next' == Propose(next, Dest(populatedCells[i], target), populatedCells[i])
      ensures order' == ProposeOrder(order, next, Dest(populatedCells[i], target))
    {
      var cell := populatedCells[i];
      corridor.Members(cell);
      PositionFresh(populatedCells, i);
      target, g' := FindTargetCell(cell, g);
      var t := if target.Some? then Pos(target.value) else Pos(cell);
      if target.Some? {
        corridor.Members(target.value);
      }
      ProposeStep(order, next, t, cell, values, corridor.lenX, corridor.lenY, Positions(populatedCells, i), corridor.CellSet());
      order' := ProposeOrder(order, next, t);
      if target.Some? {
        next' := Propose(next, t, cell);
      } else {
        ProposeOverwrite(next, t, cell);
        next' := next[t := [cell]];
      }
    }

    /** One turn of the loop of `GatherProposals`: the `i`-th cell proposes, and its target is recorded. */
    method GatherNext(i: nat, order: seq<Coord>, next: Proposals, g: Rng, ghost targets: seq<Option<Cell>>,
                      ghost values: seq<seq<int>>)
      returns (order': seq<Coord>, next': Proposals, g': Rng, ghost targets': seq<Option<Cell>>)
      requires Valid() && values == corridor.Values() && i < |populatedCells|
      requires Gathered(i, order, next, targets, values)
      ensures Gathered(i + 1, order', next', targets', values)
    {
      var target;
      order', next', g', target := GatherOne(i, order, next, g, values);
      GatheredStep(i, order, next, targets, values, order', next', target);
      targets' := targets + [target];
    }

    /** One turn of the loop of `GatherProposals` extends its state by the `i`-th cell. */
    lemma GatheredStep(i: nat, order: seq<Coord>, next: Proposals, targets: seq<Option<Cell>>, values: seq<seq<int>>,
                       order': seq<Coord>, next': Proposals, target: Option<Cell>)
      requires i < |populatedCells| && corridor.Shaped() && corridor.Wired()
      requires forall k :: 0 <= k < |populatedCells| ==> populatedCells[k] in corridor.CellSet()
      requires Gathered(i, order, next, targets, values)
      requires Gathering(order', next', values, corridor.lenX, corridor.lenY, Positions(populatedCells, i + 1), corridor.CellSet())
      requires Found(populatedCells[i], target)
      requires next' == Propose(next, Dest(populatedCells[i], target), populatedCells[i])
      requires order' == ProposeOrder(order, next, Dest(populatedCells[i], target))
      ensures Gathered(i + 1, order', next', targets + [target], values)
    {
      GatherStep(populatedCells, targets, i, target);
      FoundStep(populatedCells, targets, i, target);
    }

    /** The positions of the first `i` cells of `cs`. */
    static function Positions(cs: seq<Cell>, i: nat): (r: set<Coord>)
      requires i <= |cs|
      ensures forall k :: 0 <= k < i ==> Pos(cs[k]) in r
    {
      if i == 0 then {} else Positions(cs, i - 1) + {Pos(cs[i - 1])}
    }

    /** Those positions as a comprehension. */
    static lemma {:induction false} PositionsSet(cs: seq<Cell>, i: nat)
      requires i <= |cs|
      ensures Positions(cs, i) == set k | 0 <= k < i :: Pos(cs[k])
    {
      if i > 0 {
        PositionsSet(cs, i - 1);
        PrefixPositions(cs, i - 1);
      }
    }

    /** In row-major order, the next cell's position is not among the earlier ones. */
    static lemma PositionFresh(cs: seq<Cell>, i: nat)
      requires i < |cs| && Lattice.Ascending(cs)
      ensures Pos(cs[i]) !in Positions(cs, i)
    {
      PositionsSet(cs, i);
    }

    /** The positions of a prefix one longer. */
    static lemma PrefixPositions(cs: seq<Cell>, i: nat)
      requires i < |cs|
      ensures (set k | 0 <= k < i + 1 :: Pos(cs[k])) == (set k | 0 <= k < i :: Pos(cs[k])) + {Pos(cs[i])}
    {
      var a := set k | 0 <= k < i + 1 :: Pos(cs[k]);
      var b := set k | 0 <= k < i :: Pos(cs[k]);
      forall q | q in a ensures q in b + {Pos(cs[i])} {
        var k :| 0 <= k < i + 1 && Pos(cs[k]) == q;
        if k < i {
          assert Pos(cs[k]) in b;
        }
      }
      assert Pos(cs[i]) in a;
    }

    /**
     * `resolve_conflicts`: targets in insertion order; a single candidate takes its
     * target, otherwise all but one are popped at random and assigned to their own
     * positions, and the one left takes the target. The outcome is `ResolveFrom`
     * from the first target, and for `Separate` proposals it is resolved.
     */
    static method ResolveConflicts(order: seq<Coord>, next: Proposals, g: Rng) returns (assignment: map<Coord, Cell>, g': Rng)
      requires Listing(order, next) && NonEmpty(next)
      ensures (assignment, g') == ResolveFrom(order, next, 0, map[], g)
      ensures Separate(next) ==> Resolved(next, assignment)
    {
      assignment, g' := map[], g;
      for i := 0 to |order|
        invariant ResolveFrom(order, next, i, assignment, g') == ResolveFrom(order, next, 0, map[], g)
      {
        ResolveFromStep(order, next, i, assignment, g');
        assignment, g' := SettleTarget(order[i], next[order[i]], assignment, g');
      }
      if Separate(next) {
        ResolveSpec(order, next, 0, map[], g);
      }
    }

    /**
     * The body of that loop for one target: a single candidate takes it; otherwise
     * all but one candidate are popped at random and assigned to their own
     * positions, and the one left takes the target.
     */
    static method SettleTarget(target: Coord, cands: seq<Cell>, assignment: map<Coord, Cell>, g: Rng)
      returns (assignment': map<Coord, Cell>, g': Rng)
      requires |cands| >= 1
      ensures (assignment', g') == Settle(target, cands, assignment, g)
    {
      assignment', g' := assignment, g;
      var candidates := cands;
      if |candidates| == 1 {
        assignment' := assignment'[target := candidates[0]];
      } else {
        for r := 0 to |cands| - 1
          invariant |candidates| == |cands| - r
          invariant var res := Eliminate(candidates, |candidates| - 1, assignment', g');
                    (res.1[target := res.0[0]], res.2) == Settle(target, cands, assignment, g)
        {
          var pick := RandInt(g', 0, |candidates| - 1);
          g' := pick.1;
          var loser := candidates[pick.0];
          candidates := candidates[..pick.0] + candidates[pick.0 + 1..];
          assignment' := assignment'[Pos(loser) := loser];
        }
        var winner := candidates[0];
        assignment' := assignment'[target := winner];
      }
    }

    /**
     * `execute_timestep`: every assigned cell moves to its target; a cell that
     * really moves first lowers its exit distance, then is cleared, and the target
     * takes its occupant. The moves are taken in any order, which covers the
     * dictionary's. The outcome is the step `StepValues` on the occupants and
     * `StepDistances` on each exit-distance grid; neighbour lists stay.
     */
    method ExecuteTimestep(assignment: map<Coord, Cell>)
      requires corridor.Shaped() && corridor.Occupancies()
      requires T.Consistent(corridor.Values(), corridor.lenX, corridor.lenY, MovesOf(assignment))
      requires forall k :: k in assignment ==> assignment[k] in corridor.CellSet()
      modifies corridor.CellSet()
      ensures corridor.Values() == T.StepValues(old(corridor.Values()), corridor.lenX, corridor.lenY, MovesOf(assignment))
      ensures corridor.LeftDistances()
              == T.StepDistances(old(corridor.LeftDistances()), old(corridor.Values()), corridor.lenX, corridor.lenY, MovesOf(assignment), -1)
      ensures corridor.RightDistances()
              == T.StepDistances(old(corridor.RightDistances()), old(corridor.Values()), corridor.lenX, corridor.lenY, MovesOf(assignment), 1)
      ensures corridor.Neighbourhoods() == old(corridor.Neighbourhoods())
    {
      var lenX, lenY := corridor.lenX, corridor.lenY;
      ghost var g0, l0, r0 := corridor.Values(), corridor.LeftDistances(), corridor.RightDistances();
      ghost var nb := corridor.Neighbourhoods();
      assert forall i, j :: 0 <= i < lenX && 0 <= j < lenY ==> -1 <= g0[i][j] <= 1;
      ReachedNone(g0, l0, r0, nb);
      MoveAll(assignment, g0, l0, r0, nb);
      ReachedAll(g0, l0, r0, nb, MovesOf(assignment));
    }

    /** The loop of `execute_timestep`: the moves, one at a time, in any order. */
    method MoveAll(assignment: map<Coord, Cell>, ghost g0: seq<seq<int>>, ghost l0: seq<seq<real>>,
                   ghost r0: seq<seq<real>>, ghost nb: seq<seq<seq<Cell>>>)
      requires corridor.Shaped() && T.Consistent(g0, corridor.lenX, corridor.lenY, MovesOf(assignment))
      requires forall i, j :: 0 <= i < corridor.lenX && 0 <= j < corridor.lenY ==> -1 <= g0[i][j] <= 1
      requires T.IsGrid(l0, corridor.lenX, corridor.lenY) && T.IsGrid(r0, corridor.lenX, corridor.lenY)
      requires T.IsGrid(nb, corridor.lenX, corridor.lenY)
      requires forall k :: k in assignment ==> assignment[k] in corridor.CellSet()
      requires T.Consistent(g0, corridor.lenX, corridor.lenY, map[]) && Reached(g0, l0, r0, nb, map[])
      modifies corridor.CellSet()
      ensures Reached(g0, l0, r0, nb, MovesOf(assignment))
    {
      var lenX, lenY := corridor.lenX, corridor.lenY;
      ghost var m := MovesOf(assignment);
      ghost var done: T.Moves := map[];
      var remaining := assignment.Keys;
      assert Split(m, done, remaining);
      while remaining != {}
        invariant Split(m, done, remaining) && T.Consistent(g0, lenX, lenY, done)
        invariant Reached(g0, l0, r0, nb, done)
        decreases |remaining|
      {
        var k :| k in remaining;
        MoveNext(assignment, k, g0, l0, r0, nb, done, remaining);
        done := done[k := m[k]];
        remaining := remaining - {k};
      }
      SplitEnd(m, done);
    }

    /** One turn of that loop: the move to `k`, one of the remaining ones, joins those done. */
    method MoveNext(assignment: map<Coord, Cell>, k: Coord, ghost g0: seq<seq<int>>, ghost l0: seq<seq<real>>,
                    ghost r0: seq<seq<real>>, ghost nb: seq<seq<seq<Cell>>>, ghost done: T.Moves,
                    ghost remaining: set<Coord>)
      requires corridor.Shaped() && T.Consistent(g0, corridor.lenX, corridor.lenY, MovesOf(assignment))
      requires forall i, j :: 0 <= i < corridor.lenX && 0 <= j < corridor.lenY ==> -1 <= g0[i][j] <= 1
      requires T.IsGrid(l0, corridor.lenX, corridor.lenY) && T.IsGrid(r0, corridor.lenX, corridor.lenY)
      requires T.IsGrid(nb, corridor.lenX, corridor.lenY)
      requires forall k :: k in assignment ==> assignment[k] in corridor.CellSet()
      requires Split(MovesOf(assignment), done, remaining) && k in remaining
      requires T.Consistent(g0, corridor.lenX, corridor.lenY, done) && Reached(g0, l0, r0, nb, done)
      modifies corridor.CellSet()
      ensures Split(MovesOf(assignment), done[k := MovesOf(assignment)[k]], remaining - {k})
      ensures T.Consistent(g0, corridor.lenX, corridor.lenY, done[k := MovesOf(assignment)[k]])
      ensures Reached(g0, l0, r0, nb, done[k := MovesOf(assignment)[k]])
    {
      ghost var m := MovesOf(assignment);
      var oldCell := assignment[k];
      SplitStep(g0, corridor.lenX, corridor.lenY, m, done, remaining, k);
      ghost var done' := done[k := m[k]];
      assert Pos(oldCell) == done'[k] && InGrid(k, corridor.lenX, corridor.lenY);
      Advance(k, oldCell, g0, l0, r0, nb, done');
    }

    /** No move done: the corridor's grids are where they started. */
    lemma ReachedNone(g0: seq<seq<int>>, l0: seq<seq<real>>, r0: seq<seq<real>>, nb: seq<seq<seq<Cell>>>)
      requires corridor.Shaped() && g0 == corridor.Values()
      requires l0 == corridor.LeftDistances() && r0 == corridor.RightDistances() && nb == corridor.Neighbourhoods()
      ensures T.Consistent(g0, corridor.lenX, corridor.lenY, map[]) && Reached(g0, l0, r0, nb, map[])
    {
    }

    /** All moves done: the corridor's grids are the step's. */
    lemma ReachedAll(g0: seq<seq<int>>, l0: seq<seq<real>>, r0: seq<seq<real>>, nb: seq<seq<seq<Cell>>>, m: T.Moves)
      requires corridor.Shaped() && T.Consistent(g0, corridor.lenX, corridor.lenY, m)
      requires T.IsGrid(l0, corridor.lenX, corridor.lenY) && T.IsGrid(r0, corridor.lenX, corridor.lenY)
      requires T.IsGrid(nb, corridor.lenX, corridor.lenY)
      requires Reached(g0, l0, r0, nb, m)
      ensures corridor.Values() == T.StepValues(g0, corridor.lenX, corridor.lenY, m)
      ensures corridor.LeftDistances() == T.StepDistances(l0, g0, corridor.lenX, corridor.lenY, m, -1)
      ensures corridor.RightDistances() == T.StepDistances(r0, g0, corridor.lenX, corridor.lenY, m, 1)
      ensures corridor.Neighbourhoods() == nb
    {
      ReachedValues(g0, l0, r0, nb, m);
      ReachedDistances(g0, l0, r0, nb, m);
      ReachedNeighbourhoods(g0, l0, r0, nb, m);
    }

    lemma ReachedValues(g0: seq<seq<int>>, l0: seq<seq<real>>, r0: seq<seq<real>>, nb: seq<seq<seq<Cell>>>, m: T.Moves)
      requires corridor.Shaped() && T.Consistent(g0, corridor.lenX, corridor.lenY, m)
      requires T.IsGrid(l0, corridor.lenX, corridor.lenY) && T.IsGrid(r0, corridor.lenX, corridor.lenY)
      requires T.IsGrid(nb, corridor.lenX, corridor.lenY)
      requires Reached(g0, l0, r0, nb, m)
      ensures corridor.Values() == T.StepValues(g0, corridor.lenX, corridor.lenY, m)
    {
      var lenX, lenY := corridor.lenX, corridor.lenY;
      forall i, j | 0 <= i < lenX && 0 <= j < lenY
        ensures corridor.Values()[i][j] == T.StepValues(g0, lenX, lenY, m)[i][j]
      {
        assert ReachedAt(g0, l0, r0, nb, m, i, j);
        T.StepValuesAfter(g0, lenX, lenY, m);
      }
      T.GridsEqual(corridor.Values(), T.StepValues(g0, lenX, lenY, m), lenX, lenY);
    }

    lemma ReachedDistances(g0: seq<seq<int>>, l0: seq<seq<real>>, r0: seq<seq<real>>, nb: seq<seq<seq<Cell>>>, m: T.Moves)
      requires corridor.Shaped() && T.Consistent(g0, corridor.lenX, corridor.lenY, m)
      requires T.IsGrid(l0, corridor.lenX, corridor.lenY) && T.IsGrid(r0, corridor.lenX, corridor.lenY)
      requires T.IsGrid(nb, corridor.lenX, corridor.lenY)
      requires Reached(g0, l0, r0, nb, m)
      ensures corridor.LeftDistances() == T.StepDistances(l0, g0, corridor.lenX, corridor.lenY, m, -1)
      ensures corridor.RightDistances() == T.StepDistances(r0, g0, corridor.lenX, corridor.lenY, m, 1)
    {
      var lenX, lenY := corridor.lenX, corridor.lenY;
      forall i, j | 0 <= i < lenX && 0 <= j < lenY
        ensures corridor.LeftDistances()[i][j] == T.StepDistances(l0, g0, lenX, lenY, m, -1)[i][j]
        ensures corridor.RightDistances()[i][j] == T.StepDistances(r0, g0, lenX, lenY, m, 1)[i][j]
      {
        assert ReachedAt(g0, l0, r0, nb, m, i, j);
        T.StepDistancesAfter(l0, g0, lenX, lenY, m, -1);
        T.StepDistancesAfter(r0, g0, lenX, lenY, m, 1);
      }
      T.GridsEqual(corridor.LeftDistances(), T.StepDistances(l0, g0, lenX, lenY, m, -1), lenX, lenY);
      T.GridsEqual(corridor.RightDistances(), T.StepDistances(r0, g0, lenX, lenY, m, 1), lenX, lenY);
    }

    lemma ReachedNeighbourhoods(g0: seq<seq<int>>, l0: seq<seq<real>>, r0: seq<seq<real>>, nb: seq<seq<seq<Cell>>>, m: T.Moves)
      requires corridor.Shaped() && T.Consistent(g0, corridor.lenX, corridor.lenY, m)
      requires T.IsGrid(l0, corridor.lenX, corridor.lenY) && T.IsGrid(r0, corridor.lenX, corridor.lenY)
      requires T.IsGrid(nb, corridor.lenX, corridor.lenY)
      requires Reached(g0, l0, r0, nb, m)
      ensures corridor.Neighbourhoods() == nb
    {
      var lenX, lenY := corridor.lenX, corridor.lenY;
      forall i, j | 0 <= i < lenX && 0 <= j < lenY ensures corridor.Neighbourhoods()[i][j] == nb[i][j] {
        assert ReachedAt(g0, l0, r0, nb, m, i, j);
      }
      T.GridsEqual(corridor.Neighbourhoods(), nb, lenX, lenY);
    }

    /**
     * The corridor after the moves `done` from the occupants `g0`, the exit
     * distances `l0` and `r0` and the neighbour lists `nb`.
     */
    ghost predicate Reached(g0: seq<seq<int>>, l0: seq<seq<real>>, r0: seq<seq<real>>, nb: seq<seq<seq<Cell>>>,
                            done: T.Moves)
      reads corridor.CellSet()
      requires corridor.Shaped() && T.Consistent(g0, corridor.lenX, corridor.lenY, done)
      requires T.IsGrid(l0, corridor.lenX, corridor.lenY) && T.IsGrid(r0, corridor.lenX, corridor.lenY)
      requires T.IsGrid(nb, corridor.lenX, corridor.lenY)
    {
      forall i, j :: 0 <= i < corridor.lenX && 0 <= j < corridor.lenY ==> ReachedAt(g0, l0, r0, nb, done, i, j)
    }

    /** `Reached` at one cell. */
    ghost predicate ReachedAt(g0: seq<seq<int>>, l0: seq<seq<real>>, r0: seq<seq<real>>, nb: seq<seq<seq<Cell>>>,
                              done: T.Moves, i: int, j: int)
      reads corridor.CellSet()
      requires corridor.Shaped() && T.Consistent(g0, corridor.lenX, corridor.lenY, done)
      requires T.IsGrid(l0, corridor.lenX, corridor.lenY) && T.IsGrid(r0, corridor.lenX, corridor.lenY)
      requires T.IsGrid(nb, corridor.lenX, corridor.lenY)
      requires 0 <= i < corridor.lenX && 0 <= j < corridor.lenY
    {
      corridor.cells[i][j].value == T.ValueAfter(g0, corridor.lenX, corridor.lenY, done, (i, j))
      && corridor.cells[i][j].leftExitDistance == T.DistanceAfter(l0, g0, corridor.lenX, corridor.lenY, done, -1, (i, j))
      && corridor.cells[i][j].rightExitDistance == T.DistanceAfter(r0, g0, corridor.lenX, corridor.lenY, done, 1, (i, j))
      && corridor.cells[i][j].neighbors == nb[i][j]
    }

    /**
     * One move of `execute_timestep` on top of the moves before it: the corridor
     * is then the step of all of them.
     */
    method Advance(k: Coord, oldCell: Cell, ghost g0: seq<seq<int>>, ghost l0: seq<seq<real>>,
                   ghost r0: seq<seq<real>>, ghost nb: seq<seq<seq<Cell>>>, ghost done: T.Moves)
      requires corridor.Shaped() && T.Consistent(g0, corridor.lenX, corridor.lenY, done) && k in done
      requires forall i, j :: 0 <= i < corridor.lenX && 0 <= j < corridor.lenY ==> -1 <= g0[i][j] <= 1
      requires T.IsGrid(l0, corridor.lenX, corridor.lenY) && T.IsGrid(r0, corridor.lenX, corridor.lenY)
      requires T.IsGrid(nb, corridor.lenX, corridor.lenY)
      requires oldCell in corridor.CellSet() && Pos(oldCell) == done[k]
      requires T.Consistent(g0, corridor.lenX, corridor.lenY, done - {k}) && Reached(g0, l0, r0, nb, done - {k})
      modifies oldCell, corridor.At(k)
      ensures Reached(g0, l0, r0, nb, done)
    {
      var lenX, lenY := corridor.lenX, corridor.lenY;
      var src := done[k];
      corridor.Members(oldCell);
      T.ValueAfterOne(g0, lenX, lenY, done, k, src);
      T.DistanceAfterOne(l0, g0, lenX, lenY, done, -1, k, src);
      T.DistanceAfterOne(r0, g0, lenX, lenY, done, 1, k, src);
      assert ReachedAt(g0, l0, r0, nb, done - {k}, src.0, src.1);
      assert ReachedAt(g0, l0, r0, nb, done - {k}, k.0, k.1);
      MoveCell(k, oldCell);
      forall i, j | 0 <= i < lenX && 0 <= j < lenY
        ensures ReachedAt(g0, l0, r0, nb, done, i, j)
      {
        T.ValueAfterOne(g0, lenX, lenY, done, k, (i, j));
        T.DistanceAfterOne(l0, g0, lenX, lenY, done, -1, k, (i, j));
        T.DistanceAfterOne(r0, g0, lenX, lenY, done, 1, k, (i, j));
        if (i, j) != k && (i, j) != src {
          assert corridor.cells[i][j] != oldCell && corridor.cells[i][j] != corridor.At(k);
          assert old(ReachedAt(g0, l0, r0, nb, done - {k}, i, j));
        }
      }
    }

    /** The body of the loop of `execute_timestep`, for the cell `oldCell` moving to `target`. */
    method MoveCell(target: Coord, oldCell: Cell)
      requires corridor.Shaped() && InGrid(target, corridor.lenX, corridor.lenY) && oldCell in corridor.CellSet()
      requires oldCell.value == -1 || oldCell.value == 1
      requires oldCell == corridor.At(target) || corridor.At(target).value == 0
      modifies oldCell, corridor.At(target)
      ensures corridor.At(target).Snap() == old(corridor.At(target).Snap()).(value := old(oldCell.value))
      ensures oldCell != corridor.At(target) ==>
                oldCell.Snap() == old(oldCell.Snap()).(value := 0,
                  leftExitDistance := if old(oldCell.value) < 0 then old(oldCell.leftExitDistance) - Decay else old(oldCell.leftExitDistance),
                  rightExitDistance := if old(oldCell.value) > 0 then old(oldCell.rightExitDistance) - Decay else old(oldCell.rightExitDistance))
    {
      var value := oldCell.value;
      var newCell := corridor.cells[target.0][target.1];
      if oldCell != newCell {
        oldCell.LowerDistanceToExit();
      }
      oldCell.Clear();
      newCell.Populate(value);
    }

    /**
     * The corridor is the step `moves` from the occupants `g0` and the exit
     * distances `l0` and `r0`: a consistent step that moves every agent.
     */
    ghost predicate Stepped(g0: seq<seq<int>>, l0: seq<seq<real>>, r0: seq<seq<real>>, moves: T.Moves)
      reads corridor.CellSet()
      requires corridor.Shaped()
    {
      T.IsGrid(l0, corridor.lenX, corridor.lenY) && T.IsGrid(r0, corridor.lenX, corridor.lenY)
      && T.Consistent(g0, corridor.lenX, corridor.lenY, moves)
      && moves.Values == T.Populated(g0)
      && corridor.Values() == T.StepValues(g0, corridor.lenX, corridor.lenY, moves)
      && corridor.LeftDistances() == T.StepDistances(l0, g0, corridor.lenX, corridor.lenY, moves, -1)
      && corridor.RightDistances() == T.StepDistances(r0, g0, corridor.lenX, corridor.lenY, moves, 1)
    }

    /**
     * `iteration`: gather the proposals, resolve the conflicts, execute the moves
     * and refresh `populatedCells`. The moves are a consistent step from the
     * occupants before, every agent is the source of exactly one move, and the
     * corridor after is that step; so the simulation stays valid with `n` agents.
     */
    method Iteration(g: Rng) returns (g': Rng, ghost moves: T.Moves)
      requires Valid()
      modifies this, corridor.CellSet()
      ensures Valid()
      ensures Stepped(old(corridor.Values()), old(corridor.LeftDistances()), old(corridor.RightDistances()), moves)
    {
      corridor.PopulatedCount();
      ghost var g0, l0, r0 := corridor.Values(), corridor.LeftDistances(), corridor.RightDistances();
      g', moves := Step(g);
      corridor.KeepsWired();
      Refresh(g0, l0, r0, moves);
    }

    /** The last phase of `iteration`: `populatedCells` becomes the populated cells after the step. */
    method Refresh(ghost g0: seq<seq<int>>, ghost l0: seq<seq<real>>, ghost r0: seq<seq<real>>, ghost moves: T.Moves)
      requires corridor.lenX >= 1 && corridor.lenY >= 1
      requires corridor.Shaped() && corridor.Wired() && Stepped(g0, l0, r0, moves)
      requires forall i, j :: 0 <= i < corridor.lenX && 0 <= j < corridor.lenY ==> -1 <= g0[i][j] <= 1
      requires |T.Populated(g0)| == n
      modifies `populatedCells
      ensures Valid() && Stepped(g0, l0, r0, moves)
    {
      Refreshed(g0, l0, r0, moves);
      NotACell();
      populatedCells := corridor.PopulatedCells();
    }

    /** The first three phases of `iteration`: proposals, conflicts, moves. */
    method Step(g: Rng) returns (g': Rng, ghost moves: T.Moves)
      requires Valid()
      modifies corridor.CellSet()
      ensures Stepped(old(corridor.Values()), old(corridor.LeftDistances()), old(corridor.RightDistances()), moves)
      ensures corridor.Neighbourhoods() == old(corridor.Neighbourhoods())
    {
      corridor.CellsAllocated();
      var assignment;
      ghost var targets;
      assignment, g', targets := Plan(g);
      moves := MovesOf(assignment);
      ExecuteTimestep(assignment);
    }

    /**
     * The first two phases of `iteration`, which change nothing: every agent's
     * position is the source of exactly one move, and the moves are consistent
     * with the occupants, each assigned cell a cell of the corridor. With `targets`
     * the `find_target_cell` results of the occupied cells, every assigned cell
     * either stays where it is or goes to its own destination.
     */
    method Plan(g: Rng) returns (assignment: map<Coord, Cell>, g': Rng, ghost targets: seq<Option<Cell>>)
      requires Valid()
      ensures T.Consistent(corridor.Values(), corridor.lenX, corridor.lenY, MovesOf(assignment))
      ensures MovesOf(assignment).Values == T.Populated(corridor.Values())
      ensures forall k :: k in assignment ==> assignment[k] in corridor.CellSet()
      ensures |targets| == |populatedCells|
      ensures AllFound(populatedCells, targets)
      ensures forall k :: k in assignment ==>
                k == Pos(assignment[k])
                || exists m :: 0 <= m < |populatedCells| && populatedCells[m] == assignment[k]
                                 && Dest(populatedCells[m], targets[m]) == k
    {
      var order, next;
      order, next, g', targets := GatherProposals(g);
      assignment, g' := Arrange(order, next, g', populatedCells, targets, corridor.Values(),
                                corridor.lenX, corridor.lenY, corridor.CellSet());
    }

    /**
     * The second phase of `iteration`, on proposals gathered from the occupied
     * cells `cs` of the occupants `values`: the resolved moves are a consistent
     * step that moves every agent, each assigned cell one of `cells` that stays
     * where it is or goes to its own destination.
     */
    static method Arrange(order: seq<Coord>, next: Proposals, g: Rng, ghost cs: seq<Cell>, ghost targets: seq<Option<Cell>>,
                          ghost values: seq<seq<int>>, ghost lenX: nat, ghost lenY: nat, ghost cells: set<Cell>)
      returns (assignment: map<Coord, Cell>, g': Rng)
      requires |cs| == |targets| && (order, next) == Gather(cs, targets)
      requires Gathering(order, next, values, lenX, lenY, T.Populated(values), cells)
      ensures T.Consistent(values, lenX, lenY, MovesOf(assignment))
      ensures MovesOf(assignment).Values == T.Populated(values)
      ensures forall k :: k in assignment ==> assignment[k] in cells
      ensures forall k :: k in assignment ==>
                k == Pos(assignment[k])
                || exists m :: 0 <= m < |cs| && cs[m] == assignment[k] && Dest(cs[m], targets[m]) == k
    {
      TargetsSeparate(next, values, lenX, lenY);
      assignment, g' := ResolveConflicts(order, next, g);
      Planned(next, assignment, values, lenX, lenY, cells);
      MovesToDest(cs, targets, next, assignment);
    }

    /** A simulation is none of its corridor's cells. */
    lemma NotACell()
      ensures forall c: Cell :: c in corridor.CellSet() ==> c as object != this
    {
    }

    /**
     * The resolved proposals of one iteration are a consistent step that moves
     * every agent, each assigned cell a cell of the corridor.
     */
    static lemma Planned(next: Proposals, assignment: map<Coord, Cell>, g: seq<seq<int>>, lenX: nat, lenY: nat,
                         cells: set<Cell>)
      requires T.IsGrid(g, lenX, lenY) && Targets(next, g, lenX, lenY) && Resolved(next, assignment)
      requires ProposerPositions(next) == T.Populated(g) && Proposers(next) <= cells
      ensures T.Consistent(g, lenX, lenY, MovesOf(assignment))
      ensures MovesOf(assignment).Values == T.Populated(g)
      ensures forall k :: k in assignment ==> assignment[k] in cells
    {
      ResolvedConsistent(next, assignment, g, lenX, lenY);
      ResolvedCount(next, assignment);
      forall k | k in assignment ensures assignment[k] in cells {
        if k in next && assignment[k] in next[k] {
          var a :| 0 <= a < |next[k]| && next[k][a] == assignment[k];
          assert next[k][a] in Proposers(next);
        }
      }
    }

    /** After the step, every occupant is still -1, 0 or 1, and the corridor still holds `n` agents. */
    lemma Refreshed(g0: seq<seq<int>>, l0: seq<seq<real>>, r0: seq<seq<real>>, moves: T.Moves)
      requires corridor.Shaped() && Stepped(g0, l0, r0, moves)
      requires forall i, j :: 0 <= i < corridor.lenX && 0 <= j < corridor.lenY ==> -1 <= g0[i][j] <= 1
      requires |T.Populated(g0)| == n
      ensures corridor.Occupancies() && |corridor.PopulatedCells()| == n
    {
      StepOccupancies(g0, corridor.lenX, corridor.lenY, moves);
      T.Conservation(g0, corridor.lenX, corridor.lenY, moves);
      corridor.PopulatedCount();
    }

    /** A step keeps every occupant in -1, 0 or 1. */
    static lemma StepOccupancies(g: seq<seq<int>>, lenX: nat, lenY: nat, m: T.Moves)
      requires T.Consistent(g, lenX, lenY, m)
      requires forall i, j :: 0 <= i < lenX && 0 <= j < lenY ==> -1 <= g[i][j] <= 1
      ensures forall i, j :: 0 <= i < lenX && 0 <= j < lenY ==> -1 <= T.StepValues(g, lenX, lenY, m)[i][j] <= 1
    {
    }

    /**
     * The iterations of `run`, without the order parameter and the plots: after
     * them the corridor still holds `n` agents, as `run` asserts, and the numbers of
     * left-movers and right-movers are those before.
     */
    method Run(g: Rng) returns (g': Rng)
      requires Valid()
      modifies this, corridor.CellSet()
      ensures Valid() && |corridor.PopulatedCells()| == n
      ensures |T.Holding(corridor.Values(), -1)| == |T.Holding(old(corridor.Values()), -1)|
      ensures |T.Holding(corridor.Values(), 1)| == |T.Holding(old(corridor.Values()), 1)|
    {
      g' := g;
      var i := 0;
      while i < iters
        invariant Valid()
        invariant |T.Holding(corridor.Values(), -1)| == |T.Holding(old(corridor.Values()), -1)|
        invariant |T.Holding(corridor.Values(), 1)| == |T.Holding(old(corridor.Values()), 1)|
        decreases iters - i
      {
        ghost var before := corridor.Values();
        ghost var moves;
        g', moves := Iteration(g');
        T.DirectionsConserved(before, corridor.lenX, corridor.lenY, moves, -1);
        T.DirectionsConserved(before, corridor.lenX, corridor.lenY, moves, 1);
        i := i + 1;
      }
    }
  }
}
