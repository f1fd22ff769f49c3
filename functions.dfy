/**
 * `pop_init` (functions.py): a zero array of the corridor's shape is filled by
 * writing 1 at uniformly drawn positions until the sum of its entries reaches the
 * requested population. The draws come from the caller's stream; since a stream
 * may keep hitting occupied positions, the loop is given a number of rounds
 * (`fuel`) after which it gives up.
 */
module Functions {
  import opened Randomness

  /** How a call ends. */
  datatype Outcome =
    | Filled          // the sum reached `n_pop`
    | SumTypeError    // `sum(sum(pop))` raised: with no rows, the inner `sum` is the integer 0
    | RandintError    // `numpy.random.randint(0)` raised: rows of length 0 and agents were requested
    | OutOfFuel       // the rounds ran out first

  /** The entries of a row, added up. */
  function RowSum(s: seq<int>): int
  {
    if s == [] then 0 else RowSum(s[..|s| - 1]) + s[|s| - 1]
  }

  /** `sum(sum(pop))`: the entries of all rows, added up. */
  function Sum(g: seq<seq<int>>): int
  {
    if g == [] then 0 else Sum(g[..|g| - 1]) + RowSum(g[|g| - 1])
  }

  /** Every entry is 0 or 1. */
  predicate Binary(g: seq<seq<int>>)
  {
    forall i, j :: 0 <= i < |g| && 0 <= j < |g[i]| ==> g[i][j] == 0 || g[i][j] == 1
  }

  /** The entries of `a`, row by row. */
  function Contents(a: array2<int>): (g: seq<seq<int>>)
    reads a
    ensures |g| == a.Length0
    ensures forall i :: 0 <= i < a.Length0 ==> |g[i]| == a.Length1
    ensures forall i, j :: 0 <= i < a.Length0 && 0 <= j < a.Length1 ==> g[i][j] == a[i, j]
  {
    seq(a.Length0, i requires 0 <= i < a.Length0 reads a =>
      seq(a.Length1, j requires 0 <= j < a.Length1 reads a => a[i, j]))
  }

  /** Writing `v` over the entry at `y` changes a row's sum by the difference. */
  lemma {:induction false} RowSumUpdate(s: seq<int>, y: nat, v: int)
    requires y < |s|
    ensures RowSum(s[y := v]) == RowSum(s) - s[y] + v
    decreases |s|
  {
    var n := |s| - 1;
    var t := s[y := v];
    assert t[..n] == if y < n then s[..n][y := v] else s[..n];
    if y < n {
      RowSumUpdate(s[..n], y, v);
    }
  }

  /** Writing `v` over the entry at `(x, y)` changes the sum by the difference. */
  lemma {:induction false} SumUpdate(g: seq<seq<int>>, x: nat, y: nat, v: int)
    requires x < |g| && y < |g[x]|
    ensures Sum(g[x := g[x][y := v]]) == Sum(g) - g[x][y] + v
    decreases |g|
  {
    var n := |g| - 1;
    var h := g[x := g[x][y := v]];
    if x < n {
      assert h[..n] == g[..n][x := g[..n][x][y := v]];
      SumUpdate(g[..n], x, y, v);
    } else {
      assert h[..n] == g[..n];
      RowSumUpdate(g[x], y, v);
    }
  }

  /**
   * One write of `pop_init`: on a 0/1 grid, writing 1 raises the sum by 1 when the
   * position was empty; when it was already set, the grid does not change.
   */
  lemma WriteOne(g: seq<seq<int>>, x: nat, y: nat)
    requires Binary(g) && x < |g| && y < |g[x]|
    ensures Binary(g[x := g[x][y := 1]])
    ensures Sum(g[x := g[x][y := 1]]) == Sum(g) + 1 - g[x][y]
    ensures g[x][y] == 1 ==> g[x := g[x][y := 1]] == g
  {
    SumUpdate(g, x, y, 1);
    if g[x][y] == 1 {
      assert g[x][y := 1] == g[x];
    }
    var h := g[x := g[x][y := 1]];
    forall i, j | 0 <= i < |h| && 0 <= j < |h[i]| ensures h[i][j] == 0 || h[i][j] == 1 {
      if i != x || j != y {
        assert h[i][j] == g[i][j];
      }
    }
  }

  /** A row of 0s and 1s adds up to at most its length. */
  lemma {:induction false} RowSumBound(s: seq<int>)
    requires forall j :: 0 <= j < |s| ==> s[j] == 0 || s[j] == 1
    ensures 0 <= RowSum(s) <= |s|
    decreases |s|
  {
    if s != [] {
      RowSumBound(s[..|s| - 1]);
    }
  }

  /** A `lenX` by `lenY` grid of 0s and 1s adds up to at most `lenX * lenY`. */
  lemma {:induction false} SumBound(g: seq<seq<int>>, lenY: nat)
    requires Binary(g) && forall i :: 0 <= i < |g| ==> |g[i]| == lenY
    ensures 0 <= Sum(g) <= |g| * lenY
    decreases |g|
  {
    if g != [] {
      var n := |g| - 1;
      assert Binary(g[..n]);
      SumBound(g[..n], lenY);
      RowSumBound(g[n]);
      assert n * lenY + lenY == |g| * lenY;
    }
  }

  /** A grid of zeros adds up to 0. */
  lemma {:induction false} ZeroSum(g: seq<seq<int>>)
    requires forall i, j :: 0 <= i < |g| && 0 <= j < |g[i]| ==> g[i][j] == 0
    ensures Sum(g) == 0
    decreases |g|
  {
    if g != [] {
      ZeroSum(g[..|g| - 1]);
      ZeroRow(g[|g| - 1]);
    }
  }

  lemma {:induction false} ZeroRow(s: seq<int>)
    requires forall j :: 0 <= j < |s| ==> s[j] == 0
    ensures RowSum(s) == 0
    decreases |s|
  {
    if s != [] {
      ZeroRow(s[..|s| - 1]);
    }
  }

  function Max(a: int, b: int): int
  {
    if a >= b then a else b
  }

  /** `pop[x, y] = 1`: the one entry becomes 1 and the rest stay as they were. */
  method Place(pop: array2<int>, x: nat, y: nat)
    requires x < pop.Length0 && y < pop.Length1
    modifies pop
    ensures Contents(pop) == old(Contents(pop))[x := old(Contents(pop))[x][y := 1]]
  {
    ghost var before := Contents(pop);
    pop[x, y] := 1;
    ghost var after := Contents(pop);
    ghost var want := before[x := before[x][y := 1]];
    forall i | 0 <= i < |after| ensures after[i] == want[i] {
      assert |after[i]| == |want[i]|;
      assert forall j :: 0 <= j < |after[i]| ==> after[i][j] == want[i][j];
    }
    assert after == want;
  }

  /**
   * `pop_init(len_x, len_y, n_pop)`. With no rows (`lenX == 0`) the loop test itself
   * fails, whatever `n_pop` is. Otherwise the result is a `lenX` by `lenY` array of
   * 0s and 1s whose sum never passes `n_pop`. When it is `Filled`, the sum is exactly
   * `n_pop` (0 for a non-positive `n_pop`, when the loop never runs), which the
   * corridor can only hold when `n_pop <= lenX * lenY`. The loop runs only while the
   * sum is short of `n_pop`: it fails on its first draw when the rows are empty, and
   * otherwise only when the rounds run out.
   */
  method PopInit(lenX: nat, lenY: nat, nPop: int, g: Rng, fuel: nat)
    returns (pop: array2<int>, outcome: Outcome, g': Rng)
    ensures pop.Length0 == lenX && pop.Length1 == lenY
    ensures Binary(Contents(pop)) && Sum(Contents(pop)) <= Max(nPop, 0)
    ensures outcome == SumTypeError <==> lenX == 0
    ensures outcome == Filled <==> lenX > 0 && Sum(Contents(pop)) >= nPop
    ensures outcome == Filled ==> Sum(Contents(pop)) == Max(nPop, 0) && nPop <= lenX * lenY
    ensures outcome == RandintError <==> nPop > 0 && lenX > 0 && lenY == 0
    ensures nPop <= 0 && lenX > 0 ==> outcome == Filled
    ensures nPop <= 0 ==> forall i, j :: 0 <= i < lenX && 0 <= j < lenY ==> pop[i, j] == 0
  {
    pop := new int[lenX, lenY]((i, j) => 0);
    ZeroSum(Contents(pop));
    g' := g;
    if lenX == 0 {
      return pop, SumTypeError, g';
    }
    var rounds := fuel;
    while Sum(Contents(pop)) < nPop
      invariant pop.Length0 == lenX && pop.Length1 == lenY
      invariant Binary(Contents(pop)) && Sum(Contents(pop)) <= Max(nPop, 0)
      invariant nPop <= 0 ==> forall i, j :: 0 <= i < lenX && 0 <= j < lenY ==> pop[i, j] == 0
      decreases rounds
    {
      SumBound(Contents(pop), lenY);
      if lenY == 0 {
        return pop, RandintError, g';
      }
      if rounds == 0 {
        return pop, OutOfFuel, g';
      }
      rounds := rounds - 1;
      var rx := RandInt(g', 0, lenX - 1);
      var ry := RandInt(rx.1, 0, lenY - 1);
      g' := ry.1;
      WriteOne(Contents(pop), rx.0, ry.0);
      Place(pop, rx.0, ry.0);
    }
    SumBound(Contents(pop), lenY);
    outcome := Filled;
  }
}
