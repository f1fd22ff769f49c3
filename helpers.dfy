/** The clipped Moore neighbourhood of a grid position (helpers.py). */
module Helpers {

  /** A grid position `(x, y)`: row `x`, column `y`. */
  type Coord = (int, int)

  /** The comprehension's filter: a position other than `(x, y)` that lies inside the grid. */
  predicate Keep(x: int, y: int, xPos: int, yPos: int, lenX: int, lenY: int)
  {
    (x != xPos || y != yPos) && 0 <= xPos < lenX && 0 <= yPos < lenY
  }

  /** The inner generator `for y_pos in range(y-1, y+2)`, from `yPos` on, for one `x_pos`. */
  function Inner(x: int, y: int, xPos: int, yPos: int, lenX: int, lenY: int): seq<Coord>
    decreases y + 2 - yPos
  {
    if yPos >= y + 2 then []
    else (if Keep(x, y, xPos, yPos, lenX, lenY) then [(xPos, yPos)] else [])
         + Inner(x, y, xPos, yPos + 1, lenX, lenY)
  }

  /** The outer generator `for x_pos in range(x-1, x+2)`, from `xPos` on. */
  function Outer(x: int, y: int, xPos: int, lenX: int, lenY: int): seq<Coord>
    decreases x + 2 - xPos
  {
    if xPos >= x + 2 then []
    else Inner(x, y, xPos, y - 1, lenX, lenY) + Outer(x, y, xPos + 1, lenX, lenY)
  }

  /** `get_neighbor_coords(x, y, len_x, len_y)`. */
  function NeighborCoords(x: int, y: int, lenX: int, lenY: int): seq<Coord>
  {
    Outer(x, y, x - 1, lenX, lenY)
  }

  predicate InGrid(c: Coord, lenX: int, lenY: int)
  {
    0 <= c.0 < lenX && 0 <= c.1 < lenY
  }

  /** `a` and `b` are different positions at most one step apart on each axis. */
  predicate Adjacent(a: Coord, b: Coord)
  {
    a != b && -1 <= a.0 - b.0 <= 1 && -1 <= a.1 - b.1 <= 1
  }

  /** Row-major order: `x_pos` outer, `y_pos` inner. */
  predicate Before(a: Coord, b: Coord)
  {
    a.0 < b.0 || (a.0 == b.0 && a.1 < b.1)
  }

  /** Strictly increasing in row-major order (hence free of duplicates). */
  predicate RowMajor(s: seq<Coord>)
  {
    forall i, j :: 0 <= i < j < |s| ==> Before(s[i], s[j])
  }

  /** How many of `v-1, v, v+1` lie in `[0, len)`. */
  function Span(v: int, len: int): nat
  {
    (if 0 <= v - 1 < len then 1 else 0) + (if 0 <= v < len then 1 else 0) + (if 0 <= v + 1 < len then 1 else 0)
  }

  lemma {:induction false} InnerMembers(x: int, y: int, xPos: int, yPos: int, lenX: int, lenY: int, c: Coord)
    ensures c in Inner(x, y, xPos, yPos, lenX, lenY)
        <==> c.0 == xPos && yPos <= c.1 < y + 2 && Keep(x, y, c.0, c.1, lenX, lenY)
    decreases y + 2 - yPos
  {
    if yPos < y + 2 {
      InnerMembers(x, y, xPos, yPos + 1, lenX, lenY, c);
    }
  }

  lemma {:induction false} OuterMembers(x: int, y: int, xPos: int, lenX: int, lenY: int, c: Coord)
    ensures c in Outer(x, y, xPos, lenX, lenY)
        <==> xPos <= c.0 < x + 2 && y - 1 <= c.1 < y + 2 && Keep(x, y, c.0, c.1, lenX, lenY)
    decreases x + 2 - xPos
  {
    if xPos < x + 2 {
      InnerMembers(x, y, xPos, y - 1, lenX, lenY, c);
      OuterMembers(x, y, xPos + 1, lenX, lenY, c);
    }
  }

  /**
   * What the comprehension yields: exactly the in-grid positions adjacent to `(x, y)`.
   * So `(x, y)` itself is never listed, every entry is in bounds and none wraps around.
   */
  lemma NeighborMembers(x: int, y: int, lenX: int, lenY: int, c: Coord)
    ensures c in NeighborCoords(x, y, lenX, lenY) <==> Adjacent(c, (x, y)) && InGrid(c, lenX, lenY)
  {
    OuterMembers(x, y, x - 1, lenX, lenY, c);
  }

  /** Every entry satisfies the three conditions of the comprehension. */
  lemma NeighborsValid(x: int, y: int, lenX: int, lenY: int)
    ensures forall c :: c in NeighborCoords(x, y, lenX, lenY) ==>
              c != (x, y) && InGrid(c, lenX, lenY) && -1 <= c.0 - x <= 1 && -1 <= c.1 - y <= 1
  {
    forall c | c in NeighborCoords(x, y, lenX, lenY)
      ensures c != (x, y) && InGrid(c, lenX, lenY) && -1 <= c.0 - x <= 1 && -1 <= c.1 - y <= 1
    {
      NeighborMembers(x, y, lenX, lenY, c);
    }
  }

  /** Symmetry of the neighbour relation. */
  lemma NeighborSymmetric(a: Coord, b: Coord, lenX: int, lenY: int)
    requires InGrid(a, lenX, lenY) && InGrid(b, lenX, lenY)
    ensures b in NeighborCoords(a.0, a.1, lenX, lenY) <==> a in NeighborCoords(b.0, b.1, lenX, lenY)
  {
    NeighborMembers(a.0, a.1, lenX, lenY, b);
    NeighborMembers(b.0, b.1, lenX, lenY, a);
  }

  lemma {:induction false} InnerOrder(x: int, y: int, xPos: int, yPos: int, lenX: int, lenY: int)
    ensures RowMajor(Inner(x, y, xPos, yPos, lenX, lenY))
    ensures forall c :: c in Inner(x, y, xPos, yPos, lenX, lenY) ==> c.0 == xPos && c.1 >= yPos
    decreases y + 2 - yPos
  {
    if yPos < y + 2 {
      InnerOrder(x, y, xPos, yPos + 1, lenX, lenY);
    }
  }

  lemma {:induction false} OuterOrder(x: int, y: int, xPos: int, lenX: int, lenY: int)
    ensures RowMajor(Outer(x, y, xPos, lenX, lenY))
    ensures forall c :: c in Outer(x, y, xPos, lenX, lenY) ==> c.0 >= xPos
    decreases x + 2 - xPos
  {
    if xPos < x + 2 {
      InnerOrder(x, y, xPos, y - 1, lenX, lenY);
      OuterOrder(x, y, xPos + 1, lenX, lenY);
      var a, b := Inner(x, y, xPos, y - 1, lenX, lenY), Outer(x, y, xPos + 1, lenX, lenY);
      forall i, j | 0 <= i < j < |a + b| ensures Before((a + b)[i], (a + b)[j]) {
        if j < |a| {
        } else if i < |a| {
          assert (a + b)[i] in a && (a + b)[j] in b;
        } else {
          assert (a + b)[i] == b[i - |a|] && (a + b)[j] == b[j - |a|];
        }
      }
    }
  }

  /** The result is listed in row-major order, so it holds no duplicates. */
  lemma NeighborOrder(x: int, y: int, lenX: int, lenY: int)
    ensures RowMajor(NeighborCoords(x, y, lenX, lenY))
    ensures forall i, j :: 0 <= i < j < |NeighborCoords(x, y, lenX, lenY)| ==>
              NeighborCoords(x, y, lenX, lenY)[i] != NeighborCoords(x, y, lenX, lenY)[j]
  {
    OuterOrder(x, y, x - 1, lenX, lenY);
  }

  lemma InnerCount(x: int, y: int, xPos: int, lenX: int, lenY: int)
    ensures |Inner(x, y, xPos, y - 1, lenX, lenY)|
         == if 0 <= xPos < lenX then Span(y, lenY) - (if xPos == x && 0 <= y < lenY then 1 else 0) else 0
  {
    var k0 := if Keep(x, y, xPos, y - 1, lenX, lenY) then 1 else 0;
    var k1 := if Keep(x, y, xPos, y, lenX, lenY) then 1 else 0;
    var k2 := if Keep(x, y, xPos, y + 1, lenX, lenY) then 1 else 0;
    assert Inner(x, y, xPos, y + 2, lenX, lenY) == [];
    assert |Inner(x, y, xPos, y + 1, lenX, lenY)| == k2;
    assert |Inner(x, y, xPos, y, lenX, lenY)| == k1 + k2;
    assert |Inner(x, y, xPos, y - 1, lenX, lenY)| == k0 + k1 + k2;
  }

  /**
   * The size of the neighbourhood: the product of the in-grid spans on both axes,
   * less one for the position itself when it lies in the grid.
   */
  lemma NeighborCount(x: int, y: int, lenX: int, lenY: int)
    ensures |NeighborCoords(x, y, lenX, lenY)|
         == Span(x, lenX) * Span(y, lenY) - (if InGrid((x, y), lenX, lenY) then 1 else 0)
  {
    assert Outer(x, y, x + 2, lenX, lenY) == [];
    InnerCount(x, y, x - 1, lenX, lenY);
    InnerCount(x, y, x, lenX, lenY);
    InnerCount(x, y, x + 1, lenX, lenY);
    var sy := Span(y, lenY);
    var r0 := if 0 <= x - 1 < lenX then sy else 0;
    var r1 := if 0 <= x < lenX then sy else 0;
    var r2 := if 0 <= x + 1 < lenX then sy else 0;
    assert r0 + r1 + r2 == Span(x, lenX) * sy;
    assert |Outer(x, y, x + 1, lenX, lenY)| == r2;
    assert |Outer(x, y, x, lenX, lenY)| == r1 + r2 - (if InGrid((x, y), lenX, lenY) then 1 else 0);
  }

  /** 8 neighbours strictly inside, 5 on a non-corner edge, 3 in a corner; never more than 8. */
  lemma NeighborShape(x: int, y: int, lenX: int, lenY: int)
    requires InGrid((x, y), lenX, lenY)
    ensures |NeighborCoords(x, y, lenX, lenY)| <= 8
    ensures 0 < x < lenX - 1 && 0 < y < lenY - 1 ==> |NeighborCoords(x, y, lenX, lenY)| == 8
    ensures lenX >= 2 && (x == 0 || x == lenX - 1) && 0 < y < lenY - 1 ==> |NeighborCoords(x, y, lenX, lenY)| == 5
    ensures lenY >= 2 && (y == 0 || y == lenY - 1) && 0 < x < lenX - 1 ==> |NeighborCoords(x, y, lenX, lenY)| == 5
    ensures lenX >= 2 && lenY >= 2 && (x == 0 || x == lenX - 1) && (y == 0 || y == lenY - 1)
            ==> |NeighborCoords(x, y, lenX, lenY)| == 3
  {
    NeighborCount(x, y, lenX, lenY);
    var sx, sy := Span(x, lenX), Span(y, lenY);
    assert 1 <= sx <= 3 && 1 <= sy <= 3;
    assert sx * sy <= 9;
  }

  /** Some cell of a `lenX` by `lenY` grid has at least five neighbours. */
  predicate HasCrowdedCell(lenX: int, lenY: int)
  {
    exists x, y | 0 <= x < lenX && 0 <= y < lenY :: |NeighborCoords(x, y, lenX, lenY)| >= 5
  }

  /** A grid has a cell with five or more neighbours exactly when one side is at least 3 and the other at least 2. */
  lemma CrowdedCellIff(lenX: int, lenY: int)
    ensures HasCrowdedCell(lenX, lenY) <==> (lenX >= 3 && lenY >= 2) || (lenX >= 2 && lenY >= 3)
  {
    if (lenX >= 3 && lenY >= 2) || (lenX >= 2 && lenY >= 3) {
      var x, y := if lenX >= 3 then 1 else 0, if lenX >= 3 then 0 else 1;
      NeighborCount(x, y, lenX, lenY);
      assert InGrid((x, y), lenX, lenY);
    } else {
      forall x, y | InGrid((x, y), lenX, lenY) ensures |NeighborCoords(x, y, lenX, lenY)| < 5 {
        FewNeighbors(x, y, lenX, lenY);
      }
    }
  }

  /** In a grid with a side of 1, or in a 2 by 2 grid, no cell has five neighbours. */
  lemma FewNeighbors(x: int, y: int, lenX: int, lenY: int)
    requires InGrid((x, y), lenX, lenY)
    requires !((lenX >= 3 && lenY >= 2) || (lenX >= 2 && lenY >= 3))
    ensures |NeighborCoords(x, y, lenX, lenY)| < 5
  {
    NeighborCount(x, y, lenX, lenY);
    var sx, sy := Span(x, lenX), Span(y, lenY);
    assert 1 <= sx <= 3 && sx <= lenX && 1 <= sy <= 3 && sy <= lenY;
    SmallProduct(sx, sy);
  }

  /** Products of two spans: below 5 exactly when one of them is 1 or both are 2. */
  lemma SmallProduct(a: int, b: int)
    requires 1 <= a <= 3 && 1 <= b <= 3
    ensures a * b < 5 <==> a == 1 || b == 1 || (a == 2 && b == 2)
  {
    if a == 1 {
      assert a * b == b;
    } else if a == 2 {
      assert a * b == b + b;
    } else {
      assert a * b == b + b + b;
    }
  }
}
