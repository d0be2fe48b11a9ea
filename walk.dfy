/** The cursor with which the capture walks the tile grid: it starts at the
    top-left tile, moves right along a row and wraps to the start of the next
    row, and the walk ends once the row index reaches the number of rows. */
module Walk {
  import Geometry

  /** The cursor after one captured tile: from a tile of the grid it moves
      to the next position in row-major order and stays inside the columns. */
  function Next(x: nat, y: nat, columns: nat): (next: (nat, nat))
    ensures x < columns || (columns == 0 && x == 0) ==>
              StepIndex(next.0, next.1, columns) == StepIndex(x, y, columns) + 1 &&
              (next.0 < columns || (columns == 0 && next.0 == 0))
  {
    if x + 1 >= columns then (0, y + 1) else (x + 1, y)
  }

  /** The cursor after k captured tiles, starting from (0, 0). */
  function Cursor(k: nat, columns: nat): (nat, nat) {
    if k == 0 then (0, 0) else
      var (x, y) := Cursor(k - 1, columns);
      Next(x, y, columns)
  }

  /** Number of tiles the walk captures before the row index reaches `rows`.
      With no columns the cursor still steps once per row, since x + 1 >= 0
      always wraps. */
  function Steps(columns: nat, rows: nat): nat {
    if columns == 0 then rows else rows * columns
  }

  /** Position of tile (x, y) in the walk. */
  function StepIndex(x: nat, y: nat, columns: nat): nat {
    if columns == 0 then y else y * columns + x
  }

  /** After k steps the cursor is the tile whose position in the walk is k,
      and its column is inside the grid. */
  lemma {:induction false} CursorIndex(k: nat, columns: nat)
    ensures var (x, y) := Cursor(k, columns);
            StepIndex(x, y, columns) == k && (x < columns || (columns == 0 && x == 0))
  {
    if k > 0 {
      CursorIndex(k - 1, columns);
    }
  }

  /** Two tiles with the same position in the walk are the same tile. */
  lemma IndexInjective(columns: nat, x1: nat, y1: nat, x2: nat, y2: nat)
    requires (x1 < columns && x2 < columns) || (columns == 0 && x1 == 0 && x2 == 0)
    requires StepIndex(x1, y1, columns) == StepIndex(x2, y2, columns)
    ensures x1 == x2 && y1 == y2
  {
    if columns > 0 {
      if y1 < y2 {
        Geometry.MulMonotone(y1 + 1, y2, columns);
      } else if y2 < y1 {
        Geometry.MulMonotone(y2 + 1, y1, columns);
      }
    }
  }

  /** Positions in the walk follow row-major order of the tiles. */
  lemma IndexMonotone(columns: nat, x1: nat, y1: nat, x2: nat, y2: nat)
    requires x1 < columns
    requires y1 < y2 || (y1 == y2 && x1 <= x2)
    ensures StepIndex(x1, y1, columns) <= StepIndex(x2, y2, columns)
  {
    if y1 < y2 {
      Geometry.MulMonotone(y1 + 1, y2, columns);
    }
  }

  /** The tile at step StepIndex(x, y) of the walk is (x, y). */
  lemma CursorAtIndex(x: nat, y: nat, columns: nat)
    requires x < columns || (columns == 0 && x == 0)
    ensures Cursor(StepIndex(x, y, columns), columns) == (x, y)
  {
    var k := StepIndex(x, y, columns);
    CursorIndex(k, columns);
    var (x', y') := Cursor(k, columns);
    IndexInjective(columns, x, y, x', y');
  }

  /** The walk stops after exactly Steps(columns, rows) tiles: the cursor is
      inside the rows before that and has left them at that point. */
  lemma WalkStopsAfterSteps(columns: nat, rows: nat, k: nat)
    requires k <= Steps(columns, rows)
    ensures k < Steps(columns, rows) <==> Cursor(k, columns).1 < rows
  {
    CursorIndex(k, columns);
    var (x, y) := Cursor(k, columns);
    if columns > 0 {
      assert k == y * columns + x && x < columns;
      if y >= rows {
        Geometry.MulMonotone(rows, y, columns);
        assert k >= rows * columns;
      } else {
        Geometry.MulMonotone(y + 1, rows, columns);
        assert (y + 1) * columns == y * columns + columns;
        assert k < rows * columns;
      }
    }
  }

  /** Every tile of a grid with at least one column is visited exactly once:
      each step before the end lands inside the grid, different steps land on
      different tiles, and every tile of the grid is the cursor of some step. */
  lemma VisitsEveryTileOnce(columns: nat, rows: nat)
    requires columns > 0
    ensures Steps(columns, rows) == columns * rows
    ensures forall k :: 0 <= k < Steps(columns, rows) ==>
              Cursor(k, columns).0 < columns && Cursor(k, columns).1 < rows
    ensures forall k1, k2 :: 0 <= k1 < k2 ==> Cursor(k1, columns) != Cursor(k2, columns)
    ensures forall x, y :: 0 <= x < columns && 0 <= y < rows ==>
              StepIndex(x, y, columns) < Steps(columns, rows) &&
              Cursor(StepIndex(x, y, columns), columns) == (x, y)
  {
    forall k | 0 <= k < Steps(columns, rows)
      ensures Cursor(k, columns).0 < columns && Cursor(k, columns).1 < rows
    {
      CursorIndex(k, columns);
      WalkStopsAfterSteps(columns, rows, k);
    }
    forall k1, k2 | 0 <= k1 < k2 ensures Cursor(k1, columns) != Cursor(k2, columns) {
      CursorIndex(k1, columns);
      CursorIndex(k2, columns);
    }
    forall x, y | 0 <= x < columns && 0 <= y < rows
      ensures StepIndex(x, y, columns) < Steps(columns, rows)
      ensures Cursor(StepIndex(x, y, columns), columns) == (x, y)
    {
      CursorAtIndex(x, y, columns);
      Geometry.MulMonotone(y + 1, rows, columns);
    }
  }

  /** The walk is row-major: an earlier step is on an earlier row, or on the
      same row further left. */
  lemma RowMajorOrder(columns: nat, k1: nat, k2: nat)
    requires columns > 0 && k1 < k2
    ensures var (x1, y1) := Cursor(k1, columns);
            var (x2, y2) := Cursor(k2, columns);
            y1 < y2 || (y1 == y2 && x1 < x2)
  {
    CursorIndex(k1, columns);
    CursorIndex(k2, columns);
    var (x1, y1) := Cursor(k1, columns);
    var (x2, y2) := Cursor(k2, columns);
    if y2 < y1 {
      Geometry.MulMonotone(y2 + 1, y1, columns);
    }
  }
}
