/** The single-process reference computation: a nested row/column loop that stores the
    escape count of every cell of the res x res grid. */
module Serial {
  import opened Escape

  /** a comes strictly before b in row-major order. */
  predicate Before(a: (int, int), b: (int, int))
  {
    a.0 < b.0 || (a.0 == b.0 && a.1 < b.1)
  }

  predicate InGrid(c: (int, int), res: nat)
  {
    0 <= c.0 < res && 0 <= c.1 < res
  }

  /** The cells of `order` are listed in strictly increasing row-major order, so none
      of them occurs twice. */
  ghost predicate RowMajor(order: seq<(int, int)>)
  {
    forall n, m :: 0 <= n < m < |order| ==> Before(order[n], order[m])
  }

  /** The serial fill. `order` records the cell written by each assignment to the grid;
      it lists every cell exactly once, in row-major order. */
  method SerialGrid(orbit: Orbit, res: nat, maxIter: nat) returns (grid: array2<int>, ghost order: seq<(int, int)>)
    ensures fresh(grid) && grid.Length0 == res && grid.Length1 == res
    ensures forall i, j :: 0 <= i < res && 0 <= j < res ==> grid[i, j] == EscapeTime(orbit, i, j, maxIter)
    ensures RowMajor(order)
    ensures forall n :: 0 <= n < |order| ==> InGrid(order[n], res)
    ensures forall i, j :: 0 <= i < res && 0 <= j < res ==> (i, j) in order
  {
    grid := new int[res, res];
    order := [];
    for i := 0 to res
      invariant forall r, c :: 0 <= r < i && 0 <= c < res ==> grid[r, c] == EscapeTime(orbit, r, c, maxIter)
      invariant RowMajor(order)
      invariant forall n :: 0 <= n < |order| ==> InGrid(order[n], res) && order[n].0 < i
      invariant forall r, c :: 0 <= r < i && 0 <= c < res ==> (r, c) in order
    {
      for j := 0 to res
        invariant forall r, c :: 0 <= r < i && 0 <= c < res ==> grid[r, c] == EscapeTime(orbit, r, c, maxIter)
        invariant forall c :: 0 <= c < j ==> grid[i, c] == EscapeTime(orbit, i, c, maxIter)
        invariant RowMajor(order)
        invariant forall n :: 0 <= n < |order| ==> InGrid(order[n], res) && Before(order[n], (i, j))
        invariant forall r, c :: 0 <= r < i && 0 <= c < res ==> (r, c) in order
        invariant forall c :: 0 <= c < j ==> (i, c) in order
      {
        var k := EscapeCount(orbit, i, j, maxIter);
        grid[i, j] := k;
        order := order + [(i, j)];
      }
    }
  }
}
