/** The maze as the solver sees it: an array of text rows indexed `data[x][y]`
    (row `x`, column `y`), the neighbour query, and the start/goal scan. */
module MazeGrid {
  import opened Results
  import opened Geometry

  /** The rows of the maze. Rows need not have equal length. */
  type Grid = seq<string>

  predicate InGrid(g: Grid, p: Vec2) {
    0 <= p.x < |g| && 0 <= p.y < |g[p.x]|
  }

  /** A cell the solver may step onto: a space or the goal marker `F`. */
  predicate Walkable(g: Grid, p: Vec2) {
    InGrid(g, p) && (g[p.x][p.y] == ' ' || g[p.x][p.y] == 'F')
  }

  /** All four offset neighbours of `p` can be indexed without a fault. */
  predicate Interior(g: Grid, p: Vec2) {
    forall k :: 0 <= k < |Offsets| ==> InGrid(g, Add(p, Offsets[k]))
  }

  /** The neighbours of `curr` taken from `Offsets[k..]`, in offset order. */
  function NeighboursFrom(curr: Vec2, g: Grid, k: nat): (r: seq<Vec2>)
    requires k <= |Offsets|
    requires Interior(g, curr)
    ensures forall n :: n in r <==> k <= OffsetIndex(Sub(n, curr)) < |Offsets| && Walkable(g, n)
    ensures forall i, j :: 0 <= i < j < |r| ==> OffsetIndex(Sub(r[i], curr)) < OffsetIndex(Sub(r[j], curr))
    decreases |Offsets| - k
  {
    if k == |Offsets| then []
    else
      var next := Add(curr, Offsets[k]);
      var rest := NeighboursFrom(curr, g, k + 1);
      OffsetIndexOfStep(curr, k);
      if Walkable(g, next) then [next] + rest else rest
  }

  /** `GetNeighbours`: `curr + off` for each offset in order, kept exactly when that
      cell holds a space or `F`. The source indexes the rows without a bounds check,
      so any out-of-range neighbour is a fault, reported as `None`. */
  function GetNeighbours(curr: Vec2, g: Grid): (r: Option<seq<Vec2>>)
    ensures r.Some? <==> Interior(g, curr)
    ensures r.Some? ==> forall n :: n in r.value <==> IsUnitOffset(Sub(n, curr)) && Walkable(g, n)
    ensures r.Some? ==> forall i, j :: 0 <= i < j < |r.value| ==>
                          OffsetIndex(Sub(r.value[i], curr)) < OffsetIndex(Sub(r.value[j], curr))
  {
    if Interior(g, curr) then Some(NeighboursFrom(curr, g, 0)) else None
  }

  /** The offset neighbour `curr + Offsets[k]` is returned exactly when it is walkable;
      in particular a `$` or wall neighbour never is. */
  lemma NeighbourReturnedIffWalkable(curr: Vec2, g: Grid, k: nat)
    requires Interior(g, curr) && k < |Offsets|
    ensures Add(curr, Offsets[k]) in GetNeighbours(curr, g).value <==> Walkable(g, Add(curr, Offsets[k]))
    ensures g[curr.x + Offsets[k].x][curr.y + Offsets[k].y] == '$' ==> Add(curr, Offsets[k]) !in GetNeighbours(curr, g).value
  {
    var n := Add(curr, Offsets[k]);
    AddSubInverse(curr, Offsets[k]);
    assert IsUnitOffset(Sub(n, curr));
    assert n.x == curr.x + Offsets[k].x && n.y == curr.y + Offsets[k].y;
  }

  // ---------------------------------------------------------------------------
  // The start/goal scan

  /** Row-major order on coordinates. */
  predicate Before(a: Vec2, b: Vec2) {
    a.x < b.x || (a.x == b.x && a.y < b.y)
  }

  predicate HasMarker(g: Grid, ch: char) {
    exists i, j :: 0 <= i < |g| && 0 <= j < |g[i]| && g[i][j] == ch
  }

  /** `p` holds `ch` and no cell after it in row-major order does. */
  predicate IsLastMarker(g: Grid, ch: char, p: Vec2) {
    && InGrid(g, p) && g[p.x][p.y] == ch
    && forall i, j :: 0 <= i < |g| && 0 <= j < |g[i]| && Before(p, Vec2(i, j)) ==> g[i][j] != ch
  }

  /** The last column of `row` holding `ch`, or -1. */
  function LastColumn(row: string, ch: char): (c: int)
    ensures -1 <= c < |row|
    ensures c >= 0 ==> row[c] == ch
    ensures forall j :: c < j < |row| ==> row[j] != ch
  {
    if |row| == 0 then -1
    else if row[|row| - 1] == ch then |row| - 1
    else LastColumn(row[..|row| - 1], ch)
  }

  /** The last occurrence of `ch` in row-major order, if any. */
  function LastMarker(g: Grid, ch: char): (r: Option<Vec2>)
    ensures r.Some? ==> IsLastMarker(g, ch, r.value)
    ensures r.None? <==> !HasMarker(g, ch)
  {
    if |g| == 0 then None
    else
      var c := LastColumn(g[|g| - 1], ch);
      if c >= 0 then Some(Vec2(|g| - 1, c))
      else
        var r := LastMarker(g[..|g| - 1], ch);
        assert forall i, j :: 0 <= i < |g| - 1 && 0 <= j < |g[i]| ==> g[..|g| - 1][i][j] == g[i][j];
        r
  }

  /** Two last occurrences are the same cell. */
  lemma LastMarkerUnique(g: Grid, ch: char, p: Vec2, q: Vec2)
    requires IsLastMarker(g, ch, p) && IsLastMarker(g, ch, q)
    ensures p == q
  {
    assert g[q.x][q.y] == ch && g[p.x][p.y] == ch;
  }

  /** What the scan yields: the last marker, or the default `Vec2` (0, 0) when absent. */
  function MarkerOrOrigin(g: Grid, ch: char): Vec2 {
    match LastMarker(g, ch)
    case Some(p) => p
    case None => Vec2(0, 0)
  }

  /** The scan has covered every cell before `b`, and `p` is what it holds so far. */
  ghost predicate ScannedUpTo(g: Grid, ch: char, p: Vec2, b: Vec2) {
    || (&& InGrid(g, p) && g[p.x][p.y] == ch && Before(p, b)
        && forall i, j :: 0 <= i < |g| && 0 <= j < |g[i]| && Before(p, Vec2(i, j)) && Before(Vec2(i, j), b) ==> g[i][j] != ch)
    || (&& p == Vec2(0, 0)
        && forall i, j :: 0 <= i < |g| && 0 <= j < |g[i]| && Before(Vec2(i, j), b) ==> g[i][j] != ch)
  }

  /** Having scanned the whole grid, what the scan holds is `MarkerOrOrigin`. */
  lemma ScanComplete(g: Grid, ch: char, p: Vec2)
    requires ScannedUpTo(g, ch, p, Vec2(|g|, 0))
    ensures p == MarkerOrOrigin(g, ch)
  {
    match LastMarker(g, ch)
    case Some(q) =>
      assert g[q.x][q.y] == ch && Before(q, Vec2(|g|, 0));
      assert IsLastMarker(g, ch, p);
      LastMarkerUnique(g, ch, p, q);
    case None =>
  }

  /** Scanning one more cell of row `x` keeps `ScannedUpTo`. */
  lemma ScanCell(g: Grid, ch: char, p: Vec2, x: int, y: int)
    requires 0 <= x < |g| && 0 <= y < |g[x]|
    requires ScannedUpTo(g, ch, p, Vec2(x, y))
    ensures ScannedUpTo(g, ch, if g[x][y] == ch then Vec2(x, y) else p, Vec2(x, y + 1))
  {
  }

  /** The end of row `x` is the start of row `x + 1` for the scan. */
  lemma ScanRow(g: Grid, ch: char, p: Vec2, x: int)
    requires 0 <= x < |g|
    requires ScannedUpTo(g, ch, p, Vec2(x, |g[x]|))
    ensures ScannedUpTo(g, ch, p, Vec2(x + 1, 0))
  {
  }

  /** The row-major scan of `SolveMaze` for `$` and `F`: the last occurrence of each wins,
      and an absent marker leaves the default (0, 0). */
  method FindMarkers(data: Grid) returns (start: Vec2, goal: Vec2)
    ensures start == MarkerOrOrigin(data, '$')
    ensures goal == MarkerOrOrigin(data, 'F')
  {
    start, goal := Vec2(0, 0), Vec2(0, 0);
    for x := 0 to |data|
      invariant ScannedUpTo(data, '$', start, Vec2(x, 0))
      invariant ScannedUpTo(data, 'F', goal, Vec2(x, 0))
    {
      for y := 0 to |data[x]|
        invariant ScannedUpTo(data, '$', start, Vec2(x, y))
        invariant ScannedUpTo(data, 'F', goal, Vec2(x, y))
      {
        ScanCell(data, '$', start, x, y);
        ScanCell(data, 'F', goal, x, y);
        if data[x][y] == '$' {
          start := Vec2(x, y);
        }
        if data[x][y] == 'F' {
          goal := Vec2(x, y);
        }
      }
      ScanRow(data, '$', start, x);
      ScanRow(data, 'F', goal, x);
    }
    ScanComplete(data, '$', start);
    ScanComplete(data, 'F', goal);
  }

  /** A maze whose start marker exists and whose every non-wall cell (space, `$`, `F`)
      has all four neighbours inside the grid, so the solver never indexes out of range. */
  predicate Enclosed(g: Grid) {
    && HasMarker(g, '$')
    && forall i, j :: 0 <= i < |g| && 0 <= j < |g[i]| && g[i][j] in {' ', 'F', '$'} ==> Interior(g, Vec2(i, j))
  }

  /** In an enclosed maze the neighbour query of the start and of every walkable cell succeeds. */
  lemma EnclosedNeighbours(g: Grid, p: Vec2)
    requires p == MarkerOrOrigin(g, '$') || Walkable(g, p)
    ensures Enclosed(g) ==> GetNeighbours(p, g).Some?
  {
    if Enclosed(g) && !Walkable(g, p) {
      assert LastMarker(g, '$').Some?;
    }
  }
}
