/** `GenerateTestMaze`: builds a maze in the text form the solver reads. The top and
    bottom rows alternate `+` and `=`, the side columns alternate `|` and `+`, the cells at
    odd row and odd column are open, the cells at even row and even column are posts, and
    every other interior cell is a wall slot that a random draw either carves open or
    leaves as a wall. Then a start `$` and a goal `F` are put on two distinct open cells.

    The random generator is an oracle: `rnd(i)` is the value of the `i`-th call of
    `Random.Next()`. Coordinates are solver coordinates, `Vec2(row, column)`. */
module MazeGenerator {
  import opened Results
  import opened Geometry
  import opened MazeGrid

  /** `int.MaxValue`. */
  const IntMax: int := 0x7FFF_FFFF

  /** A value of `Random.Next()`: a non-negative integer below `int.MaxValue`. */
  type Draw = d: int | 0 <= d < IntMax

  /** `int.MaxValue >> 2`: a wall slot is carved open when its draw exceeds this. */
  const CarveThreshold: int := 0x1FFF_FFFF

  /** `n | 1` for a non-negative `n`: the least odd number that is at least `n`. */
  function OrOne(n: nat): (r: nat)
    ensures r % 2 == 1
    ensures r == n || (r == n + 1 && n % 2 == 0)
  {
    if n % 2 == 0 then n + 1 else n
  }

  /** The top and bottom rows: `=` at odd columns, `+` at even ones. */
  function BorderChar(x: int): char {
    if x % 2 == 1 then '=' else '+'
  }

  /** The first and last column of an inner row: `|` on odd rows, `+` on even ones. */
  function SideChar(y: int): char {
    if y % 2 == 1 then '|' else '+'
  }

  /** The wall a slot on row `y` holds when it is not carved. */
  function SlotWall(y: int): char {
    if y % 2 == 1 then '|' else '='
  }

  /** Number of wall slots (random draws) on inner row `y`: the even columns of an odd
      row, the odd columns of an even row, between the two side columns. */
  function SlotsInRow(width: int, y: int): nat
    requires width >= 3
  {
    if y % 2 == 1 then (width - 2) / 2 else (width - 1) / 2
  }

  /** Number of wall slots on inner row `y` to the left of column `x`. */
  function SlotsBefore(y: int, x: nat): nat
    requires x >= 1
  {
    if y % 2 == 1 then (x - 1) / 2 else x / 2
  }

  /** Number of draws taken by the inner rows above row `y`. */
  function RowsBefore(width: int, y: int): nat
    requires width >= 3
  {
    if y <= 1 then 0 else RowsBefore(width, y - 1) + SlotsInRow(width, y - 1)
  }

  /** Index of the draw that decides the wall slot at row `y`, column `x`. */
  function DrawIndex(width: int, y: int, x: nat): nat
    requires width >= 3 && x >= 1
  {
    RowsBefore(width, y) + SlotsBefore(y, x)
  }

  /** The character the generator writes at row `y`, column `x` before the markers. */
  function LayoutChar(width: int, height: int, rnd: nat -> Draw, y: int, x: nat): char
    requires width >= 3
  {
    if y == 0 || y == height - 1 then BorderChar(x)
    else if x == 0 || x == width - 1 then SideChar(y)
    else if y % 2 == 1 && x % 2 == 1 then ' '
    else if y % 2 == 0 && x % 2 == 0 then '+'
    else if rnd(DrawIndex(width, y, x)) > CarveThreshold then ' '
    else SlotWall(y)
  }

  /** The layout has walls all around, open cells at odd row and odd column, and never
      holds a marker. */
  lemma LayoutShape(width: int, height: int, rnd: nat -> Draw, y: int, x: nat)
    requires width >= 3 && height >= 3 && 0 <= y < height && x < width
    ensures y == 0 || y == height - 1 || x == 0 || x == width - 1 ==>
              LayoutChar(width, height, rnd, y, x) in {'+', '=', '|'}
    ensures 0 < y < height - 1 && 0 < x < width - 1 && y % 2 == 1 && x % 2 == 1 ==>
              LayoutChar(width, height, rnd, y, x) == ' '
    ensures LayoutChar(width, height, rnd, y, x) in {' ', '+', '=', '|'}
  {
  }

  /** Row `row` is inner or border row `y` of the layout. */
  predicate RowMatches(row: string, width: int, height: int, rnd: nat -> Draw, y: int)
    requires width >= 3
  {
    |row| == width && forall x :: 0 <= x < width ==> row[x] == LayoutChar(width, height, rnd, y, x)
  }

  /** Where a pair of draws puts a marker: column `d1 % (width - 2) | 1` and row
      `d2 % (height - 2) | 1`, always an open cell strictly inside the border. */
  function Spot(width: int, height: int, d1: Draw, d2: Draw): (p: Vec2)
    requires width >= 3 && height >= 3
    ensures 1 <= p.x <= height - 2 && p.x % 2 == 1
    ensures 1 <= p.y <= width - 2 && p.y % 2 == 1
  {
    Vec2(OrOne(d2 % (height - 2)), OrOne(d1 % (width - 2)))
  }

  /** Draws taken by the whole layout: the slots of every inner row. */
  function LayoutDraws(width: int, height: int): nat
    requires width >= 3
  {
    RowsBefore(width, height - 1)
  }

  /** The start: the first two draws after the layout. */
  function StartSpot(width: int, height: int, rnd: nat -> Draw): Vec2
    requires width >= 3 && height >= 3
  {
    var n := LayoutDraws(width, height);
    Spot(width, height, rnd(n), rnd(n + 1))
  }

  /** The goal proposed by attempt `k` (attempt 0 is the first, then one per retry). */
  function GoalSpot(width: int, height: int, rnd: nat -> Draw, k: nat): Vec2
    requires width >= 3 && height >= 3
  {
    var n := LayoutDraws(width, height) + 2 + 2 * k;
    Spot(width, height, rnd(n), rnd(n + 1))
  }

  /** `g` is the layout with `$` at `start` and `F` at `goal`. */
  predicate IsGenerated(g: seq<string>, width: int, height: int, rnd: nat -> Draw, start: Vec2, goal: Vec2)
    requires width >= 3
  {
    && |g| == height
    && (forall y :: 0 <= y < height ==> |g[y]| == width)
    && forall y, x :: 0 <= y < height && 0 <= x < width ==>
         g[y][x] == (if Vec2(y, x) == start then '$'
                     else if Vec2(y, x) == goal then 'F'
                     else LayoutChar(width, height, rnd, y, x))
  }

  /** When `ch` sits at `p` and nowhere else, the scan finds `p`. */
  lemma SoleMarker(g: Grid, ch: char, p: Vec2)
    requires InGrid(g, p) && g[p.x][p.y] == ch
    requires forall i, j :: 0 <= i < |g| && 0 <= j < |g[i]| && g[i][j] == ch ==> Vec2(i, j) == p
    ensures MarkerOrOrigin(g, ch) == p
  {
    assert HasMarker(g, ch);
    var q := LastMarker(g, ch).value;
    assert g[q.x][q.y] == ch;
  }

  /** A generated maze is one the solver can run on: the start and goal it scans are the
      placed markers, and every open cell is inside the border, so no neighbour lookup
      leaves the grid. */
  lemma GeneratedIsEnclosed(g: seq<string>, width: int, height: int, rnd: nat -> Draw, start: Vec2, goal: Vec2)
    requires width >= 3 && height >= 3
    requires 1 <= start.x <= height - 2 && 1 <= start.y <= width - 2
    requires 1 <= goal.x <= height - 2 && 1 <= goal.y <= width - 2
    requires start != goal
    requires IsGenerated(g, width, height, rnd, start, goal)
    ensures Enclosed(g)
    ensures MarkerOrOrigin(g, '$') == start
    ensures MarkerOrOrigin(g, 'F') == goal
  {
    forall i, j | 0 <= i < |g| && 0 <= j < |g[i]|
      ensures g[i][j] == '$' ==> Vec2(i, j) == start
      ensures g[i][j] == 'F' ==> Vec2(i, j) == goal
      ensures g[i][j] in {' ', 'F', '$'} ==> Interior(g, Vec2(i, j))
    {
      LayoutShape(width, height, rnd, i, j);
    }
    SoleMarker(g, '$', start);
    SoleMarker(g, 'F', goal);
  }

  /** `rows` with the character at `p` replaced by `ch` (`Remove(p.y, 1).Insert(p.y, ch)`
      on row `p.x`). */
  function Mark(rows: seq<string>, p: Vec2, ch: char): (r: seq<string>)
    requires 0 <= p.x < |rows| && 0 <= p.y < |rows[p.x]|
    ensures |r| == |rows|
    ensures forall i :: 0 <= i < |rows| ==> |r[i]| == |rows[i]|
    ensures forall i, j :: 0 <= i < |rows| && 0 <= j < |rows[i]| ==>
              r[i][j] == if Vec2(i, j) == p then ch else rows[i][j]
  {
    rows[p.x := rows[p.x][p.y := ch]]
  }

  /** Marking the start and then the goal on the layout gives the generated maze. */
  lemma PlaceMarkers(layout: seq<string>, width: int, height: int, rnd: nat -> Draw, start: Vec2, goal: Vec2)
    requires width >= 3 && |layout| == height
    requires forall i :: 0 <= i < height ==> |layout[i]| == width
    requires forall i :: 0 <= i < height ==> RowMatches(layout[i], width, height, rnd, i)
    requires 0 <= start.x < height && 0 <= start.y < width
    requires 0 <= goal.x < height && 0 <= goal.y < width
    requires start != goal
    ensures IsGenerated(Mark(Mark(layout, start, '$'), goal, 'F'), width, height, rnd, start, goal)
  {
  }

  /** The top and bottom rows: `+` and `=` alternating over the whole width. */
  method BorderRow(width: int) returns (row: string)
    requires width >= 3
    ensures |row| == width
    ensures forall x :: 0 <= x < width ==> row[x] == BorderChar(x)
  {
    row := [];
    for x := 0 to width
      invariant |row| == x && forall i :: 0 <= i < x ==> row[i] == BorderChar(i)
    {
      row := row + [if x % 2 == 1 then '=' else '+'];
    }
  }

  /** Inner row `y`: side columns, then for each inner column an open cell, a post, or a
      wall slot decided by the next draw `rnd(n)`. Takes exactly the row's draws. */
  method InnerRow(width: int, height: int, rnd: nat -> Draw, y: int, n0: nat) returns (row: string, n: nat)
    requires width >= 3 && 1 <= y < height - 1
    requires n0 == RowsBefore(width, y)
    ensures RowMatches(row, width, height, rnd, y)
    ensures n == RowsBefore(width, y + 1)
  {
    n := n0;
    row := [if y % 2 == 1 then '|' else '+'];
    for x := 1 to width - 1
      invariant |row| == x
      invariant n == RowsBefore(width, y) + SlotsBefore(y, x)
      invariant forall i :: 0 <= i < x ==> row[i] == LayoutChar(width, height, rnd, y, i)
    {
      if y % 2 == 1 {
        if x % 2 == 1 {
          row := row + [' '];
        } else {
          var d := rnd(n);
          n := n + 1;
          row := row + [if d > CarveThreshold then ' ' else '|'];
        }
      } else {
        if x % 2 == 1 {
          var d := rnd(n);
          n := n + 1;
          row := row + [if d > CarveThreshold then ' ' else '='];
        } else {
          row := row + ['+'];
        }
      }
    }
    row := row + [if y % 2 == 1 then '|' else '+'];
  }

  /** The layout phase of `GenerateTestMaze`: the top row, each inner row in turn, and
      the bottom row, taking the draws of the wall slots in row-major order. */
  method BuildLayout(width: int, height: int, rnd: nat -> Draw) returns (result: array<string>)
    requires width >= 3 && height >= 3
    ensures fresh(result) && result.Length == height
    ensures forall i :: 0 <= i < height ==> RowMatches(result[i], width, height, rnd, i)
  {
    result := new string[height];
    var n: nat := 0;
    result[0] := BorderRow(width);
    for y := 1 to height - 1
      invariant n == RowsBefore(width, y)
      invariant forall i :: 0 <= i < y ==> RowMatches(result[i], width, height, rnd, i)
    {
      result[y], n := InnerRow(width, height, rnd, y, n);
    }
    result[height - 1] := BorderRow(width);
  }

  /** In a 3 by 3 maze every marker draw lands on the only open cell (1, 1), so the goal
      always collides with the start and the source's redraw loop never ends. */
  lemma SmallestMazeCollides(rnd: nat -> Draw, k: nat)
    ensures StartSpot(3, 3, rnd) == Vec2(1, 1)
    ensures GoalSpot(3, 3, rnd, k) == StartSpot(3, 3, rnd)
  {
  }

  /** The first attempt, within `fuel` retries, whose goal differs from the start. */
  ghost predicate FirstFreeAttempt(width: int, height: int, rnd: nat -> Draw, fuel: nat, k: nat)
    requires width >= 3 && height >= 3
  {
    && k <= fuel
    && GoalSpot(width, height, rnd, k) != StartSpot(width, height, rnd)
    && forall j :: 0 <= j < k ==> GoalSpot(width, height, rnd, j) == StartSpot(width, height, rnd)
  }

  /** The marker phase of `GenerateTestMaze`: the start from the two draws after the
      layout, then goals from successive pairs of draws until one differs from the
      start. The redraw loop has no bound in the source; here it retries at most `fuel`
      times, and `None` means every attempt up to then collided. */
  method ChooseMarkers(width: int, height: int, rnd: nat -> Draw, fuel: nat) returns (m: Option<(Vec2, Vec2)>)
    requires width >= 3 && height >= 3
    ensures m.None? <==> forall k :: 0 <= k <= fuel ==> GoalSpot(width, height, rnd, k) == StartSpot(width, height, rnd)
    ensures m.Some? ==> m.value.0 == StartSpot(width, height, rnd)
    ensures m.Some? ==> exists k :: FirstFreeAttempt(width, height, rnd, fuel, k) && m.value.1 == GoalSpot(width, height, rnd, k)
  {
    var n := LayoutDraws(width, height);
    var start := Spot(width, height, rnd(n), rnd(n + 1));
    var goal := Spot(width, height, rnd(n + 2), rnd(n + 3));
    n := n + 4;
    var k: nat := 0;
    while goal == start
      invariant k <= fuel
      invariant start == StartSpot(width, height, rnd)
      invariant n == LayoutDraws(width, height) + 4 + 2 * k
      invariant goal == GoalSpot(width, height, rnd, k)
      invariant forall j :: 0 <= j < k ==> GoalSpot(width, height, rnd, j) == start
      decreases fuel - k
    {
      if k == fuel {
        return None;
      }
      goal := Spot(width, height, rnd(n), rnd(n + 1));
      n := n + 2;
      k := k + 1;
    }
    assert FirstFreeAttempt(width, height, rnd, fuel, k);
    m := Some((start, goal));
  }

  /** `GenerateTestMaze`: the layout, then the start and goal markers written over two
      distinct open cells. `None` stands for the source's redraw loop not ending within
      `fuel` retries, which is every run for a 3 by 3 maze. */
  method GenerateTestMaze(width: int, height: int, rnd: nat -> Draw, fuel: nat) returns (r: Option<seq<string>>)
    requires width >= 3 && height >= 3
    ensures r.None? <==> forall k :: 0 <= k <= fuel ==> GoalSpot(width, height, rnd, k) == StartSpot(width, height, rnd)
    ensures r.Some? ==>
      exists k :: && FirstFreeAttempt(width, height, rnd, fuel, k)
                  && IsGenerated(r.value, width, height, rnd, StartSpot(width, height, rnd), GoalSpot(width, height, rnd, k))
    ensures width == 3 && height == 3 ==> r.None?
  {
    var result := BuildLayout(width, height, rnd);
    var markers := ChooseMarkers(width, height, rnd, fuel);
    if markers.None? {
      return None;
    }
    var (start, goal) := markers.value;
    ghost var layout := result[..];
    result[start.x] := result[start.x][start.y := '$'];
    ghost var marked := result[..];
    result[goal.x] := result[goal.x][goal.y := 'F'];
    assert marked == Mark(layout, start, '$');
    assert result[..] == Mark(marked, goal, 'F');
    PlaceMarkers(layout, width, height, rnd, start, goal);
    r := Some(result[..]);
  }
}
