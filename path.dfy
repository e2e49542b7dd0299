/** Direction tokens, replaying them over the grid, and `ReconstructPath`, which turns
    the solver's `cameFrom` chain into the tokens of the route from start to goal. */
module MazePath {
  import opened Geometry
  import opened MazeGrid

  predicate IsToken(t: string) {
    t == "up" || t == "down" || t == "left" || t == "right"
  }

  /** The switch of `ReconstructPath`: the token naming a unit delta, and nothing for any
      other delta (the switch has no default case). */
  function Direction(d: Vec2): (r: seq<string>)
    ensures |r| <= 1
    ensures |r| == 1 <==> IsUnitOffset(d)
  {
    if d == Vec2(0, 1) then ["right"]
    else if d == Vec2(0, -1) then ["left"]
    else if d == Vec2(1, 0) then ["down"]
    else if d == Vec2(-1, 0) then ["up"]
    else []
  }

  /** The move a token stands for, in solver coordinates (row, column). */
  function Step(t: string): Vec2
    requires IsToken(t)
  {
    match t
    case "right" => Vec2(0, 1)
    case "left" => Vec2(0, -1)
    case "down" => Vec2(1, 0)
    case "up" => Vec2(-1, 0)
  }

  /** The token of a unit delta names that very delta. */
  lemma StepOfDirection(d: Vec2)
    requires IsUnitOffset(d)
    ensures IsToken(Direction(d)[0]) && Step(Direction(d)[0]) == d
  {
  }

  /** Every token is the token of its own move. */
  lemma DirectionOfStep(t: string)
    requires IsToken(t)
    ensures Direction(Step(t)) == [t]
  {
  }

  lemma StepIsUnit(t: string)
    requires IsToken(t)
    ensures IsUnitOffset(Step(t))
  {
  }

  predicate AllTokens(moves: seq<string>) {
    forall i :: 0 <= i < |moves| ==> IsToken(moves[i])
  }

  /** Where replaying `moves` from `from` ends. */
  function Walk(from: Vec2, moves: seq<string>): Vec2
    requires AllTokens(moves)
  {
    if |moves| == 0 then from
    else Add(Walk(from, moves[..|moves| - 1]), Step(moves[|moves| - 1]))
  }

  /** Replaying `moves` from `from` steps only onto walkable cells and ends on `to`. */
  predicate IsPath(g: Grid, from: Vec2, moves: seq<string>, to: Vec2) {
    && AllTokens(moves)
    && Walk(from, moves) == to
    && forall k :: 1 <= k <= |moves| ==> Walkable(g, Walk(from, moves[..k]))
  }

  /** A path extended by one unit step onto a walkable cell is a path to that cell. */
  lemma ExtendPath(g: Grid, from: Vec2, moves: seq<string>, to: Vec2, d: Vec2)
    requires IsPath(g, from, moves, to)
    requires IsUnitOffset(d) && Walkable(g, Add(to, d))
    ensures IsPath(g, from, moves + Direction(d), Add(to, d))
  {
    StepOfDirection(d);
    var ext := moves + Direction(d);
    assert ext[..|ext| - 1] == moves;
    forall k | 1 <= k <= |ext|
      ensures Walkable(g, Walk(from, ext[..k]))
    {
      if k <= |moves| {
        assert ext[..k] == moves[..k];
      } else {
        assert ext[..k] == ext;
      }
    }
  }

  /** `cameFrom` is ranked: every step of the chain goes to a strictly lower rank, so
      the backward walk ends. The solver uses its g-scores as the ranks. */
  ghost predicate Ranked(cameFrom: map<Vec2, Vec2>, rank: map<Vec2, nat>) {
    forall n {:trigger cameFrom[n]} :: n in cameFrom ==> n in rank && cameFrom[n] in rank && rank[cameFrom[n]] < rank[n]
  }

  /** Tokens of the chain that ends at `n`, in start-to-`n` order. */
  ghost function ChainTokens(cameFrom: map<Vec2, Vec2>, rank: map<Vec2, nat>, n: Vec2): seq<string>
    requires Ranked(cameFrom, rank)
    decreases if n in cameFrom then rank[n] + 1 else 0
  {
    if n in cameFrom then ChainTokens(cameFrom, rank, cameFrom[n]) + Direction(Sub(n, cameFrom[n]))
    else []
  }

  /** `Enumerable.Reverse`. */
  function Reversed(s: seq<string>): (r: seq<string>)
    ensures |r| == |s|
    ensures forall i :: 0 <= i < |s| ==> r[i] == s[|s| - 1 - i]
  {
    if |s| == 0 then [] else [s[|s| - 1]] + Reversed(s[..|s| - 1])
  }

  /** Appending at most one token puts it at the front of the reversal. */
  lemma ReversedAppend(s: seq<string>, t: seq<string>)
    requires |t| <= 1
    ensures Reversed(s + t) == t + Reversed(s)
  {
    if |t| == 1 {
      assert (s + t)[..|s|] == s;
    } else {
      assert s + t == s;
    }
  }

  /** `ReconstructPath`: walks `cameFrom` back from `curr`, collecting one token per step,
      then reverses the list. */
  method ReconstructPath(cameFrom: map<Vec2, Vec2>, curr: Vec2, ghost rank: map<Vec2, nat>)
    returns (path: seq<string>)
    requires Ranked(cameFrom, rank)
    ensures path == ChainTokens(cameFrom, rank, curr)
  {
    var collected: seq<string> := [];
    var node := curr;
    while node in cameFrom
      invariant ChainTokens(cameFrom, rank, curr) == ChainTokens(cameFrom, rank, node) + Reversed(collected)
      decreases if node in cameFrom then rank[node] + 1 else 0
    {
      var dir := Sub(node, cameFrom[node]);
      ghost var before := ChainTokens(cameFrom, rank, cameFrom[node]);
      assert ChainTokens(cameFrom, rank, node) == before + Direction(dir);
      ReversedAppend(collected, Direction(dir));
      assert before + Direction(dir) + Reversed(collected) == before + Reversed(collected + Direction(dir));
      collected := collected + Direction(dir);
      node := cameFrom[node];
    }
    path := Reversed(collected);
  }

  /** The chain recorded by the solver replays as a path: if every `cameFrom` step is a
      unit move onto a walkable cell and the chain can only end at `start`, then the
      tokens of the chain ending at `n` lead from `start` to `n` over walkable cells. */
  lemma {:induction false} ChainIsPath(g: Grid, cameFrom: map<Vec2, Vec2>, rank: map<Vec2, nat>, start: Vec2, n: Vec2)
    requires Ranked(cameFrom, rank)
    requires start !in cameFrom
    requires forall m :: m in cameFrom ==>
               && IsUnitOffset(Sub(m, cameFrom[m])) && Walkable(g, m)
               && (cameFrom[m] == start || cameFrom[m] in cameFrom)
    requires n == start || n in cameFrom
    ensures IsPath(g, start, ChainTokens(cameFrom, rank, n), n)
    decreases if n in cameFrom then rank[n] + 1 else 0
  {
    if n in cameFrom {
      var p := cameFrom[n];
      ChainIsPath(g, cameFrom, rank, start, p);
      AddSubInverse(n, p);
      ExtendPath(g, start, ChainTokens(cameFrom, rank, p), p, Sub(n, p));
    }
  }
}
