/** `SolveMaze`: A* over the 4-connected walkable cells, from the `$` found by the scan to
    the `F`. The frontier is a priority queue, modelled as a multiset of entries from which
    some entry of least priority is taken (ties are broken arbitrarily). The heuristic is
    a parameter standing for the Euclidean distance to the goal. */
module MazeSolver {
  import opened Results
  import opened Geometry
  import opened MazeGrid
  import opened MazePath

  /** A frontier entry: a coordinate and its priority (its f-score when enqueued). */
  datatype Entry = Entry(node: Vec2, priority: real)

  /** The only fault the solver can meet: indexing a row or a column out of range. */
  datatype SolveError = IndexOutOfRange

  predicate IsLeast(e: Entry, q: multiset<Entry>) {
    e in q && forall e' :: e' in q ==> e.priority <= e'.priority
  }

  /** A non-empty frontier has an entry of least priority. */
  lemma {:induction false} LeastExists(q: multiset<Entry>)
    requires |q| > 0
    ensures exists e :: IsLeast(e, q)
    decreases |q|
  {
    var x :| x in q;
    var rest := q - multiset{x};
    assert q == rest + multiset{x};
    if |rest| == 0 {
      assert rest == multiset{};
      assert IsLeast(x, q);
    } else {
      LeastExists(rest);
      var m :| IsLeast(m, rest);
      if m.priority <= x.priority {
        assert IsLeast(m, q);
      } else {
        assert IsLeast(x, q);
      }
    }
  }

  ghost predicate Queued(q: multiset<Entry>, c: Vec2) {
    exists e :: e in q && e.node == c
  }

  /** `c` has been expanded: its neighbour query succeeded (all four offset neighbours are
      in range) and every walkable offset neighbour is in `known`. */
  ghost predicate Expanded(g: Grid, c: Vec2, known: set<Vec2>) {
    && Interior(g, c)
    && forall k {:trigger Walkable(g, Add(c, Offsets[k]))} ::
         0 <= k < |Offsets| && Walkable(g, Add(c, Offsets[k])) ==> Add(c, Offsets[k]) in known
  }

  /** Every coordinate of the grid. */
  ghost function Cells(g: Grid): set<Vec2> {
    set i, j | 0 <= i < |g| && 0 <= j < |g[i]| :: Vec2(i, j)
  }

  /** The termination measure: a pair (c, k) for every level k below the g-score of c
      (below `bound` while c has no g-score). Every strict g-score decrease removes pairs. */
  ghost function Potential(domain: set<Vec2>, bound: nat, gScore: map<Vec2, nat>): set<(Vec2, nat)> {
    set c, k: nat | c in domain && k < bound && (c !in gScore || k < gScore[c]) :: (c, k)
  }

  /** Recording a strictly smaller g-score (or a first one below `bound`) shrinks the potential. */
  lemma PotentialShrinks(domain: set<Vec2>, bound: nat, gScore: map<Vec2, nat>, n: Vec2, v: nat)
    requires n in domain && v < bound
    requires n !in gScore || v < gScore[n]
    ensures Potential(domain, bound, gScore[n := v]) < Potential(domain, bound, gScore)
  {
    assert (n, v) in Potential(domain, bound, gScore);
    assert (n, v) !in Potential(domain, bound, gScore[n := v]);
  }

  /** G-scores that only ever decrease (and keys that only ever appear) never enlarge the
      potential, and any change at all shrinks it. */
  lemma PotentialMonotone(domain: set<Vec2>, gScore0: map<Vec2, nat>, gScore: map<Vec2, nat>)
    requires gScore.Keys <= domain && ScoresBounded(gScore)
    requires forall c :: c in gScore0 ==> c in gScore && gScore[c] <= gScore0[c]
    ensures gScore == gScore0 || Potential(domain, |domain|, gScore) < Potential(domain, |domain|, gScore0)
  {
    SubsetCardinality(gScore.Keys, domain);
    var p, p0 := Potential(domain, |domain|, gScore), Potential(domain, |domain|, gScore0);
    assert p <= p0;
    if gScore != gScore0 {
      var c :| c in gScore && (c !in gScore0 || gScore[c] < gScore0[c]);
      assert (c, gScore[c]) in p0 - p;
    }
  }

  lemma SubsetCardinality(a: set<Vec2>, b: set<Vec2>)
    requires a <= b
    ensures |a| <= |b|
  {
    assert b == a + (b - a);
  }

  /** The search ledger's invariants: g-scores are whole numbers bounded by the number of
      discovered coordinates, `gScore[start]` is 0, every other discovered coordinate has
      a predecessor one unit step away with a strictly smaller g-score, and every
      frontier entry has a g-score. */
  ghost predicate Ledger(data: Grid, start: Vec2, domain: set<Vec2>,
                         openSet: multiset<Entry>, cameFrom: map<Vec2, Vec2>, gScore: map<Vec2, nat>)
  {
    && start in gScore && gScore[start] == 0 && start !in cameFrom
    && gScore.Keys == cameFrom.Keys + {start}
    && gScore.Keys <= domain
    && ScoresBounded(gScore)
    && Ranked(cameFrom, gScore)
    && UnitSteps(data, cameFrom)
    && (forall e :: e in openSet ==> e.node in gScore)
  }

  /** Every g-score is below the number of discovered coordinates. */
  ghost predicate ScoresBounded(gScore: map<Vec2, nat>) {
    forall c :: c in gScore ==> gScore[c] < |gScore.Keys|
  }

  /** Every recorded predecessor is one unit step back from a walkable cell. */
  ghost predicate UnitSteps(data: Grid, cameFrom: map<Vec2, Vec2>) {
    forall n :: n in cameFrom ==> IsUnitOffset(Sub(n, cameFrom[n])) && Walkable(data, n)
  }

  /** Every discovered coordinate other than `except` is still queued or has been
      expanded without being the goal. */
  ghost predicate Closure(data: Grid, goal: Vec2, except: Option<Vec2>,
                          openSet: multiset<Entry>, gScore: map<Vec2, nat>)
  {
    forall c :: c in gScore && Some(c) != except ==>
      Queued(openSet, c) || (c != goal && Expanded(data, c, gScore.Keys))
  }

  /** A set that holds `start`, not `goal`, and all neighbours of each of its members
      contains every cell a path from `start` reaches, so no path reaches `goal`. */
  lemma {:induction false} ClosedSetHoldsWalk(data: Grid, known: set<Vec2>, start: Vec2, moves: seq<string>)
    requires start in known
    requires forall c :: c in known ==> Expanded(data, c, known)
    requires AllTokens(moves)
    requires forall k :: 1 <= k <= |moves| ==> Walkable(data, Walk(start, moves[..k]))
    ensures Walk(start, moves) in known
    decreases |moves|
  {
    if |moves| > 0 {
      var prefix := moves[..|moves| - 1];
      forall k | 1 <= k <= |prefix|
        ensures Walkable(data, Walk(start, prefix[..k]))
      {
        assert prefix[..k] == moves[..k];
      }
      ClosedSetHoldsWalk(data, known, start, prefix);
      var p := Walk(start, prefix);
      var d := Step(moves[|moves| - 1]);
      StepIsUnit(moves[|moves| - 1]);
      assert moves[..|moves|] == moves;
      assert Walk(start, moves) == Add(p, d);
      assert Walkable(data, Add(p, d));
      assert Expanded(data, p, known);
      assert d == Offsets[OffsetIndex(d)];
    }
  }

  lemma NoPathOutside(data: Grid, known: set<Vec2>, start: Vec2, goal: Vec2)
    requires start in known && goal !in known
    requires forall c :: c in known ==> Expanded(data, c, known)
    ensures forall moves :: !IsPath(data, start, moves, goal)
  {
    forall moves | IsPath(data, start, moves, goal)
      ensures false
    {
      ClosedSetHoldsWalk(data, known, start, moves);
    }
  }

  /** Taking an entry off the frontier keeps the ledger, and leaves every discovered
      coordinate but the dequeued one queued or expanded. */
  lemma DequeueStep(data: Grid, start: Vec2, goal: Vec2, domain: set<Vec2>,
                    openSet: multiset<Entry>, cameFrom: map<Vec2, Vec2>, gScore: map<Vec2, nat>, e: Entry)
    requires Ledger(data, start, domain, openSet, cameFrom, gScore)
    requires Closure(data, goal, None, openSet, gScore)
    requires e in openSet
    ensures Ledger(data, start, domain, openSet - multiset{e}, cameFrom, gScore)
    ensures Closure(data, goal, Some(e.node), openSet - multiset{e}, gScore)
    ensures e.node in gScore && (e.node == start || Walkable(data, e.node))
  {
    var rest := openSet - multiset{e};
    forall c | c in gScore && Some(c) != Some(e.node)
      ensures Queued(rest, c) || (c != goal && Expanded(data, c, gScore.Keys))
    {
      if Queued(openSet, c) {
        var w :| w in openSet && w.node == c;
        assert w != e;
        assert w in rest;
      }
    }
  }

  /** Recording a better route to `neighbour` through `curr` (new predecessor, new
      g-score, new frontier entry) keeps the ledger and shrinks the potential. */
  lemma RelaxStep(data: Grid, start: Vec2, domain: set<Vec2>,
                  openSet: multiset<Entry>, cameFrom: map<Vec2, Vec2>, gScore: map<Vec2, nat>,
                  curr: Vec2, neighbour: Vec2, ngScore: nat, entry: Entry)
    requires Ledger(data, start, domain, openSet, cameFrom, gScore)
    requires Cells(data) <= domain
    requires curr in gScore && ngScore == gScore[curr] + 1
    requires IsUnitOffset(Sub(neighbour, curr)) && Walkable(data, neighbour)
    requires neighbour !in gScore || ngScore < gScore[neighbour]
    requires entry.node == neighbour
    ensures neighbour != curr
    ensures Ledger(data, start, domain, openSet + multiset{entry}, cameFrom[neighbour := curr], gScore[neighbour := ngScore])
    ensures Potential(domain, |domain|, gScore[neighbour := ngScore]) < Potential(domain, |domain|, gScore)
  {
    assert neighbour in Cells(data);
    RelaxBound(domain, gScore, curr, neighbour, ngScore);
    PotentialShrinks(domain, |domain|, gScore, neighbour, ngScore);
    RelaxLedger(data, start, domain, openSet, cameFrom, gScore, curr, neighbour, ngScore, entry);
  }

  /** A new g-score `gScore[curr] + 1` stays below the number of discovered coordinates. */
  lemma RelaxBound(domain: set<Vec2>, gScore: map<Vec2, nat>, curr: Vec2, neighbour: Vec2, ngScore: nat)
    requires gScore.Keys <= domain && neighbour in domain
    requires ScoresBounded(gScore)
    requires curr in gScore && ngScore == gScore[curr] + 1
    requires neighbour !in gScore || ngScore < gScore[neighbour]
    ensures ngScore < |domain|
    ensures ScoresBounded(gScore[neighbour := ngScore])
  {
    var g' := gScore[neighbour := ngScore];
    assert g'.Keys == gScore.Keys + {neighbour};
    SubsetCardinality(g'.Keys, domain);
    SubsetCardinality(gScore.Keys, g'.Keys);
  }

  lemma RelaxLedger(data: Grid, start: Vec2, domain: set<Vec2>,
                    openSet: multiset<Entry>, cameFrom: map<Vec2, Vec2>, gScore: map<Vec2, nat>,
                    curr: Vec2, neighbour: Vec2, ngScore: nat, entry: Entry)
    requires Ledger(data, start, domain, openSet, cameFrom, gScore)
    requires neighbour in domain
    requires curr in gScore && ngScore == gScore[curr] + 1
    requires IsUnitOffset(Sub(neighbour, curr)) && Walkable(data, neighbour)
    requires neighbour !in gScore || ngScore < gScore[neighbour]
    requires ScoresBounded(gScore[neighbour := ngScore])
    requires entry.node == neighbour
    ensures Ledger(data, start, domain, openSet + multiset{entry}, cameFrom[neighbour := curr], gScore[neighbour := ngScore])
  {
    RelaxKeys(start, domain, cameFrom, gScore, curr, neighbour, ngScore);
    RelaxRanked(cameFrom, gScore, curr, neighbour, ngScore);
    RelaxUnitSteps(data, cameFrom, curr, neighbour);
    RelaxFrontier(openSet, gScore, neighbour, ngScore, entry);
  }

  /** Relaxing a coordinate other than `start` records it in both maps at once. */
  lemma RelaxKeys(start: Vec2, domain: set<Vec2>, cameFrom: map<Vec2, Vec2>, gScore: map<Vec2, nat>,
                  curr: Vec2, neighbour: Vec2, ngScore: nat)
    requires start in gScore && gScore[start] == 0 && start !in cameFrom
    requires gScore.Keys == cameFrom.Keys + {start} && gScore.Keys <= domain
    requires neighbour in domain
    requires neighbour !in gScore || ngScore < gScore[neighbour]
    requires ngScore > 0
    ensures neighbour != start
    ensures gScore[neighbour := ngScore].Keys == cameFrom[neighbour := curr].Keys + {start}
    ensures gScore[neighbour := ngScore].Keys <= domain
  {
  }

  /** A new predecessor one unit step back from a walkable cell keeps every step a unit move. */
  lemma RelaxUnitSteps(data: Grid, cameFrom: map<Vec2, Vec2>, curr: Vec2, neighbour: Vec2)
    requires UnitSteps(data, cameFrom)
    requires IsUnitOffset(Sub(neighbour, curr)) && Walkable(data, neighbour)
    ensures UnitSteps(data, cameFrom[neighbour := curr])
  {
  }

  /** The new frontier entry is for a coordinate that now has a g-score. */
  lemma RelaxFrontier(openSet: multiset<Entry>, gScore: map<Vec2, nat>, neighbour: Vec2, ngScore: nat, entry: Entry)
    requires forall e :: e in openSet ==> e.node in gScore
    requires entry.node == neighbour
    ensures forall e :: e in openSet + multiset{entry} ==> e.node in gScore[neighbour := ngScore]
  {
  }

  /** A strictly better g-score through `curr` keeps g-scores decreasing along `cameFrom`. */
  lemma RelaxRanked(cameFrom: map<Vec2, Vec2>, gScore: map<Vec2, nat>, curr: Vec2, neighbour: Vec2, ngScore: nat)
    requires Ranked(cameFrom, gScore)
    requires curr in gScore && ngScore == gScore[curr] + 1
    requires neighbour !in gScore || ngScore < gScore[neighbour]
    ensures Ranked(cameFrom[neighbour := curr], gScore[neighbour := ngScore])
  {
    var g' := gScore[neighbour := ngScore];
    var cf' := cameFrom[neighbour := curr];
    forall n | n in cf'
      ensures n in g' && cf'[n] in g' && g'[cf'[n]] < g'[n]
    {
      if n == neighbour {
        assert cf'[n] == curr && g'[n] == ngScore;
      } else {
        assert cf'[n] == cameFrom[n] && n in cameFrom;
        assert gScore[cameFrom[n]] < gScore[n];
        assert g'[n] == gScore[n];
      }
    }
  }

  /** A relaxation lowers or adds one g-score, so the scores stay below the ones the loop
      started from, and differ from them from then on. */
  lemma ScoresOnlyDecrease(gScore0: map<Vec2, nat>, gScore: map<Vec2, nat>, neighbour: Vec2, ngScore: nat)
    requires forall c :: c in gScore0 ==> c in gScore && gScore[c] <= gScore0[c]
    requires neighbour !in gScore || ngScore < gScore[neighbour]
    ensures forall c :: c in gScore0 ==> c in gScore[neighbour := ngScore] && gScore[neighbour := ngScore][c] <= gScore0[c]
    ensures gScore[neighbour := ngScore] != gScore0
  {
    var g' := gScore[neighbour := ngScore];
    if neighbour in gScore0 {
      assert g'[neighbour] < gScore0[neighbour];
    } else {
      assert neighbour in g';
    }
  }

  lemma RelaxClosure(data: Grid, goal: Vec2, openSet: multiset<Entry>, gScore: map<Vec2, nat>,
                     curr: Vec2, neighbour: Vec2, ngScore: nat, entry: Entry)
    requires Closure(data, goal, Some(curr), openSet, gScore)
    requires entry.node == neighbour
    ensures Closure(data, goal, Some(curr), openSet + multiset{entry}, gScore[neighbour := ngScore])
  {
    var q' := openSet + multiset{entry};
    var g' := gScore[neighbour := ngScore];
    assert Queued(q', neighbour) by { assert entry in q'; }
    forall c | c in g' && Some(c) != Some(curr)
      ensures Queued(q', c) || (c != goal && Expanded(data, c, g'.Keys))
    {
      if c != neighbour {
        if Queued(openSet, c) {
          var w :| w in openSet && w.node == c;
          assert w in q';
        } else {
          assert Expanded(data, c, gScore.Keys);
        }
      }
    }
  }

  /** Once every neighbour of `curr` has a g-score, `curr` counts as expanded. */
  lemma ExpandDone(data: Grid, goal: Vec2, openSet: multiset<Entry>, gScore: map<Vec2, nat>, curr: Vec2)
    requires Closure(data, goal, Some(curr), openSet, gScore)
    requires curr in gScore && curr != goal
    requires GetNeighbours(curr, data).Some?
    requires forall n :: n in GetNeighbours(curr, data).value ==> n in gScore
    ensures Closure(data, goal, None, openSet, gScore)
  {
    forall k | 0 <= k < |Offsets| && Walkable(data, Add(curr, Offsets[k]))
      ensures Add(curr, Offsets[k]) in gScore
    {
      NeighbourReturnedIffWalkable(curr, data, k);
    }
    assert Expanded(data, curr, gScore.Keys);
  }

  /** When the goal is dequeued, the `cameFrom` chain from it is a path from the start. */
  lemma GoalChainIsPath(data: Grid, start: Vec2, domain: set<Vec2>,
                        openSet: multiset<Entry>, cameFrom: map<Vec2, Vec2>, gScore: map<Vec2, nat>, goal: Vec2)
    requires Ledger(data, start, domain, openSet, cameFrom, gScore)
    requires goal in gScore
    ensures Ranked(cameFrom, gScore)
    ensures IsPath(data, start, ChainTokens(cameFrom, gScore, goal), goal)
  {
    ChainIsPath(data, cameFrom, gScore, start, goal);
  }

  /** When the frontier runs empty, the discovered coordinates are closed under the
      neighbour relation and exclude the goal, so no path reaches the goal. */
  lemma ExhaustedMeansUnreachable(data: Grid, start: Vec2, goal: Vec2, domain: set<Vec2>,
                                  cameFrom: map<Vec2, Vec2>, gScore: map<Vec2, nat>)
    requires Ledger(data, start, domain, multiset{}, cameFrom, gScore)
    requires Closure(data, goal, None, multiset{}, gScore)
    ensures forall moves :: !IsPath(data, start, moves, goal)
  {
    forall c | c in gScore
      ensures c != goal && Expanded(data, c, gScore.Keys)
    {
      assert !Queued(multiset{}, c);
    }
    NoPathOutside(data, gScore.Keys, start, goal);
  }

  /** The relaxation has handled the coordinates of `s`: each has a g-score of at most
      `bound`, and every entry of `gScore` and `cameFrom` for any other coordinate is the
      one the loop started from. */
  ghost predicate RelaxedOver(s: seq<Vec2>, bound: nat,
                              gScore0: map<Vec2, nat>, gScore: map<Vec2, nat>,
                              cameFrom0: map<Vec2, Vec2>, cameFrom: map<Vec2, Vec2>)
  {
    && (forall n :: n in s ==> n in gScore && gScore[n] <= bound)
    && (forall c :: c in gScore && c !in s ==> c in gScore0 && gScore[c] == gScore0[c])
    && (forall c :: c in cameFrom && c !in s ==> c in cameFrom0 && cameFrom[c] == cameFrom0[c])
  }

  /** Handling `s[i]`, either by leaving a g-score already within `bound` or by recording
      `bound` and the predecessor `curr` for it, extends the handled prefix by one. */
  lemma RelaxedPrefix(s: seq<Vec2>, i: nat, bound: nat, curr: Vec2,
                      gScore0: map<Vec2, nat>, gScore: map<Vec2, nat>, gScore': map<Vec2, nat>,
                      cameFrom0: map<Vec2, Vec2>, cameFrom: map<Vec2, Vec2>, cameFrom': map<Vec2, Vec2>)
    requires i < |s| && RelaxedOver(s[..i], bound, gScore0, gScore, cameFrom0, cameFrom)
    requires || (gScore' == gScore && cameFrom' == cameFrom && s[i] in gScore && gScore[s[i]] <= bound)
             || (gScore' == gScore[s[i] := bound] && cameFrom' == cameFrom[s[i] := curr])
    ensures RelaxedOver(s[..i + 1], bound, gScore0, gScore', cameFrom0, cameFrom')
  {
    assert s[..i + 1] == s[..i] + [s[i]];
  }

  /** The f-score of a coordinate `n` with g-score `g`: the cost so far plus the
      heuristic's estimate of the rest. */
  function FScore(heuristic: (Vec2, Vec2) -> real, goal: Vec2, n: Vec2, g: nat): real {
    g as real + heuristic(n, goal)
  }

  /** `n` is reached more cheaply through `curr`, at `bound`, than the loop found it before,
      or is reached for the first time. */
  ghost predicate Improves(n: Vec2, bound: nat, gScore0: map<Vec2, nat>) {
    n !in gScore0 || bound < gScore0[n]
  }

  /** `n` carries the state of an improved coordinate: predecessor `curr`, g-score
      `bound`, f-score `bound + h` and a frontier entry at that priority. */
  ghost predicate UpdatedAt(n: Vec2, bound: nat, curr: Vec2, goal: Vec2, heuristic: (Vec2, Vec2) -> real,
                            gScore: map<Vec2, nat>, cameFrom: map<Vec2, Vec2>,
                            fScore: map<Vec2, real>, openSet: multiset<Entry>)
  {
    && n in cameFrom && cameFrom[n] == curr
    && n in gScore && gScore[n] == bound
    && n in fScore && fScore[n] == FScore(heuristic, goal, n, bound)
    && Entry(n, FScore(heuristic, goal, n, bound)) in openSet
  }

  /** Every coordinate of `s` that `bound` improves carries the improved state. */
  ghost predicate UpdatedUpTo(s: seq<Vec2>, bound: nat, curr: Vec2, goal: Vec2, heuristic: (Vec2, Vec2) -> real,
                              gScore0: map<Vec2, nat>, gScore: map<Vec2, nat>, cameFrom: map<Vec2, Vec2>,
                              fScore: map<Vec2, real>, openSet: multiset<Entry>)
    decreases |s|
  {
    s != [] ==>
      && UpdatedUpTo(s[..|s| - 1], bound, curr, goal, heuristic, gScore0, gScore, cameFrom, fScore, openSet)
      && (Improves(s[|s| - 1], bound, gScore0) ==>
            UpdatedAt(s[|s| - 1], bound, curr, goal, heuristic, gScore, cameFrom, fScore, openSet))
  }

  /** `UpdatedUpTo` holds exactly when every improved coordinate of `s` is updated. */
  lemma {:induction false} UpdatedUpToIffAll(s: seq<Vec2>, bound: nat, curr: Vec2, goal: Vec2, heuristic: (Vec2, Vec2) -> real,
                                             gScore0: map<Vec2, nat>, gScore: map<Vec2, nat>, cameFrom: map<Vec2, Vec2>,
                                             fScore: map<Vec2, real>, openSet: multiset<Entry>)
    ensures UpdatedUpTo(s, bound, curr, goal, heuristic, gScore0, gScore, cameFrom, fScore, openSet) <==>
            forall n :: n in s && Improves(n, bound, gScore0) ==>
              UpdatedAt(n, bound, curr, goal, heuristic, gScore, cameFrom, fScore, openSet)
    decreases |s|
  {
    if s != [] {
      var p := s[..|s| - 1];
      UpdatedUpToIffAll(p, bound, curr, goal, heuristic, gScore0, gScore, cameFrom, fScore, openSet);
      assert s == p + [s[|s| - 1]];
    }
  }

  /** Recording the improved state for `k` keeps every coordinate of `s` updated. */
  lemma {:induction false} UpdatedUpToKept(s: seq<Vec2>, bound: nat, curr: Vec2, goal: Vec2, heuristic: (Vec2, Vec2) -> real,
                                           gScore0: map<Vec2, nat>, gScore: map<Vec2, nat>, cameFrom: map<Vec2, Vec2>,
                                           fScore: map<Vec2, real>, openSet: multiset<Entry>, k: Vec2)
    requires UpdatedUpTo(s, bound, curr, goal, heuristic, gScore0, gScore, cameFrom, fScore, openSet)
    ensures UpdatedUpTo(s, bound, curr, goal, heuristic, gScore0, gScore[k := bound], cameFrom[k := curr],
                        fScore[k := FScore(heuristic, goal, k, bound)],
                        openSet + multiset{Entry(k, FScore(heuristic, goal, k, bound))})
    decreases |s|
  {
    if s != [] {
      UpdatedUpToKept(s[..|s| - 1], bound, curr, goal, heuristic, gScore0, gScore, cameFrom, fScore, openSet, k);
    }
  }

  /** The entries the relaxation adds for the coordinates of `s`: one at priority
      `bound + h` for the first occurrence of each coordinate that `bound` improves. */
  ghost function Added(s: seq<Vec2>, bound: nat, goal: Vec2, heuristic: (Vec2, Vec2) -> real,
                       gScore0: map<Vec2, nat>): multiset<Entry>
    decreases |s|
  {
    if s == [] then multiset{}
    else
      var p, n := s[..|s| - 1], s[|s| - 1];
      Added(p, bound, goal, heuristic, gScore0)
        + if Improves(n, bound, gScore0) && n !in p then multiset{Entry(n, FScore(heuristic, goal, n, bound))}
          else multiset{}
  }

  /** Every added entry belongs to a coordinate of `s` that `bound` improves, at priority
      `bound + h`. */
  lemma {:induction false} AddedEntries(s: seq<Vec2>, bound: nat, goal: Vec2, heuristic: (Vec2, Vec2) -> real,
                                        gScore0: map<Vec2, nat>, e: Entry)
    requires e in Added(s, bound, goal, heuristic, gScore0)
    ensures e.node in s && Improves(e.node, bound, gScore0) && e.priority == FScore(heuristic, goal, e.node, bound)
    decreases |s|
  {
    var p := s[..|s| - 1];
    if e in Added(p, bound, goal, heuristic, gScore0) {
      AddedEntries(p, bound, goal, heuristic, gScore0, e);
      assert e.node in s by { assert s == p + [s[|s| - 1]]; }
    }
  }

  /** Once the whole of `s` is handled, every coordinate of `s` that `bound` improves has
      `curr` as predecessor, g-score `bound`, f-score `bound + h` and a frontier entry. */
  lemma UpdatedEverywhere(s: seq<Vec2>, bound: nat, curr: Vec2, goal: Vec2, heuristic: (Vec2, Vec2) -> real,
                          gScore0: map<Vec2, nat>, gScore: map<Vec2, nat>, cameFrom: map<Vec2, Vec2>,
                          fScore: map<Vec2, real>, openSet: multiset<Entry>)
    requires UpdatedUpTo(s, bound, curr, goal, heuristic, gScore0, gScore, cameFrom, fScore, openSet)
    ensures forall n :: n in s && (n !in gScore0 || bound < gScore0[n]) ==>
              && n in cameFrom && cameFrom[n] == curr
              && n in gScore && gScore[n] == bound
              && n in fScore && fScore[n] == FScore(heuristic, goal, n, bound)
              && Entry(n, FScore(heuristic, goal, n, bound)) in openSet
  {
    UpdatedUpToIffAll(s, bound, curr, goal, heuristic, gScore0, gScore, cameFrom, fScore, openSet);
  }

  /** A frontier that grew by `Added(s, …)` only grew, and only by entries of improved
      coordinates of `s` at priority `bound + h`. */
  lemma AddedFrontier(s: seq<Vec2>, bound: nat, goal: Vec2, heuristic: (Vec2, Vec2) -> real,
                      gScore0: map<Vec2, nat>, openSet0: multiset<Entry>, openSet: multiset<Entry>)
    requires openSet == openSet0 + Added(s, bound, goal, heuristic, gScore0)
    ensures openSet0 <= openSet
    ensures forall e :: e in openSet - openSet0 ==>
              && e.node in s && (e.node !in gScore0 || bound < gScore0[e.node])
              && e.priority == FScore(heuristic, goal, e.node, bound)
  {
    assert openSet - openSet0 == Added(s, bound, goal, heuristic, gScore0);
    forall e | e in openSet - openSet0
      ensures && e.node in s && Improves(e.node, bound, gScore0)
              && e.priority == FScore(heuristic, goal, e.node, bound)
    {
      AddedEntries(s, bound, goal, heuristic, gScore0, e);
    }
  }

  /** What the handled prefix says about the next coordinate `s[i]`: handled before, it
      already has a g-score within `bound`; otherwise its g-score is the starting one. */
  lemma NextCoordinate(s: seq<Vec2>, i: nat, bound: nat, gScore0: map<Vec2, nat>, gScore: map<Vec2, nat>,
                       cameFrom0: map<Vec2, Vec2>, cameFrom: map<Vec2, Vec2>)
    requires i < |s| && RelaxedOver(s[..i], bound, gScore0, gScore, cameFrom0, cameFrom)
    requires forall c :: c in gScore0 ==> c in gScore
    ensures s[i] in s[..i] ==> s[i] in gScore && gScore[s[i]] <= bound
    ensures s[i] !in s[..i] ==> (s[i] in gScore <==> s[i] in gScore0)
    ensures s[i] !in s[..i] && s[i] in gScore ==> gScore[s[i]] == gScore0[s[i]]
  {
  }

  /** Relaxing `s[i]`, whose route through `curr` is new or shorter, extends the record of
      updated coordinates and of added entries: `s[i]` was not handled before and `bound`
      improves it. */
  lemma UpdatedPrefix(s: seq<Vec2>, i: nat, bound: nat, curr: Vec2, goal: Vec2, heuristic: (Vec2, Vec2) -> real,
                      gScore0: map<Vec2, nat>, gScore: map<Vec2, nat>, cameFrom: map<Vec2, Vec2>,
                      fScore: map<Vec2, real>, openSet0: multiset<Entry>, openSet: multiset<Entry>)
    requires i < |s|
    requires s[i] in s[..i] ==> s[i] in gScore && gScore[s[i]] <= bound
    requires s[i] !in s[..i] ==> (s[i] in gScore <==> s[i] in gScore0)
    requires s[i] !in s[..i] && s[i] in gScore ==> gScore[s[i]] == gScore0[s[i]]
    requires s[i] !in gScore || bound < gScore[s[i]]
    requires UpdatedUpTo(s[..i], bound, curr, goal, heuristic, gScore0, gScore, cameFrom, fScore, openSet)
    requires openSet == openSet0 + Added(s[..i], bound, goal, heuristic, gScore0)
    ensures UpdatedUpTo(s[..i + 1], bound, curr, goal, heuristic, gScore0,
                        gScore[s[i] := bound], cameFrom[s[i] := curr],
                        fScore[s[i] := FScore(heuristic, goal, s[i], bound)],
                        openSet + multiset{Entry(s[i], FScore(heuristic, goal, s[i], bound))})
    ensures openSet + multiset{Entry(s[i], FScore(heuristic, goal, s[i], bound))}
            == openSet0 + Added(s[..i + 1], bound, goal, heuristic, gScore0)
  {
    UpdatedUpToKept(s[..i], bound, curr, goal, heuristic, gScore0, gScore, cameFrom, fScore, openSet, s[i]);
    assert s[..i + 1][..i] == s[..i];
  }

  /** Leaving `s[i]` alone, because its g-score is already within `bound`, extends the
      record of updated coordinates and adds no entry: if `bound` improves `s[i]` at all,
      `s[i]` was handled before. */
  lemma SkippedPrefix(s: seq<Vec2>, i: nat, bound: nat, curr: Vec2, goal: Vec2, heuristic: (Vec2, Vec2) -> real,
                      gScore0: map<Vec2, nat>, gScore: map<Vec2, nat>, cameFrom: map<Vec2, Vec2>,
                      fScore: map<Vec2, real>, openSet0: multiset<Entry>, openSet: multiset<Entry>)
    requires i < |s|
    requires s[i] !in s[..i] ==> (s[i] in gScore <==> s[i] in gScore0)
    requires s[i] !in s[..i] && s[i] in gScore ==> gScore[s[i]] == gScore0[s[i]]
    requires s[i] in gScore && gScore[s[i]] <= bound
    requires UpdatedUpTo(s[..i], bound, curr, goal, heuristic, gScore0, gScore, cameFrom, fScore, openSet)
    requires openSet == openSet0 + Added(s[..i], bound, goal, heuristic, gScore0)
    ensures UpdatedUpTo(s[..i + 1], bound, curr, goal, heuristic, gScore0, gScore, cameFrom, fScore, openSet)
    ensures openSet == openSet0 + Added(s[..i + 1], bound, goal, heuristic, gScore0)
  {
    assert s[..i + 1][..i] == s[..i];
    if Improves(s[i], bound, gScore0) {
      UpdatedUpToIffAll(s[..i], bound, curr, goal, heuristic, gScore0, gScore, cameFrom, fScore, openSet);
    }
  }

  /** The bookkeeping the relaxation loop updates: the frontier, the predecessors, the
      g-scores and the f-scores. */
  datatype Scores = Scores(openSet: multiset<Entry>, cameFrom: map<Vec2, Vec2>,
                           gScore: map<Vec2, nat>, fScore: map<Vec2, real>)

  /** One relaxation of `n` by a route through `curr` of length `ng`: when that route is
      the first or a shorter one, `n` gets `curr` as predecessor, g-score `ng`, the f-score
      `ng + h` and a frontier entry at that priority; otherwise nothing changes. */
  function RelaxOne(heuristic: (Vec2, Vec2) -> real, goal: Vec2, curr: Vec2, ng: nat, n: Vec2, st: Scores): Scores {
    if n !in st.gScore || ng < st.gScore[n] then
      Scores(st.openSet + multiset{Entry(n, FScore(heuristic, goal, n, ng))}, st.cameFrom[n := curr],
             st.gScore[n := ng], st.fScore[n := FScore(heuristic, goal, n, ng)])
    else st
  }

  /** The relaxations of the coordinates of `ns` through `curr` with `ng`, in order. */
  function RelaxAll(heuristic: (Vec2, Vec2) -> real, goal: Vec2, curr: Vec2, ng: nat, ns: seq<Vec2>, st: Scores): Scores
    decreases |ns|
  {
    if ns == [] then st
    else RelaxOne(heuristic, goal, curr, ng, ns[|ns| - 1], RelaxAll(heuristic, goal, curr, ng, ns[..|ns| - 1], st))
  }

  /** Relaxing one more coordinate extends the relaxation of a prefix. */
  lemma RelaxAllStep(heuristic: (Vec2, Vec2) -> real, goal: Vec2, curr: Vec2, ng: nat, ns: seq<Vec2>, i: nat, st: Scores)
    requires i < |ns|
    ensures RelaxAll(heuristic, goal, curr, ng, ns[..i + 1], st)
            == RelaxOne(heuristic, goal, curr, ng, ns[i], RelaxAll(heuristic, goal, curr, ng, ns[..i], st))
  {
    assert ns[..i + 1][..i] == ns[..i];
  }

  /** Relaxing the coordinates of `ns` with `ng` leaves each of them within `ng` and
      every other entry as it was, and no g-score grows. */
  lemma {:induction false} RelaxAllRelaxed(heuristic: (Vec2, Vec2) -> real, goal: Vec2, curr: Vec2, ng: nat,
                                           ns: seq<Vec2>, st0: Scores)
    ensures var r := RelaxAll(heuristic, goal, curr, ng, ns, st0);
            && RelaxedOver(ns, ng, st0.gScore, r.gScore, st0.cameFrom, r.cameFrom)
            && (forall c :: c in st0.gScore ==> c in r.gScore && r.gScore[c] <= st0.gScore[c])
    decreases |ns|
  {
    if ns != [] {
      var i := |ns| - 1;
      RelaxAllRelaxed(heuristic, goal, curr, ng, ns[..i], st0);
      var m := RelaxAll(heuristic, goal, curr, ng, ns[..i], st0);
      assert ns[..i + 1] == ns;
      if ns[i] !in m.gScore || ng < m.gScore[ns[i]] {
        ScoresOnlyDecrease(st0.gScore, m.gScore, ns[i], ng);
        RelaxedPrefix(ns, i, ng, curr, st0.gScore, m.gScore, m.gScore[ns[i] := ng],
                      st0.cameFrom, m.cameFrom, m.cameFrom[ns[i] := curr]);
      } else {
        RelaxedPrefix(ns, i, ng, curr, st0.gScore, m.gScore, m.gScore, st0.cameFrom, m.cameFrom, m.cameFrom);
      }
    }
  }

  /** Relaxing the coordinates of `ns` with `ng` leaves each coordinate that `ng` improves
      on with the improved state, and grows the frontier by exactly the entries of
      `Added`. */
  lemma {:induction false} RelaxAllUpdated(heuristic: (Vec2, Vec2) -> real, goal: Vec2, curr: Vec2, ng: nat,
                                           ns: seq<Vec2>, st0: Scores)
    ensures var r := RelaxAll(heuristic, goal, curr, ng, ns, st0);
            && UpdatedUpTo(ns, ng, curr, goal, heuristic, st0.gScore, r.gScore, r.cameFrom, r.fScore, r.openSet)
            && r.openSet == st0.openSet + Added(ns, ng, goal, heuristic, st0.gScore)
    decreases |ns|
  {
    if ns != [] {
      var i := |ns| - 1;
      RelaxAllUpdated(heuristic, goal, curr, ng, ns[..i], st0);
      RelaxAllRelaxed(heuristic, goal, curr, ng, ns[..i], st0);
      var m := RelaxAll(heuristic, goal, curr, ng, ns[..i], st0);
      assert ns[..i + 1] == ns;
      NextCoordinate(ns, i, ng, st0.gScore, m.gScore, st0.cameFrom, m.cameFrom);
      if ns[i] !in m.gScore || ng < m.gScore[ns[i]] {
        UpdatedPrefix(ns, i, ng, curr, goal, heuristic, st0.gScore, m.gScore, m.cameFrom, m.fScore, st0.openSet, m.openSet);
      } else {
        SkippedPrefix(ns, i, ng, curr, goal, heuristic, st0.gScore, m.gScore, m.cameFrom, m.fScore, st0.openSet, m.openSet);
      }
    }
  }

  /** The outcome of relaxing the neighbours `ns` of `curr` with the route length `ng`:
      each neighbour ends with a g-score of at most `ng`; each neighbour that `ng` improves
      on the starting scores has `curr` as predecessor, g-score `ng`, f-score `ng + h` and
      a frontier entry at that priority; the frontier only grew, and only by such entries;
      every other coordinate keeps its g-score and predecessor; and no g-score grew. */
  lemma RelaxAllOutcome(heuristic: (Vec2, Vec2) -> real, goal: Vec2, curr: Vec2, ng: nat, ns: seq<Vec2>, st0: Scores)
    ensures var r := RelaxAll(heuristic, goal, curr, ng, ns, st0);
            && (forall n :: n in ns ==> n in r.gScore && r.gScore[n] <= ng)
            && (forall n :: n in ns && (n !in st0.gScore || ng < st0.gScore[n]) ==>
                  && n in r.cameFrom && r.cameFrom[n] == curr
                  && n in r.gScore && r.gScore[n] == ng
                  && n in r.fScore && r.fScore[n] == FScore(heuristic, goal, n, ng)
                  && Entry(n, FScore(heuristic, goal, n, ng)) in r.openSet)
            && st0.openSet <= r.openSet
            && (forall e :: e in r.openSet - st0.openSet ==>
                  && e.node in ns && (e.node !in st0.gScore || ng < st0.gScore[e.node])
                  && e.priority == FScore(heuristic, goal, e.node, ng))
            && (forall c :: c in r.gScore && c !in ns ==> c in st0.gScore && r.gScore[c] == st0.gScore[c])
            && (forall c :: c in r.cameFrom && c !in ns ==> c in st0.cameFrom && r.cameFrom[c] == st0.cameFrom[c])
            && (forall c :: c in st0.gScore ==> c in r.gScore && r.gScore[c] <= st0.gScore[c])
  {
    var r := RelaxAll(heuristic, goal, curr, ng, ns, st0);
    RelaxAllRelaxed(heuristic, goal, curr, ng, ns, st0);
    RelaxAllUpdated(heuristic, goal, curr, ng, ns, st0);
    UpdatedEverywhere(ns, ng, curr, goal, heuristic, st0.gScore, r.gScore, r.cameFrom, r.fScore, r.openSet);
    AddedFrontier(ns, ng, goal, heuristic, st0.gScore, st0.openSet, r.openSet);
  }

  /** Relaxing one neighbour `n` of `curr` with `ng = gScore[curr] + 1` keeps the ledger,
      and unless nothing changed it shrinks the termination measure. */
  lemma RelaxOneLedger(data: Grid, heuristic: (Vec2, Vec2) -> real, start: Vec2, goal: Vec2,
                       domain: set<Vec2>, curr: Vec2, ng: nat, n: Vec2, st: Scores)
    requires Ledger(data, start, domain, st.openSet, st.cameFrom, st.gScore)
    requires Cells(data) <= domain
    requires curr in st.gScore && ng == st.gScore[curr] + 1
    requires IsUnitOffset(Sub(n, curr)) && Walkable(data, n)
    ensures var r := RelaxOne(heuristic, goal, curr, ng, n, st);
            && Ledger(data, start, domain, r.openSet, r.cameFrom, r.gScore)
            && ((r.gScore == st.gScore && r.openSet == st.openSet)
                || Potential(domain, |domain|, r.gScore) < Potential(domain, |domain|, st.gScore))
  {
    if n !in st.gScore || ng < st.gScore[n] {
      RelaxStep(data, start, domain, st.openSet, st.cameFrom, st.gScore, curr, n, ng, Entry(n, FScore(heuristic, goal, n, ng)));
    }
  }


  /** Relaxing a neighbour `n` of `curr` leaves the g-score of `curr` as it was, since a
      coordinate is never its own neighbour. */
  lemma RelaxOneKeepsCurr(heuristic: (Vec2, Vec2) -> real, goal: Vec2, curr: Vec2, ng: nat, n: Vec2, st: Scores)
    requires IsUnitOffset(Sub(n, curr)) && curr in st.gScore
    ensures var r := RelaxOne(heuristic, goal, curr, ng, n, st);
            curr in r.gScore && r.gScore[curr] == st.gScore[curr]
  {
    assert !IsUnitOffset(Sub(curr, curr));
  }

  /** Relaxing one neighbour `n` of `curr` keeps the closure: a relaxed neighbour is queued. */
  lemma RelaxOneClosure(data: Grid, heuristic: (Vec2, Vec2) -> real, goal: Vec2, curr: Vec2, ng: nat, n: Vec2, st: Scores)
    requires Closure(data, goal, Some(curr), st.openSet, st.gScore)
    ensures var r := RelaxOne(heuristic, goal, curr, ng, n, st);
            Closure(data, goal, Some(curr), r.openSet, r.gScore)
  {
    if n !in st.gScore || ng < st.gScore[n] {
      RelaxClosure(data, goal, st.openSet, st.gScore, curr, n, ng, Entry(n, FScore(heuristic, goal, n, ng)));
    }
  }

  /** Relaxing the neighbours `ns` of `curr` with `ng = gScore[curr] + 1` keeps the ledger,
      the closure and the g-score of `curr`, and unless nothing changed it shrinks the
      termination measure. */
  lemma {:induction false} RelaxAllKeeps(data: Grid, heuristic: (Vec2, Vec2) -> real, start: Vec2, goal: Vec2,
                                         domain: set<Vec2>, curr: Vec2, ng: nat, ns: seq<Vec2>, st0: Scores)
    requires Ledger(data, start, domain, st0.openSet, st0.cameFrom, st0.gScore)
    requires Closure(data, goal, Some(curr), st0.openSet, st0.gScore)
    requires Cells(data) <= domain
    requires curr in st0.gScore && ng == st0.gScore[curr] + 1
    requires forall n :: n in ns ==> IsUnitOffset(Sub(n, curr)) && Walkable(data, n)
    ensures var r := RelaxAll(heuristic, goal, curr, ng, ns, st0);
            && Ledger(data, start, domain, r.openSet, r.cameFrom, r.gScore)
            && Closure(data, goal, Some(curr), r.openSet, r.gScore)
            && curr in r.gScore && r.gScore[curr] == st0.gScore[curr]
            && ((r.gScore == st0.gScore && r.openSet == st0.openSet)
                || Potential(domain, |domain|, r.gScore) < Potential(domain, |domain|, st0.gScore))
    decreases |ns|
  {
    if ns != [] {
      var p := ns[..|ns| - 1];
      assert forall n :: n in p ==> n in ns;
      RelaxAllKeeps(data, heuristic, start, goal, domain, curr, ng, p, st0);
      var m := RelaxAll(heuristic, goal, curr, ng, p, st0);
      RelaxOneLedger(data, heuristic, start, goal, domain, curr, ng, ns[|ns| - 1], m);
      RelaxOneClosure(data, heuristic, goal, curr, ng, ns[|ns| - 1], m);
      RelaxOneKeepsCurr(heuristic, goal, curr, ng, ns[|ns| - 1], m);
    }
  }

  /** One pass of the relaxation loop, for one `neighbour` of `curr` reached by a route of
      length `ngScore`: exactly `RelaxOne`. */
  method RelaxNeighbour(heuristic: (Vec2, Vec2) -> real, goal: Vec2, curr: Vec2, ngScore: nat, neighbour: Vec2,
                        openSet: multiset<Entry>, cameFrom: map<Vec2, Vec2>,
                        gScore: map<Vec2, nat>, fScore: map<Vec2, real>)
    returns (openSet': multiset<Entry>, cameFrom': map<Vec2, Vec2>, gScore': map<Vec2, nat>, fScore': map<Vec2, real>)
    ensures Scores(openSet', cameFrom', gScore', fScore')
            == RelaxOne(heuristic, goal, curr, ngScore, neighbour, Scores(openSet, cameFrom, gScore, fScore))
  {
    openSet', cameFrom', gScore', fScore' := openSet, cameFrom, gScore, fScore;
    if neighbour !in gScore || ngScore < gScore[neighbour] {
      cameFrom' := cameFrom[neighbour := curr];
      gScore' := gScore[neighbour := ngScore];
      fScore' := fScore[neighbour := FScore(heuristic, goal, neighbour, ngScore)];
      openSet' := openSet + multiset{Entry(neighbour, fScore'[neighbour])};
    }
  }

  /** The relaxation loop of `SolveMaze` over the neighbours of `curr`, with the route
      length `ngScore` through `curr`: the result is `RelaxAll` of the neighbours. Every
      neighbour ends with a g-score of at most `ngScore`; every neighbour the route
      improves on gets `curr` as predecessor, `ngScore` as g-score, the f-score
      `ngScore + h` and a frontier entry at that priority; the frontier only grows, and
      only by such entries; every other coordinate keeps its g-score and predecessor; and
      no g-score grows. */
  method RelaxNeighbours(heuristic: (Vec2, Vec2) -> real, goal: Vec2, curr: Vec2, ngScore: nat, neighbours: seq<Vec2>,
                         openSet0: multiset<Entry>, cameFrom0: map<Vec2, Vec2>,
                         gScore0: map<Vec2, nat>, fScore0: map<Vec2, real>)
    returns (openSet: multiset<Entry>, cameFrom: map<Vec2, Vec2>, gScore: map<Vec2, nat>, fScore: map<Vec2, real>)
    ensures Scores(openSet, cameFrom, gScore, fScore)
            == RelaxAll(heuristic, goal, curr, ngScore, neighbours, Scores(openSet0, cameFrom0, gScore0, fScore0))
    ensures forall n :: n in neighbours ==> n in gScore && gScore[n] <= ngScore
    ensures forall n :: n in neighbours && (n !in gScore0 || ngScore < gScore0[n]) ==>
              && n in cameFrom && cameFrom[n] == curr
              && n in gScore && gScore[n] == ngScore
              && n in fScore && fScore[n] == FScore(heuristic, goal, n, ngScore)
              && Entry(n, FScore(heuristic, goal, n, ngScore)) in openSet
    ensures openSet0 <= openSet
    ensures forall e :: e in openSet - openSet0 ==>
              && e.node in neighbours && (e.node !in gScore0 || ngScore < gScore0[e.node])
              && e.priority == FScore(heuristic, goal, e.node, ngScore)
    ensures forall c :: c in gScore && c !in neighbours ==> c in gScore0 && gScore[c] == gScore0[c]
    ensures forall c :: c in cameFrom && c !in neighbours ==> c in cameFrom0 && cameFrom[c] == cameFrom0[c]
    ensures forall c :: c in gScore0 ==> c in gScore && gScore[c] <= gScore0[c]
  {
    openSet, cameFrom, gScore, fScore := openSet0, cameFrom0, gScore0, fScore0;
    ghost var st0 := Scores(openSet0, cameFrom0, gScore0, fScore0);
    for i := 0 to |neighbours|
      invariant Scores(openSet, cameFrom, gScore, fScore) == RelaxAll(heuristic, goal, curr, ngScore, neighbours[..i], st0)
    {
      RelaxAllStep(heuristic, goal, curr, ngScore, neighbours, i, st0);
      openSet, cameFrom, gScore, fScore :=
        RelaxNeighbour(heuristic, goal, curr, ngScore, neighbours[i], openSet, cameFrom, gScore, fScore);
    }
    assert neighbours[..|neighbours|] == neighbours;
    RelaxAllOutcome(heuristic, goal, curr, ngScore, neighbours, st0);
  }

  /** The relaxation loop keeps the ledger, the closure and the g-score of `curr`, and
      unless nothing changed it shrinks the termination measure. */
  lemma RelaxKeeps(data: Grid, heuristic: (Vec2, Vec2) -> real, start: Vec2, goal: Vec2, domain: set<Vec2>,
                   curr: Vec2, ng: nat, neighbours: seq<Vec2>,
                   openSet0: multiset<Entry>, cameFrom0: map<Vec2, Vec2>, gScore0: map<Vec2, nat>, fScore0: map<Vec2, real>,
                   openSet: multiset<Entry>, cameFrom: map<Vec2, Vec2>, gScore: map<Vec2, nat>, fScore: map<Vec2, real>)
    requires Ledger(data, start, domain, openSet0, cameFrom0, gScore0)
    requires Closure(data, goal, Some(curr), openSet0, gScore0)
    requires Cells(data) <= domain
    requires curr in gScore0 && ng == gScore0[curr] + 1
    requires forall n :: n in neighbours ==> IsUnitOffset(Sub(n, curr)) && Walkable(data, n)
    requires Scores(openSet, cameFrom, gScore, fScore)
             == RelaxAll(heuristic, goal, curr, ng, neighbours, Scores(openSet0, cameFrom0, gScore0, fScore0))
    ensures Ledger(data, start, domain, openSet, cameFrom, gScore)
    ensures Closure(data, goal, Some(curr), openSet, gScore)
    ensures curr in gScore && gScore[curr] == gScore0[curr]
    ensures (gScore == gScore0 && openSet == openSet0)
            || Potential(domain, |domain|, gScore) < Potential(domain, |domain|, gScore0)
  {
    RelaxAllKeeps(data, heuristic, start, goal, domain, curr, ng, neighbours, Scores(openSet0, cameFrom0, gScore0, fScore0));
  }

  /** `SolveMaze`. An `Ok` answer is either a route whose replay from the start steps only
      onto walkable cells and ends on the goal, or the empty sequence when no such route
      exists at all (when the start is the goal, the empty sequence is itself a route).
      The only failure is an out-of-range neighbour lookup: it happens only after a walk
      from the start has reached a cell with an out-of-range offset neighbour, so never in
      an enclosed maze. */
  method SolveMaze(data: Grid, heuristic: (Vec2, Vec2) -> real) returns (r: Result<seq<string>, SolveError>)
    ensures var start, goal := MarkerOrOrigin(data, '$'), MarkerOrOrigin(data, 'F');
      r.Ok? ==> IsPath(data, start, r.value, goal) || (r.value == [] && forall moves :: !IsPath(data, start, moves, goal))
    ensures Enclosed(data) ==> r.Ok?
    ensures r.Err? ==> exists c, moves :: IsPath(data, MarkerOrOrigin(data, '$'), moves, c) && !Interior(data, c)
  {
    var start, goal := FindMarkers(data);

    var openSet: multiset<Entry> := multiset{Entry(start, 0.0)};
    var cameFrom: map<Vec2, Vec2> := map[];
    var gScore: map<Vec2, nat> := map[start := 0];
    var fScore: map<Vec2, real> := map[start := 0.0];
    ghost var domain := Cells(data) + {start};
    assert Queued(openSet, start) by { assert Entry(start, 0.0) in openSet; }

    while |openSet| > 0
      invariant Ledger(data, start, domain, openSet, cameFrom, gScore)
      invariant Closure(data, goal, None, openSet, gScore)
      decreases Potential(domain, |domain|, gScore), |openSet|
    {
      LeastExists(openSet);
      var e :| IsLeast(e, openSet);
      DequeueStep(data, start, goal, domain, openSet, cameFrom, gScore, e);
      var curr := e.node;
      openSet := openSet - multiset{e};

      if curr == goal {
        GoalChainIsPath(data, start, domain, openSet, cameFrom, gScore, curr);
        var path := ReconstructPath(cameFrom, curr, gScore);
        return Ok(path);
      }

      var found := GetNeighbours(curr, data);
      if found.None? {
        EnclosedNeighbours(data, curr);
        GoalChainIsPath(data, start, domain, openSet, cameFrom, gScore, curr);
        assert IsPath(data, start, ChainTokens(cameFrom, gScore, curr), curr) && !Interior(data, curr);
        return Err(IndexOutOfRange);
      }
      var neighbours := found.value;

      // `curr` was queued, so it has a g-score and the `float.MaxValue` fallback never applies.
      var ngScore := gScore[curr] + 1;
      ghost var q0, c0, g0, f0 := openSet, cameFrom, gScore, fScore;
      openSet, cameFrom, gScore, fScore :=
        RelaxNeighbours(heuristic, goal, curr, ngScore, neighbours, openSet, cameFrom, gScore, fScore);
      RelaxKeeps(data, heuristic, start, goal, domain, curr, ngScore, neighbours, q0, c0, g0, f0, openSet, cameFrom, gScore, fScore);
      ExpandDone(data, goal, openSet, gScore, curr);
    }

    ExhaustedMeansUnreachable(data, start, goal, domain, cameFrom, gScore);
    return Ok([]);
  }
}
