/** Single-unit A* search over the free cells of one board. The board is only
    read: the search asks whether cells are inside, occupied, and which of their
    neighbours lie on the board. */
module Pathfinding {
  import opened Hex
  import opened Board
  import opened Collections
  import opened BoardGeneration

  /** The score of a cell that has no f-score yet (the platform's largest int). */
  const IntMaxValue: int := 0x7fff_ffff

  /** GetScoreOrMax: the f-score of `c`, or IntMaxValue when it has none. While
      every recorded score is below IntMaxValue, the sentinel marks exactly the
      unscored cells. */
  function ScoreOrMax(scores: map<HexCoord, int>, c: HexCoord): (score: int)
    ensures c in scores ==> score == scores[c]
    ensures (forall x | x in scores.Values :: x < IntMaxValue) ==> (score == IntMaxValue <==> c !in scores)
  {
    if c in scores then
      assert scores[c] in scores.Values;
      scores[c]
    else IntMaxValue
  }

  function Reverse(s: seq<HexCoord>): (reversed: seq<HexCoord>) {
    seq(|s|, k requires 0 <= k < |s| => s[|s| - 1 - k])
  }

  /** A legal walk from `start` to `goal`: board cells only, one hex step at a
      time, and every cell after the start unoccupied. */
  ghost predicate IsBoardPath(occ: Ledger, path: seq<HexCoord>, start: HexCoord, goal: HexCoord) {
    && |path| >= 1
    && path[0] == start
    && path[|path| - 1] == goal
    && (forall k | 0 <= k < |path| :: IsInside(path[k]))
    && (forall k | 0 <= k < |path| - 1 :: UnitStepAt(path, k))
    && (forall k | 1 <= k < |path| :: path[k] !in occ)
  }

  /** The k-th and (k+1)-th cells of `path` are one hex apart. */
  ghost predicate UnitStepAt(path: seq<HexCoord>, k: int)
    requires 0 <= k < |path| - 1
  {
    Distance(path[k], path[k + 1]) == 1
  }

  /** A walk of unit steps covers at most one hex of distance per step. */
  lemma {:induction false} StepsBoundDistance(path: seq<HexCoord>)
    requires |path| >= 1
    requires forall k | 0 <= k < |path| - 1 :: UnitStepAt(path, k)
    ensures Distance(path[0], path[|path| - 1]) <= |path| - 1
  {
    if |path| > 1 {
      var init := path[..|path| - 1];
      forall k | 0 <= k < |init| - 1 ensures UnitStepAt(init, k) {
        assert UnitStepAt(path, k);
      }
      StepsBoundDistance(init);
      assert UnitStepAt(path, |path| - 2);
      DistanceTriangle(path[0], path[|path| - 2], path[|path| - 1]);
    }
  }

  /** Every board path is at least as long as the hex distance it spans. */
  lemma BoardPathLength(occ: Ledger, path: seq<HexCoord>, start: HexCoord, goal: HexCoord)
    requires IsBoardPath(occ, path, start, goal)
    ensures |path| >= Distance(start, goal) + 1
  {
    StepsBoundDistance(path);
  }

  /** List.Remove: drops the first occurrence of `x`, if any. */
  function RemoveFirst(s: seq<HexCoord>, x: HexCoord): (rest: seq<HexCoord>)
    ensures x in s ==> |rest| == |s| - 1
    ensures x !in s ==> rest == s
    ensures forall y :: y in rest ==> y in s
    ensures forall y :: y in s && y != x ==> y in rest
    ensures Distinct(s) ==> Distinct(rest) && x !in rest
  {
    if s == [] then []
    else if s[0] == x then
      assert s == [x] + s[1..];
      assert Distinct(s) ==> x !in s[1..] by {
        if Distinct(s) {
          forall k | 0 <= k < |s[1..]| ensures s[1..][k] != x {
            assert s[1..][k] == s[k + 1];
          }
        }
      }
      s[1..]
    else
      var tail := s[1..];
      assert s == [s[0]] + tail;
      assert Distinct(s) ==> Distinct(tail) && s[0] !in tail by {
        if Distinct(s) {
          forall i, j | 0 <= i < j < |tail| ensures tail[i] != tail[j] {
            assert tail[i] == s[i + 1] && tail[j] == s[j + 1];
          }
          forall k | 0 <= k < |tail| ensures tail[k] != s[0] {
            assert tail[k] == s[k + 1];
          }
        }
      }
      [s[0]] + RemoveFirst(tail, x)
  }

  /** The index of the first occurrence of `x` in `s`. */
  function FirstIndex(s: seq<HexCoord>, x: HexCoord): (k: nat)
    requires x in s
    ensures k < |s| && s[k] == x
    ensures forall j | 0 <= j < k :: s[j] != x
  {
    if s[0] == x then 0 else FirstIndex(s[1..], x) + 1
  }

  /** List.Remove cuts out the first occurrence of `x` and keeps the other
      cells in their order. */
  lemma {:induction false} RemoveFirstSplices(s: seq<HexCoord>, x: HexCoord)
    requires x in s
    ensures RemoveFirst(s, x) == s[..FirstIndex(s, x)] + s[FirstIndex(s, x) + 1..]
  {
    if s[0] != x {
      var tail := s[1..];
      assert x in tail;
      RemoveFirstSplices(tail, x);
      var k := FirstIndex(tail, x);
      assert s[..k + 1] == [s[0]] + tail[..k];
      assert s[k + 2..] == tail[k + 1..];
    }
  }

  /** The predecessor links of the search: each linked cell is a free board cell
      one step from its predecessor, with a g-score one higher, and every scored
      cell other than the start has a predecessor. */
  ghost predicate ChainInv(occ: Ledger, start: HexCoord,
                           cameFrom: map<HexCoord, HexCoord>, gScore: map<HexCoord, int>)
  {
    && IsInside(start)
    && start in gScore && gScore[start] == 0
    && (forall c | c in gScore :: gScore[c] >= 0 && (c == start || c in cameFrom))
    && (forall c {:trigger cameFrom[c]} | c in cameFrom ::
          && c != start && c in gScore && IsInside(c) && c !in occ
          && cameFrom[c] in gScore && gScore[c] == gScore[cameFrom[c]] + 1
          && Distance(cameFrom[c], c) == 1)
  }

  /** The search state between expansions: the open list holds distinct scored
      cells that are not closed; closed cells are scored board cells other than
      the goal; predecessors are closed; every scored cell is open or closed. */
  ghost predicate SearchInv(occ: Ledger, start: HexCoord, goal: HexCoord,
                            openSet: seq<HexCoord>, cameFrom: map<HexCoord, HexCoord>,
                            gScore: map<HexCoord, int>, closed: set<HexCoord>)
  {
    && ChainInv(occ, start, cameFrom, gScore)
    && Distinct(openSet)
    && (forall c | c in openSet :: c in gScore && c !in closed)
    && (forall c | c in closed :: c in gScore && IsInside(c) && c != goal)
    && (forall c {:trigger cameFrom[c]} | c in cameFrom :: cameFrom[c] in closed)
    && (forall c | c in gScore :: c in closed || c in openSet)
  }

  /** The A* ranking: every scored cell's f-score is its g-score plus the hex
      distance still to go. */
  ghost predicate FScoreInv(goal: HexCoord, gScore: map<HexCoord, int>, fScore: map<HexCoord, int>) {
    forall c | c in gScore :: RankedAt(goal, gScore, fScore, c)
  }

  /** The scored cell `c` is ranked by g + h. */
  ghost predicate RankedAt(goal: HexCoord, gScore: map<HexCoord, int>, fScore: map<HexCoord, int>, c: HexCoord)
    requires c in gScore
  {
    c in fScore && fScore[c] == gScore[c] + Distance(c, goal)
  }

  /** Every free board cell next to a closed cell has been reached. */
  ghost predicate FrontierReached(occ: Ledger, openSet: seq<HexCoord>, closed: set<HexCoord>) {
    forall c, n | c in closed && IsInside(n) && n !in occ && Distance(c, n) == 1 ::
      n in closed || n in openSet
  }

  /** No walk leaves a region that contains the start, excludes the goal and is
      closed under free unit steps. */
  lemma NoPathOutOfRegion(occ: Ledger, region: set<HexCoord>, path: seq<HexCoord>,
                          start: HexCoord, goal: HexCoord)
    requires start in region && goal !in region
    requires forall c, n | c in region && IsInside(n) && n !in occ && Distance(c, n) == 1 ::
               n in region
    ensures !IsBoardPath(occ, path, start, goal)
  {
    if IsBoardPath(occ, path, start, goal) {
      var k := 0;
      while k < |path| - 1
        invariant 0 <= k < |path|
        invariant path[k] in region
      {
        assert UnitStepAt(path, k);
        k := k + 1;
      }
    }
  }

  /** The open cell with the lowest f-score (a cell without one scores
      IntMaxValue); on ties, the earliest in the list. */
  method GetLowestFScore(candidates: seq<HexCoord>, fScore: map<HexCoord, int>) returns (best: HexCoord)
    requires |candidates| > 0
    ensures best in candidates
    ensures forall c | c in candidates :: ScoreOrMax(fScore, best) <= ScoreOrMax(fScore, c)
    ensures exists k | 0 <= k < |candidates| ::
              && candidates[k] == best
              && forall j | 0 <= j < k :: ScoreOrMax(fScore, candidates[j]) > ScoreOrMax(fScore, best)
  {
    best := candidates[0];
    var bestScore := ScoreOrMax(fScore, best);
    ghost var bestIndex := 0;
    for i := 1 to |candidates|
      invariant 0 <= bestIndex < i && candidates[bestIndex] == best
      invariant bestScore == ScoreOrMax(fScore, best)
      invariant forall j | 0 <= j < i :: bestScore <= ScoreOrMax(fScore, candidates[j])
      invariant forall j | 0 <= j < bestIndex :: ScoreOrMax(fScore, candidates[j]) > bestScore
    {
      var candidate := candidates[i];
      var score := ScoreOrMax(fScore, candidate);
      if score < bestScore {
        best := candidate;
        bestScore := score;
        bestIndex := i;
      }
    }
  }

  /** The k-th cell of `trail` has the next one as its predecessor. */
  ghost predicate LinkedAt(cameFrom: map<HexCoord, HexCoord>, trail: seq<HexCoord>, k: int)
    requires 0 <= k < |trail| - 1
  {
    trail[k] in cameFrom && cameFrom[trail[k]] == trail[k + 1]
  }

  /** Follows predecessor links back from `current` and reverses them into a
      board path from the start to `current`. */
  method BuildPath(cameFrom: map<HexCoord, HexCoord>, current: HexCoord,
                   ghost occ: Ledger, ghost start: HexCoord, ghost gScore: map<HexCoord, int>)
    returns (path: seq<HexCoord>)
    requires ChainInv(occ, start, cameFrom, gScore)
    requires current in gScore
    ensures IsBoardPath(occ, path, start, current)
  {
    var trail := [current];
    var cell := current;
    while cell in cameFrom
      invariant cell in gScore
      invariant |trail| >= 1 && trail[0] == current && trail[|trail| - 1] == cell
      invariant forall k | 0 <= k < |trail| - 1 :: LinkedAt(cameFrom, trail, k)
      decreases gScore[cell]
    {
      var next := cameFrom[cell];
      LinkedExtend(cameFrom, trail, trail + [next]);
      cell := next;
      trail := trail + [next];
    }
    TrailReversedIsPath(cameFrom, occ, start, gScore, trail);
    path := Reverse(trail);
  }

  /** Appending the predecessor of a trail's last cell keeps every cell linked to the next. */
  lemma LinkedExtend(cameFrom: map<HexCoord, HexCoord>, trail: seq<HexCoord>, longer: seq<HexCoord>)
    requires |trail| >= 1 && trail[|trail| - 1] in cameFrom
    requires forall k | 0 <= k < |trail| - 1 :: LinkedAt(cameFrom, trail, k)
    requires longer == trail + [cameFrom[trail[|trail| - 1]]]
    ensures forall k | 0 <= k < |longer| - 1 :: LinkedAt(cameFrom, longer, k)
  {
    forall k | 0 <= k < |longer| - 1 ensures LinkedAt(cameFrom, longer, k) {
      if k < |trail| - 1 {
        assert LinkedAt(cameFrom, trail, k);
      }
    }
  }

  /** A chain of predecessor links that ends at the start, reversed, is a board path. */
  lemma TrailReversedIsPath(cameFrom: map<HexCoord, HexCoord>, occ: Ledger, start: HexCoord,
                            gScore: map<HexCoord, int>, trail: seq<HexCoord>)
    requires ChainInv(occ, start, cameFrom, gScore)
    requires |trail| >= 1
    requires trail[|trail| - 1] in gScore && trail[|trail| - 1] !in cameFrom
    requires forall k | 0 <= k < |trail| - 1 :: LinkedAt(cameFrom, trail, k)
    ensures IsBoardPath(occ, Reverse(trail), start, trail[0])
  {
    var n := |trail|;
    assert trail[n - 1] == start;
    ReversedTrailCells(cameFrom, occ, start, gScore, trail);
    ReversedTrailSteps(cameFrom, occ, start, gScore, trail);
    assert Reverse(trail)[0] == start && Reverse(trail)[n - 1] == trail[0];
  }

  /** The cells of a linked trail that ends at the start, reversed, lie on the
      board, and all but the first are free. */
  lemma ReversedTrailCells(cameFrom: map<HexCoord, HexCoord>, occ: Ledger, start: HexCoord,
                           gScore: map<HexCoord, int>, trail: seq<HexCoord>)
    requires ChainInv(occ, start, cameFrom, gScore)
    requires |trail| >= 1 && trail[|trail| - 1] == start
    requires forall k | 0 <= k < |trail| - 1 :: LinkedAt(cameFrom, trail, k)
    ensures forall k | 0 <= k < |trail| :: IsInside(Reverse(trail)[k])
    ensures forall k | 1 <= k < |trail| :: Reverse(trail)[k] !in occ
  {
    var n := |trail|;
    var path := Reverse(trail);
    forall k | 0 <= k < n ensures IsInside(path[k]) && (k >= 1 ==> path[k] !in occ) {
      var j := n - 1 - k;
      assert path[k] == trail[j];
      if j < n - 1 {
        assert LinkedAt(cameFrom, trail, j);
      }
    }
  }

  /** Consecutive cells of a linked trail, reversed, are one hex apart. */
  lemma ReversedTrailSteps(cameFrom: map<HexCoord, HexCoord>, occ: Ledger, start: HexCoord,
                           gScore: map<HexCoord, int>, trail: seq<HexCoord>)
    requires ChainInv(occ, start, cameFrom, gScore)
    requires |trail| >= 1
    requires forall k | 0 <= k < |trail| - 1 :: LinkedAt(cameFrom, trail, k)
    ensures forall k | 0 <= k < |trail| - 1 :: UnitStepAt(Reverse(trail), k)
  {
    var n := |trail|;
    var path := Reverse(trail);
    forall k | 0 <= k < n - 1 ensures UnitStepAt(path, k) {
      var j := n - 2 - k;
      assert LinkedAt(cameFrom, trail, j);
      assert path[k] == cameFrom[trail[j]] && path[k + 1] == trail[j];
    }
  }

  /** A neighbour is settled once it is closed, occupied or scored. */
  ghost predicate Settled(occ: Ledger, closed: set<HexCoord>, gScore: map<HexCoord, int>, n: HexCoord) {
    n in closed || n in occ || n in gScore
  }

  /** Relaxes the edges from the just-closed cell `current` to each of its board
      neighbours, in order. */
  method ExpandNeighbors(board: BoardManager, goal: HexCoord, ghost start: HexCoord,
                         current: HexCoord, neighbors: seq<HexCoord>,
                         openSet0: seq<HexCoord>, cameFrom0: map<HexCoord, HexCoord>,
                         gScore0: map<HexCoord, int>, fScore0: map<HexCoord, int>,
                         closed: set<HexCoord>)
    returns (openSet: seq<HexCoord>, cameFrom: map<HexCoord, HexCoord>,
             gScore: map<HexCoord, int>, fScore: map<HexCoord, int>)
    requires SearchInv(board.occupants, start, goal, openSet0, cameFrom0, gScore0, closed)
    requires FScoreInv(goal, gScore0, fScore0)
    requires current in closed
    requires forall n | n in neighbors :: IsInside(n) && Distance(current, n) == 1
    ensures SearchInv(board.occupants, start, goal, openSet, cameFrom, gScore, closed)
    ensures FScoreInv(goal, gScore, fScore)
    ensures gScore0.Keys <= gScore.Keys
    ensures forall n | n in neighbors :: n in closed || n in board.occupants || n in gScore
  {
    openSet, cameFrom, gScore, fScore := openSet0, cameFrom0, gScore0, fScore0;
    for i := 0 to |neighbors|
      invariant SearchInv(board.occupants, start, goal, openSet, cameFrom, gScore, closed)
      invariant FScoreInv(goal, gScore, fScore)
      invariant gScore0.Keys <= gScore.Keys
      invariant forall k | 0 <= k < i :: Settled(board.occupants, closed, gScore, neighbors[k])
    {
      assert neighbors[i] in neighbors;
      ghost var scoredBefore := gScore;
      openSet, cameFrom, gScore, fScore :=
        Relax(board, goal, start, current, neighbors[i], openSet, cameFrom, gScore, fScore, closed);
      SettledGrows(board.occupants, closed, scoredBefore, gScore, neighbors, i);
    }
    forall n | n in neighbors ensures n in closed || n in board.occupants || n in gScore {
      var k :| 0 <= k < |neighbors| && neighbors[k] == n;
      assert Settled(board.occupants, closed, gScore, neighbors[k]);
    }
  }

  /** Scoring more cells keeps the settled prefix of the neighbour list settled,
      and extends it by the neighbour just relaxed. */
  lemma SettledGrows(occ: Ledger, closed: set<HexCoord>, before: map<HexCoord, int>,
                     after: map<HexCoord, int>, neighbors: seq<HexCoord>, i: int)
    requires 0 <= i < |neighbors|
    requires before.Keys <= after.Keys
    requires forall k | 0 <= k < i :: Settled(occ, closed, before, neighbors[k])
    requires Settled(occ, closed, after, neighbors[i])
    ensures forall k | 0 <= k < i + 1 :: Settled(occ, closed, after, neighbors[k])
  {
    forall k | 0 <= k < i + 1 ensures Settled(occ, closed, after, neighbors[k]) {
      if k < i {
        assert Settled(occ, closed, before, neighbors[k]);
      }
    }
  }

  /** Relaxes the edge from the just-closed cell `current` to its board
      neighbour `neighbor`: a neighbour that is not closed, not occupied and
      reached more cheaply than before gets `current` as predecessor, new g- and
      f-scores, and joins the open list if it is not already there. */
  method Relax(board: BoardManager, goal: HexCoord, ghost start: HexCoord,
               current: HexCoord, neighbor: HexCoord,
               openSet0: seq<HexCoord>, cameFrom0: map<HexCoord, HexCoord>,
               gScore0: map<HexCoord, int>, fScore0: map<HexCoord, int>,
               closed: set<HexCoord>)
    returns (openSet: seq<HexCoord>, cameFrom: map<HexCoord, HexCoord>,
             gScore: map<HexCoord, int>, fScore: map<HexCoord, int>)
    requires SearchInv(board.occupants, start, goal, openSet0, cameFrom0, gScore0, closed)
    requires FScoreInv(goal, gScore0, fScore0)
    requires current in closed
    requires IsInside(neighbor) && Distance(current, neighbor) == 1
    ensures current in gScore0
    ensures neighbor in closed || neighbor in board.occupants
            || (neighbor in gScore0 && gScore0[current] + 1 >= gScore0[neighbor]) ==>
              openSet == openSet0 && cameFrom == cameFrom0 && gScore == gScore0 && fScore == fScore0
    ensures !(neighbor in closed || neighbor in board.occupants
              || (neighbor in gScore0 && gScore0[current] + 1 >= gScore0[neighbor])) ==>
              && cameFrom == cameFrom0[neighbor := current]
              && gScore == gScore0[neighbor := gScore0[current] + 1]
              && fScore == fScore0[neighbor := gScore0[current] + 1 + Distance(neighbor, goal)]
              && openSet == (if neighbor in openSet0 then openSet0 else openSet0 + [neighbor])
    ensures SearchInv(board.occupants, start, goal, openSet, cameFrom, gScore, closed)
    ensures FScoreInv(goal, gScore, fScore)
    ensures gScore0.Keys <= gScore.Keys
    ensures neighbor in closed || neighbor in board.occupants || neighbor in gScore
  {
    openSet, cameFrom, gScore, fScore := openSet0, cameFrom0, gScore0, fScore0;
    if neighbor in closed {
      return;
    }
    if board.IsOccupied(neighbor) {
      return;
    }
    var tentativeG := gScore[current] + 1;
    if neighbor in gScore && tentativeG >= gScore[neighbor] {
      return;
    }
    RelaxKeepsSearchInv(board.occupants, start, goal, openSet, cameFrom, gScore, closed, current, neighbor);
    cameFrom := cameFrom[neighbor := current];
    gScore := gScore[neighbor := tentativeG];
    fScore := fScore[neighbor := tentativeG + Distance(neighbor, goal)];
    if neighbor !in openSet {
      openSet := openSet + [neighbor];
    }
  }

  /** Giving a free, unclosed neighbour of a closed cell that closed cell as
      predecessor, at a g-score lower than any it had, keeps the predecessor links sound. */
  lemma RelaxKeepsChainInv(occ: Ledger, start: HexCoord, cameFrom: map<HexCoord, HexCoord>,
                           gScore: map<HexCoord, int>, closed: set<HexCoord>,
                           current: HexCoord, n: HexCoord)
    requires ChainInv(occ, start, cameFrom, gScore)
    requires forall c {:trigger cameFrom[c]} | c in cameFrom :: cameFrom[c] in closed
    requires current in closed && current in gScore && n !in closed
    requires IsInside(n) && n !in occ && Distance(current, n) == 1
    requires !(n in gScore && gScore[current] + 1 >= gScore[n])
    ensures n != start
    ensures ChainInv(occ, start, cameFrom[n := current], gScore[n := gScore[current] + 1])
  {
    var cameFrom', gScore' := cameFrom[n := current], gScore[n := gScore[current] + 1];
    forall c | c in cameFrom'
      ensures && c != start && c in gScore' && IsInside(c) && c !in occ
              && cameFrom'[c] in gScore' && gScore'[c] == gScore'[cameFrom'[c]] + 1
              && Distance(cameFrom'[c], c) == 1
    {
      if c != n {
        assert cameFrom'[c] == cameFrom[c] && cameFrom[c] in closed;
      }
    }
  }

  /** One relaxation step keeps the whole search state sound. */
  lemma RelaxKeepsSearchInv(occ: Ledger, start: HexCoord, goal: HexCoord,
                            openSet: seq<HexCoord>, cameFrom: map<HexCoord, HexCoord>,
                            gScore: map<HexCoord, int>, closed: set<HexCoord>,
                            current: HexCoord, n: HexCoord)
    requires SearchInv(occ, start, goal, openSet, cameFrom, gScore, closed)
    requires current in closed && n !in closed
    requires IsInside(n) && n !in occ && Distance(current, n) == 1
    requires !(n in gScore && gScore[current] + 1 >= gScore[n])
    ensures SearchInv(occ, start, goal, if n in openSet then openSet else openSet + [n],
                      cameFrom[n := current], gScore[n := gScore[current] + 1], closed)
  {
    RelaxKeepsChainInv(occ, start, cameFrom, gScore, closed, current, n);
    var openSet' := if n in openSet then openSet else openSet + [n];
    assert Distinct(openSet') by {
      if n !in openSet {
        forall i, j | 0 <= i < j < |openSet'| ensures openSet'[i] != openSet'[j] {
          if j == |openSet| {
            assert openSet'[i] == openSet[i];
          } else {
            assert openSet'[i] == openSet[i] && openSet'[j] == openSet[j];
          }
        }
      }
    }
  }

  /** A set of board cells has at most as many elements as the board: the
      search closes a new board cell per iteration, so it expands at most 56 cells. */
  lemma ClosedWithinBoard(closed: set<HexCoord>)
    requires forall c | c in closed :: IsInside(c)
    ensures |closed| <= BoardWidth * BoardHeight
  {
    InsideCellCount();
    SubsetCardinality(closed, InsideCells());
  }

  /** A* from `start` to `goal` over free board cells. Succeeds exactly when a
      board path exists, and then returns one. */
  method TryFindPath(board: BoardManager?, start: HexCoord, goal: HexCoord)
    returns (found: bool, path: seq<HexCoord>)
    ensures board == null || !IsInside(start) || !IsInside(goal) ==> !found
    ensures board != null && start != goal && goal in board.occupants ==> !found
    ensures board != null && IsInside(start) && start == goal ==> found && path == [start]
    ensures !found ==> path == []
    ensures found ==> board != null && IsBoardPath(board.occupants, path, start, goal)
    ensures found ==> |path| >= Distance(start, goal) + 1
    ensures board != null ==> (found <==> exists p :: IsBoardPath(board.occupants, p, start, goal))
  {
    if board == null || !IsInside(start) || !IsInside(goal) {
      return false, [];
    }
    if start != goal && board.IsOccupied(goal) {
      return false, [];
    }
    if start == goal {
      assert IsBoardPath(board.occupants, [start], start, goal);
      return true, [start];
    }

    var openSet := [start];
    var cameFrom: map<HexCoord, HexCoord> := map[];
    var gScore := map[start := 0];
    var fScore := map[start := Distance(start, goal)];
    var closed: set<HexCoord> := {};
    ghost var expansions := 0;

    while |openSet| > 0
      invariant SearchInv(board.occupants, start, goal, openSet, cameFrom, gScore, closed)
      invariant FScoreInv(goal, gScore, fScore)
      invariant FrontierReached(board.occupants, openSet, closed)
      invariant expansions == |closed| <= BoardWidth * BoardHeight
      decreases InsideCells() - closed
    {
      var current := GetLowestFScore(openSet, fScore);
      if current == goal {
        path := BuildPath(cameFrom, current, board.occupants, start, gScore);
        BoardPathLength(board.occupants, path, start, goal);
        return true, path;
      }

      ghost var openBefore := openSet;
      ghost var scoredBefore := gScore;
      openSet := RemoveFirst(openSet, current);
      closed := closed + {current};
      expansions := expansions + 1;
      ClosedWithinBoard(closed);

      var neighbors := board.GetNeighbors(current);
      openSet, cameFrom, gScore, fScore :=
        ExpandNeighbors(board, goal, start, current, neighbors, openSet, cameFrom, gScore, fScore, closed);

      assert FrontierReached(board.occupants, openSet, closed) by {
        forall c, n | c in closed && IsInside(n) && n !in board.occupants && Distance(c, n) == 1
          ensures n in closed || n in openSet
        {
          if c == current {
            assert n in neighbors;
          } else {
            assert n in closed || n in openBefore;
            assert n in closed || n in scoredBefore;
          }
          assert n in closed || n in gScore;
        }
      }
    }

    forall p ensures !IsBoardPath(board.occupants, p, start, goal) {
      NoPathOutOfRegion(board.occupants, closed, p, start, goal);
    }
    return false, [];
  }
}
