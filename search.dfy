/**
  The optimal opponent: exhaustive minimax search in which O maximises and X
  minimises, with depth-shaped terminal values, and the choice of O's best
  move, first at the maximum in ascending cell order. Scores are integers in
  hundredths, so the source's `1 - 0.01*depth` is `100 - depth`; for the depths
  that occur (at most 9) the float values are ordered exactly as these integers.
  The search works on the board array in place and undoes every placement.
 */
module Search {
  import opened Wrappers
  import opened Board

  function Max(a: int, b: int): int { if a >= b then a else b }

  function Min(a: int, b: int): int { if a <= b then a else b }

  function Abs(a: int): nat { if a >= 0 then a else -a }

  /** The mark placed by the side to move: O when maximising, X when minimising. */
  function MoverMark(isMax: bool): Cell {
    if isMax then Mark(O) else Mark(X)
  }

  /** The value the search loop starts from: -999 when maximising, 999 when minimising. */
  function Sentinel(isMax: bool): int {
    if isMax then -999 else 999
  }

  /** The search loop's running best over the values `xs`, taken in order from the sentinel. */
  function Extremum(isMax: bool, xs: seq<int>): int {
    if xs == [] then Sentinel(isMax)
    else
      var best := Extremum(isMax, xs[..|xs| - 1]);
      if isMax then Max(best, xs[|xs| - 1]) else Min(best, xs[|xs| - 1])
  }

  /**
    The minimax value of `b` with `isMax` telling whether O is to move, `depth`
    plies below the root: an O win is worth 100 - depth, an X win -100 + depth,
    a full board 0; otherwise the running max (or min) over the children in
    ascending move order, started at -999 (or 999).
   */
  function Score(b: seq<Cell>, isMax: bool, depth: nat): int
    requires |b| == 9
    decreases EmptyCount(b), 1, 0
  {
    match Winner(b)
    case Some(O) => 100 - depth
    case Some(X) => -100 + depth
    case None => if IsFull(b) then 0 else Extremum(isMax, Scores(b, isMax, depth, AvailableMoves(b)))
  }

  /** The value of the child reached by the side to move placing on `m`. */
  function ChildScore(b: seq<Cell>, isMax: bool, depth: nat, m: Index): int
    requires |b| == 9 && b[m] == Empty
    decreases EmptyCount(b), 0, 0
  {
    Score(b[m := MoverMark(isMax)], !isMax, depth + 1)
  }

  /** The children's values, in the order of `moves`. */
  function Scores(b: seq<Cell>, isMax: bool, depth: nat, moves: seq<Index>): (r: seq<int>)
    requires |b| == 9
    requires forall k :: 0 <= k < |moves| ==> b[moves[k]] == Empty
    ensures |r| == |moves|
    decreases EmptyCount(b), 0, |moves|
  {
    seq(|moves|, k requires 0 <= k < |moves| => ChildScore(b, isMax, depth, moves[k]))
  }

  /**
    When every value lies strictly between the sentinels, the running best over a
    non-empty list is one of its values and bounds all of them (from above when
    maximising, from below when minimising).
   */
  lemma {:induction false} ExtremumIsAttained(isMax: bool, xs: seq<int>)
    requires |xs| > 0
    requires forall k :: 0 <= k < |xs| ==> -999 < xs[k] < 999
    ensures exists k :: 0 <= k < |xs| && Extremum(isMax, xs) == xs[k]
    ensures forall k :: 0 <= k < |xs| ==>
      if isMax then xs[k] <= Extremum(isMax, xs) else Extremum(isMax, xs) <= xs[k]
  {
    var n := |xs|;
    var prefix := xs[..n - 1];
    if n > 1 {
      assert forall k :: 0 <= k < n - 1 ==> prefix[k] == xs[k];
      ExtremumIsAttained(isMax, prefix);
      var j :| 0 <= j < n - 1 && Extremum(isMax, prefix) == prefix[j];
      assert prefix[j] == xs[j];
    }
  }

  /**
    The values a position can take: 0, or a win between `depth + e` and `depth`
    plies away, where `e` bounds the plies still to play.
   */
  predicate InBand(s: int, depth: nat, e: nat) {
    s == 0 || 100 - depth - e <= Abs(s) <= 100 - depth
  }

  /** A running best over values in a band is in that band. */
  lemma ExtremumInBand(isMax: bool, xs: seq<int>, depth: nat, e: nat)
    requires |xs| > 0
    requires forall k :: 0 <= k < |xs| ==> InBand(xs[k], depth, e)
    ensures InBand(Extremum(isMax, xs), depth, e)
  {
    ExtremumIsAttained(isMax, xs);
  }

  /**
    Every value is 0 or a win or loss at most `EmptyCount(b)` plies below `depth`;
    in particular the search's -999/999 sentinels never escape.
   */
  lemma {:induction false} ScoreBounds(b: seq<Cell>, isMax: bool, depth: nat)
    requires |b| == 9 && depth + EmptyCount(b) <= 9
    ensures InBand(Score(b, isMax, depth), depth, EmptyCount(b))
    decreases EmptyCount(b), 1
  {
    if Winner(b) == None && !IsFull(b) {
      var moves := AvailableMoves(b);
      FullIffNoMoves(b);
      var xs := Scores(b, isMax, depth, moves);
      forall k | 0 <= k < |xs| ensures InBand(xs[k], depth, EmptyCount(b)) {
        ChildBounds(b, isMax, depth, moves[k]);
      }
      ExtremumInBand(isMax, xs, depth, EmptyCount(b));
    }
  }

  /**
    The band of a child: 0, or a win between `depth + 1` and `depth + EmptyCount(b)`
    plies below the root.
   */
  lemma {:induction false} ChildBounds(b: seq<Cell>, isMax: bool, depth: nat, m: Index)
    requires |b| == 9 && depth + EmptyCount(b) <= 9 && b[m] == Empty
    ensures EmptyCount(b) >= 1
    ensures InBand(ChildScore(b, isMax, depth, m), depth + 1, EmptyCount(b) - 1)
    decreases EmptyCount(b), 0
  {
    var child := b[m := MoverMark(isMax)];
    PlaceCountsDown(b, m, MoverMark(isMax));
    ScoreBounds(child, !isMax, depth + 1);
  }

  /**
    On an undecided, non-full board the value is the maximum (O to move) or the
    minimum (X to move) of the children's values: it is attained by some blank
    cell and bounds every blank cell's child.
   */
  lemma ScoreIsMinimax(b: seq<Cell>, isMax: bool, depth: nat)
    requires |b| == 9 && depth + EmptyCount(b) <= 9
    requires Winner(b) == None && !IsFull(b)
    ensures exists m: Index :: b[m] == Empty && Score(b, isMax, depth) == ChildScore(b, isMax, depth, m)
    ensures forall m: Index :: b[m] == Empty ==>
      if isMax then ChildScore(b, isMax, depth, m) <= Score(b, isMax, depth)
      else Score(b, isMax, depth) <= ChildScore(b, isMax, depth, m)
  {
    var moves := AvailableMoves(b);
    FullIffNoMoves(b);
    AvailableMovesAreBlanks(b);
    var xs := Scores(b, isMax, depth, moves);
    forall k | 0 <= k < |xs| ensures -999 < xs[k] < 999 {
      ChildBounds(b, isMax, depth, moves[k]);
    }
    ExtremumIsAttained(isMax, xs);
    forall m: Index | b[m] == Empty
      ensures if isMax then ChildScore(b, isMax, depth, m) <= Score(b, isMax, depth)
              else Score(b, isMax, depth) <= ChildScore(b, isMax, depth, m)
    {
      var k :| 0 <= k < |moves| && moves[k] == m;
      assert xs[k] == ChildScore(b, isMax, depth, m);
    }
    var k :| 0 <= k < |xs| && Extremum(isMax, xs) == xs[k];
    assert b[moves[k]] == Empty;
  }

  /**
    The depth shaping makes an immediate win the best the side to move can get:
    the position is then worth exactly the win one ply below.
   */
  lemma ImmediateWinIsBest(b: seq<Cell>, isMax: bool, depth: nat, m: Index)
    requires |b| == 9 && depth + EmptyCount(b) <= 9
    requires Winner(b) == None && b[m] == Empty
    requires Winner(b[m := MoverMark(isMax)]) == Some(if isMax then O else X)
    ensures Score(b, isMax, depth) == if isMax then 100 - (depth + 1) else -100 + (depth + 1)
  {
    var win := if isMax then 100 - (depth + 1) else -100 + (depth + 1);
    assert ChildScore(b, isMax, depth, m) == win;
    ScoreIsMinimax(b, isMax, depth);
    var m0: Index :| b[m0] == Empty && Score(b, isMax, depth) == ChildScore(b, isMax, depth, m0);
    ChildBounds(b, isMax, depth, m0);
  }

  /** Extending the moves by one appends that child's value to `Scores`. */
  lemma ScoresSnoc(b: seq<Cell>, isMax: bool, depth: nat, moves: seq<Index>, i: nat)
    requires |b| == 9
    requires forall k :: 0 <= k < |moves| ==> b[moves[k]] == Empty
    requires i < |moves|
    ensures Scores(b, isMax, depth, moves[..i + 1]) ==
      Scores(b, isMax, depth, moves[..i]) + [ChildScore(b, isMax, depth, moves[i])]
  {
    assert Scores(b, isMax, depth, moves[..i + 1]) ==
      Scores(b, isMax, depth, moves[..i]) + [ChildScore(b, isMax, depth, moves[i])];
  }

  /** Folding one more value into the running best. */
  lemma ExtremumSnoc(isMax: bool, xs: seq<int>, x: int)
    ensures Extremum(isMax, xs + [x]) ==
      if isMax then Max(Extremum(isMax, xs), x) else Min(Extremum(isMax, xs), x)
  {
    assert (xs + [x])[..|xs|] == xs;
  }

  /**
    The search of the source's `minimax`, in place on the board array: every
    placement is undone, so the board is returned as it was found, and the
    result is the minimax value `Score` of that board.
   */
  method Minimax(board: array<Cell>, isMax: bool, depth: nat) returns (score: int)
    requires board.Length == 9
    modifies board
    ensures board[..] == old(board[..])
    ensures score == Score(old(board[..]), isMax, depth)
    decreases EmptyCount(board[..]), 1
  {
    var w := Winner(board[..]);
    if w == Some(O) {
      return 100 - depth;
    }
    if w == Some(X) {
      return -100 + depth;
    }
    if IsFull(board[..]) {
      return 0;
    }
    var moves := AvailableMoves(board[..]);
    score := SearchMoves(board, isMax, depth, moves);
  }

  /**
    The loop of `minimax` over the moves `moves`: each is placed with the
    mover's mark, valued by the recursive search and undone, and the running
    max (or min) from the sentinel is returned.
   */
  method SearchMoves(board: array<Cell>, isMax: bool, depth: nat, moves: seq<Index>) returns (best: int)
    requires board.Length == 9
    requires forall k :: 0 <= k < |moves| ==> board[moves[k]] == Empty
    modifies board
    ensures board[..] == old(board[..])
    ensures best == Extremum(isMax, Scores(old(board[..]), isMax, depth, moves))
    decreases EmptyCount(board[..]), 0
  {
    ghost var b := board[..];
    best := Sentinel(isMax);
    for i := 0 to |moves|
      invariant board[..] == b
      invariant best == Extremum(isMax, Scores(b, isMax, depth, moves[..i]))
    {
      var m := moves[i];
      board[m] := MoverMark(isMax);
      assert board[..] == b[m := MoverMark(isMax)];
      PlaceCountsDown(b, m, MoverMark(isMax));
      var s := Minimax(board, !isMax, depth + 1);
      board[m] := Empty;
      assert board[..] == b;
      ScoresSnoc(b, isMax, depth, moves, i);
      ExtremumSnoc(isMax, Scores(b, isMax, depth, moves[..i]), s);
      best := if isMax then Max(best, s) else Min(best, s);
    }
    assert moves[..|moves|] == moves;
  }

  /** The value the source's `optimal_move` gives O's placement on `m`: X to move, depth 0. */
  function RootScore(b: seq<Cell>, m: Index): int
    requires |b| == 9 && b[m] == Empty
  {
    Score(b[m := Mark(O)], false, 0)
  }

  /** The root values of the placements `moves`, in order. */
  function RootScores(b: seq<Cell>, moves: seq<Index>): (r: seq<int>)
    requires |b| == 9
    requires forall k :: 0 <= k < |moves| ==> b[moves[k]] == Empty
    ensures |r| == |moves|
  {
    seq(|moves|, k requires 0 <= k < |moves| => RootScore(b, moves[k]))
  }

  /**
    The state `(best, best_score)` of the `optimal_move` loop after the moves
    `moves` valued `scores`: it starts at (None, -999) and the incumbent is
    replaced only by a strictly higher score.
   */
  function FirstBest(moves: seq<Index>, scores: seq<int>): (Option<Index>, int)
    requires |moves| == |scores|
  {
    if moves == [] then (None, -999)
    else
      var n := |moves|;
      var incumbent := FirstBest(moves[..n - 1], scores[..n - 1]);
      if scores[n - 1] > incumbent.1 then (Some(moves[n - 1]), scores[n - 1]) else incumbent
  }

  /**
    Over scores that beat the sentinel, the loop ends holding the first move,
    in list order, whose score is the maximum, together with that score.
   */
  lemma {:induction false} FirstBestIsFirstMax(moves: seq<Index>, scores: seq<int>)
    requires |moves| == |scores| > 0
    requires forall k :: 0 <= k < |scores| ==> scores[k] > -999
    ensures exists k :: (0 <= k < |moves| && FirstBest(moves, scores) == (Some(moves[k]), scores[k]) &&
      (forall j :: 0 <= j < |scores| ==> scores[j] <= scores[k]) &&
      (forall j :: 0 <= j < k ==> scores[j] < scores[k]))
  {
    var k := FirstMaxStep(moves, scores);
  }

  /** The induction behind `FirstBestIsFirstMax`, naming the position it finds. */
  lemma {:induction false} FirstMaxStep(moves: seq<Index>, scores: seq<int>) returns (k: nat)
    requires |moves| == |scores| > 0
    requires forall k :: 0 <= k < |scores| ==> scores[k] > -999
    ensures k < |moves| && FirstBest(moves, scores) == (Some(moves[k]), scores[k])
    ensures forall j :: 0 <= j < |scores| ==> scores[j] <= scores[k]
    ensures forall j :: 0 <= j < k ==> scores[j] < scores[k]
  {
    var n := |moves|;
    var ms, ss := moves[..n - 1], scores[..n - 1];
    if n == 1 {
      assert FirstBest(ms, ss) == (None, -999);
      k := 0;
    } else {
      var i := FirstMaxStep(ms, ss);
      assert ss[i] == scores[i] && ms[i] == moves[i];
      if scores[n - 1] > scores[i] {
        k := n - 1;
      } else {
        k := i;
      }
      assert forall j :: 0 <= j < n - 1 ==> ss[j] == scores[j];
    }
  }

  /** O's move chosen by the source's `optimal_move`, None when the board has no blank. */
  function OptimalChoice(b: seq<Cell>): Option<Index>
    requires |b| == 9
  {
    var moves := AvailableMoves(b);
    FirstBest(moves, RootScores(b, moves)).0
  }

  /** Every root value is 0 or a win at most 9 plies away; in particular it beats the sentinel. */
  lemma RootScoresInBand(b: seq<Cell>, moves: seq<Index>)
    requires |b| == 9
    requires forall k :: 0 <= k < |moves| ==> b[moves[k]] == Empty
    ensures forall k :: 0 <= k < |moves| ==> InBand(RootScores(b, moves)[k], 0, 8)
  {
    EmptyCountBound(b);
    forall k | 0 <= k < |moves| ensures InBand(RootScores(b, moves)[k], 0, 8) {
      var child := b[moves[k] := Mark(O)];
      PlaceCountsDown(b, moves[k], Mark(O));
      ScoreBounds(child, false, 0);
      assert RootScores(b, moves)[k] == Score(child, false, 0);
    }
  }

  /**
    A position `k` of the legal moves whose root value is maximal and beats every
    earlier one names a blank cell whose value is maximal and beats every
    lower-numbered blank cell.
   */
  lemma FirstMaxIsLowestBest(b: seq<Cell>, k: nat)
    requires |b| == 9 && k < |AvailableMoves(b)|
    requires var scores := RootScores(b, AvailableMoves(b));
      (forall j :: 0 <= j < |scores| ==> scores[j] <= scores[k]) &&
      (forall j :: 0 <= j < k ==> scores[j] < scores[k])
    ensures var m := AvailableMoves(b)[k];
      b[m] == Empty &&
      (forall m': Index :: b[m'] == Empty ==> RootScore(b, m') <= RootScore(b, m)) &&
      (forall m': Index :: m' < m && b[m'] == Empty ==> RootScore(b, m') < RootScore(b, m))
  {
    var moves := AvailableMoves(b);
    var scores := RootScores(b, moves);
    AvailableMovesAreBlanks(b);
    var m := moves[k];
    forall m': Index | b[m'] == Empty
      ensures RootScore(b, m') <= RootScore(b, m)
      ensures m' < m ==> RootScore(b, m') < RootScore(b, m)
    {
      var j :| 0 <= j < |moves| && moves[j] == m';
      assert scores[j] == RootScore(b, m');
      if j > k {
        assert m < m';
      }
    }
  }

  /**
    The optimal opponent returns None exactly when no cell is blank; otherwise a
    blank cell whose score is maximal, and the lowest-numbered such cell.
   */
  lemma OptimalChoiceIsFirstBest(b: seq<Cell>)
    requires |b| == 9
    ensures OptimalChoice(b).None? <==> IsFull(b)
    ensures OptimalChoice(b).Some? ==>
      var m := OptimalChoice(b).value;
      b[m] == Empty &&
      (forall m': Index :: b[m'] == Empty ==> RootScore(b, m') <= RootScore(b, m)) &&
      (forall m': Index :: m' < m && b[m'] == Empty ==> RootScore(b, m') < RootScore(b, m))
  {
    var moves := AvailableMoves(b);
    FullIffNoMoves(b);
    var scores := RootScores(b, moves);
    if moves != [] {
      RootScoresInBand(b, moves);
      FirstBestIsFirstMax(moves, scores);
      var k :| 0 <= k < |moves| && FirstBest(moves, scores) == (Some(moves[k]), scores[k]) &&
        (forall j :: 0 <= j < |scores| ==> scores[j] <= scores[k]) &&
        (forall j :: 0 <= j < k ==> scores[j] < scores[k]);
      FirstMaxIsLowestBest(b, k);
    } else {
      assert OptimalChoice(b) == None;
    }
  }

  /** Extending the moves by one appends that placement's value to `RootScores`. */
  lemma RootScoresSnoc(b: seq<Cell>, moves: seq<Index>, i: nat)
    requires |b| == 9
    requires forall k :: 0 <= k < |moves| ==> b[moves[k]] == Empty
    requires i < |moves|
    ensures RootScores(b, moves[..i + 1]) == RootScores(b, moves[..i]) + [RootScore(b, moves[i])]
  {
    assert RootScores(b, moves[..i + 1]) == RootScores(b, moves[..i]) + [RootScore(b, moves[i])];
  }

  /**
    The source's `optimal_move` on the board array: O's move chosen by
    `OptimalChoice`, the board returned unchanged.
   */
  method OptimalMove(board: array<Cell>) returns (best: Option<Index>)
    requires board.Length == 9
    modifies board
    ensures board[..] == old(board[..])
    ensures best == OptimalChoice(old(board[..]))
  {
    ghost var b := board[..];
    var bestScore := -999;
    best := None;
    var moves := AvailableMoves(board[..]);
    for i := 0 to |moves|
      invariant board[..] == b
      invariant (best, bestScore) == FirstBest(moves[..i], RootScores(b, moves[..i]))
    {
      var m := moves[i];
      board[m] := Mark(O);
      assert board[..] == b[m := Mark(O)];
      var score := Minimax(board, false, 0);
      board[m] := Empty;
      assert board[..] == b;
      RootScoresSnoc(b, moves, i);
      assert moves[..i + 1][..i] == moves[..i];
      assert (RootScores(b, moves[..i]) + [score])[..i] == RootScores(b, moves[..i]);
      if score > bestScore {
        bestScore := score;
        best := Some(m);
      }
    }
    assert moves[..|moves|] == moves;
  }
}
