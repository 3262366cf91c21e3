/**
  The tic-tac-toe rules shared by the evaluation and training scripts: a board of
  nine cells, each blank (" "), "X" or "O"; the eight winning lines; the winner
  of a board; the legal moves; and the state key that joins the nine symbols.
  The graphical script's integer board is translated into this one (module Gui).
 */
module Board {
  import opened Wrappers

  datatype Player = X | O

  datatype Cell = Empty | Mark(player: Player)

  /** A cell index of the 3x3 grid, row by row. */
  type Index = i: int | 0 <= i < 9

  /** The end of a game as the training script reports it: a winner or a draw ("D"). */
  datatype Outcome = Won(player: Player) | Draw

  /** The one-character symbol a cell contributes to a state key. */
  function Symbol(c: Cell): char {
    match c
    case Empty => ' '
    case Mark(X) => 'X'
    case Mark(O) => 'O'
  }

  /** The role suffix of a role-aware state key. */
  function RoleChar(p: Player): char {
    if p == X then 'X' else 'O'
  }

  /** The three rows, three columns and two diagonals, in the order they are scanned. */
  const Lines: seq<(Index, Index, Index)> :=
    [(0, 1, 2), (3, 4, 5), (6, 7, 8),
     (0, 3, 6), (1, 4, 7), (2, 5, 8),
     (0, 4, 8), (2, 4, 6)]

  /** The three cells of line `l` are equal and not blank. */
  predicate Completes(b: seq<Cell>, l: (Index, Index, Index))
    requires |b| == 9
  {
    b[l.0] == b[l.1] && b[l.1] == b[l.2] && b[l.0] != Empty
  }

  /** A fresh board: nine blanks. */
  function InitialBoard(): (b: seq<Cell>)
    ensures |b| == 9
    ensures forall i :: 0 <= i < 9 ==> b[i] == Empty
  {
    seq(9, _ => Empty)
  }

  /** The owner of the first complete line among `Lines[k..]`, if any. */
  function WinnerFrom(b: seq<Cell>, k: nat): Option<Player>
    requires |b| == 9 && k <= |Lines|
    decreases |Lines| - k
  {
    if k == |Lines| then None
    else if Completes(b, Lines[k]) then Some(b[Lines[k].0].player)
    else WinnerFrom(b, k + 1)
  }

  /** The source's `check_winner`: the lines are scanned in order and the first complete one decides. */
  function Winner(b: seq<Cell>): Option<Player>
    requires |b| == 9
  {
    WinnerFrom(b, 0)
  }

  /** `WinnerFrom` reports None exactly when no line from `k` on is complete. */
  lemma {:induction false} WinnerFromNone(b: seq<Cell>, k: nat)
    requires |b| == 9 && k <= |Lines|
    ensures WinnerFrom(b, k).None? <==> forall j :: k <= j < |Lines| ==> !Completes(b, Lines[j])
    decreases |Lines| - k
  {
    if k < |Lines| && !Completes(b, Lines[k]) {
      WinnerFromNone(b, k + 1);
    }
  }

  /** When `WinnerFrom` reports an owner, `j` is the first complete line from `k` on, and it is theirs. */
  lemma {:induction false} WinnerFromLine(b: seq<Cell>, k: nat) returns (j: nat)
    requires |b| == 9 && k <= |Lines| && WinnerFrom(b, k).Some?
    ensures k <= j < |Lines| && Completes(b, Lines[j]) && b[Lines[j].0] == Mark(WinnerFrom(b, k).value)
    ensures forall i :: k <= i < j ==> !Completes(b, Lines[i])
    decreases |Lines| - k
  {
    if Completes(b, Lines[k]) {
      j := k;
    } else {
      j := WinnerFromLine(b, k + 1);
    }
  }

  /**
    The winner of a board is the owner of the first complete line in scan order,
    and there is none exactly when no line is complete.
   */
  lemma WinnerIsFirstLine(b: seq<Cell>)
    requires |b| == 9
    ensures Winner(b).None? <==> forall j :: 0 <= j < |Lines| ==> !Completes(b, Lines[j])
    ensures Winner(b).Some? ==>
      exists j :: 0 <= j < |Lines| && Completes(b, Lines[j]) && b[Lines[j].0] == Mark(Winner(b).value) &&
        forall i :: 0 <= i < j ==> !Completes(b, Lines[i])
  {
    WinnerFromNone(b, 0);
    if Winner(b).Some? {
      var j := WinnerFromLine(b, 0);
    }
  }

  /** A fresh board has no winner. */
  lemma InitialBoardUndecided()
    ensures Winner(InitialBoard()) == None
  {
    WinnerIsFirstLine(InitialBoard());
  }

  /** The blank cells among the first `n`, in ascending order. */
  function EmptyBefore(b: seq<Cell>, n: nat): (r: seq<Index>)
    requires |b| == 9 && n <= 9
    ensures forall k :: 0 <= k < |r| ==> b[r[k]] == Empty
  {
    if n == 0 then []
    else EmptyBefore(b, n - 1) + (if b[n - 1] == Empty then [n - 1] else [])
  }

  /** The source's `available_moves`: the blank cells, in board order. */
  function AvailableMoves(b: seq<Cell>): (r: seq<Index>)
    requires |b| == 9
    ensures forall k :: 0 <= k < |r| ==> b[r[k]] == Empty
  {
    EmptyBefore(b, 9)
  }

  /** `EmptyBefore(b, n)` lists exactly the blank cells below `n`, strictly ascending. */
  lemma {:induction false} EmptyBeforeIsBlanks(b: seq<Cell>, n: nat)
    requires |b| == 9 && n <= 9
    ensures forall k :: 0 <= k < |EmptyBefore(b, n)| ==> EmptyBefore(b, n)[k] < n
    ensures forall i :: 0 <= i < n && b[i] == Empty ==> i in EmptyBefore(b, n)
    ensures forall j, k :: 0 <= j < k < |EmptyBefore(b, n)| ==> EmptyBefore(b, n)[j] < EmptyBefore(b, n)[k]
  {
    if n > 0 {
      EmptyBeforeIsBlanks(b, n - 1);
    }
  }

  /** The legal moves are exactly the blank cells, each once, in ascending order. */
  lemma AvailableMovesAreBlanks(b: seq<Cell>)
    requires |b| == 9
    ensures forall i: Index :: i in AvailableMoves(b) <==> b[i] == Empty
    ensures forall j, k :: 0 <= j < k < |AvailableMoves(b)| ==> AvailableMoves(b)[j] < AvailableMoves(b)[k]
  {
    EmptyBeforeIsBlanks(b, 9);
  }

  /** The board has no blank cell left. */
  function IsFull(b: seq<Cell>): bool
    requires |b| == 9
  {
    Empty !in b
  }

  /** A board is full exactly when it has no legal move. */
  lemma FullIffNoMoves(b: seq<Cell>)
    requires |b| == 9
    ensures IsFull(b) <==> AvailableMoves(b) == []
    ensures IsFull(b) <==> forall i :: 0 <= i < 9 ==> b[i] != Empty
  {
    AvailableMovesAreBlanks(b);
    var moves := AvailableMoves(b);
    if moves != [] {
      assert b[moves[0]] == Empty;
    }
    if !IsFull(b) {
      var i :| 0 <= i < 9 && b[i] == Empty;
      assert i in moves;
    }
  }

  /**
    The training script's `check_winner`: the owner of a complete line, else a
    draw when no blank is left, else None (the game goes on).
   */
  function Result(b: seq<Cell>): (r: Option<Outcome>)
    requires |b| == 9
    ensures forall p :: r == Some(Won(p)) <==> Winner(b) == Some(p)
    ensures r == Some(Draw) <==> Winner(b) == None && IsFull(b)
    ensures r == None <==> Winner(b) == None && !IsFull(b)
  {
    match Winner(b)
    case Some(p) => Some(Won(p))
    case None => if Empty !in b then Some(Draw) else None
  }

  /** The nine symbols of a board joined into a string. */
  function Join(b: seq<Cell>): (s: string)
    ensures |s| == |b|
    ensures forall i :: 0 <= i < |b| ==> s[i] == Symbol(b[i])
  {
    if b == [] then "" else Join(b[..|b| - 1]) + [Symbol(b[|b| - 1])]
  }

  /** Two boards have the same joined key exactly when they are the same board. */
  lemma JoinInjective(b1: seq<Cell>, b2: seq<Cell>)
    ensures Join(b1) == Join(b2) <==> b1 == b2
  {
    if Join(b1) == Join(b2) {
      assert |b1| == |b2|;
      forall i | 0 <= i < |b1| ensures b1[i] == b2[i] {
        assert Symbol(b1[i]) == Join(b1)[i] == Join(b2)[i] == Symbol(b2[i]);
      }
    }
  }

  /** The player who makes the `k`-th placement (counting from 0): X moves first. */
  function Mover(k: nat): Player {
    if k % 2 == 0 then X else O
  }

  /** The two players alternate. */
  lemma MoverAlternates(k: nat)
    ensures Mover(k + 1) != Mover(k) && Mover(k + 2) == Mover(k)
  {
  }

  /** The board after the placements `moves`, made alternately by X and O from a fresh board. */
  function Replay(moves: seq<Index>): (b: seq<Cell>)
    ensures |b| == 9
  {
    if moves == [] then InitialBoard()
    else Replay(moves[..|moves| - 1])[moves[|moves| - 1] := Mark(Mover(|moves| - 1))]
  }

  /** Every placement of `moves` was on a blank cell of a board that nobody had won yet. */
  predicate LegalGame(moves: seq<Index>) {
    moves == [] ||
    var before := Replay(moves[..|moves| - 1]);
    LegalGame(moves[..|moves| - 1]) && before[moves[|moves| - 1]] == Empty && Winner(before) == None
  }

  /** The number of blank cells: the measure that bounds a game and the search. */
  function EmptyCount(b: seq<Cell>): nat {
    multiset(b)[Empty]
  }

  /** A blank cell's placement removes exactly one blank. */
  lemma PlaceCountsDown(b: seq<Cell>, m: Index, c: Cell)
    requires |b| == 9 && b[m] == Empty && c != Empty
    ensures EmptyCount(b[m := c]) == EmptyCount(b) - 1
  {
  }

  /** A board never has more blanks than cells. */
  lemma {:induction false} EmptyCountBound(b: seq<Cell>)
    ensures EmptyCount(b) <= |b|
  {
    if b != [] {
      assert b == [b[0]] + b[1..];
      EmptyCountBound(b[1..]);
    }
  }

  /** A fresh board has nine blanks. */
  lemma InitialBoardBlanks()
    ensures EmptyCount(InitialBoard()) == 9
  {
    assert InitialBoard() == [Empty, Empty, Empty, Empty, Empty, Empty, Empty, Empty, Empty];
  }

  /** After the placements of a legal game, exactly one blank per placement is gone. */
  lemma {:induction false} ReplayBlanks(moves: seq<Index>)
    requires LegalGame(moves)
    ensures EmptyCount(Replay(moves)) == 9 - |moves|
  {
    if moves == [] {
      InitialBoardBlanks();
    } else {
      var n := |moves|;
      ReplayBlanks(moves[..n - 1]);
      PlaceCountsDown(Replay(moves[..n - 1]), moves[n - 1], Mark(Mover(n - 1)));
    }
  }

  /**
    On a board nobody has won, a mark placed by `p` on a blank cell can only
    complete a line of `p`: the other player cannot become the winner.
   */
  lemma PlacementWinsOnlyForMover(b: seq<Cell>, m: Index, p: Player)
    requires |b| == 9 && b[m] == Empty && Winner(b) == None
    ensures Winner(b[m := Mark(p)]) == None || Winner(b[m := Mark(p)]) == Some(p)
  {
    var b' := b[m := Mark(p)];
    WinnerIsFirstLine(b);
    WinnerIsFirstLine(b');
    forall j | 0 <= j < |Lines| && Completes(b', Lines[j]) ensures b'[Lines[j].0] == Mark(p) {
      assert !Completes(b, Lines[j]);
    }
  }

  /** Replaying one more placement puts the mover's mark on that cell of the previous board. */
  lemma ReplaySnoc(moves: seq<Index>, a: Index)
    ensures Replay(moves + [a]) == Replay(moves)[a := Mark(Mover(|moves|))]
  {
    assert (moves + [a])[..|moves|] == moves;
  }

  /**
    A placement by the side to move on a blank cell of an undecided board extends a
    legal game by one half-move.
   */
  lemma ExtendGame(moves: seq<Index>, a: Index)
    requires LegalGame(moves) && Replay(moves)[a] == Empty && Winner(Replay(moves)) == None
    ensures LegalGame(moves + [a])
  {
    assert (moves + [a])[..|moves|] == moves;
    ReplaySnoc(moves, a);
  }

  /**
    `board[action] = role`: the side to move marks a blank cell of a board
    nobody has won, which extends the game played so far by that half-move.
   */
  method Place(board: array<Cell>, ghost played: seq<Index>, a: Index, role: Player)
    requires board.Length == 9 && board[..] == Replay(played) && LegalGame(played)
    requires Winner(board[..]) == None && board[a] == Empty && role == Mover(|played|)
    modifies board
    ensures board[..] == Replay(played + [a]) && LegalGame(played + [a])
  {
    ExtendGame(played, a);
    board[a] := Mark(role);
  }
}
