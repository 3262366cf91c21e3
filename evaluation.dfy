/**
  The evaluation script: the trained table plays X greedily against a random
  or a minimax O for a number of games, and the wins, losses and draws are
  counted. The table is only read here.
 */
module Evaluation {
  import opened Wrappers
  import opened Board
  import opened Search
  import opened QTable
  import Training

  /**
    `is_role_aware`: a table whose first key (in the dictionary's insertion
    order `keys`) has ten characters holds role-aware states; an empty table is
    taken to be role-aware.
   */
  function IsRoleAware(keys: seq<string>): (r: bool)
    ensures keys == [] ==> r
    ensures keys != [] ==> (r <==> |keys[0]| == 10)
  {
    if keys == [] then true else |keys[0]| == 10
  }

  /**
    A table written by the training agent (whose keys are board and role) is
    detected as role-aware, and a non-empty table written by the graphical game
    (whose keys are the board alone) is not.
   */
  lemma DetectsKeyFormat(keys: seq<string>, boards: seq<seq<Cell>>, roles: seq<Player>)
    requires |boards| == |keys| && |roles| == |keys|
    requires forall i :: 0 <= i < |keys| ==> |boards[i]| == 9
    ensures (forall i :: 0 <= i < |keys| ==> keys[i] == Training.GetState(boards[i], roles[i])) ==> IsRoleAware(keys)
    ensures (forall i :: 0 <= i < |keys| ==> keys[i] == Join(boards[i])) && keys != [] ==> !IsRoleAware(keys)
  {
  }

  /** `get_state`: the nine symbols, followed by the role when the table is role-aware. */
  function GetState(b: seq<Cell>, role: Player, roleAware: bool): (s: string)
    requires |b| == 9
    ensures roleAware ==> s == Training.GetState(b, role)
    ensures !roleAware ==> |s| == 9 && s == Join(b)
  {
    if roleAware then Join(b) + [RoleChar(role)] else Join(b)
  }

  /** For a fixed role and key format, two boards have the same state exactly when they are equal. */
  lemma GetStateInjective(b1: seq<Cell>, b2: seq<Cell>, role: Player, roleAware: bool)
    requires |b1| == 9 && |b2| == 9
    ensures GetState(b1, role, roleAware) == GetState(b2, role, roleAware) <==> b1 == b2
  {
    if roleAware {
      Training.GetStateInjective(b1, role, b2, role);
    } else {
      JoinInjective(b1, b2);
    }
  }

  /**
    Python's `max(moves, key=...)` with the looked-up values as the key: a later
    move replaces the incumbent only when its value is strictly larger.
   */
  function FirstArgMax(q: Table, s: string, moves: seq<Index>): (a: Index)
    requires moves != []
    ensures a in moves
    ensures forall m :: m in moves ==> Get(q, s, m) <= Get(q, s, a)
  {
    if |moves| == 1 then moves[0]
    else
      var prev := FirstArgMax(q, s, moves[..|moves| - 1]);
      var last := moves[|moves| - 1];
      assert forall m :: m in moves ==> m in moves[..|moves| - 1] || m == last;
      if Get(q, s, last) > Get(q, s, prev) then last else prev
  }

  /** The position of the chosen move: every move listed before it has a strictly smaller value. */
  lemma {:induction false} FirstArgMaxPosition(q: Table, s: string, moves: seq<Index>) returns (k: nat)
    requires moves != []
    ensures k < |moves| && moves[k] == FirstArgMax(q, s, moves)
    ensures forall j :: 0 <= j < k ==> Get(q, s, moves[j]) < Get(q, s, moves[k])
  {
    if |moves| == 1 {
      k := 0;
    } else {
      var init := moves[..|moves| - 1];
      var k' := FirstArgMaxPosition(q, s, init);
      var last := moves[|moves| - 1];
      var prev := FirstArgMax(q, s, init);
      if Get(q, s, last) > Get(q, s, prev) {
        k := |moves| - 1;
        assert FirstArgMax(q, s, moves) == last;
        forall j | 0 <= j < k ensures Get(q, s, moves[j]) < Get(q, s, moves[k]) {
          assert moves[j] == init[j] && init[j] in init;
        }
      } else {
        k := k';
        assert FirstArgMax(q, s, moves) == prev;
        assert init[k] == moves[k];
        assert forall j :: 0 <= j < k ==> init[j] == moves[j];
      }
    }
  }

  /**
    The evaluation's `choose_action` with the draw `pick` for `random.choice`: a
    random legal move in a state the table does not know, and otherwise the
    first legal move of maximal value.
   */
  function ChooseAction(q: Table, state: string, moves: seq<Index>, pick: nat): (a: Index)
    requires moves != []
    ensures a in moves
    ensures state !in q ==> a == moves[pick % |moves|]
    ensures state in q ==> a == FirstArgMax(q, state, moves)
    ensures state in q ==> forall m :: m in moves ==> Get(q, state, m) <= Get(q, state, a)
  {
    if state !in q then moves[pick % |moves|] else FirstArgMax(q, state, moves)
  }

  /**
    `a`, played as move number `ply` on board `b`, is the move the evaluation's
    policy makes there: X plays the first legal move of maximal value in a state
    the table knows, and O plays `optimal_move`'s choice against "Smart".
    Anywhere else the policy plays a random legal move, and any move qualifies.
   */
  predicate PolicyMove(opponent: string, q: Table, roleAware: bool, b: seq<Cell>, ply: nat, a: Index)
    requires |b| == 9
  {
    if Mover(ply) == X then
      var st := GetState(b, X, roleAware);
      st in q && AvailableMoves(b) != [] ==> a == FirstArgMax(q, st, AvailableMoves(b))
    else
      opponent == "Smart" ==> OptimalChoice(b) == Some(a)
  }

  /** Every move of the game `moves` is the policy's move on the board before it. */
  predicate PlayedByPolicy(opponent: string, q: Table, roleAware: bool, moves: seq<Index>) {
    moves == [] ||
    var n := |moves|;
    PlayedByPolicy(opponent, q, roleAware, moves[..n - 1]) &&
    PolicyMove(opponent, q, roleAware, Replay(moves[..n - 1]), n - 1, moves[n - 1])
  }

  /** A game played by the policy, extended by the policy's next move, is still played by the policy. */
  lemma PolicySnoc(opponent: string, q: Table, roleAware: bool, moves: seq<Index>, a: Index)
    requires PlayedByPolicy(opponent, q, roleAware, moves)
    requires PolicyMove(opponent, q, roleAware, Replay(moves), |moves|, a)
    ensures PlayedByPolicy(opponent, q, roleAware, moves + [a])
  {
    assert (moves + [a])[..|moves|] == moves;
  }

  /** In a game played by the policy, the `i`-th move is the policy's move on the board after the first `i`. */
  lemma {:induction false} PlayedByPolicyAt(opponent: string, q: Table, roleAware: bool, moves: seq<Index>, i: nat)
    requires PlayedByPolicy(opponent, q, roleAware, moves) && i < |moves|
    ensures PolicyMove(opponent, q, roleAware, Replay(moves[..i]), i, moves[i])
    decreases |moves|
  {
    var n := |moves|;
    var init := moves[..n - 1];
    if i < n - 1 {
      PlayedByPolicyAt(opponent, q, roleAware, init, i);
      assert init[..i] == moves[..i] && init[i] == moves[i];
    } else {
      assert init == moves[..i];
    }
  }

  /**
    The number of games `test_agent` plays: the requested number, or when none
    is requested 100000 against the random opponent, 1 against the minimax one
    and 10000 otherwise.
   */
  function GamesFor(opponent: string, requested: Option<int>): (n: int)
    ensures requested.Some? ==> n == requested.value
    ensures requested.None? ==> n > 0
    ensures requested.None? && opponent == "Random" ==> n == 100000
    ensures requested.None? && opponent == "Smart" ==> n == 1
    ensures requested.None? && opponent != "Random" && opponent != "Smart" ==> n == 10000
  {
    match requested
    case Some(n) => n
    case None => if opponent == "Random" then 100000 else if opponent == "Smart" then 1 else 10000
  }

  /** How often `o` occurs in `xs`. */
  function Count(xs: seq<Outcome>, o: Outcome): nat {
    if xs == [] then 0 else Count(xs[..|xs| - 1], o) + (if xs[|xs| - 1] == o then 1 else 0)
  }

  /** Every game ends in exactly one of a win, a loss and a draw: the three counts add up to the games. */
  lemma {:induction false} CountsPartition(xs: seq<Outcome>)
    ensures Count(xs, Won(X)) + Count(xs, Won(O)) + Count(xs, Draw) == |xs|
  {
    if xs != [] {
      CountsPartition(xs[..|xs| - 1]);
      match xs[|xs| - 1] {
        case Won(p) => assert p == X || p == O;
        case Draw =>
      }
    }
  }

  /**
    O's move: the minimax opponent's optimal move against "Smart", a random
    legal move against any other opponent. The board has a blank cell, so the
    source's fallback for an optimal move of None cannot fire.
   */
  method OpponentMove(opponent: string, board: array<Cell>) returns (a: Index)
    requires board.Length == 9 && AvailableMoves(board[..]) != []
    modifies board
    ensures board[..] == old(board[..]) && board[a] == Empty
    ensures opponent == "Smart" ==> OptimalChoice(old(board[..])) == Some(a)
  {
    var oppMoves := AvailableMoves(board[..]);
    var pick: nat :| true;
    if opponent == "Smart" {
      var choice := OptimalMove(board);
      FullIffNoMoves(board[..]);
      OptimalChoiceIsFirstBest(board[..]);
      if choice.None? {
        assert false;
      }
      a := choice.value;
    } else {
      a := oppMoves[pick % |oppMoves|];
    }
  }

  /**
    The agent's half-move: `choose_action` on X's state of the board, then the
    mark. The board has a blank cell, so the source's `if not moves: break`
    cannot fire; in a state the table knows the move is the first legal move of
    maximal value, and X's mark can only make X the winner.
   */
  method AgentTurn(ghost opponent: string, q: Table, roleAware: bool, board: array<Cell>, ghost played: seq<Index>) returns (action: Index)
    requires board.Length == 9 && board[..] == Replay(played) && LegalGame(played)
    requires Result(board[..]) == None && Mover(|played|) == X
    requires PlayedByPolicy(opponent, q, roleAware, played)
    modifies board
    ensures board[..] == Replay(played + [action]) && LegalGame(played + [action])
    ensures var b := Replay(played); var st := GetState(b, X, roleAware);
      AvailableMoves(b) != [] && (st in q ==> action == FirstArgMax(q, st, AvailableMoves(b)))
    ensures PlayedByPolicy(opponent, q, roleAware, played + [action])
    ensures Winner(board[..]) == None || Winner(board[..]) == Some(X)
  {
    var moves := AvailableMoves(board[..]);
    FullIffNoMoves(board[..]);
    if moves == [] {
      assert false;
    }
    var pick: nat :| true;
    action := ChooseAction(q, GetState(board[..], X, roleAware), moves, pick);
    AvailableMovesAreBlanks(board[..]);
    PlacementWinsOnlyForMover(board[..], action, X);
    PolicySnoc(opponent, q, roleAware, played, action);
    Place(board, played, action, X);
  }

  /**
    One pass of the game loop: X (the agent) moves; a win for X or a full board
    ends the game, and otherwise O replies (`Reply`). Both moves are the policy's.
   */
  method Round(opponent: string, q: Table, roleAware: bool, board: array<Cell>, ghost played: seq<Index>)
    returns (done: bool, outcome: Outcome, ghost played': seq<Index>)
    requires board.Length == 9 && board[..] == Replay(played) && LegalGame(played)
    requires Result(board[..]) == None && Mover(|played|) == X
    requires PlayedByPolicy(opponent, q, roleAware, played)
    modifies board
    ensures board[..] == Replay(played') && LegalGame(played')
    ensures |played| < |played'| <= |played| + 2 && played'[..|played|] == played
    ensures PlayedByPolicy(opponent, q, roleAware, played')
    ensures done ==> Result(board[..]) == Some(outcome)
    ensures !done ==> Result(board[..]) == None && Mover(|played'|) == X
  {
    var action := AgentTurn(opponent, q, roleAware, board, played);
    played' := played + [action];
    var winner := Winner(board[..]);
    if winner == Some(X) {
      return true, Won(X), played';
    }
    if IsFull(board[..]) {
      return true, Draw, played';
    }
    MoverAlternates(|played|);
    ghost var half := played';
    var reply;
    done, outcome, reply, played' := Reply(opponent, q, roleAware, board, played');
    assert played'[..|played|] == played by {
      assert played'[..|played|] == half[..|played|];
    }
  }

  /**
    O's half of a pass: O's move (`optimal_move`'s choice against "Smart"),
    then a win for O or a full board ends the game.
   */
  method Reply(opponent: string, ghost q: Table, ghost roleAware: bool, board: array<Cell>, ghost played: seq<Index>)
    returns (done: bool, outcome: Outcome, action: Index, ghost played': seq<Index>)
    requires board.Length == 9 && board[..] == Replay(played) && LegalGame(played)
    requires Result(board[..]) == None && Mover(|played|) == O
    requires PlayedByPolicy(opponent, q, roleAware, played)
    modifies board
    ensures played' == played + [action]
    ensures opponent == "Smart" ==> OptimalChoice(Replay(played)) == Some(action)
    ensures PlayedByPolicy(opponent, q, roleAware, played')
    ensures board[..] == Replay(played') && LegalGame(played')
    ensures done ==> Result(board[..]) == Some(outcome)
    ensures !done ==> Result(board[..]) == None && Mover(|played'|) == X
  {
    FullIffNoMoves(board[..]);
    if AvailableMoves(board[..]) == [] {
      assert false;
    }
    action := OpponentMove(opponent, board);
    PolicySnoc(opponent, q, roleAware, played, action);
    PlacementWinsOnlyForMover(board[..], action, O);
    Place(board, played, action, O);
    played' := played + [action];
    assert Mover(|played'|) == X by {
      MoverAlternates(|played|);
    }
    var winner := Winner(board[..]);
    if winner == Some(O) {
      return true, Won(O), action, played';
    }
    if IsFull(board[..]) {
      return true, Draw, action, played';
    }
    return false, Draw, action, played';
  }

  /**
    One evaluation game from a fresh board, X (the agent) moving first: the game
    played is legal, every mark going on a blank cell of a board nobody had
    won, every move is the policy's, and it ends in `outcome`.
   */
  method PlayGame(opponent: string, q: Table, roleAware: bool) returns (outcome: Outcome, ghost played: seq<Index>)
    ensures LegalGame(played) && Result(Replay(played)) == Some(outcome)
    ensures PlayedByPolicy(opponent, q, roleAware, played)
  {
    var board := new Cell[9](_ => Empty);
    played := [];
    assert board[..] == InitialBoard();
    InitialBoardUndecided();
    var done := false;
    outcome := Draw;
    while !done
      invariant board[..] == Replay(played) && LegalGame(played)
      invariant PlayedByPolicy(opponent, q, roleAware, played)
      invariant !done ==> Result(board[..]) == None && Mover(|played|) == X
      invariant done ==> Result(board[..]) == Some(outcome)
      decreases !done, 9 - |played|
    {
      ReplayBlanks(played);
      done, outcome, played := Round(opponent, q, roleAware, board, played);
      ReplayBlanks(played);
    }
  }

  /** Each game of `played` is legal, played by the policy, and ends in the outcome at the same position. */
  predicate GamesPlayed(opponent: string, q: Table, roleAware: bool, played: seq<seq<Index>>, outcomes: seq<Outcome>) {
    |played| == |outcomes| &&
    (forall i :: 0 <= i < |played| ==> LegalGame(played[i]) && Result(Replay(played[i])) == Some(outcomes[i])) &&
    (forall i :: 0 <= i < |played| ==> PlayedByPolicy(opponent, q, roleAware, played[i]))
  }

  /** One more game, legal, played by the policy and ending in `outcome`, keeps the record of the games. */
  lemma GamesPlayedSnoc(opponent: string, q: Table, roleAware: bool, played: seq<seq<Index>>, outcomes: seq<Outcome>,
                        moves: seq<Index>, outcome: Outcome)
    requires GamesPlayed(opponent, q, roleAware, played, outcomes)
    requires LegalGame(moves) && Result(Replay(moves)) == Some(outcome) && PlayedByPolicy(opponent, q, roleAware, moves)
    ensures GamesPlayed(opponent, q, roleAware, played + [moves], outcomes + [outcome])
  {
  }

  /** One more outcome adds one to its own count and nothing to the others. */
  lemma CountSnoc(xs: seq<Outcome>, x: Outcome, o: Outcome)
    ensures Count(xs + [x], o) == Count(xs, o) + (if x == o then 1 else 0)
  {
    assert (xs + [x])[..|xs|] == xs;
  }

  /**
    `test_agent`: the games are played one after another and each one adds one
    to exactly one counter, so the three counters count the outcomes and add up
    to the number of games played (none for a negative number). `keys` are the
    table's keys in its insertion order, from which the key format is detected,
    and every game is played by the policy in that format.
   */
  method TestAgent(opponent: string, requested: Option<int>, q: Table, keys: seq<string>)
    returns (wins: nat, losses: nat, draws: nat, games: int, ghost outcomes: seq<Outcome>, ghost played: seq<seq<Index>>)
    requires forall k :: k in keys <==> k in q
    ensures games == GamesFor(opponent, requested)
    ensures |outcomes| == |played| == (if games > 0 then games else 0)
    ensures forall i :: 0 <= i < |played| ==> LegalGame(played[i]) && Result(Replay(played[i])) == Some(outcomes[i])
    ensures forall i :: 0 <= i < |played| ==> PlayedByPolicy(opponent, q, IsRoleAware(keys), played[i])
    ensures wins == Count(outcomes, Won(X)) && losses == Count(outcomes, Won(O)) && draws == Count(outcomes, Draw)
    ensures wins + losses + draws == |outcomes|
  {
    games := GamesFor(opponent, requested);
    var roleAware := IsRoleAware(keys);
    wins, losses, draws := 0, 0, 0;
    outcomes, played := [], [];
    var rounds := if games > 0 then games else 0;
    for game := 0 to rounds
      invariant |outcomes| == game
      invariant GamesPlayed(opponent, q, roleAware, played, outcomes)
      invariant wins == Count(outcomes, Won(X)) && losses == Count(outcomes, Won(O)) && draws == Count(outcomes, Draw)
    {
      var outcome, moves := PlayGame(opponent, q, roleAware);
      GamesPlayedSnoc(opponent, q, roleAware, played, outcomes, moves, outcome);
      CountSnoc(outcomes, outcome, Won(X));
      CountSnoc(outcomes, outcome, Won(O));
      CountSnoc(outcomes, outcome, Draw);
      match outcome {
        case Won(X) => wins := wins + 1;
        case Won(O) => losses := losses + 1;
        case Draw => draws := draws + 1;
      }
      outcomes, played := outcomes + [outcome], played + [moves];
    }
    CountsPartition(outcomes);
  }
}
