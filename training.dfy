/**
  The training script: a role-aware Q-learning agent playing X, trained against
  a random, a self-playing or a minimax O. One episode plays a game to its end;
  after every pass (X's half-move, then O's) that does not end the game both
  half-moves get a small step penalty. When the game ends every remembered move
  gets the outcome's reward, and finally the exploration rate is decayed.
 */
module Training {
  import opened Wrappers
  import opened Board
  import opened Search
  import opened QTable

  /** The learning rate `alpha`. */
  const Alpha: real := 0.3
  /** The discount factor `gamma`. */
  const Gamma: real := 0.9
  /** The exploration rate a fresh run starts from. */
  const EpsilonStart: real := 0.7
  /** The rate below which the exploration rate is no longer decayed. */
  const EpsilonMin: real := 0.01
  /** The per-episode decay factor. */
  const DecayRate: real := 0.9997
  /** The reward of a half-move that does not end the game. */
  const StepPenalty: real := -0.01

  /** Who plays O during an episode. */
  datatype Mode = RandomMode | SelfPlay | MinimaxMode

  /** One remembered half-move: the state it was chosen in, the cell, and the role that chose it. */
  datatype Step = Step(state: string, action: Index, role: Player)

  /** The source's `get_state(board, role)`: the nine symbols followed by the role. */
  function GetState(b: seq<Cell>, role: Player): (s: string)
    requires |b| == 9
    ensures |s| == 10 && s[9] == RoleChar(role)
  {
    Join(b) + [RoleChar(role)]
  }

  /** Two training states are equal exactly when their boards and roles are. */
  lemma GetStateInjective(b1: seq<Cell>, r1: Player, b2: seq<Cell>, r2: Player)
    requires |b1| == 9 && |b2| == 9
    ensures GetState(b1, r1) == GetState(b2, r2) <==> b1 == b2 && r1 == r2
  {
    if GetState(b1, r1) == GetState(b2, r2) {
      assert GetState(b1, r1)[..9] == Join(b1);
      assert GetState(b2, r2)[..9] == Join(b2);
      JoinInjective(b1, b2);
    }
  }

  /** The source's `update_q`: one temporal-difference step on `(s, a)`, the row of `s` created when absent. */
  function Update(q: Table, s: string, a: Index, reward: real, next: string, nextMoves: seq<Index>): Table {
    Set(q, s, a, Td(Alpha, Gamma, Get(q, s, a), reward, NextMax(q, next, nextMoves)))
  }

  /** The terminal reward, from X's point of view: 10 for an X win, -10 for an O win, 0 for a draw. */
  function OutcomeReward(o: Outcome): (r: real)
    ensures r > 0.0 <==> o == Won(X)
    ensures r < 0.0 <==> o == Won(O)
    ensures r == 0.0 <==> o == Draw
  {
    match o
    case Won(X) => 10.0
    case Won(O) => -10.0
    case Draw => 0.0
  }

  /** The table after `update_q(s, a, reward, "", [])` for each remembered move in order. */
  function TerminalFold(q: Table, history: seq<Step>, reward: real): Table {
    if history == [] then q
    else
      var h := history[|history| - 1];
      var before := TerminalFold(q, history[..|history| - 1], reward);
      Update(before, h.state, h.action, reward, "", [])
  }

  /** No (state, action) pair is remembered twice. */
  predicate DistinctPairs(history: seq<Step>) {
    forall i, j :: 0 <= i < j < |history| ==>
      (history[i].state, history[i].action) != (history[j].state, history[j].action)
  }

  /**
    When no pair is remembered twice, the terminal updates move every remembered
    pair one step towards the reward with no future term, and leave every other
    pair as it was.
   */
  lemma {:induction false} TerminalUpdatesEveryStep(q: Table, history: seq<Step>, reward: real)
    requires DistinctPairs(history)
    ensures forall i :: 0 <= i < |history| ==>
      Get(TerminalFold(q, history, reward), history[i].state, history[i].action) ==
      Td(Alpha, Gamma, Get(q, history[i].state, history[i].action), reward, 0.0)
    ensures forall s, a: Index :: (forall i :: 0 <= i < |history| ==> (history[i].state, history[i].action) != (s, a)) ==>
      Get(TerminalFold(q, history, reward), s, a) == Get(q, s, a)
  {
    if history != [] {
      var n := |history|;
      var prefix := history[..n - 1];
      var h := history[n - 1];
      assert forall i :: 0 <= i < n - 1 ==> prefix[i] == history[i];
      TerminalUpdatesEveryStep(q, prefix, reward);
      var before := TerminalFold(q, prefix, reward);
      SetOnlyChangesEntry(before, h.state, h.action, Td(Alpha, Gamma, Get(before, h.state, h.action), reward, 0.0));
    }
  }

  /** The per-episode decay: the rate is multiplied by the factor only while it exceeds the minimum. */
  function Decay(e: real): real {
    if e > EpsilonMin then e * DecayRate else e
  }

  /** The rate after `n` episodes. */
  function DecayAfter(e: real, n: nat): real {
    if n == 0 then e else Decay(DecayAfter(e, n - 1))
  }

  /**
    One decay never raises the rate, leaves a rate at or below the minimum as it
    is, and never takes a rate below `EpsilonMin * DecayRate`.
   */
  lemma DecayStep(e: real)
    requires e >= 0.0
    ensures Decay(e) <= e
    ensures e <= EpsilonMin ==> Decay(e) == e
    ensures e > EpsilonMin ==> Decay(e) < e
    ensures Decay(e) >= if e < EpsilonMin * DecayRate then e else EpsilonMin * DecayRate
  {
    if e > EpsilonMin {
      assert e * DecayRate >= EpsilonMin * DecayRate;
    }
  }

  /**
    Across episodes the rate is non-increasing, it is frozen once at or below the
    minimum, and it never falls below the smaller of its start and
    `EpsilonMin * DecayRate`.
   */
  lemma {:induction false} DecayAfterBounds(e: real, n: nat)
    requires e >= 0.0
    ensures DecayAfter(e, n + 1) <= DecayAfter(e, n) <= e
    ensures e <= EpsilonMin ==> DecayAfter(e, n) == e
    ensures DecayAfter(e, n) >= if e < EpsilonMin * DecayRate then e else EpsilonMin * DecayRate
  {
    if n > 0 {
      DecayAfterBounds(e, n - 1);
    }
    DecayStep(DecayAfter(e, n));
  }

  /** The remembered half-moves of a game played as `moves`: each with the state it was chosen in and its role. */
  function HistoryOf(moves: seq<Index>): (h: seq<Step>)
    ensures |h| == |moves|
  {
    if moves == [] then []
    else
      var n := |moves|;
      HistoryOf(moves[..n - 1]) + [Step(GetState(Replay(moves[..n - 1]), Mover(n - 1)), moves[n - 1], Mover(n - 1))]
  }

  /** The `i`-th remembered half-move was made on the board after the first `i` placements. */
  lemma {:induction false} HistoryAt(moves: seq<Index>, i: nat)
    requires i < |moves|
    ensures HistoryOf(moves)[i] == Step(GetState(Replay(moves[..i]), Mover(i)), moves[i], Mover(i))
  {
    var n := |moves|;
    if i < n - 1 {
      HistoryAt(moves[..n - 1], i);
      assert moves[..n - 1][..i] == moves[..i];
    }
  }

  /** A legal game's prefixes are legal games. */
  lemma {:induction false} LegalPrefix(moves: seq<Index>, i: nat)
    requires LegalGame(moves) && i <= |moves|
    ensures LegalGame(moves[..i])
    decreases |moves|
  {
    if i < |moves| {
      var n := |moves|;
      LegalPrefix(moves[..n - 1], i);
      assert moves[..n - 1][..i] == moves[..i];
    } else {
      assert moves[..i] == moves;
    }
  }

  /**
    In a legal game every remembered state is different, since each board has
    one blank fewer than the one before; so no pair is remembered twice.
   */
  lemma HistoryDistinct(moves: seq<Index>)
    requires LegalGame(moves)
    ensures DistinctPairs(HistoryOf(moves))
  {
    var h := HistoryOf(moves);
    forall i, j | 0 <= i < j < |h| ensures h[i].state != h[j].state {
      HistoryAt(moves, i);
      HistoryAt(moves, j);
      LegalPrefix(moves, i);
      LegalPrefix(moves, j);
      ReplayBlanks(moves[..i]);
      ReplayBlanks(moves[..j]);
      GetStateInjective(Replay(moves[..i]), Mover(i), Replay(moves[..j]), Mover(j));
    }
  }

  /** One more half-move appends the state it was chosen in to the history. */
  lemma HistorySnoc(moves: seq<Index>, a: Index)
    ensures HistoryOf(moves + [a]) == HistoryOf(moves) + [Step(GetState(Replay(moves), Mover(|moves|)), a, Mover(|moves|))]
  {
    assert (moves + [a])[..|moves|] == moves;
  }

  /**
    The step penalties of the pass that ends `moves` (X's half-move and then
    O's): each half-move is updated with reward -0.01 and, as its future, its
    role's state of the board after the pass and that board's moves.
   */
  function PassPenalty(q: Table, moves: seq<Index>): Table
    requires |moves| >= 2
  {
    var n := |moves|;
    var after := Replay(moves);
    var future := AvailableMoves(after);
    var q1 := Update(q, GetState(Replay(moves[..n - 2]), X), moves[n - 2], StepPenalty, GetState(after, X), future);
    Update(q1, GetState(Replay(moves[..n - 1]), O), moves[n - 1], StepPenalty, GetState(after, O), future)
  }

  /** The table after the step penalties of every pass of `moves`, first pass first. */
  function Penalties(q: Table, moves: seq<Index>): Table
    requires |moves| % 2 == 0
    decreases |moves|
  {
    if moves == [] then q else PassPenalty(Penalties(q, moves[..|moves| - 2]), moves)
  }

  /**
    The step penalties touch only remembered pairs: an entry whose (state,
    action) pair no half-move of `moves` was chosen as reads as it did.
   */
  lemma {:induction false} PenaltiesOnlyTouchHistory(q: Table, moves: seq<Index>, s: string, a: Index)
    requires |moves| % 2 == 0
    requires forall i :: 0 <= i < |moves| ==> (HistoryOf(moves)[i].state, HistoryOf(moves)[i].action) != (s, a)
    ensures Get(Penalties(q, moves), s, a) == Get(q, s, a)
    decreases |moves|
  {
    if moves != [] {
      var n := |moves|;
      var init := moves[..n - 2];
      var h := HistoryOf(moves);
      HistoryPrefix(moves, n - 2);
      HistoryAt(moves, n - 2);
      HistoryAt(moves, n - 1);
      PassMovers(n);
      assert forall i :: 0 <= i < n - 2 ==> HistoryOf(init)[i] == h[i];
      PenaltiesOnlyTouchHistory(q, init, s, a);
      assert (h[n - 2].state, h[n - 2].action) != (s, a) && (h[n - 1].state, h[n - 1].action) != (s, a);
      PassPenaltyElsewhere(Penalties(q, init), moves, s, a);
    }
  }

  /** The step penalties of one pass leave every pair other than the pass's two half-moves as it was. */
  lemma PassPenaltyElsewhere(q: Table, moves: seq<Index>, s: string, a: Index)
    requires |moves| >= 2
    requires (GetState(Replay(moves[..|moves| - 2]), X), moves[|moves| - 2]) != (s, a)
    requires (GetState(Replay(moves[..|moves| - 1]), O), moves[|moves| - 1]) != (s, a)
    ensures Get(PassPenalty(q, moves), s, a) == Get(q, s, a)
  {
    var n := |moves|;
    var after := Replay(moves);
    var future := AvailableMoves(after);
    var sX, sO := GetState(Replay(moves[..n - 2]), X), GetState(Replay(moves[..n - 1]), O);
    var q1 := Update(q, sX, moves[n - 2], StepPenalty, GetState(after, X), future);
    SetOnlyChangesEntry(q, sX, moves[n - 2], Td(Alpha, Gamma, Get(q, sX, moves[n - 2]), StepPenalty, NextMax(q, GetState(after, X), future)));
    SetOnlyChangesEntry(q1, sO, moves[n - 1], Td(Alpha, Gamma, Get(q1, sO, moves[n - 1]), StepPenalty, NextMax(q1, GetState(after, O), future)));
  }

  /** The length of the passes before the last one in a game of `n` moves: the largest even number below `n`. */
  function SettledLength(n: nat): (k: nat)
    requires n > 0
    ensures k % 2 == 0 && k < n <= k + 2
  {
    n - 1 - (n - 1) % 2
  }

  /**
    A pass of one or two moves after the passes `before`: the passes before the
    last one of the longer game are `before`, and a full pass adds its step
    penalties to those of `before`.
   */
  lemma PassesExtend(q: Table, before: seq<Index>, after: seq<Index>)
    requires |before| % 2 == 0 && |before| < |after| <= |before| + 2 && after[..|before|] == before
    ensures after[..SettledLength(|after|)] == before
    ensures |after| == |before| + 2 ==> Penalties(q, after) == PassPenalty(Penalties(q, before), after)
  {
    assert SettledLength(|after|) == |before|;
  }

  /** In minimax mode every one of O's moves in `moves` is the optimal opponent's choice. */
  predicate OpponentOptimal(mode: Mode, moves: seq<Index>) {
    moves == [] ||
    var n := |moves|;
    OpponentOptimal(mode, moves[..n - 1]) &&
    (mode == MinimaxMode && Mover(n - 1) == O ==> OptimalChoice(Replay(moves[..n - 1])) == Some(moves[n - 1]))
  }

  /** One more move keeps the opponent optimal when it is X's, or O's optimal choice. */
  lemma OpponentOptimalSnoc(mode: Mode, moves: seq<Index>, a: Index)
    requires OpponentOptimal(mode, moves)
    requires mode == MinimaxMode && Mover(|moves|) == O ==> OptimalChoice(Replay(moves)) == Some(a)
    ensures OpponentOptimal(mode, moves + [a])
  {
    assert (moves + [a])[..|moves|] == moves;
  }

  /** In a game whose opponent was optimal in minimax mode, O's `i`-th move was `optimal_move` of the board before it. */
  lemma {:induction false} OpponentOptimalAt(mode: Mode, moves: seq<Index>, i: nat)
    requires OpponentOptimal(mode, moves) && i < |moves|
    requires mode == MinimaxMode && Mover(i) == O
    ensures OptimalChoice(Replay(moves[..i])) == Some(moves[i])
    decreases |moves|
  {
    var n := |moves|;
    if i < n - 1 {
      OpponentOptimalAt(mode, moves[..n - 1], i);
      assert moves[..n - 1][..i] == moves[..i];
    }
  }

  /** The last pass of a game of an even number of moves is X's half-move and then O's. */
  lemma PassMovers(n: nat)
    requires n >= 2 && n % 2 == 0
    ensures Mover(n - 2) == X && Mover(n - 1) == O
  {
  }

  /** The history of a prefix of a game is the same prefix of the game's history. */
  lemma {:induction false} HistoryPrefix(moves: seq<Index>, k: nat)
    requires k <= |moves|
    ensures HistoryOf(moves[..k]) == HistoryOf(moves)[..k]
    decreases |moves|
  {
    var n := |moves|;
    if k < n {
      HistoryPrefix(moves[..n - 1], k);
      assert moves[..n - 1][..k] == moves[..k];
      assert HistoryOf(moves)[..n - 1] == HistoryOf(moves[..n - 1]);
      assert HistoryOf(moves)[..n - 1][..k] == HistoryOf(moves)[..k];
    } else {
      assert moves[..k] == moves;
    }
  }

  /** The training agent: its Q-table and its exploration rate. */
  class Trainer {
    var q: Table
    var epsilon: real

    /** A run starts from the loaded table (an empty one when there is none) and the start rate. */
    constructor (loaded: Table)
      ensures q == loaded && epsilon == EpsilonStart
    {
      q := loaded;
      epsilon := EpsilonStart;
    }

    /**
      The source's `choose_action` with the draws `roll` (for `random.random()`)
      and `pick` (for `random.choice`): a random legal move when exploring, and
      otherwise the `pick`-th of the moves of maximal value.
     */
    method ChooseAction(state: string, moves: seq<Index>, roll: real, pick: nat) returns (a: Index)
      requires moves != [] && 0.0 <= roll < 1.0
      ensures a in moves
      ensures roll < epsilon ==> a == moves[pick % |moves|]
      ensures roll >= epsilon ==> forall m :: m in moves ==> Get(q, state, m) <= Get(q, state, a)
      ensures roll >= epsilon ==> a == GreedyPick(q, state, moves, pick)
    {
      if roll < epsilon {
        return moves[pick % |moves|];
      }
      a := GreedyPick(q, state, moves, pick);
    }

    /** The source's `update_q`, on the agent's table. */
    method UpdateQ(state: string, action: Index, reward: real, nextState: string, nextMoves: seq<Index>)
      modifies this`q
      ensures q == Update(old(q), state, action, reward, nextState, nextMoves)
    {
      var current := Get(q, state, action);
      var nextMax := NextMax(q, nextState, nextMoves);
      q := Set(q, state, action, current + Alpha * (reward + Gamma * nextMax - current));
    }

    /** The terminal loop: every remembered move is updated with the outcome's reward and no future term. */
    method ApplyTerminal(history: seq<Step>, reward: real)
      modifies this`q
      ensures q == TerminalFold(old(q), history, reward)
    {
      ghost var q0 := q;
      for i := 0 to |history|
        invariant q == TerminalFold(q0, history[..i], reward)
      {
        assert history[..i + 1][..i] == history[..i];
        UpdateQ(history[i].state, history[i].action, reward, "", []);
      }
      assert history[..|history|] == history;
    }

    /** The end-of-episode decay of the exploration rate. */
    method DecayEpsilon()
      modifies this`epsilon
      ensures epsilon == Decay(old(epsilon))
    {
      if epsilon > EpsilonMin {
        epsilon := epsilon * DecayRate;
      }
    }

    /**
      O's reply in the given mode: a random legal move, the optimal opponent's
      move, or the agent's own choice.
     */
    method OpponentMove(mode: Mode, board: array<Cell>, state: string, moves: seq<Index>) returns (a: Index)
      requires board.Length == 9 && moves == AvailableMoves(board[..]) && moves != []
      modifies board
      ensures board[..] == old(board[..]) && a in moves
      ensures mode == MinimaxMode ==> OptimalChoice(old(board[..])) == Some(a)
    {
      match mode
      case RandomMode =>
        var pick: nat :| true;
        a := moves[pick % |moves|];
      case MinimaxMode =>
        var choice := OptimalMove(board);
        OptimalChoiceIsFirstBest(board[..]);
        FullIffNoMoves(board[..]);
        AvailableMovesAreBlanks(board[..]);
        a := choice.value;
      case SelfPlay =>
        var roll: real :| 0.0 <= roll < 1.0;
        var pick: nat :| true;
        a := ChooseAction(state, moves, roll, pick);
    }

    /**
      A half-move of the episode: the side to move (X, the agent, or O as the mode
      says) chooses a legal move in its state and marks it; in minimax mode O's
      move is the optimal opponent's choice.
     */
    method Turn(mode: Mode, board: array<Cell>, ghost played: seq<Index>, role: Player)
      returns (state: string, action: Index)
      requires board.Length == 9 && board[..] == Replay(played) && LegalGame(played)
      requires Result(board[..]) == None && role == Mover(|played|)
      modifies board
      ensures state == GetState(Replay(played), role)
      ensures board[..] == Replay(played + [action]) && LegalGame(played + [action])
      ensures HistoryOf(played + [action]) == HistoryOf(played) + [Step(state, action, role)]
      ensures role == O && mode == MinimaxMode ==> OptimalChoice(Replay(played)) == Some(action)
    {
      FullIffNoMoves(board[..]);
      state := GetState(board[..], role);
      var moves := AvailableMoves(board[..]);
      if role == X {
        var roll: real :| 0.0 <= roll < 1.0;
        var pick: nat :| true;
        action := ChooseAction(state, moves, roll, pick);
      } else {
        action := OpponentMove(mode, board, state, moves);
      }
      AvailableMovesAreBlanks(board[..]);
      HistorySnoc(played, action);
      Place(board, played, action, role);
    }

    /**
      The check after a half-move: when the board is decided (a win or a draw),
      every remembered move gets the terminal update with the outcome's reward,
      starting from the table as it was; otherwise nothing changes.
     */
    method Finish(b: seq<Cell>, history: seq<Step>) returns (done: bool, ghost outcome: Outcome)
      requires |b| == 9
      modifies this`q
      ensures done <==> Result(b).Some?
      ensures done ==> Result(b) == Some(outcome)
      ensures done ==> q == TerminalFold(old(q), history, OutcomeReward(outcome))
      ensures !done ==> q == old(q)
    {
      var winner := Result(b);
      outcome := Draw;
      done := winner.Some?;
      if done {
        outcome := winner.value;
        ApplyTerminal(history, OutcomeReward(winner.value));
      }
    }

    /**
      The end of a pass in which O replied, `moves` being the game so far: a
      decided board gives every remembered move the terminal update; otherwise
      X's and then O's half-move of the pass get the step penalty, each with its
      own role's state of the new board and that board's moves as its future.
     */
    method Settle(ghost moves: seq<Index>, next: seq<Cell>, history: seq<Step>, stateX: string, actionX: Index, stateO: string, actionO: Index)
      returns (done: bool, ghost outcome: Outcome)
      requires |moves| >= 2 && next == Replay(moves)
      requires stateX == GetState(Replay(moves[..|moves| - 2]), X) && actionX == moves[|moves| - 2]
      requires stateO == GetState(Replay(moves[..|moves| - 1]), O) && actionO == moves[|moves| - 1]
      modifies this`q
      ensures done <==> Result(next).Some?
      ensures done ==> Result(next) == Some(outcome)
      ensures done ==> q == TerminalFold(old(q), history, OutcomeReward(outcome))
      ensures !done ==> q == PassPenalty(old(q), moves)
    {
      done, outcome := Finish(next, history);
      if !done {
        UpdateQ(stateX, actionX, StepPenalty, GetState(next, X), AvailableMoves(next));
        UpdateQ(stateO, actionO, StepPenalty, GetState(next, O), AvailableMoves(next));
      }
    }

    /**
      The first half of a pass: X (the agent) moves; a game that ends gets the
      terminal update of every remembered move, and otherwise the table is
      unchanged and O is to move.
     */
    method AgentHalf(mode: Mode, board: array<Cell>, ghost played: seq<Index>, history: seq<Step>)
      returns (done: bool, ghost played': seq<Index>, history': seq<Step>, stateX: string, actionX: Index, ghost outcome: Outcome)
      requires board.Length == 9 && board[..] == Replay(played) && LegalGame(played)
      requires Result(board[..]) == None && Mover(|played|) == X && history == HistoryOf(played)
      requires OpponentOptimal(mode, played)
      modifies board, this`q
      ensures board[..] == Replay(played') && LegalGame(played') && history' == HistoryOf(played')
      ensures OpponentOptimal(mode, played')
      ensures played' == played + [actionX] && stateX == GetState(Replay(played), X)
      ensures done ==> Result(board[..]) == Some(outcome)
      ensures done ==> q == TerminalFold(old(q), history', OutcomeReward(outcome))
      ensures !done ==> Result(board[..]) == None && Mover(|played'|) == O && q == old(q)
    {
      stateX, actionX := Turn(mode, board, played, X);
      history' := history + [Step(stateX, actionX, X)];
      played' := played + [actionX];
      OpponentOptimalSnoc(mode, played, actionX);
      MoverAlternates(|played|);
      done, outcome := Finish(board[..], history');
    }

    /**
      One pass of the episode loop: X (the agent) moves (`AgentHalf`) and, unless
      that ends the game, O replies (`Reply`). A game that ends gets the terminal
      update of every remembered move from the table the pass started with; a
      game that goes on gets the pass's step penalties.
     */
    method Round(mode: Mode, board: array<Cell>, ghost played: seq<Index>, history: seq<Step>)
      returns (done: bool, ghost played': seq<Index>, history': seq<Step>, ghost outcome: Outcome)
      requires board.Length == 9 && board[..] == Replay(played) && LegalGame(played)
      requires Result(board[..]) == None && Mover(|played|) == X && history == HistoryOf(played)
      requires OpponentOptimal(mode, played)
      modifies board, this`q
      ensures board[..] == Replay(played') && LegalGame(played') && history' == HistoryOf(played')
      ensures OpponentOptimal(mode, played')
      ensures |played| < |played'| <= |played| + 2 && played'[..|played|] == played
      ensures done ==> Result(board[..]) == Some(outcome)
      ensures done ==> q == TerminalFold(old(q), history', OutcomeReward(outcome))
      ensures !done ==> Result(board[..]) == None && Mover(|played'|) == X
      ensures !done ==> |played'| == |played| + 2 && q == PassPenalty(old(q), played')
    {
      var stateX, actionX;
      done, played', history', stateX, actionX, outcome := AgentHalf(mode, board, played, history);
      assert played'[..|played|] == played;
      if !done {
        ghost var half := played';
        done, played', history', outcome := Reply(mode, board, played', history', stateX, actionX);
        assert played'[..|played|] == played by {
          assert played'[..|played|] == half[..|played|];
        }
      }
    }

    /**
      The second half of a pass: O replies; a game that ends gets the terminal
      update of every remembered move, and otherwise X's and O's half-moves get
      the step penalty, with the new board's states and moves as their future.
     */
    method Reply(mode: Mode, board: array<Cell>, ghost played: seq<Index>, history: seq<Step>, stateX: string, actionX: Index)
      returns (done: bool, ghost played': seq<Index>, history': seq<Step>, ghost outcome: Outcome)
      requires board.Length == 9 && board[..] == Replay(played) && LegalGame(played)
      requires Result(board[..]) == None && Mover(|played|) == O && history == HistoryOf(played)
      requires OpponentOptimal(mode, played)
      requires |played| > 0 && actionX == played[|played| - 1] && stateX == GetState(Replay(played[..|played| - 1]), X)
      modifies board, this`q
      ensures board[..] == Replay(played') && LegalGame(played') && history' == HistoryOf(played')
      ensures OpponentOptimal(mode, played')
      ensures |played'| == |played| + 1 && played'[..|played|] == played
      ensures done ==> Result(board[..]) == Some(outcome)
      ensures done ==> q == TerminalFold(old(q), history', OutcomeReward(outcome))
      ensures !done ==> Result(board[..]) == None && Mover(|played'|) == X
      ensures !done ==> q == PassPenalty(old(q), played')
    {
      var stateO, actionO := Turn(mode, board, played, O);
      history' := history + [Step(stateO, actionO, O)];
      played' := played + [actionO];
      OpponentOptimalSnoc(mode, played, actionO);
      assert Mover(|played'|) == X by {
        MoverAlternates(|played|);
      }
      assert played'[..|played|] == played && played'[..|played'| - 2] == played[..|played| - 1];
      done, outcome := Settle(played', board[..], history', stateX, actionX, stateO, actionO);
    }

    /**
      The episode's game, played to its end from a fresh board with X, the agent,
      moving first: the game is legal, ends in `outcome`, and in minimax mode
      every O move in it is the optimal one. The table ends as the step penalties
      of every pass before the last one, applied to the starting table, followed
      by the terminal update of every remembered move with the outcome's reward.
     */
    method PlayEpisode(mode: Mode) returns (ghost played: seq<Index>, ghost outcome: Outcome)
      modifies this`q
      ensures LegalGame(played) && Result(Replay(played)) == Some(outcome)
      ensures OpponentOptimal(mode, played)
      ensures |played| > 0
      ensures q == TerminalFold(Penalties(old(q), played[..SettledLength(|played|)]), HistoryOf(played), OutcomeReward(outcome))
    {
      var board := new Cell[9](_ => Empty);
      var history: seq<Step> := [];
      played := [];
      ghost var q0 := q;
      assert board[..] == InitialBoard();
      InitialBoardUndecided();
      var done := false;
      outcome := Draw;
      while !done
        invariant board[..] == Replay(played) && LegalGame(played) && history == HistoryOf(played)
        invariant OpponentOptimal(mode, played)
        invariant !done ==> Result(board[..]) == None && Mover(|played|) == X
        invariant !done ==> |played| % 2 == 0 && q == Penalties(q0, played)
        invariant done ==> Result(board[..]) == Some(outcome) && |played| > 0
        invariant done ==> q == TerminalFold(Penalties(q0, played[..SettledLength(|played|)]), history, OutcomeReward(outcome))
        decreases !done, 9 - |played|
      {
        ReplayBlanks(played);
        ghost var before := played;
        done, played, history, outcome := Round(mode, board, played, history);
        PassesExtend(q0, before, played);
        ReplayBlanks(played);
      }
    }

    /**
      One training episode (the source's episode body and the decay after it):
      the game of `PlayEpisode`, in which no move is remembered twice, and then
      one decay of the rate.
     */
    method RunEpisode(mode: Mode) returns (ghost played: seq<Index>, ghost outcome: Outcome)
      modifies this`q, this`epsilon
      ensures LegalGame(played) && Result(Replay(played)) == Some(outcome)
      ensures OpponentOptimal(mode, played)
      ensures |played| > 0
      ensures q == TerminalFold(Penalties(old(q), played[..SettledLength(|played|)]), HistoryOf(played), OutcomeReward(outcome))
      ensures DistinctPairs(HistoryOf(played))
      ensures epsilon == Decay(old(epsilon))
    {
      played, outcome := PlayEpisode(mode);
      HistoryDistinct(played);
      DecayEpsilon();
    }
  }
}
