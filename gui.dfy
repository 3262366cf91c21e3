/**
  The graphical game: the agent plays X (1) against a human O (-1) on a board
  of integers, 0 being a blank cell. It translates its board into the training
  format to form state keys (the nine symbols, no role), picks its moves
  epsilon-greedily from the shared table, and when a game ends walks its
  remembered moves backwards, giving the outcome's reward to the last one only.
 */
module Gui {
  import opened Wrappers
  import opened Board
  import opened QTable

  /** The learning rate `alpha` of the graphical game. */
  const Alpha: real := 0.5
  /** The discount factor `gamma`. */
  const Gamma: real := 0.9
  /** The exploration rate, which the graphical game never changes. */
  const Epsilon: real := 0.2

  /** A cell of the graphical board: 1 for the agent (X), -1 for the human (O), 0 for a blank. */
  type GuiCell = c: int | -1 <= c <= 1

  /** The mapping `{0: " ", 1: "X", -1: "O"}` of one cell. */
  function ToCell(c: GuiCell): Cell {
    if c == 0 then Empty else if c == 1 then Mark(X) else Mark(O)
  }

  /** The inverse mapping, from the training format back to integers. */
  function FromCell(c: Cell): GuiCell {
    match c
    case Empty => 0
    case Mark(X) => 1
    case Mark(O) => -1
  }

  /** `convert_to_training_format`: the board, cell by cell, in the training format. */
  function Convert(b: seq<GuiCell>): (r: seq<Cell>)
    ensures |r| == |b|
    ensures forall i :: 0 <= i < |b| ==> r[i] == ToCell(b[i])
  {
    seq(|b|, i requires 0 <= i < |b| => ToCell(b[i]))
  }

  /** A board in the training format, cell by cell, as integers. */
  function Unconvert(b: seq<Cell>): (r: seq<GuiCell>)
    ensures |r| == |b|
    ensures forall i :: 0 <= i < |b| ==> r[i] == FromCell(b[i])
  {
    seq(|b|, i requires 0 <= i < |b| => FromCell(b[i]))
  }

  /** The translation loses nothing: it is undone by the inverse mapping, in both directions. */
  lemma ConvertRoundTrip(b: seq<GuiCell>, c: seq<Cell>)
    ensures Unconvert(Convert(b)) == b
    ensures Convert(Unconvert(c)) == c
  {
    forall i | 0 <= i < |b| ensures Unconvert(Convert(b))[i] == b[i] {
      assert FromCell(ToCell(b[i])) == b[i];
    }
    forall i | 0 <= i < |c| ensures Convert(Unconvert(c))[i] == c[i] {
      match c[i]
      case Empty =>
      case Mark(p) => assert p == X || p == O;
    }
  }

  /** A cell is blank on the graphical board exactly when it is blank in the training format. */
  lemma ConvertBlanks(b: seq<GuiCell>)
    ensures forall i :: 0 <= i < |b| ==> (b[i] == 0 <==> Convert(b)[i] == Empty)
    ensures 0 in b <==> Empty in Convert(b)
  {
    if Empty in Convert(b) {
      var i :| 0 <= i < |b| && Convert(b)[i] == Empty;
      assert b[i] == 0;
    }
  }

  /** The graphical game's `get_state`: the joined training-format symbols, without a role. */
  function GetState(b: seq<GuiCell>): (s: string)
    ensures |s| == |b|
  {
    Join(Convert(b))
  }

  /** Two graphical boards have the same state exactly when they are the same board. */
  lemma GetStateInjective(b1: seq<GuiCell>, b2: seq<GuiCell>)
    ensures GetState(b1) == GetState(b2) <==> b1 == b2
  {
    JoinInjective(Convert(b1), Convert(b2));
    ConvertRoundTrip(b1, []);
    ConvertRoundTrip(b2, []);
  }

  /** The value of the first complete line among `Lines[k..]` (1 or -1), if any. */
  function LineValueFrom(b: seq<GuiCell>, k: nat): Option<int>
    requires |b| == 9 && k <= |Lines|
    decreases |Lines| - k
  {
    if k == |Lines| then None
    else
      var l := Lines[k];
      if b[l.0] == b[l.1] && b[l.1] == b[l.2] && b[l.0] != 0 then Some(b[l.0])
      else LineValueFrom(b, k + 1)
  }

  /**
    The graphical game's `check_winner`: the value of the first complete line,
    else 0 when no blank is left, else None.
   */
  function CheckWinner(b: seq<GuiCell>): Option<int>
    requires |b| == 9
  {
    match LineValueFrom(b, 0)
    case Some(v) => Some(v)
    case None => if 0 !in b then Some(0) else None
  }

  /** The training format's result written in the graphical game's integers. */
  function Encode(r: Option<Outcome>): Option<int> {
    match r
    case None => None
    case Some(Won(p)) => Some(FromCell(Mark(p)))
    case Some(Draw) => Some(0)
  }

  /** The line scan on integers finds the same line's owner as the scan in the training format. */
  lemma {:induction false} LineValueAgrees(b: seq<GuiCell>, k: nat)
    requires |b| == 9 && k <= |Lines|
    ensures LineValueFrom(b, k) == match WinnerFrom(Convert(b), k) case None => None case Some(p) => Some(FromCell(Mark(p)))
    decreases |Lines| - k
  {
    if k < |Lines| {
      var c := Convert(b);
      var l := Lines[k];
      assert Completes(c, l) <==> b[l.0] == b[l.1] && b[l.1] == b[l.2] && b[l.0] != 0 by {
        ConvertRoundTrip(b, []);
        assert FromCell(c[l.0]) == b[l.0] && FromCell(c[l.1]) == b[l.1] && FromCell(c[l.2]) == b[l.2];
      }
      if !Completes(c, l) {
        LineValueAgrees(b, k + 1);
      }
    }
  }

  /**
    `check_winner` reports what the training rules say about the translated
    board: 1 or -1 for the owner of the first complete line, 0 for a draw and
    None while the game goes on.
   */
  lemma CheckWinnerAgrees(b: seq<GuiCell>)
    requires |b| == 9
    ensures CheckWinner(b) == Encode(Result(Convert(b)))
    ensures CheckWinner(b) == Some(1) <==> Winner(Convert(b)) == Some(X)
    ensures CheckWinner(b) == Some(-1) <==> Winner(Convert(b)) == Some(O)
    ensures CheckWinner(b) == Some(0) <==> Winner(Convert(b)) == None && 0 !in b
    ensures CheckWinner(b) == None <==> Winner(Convert(b)) == None && 0 in b
  {
    LineValueAgrees(b, 0);
    ConvertBlanks(b);
  }

  /** The reward of the game's end: 1 for the agent's win, -1 for the human's, 0 otherwise. */
  function Reward(result: int): (r: real)
    ensures r == 1.0 <==> result == 1
    ensures r == -1.0 <==> result == -1
    ensures r == 0.0 <==> result != 1 && result != -1
  {
    if result == 1 then 1.0 else if result == -1 then -1.0 else 0.0
  }

  /** The legal moves of the graphical board, `[i for i in range(9) if board[i] == 0]`. */
  function Moves(b: seq<GuiCell>): (r: seq<Index>)
    requires |b| == 9
    ensures forall i: Index :: i in r <==> b[i] == 0
    ensures r == [] <==> 0 !in b
  {
    AvailableMovesAreBlanks(Convert(b));
    ConvertBlanks(b);
    FullIffNoMoves(Convert(b));
    AvailableMoves(Convert(b))
  }

  /** The table with a row for `s`, an empty one created when absent. */
  function WithRow(q: Table, s: string): (r: Table)
    ensures s in r && r.Keys == q.Keys + {s}
  {
    if s in q then q else q[s := map[]]
  }

  /** The table with an entry for `(s, a)`, created as 0.0 when absent. */
  function WithEntry(q: Table, s: string, a: Index): (r: Table)
    requires s in q
    ensures s in r && a in r[s]
  {
    if a in q[s] then q else Set(q, s, a, 0.0)
  }

  /**
    The first steps of the graphical game's `update_q`: the row of `prev` is
    created when absent, then its entry for `action` (as 0.0), then the row of
    `next`. Afterwards both rows exist, the entry exists with its old value, and
    nothing else has changed.
   */
  function Prepared(q: Table, prev: string, action: Index, next: string): Table {
    WithRow(WithEntry(WithRow(q, prev), prev, action), next)
  }

  /** What the preparation leaves: both rows, the entry with its old value, and every other row as it was. */
  lemma PreparedEffect(q: Table, prev: string, action: Index, next: string)
    ensures var r := Prepared(q, prev, action, next);
      r.Keys == q.Keys + {prev, next} && r[prev] == RowOf(q, prev)[action := Get(q, prev, action)]
    ensures next != prev ==> Prepared(q, prev, action, next)[next] == RowOf(q, next)
    ensures forall t :: t in q && t != prev ==> Prepared(q, prev, action, next)[t] == q[t]
  {
    var q2 := WithEntry(WithRow(q, prev), prev, action);
    assert q2[prev] == RowOf(q, prev)[action := Get(q, prev, action)];
  }

  /**
    The graphical game's `update_q`: after the rows and the entry are prepared,
    the entry takes one temporal-difference step, the future term being the
    largest value stored in the row of `next` (0.0 for an empty row).
   */
  function Updated(q: Table, prev: string, action: Index, reward: real, next: string): Table {
    var p := Prepared(q, prev, action, next);
    Set(p, prev, action, Td(Alpha, Gamma, p[prev][action], reward, RowMax(p[next])))
  }

  /**
    The future term `max(Q[next].values(), default=0.0)` as `update_q` sees it:
    the largest value stored for `next`, counting the entry just created when
    `next` is `prev`.
   */
  function Future(q: Table, prev: string, action: Index, next: string): real {
    if next == prev then RowMax(RowOf(q, prev)[action := Get(q, prev, action)]) else RowMax(RowOf(q, next))
  }

  /**
    The entry `update_q` changes: `(prev, action)` takes the temporal-difference
    step from its old value (0.0 when absent) with the future term, and the rows
    of `prev` and `next` exist afterwards.
   */
  lemma UpdatedEntry(q: Table, prev: string, action: Index, reward: real, next: string)
    ensures var r := Updated(q, prev, action, reward, next);
      r.Keys == q.Keys + {prev, next} && action in r[prev] &&
      r[prev][action] == Td(Alpha, Gamma, Get(q, prev, action), reward, Future(q, prev, action, next))
    ensures Updated(q, prev, action, reward, next)[prev].Keys == RowOf(q, prev).Keys + {action}
  {
    var p := Prepared(q, prev, action, next);
    PreparedEffect(q, prev, action, next);
    assert p[prev][action] == Get(q, prev, action);
    assert RowMax(p[next]) == Future(q, prev, action, next);
  }

  /**
    What `update_q` leaves alone: no other entry's value changes, and the stored
    row of `next`, when it is another state, is as it was.
   */
  lemma UpdatedElsewhere(q: Table, prev: string, action: Index, reward: real, next: string)
    ensures forall s, a: Index :: (s, a) != (prev, action) ==>
      Get(Updated(q, prev, action, reward, next), s, a) == Get(q, s, a)
    ensures next != prev ==> Updated(q, prev, action, reward, next)[next] == RowOf(q, next)
  {
    var p := Prepared(q, prev, action, next);
    PreparedEffect(q, prev, action, next);
    var v := Td(Alpha, Gamma, p[prev][action], reward, RowMax(p[next]));
    SetOnlyChangesEntry(p, prev, action, v);
    forall s, a: Index | (s, a) != (prev, action) ensures Get(p, s, a) == Get(q, s, a) {
    }
  }

  /** One `update_q` call of the end-of-game loop. */
  datatype Call = Call(state: string, action: Index, reward: real, next: string)

  /**
    The calls the loop of `end_game` makes over the remembered moves `memory`:
    it walks them from the last one back, starting with the outcome's reward and
    the final board's state, and after each call takes the move's own state as
    the next one and 0 as the reward.
   */
  function Schedule(memory: seq<(string, Index)>, reward: real, next: string): (calls: seq<Call>)
    ensures |calls| == |memory|
  {
    if memory == [] then []
    else
      var last := memory[|memory| - 1];
      [Call(last.0, last.1, reward, next)] + Schedule(memory[..|memory| - 1], 0.0, last.0)
  }

  /**
    The `j`-th call concerns the `j`-th remembered move from the end; only the
    first of them (the last move) gets the outcome's reward and the final
    board's state, and every earlier move gets reward 0 and the state of the
    move after it as its next state.
   */
  lemma {:induction false} ScheduleShape(memory: seq<(string, Index)>, reward: real, next: string)
    ensures var n := |memory|; forall j :: 0 <= j < n ==>
      Schedule(memory, reward, next)[j] ==
        Call(memory[n - 1 - j].0, memory[n - 1 - j].1,
             if j == 0 then reward else 0.0,
             if j == 0 then next else memory[n - j].0)
  {
    var n := |memory|;
    if n > 0 {
      var init := memory[..n - 1];
      ScheduleShape(init, 0.0, memory[n - 1].0);
    }
  }

  /** The `j`-th call of the schedule, field by field. */
  lemma ScheduleCall(memory: seq<(string, Index)>, reward: real, next: string, j: nat)
    requires j < |memory|
    ensures var c, n := Schedule(memory, reward, next)[j], |memory|;
      c.state == memory[n - 1 - j].0 && c.action == memory[n - 1 - j].1 &&
      c.reward == (if j == 0 then reward else 0.0) && c.next == (if j == 0 then next else memory[n - j].0)
  {
    ScheduleShape(memory, reward, next);
  }

  /** Each call after the first takes reward 0 and the state of the call before it as its next state. */
  lemma ScheduleLink(memory: seq<(string, Index)>, reward: real, next: string, j: nat)
    requires j + 1 < |memory|
    ensures var calls := Schedule(memory, reward, next);
      calls[j + 1].reward == 0.0 && calls[j + 1].next == calls[j].state
  {
    ScheduleCall(memory, reward, next, j);
    ScheduleCall(memory, reward, next, j + 1);
    assert |memory| - (j + 1) == |memory| - 1 - j;
  }

  /** The table after the calls, in order. */
  function ApplyAll(q: Table, calls: seq<Call>): Table
    decreases |calls|
  {
    if calls == [] then q
    else
      var c := calls[0];
      ApplyAll(Updated(q, c.state, c.action, c.reward, c.next), calls[1..])
  }

  /** The graphical game's agent: the table it reads, extends and saves. */
  class GuiSession {
    var q: Table

    /** A session starts from the loaded table (an empty one when there is none). */
    constructor (loaded: Table)
      ensures q == loaded
    {
      q := loaded;
    }

    /**
      `best_ai_move` with the draws `roll` (for `random.random()`) and `pick`
      (for `random.choice`): None when the board has no blank, and otherwise a
      blank cell, the board's row having been created: a random blank when
      exploring, and otherwise the `pick`-th of the blanks of maximal value.
     */
    method BestAiMove(board: seq<GuiCell>, roll: real, pick: nat) returns (move: Option<Index>)
      requires |board| == 9 && 0.0 <= roll < 1.0
      modifies this`q
      ensures move.None? <==> 0 !in board
      ensures move.None? ==> q == old(q)
      ensures move.Some? ==> board[move.value] == 0 && q == WithRow(old(q), GetState(board))
      ensures move.Some? && roll < Epsilon ==> move.value == Moves(board)[pick % |Moves(board)|]
      ensures move.Some? && roll >= Epsilon ==>
        forall m: Index :: board[m] == 0 ==> Get(q, GetState(board), m) <= Get(q, GetState(board), move.value)
      ensures move.Some? && roll >= Epsilon ==> move.value == GreedyPick(q, GetState(board), Moves(board), pick)
    {
      var moves := Moves(board);
      if moves == [] {
        return None;
      }
      var state := GetState(board);
      if state !in q {
        q := q[state := map[]];
      }
      if roll < Epsilon {
        return Some(moves[pick % |moves|]);
      }
      move := Some(GreedyPick(q, state, moves, pick));
    }

    /** The graphical game's `update_q`, on the session's table. */
    method UpdateQ(prev: string, action: Index, reward: real, next: string)
      modifies this`q
      ensures q == Updated(old(q), prev, action, reward, next)
    {
      if prev !in q {
        q := q[prev := map[]];
      }
      assert q == WithRow(old(q), prev);
      ghost var q1 := q;
      if action !in q[prev] {
        q := Set(q, prev, action, 0.0);
      }
      assert q == WithEntry(q1, prev, action);
      ghost var q2 := q;
      if next !in q {
        q := q[next := map[]];
      }
      assert q == WithRow(q2, next);
      assert q == Prepared(old(q), prev, action, next);
      var oldQ := q[prev][action];
      var future := RowMax(q[next]);
      var newQ := oldQ + Alpha * (reward + Gamma * future - oldQ);
      assert newQ == Td(Alpha, Gamma, oldQ, reward, future);
      q := Set(q, prev, action, newQ);
    }

    /**
      One pass of the loop of `end_game`: the `k`-th call from the end of
      `memory`, after which the move's own state is the next state and the
      reward is 0.
     */
    method EndStep(ghost calls: seq<Call>, memory: seq<(string, Index)>, k: nat, reward: real, next: string)
      returns (next': string, reward': real)
      requires k < |memory| == |calls|
      requires calls[k].reward == reward && calls[k].next == next
      requires calls[k].state == memory[|memory| - 1 - k].0 && calls[k].action == memory[|memory| - 1 - k].1
      modifies this`q
      ensures ApplyAll(q, calls[k + 1..]) == ApplyAll(old(q), calls[k..])
      ensures next' == calls[k].state && reward' == 0.0
    {
      var state, action := memory[|memory| - 1 - k].0, memory[|memory| - 1 - k].1;
      assert calls[k..][1..] == calls[k + 1..];
      assert calls[k] == Call(state, action, reward, next);
      UpdateQ(state, action, reward, next);
      next', reward' := state, 0.0;
    }

    /**
      The training loop of `end_game`: the remembered moves are updated from
      the last one back, as `Schedule` lists the calls, starting from the
      result's reward and the final board's state.
     */
    method EndGame(board: seq<GuiCell>, memory: seq<(string, Index)>, result: int)
      modifies this`q
      ensures q == ApplyAll(old(q), Schedule(memory, Reward(result), GetState(board)))
    {
      var final := GetState(board);
      var outcome := Reward(result);
      ghost var calls := Schedule(memory, outcome, final);
      ghost var q0 := q;
      var next, reward := final, outcome;
      var n := |memory|;
      if n > 0 {
        ScheduleCall(memory, outcome, final, 0);
      }
      var k := 0;
      assert calls[k..] == calls;
      while k < n
        invariant k <= n
        invariant k < n ==> calls[k].reward == reward && calls[k].next == next
        invariant ApplyAll(q, calls[k..]) == ApplyAll(q0, calls)
      {
        ScheduleCall(memory, outcome, final, k);
        next, reward := EndStep(calls, memory, k, reward, next);
        if k + 1 < n {
          ScheduleLink(memory, outcome, final, k);
        }
        k := k + 1;
      }
      assert calls[n..] == [];
    }
  }
}
