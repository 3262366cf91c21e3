# Tic-tac-toe Q-learning agent, modelled in Dafny

This project models the three scripts of a small tic-tac-toe reinforcement-learning project:

- `test.py` evaluates a trained Q-table. The table plays X greedily against a random or a minimax O, and the script counts the wins, losses and draws.
- `train.py` trains a role-aware Q-table (state keys are the nine symbols followed by the role). X is the agent. O is random, self-play or minimax. In an episode, each pass in which O replies without ending the game gives X's and O's half-moves of that pass a small step penalty. When O's reply ends the game, X's half-move of that pass gets no step penalty. When the game ends, every remembered move gets the outcome's reward. Then the exploration rate is decayed.
- `gui.py` is the graphical game. Its agent plays X against a human O. After each game the agent walks back over the moves it remembered, and each move's update uses the state of the move after it; only the last move gets the outcome's reward.

The modules follow that structure:

- `Board`: the rules shared by all three scripts. These are the cells, the eight lines in scan order, the winner, the blank cells, a full board, the joined state key, and the game as a sequence of legal placements.
- `Search`: minimax and `optimal_move`. Both work in place on a nine-cell array with place/undo, as the source does. They are proved against a recursive specification.
- `QTable`: the table of tables, the lookup with default 0.0, the temporal-difference step and the greedy helpers.
- `Evaluation`: `test.py`.
- `Training`: `train.py`. The class `Trainer` owns the global table `Q` and the exploration rate.
- `Gui`: `gui.py`. The class `GuiSession` owns that script's table.

## How the model is expressed

- Minimax scores are integer hundredths. An O win at depth `d` is `100 - d` and an X win is `-100 + d`; the source's `1 - 0.01*d` and `-1 + 0.01*d`. A finished board with no line scores 0. The sentinel values -999 and 999 are kept.
- Q-values are `real`.
- Randomness is a parameter (`roll` for `random.random()`, `pick` for `random.choice`) or a nondeterministic choice (`:|`) inside loops.
- A game is specified by the sequence of cells played (`Replay`, `LegalGame`). Each loop states the board it leaves as the replay of a legal game.

## Model

| member | source | states |
|---|---|---|
| Board.InitialBoard | test.py:4-5 | A fresh board has nine cells, all blank. |
| Board.InitialBoardUndecided | test.py:4-16 | A fresh board has no winner. |
| Board.WinnerFromNone | test.py:13-16 | The scan from line `k` on finds nothing exactly when none of those lines is complete. |
| Board.WinnerFromLine | test.py:13-15 | When the scan from line `k` finds an owner, it is the owner of the first complete line from `k` on. |
| Board.WinnerIsFirstLine | test.py:7-16 | `check_winner` returns None iff no line has three equal non-blank cells. Otherwise it returns the owner of the first complete line in scan order. |
| Board.EmptyBefore | test.py:21-22 | Every index listed among the first `n` cells is blank. |
| Board.AvailableMoves | test.py:21-22 | Every listed move is a blank cell. |
| Board.EmptyBeforeIsBlanks | test.py:21-22 | The list for the first `n` cells holds exactly the blank indices below `n`, strictly ascending. |
| Board.AvailableMovesAreBlanks | test.py:21-22 | `available_moves` (and its copy at train.py:27) holds exactly the blank cells, strictly ascending. |
| Board.FullIffNoMoves | test.py:18-22 | `is_full` holds iff no move is available, iff no cell is blank. |
| Board.Result | train.py:28-33 | The training `check_winner` is an owner iff that player has a line, "D" iff there is no line and no blank, and None iff there is no line and a blank remains. |
| Board.Join | test.py:80 | The joined key has one character per cell: the cell's symbol. |
| Board.JoinInjective | test.py:79-81 | Two boards have the same joined key iff they are equal. |
| Board.MoverAlternates | train.py:103-130 | X and O alternate, X moving on even plies. |
| Board.Replay | test.py:107-144 | Replaying a game gives a nine-cell board. |
| Board.PlaceCountsDown | test.py:120 | Marking a blank cell removes exactly one blank. |
| Board.EmptyCountBound | test.py:18-19 | A board has at most as many blanks as cells. |
| Board.InitialBoardBlanks | test.py:4-5 | A fresh board has nine blanks. |
| Board.ReplayBlanks | test.py:113-154 | After a legal game of `n` moves, `9 - n` blanks remain, so every game ends within nine moves. |
| Board.PlacementWinsOnlyForMover | test.py:119-123 | On an undecided board, a player's mark makes nobody or that player the winner. |
| Board.ReplaySnoc | test.py:120 | One more move marks its cell for the side to move and changes nothing else. |
| Board.ExtendGame | test.py:119-121 | A mark on a blank cell of an undecided board extends a legal game. |
| Board.Place | test.py:120 | `board[action] = "X"` (or "O") on the array gives the replay of the game extended by that move. |
| Search.Scores | test.py:33-37 | A child score is computed for every listed move. |
| Search.ExtremumIsAttained | test.py:31-46 | The running max/min over child scores strictly inside the sentinels is one of them and bounds all of them. |
| Search.ExtremumInBand | test.py:31-46 | A running best over values in a score band stays in the band. |
| Search.ScoreBounds | test.py:25-46 | The score is 0 or its magnitude is between `100 - depth - blanks` and `100 - depth`, so it never reaches a sentinel. |
| Search.ChildBounds | test.py:33-35 | The same bound for a child, one ply deeper with one blank fewer. |
| Search.ScoreIsMinimax | test.py:25-46 | On an undecided board with a blank, the score is some child's score at depth + 1, and it is the max (O to move) or min (X to move) of all of them. |
| Search.ImmediateWinIsBest | test.py:25-46 | When the side to move can win at once, the score is that win's value one ply deeper. |
| Search.ScoresSnoc | test.py:33-37 | One more loop iteration appends that move's child score. |
| Search.ExtremumSnoc | test.py:37 | `best = max(best, score)` (or `min`) extends the running extremum by one value. |
| Search.Minimax | test.py:25-46 | `minimax` returns the recursive specification's score and leaves the board exactly as it found it. The same holds for the copy at train.py:39-57, whose "D" case is a full board with no line. |
| Search.SearchMoves | test.py:31-46 | The loop over the moves returns the running max (or min) of their child scores from the sentinel and restores every placement. |
| Search.RootScores | test.py:51-54 | A root score for every listed move. |
| Search.FirstBestIsFirstMax | test.py:55-57 | The strict `>` update keeps the first position of the maximal score. |
| Search.FirstMaxStep | test.py:55-57 | The same, returning that position. |
| Search.RootScoresInBand | test.py:51-54 | Every root score is in the band of depth 0 and more than -999, so the first move always beats the initial `best_score`. |
| Search.FirstMaxIsLowestBest | test.py:48-58 | The first position with the maximal score is a blank cell with the maximal score, below every other blank cell with that score. |
| Search.OptimalChoiceIsFirstBest | test.py:48-58 | `optimal_move` is None iff the board is full. Otherwise it is a blank cell of maximal score and the lowest such cell. |
| Search.RootScoresSnoc | test.py:51-54 | One more loop iteration appends that move's root score. |
| Search.OptimalMove | test.py:48-58 | `optimal_move` (and its copy at train.py:59-69) returns the specification's choice and leaves the board unchanged. |
| QTable.Get | train.py:74-75 | `get_q` is the stored value, or 0.0 when the state or the action is absent. |
| QTable.Set | train.py:89 | Writing an entry adds at most its state to the keys. |
| QTable.SetOnlyChangesEntry | train.py:86-89 | After the write, the entry reads the new value. Every other entry, every other row and the row's other keys are as they were. |
| QTable.TdMovesTowardTarget | train.py:89 | With a rate in (0, 1] the step moves the value towards `reward + gamma * future` without overshooting, reaching it iff the rate is 1 or it is already there. |
| QTable.MaxOf | train.py:81 | The maximum of a nonempty list is in the list and bounds it. |
| QTable.Values | train.py:80 | One `get_q` value per move, in order. |
| QTable.NextMax | train.py:88 | `max(..., default=0)`: 0 for no moves, otherwise a value of some move and at least that of every move. |
| QTable.Ties | train.py:82 | `best` lists exactly the moves whose value equals the maximum. |
| QTable.GreedyPick | train.py:80-83 | The tie-broken greedy move is one of the moves and has maximal value. |
| QTable.TiesOfMax | train.py:80-82 | A move of maximal value is in `best`, the list of moves equal to the maximum, at some position. |
| QTable.GreedyPickIs | train.py:80-83 | `best` is never empty, and the greedy move is `random.choice(best)` with `pick` selecting its (cyclic) position. |
| QTable.GreedyPickReachesEveryTie | train.py:80-83 | Every move of maximal value is the greedy move for some draw `pick`; with `GreedyPick`'s contract, the reachable greedy moves are exactly the maximal ones. |
| QTable.MaxBelow | gui.py:58 | The largest stored value among actions below `n`, None iff there are none. |
| QTable.RowMax | gui.py:58 | `max(Q[next].values(), default=0.0)`: 0.0 for an empty row, otherwise a stored value bounding all of them. |
| Training.GetState | train.py:34 | The state key has ten characters and ends with the role. |
| Training.GetStateInjective | train.py:34 | Two keys are equal iff the boards and the roles are. |
| Training.OutcomeReward | train.py:113 | 10 for an X win, -10 for an O win, 0 for a draw: positive, negative or zero exactly in those cases. |
| Training.TerminalUpdatesEveryStep | train.py:111-116 | When no pair repeats, every remembered pair takes one step towards the outcome's reward with future 0 (`update_q(s, a, reward, "", [])`). No other entry changes. |
| Training.DecayStep | train.py:147-148 | One decay never raises the rate and leaves a rate at or below the minimum unchanged. It never goes below `epsilon_min * decay`. |
| Training.DecayAfterBounds | train.py:147-148 | Over episodes the rate is non-increasing and fixed once at or below the minimum. It stays at least `epsilon_min * decay`, or its start when that is lower. |
| Training.HistoryOf | train.py:100-130 | The history has one entry per move played. |
| Training.HistoryAt | train.py:105-109 | Entry `i` is the state before move `i` with the mover's role, the cell and the role. |
| Training.LegalPrefix | train.py:103-137 | Every prefix of a legal game is legal. |
| Training.HistoryDistinct | train.py:114-115 | No (state, action) pair is remembered twice in a legal game, so the terminal updates never overwrite each other. |
| Training.HistorySnoc | train.py:109 | A new move appends its state, cell and role to the history. |
| Training.Trainer.constructor | train.py:7-21 | A trainer starts from the loaded table and the initial exploration rate 0.7. |
| Training.Trainer.ChooseAction | train.py:77-83 | `choose_action` returns a legal move: the `pick`-th when exploring, and otherwise a move whose value is maximal among the moves, namely `GreedyPick`'s `pick`-th tie. |
| Training.Trainer.UpdateQ | train.py:85-89 | `update_q` takes the TD step of `(state, action)` from its `get_q` value with the best `get_q` over the next moves (0 for none). |
| Training.Trainer.ApplyTerminal | train.py:114-115 | The terminal loop is the fold of `update_q` over the history, in order, with future 0. |
| Training.Trainer.DecayEpsilon | train.py:148 | The rate is multiplied by 0.9997 only while above 0.01. |
| Training.Trainer.OpponentMove | train.py:119-127 | O's move restores the board and is legal. In minimax mode it is `optimal_move`'s choice. |
| Training.PassPenaltyElsewhere | train.py:141-144 | The step penalties of one pass change no entry other than the pass's two (state, action) pairs. |
| Training.PenaltiesOnlyTouchHistory | train.py:103-144 | The step penalties of all the passes change only entries whose pair is in the game's history. |
| Training.HistoryPrefix | train.py:109 | The history of a prefix of the game is that prefix of the history. |
| Training.SettledLength | train.py:103-144 | The passes before the last one cover the largest even number of moves below the game's length. |
| Training.PassesExtend | train.py:103-144 | After one more pass, the penalised passes are those played before it. A full pass adds its own step penalties. |
| Training.OpponentOptimalSnoc | train.py:124-125 | In minimax mode, a game whose O moves were all `optimal_move`'s choice keeps that property when extended by an X move or by O's optimal move. |
| Training.OpponentOptimalAt | train.py:124-125 | In such a game, O's move `i` is `optimal_move` of the board after the first `i` moves. |
| Training.Trainer.Turn | train.py:105-109 | A half-move chooses a legal move in the role's state, marks it, and appends (state, action, role) to the history. In minimax mode, O's move is `optimal_move`'s choice on the board (lines 124-125). |
| Training.Trainer.Finish | train.py:111-117 | The game stops iff the board is decided. Then the table is the terminal fold over the history, with the outcome's reward, starting from the table as it was. Otherwise the table is unchanged. |
| Training.Trainer.Settle | train.py:132-144 | After O's move, a decided board gets the terminal fold starting from the table as it was. Otherwise the table takes this pass's step penalties (`PassPenalty`): X's and O's half-moves get -0.01, with the new board's X and O states and its moves. |
| Training.Trainer.AgentHalf | train.py:104-117 | X's half of a pass extends the legal game and the history. If the board is then decided, the table is the terminal fold from the table as it was; otherwise the table is unchanged and O is to move. |
| Training.Trainer.Reply | train.py:119-144 | O's half of a pass extends the game by one move, keeping O's moves optimal in minimax mode. It ends the game with the terminal fold from the table as it was, or applies the pass's step penalties. |
| Training.Trainer.Round | train.py:103-144 | One pass extends the legal game by one or two moves. It ends the game with the terminal fold from the table the pass started with, or makes two moves and applies their step penalties, leaving X to move. |
| Training.Trainer.PlayEpisode | train.py:99-144 | An episode's game is legal, ends in its outcome, and in minimax mode all of O's moves are optimal. The final table is the step penalties of every pass before the last, applied to the starting table, followed by the terminal fold over the whole history. |
| Training.Trainer.RunEpisode | train.py:99-148 | The same game and table, with no pair remembered twice, and the rate decayed once. |
| Evaluation.IsRoleAware | test.py:70-75 | An empty table is role-aware. Otherwise the table is role-aware iff the first key has length 10. |
| Evaluation.DetectsKeyFormat | test.py:69-75 | Tables keyed by the training script's states are detected as role-aware, and nonempty tables keyed by plain boards are not. |
| Evaluation.GetState | test.py:79-81 | The key is the training key (board plus role) when role-aware, and the nine-character joined board otherwise. |
| Evaluation.GetStateInjective | test.py:79-81 | For a fixed role and format, two keys are equal iff the boards are. |
| Evaluation.FirstArgMax | test.py:88 | `max(moves, key=...)` returns a move of maximal value. |
| Evaluation.FirstArgMaxPosition | test.py:88 | It is the first move of maximal value: every earlier move has a smaller value. |
| Evaluation.ChooseAction | test.py:83-88 | A legal move. It is the `pick`-th for an unknown state; for a known state it is the first move of maximal value (default 0.0). |
| Evaluation.GamesFor | test.py:96-98 | The requested count when given. Otherwise 100000 for "Random", 1 for "Smart" and 10000 for any other opponent. |
| Evaluation.CountsPartition | test.py:123-154 | Wins, losses and draws add up to the games. |
| Evaluation.OpponentMove | test.py:133-142 | O's move is on a blank cell and leaves the board as it was. Against "Smart" it is `optimal_move`'s choice. |
| Evaluation.PolicySnoc | test.py:113-142 | A game played by the policy stays so when extended by the policy's next move. |
| Evaluation.PlayedByPolicyAt | test.py:113-142 | In a game played by the policy, move `i` is the policy's move on the board after the first `i` moves. For X in a known state that is the first move of maximal value; for O against "Smart" it is `optimal_move`'s choice. |
| Evaluation.AgentTurn | test.py:114-121 | The agent's mark extends the legal game and can only make X the winner. In a state the table knows, the move is `FirstArgMax` of the board's moves (line 88). The `if not moves: break` guard cannot fire. |
| Evaluation.Reply | test.py:132-154 | O's half of a pass adds one move to the game. Against "Smart" that move is `optimal_move`'s choice (lines 137-138). It ends the game with its outcome or leaves an undecided board with X to move. The `if not opp_moves: break` guard cannot fire. |
| Evaluation.Round | test.py:113-130 | One pass extends the legal game by X's move and at most O's reply, keeping the earlier moves. All its moves are the policy's, as `PolicyMove` states. It ends the game with its outcome or leaves an undecided board with X to move. |
| Evaluation.PlayGame | test.py:107-154 | Each evaluation game is a legal game that ends with a win, a loss or a draw. Every move is the policy's, for the given table, key format and opponent. |
| Evaluation.TestAgent | test.py:91-156 | The number of games is as `GamesFor` says. Every game is legal, ends in its outcome, and is played by the policy in the key format detected from the table's keys (line 77). The counters count the outcomes and add up to the games played. |
| Gui.Convert | gui.py:18-21 | 0, 1 and -1 map cell by cell to blank, X and O, keeping the length. |
| Gui.Unconvert | gui.py:18-21 | The inverse mapping, cell by cell. |
| Gui.ConvertRoundTrip | gui.py:18-21 | `Convert` and `Unconvert` are inverse: the conversion is a bijection. |
| Gui.ConvertBlanks | gui.py:18-21 | A converted cell is blank iff the GUI cell is 0. |
| Gui.GetState | gui.py:23-24 | The key is the join of the converted board: plain, with no role. |
| Gui.GetStateInjective | gui.py:23-24 | Two GUI boards have the same key iff they are equal. |
| Gui.LineValueAgrees | gui.py:73-75 | The GUI line scan returns the first complete line's value iff the shared scan returns its owner. |
| Gui.CheckWinnerAgrees | gui.py:67-78 | The GUI `check_winner` is 1 or -1 iff X or O has a line, 0 iff the board is full with no line, and None otherwise, as the shared result says. |
| Gui.Reward | gui.py:115-123 | 1 iff the AI won, -1 iff the human won, 0 otherwise. |
| Gui.Moves | gui.py:29 | The legal moves are exactly the 0 cells and are empty iff no cell is 0. |
| Gui.WithRow | gui.py:50-51 | The row of `s` exists afterwards and only `s` can be added. |
| Gui.WithEntry | gui.py:52-53 | The entry `(s, a)` exists afterwards. |
| Gui.PreparedEffect | gui.py:50-55 | The preparation adds only `prev` and `next`. The entry has its old value (0.0 when absent), and every other row is as it was. |
| Gui.UpdatedEntry | gui.py:48-59 | `update_q` gives `(prev, action)` the TD step from its old value with the largest stored value of `next`'s row, which counts the new entry when `next` is `prev`. |
| Gui.UpdatedElsewhere | gui.py:48-59 | `update_q` changes no other entry, and leaves `next`'s stored row as it was when `next` is another state. |
| Gui.Schedule | gui.py:127-130 | There is one call per remembered move. |
| Gui.ScheduleShape | gui.py:126-130 | The calls walk the memory from the last move back. Only the first call gets the outcome's reward and the final board's state; every later call gets reward 0, and its next state is the state of the move after it. |
| Gui.ScheduleCall | gui.py:127-130 | The same closed form for one call. |
| Gui.ScheduleLink | gui.py:129-130 | Each call after the first has reward 0, and its next state is the previous call's state. |
| Gui.GuiSession.constructor | gui.py:10-15 | A session starts from the loaded table. |
| Gui.GuiSession.BestAiMove | gui.py:28-46 | None iff no cell is 0, and then the table is unchanged. Otherwise the move is a 0 cell and the state's row exists afterwards. When exploring it is the `pick`-th legal move; otherwise its value is maximal among the legal moves, and it is `GreedyPick`'s `pick`-th tie on the state's row. |
| Gui.GuiSession.UpdateQ | gui.py:48-59 | `update_q` leaves the session's table as `Updated` says: rows and entry prepared, then one TD step. |
| Gui.GuiSession.EndStep | gui.py:127-130 | One loop pass runs the next scheduled call. Then the move's state becomes the next state and the reward becomes 0. |
| Gui.GuiSession.EndGame | gui.py:125-130 | The backward loop of `end_game` leaves the table that the schedule's calls produce when applied in order. |

## Left out

- Loading and saving the table with pickle, and the exit when `test.py` finds no table: file I/O. The table is a constructor or method parameter instead.
- The Tk widgets, `handle_click`, `reset_game` and the main loop of `gui.py`: user interface. `EndGame` takes the board, the remembered moves and the result as parameters.
- Printing, progress reports, the rates and verdicts in `main`, and `exploration_progress` with its 5478-board constant: console output and floating-point percentages.
- The random number source: `random.random()` and `random.choice` become parameters or nondeterministic choices.
- The outer training schedule of 300000, 500000 and 5000 episodes per mode: only one episode and its decay are modelled.
- IEEE floating point: Q-values are exact reals, and minimax scores are integer hundredths. For the at most nine plies of a game, the float scores order the moves the same way.
- `train.py` repeats `initialize_board`, `available_moves`, `minimax` and `optimal_move` from `test.py`, and its "D" result is a full board with no line. `Board` and `Search` model each of them once.
- Training.TerminalUpdatesEveryStep: the source computes a per-role reward for each history entry (line 114) and then never uses it. Every entry gets the X-view reward, as written.
- Training.Trainer.Turn: X's epsilon-greedy choice and the self-playing O's choice depend on `random.random()` and `random.choice`. `Turn` draws them nondeterministically, so its contract states only that the move is legal. For given draws `roll` and `pick`, `Trainer.ChooseAction` fixes the move exactly: `moves[pick % |moves|]` when exploring, and otherwise `GreedyPick`'s `pick`-th maximal move. `QTable.GreedyPickReachesEveryTie` shows that every maximal move is one of these.
- Training.Trainer.DecayEpsilon: follows the code, which multiplies only while the rate is above the minimum. It does not clamp the result to the minimum, so the rate can end up to one factor below it.
- Evaluation.AgentTurn, Evaluation.Reply and Evaluation.OpponentMove: `test.py`'s guards `if not moves: break` (AgentTurn), `if not opp_moves: break` (Reply) and `if opp_action is None` (OpponentMove) are proved unreachable, because an undecided board always has a blank cell. They are not modelled as exits.
