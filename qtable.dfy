/**
  The Q-table shared by the training, evaluation and graphical scripts: a
  dictionary from state keys to a dictionary from cell indices to values.
  Python floats are modelled as reals. This module holds the lookups with
  defaults, the one-entry write with lazy creation of the state's row, the
  temporal-difference formula, and the maxima the scripts take over values.
 */
module QTable {
  import opened Wrappers
  import opened Board

  /** The values of one state, by action (cell index). */
  type Row = map<Index, real>

  /** The whole table, by state key. */
  type Table = map<string, Row>

  /** `Q.get(state, {})`: the state's row, or an empty row when the state is absent. */
  function RowOf(q: Table, s: string): Row {
    if s in q then q[s] else map[]
  }

  /** `Q.get(state, {}).get(action, 0.0)`: the stored value, 0.0 when the state or the action is absent. */
  function Get(q: Table, s: string, a: Index): (v: real)
    ensures s in q && a in q[s] ==> v == q[s][a]
    ensures s !in q || a !in q[s] ==> v == 0.0
  {
    var row := RowOf(q, s);
    if a in row then row[a] else 0.0
  }

  /**
    `if state not in Q: Q[state] = {}` followed by `Q[state][action] = v`: the
    row of `s` is created empty when absent and then `a` is set to `v`.
   */
  function Set(q: Table, s: string, a: Index, v: real): (r: Table)
    ensures r.Keys == q.Keys + {s}
  {
    q[s := RowOf(q, s)[a := v]]
  }

  /**
    Writing one entry is seen by a later lookup of that entry, and by no other:
    every other (state, action) pair reads as before, and every other state's
    row is untouched.
   */
  lemma SetOnlyChangesEntry(q: Table, s: string, a: Index, v: real)
    ensures Get(Set(q, s, a, v), s, a) == v
    ensures forall s', a': Index :: (s', a') != (s, a) ==> Get(Set(q, s, a, v), s', a') == Get(q, s', a')
    ensures forall s' :: s' in q && s' != s ==> Set(q, s, a, v)[s'] == q[s']
    ensures s in q ==> Set(q, s, a, v)[s].Keys == q[s].Keys + {a}
  {
  }

  /**
    The temporal-difference step `current + alpha * (reward + gamma * future - current)`.
   */
  function Td(alpha: real, gamma: real, current: real, reward: real, future: real): real {
    current + alpha * (reward + gamma * future - current)
  }

  /**
    With a learning rate in (0, 1] the step moves the value towards the target
    `reward + gamma * future` without overshooting it, and reaches it exactly when
    the rate is 1 or the value is already there.
   */
  lemma TdMovesTowardTarget(alpha: real, gamma: real, current: real, reward: real, future: real)
    requires 0.0 < alpha <= 1.0
    ensures var target := reward + gamma * future;
      var r := Td(alpha, gamma, current, reward, future);
      (current <= target ==> current <= r <= target) &&
      (target <= current ==> target <= r <= current) &&
      (r == target <==> alpha == 1.0 || current == target)
  {
    var target := reward + gamma * future;
    var d := target - current;
    assert Td(alpha, gamma, current, reward, future) == current + alpha * d;
    if d >= 0.0 {
      assert 0.0 <= alpha * d <= d;
    } else {
      assert d <= alpha * d <= 0.0;
    }
    if alpha * d == d {
      assert (alpha - 1.0) * d == 0.0;
    }
  }

  /** The largest of a non-empty list of values. */
  function MaxOf(xs: seq<real>): (r: real)
    requires |xs| > 0
    ensures r in xs
    ensures forall i :: 0 <= i < |xs| ==> xs[i] <= r
  {
    if |xs| == 1 then xs[0]
    else
      var m := MaxOf(xs[..|xs| - 1]);
      if m >= xs[|xs| - 1] then m else xs[|xs| - 1]
  }

  /** The looked-up values of `moves` in state `s`, in order. */
  function Values(q: Table, s: string, moves: seq<Index>): (r: seq<real>)
    ensures |r| == |moves|
    ensures forall k :: 0 <= k < |moves| ==> r[k] == Get(q, s, moves[k])
  {
    seq(|moves|, k requires 0 <= k < |moves| => Get(q, s, moves[k]))
  }

  /**
    The training script's `max([get_q(next_state, m) for m in next_moves], default=0)`:
    the largest looked-up value of the moves, 0 when there is no move.
   */
  function NextMax(q: Table, s: string, moves: seq<Index>): (r: real)
    ensures moves == [] ==> r == 0.0
    ensures moves != [] ==> exists k :: 0 <= k < |moves| && r == Get(q, s, moves[k])
    ensures forall k :: 0 <= k < |moves| ==> Get(q, s, moves[k]) <= r
  {
    if moves == [] then 0.0 else MaxOf(Values(q, s, moves))
  }

  /**
    The moves, in order, whose value equals `best`: the list
    `[m for m, q in q_vals if q == max_q]` the exploiting choice draws from.
   */
  function Ties(q: Table, s: string, moves: seq<Index>, best: real): (r: seq<Index>)
    ensures forall k :: 0 <= k < |r| ==> r[k] in moves && Get(q, s, r[k]) == best
    ensures forall m :: m in moves && Get(q, s, m) == best ==> m in r
  {
    if moves == [] then []
    else
      var last := moves[|moves| - 1];
      Ties(q, s, moves[..|moves| - 1], best) + (if Get(q, s, last) == best then [last] else [])
  }

  /**
    The exploiting choice `random.choice(best)` with the draw `pick`: a move of
    `moves` whose value is the maximum over `moves`.
   */
  function GreedyPick(q: Table, s: string, moves: seq<Index>, pick: nat): (a: Index)
    requires moves != []
    ensures a in moves
    ensures forall m :: m in moves ==> Get(q, s, m) <= Get(q, s, a)
  {
    var best := NextMax(q, s, moves);
    var ties := Ties(q, s, moves, best);
    var k :| 0 <= k < |moves| && best == Get(q, s, moves[k]);
    assert moves[k] in ties;
    ties[pick % |ties|]
  }

  /** A maximal move of `moves` is one of the ties at the maximum, at some position. */
  lemma TiesOfMax(q: Table, s: string, moves: seq<Index>, m: Index) returns (i: nat)
    requires m in moves && forall x :: x in moves ==> Get(q, s, x) <= Get(q, s, m)
    ensures var ties := Ties(q, s, moves, NextMax(q, s, moves)); i < |ties| && ties[i] == m
  {
    var best := NextMax(q, s, moves);
    var k :| 0 <= k < |moves| && best == Get(q, s, moves[k]);
    assert Get(q, s, moves[k]) <= Get(q, s, m);
    var ties := Ties(q, s, moves, best);
    assert m in ties;
    i :| 0 <= i < |ties| && ties[i] == m;
  }

  /** The exploiting choice is the `pick`-th tie (cyclically) of the non-empty list of ties. */
  lemma GreedyPickIs(q: Table, s: string, moves: seq<Index>, pick: nat)
    requires moves != []
    ensures var ties := Ties(q, s, moves, NextMax(q, s, moves));
      |ties| > 0 && GreedyPick(q, s, moves, pick) == ties[pick % |ties|]
  {
    var best := NextMax(q, s, moves);
    var k :| 0 <= k < |moves| && best == Get(q, s, moves[k]);
    assert moves[k] in Ties(q, s, moves, best);
  }

  /** A position below `n` is its own remainder. */
  lemma ModSmall(i: nat, n: nat)
    requires i < n
    ensures i % n == i
  {
  }

  /**
    Every move of maximal value is the exploiting choice for some draw, so
    `random.choice(best)` can reach each tied maximum (and, by `GreedyPick`'s
    contract, only those).
   */
  lemma GreedyPickReachesEveryTie(q: Table, s: string, moves: seq<Index>, m: Index) returns (pick: nat)
    requires m in moves && forall x :: x in moves ==> Get(q, s, x) <= Get(q, s, m)
    ensures GreedyPick(q, s, moves, pick) == m
  {
    pick := TiesOfMax(q, s, moves, m);
    GreedyPickIs(q, s, moves, pick);
    ModSmall(pick, |Ties(q, s, moves, NextMax(q, s, moves))|);
  }

  /** The largest value stored under a key below `n` in `row`, None when no such key is stored. */
  function MaxBelow(row: Row, n: nat): (r: Option<real>)
    requires n <= 9
    ensures r.None? <==> forall i: Index :: i < n ==> i !in row
    ensures r.Some? ==> exists i: Index :: i < n && i in row && row[i] == r.value
    ensures r.Some? ==> forall i: Index :: i < n && i in row ==> row[i] <= r.value
  {
    if n == 0 then None
    else
      var prev := MaxBelow(row, n - 1);
      var i: Index := n - 1;
      if i !in row then prev
      else if prev.None? || prev.value < row[i] then Some(row[i])
      else prev
  }

  /**
    The graphical script's `max(Q[next_state].values(), default=0.0)`: the largest
    stored value of a row, 0.0 for an empty row.
   */
  function RowMax(row: Row): (r: real)
    ensures row == map[] ==> r == 0.0
    ensures row != map[] ==> r in row.Values && forall v :: v in row.Values ==> v <= r
  {
    var m := MaxBelow(row, 9);
    if m.None? then
      assert forall i :: i in row ==> i < 9;
      0.0
    else
      var i: Index :| i < 9 && i in row && row[i] == m.value;
      assert m.value in row.Values;
      m.value
  }
}
