/**
 The search engine: exhaustive minimax over the game tree, with the early
 stop once the best possible score is reached, and the entry point that
 picks the move for the player to move.
 */
module Search {
  import opened Options
  import opened Game

  /** Python's `sys.maxsize` on a 64-bit interpreter: the sentinels of the search. */
  const SysMaxSize: int := 0x7FFF_FFFF_FFFF_FFFF

  // ---------------------------------------------------------------------------
  // Reference values: what the search computes, without order or early stop
  // ---------------------------------------------------------------------------

  /** A non-empty set of integers has an element. */
  lemma NonEmptyHasElement(s: set<int>)
    ensures s != {} ==> exists x :: x in s
  {
    if forall x :: x !in s {
      assert s == {};
    }
  }

  /** The largest element of a non-empty set. */
  ghost function SetMax(s: set<int>): (m: int)
    requires s != {}
    ensures m in s && forall y :: y in s ==> y <= m
    decreases |s|
  {
    NonEmptyHasElement(s);
    var x :| x in s;
    var rest := s - {x};
    assert forall y :: y in s ==> y == x || y in rest;
    if rest == {} then x
    else
      var r := SetMax(rest);
      if x > r then x else r
  }

  /** The smallest element of a non-empty set. */
  ghost function SetMin(s: set<int>): (m: int)
    requires s != {}
    ensures m in s && forall y :: y in s ==> m <= y
    decreases |s|
  {
    NonEmptyHasElement(s);
    var x :| x in s;
    var rest := s - {x};
    assert forall y :: y in s ==> y == x || y in rest;
    if rest == {} then x
    else
      var r := SetMin(rest);
      if x < r then x else r
  }

  /** The board after a legal action. */
  function Child(b: Board, a: Action): (r: Board)
    requires a in EmptyCells(b)
    ensures Count(r, Empty) == Count(b, Empty) - 1
  {
    Play(b, a.0, a.1)
  }

  /**
   The value `Maximum` stands for: the utility of a terminal board, otherwise
   the best `MinValue` over every legal action.
   */
  ghost function MaxValue(b: Board): (v: int)
    ensures -1 <= v <= 1
    decreases Count(b, Empty)
  {
    if Terminal(b) then Utility(b)
    else
      OngoingHasActions(b);
      var a :| a in EmptyCells(b);
      var values := set a | a in EmptyCells(b) :: MinValue(Child(b, a));
      assert MinValue(Child(b, a)) in values;
      SetMax(values)
  }

  /** The mirror of `MaxValue`: the worst `MaxValue` over every legal action. */
  ghost function MinValue(b: Board): (v: int)
    ensures -1 <= v <= 1
    decreases Count(b, Empty)
  {
    if Terminal(b) then Utility(b)
    else
      OngoingHasActions(b);
      var a :| a in EmptyCells(b);
      var values := set a | a in EmptyCells(b) :: MaxValue(Child(b, a));
      assert MaxValue(Child(b, a)) in values;
      SetMin(values)
  }

  /**
   The game-theoretic value of a board: the utility of a terminal board,
   otherwise the best child value for the player to move (largest for X,
   smallest for O).
   */
  ghost function GameValue(b: Board): (v: int)
    ensures -1 <= v <= 1
    decreases Count(b, Empty)
  {
    if Terminal(b) then Utility(b)
    else
      OngoingHasActions(b);
      var a :| a in EmptyCells(b);
      var values := set a | a in EmptyCells(b) :: GameValue(Child(b, a));
      assert GameValue(Child(b, a)) in values;
      if Player(b) == X then SetMax(values) else SetMin(values)
  }

  /**
   On a balanced board the alternation of `Maximum` and `Minimum` follows the
   turn: when X is to move the maximiser's value is the game value, and when
   O is to move the minimiser's value is.
   */
  lemma {:induction false} ValuesFollowTurn(b: Board)
    requires Balanced(b)
    ensures Player(b) == X ==> MaxValue(b) == GameValue(b)
    ensures Player(b) == O ==> MinValue(b) == GameValue(b)
    decreases Count(b, Empty)
  {
    if !Terminal(b) {
      forall a | a in EmptyCells(b)
        ensures Player(b) == X ==> MinValue(Child(b, a)) == GameValue(Child(b, a))
        ensures Player(b) == O ==> MaxValue(Child(b, a)) == GameValue(Child(b, a))
      {
        PlayAlternates(b, a.0, a.1);
        ValuesFollowTurn(Child(b, a));
      }
      var games := set a | a in EmptyCells(b) :: GameValue(Child(b, a));
      if Player(b) == X {
        assert (set a | a in EmptyCells(b) :: MinValue(Child(b, a))) == games;
      } else {
        assert (set a | a in EmptyCells(b) :: MaxValue(Child(b, a))) == games;
      }
    }
  }

  // ---------------------------------------------------------------------------
  // The early stop: why the loops may end at the best possible score
  // ---------------------------------------------------------------------------

  /**
   The loop of the maximiser is done when the list of actions is exhausted or
   a reply scores the best possible 1: the best reply seen is then the
   maximiser's value.
   */
  lemma MaxValueAttained(b: Board, al: seq<Action>, a: Action)
    requires !Terminal(b) && a in EmptyCells(b)
    requires forall x :: x in al <==> x in EmptyCells(b)
    requires MinValue(Child(b, a)) == 1 ||
      forall t :: 0 <= t < |al| ==> MinValue(Child(b, al[t])) <= MinValue(Child(b, a))
    ensures MaxValue(b) == MinValue(Child(b, a))
  {
    var values := set a' | a' in EmptyCells(b) :: MinValue(Child(b, a'));
    var best := MinValue(Child(b, a));
    assert best in values;
    forall v | v in values
      ensures v <= best
    {
      var a' :| a' in EmptyCells(b) && v == MinValue(Child(b, a'));
      if best != 1 {
        var t :| 0 <= t < |al| && al[t] == a';
      }
    }
    assert MaxValue(b) == SetMax(values);
  }

  /**
   The loop of the minimiser is done when the list of actions is exhausted or
   a reply scores the worst possible -1: the best reply seen is then the
   minimiser's value.
   */
  lemma MinValueAttained(b: Board, al: seq<Action>, a: Action)
    requires !Terminal(b) && a in EmptyCells(b)
    requires forall x :: x in al <==> x in EmptyCells(b)
    requires MaxValue(Child(b, a)) == -1 ||
      forall t :: 0 <= t < |al| ==> MaxValue(Child(b, a)) <= MaxValue(Child(b, al[t]))
    ensures MinValue(b) == MaxValue(Child(b, a))
  {
    var values := set a' | a' in EmptyCells(b) :: MaxValue(Child(b, a'));
    var best := MaxValue(Child(b, a));
    assert best in values;
    forall v | v in values
      ensures best <= v
    {
      var a' :| a' in EmptyCells(b) && v == MaxValue(Child(b, a'));
      if best != -1 {
        var t :| 0 <= t < |al| && al[t] == a';
      }
    }
    assert MinValue(b) == SetMin(values);
  }

  // ---------------------------------------------------------------------------
  // The search
  // ---------------------------------------------------------------------------

  /** `l` lists the elements of `s`, each exactly once. */
  ghost predicate IsOrderOf(l: seq<Action>, s: set<Action>) {
    (forall a :: a in l <==> a in s) &&
    (forall i, j :: 0 <= i < j < |l| ==> l[i] != l[j])
  }

  /**
   The outcome of `random.shuffle` at every node the search visits: the
   order in which the actions of `board` are tried when the search has
   reached it along `path`, the actions taken from the board the search
   started on.
   */
  type Shuffle = (Board, seq<Action>) -> seq<Action>

  /** Every shuffle outcome is an order of the legal actions. */
  ghost predicate ValidShuffle(shuffle: Shuffle) {
    forall board, path :: IsOrderOf(shuffle(board, path), EmptyCells(board))
  }

  /**
   The maximiser: the utility of a terminal board with no action; otherwise
   the loop over the shuffled actions.
   */
  function Maximum(board: Board, shuffle: Shuffle, path: seq<Action>): (r: (int, Option<Action>))
    requires ValidShuffle(shuffle)
    ensures Terminal(board) ==> r == (Utility(board), None)
    decreases Count(board, Empty), 1
  {
    if Terminal(board) then (Utility(board), None)
    else MaxLoop(board, shuffle, path, shuffle(board, path), 0, -SysMaxSize - 1, None)
  }

  /** One step of the maximiser's loop: a strictly better score `res` replaces the best. */
  function MaxUpdate(val: int, nextAction: Option<Action>, res: int, action: Action): (int, Option<Action>) {
    if res > val then (res, Some(action)) else (val, nextAction)
  }

  /**
   The maximiser's loop from position `k` of the shuffled list `al`, with the
   best score `val` and action `nextAction` so far: each action's board is
   scored by the minimiser, and the loop stops early once the best is 1.
   */
  function MaxLoop(board: Board, shuffle: Shuffle, path: seq<Action>, al: seq<Action>,
                   k: nat, val: int, nextAction: Option<Action>): (r: (int, Option<Action>))
    requires ValidShuffle(shuffle)
    requires forall a :: a in al ==> a in EmptyCells(board)
    requires k <= |al|
    decreases Count(board, Empty), 0, |al| - k
  {
    if k == |al| then (val, nextAction)
    else
      var action := al[k];
      assert action in al;
      var res := MinScore(board, shuffle, path, action);
      var u := MaxUpdate(val, nextAction, res, action);
      if u.0 == 1 then u
      else MaxLoop(board, shuffle, path, al, k + 1, u.0, u.1)
  }

  /** The score the minimiser gives the board after the legal action `action`. */
  function MinScore(board: Board, shuffle: Shuffle, path: seq<Action>, action: Action): int
    requires ValidShuffle(shuffle) && action in EmptyCells(board)
    decreases Count(Child(board, action), Empty)
  {
    ResultOfEmptyCell(board, action);
    Minimum(Result(board, action).board, shuffle, path + [action]).0
  }

  /** The minimiser, the mirror of `Maximum`. */
  function Minimum(board: Board, shuffle: Shuffle, path: seq<Action>): (r: (int, Option<Action>))
    requires ValidShuffle(shuffle)
    ensures Terminal(board) ==> r == (Utility(board), None)
    decreases Count(board, Empty), 1
  {
    if Terminal(board) then (Utility(board), None)
    else MinLoop(board, shuffle, path, shuffle(board, path), 0, SysMaxSize, None)
  }

  /** One step of the minimiser's loop: a strictly smaller score `res` replaces the best. */
  function MinUpdate(val: int, nextAction: Option<Action>, res: int, action: Action): (int, Option<Action>) {
    if res < val then (res, Some(action)) else (val, nextAction)
  }

  /** The minimiser's loop, the mirror of `MaxLoop`: it stops early once the best is -1. */
  function MinLoop(board: Board, shuffle: Shuffle, path: seq<Action>, al: seq<Action>,
                   k: nat, val: int, nextAction: Option<Action>): (r: (int, Option<Action>))
    requires ValidShuffle(shuffle)
    requires forall a :: a in al ==> a in EmptyCells(board)
    requires k <= |al|
    decreases Count(board, Empty), 0, |al| - k
  {
    if k == |al| then (val, nextAction)
    else
      var action := al[k];
      assert action in al;
      var res := MaxScore(board, shuffle, path, action);
      var u := MinUpdate(val, nextAction, res, action);
      if u.0 == -1 then u
      else MinLoop(board, shuffle, path, al, k + 1, u.0, u.1)
  }

  /** The score the maximiser gives the board after the legal action `action`. */
  function MaxScore(board: Board, shuffle: Shuffle, path: seq<Action>, action: Action): int
    requires ValidShuffle(shuffle) && action in EmptyCells(board)
    decreases Count(Child(board, action), Empty)
  {
    ResultOfEmptyCell(board, action);
    Maximum(Result(board, action).board, shuffle, path + [action]).0
  }

  /** `r` is the maximiser's value of `board` with a legal action that attains it. */
  ghost predicate MaxOutcome(board: Board, r: (int, Option<Action>)) {
    r.0 == MaxValue(board) && r.1.Some? &&
    r.1.value in EmptyCells(board) && MinValue(Child(board, r.1.value)) == r.0
  }

  /** `r` is the minimiser's value of `board` with a legal action that attains it. */
  ghost predicate MinOutcome(board: Board, r: (int, Option<Action>)) {
    r.0 == MinValue(board) && r.1.Some? &&
    r.1.value in EmptyCells(board) && MaxValue(Child(board, r.1.value)) == r.0
  }

  /**
   The invariant of the maximiser's loop before position `k`: no action yet
   exactly when nothing has been scored, otherwise the best action so far is
   legal and scores `val`, and no action tried scores more.
   */
  ghost predicate MaxInvariant(board: Board, al: seq<Action>, k: nat, val: int, nextAction: Option<Action>)
    requires forall a :: a in al ==> a in EmptyCells(board)
  {
    k <= |al| &&
    (nextAction.None? ==> k == 0 && val == -SysMaxSize - 1) &&
    (nextAction.Some? ==>
      nextAction.value in EmptyCells(board) && MinValue(Child(board, nextAction.value)) == val) &&
    forall t :: 0 <= t < k ==> MinValue(Child(board, al[t])) <= val
  }

  /** The invariant of the minimiser's loop, the mirror of `MaxInvariant`. */
  ghost predicate MinInvariant(board: Board, al: seq<Action>, k: nat, val: int, nextAction: Option<Action>)
    requires forall a :: a in al ==> a in EmptyCells(board)
  {
    k <= |al| &&
    (nextAction.None? ==> k == 0 && val == SysMaxSize) &&
    (nextAction.Some? ==>
      nextAction.value in EmptyCells(board) && MaxValue(Child(board, nextAction.value)) == val) &&
    forall t :: 0 <= t < k ==> val <= MaxValue(Child(board, al[t]))
  }

  /**
   Whatever the shuffles, the maximiser's score is `MaxValue`, the action is
   missing exactly on terminal boards, and otherwise it is a legal action
   whose board the minimiser scores at that value.
   */
  lemma {:induction false} MaximumCorrect(board: Board, shuffle: Shuffle, path: seq<Action>)
    requires ValidShuffle(shuffle)
    ensures var r := Maximum(board, shuffle, path);
      r.0 == MaxValue(board) && (r.1.None? <==> Terminal(board)) &&
      (r.1.Some? ==> r.1.value in EmptyCells(board) && MinValue(Child(board, r.1.value)) == r.0)
    decreases Count(board, Empty)
  {
    if !Terminal(board) {
      forall a | a in EmptyCells(board)
        ensures Minimum(Child(board, a), shuffle, path + [a]).0 == MinValue(Child(board, a))
      {
        MinimumCorrect(Child(board, a), shuffle, path + [a]);
      }
      var al := shuffle(board, path);
      assert IsOrderOf(al, EmptyCells(board));
      OngoingHasActions(board);
      var a :| a in EmptyCells(board);
      assert a in al;
      MaxLoopCorrect(board, shuffle, path, al, 0, -SysMaxSize - 1, None);
    }
  }

  /**
   What the maximiser's loop relies on from the searches below it: on the
   board after any legal action, the minimiser returns that board's true value.
   */
  ghost predicate MinScoresChildren(board: Board, shuffle: Shuffle, path: seq<Action>)
    requires ValidShuffle(shuffle)
  {
    forall a :: a in EmptyCells(board) ==>
      Minimum(Child(board, a), shuffle, path + [a]).0 == MinValue(Child(board, a))
  }

  /** Under `MinScoresChildren`, the minimiser scores every legal action at its `MinValue`. */
  lemma MinScoreIsValue(board: Board, shuffle: Shuffle, path: seq<Action>, a: Action)
    requires ValidShuffle(shuffle) && MinScoresChildren(board, shuffle, path) && a in EmptyCells(board)
    ensures MinScore(board, shuffle, path, a) == MinValue(Child(board, a))
  {
    ResultOfEmptyCell(board, a);
    assert Result(board, a).board == Child(board, a);
  }

  /**
   The maximiser's loop run over given scores, `scores[t]` being the score of
   `al[t]`: the same updates and the same early stop as `MaxLoop`.
   */
  function MaxScan(scores: seq<int>, al: seq<Action>, k: nat, val: int, nextAction: Option<Action>): (int, Option<Action>)
    requires |scores| == |al| && k <= |al|
    decreases |al| - k
  {
    if k == |al| then (val, nextAction)
    else
      var u := MaxUpdate(val, nextAction, scores[k], al[k]);
      if u.0 == 1 then u
      else MaxScan(scores, al, k + 1, u.0, u.1)
  }

  /**
   The maximiser's loop depends on the searches below it only through the
   scores they return: it is the scan over those scores.
   */
  lemma {:induction false} MaxLoopIsScan(board: Board, shuffle: Shuffle, path: seq<Action>, al: seq<Action>,
                                         scores: seq<int>, k: nat, val: int, nextAction: Option<Action>)
    requires ValidShuffle(shuffle)
    requires forall a :: a in al ==> a in EmptyCells(board)
    requires |scores| == |al| && k <= |al|
    requires forall t :: 0 <= t < |al| ==> MinScore(board, shuffle, path, al[t]) == scores[t]
    ensures MaxLoop(board, shuffle, path, al, k, val, nextAction) == MaxScan(scores, al, k, val, nextAction)
    decreases |al| - k
  {
    if k < |al| {
      var u := MaxUpdate(val, nextAction, scores[k], al[k]);
      if u.0 != 1 {
        MaxLoopIsScan(board, shuffle, path, al, scores, k + 1, u.0, u.1);
      }
    }
  }

  /**
   What the scan from `k` returns: an action (the incoming one when `t` is
   `None`, otherwise the one at `t`) with the score seen for it, no smaller
   than the incoming best, and either the early-stop score 1 or no smaller
   than any score from `k` on.
   */
  lemma {:induction false} MaxScanBest(scores: seq<int>, al: seq<Action>, k: nat, val: int, nextAction: Option<Action>)
    returns (t: Option<nat>)
    requires |scores| == |al| && k <= |al|
    requires forall s :: 0 <= s < |al| ==> -1 <= scores[s] <= 1
    requires nextAction.None? ==> k == 0 < |al| && val == -SysMaxSize - 1
    ensures var r := MaxScan(scores, al, k, val, nextAction);
      r.1.Some? && val <= r.0 &&
      (t.None? ==> r == (val, nextAction)) &&
      (t.Some? ==> k <= t.value < |al| && r == (scores[t.value], Some(al[t.value]))) &&
      (r.0 == 1 || forall s :: k <= s < |al| ==> scores[s] <= r.0)
    decreases |al| - k
  {
    if k == |al| {
      t := None;
    } else {
      var u := MaxUpdate(val, nextAction, scores[k], al[k]);
      if u.0 == 1 {
        t := if scores[k] > val then Some(k) else None;
      } else {
        var t' := MaxScanBest(scores, al, k + 1, u.0, u.1);
        t := if t'.Some? then t' else if scores[k] > val then Some(k) else None;
      }
    }
  }

  /**
   The loop invariant of the maximiser, carried from position `k` to the end
   of the loop: the loop ends with the true value and a legal action that
   attains it.
   */
  lemma MaxLoopCorrect(board: Board, shuffle: Shuffle, path: seq<Action>,
                       al: seq<Action>, k: nat, val: int, nextAction: Option<Action>)
    requires ValidShuffle(shuffle) && !Terminal(board) && MinScoresChildren(board, shuffle, path)
    requires forall a :: a in al <==> a in EmptyCells(board)
    requires 0 < |al| && MaxInvariant(board, al, k, val, nextAction)
    ensures MaxOutcome(board, MaxLoop(board, shuffle, path, al, k, val, nextAction))
  {
    var scores := seq(|al|, t requires 0 <= t < |al| => MinValue(Child(board, al[t])));
    forall t | 0 <= t < |al|
      ensures MinScore(board, shuffle, path, al[t]) == scores[t]
    {
      assert al[t] in al;
      MinScoreIsValue(board, shuffle, path, al[t]);
    }
    MaxLoopIsScan(board, shuffle, path, al, scores, k, val, nextAction);
    var t := MaxScanBest(scores, al, k, val, nextAction);
    var a := if t.Some? then al[t.value] else nextAction.value;
    assert a in EmptyCells(board);
    MaxValueAttained(board, al, a);
  }

  /**
   Whatever the shuffles, the minimiser's score is `MinValue`, the action is
   missing exactly on terminal boards, and otherwise it is a legal action
   whose board the maximiser scores at that value.
   */
  lemma {:induction false} MinimumCorrect(board: Board, shuffle: Shuffle, path: seq<Action>)
    requires ValidShuffle(shuffle)
    ensures var r := Minimum(board, shuffle, path);
      r.0 == MinValue(board) && (r.1.None? <==> Terminal(board)) &&
      (r.1.Some? ==> r.1.value in EmptyCells(board) && MaxValue(Child(board, r.1.value)) == r.0)
    decreases Count(board, Empty)
  {
    if !Terminal(board) {
      forall a | a in EmptyCells(board)
        ensures Maximum(Child(board, a), shuffle, path + [a]).0 == MaxValue(Child(board, a))
      {
        MaximumCorrect(Child(board, a), shuffle, path + [a]);
      }
      var al := shuffle(board, path);
      assert IsOrderOf(al, EmptyCells(board));
      OngoingHasActions(board);
      var a :| a in EmptyCells(board);
      assert a in al;
      MinLoopCorrect(board, shuffle, path, al, 0, SysMaxSize, None);
    }
  }

  /**
   What the minimiser's loop relies on from the searches below it: on the
   board after any legal action, the maximiser returns that board's true value.
   */
  ghost predicate MaxScoresChildren(board: Board, shuffle: Shuffle, path: seq<Action>)
    requires ValidShuffle(shuffle)
  {
    forall a :: a in EmptyCells(board) ==>
      Maximum(Child(board, a), shuffle, path + [a]).0 == MaxValue(Child(board, a))
  }

  /** Under `MaxScoresChildren`, the maximiser scores every legal action at its `MaxValue`. */
  lemma MaxScoreIsValue(board: Board, shuffle: Shuffle, path: seq<Action>, a: Action)
    requires ValidShuffle(shuffle) && MaxScoresChildren(board, shuffle, path) && a in EmptyCells(board)
    ensures MaxScore(board, shuffle, path, a) == MaxValue(Child(board, a))
  {
    ResultOfEmptyCell(board, a);
    assert Result(board, a).board == Child(board, a);
  }

  /**
   The minimiser's loop run over given scores, `scores[t]` being the score of
   `al[t]`: the same updates and the same early stop as `MinLoop`.
   */
  function MinScan(scores: seq<int>, al: seq<Action>, k: nat, val: int, nextAction: Option<Action>): (int, Option<Action>)
    requires |scores| == |al| && k <= |al|
    decreases |al| - k
  {
    if k == |al| then (val, nextAction)
    else
      var u := MinUpdate(val, nextAction, scores[k], al[k]);
      if u.0 == -1 then u
      else MinScan(scores, al, k + 1, u.0, u.1)
  }

  /**
   The minimiser's loop depends on the searches below it only through the
   scores they return: it is the scan over those scores.
   */
  lemma {:induction false} MinLoopIsScan(board: Board, shuffle: Shuffle, path: seq<Action>, al: seq<Action>,
                                         scores: seq<int>, k: nat, val: int, nextAction: Option<Action>)
    requires ValidShuffle(shuffle)
    requires forall a :: a in al ==> a in EmptyCells(board)
    requires |scores| == |al| && k <= |al|
    requires forall t :: 0 <= t < |al| ==> MaxScore(board, shuffle, path, al[t]) == scores[t]
    ensures MinLoop(board, shuffle, path, al, k, val, nextAction) == MinScan(scores, al, k, val, nextAction)
    decreases |al| - k
  {
    if k < |al| {
      var u := MinUpdate(val, nextAction, scores[k], al[k]);
      if u.0 != -1 {
        MinLoopIsScan(board, shuffle, path, al, scores, k + 1, u.0, u.1);
      }
    }
  }

  /**
   What the scan from `k` returns: an action (the incoming one when `t` is
   `None`, otherwise the one at `t`) with the score seen for it, no larger
   than the incoming best, and either the early-stop score -1 or no larger
   than any score from `k` on.
   */
  lemma {:induction false} MinScanBest(scores: seq<int>, al: seq<Action>, k: nat, val: int, nextAction: Option<Action>)
    returns (t: Option<nat>)
    requires |scores| == |al| && k <= |al|
    requires forall s :: 0 <= s < |al| ==> -1 <= scores[s] <= 1
    requires nextAction.None? ==> k == 0 < |al| && val == SysMaxSize
    ensures var r := MinScan(scores, al, k, val, nextAction);
      r.1.Some? && r.0 <= val &&
      (t.None? ==> r == (val, nextAction)) &&
      (t.Some? ==> k <= t.value < |al| && r == (scores[t.value], Some(al[t.value]))) &&
      (r.0 == -1 || forall s :: k <= s < |al| ==> r.0 <= scores[s])
    decreases |al| - k
  {
    if k == |al| {
      t := None;
    } else {
      var u := MinUpdate(val, nextAction, scores[k], al[k]);
      if u.0 == -1 {
        t := if scores[k] < val then Some(k) else None;
      } else {
        var t' := MinScanBest(scores, al, k + 1, u.0, u.1);
        t := if t'.Some? then t' else if scores[k] < val then Some(k) else None;
      }
    }
  }

  /**
   The loop invariant of the minimiser, carried from position `k` to the end
   of the loop: the loop ends with the true value and a legal action that
   attains it.
   */
  lemma MinLoopCorrect(board: Board, shuffle: Shuffle, path: seq<Action>,
                       al: seq<Action>, k: nat, val: int, nextAction: Option<Action>)
    requires ValidShuffle(shuffle) && !Terminal(board) && MaxScoresChildren(board, shuffle, path)
    requires forall a :: a in al <==> a in EmptyCells(board)
    requires 0 < |al| && MinInvariant(board, al, k, val, nextAction)
    ensures MinOutcome(board, MinLoop(board, shuffle, path, al, k, val, nextAction))
  {
    var scores := seq(|al|, t requires 0 <= t < |al| => MaxValue(Child(board, al[t])));
    forall t | 0 <= t < |al|
      ensures MaxScore(board, shuffle, path, al[t]) == scores[t]
    {
      assert al[t] in al;
      MaxScoreIsValue(board, shuffle, path, al[t]);
    }
    MinLoopIsScan(board, shuffle, path, al, scores, k, val, nextAction);
    var t := MinScanBest(scores, al, k, val, nextAction);
    var a := if t.Some? then al[t.value] else nextAction.value;
    assert a in EmptyCells(board);
    MinValueAttained(board, al, a);
  }

  /** The score of either search does not depend on the shuffles at all. */
  lemma SearchValueIgnoresOrder(board: Board, s1: Shuffle, s2: Shuffle, p1: seq<Action>, p2: seq<Action>)
    requires ValidShuffle(s1) && ValidShuffle(s2)
    ensures Maximum(board, s1, p1).0 == Maximum(board, s2, p2).0
    ensures Minimum(board, s1, p1).0 == Minimum(board, s2, p2).0
  {
    MaximumCorrect(board, s1, p1);
    MaximumCorrect(board, s2, p2);
    MinimumCorrect(board, s1, p1);
    MinimumCorrect(board, s2, p2);
  }

  /**
   The optimal action for the player to move: none on a finished game,
   otherwise a legal action that `result` accepts, whatever the shuffles. On
   a balanced board (every board reached by play from the start is one) the
   action keeps the game value, so no other action does better for the mover.
   */
  function Minimax(board: Board, shuffle: Shuffle): (action: Option<Action>)
    requires ValidShuffle(shuffle)
    ensures action.None? <==> Terminal(board)
    ensures action.Some? ==> action.value in EmptyCells(board) && Result(board, action.value).Moved?
    ensures action.Some? && Balanced(board) ==>
      GameValue(Child(board, action.value)) == GameValue(board)
  {
    if Terminal(board) then None
    else
      var cp := Player(board);
      MaximumCorrect(board, shuffle, []);
      MinimumCorrect(board, shuffle, []);
      var action := if cp == X then Maximum(board, shuffle, []).1 else Minimum(board, shuffle, []).1;
      ResultOfEmptyCell(board, action.value);
      if Balanced(board) then
        ValuesFollowTurn(board);
        PlayAlternates(board, action.value.0, action.value.1);
        ValuesFollowTurn(Child(board, action.value));
        action
      else action
  }
}
