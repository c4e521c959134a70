/** Move selection (AIPlayer and its three strategies). The UniTask delays and
    the thread-pool offload are left out; every `Random.Range` draw is a `roll`
    parameter. */
module AI {
  import opened Results
  import opened Primitives
  import opened Lines
  import opened Board
  import opened Invariants

  /** The strategy family. */
  datatype AIPlayer = RandomPlayer | AttackOrBlockPlayer | MiniMaxPlayer

  /** `GetAIPlayer`: level 0 is random, level 1 attack-or-block, any other
      level minimax. */
  function GetAIPlayer(level: int): (r: AIPlayer)
    ensures r == RandomPlayer <==> level == 0
    ensures r == AttackOrBlockPlayer <==> level == 1
    ensures r == MiniMaxPlayer <==> level != 0 && level != 1
  {
    match level
    case 0 => RandomPlayer
    case 1 => AttackOrBlockPlayer
    case _ => MiniMaxPlayer
  }

  /** `Random.Range(0, n)` on ints: some value in [0, n), and 0 when n is 0.
      `roll` stands for the generator's draw. */
  function RandomRange(n: nat, roll: nat): (i: nat)
    ensures n > 0 ==> i < n
    ensures n == 0 ==> i == 0
  {
    if n == 0 then 0 else roll % n
  }

  /** `list[Random.Range(0, list.Count)]`: indexing an empty list throws. */
  function Pick(list: seq<Position>, roll: nat): (r: Result<Position>)
    ensures r.Ok? <==> list != []
    ensures r.Err? ==> r.error == ArgumentOutOfRange
    ensures r.Ok? ==> r.value in list
  {
    var i := RandomRange(|list|, roll);
    if i < |list| then Ok(list[i]) else Err(ArgumentOutOfRange)
  }

  /** `AIPlayer_Random`: some empty cell, failing only on a full board. */
  function RandomMove(b: Board, roll: nat): (r: Result<Position>)
    ensures r.Ok? <==> exists j | 0 <= j < 9 :: b.cells[j] == None
    ensures r.Ok? ==> r.value.OnBoard() && b.cells[r.value.Index()] == None
    ensures r.Ok? ==> r.value in EmptyCells(b)
  {
    var empty := EmptyCells(b);
    assert forall j | 0 <= j < 9 && b.cells[j] == None :: FromIndex(j) in empty;
    Pick(empty, roll)
  }

  /** `player` could complete some line with the single move `c`. */
  ghost predicate Completes(b: Board, player: PlayerId, c: Position) {
    exists m | 0 <= m < |AllLines| :: Finishes(b.cells, AllLines[m], player, c)
  }

  /** `AIPlayer_AttackOrBlock`: a cell that completes a line for the side to
      move if there is one; else a cell that completes a line for its
      opponent (a block); else any empty cell. */
  function AttackOrBlockMove(b: Board, roll: nat): (r: Result<Position>)
    ensures CurrentPlayer(b).Err? ==> r == Err(UndefinedOpponent)
    ensures r.Ok? ==> r.value.OnBoard() && b.cells[r.value.Index()] == None
  {
    var me :- CurrentPlayer(b);
    var attack := FindFinalCells(b, me);
    if |attack| > 0 then Pick(attack, roll)
    else
      var other :- Opponent(me);
      var block := FindFinalCells(b, other);
      if |block| > 0 then Pick(block, roll)
      else Pick(EmptyCells(b), roll)
  }

  /** The preference order of AttackOrBlockMove for a side `me` to move:
      win at once when possible, otherwise block the opponent's completion,
      otherwise fall back to the random strategy with the same draw. */
  lemma AttackOrBlockPrefers(b: Board, roll: nat, me: PlayerId)
    requires CurrentPlayer(b) == Ok(me) && me != None
    ensures (exists c :: Completes(b, me, c)) ==>
      AttackOrBlockMove(b, roll).Ok? && Completes(b, me, AttackOrBlockMove(b, roll).value)
    ensures (forall c :: !Completes(b, me, c)) && (exists c :: Completes(b, Opponent(me).value, c)) ==>
      AttackOrBlockMove(b, roll).Ok? && Completes(b, Opponent(me).value, AttackOrBlockMove(b, roll).value)
    ensures (forall c :: !Completes(b, me, c)) && (forall c :: !Completes(b, Opponent(me).value, c)) ==>
      AttackOrBlockMove(b, roll) == RandomMove(b, roll)
  {
    var r := AttackOrBlockMove(b, roll);
    var attack := FindFinalCells(b, me);
    var other := Opponent(me).value;
    var block := FindFinalCells(b, other);
    assert forall c :: c in attack <==> Completes(b, me, c);
    assert forall c :: c in block <==> Completes(b, other, c);
    if |attack| > 0 {
      assert r == Pick(attack, roll);
    } else if |block| > 0 {
      assert forall c :: !Completes(b, me, c) by {
        forall c ensures !Completes(b, me, c) {
          assert c !in attack;
        }
      }
      assert r == Pick(block, roll);
    } else {
      assert forall c :: !Completes(b, me, c) && !Completes(b, other, c) by {
        forall c ensures !Completes(b, me, c) && !Completes(b, other, c) {
          assert c !in attack && c !in block;
        }
      }
    }
  }
}

/** The exhaustive game-tree search of `AIPlayer_MiniMax`, on the board
    threaded through place, recursive search and retract exactly as the
    in-place search does. */
module Minimax {
  import opened Results
  import opened Primitives
  import opened Lines
  import opened Board
  import opened Invariants

  /** `int.MaxValue` and `int.MinValue`, the initial best scores. */
  const IntMax: int := 0x7FFF_FFFF
  const IntMin: int := -0x8000_0000

  /** What one search returns: the score, the chosen move, and the board as
      it is left afterwards. */
  datatype Outcome = Outcome(score: int, move: Position, board: Board)

  /** Whether `s` beats `t` for the side choosing: the AI takes the smallest
      score, the other side the largest. */
  predicate Better(isAiTurn: bool, s: int, t: int) {
    if isAiTurn then s < t else s > t
  }

  /** `GetMinimax(board, depth, isAiTurn)` (the never-read depth is dropped):
      +1, -1 or 0 with no move on a finished game; otherwise the best of the
      empty cells in GetEmptyCells order. The board comes back as it went in. */
  function Minimax(b: Board, isAiTurn: bool): (r: Outcome)
    requires Valid(b)
    decreases EmptyCount(b.cells), 1
    ensures r.board == b
  {
    if b.result == Win then Outcome(1, Invalid, b)
    else if b.result == Lose then Outcome(-1, Invalid, b)
    else if b.result == Tie then Outcome(0, Invalid, b)
    else Scan(b, EmptyCells(b), isAiTurn, Initial(isAiTurn), Invalid)
  }

  /** A finished game is scored from SelfPlayer's side without a move: +1
      for a Win, -1 for a Lose, 0 for a Tie, whoever is to choose. */
  lemma MinimaxTerminal(b: Board, isAiTurn: bool)
    requires Valid(b) && b.GameOver()
    ensures Minimax(b, isAiTurn).move == Invalid && !Minimax(b, isAiTurn).move.OnBoard()
    ensures Minimax(b, isAiTurn).score == (match b.result case Win => 1 case Lose => -1 case _ => 0)
    ensures Minimax(b, isAiTurn).score == Minimax(b, !isAiTurn).score
  {
  }

  /** The board after the side to move takes the empty cell `pos`: still
      valid, one empty cell fewer, and retracting gives back `b`. */
  function Child(b: Board, pos: Position): (r: Board)
    requires Valid(b) && b.result == NoResult
    requires pos.OnBoard() && b.cells[pos.Index()] == None
    ensures Playable(r)
    ensures EmptyCount(r.cells) < EmptyCount(b.cells)
    ensures RetractChess(r) == Ok((b, pos))
  {
    CurrentPlayerDefined(b);
    PlacePreservesPlayable(b, pos);
    PlaceThenRetract(b, pos);
    PlaceChess(b, pos).value
  }

  /** The `foreach` of GetMinimax over the remaining candidate cells, with
      the best score and move so far. */
  function Scan(b: Board, cells: seq<Position>, isAiTurn: bool, bestScore: int, bestMove: Position): (r: Outcome)
    requires Valid(b) && b.result == NoResult
    requires forall c | c in cells :: c.OnBoard() && b.cells[c.Index()] == None
    decreases EmptyCount(b.cells), 0, |cells|
    ensures r.board == b
  {
    if cells == [] then Outcome(bestScore, bestMove, b)
    else
      var pos := cells[0];
      assert pos in cells;
      var placed := Child(b, pos);
      var child := Minimax(placed, !isAiTurn);
      var back := RetractChess(child.board).value.0;
      var score := child.score;
      if Better(isAiTurn, score, bestScore) then Scan(back, cells[1..], isAiTurn, score, pos)
      else Scan(back, cells[1..], isAiTurn, bestScore, bestMove)
  }

  /** The score the search gives the move `c`: the opponent's best reply
      value after `c` is played. */
  function Score(b: Board, c: Position, isAiTurn: bool): int
    requires Valid(b) && b.result == NoResult
    requires c.OnBoard() && b.cells[c.Index()] == None
  {
    Minimax(Child(b, c), !isAiTurn).score
  }

  /** The move scores of `cells`, in order. */
  function Scores(b: Board, cells: seq<Position>, isAiTurn: bool): (r: seq<int>)
    requires Valid(b) && b.result == NoResult
    requires forall c | c in cells :: c.OnBoard() && b.cells[c.Index()] == None
    ensures |r| == |cells|
    ensures forall i | 0 <= i < |cells| :: r[i] == Score(b, cells[i], isAiTurn)
  {
    if cells == [] then [] else [Score(b, cells[0], isAiTurn)] + Scores(b, cells[1..], isAiTurn)
  }

  /** The best-so-far loop of GetMinimax on given scores, as a pair of the
      best score and its move; a later score replaces the best only when it
      is strictly better. */
  function Fold(scores: seq<int>, cells: seq<Position>, isAiTurn: bool, bestScore: int, bestMove: Position): (int, Position)
    requires |scores| == |cells|
  {
    if cells == [] then (bestScore, bestMove)
    else if Better(isAiTurn, scores[0], bestScore) then Fold(scores[1..], cells[1..], isAiTurn, scores[0], cells[0])
    else Fold(scores[1..], cells[1..], isAiTurn, bestScore, bestMove)
  }

  /** The threaded scan is the fold over the move scores, and leaves the
      board as it was. */
  lemma {:induction false} ScanIsFold(b: Board, cells: seq<Position>, isAiTurn: bool, bestScore: int, bestMove: Position)
    requires Valid(b) && b.result == NoResult
    requires forall c | c in cells :: c.OnBoard() && b.cells[c.Index()] == None
    ensures var f := Fold(Scores(b, cells, isAiTurn), cells, isAiTurn, bestScore, bestMove);
      Scan(b, cells, isAiTurn, bestScore, bestMove) == Outcome(f.0, f.1, b)
  {
    if cells != [] {
      var scores := Scores(b, cells, isAiTurn);
      assert scores[1..] == Scores(b, cells[1..], isAiTurn);
      if Better(isAiTurn, scores[0], bestScore) {
        ScanIsFold(b, cells[1..], isAiTurn, scores[0], cells[0]);
      } else {
        ScanIsFold(b, cells[1..], isAiTurn, bestScore, bestMove);
      }
    }
  }

  /** What the fold computes: a score no candidate beats and that does not
      lose to the starting best; the starting pair when no candidate beats
      it; otherwise the first candidate with the best score. */
  lemma {:induction false} FoldBest(scores: seq<int>, cells: seq<Position>, isAiTurn: bool, bestScore: int, bestMove: Position)
    requires |scores| == |cells|
    ensures var (s, m) := Fold(scores, cells, isAiTurn, bestScore, bestMove);
      && (forall i | 0 <= i < |scores| :: !Better(isAiTurn, scores[i], s))
      && !Better(isAiTurn, bestScore, s)
      && ((forall i | 0 <= i < |scores| :: !Better(isAiTurn, scores[i], bestScore)) ==> s == bestScore && m == bestMove)
      && ((exists i | 0 <= i < |scores| :: Better(isAiTurn, scores[i], bestScore)) ==>
            && Better(isAiTurn, s, bestScore)
            && exists i | 0 <= i < |scores| ::
                 && m == cells[i] && s == scores[i]
                 && forall j | 0 <= j < i :: Better(isAiTurn, s, scores[j]))
  {
    if cells != [] {
      var (s, m) := Fold(scores, cells, isAiTurn, bestScore, bestMove);
      var rs, rc := scores[1..], cells[1..];
      assert forall i | 0 <= i < |rs| :: rs[i] == scores[i + 1];
      if Better(isAiTurn, scores[0], bestScore) {
        FoldBest(rs, rc, isAiTurn, scores[0], cells[0]);
        if exists i | 0 <= i < |rs| :: Better(isAiTurn, rs[i], scores[0]) {
          var i :| 0 <= i < |rs| && m == rc[i] && s == rs[i] && forall j | 0 <= j < i :: Better(isAiTurn, s, rs[j]);
          assert m == cells[i + 1] && s == scores[i + 1];
          assert forall j | 0 <= j < i + 1 :: Better(isAiTurn, s, scores[j]) by {
            forall j | 0 <= j < i + 1 ensures Better(isAiTurn, s, scores[j]) {
              if j > 0 { assert scores[j] == rs[j - 1]; }
            }
          }
        } else {
          assert m == cells[0] && s == scores[0];
        }
      } else {
        FoldBest(rs, rc, isAiTurn, bestScore, bestMove);
        if exists i | 0 <= i < |scores| :: Better(isAiTurn, scores[i], bestScore) {
          var k :| 0 <= k < |scores| && Better(isAiTurn, scores[k], bestScore);
          assert Better(isAiTurn, rs[k - 1], bestScore);
          var i :| 0 <= i < |rs| && m == rc[i] && s == rs[i] && forall j | 0 <= j < i :: Better(isAiTurn, s, rs[j]);
          assert m == cells[i + 1] && s == scores[i + 1];
          assert forall j | 0 <= j < i + 1 :: Better(isAiTurn, s, scores[j]) by {
            forall j | 0 <= j < i + 1 ensures Better(isAiTurn, s, scores[j]) {
              if j > 0 { assert scores[j] == rs[j - 1]; }
            }
          }
        } else {
          forall i | 0 <= i < |rs| ensures !Better(isAiTurn, rs[i], bestScore) {
            assert rs[i] == scores[i + 1];
          }
        }
      }
    }
  }

  /** A sequence of cells with a positive count of empty cells has an empty
      cell; the answer is its index. */
  lemma {:induction false} SomeEmpty(s: seq<PlayerId>) returns (j: nat)
    requires EmptyCount(s) > 0
    ensures j < |s| && s[j] == None
  {
    var n := |s| - 1;
    if s[n] == None {
      j := n;
    } else {
      j := SomeEmpty(s[..n]);
    }
  }

  /** An open playable board has candidate moves. */
  lemma CandidatesExist(b: Board)
    requires Playable(b) && b.result == NoResult
    ensures EmptyCells(b) != []
  {
    var j := SomeEmpty(b.cells);
    assert FromIndex(j) in EmptyCells(b);
  }

  /** Every search score on a playable board is a game value: +1, 0 or -1. */
  lemma {:induction false} MinimaxRange(b: Board, isAiTurn: bool)
    requires Playable(b)
    decreases EmptyCount(b.cells)
    ensures -1 <= Minimax(b, isAiTurn).score <= 1
  {
    if b.result == NoResult {
      var cells := EmptyCells(b);
      var scores := Scores(b, cells, isAiTurn);
      forall i | 0 <= i < |cells|
        ensures -1 <= scores[i] <= 1
      {
        MinimaxRange(Child(b, cells[i]), !isAiTurn);
      }
      CandidatesExist(b);
      MinimaxIsFold(b, isAiTurn);
      FoldFromBound(scores, cells, isAiTurn);
    }
  }

  /** The starting best score of GetMinimax: the worst possible for the side
      choosing. */
  function Initial(isAiTurn: bool): int {
    if isAiTurn then IntMax else IntMin
  }

  /** The fold from the initial bound over non-empty game values ends on
      one of them: the best, first reached. */
  lemma FoldFromBound(scores: seq<int>, cells: seq<Position>, isAiTurn: bool)
    requires |scores| == |cells| > 0
    requires forall i | 0 <= i < |scores| :: -1 <= scores[i] <= 1
    ensures var (s, m) := Fold(scores, cells, isAiTurn, Initial(isAiTurn), Invalid);
      && -1 <= s <= 1
      && (forall i | 0 <= i < |scores| :: !Better(isAiTurn, scores[i], s))
      && exists i | 0 <= i < |scores| ::
           && m == cells[i] && s == scores[i]
           && forall j | 0 <= j < i :: Better(isAiTurn, s, scores[j])
  {
    FoldBest(scores, cells, isAiTurn, Initial(isAiTurn), Invalid);
    assert Better(isAiTurn, scores[0], Initial(isAiTurn));
  }

  /** On an open board the search is the fold over the move scores of the
      empty cells from the initial bound. */
  lemma MinimaxIsFold(b: Board, isAiTurn: bool)
    requires Valid(b) && b.result == NoResult
    ensures var f := Fold(Scores(b, EmptyCells(b), isAiTurn), EmptyCells(b), isAiTurn, Initial(isAiTurn), Invalid);
      Minimax(b, isAiTurn) == Outcome(f.0, f.1, b)
  {
    var cells := EmptyCells(b);
    ScanIsFold(b, cells, isAiTurn, Initial(isAiTurn), Invalid);
    assert Minimax(b, isAiTurn) == Scan(b, cells, isAiTurn, Initial(isAiTurn), Invalid);
  }

  /** On an open playable board the search answers with an empty cell; its
      score is the minimum (AI turn) or maximum (other turn) of the move
      scores; and the move is the first in GetEmptyCells order reaching it.
      The answer is the move's position in that order. */
  lemma MinimaxChoice(b: Board, isAiTurn: bool) returns (i: nat)
    requires Playable(b) && b.result == NoResult
    ensures var r := Minimax(b, isAiTurn);
      var cells := EmptyCells(b);
      && r.move.OnBoard() && b.cells[r.move.Index()] == None
      && (forall k | 0 <= k < |cells| :: !Better(isAiTurn, Score(b, cells[k], isAiTurn), r.score))
      && i < |cells| && r.move == cells[i] && r.score == Score(b, cells[i], isAiTurn)
      && forall j | 0 <= j < i :: Better(isAiTurn, r.score, Score(b, cells[j], isAiTurn))
  {
    i := FoldChoice(b, isAiTurn);
  }

  /** MinimaxChoice stated on the sequence of move scores. */
  lemma FoldChoice(b: Board, isAiTurn: bool) returns (i: nat)
    requires Playable(b) && b.result == NoResult
    ensures var r := Minimax(b, isAiTurn);
      var cells := EmptyCells(b);
      var scores := Scores(b, cells, isAiTurn);
      && (forall k | 0 <= k < |scores| :: !Better(isAiTurn, scores[k], r.score))
      && i < |cells| && r.move == cells[i] && r.score == scores[i]
      && forall j | 0 <= j < i :: Better(isAiTurn, r.score, scores[j])
  {
    var cells := EmptyCells(b);
    var scores := Scores(b, cells, isAiTurn);
    forall k | 0 <= k < |cells|
      ensures -1 <= scores[k] <= 1
    {
      MinimaxRange(Child(b, cells[k]), !isAiTurn);
    }
    CandidatesExist(b);
    MinimaxIsFold(b, isAiTurn);
    FoldFromBound(scores, cells, isAiTurn);
    var f := Fold(scores, cells, isAiTurn, Initial(isAiTurn), Invalid);
    i :| 0 <= i < |scores| && f.1 == cells[i] && f.0 == scores[i]
         && forall j | 0 <= j < i :: Better(isAiTurn, f.0, scores[j]);
  }

  /** `AIPlayer_MiniMax.GetMoveAsync`: the move of the search with the AI to
      play. On an open board it is the first empty cell, in GetEmptyCells
      order, whose reply score is the lowest of all empty cells; on a
      finished board it is the Invalid sentinel. */
  function MinimaxMove(b: Board): (r: Position)
    requires Playable(b)
    ensures b.result == NoResult ==> r.OnBoard() && b.cells[r.Index()] == None
    ensures b.result == NoResult ==>
      && r in EmptyCells(b)
      && (forall c | c in EmptyCells(b) :: Score(b, r, true) <= Score(b, c, true))
      && (forall c | c in EmptyCells(b) && c.Index() < r.Index() :: Score(b, r, true) < Score(b, c, true))
    ensures b.result != NoResult ==> r == Invalid
  {
    if b.result == NoResult then MinimaxMoveLowest(b); MinimaxMoveFirst(b); Minimax(b, true).move
    else Minimax(b, true).move
  }

  /** On an open board the AI's search move is an empty cell whose reply
      score is the lowest of all empty cells. */
  lemma MinimaxMoveLowest(b: Board)
    requires Playable(b) && b.result == NoResult
    ensures var r := Minimax(b, true).move;
      && r.OnBoard() && b.cells[r.Index()] == None && r in EmptyCells(b)
      && forall c | c in EmptyCells(b) :: Score(b, r, true) <= Score(b, c, true)
  {
    var cells := EmptyCells(b);
    var m := Minimax(b, true);
    var _ := MinimaxChoice(b, true);
    forall c | c in cells ensures m.score <= Score(b, c, true) {
      var j := EarlierCell(cells, |cells|, c);
      assert !Better(true, Score(b, cells[j], true), m.score);
    }
  }

  /** Every empty cell before the AI's search move, in GetEmptyCells order,
      has a strictly higher reply score: the move is the first lowest. */
  lemma MinimaxMoveFirst(b: Board)
    requires Playable(b) && b.result == NoResult
    ensures var r := Minimax(b, true).move;
      && r.OnBoard() && b.cells[r.Index()] == None
      && forall c | c in EmptyCells(b) && c.Index() < r.Index() :: Score(b, r, true) < Score(b, c, true)
  {
    var cells := EmptyCells(b);
    var r := Minimax(b, true).move;
    var i := MinimaxChoice(b, true);
    forall c | c in cells && c.Index() < r.Index() ensures Score(b, r, true) < Score(b, c, true) {
      var j := EarlierCell(cells, i, c);
    }
  }

  /** In a sequence of cells ordered by index, a member whose index is below
      that of the `k`-th cell (or any member, when `k` is the length) sits at
      a position before `k`. */
  lemma EarlierCell(cells: seq<Position>, k: nat, c: Position) returns (j: nat)
    requires k <= |cells| && c in cells
    requires forall p, q | 0 <= p < q < |cells| :: cells[p].Index() < cells[q].Index()
    requires k < |cells| ==> c.Index() < cells[k].Index()
    ensures j < k && cells[j] == c
  {
    j :| 0 <= j < |cells| && cells[j] == c;
  }
}
