/** The invariants BoardContext keeps between its cells, its history and its
    cached result, and the proofs that construction, PlaceChess, RetractChess
    and the deserialization replay respect them. */
module Invariants {
  import opened Results
  import opened Primitives
  import opened Lines
  import opened Board

  /** Number of empty cells. */
  function EmptyCount(s: seq<PlayerId>): (n: nat)
    ensures n <= |s|
  {
    if s == [] then 0 else EmptyCount(s[..|s| - 1]) + (if s[|s| - 1] == None then 1 else 0)
  }

  /** Overwriting one cell changes the count of empty cells by what left and what came. */
  lemma {:induction false} EmptyCountUpdate(s: seq<PlayerId>, j: nat, v: PlayerId)
    requires j < |s|
    ensures EmptyCount(s[j := v]) == EmptyCount(s) - (if s[j] == None then 1 else 0) + (if v == None then 1 else 0)
  {
    var n := |s| - 1;
    if j < n {
      assert s[j := v][..n] == s[..n][j := v];
      EmptyCountUpdate(s[..n], j, v);
    } else {
      assert s[j := v][..n] == s[..n];
    }
  }

  /** The set of cell indices named by a history. */
  function Indices(h: seq<Position>): set<int> {
    set i | 0 <= i < |h| :: h[i].Index()
  }

  /** A well-formed board: both players are real sides; the history names
      distinct grid cells; the cell of move `i` holds the side whose turn it
      was; every other cell is empty; the empty cells and the history together
      account for the nine cells; and without a result the winning line is the
      default one. */
  ghost predicate Valid(b: Board) {
    && b.firstPlayer != None
    && b.selfPlayer != None
    && (forall i | 0 <= i < |b.history| :: b.history[i].Index() < 9)
    && (forall i, j | 0 <= i < j < |b.history| :: b.history[i].Index() != b.history[j].Index())
    && (forall i | 0 <= i < |b.history| :: TurnOwner(b.firstPlayer, i) == Ok(b.cells[b.history[i].Index()]))
    && (forall c | 0 <= c < 9 && b.cells[c] != None :: c in Indices(b.history))
    && EmptyCount(b.cells) + |b.history| == 9
    && (b.result == NoResult ==> b.winnerLine == DefaultLine)
  }

  /** A valid board that is still open has a free cell: a board without a
      result has fewer than nine moves. */
  ghost predicate Playable(b: Board) {
    && Valid(b)
    && (b.result == NoResult ==> |b.history| < 9)
  }

  /** A new game between two real sides is playable. */
  lemma NewIsPlayable(self: PlayerId, selfFirst: bool)
    requires self != None
    ensures New(self, selfFirst).Ok?
    ensures Playable(New(self, selfFirst).value)
  {
    EmptyGridCount();
  }

  /** The empty grid has nine empty cells. */
  lemma EmptyGridCount()
    ensures EmptyCount(EmptyGrid) == 9
  {
    AllEmpty(EmptyGrid);
  }

  /** A run of empty cells counts each of them. */
  lemma {:induction false} AllEmpty(s: seq<PlayerId>)
    requires forall j | 0 <= j < |s| :: s[j] == None
    ensures EmptyCount(s) == |s|
  {
    if s != [] {
      AllEmpty(s[..|s| - 1]);
    }
  }

  /** On a valid board the side to move is a real side, and it differs from
      the owner of the last move. */
  lemma CurrentPlayerDefined(b: Board)
    requires Valid(b)
    ensures CurrentPlayer(b).Ok? && CurrentPlayer(b).value != None
    ensures |b.history| > 0 ==>
      CurrentPlayer(b).value != b.cells[b.history[|b.history| - 1].Index()]
  {
    var n := |b.history|;
    TurnAlternates(b.firstPlayer, n);
    if n > 0 {
      assert TurnOwner(b.firstPlayer, n - 1) == Ok(b.cells[b.history[n - 1].Index()]);
    }
  }

  /** Scanning lines from `from` on either finds a first completed line `k`
      or finds none (answer -1). */
  lemma {:induction false} FirstWonOrNone(cells: Cells, from: nat) returns (k: int)
    requires from <= |AllLines|
    decreases |AllLines| - from
    ensures k == -1 ==> NoneWonFrom(cells, from)
    ensures k != -1 ==> k >= 0 && FirstWonFrom(cells, from, k)
  {
    if from == |AllLines| {
      k := -1;
    } else if Won(cells, AllLines[from]) {
      k := from;
    } else {
      k := FirstWonOrNone(cells, from + 1);
    }
  }

  /** A placement keeps the board valid (and playable) and fills exactly one
      empty cell. */
  lemma PlacePreservesPlayable(b: Board, p: Position)
    requires Valid(b)
    requires !b.GameOver() && p.Index() < 9 && b.cells[p.Index()] == None
    ensures PlaceChess(b, p).Ok?
    ensures Playable(PlaceChess(b, p).value)
    ensures EmptyCount(PlaceChess(b, p).value.cells) == EmptyCount(b.cells) - 1
  {
    CurrentPlayerDefined(b);
    var nb := PlaceChess(b, p).value;
    PlacePreservesValid(b, p);
    var k := FirstWonOrNone(nb.cells, 0);
  }

  /** The structural half of PlacePreservesPlayable. */
  lemma PlacePreservesValid(b: Board, p: Position)
    requires Valid(b)
    requires !b.GameOver() && p.Index() < 9 && b.cells[p.Index()] == None
    ensures PlaceChess(b, p).Ok?
    ensures Valid(PlaceChess(b, p).value)
    ensures EmptyCount(PlaceChess(b, p).value.cells) == EmptyCount(b.cells) - 1
  {
    CurrentPlayerDefined(b);
    var nb := PlaceChess(b, p).value;
    var mover := CurrentPlayer(b).value;
    assert nb.cells == b.cells[p.Index() := mover];
    assert nb.result == NoResult ==> nb.winnerLine == DefaultLine by {
      var k := FirstWonOrNone(nb.cells, 0);
    }
    MoveKeepsValid(b, p, nb, mover);
  }

  /** The board-level step of PlacePreservesValid: the mover written into
      an empty cell, its position appended, the players kept and a winning
      line only alongside a result give a valid board with one empty cell
      fewer. */
  lemma MoveKeepsValid(b: Board, p: Position, nb: Board, mover: PlayerId)
    requires Valid(b) && p.Index() < 9 && b.cells[p.Index()] == None
    requires TurnOwner(b.firstPlayer, |b.history|) == Ok(mover)
    requires nb.cells == b.cells[p.Index() := mover]
    requires nb.history == b.history + [p] && nb.firstPlayer == b.firstPlayer && nb.selfPlayer == b.selfPlayer
    requires nb.result == NoResult ==> nb.winnerLine == DefaultLine
    ensures Valid(nb)
    ensures EmptyCount(nb.cells) == EmptyCount(b.cells) - 1
  {
    TurnAlternates(b.firstPlayer, |b.history|);
    EmptyCountUpdate(b.cells, p.Index(), mover);
    MoveKeepsOwners(b, p, nb);
    MoveKeepsCover(b, p, nb);
  }

  /** Writing the mover into the empty cell of `p` and appending `p` keeps
      the history's cells distinct, on the grid and held by the right sides. */
  lemma MoveKeepsOwners(b: Board, p: Position, nb: Board)
    requires Valid(b)
    requires p.Index() < 9 && b.cells[p.Index()] == None
    requires nb.firstPlayer == b.firstPlayer
    requires nb.history == b.history + [p]
    requires TurnOwner(b.firstPlayer, |b.history|) == Ok(nb.cells[p.Index()])
    requires forall i | 0 <= i < 9 && i != p.Index() :: nb.cells[i] == b.cells[i]
    ensures forall i | 0 <= i < |nb.history| :: nb.history[i].Index() < 9
    ensures forall i, j | 0 <= i < j < |nb.history| :: nb.history[i].Index() != nb.history[j].Index()
    ensures forall i | 0 <= i < |nb.history| :: TurnOwner(nb.firstPlayer, i) == Ok(nb.cells[nb.history[i].Index()])
  {
    var h := b.history;
    TurnAlternates(b.firstPlayer, |h|);
    forall i | 0 <= i < |h|
      ensures h[i].Index() != p.Index()
    {
      assert b.cells[h[i].Index()] != None;
    }
    forall i | 0 <= i < |nb.history|
      ensures TurnOwner(nb.firstPlayer, i) == Ok(nb.cells[nb.history[i].Index()])
    {
      if i < |h| {
        assert nb.history[i] == h[i];
      }
    }
  }

  /** Appending `p` and changing only its cell keeps every occupied cell
      named by the history. */
  lemma MoveKeepsCover(b: Board, p: Position, nb: Board)
    requires Valid(b)
    requires p.Index() < 9
    requires nb.history == b.history + [p]
    requires forall i | 0 <= i < 9 && i != p.Index() :: nb.cells[i] == b.cells[i]
    ensures forall c | 0 <= c < 9 && nb.cells[c] != None :: c in Indices(nb.history)
  {
    var h := b.history;
    forall c | 0 <= c < 9 && nb.cells[c] != None
      ensures c in Indices(nb.history)
    {
      if c == p.Index() {
        assert nb.history[|h|].Index() == c;
      } else {
        assert c in Indices(h);
        var i :| 0 <= i < |h| && h[i].Index() == c;
        assert nb.history[i].Index() == c;
      }
    }
  }

  /** A retraction on a valid board with moves succeeds and keeps it valid. */
  lemma RetractPreservesPlayable(b: Board)
    requires Valid(b)
    requires b.history != []
    ensures RetractChess(b).Ok?
    ensures Playable(RetractChess(b).value.0)
    ensures EmptyCount(RetractChess(b).value.0.cells) == EmptyCount(b.cells) + 1
  {
    var h := b.history;
    var idx := h[|h| - 1].Index();
    var nb := RetractChess(b).value.0;
    assert nb.cells == b.cells[idx := None];
    TurnAlternates(b.firstPlayer, |h| - 1);
    assert b.cells[idx] != None;
    EmptyCountUpdate(b.cells, idx, None);
    RetractKeepsOwners(b, nb);
    RetractKeepsCover(b, nb);
  }

  /** Dropping the last move and emptying its cell keeps the remaining
      history's cells distinct, on the grid and held by the right sides. */
  lemma RetractKeepsOwners(b: Board, nb: Board)
    requires Valid(b) && b.history != []
    requires nb.firstPlayer == b.firstPlayer && nb.history == b.history[..|b.history| - 1]
    requires nb.cells == b.cells[b.history[|b.history| - 1].Index() := None]
    ensures forall i | 0 <= i < |nb.history| :: nb.history[i].Index() < 9
    ensures forall i, j | 0 <= i < j < |nb.history| :: nb.history[i].Index() != nb.history[j].Index()
    ensures forall i | 0 <= i < |nb.history| :: TurnOwner(nb.firstPlayer, i) == Ok(nb.cells[nb.history[i].Index()])
  {
    var h := b.history;
    var n := |h| - 1;
    forall i | 0 <= i < n
      ensures nb.history[i] == h[i] && h[i].Index() != h[n].Index()
    {
    }
  }

  /** Dropping the last move and emptying its cell keeps every occupied
      cell named by the history. */
  lemma RetractKeepsCover(b: Board, nb: Board)
    requires Valid(b) && b.history != []
    requires nb.history == b.history[..|b.history| - 1]
    requires nb.cells == b.cells[b.history[|b.history| - 1].Index() := None]
    ensures forall c | 0 <= c < 9 && nb.cells[c] != None :: c in Indices(nb.history)
  {
    var h := b.history;
    var n := |h| - 1;
    forall c | 0 <= c < 9 && nb.cells[c] != None
      ensures c in Indices(nb.history)
    {
      assert c in Indices(h);
      var i :| 0 <= i < |h| && h[i].Index() == c;
      assert i != n;
      assert nb.history[i].Index() == c;
    }
  }

  /** The cells a prefix of `k` moves of a valid board's history would show. */
  function PrefixCells(b: Board, k: nat): Cells
    requires k <= |b.history|
  {
    seq(9, j requires 0 <= j < 9 => if j in Indices(b.history[..k]) then b.cells[j] else None)
  }

  /** Replaying the first `k` moves of a valid board rebuilds the cells of
      exactly those moves. */
  lemma {:induction false} ReplayPrefix(b: Board, k: nat)
    requires Valid(b)
    requires k <= |b.history|
    ensures ReplayCells(b.firstPlayer, b.history[..k]) == Ok(PrefixCells(b, k))
  {
    var h := b.history;
    if k == 0 {
      assert h[..0] == [];
      assert PrefixCells(b, 0) == EmptyGrid;
    } else {
      ReplayPrefix(b, k - 1);
      assert h[..k][..k - 1] == h[..k - 1];
      assert h[..k][k - 1] == h[k - 1];
      PrefixCellsStep(b, k);
    }
  }

  /** Move `k - 1` of a valid history adds exactly its own cell, holding the
      side whose turn it was, to the cells of the shorter prefix. */
  lemma PrefixCellsStep(b: Board, k: nat)
    requires Valid(b)
    requires 0 < k <= |b.history|
    ensures TurnOwner(b.firstPlayer, k - 1) == Ok(b.cells[b.history[k - 1].Index()])
    ensures b.history[k - 1].Index() < 9
    ensures PrefixCells(b, k - 1)[b.history[k - 1].Index() := b.cells[b.history[k - 1].Index()]] == PrefixCells(b, k)
  {
    var h := b.history;
    var p := h[k - 1];
    assert Indices(h[..k]) == Indices(h[..k - 1]) + {p.Index()} by {
      assert forall i | 0 <= i < k - 1 :: h[..k][i] == h[..k - 1][i];
      assert h[..k][k - 1] == p;
    }
  }

  /** OnAfterDeserialize rebuilds the cells of a valid board from its history
      alone: the cell of move `i` gets FirstPlayer for even `i` and its
      opponent for odd `i`, and nothing else is touched. */
  lemma ReplayRebuilds(b: Board)
    requires Valid(b)
    ensures Replay(b) == Ok(b)
  {
    ReplayPrefix(b, |b.history|);
    assert b.history[..|b.history|] == b.history;
    assert PrefixCells(b, |b.history|) == b.cells;
  }
}
