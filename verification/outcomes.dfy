/** How the result evaluation behaves on whole boards: every line is
    detected, a full board without a line is a tie, and no game ends before
    the fifth move. */
module Outcomes {
  import opened Results
  import opened Primitives
  import opened Lines
  import opened Board
  import opened Invariants

  /** Cell index `j` lies on `line`. */
  ghost predicate OnLine(line: BoardLine, j: int) {
    exists c | c in LineCells(line) :: c.Index() == j
  }

  /** Two different examined lines never share all their cells: line `m`
      has a cell off line `k`. */
  lemma LinesDiffer(m: nat, k: nat) returns (c: Position)
    requires m < |AllLines| && k < |AllLines| && m != k
    ensures c in LineCells(AllLines[m]) && !OnLine(AllLines[k], c.Index())
  {
    c := CellOffLine(m, k);
    LineShape(AllLines[m]);
    LineShape(AllLines[k]);
    forall d | d in LineCells(AllLines[k]) ensures d.Index() != c.Index() {
      IndexRoundTrip(c);
      IndexRoundTrip(d);
    }
  }

  lemma CellOffLine(m: nat, k: nat) returns (c: Position)
    requires m < |AllLines| && k < |AllLines| && m != k
    ensures c in LineCells(AllLines[m]) && c !in LineCells(AllLines[k])
  {
    AllLinesCells();
    var cm, ck := LineCells(AllLines[m]), LineCells(AllLines[k]);
    if cm[0] !in ck {
      c := cm[0];
    } else {
      c := cm[1];
    }
  }

  /** Every one of the eight lines is detected: a board holding just that
      line, filled by one side, records that line, as Win when the side is
      SelfPlayer and as Lose otherwise. */
  lemma LineWinDetected(b: Board, k: nat, p: PlayerId)
    requires k < |AllLines| && p != None
    requires forall j | 0 <= j < 9 :: b.cells[j] == (if OnLine(AllLines[k], j) then p else None)
    ensures CheckGameOver(b).winnerLine == AllLines[k]
    ensures CheckGameOver(b).result == (if p == b.selfPlayer then Win else Lose)
  {
    LineShape(AllLines[k]);
    assert Uniform(b.cells, AllLines[k], p);
    forall m | 0 <= m < k ensures !Won(b.cells, AllLines[m]) {
      var c := LinesDiffer(m, k);
      LineShape(AllLines[m]);
      assert b.cells[c.Index()] == None;
    }
    assert FirstWonFrom(b.cells, 0, k);
    if p != b.selfPlayer {
      var c := LineCells(AllLines[k])[0];
      assert b.cells[c.Index()] == p;
    }
  }

  /** After a placement, the reported winner is a real side exactly when the
      game was won or lost, and that side holds every cell of the recorded
      winning line. */
  lemma WinnerOwnsLine(b: Board, p: Position)
    requires !b.GameOver() && p.Index() < 9 && b.cells[p.Index()] == None
    requires b.firstPlayer != None && b.selfPlayer != None
    ensures PlaceChess(b, p).Ok?
    ensures var nb := PlaceChess(b, p).value;
      && Winner(nb).Ok?
      && (Winner(nb).value != None <==> nb.result == Win || nb.result == Lose)
      && (Winner(nb).value != None ==> Uniform(nb.cells, nb.winnerLine, Winner(nb).value))
  {
    TurnAlternates(b.firstPlayer, |b.history|);
    var nb := PlaceChess(b, p).value;
    var k := FirstWonOrNone(nb.cells, 0);
    if k != -1 {
      var line := AllLines[k];
      assert RecordsLine(nb, nb, k);
      var q :| q != None && Uniform(nb.cells, line, q);
      LineShape(line);
      var c := LineCells(line)[0];
      assert c in LineCells(line);
      assert forall v | Uniform(nb.cells, line, v) :: v == q;
    }
  }

  /** A full board of a valid game in which no line is completed is a Tie. */
  lemma FullBoardTie(b: Board)
    requires Valid(b)
    requires forall j | 0 <= j < 9 :: b.cells[j] != None
    requires NoneWonFrom(b.cells, 0)
    ensures CheckGameOver(b).result == Tie
  {
    NoEmpty(b.cells);
  }

  lemma {:induction false} NoEmpty(s: seq<PlayerId>)
    requires forall j | 0 <= j < |s| :: s[j] != None
    ensures EmptyCount(s) == 0
  {
    if s != [] {
      NoEmpty(s[..|s| - 1]);
    }
  }

  /** No game is decided before its fifth move: a completed line needs three
      moves of one side, and a side has at most two among the first four. */
  lemma NoWinBeforeFifth(b: Board)
    requires Valid(b) && |b.history| < 5
    ensures NoneWonFrom(b.cells, 0)
  {
    forall k, q | 0 <= k < |AllLines| && q != None ensures !Uniform(b.cells, AllLines[k], q) {
      WinNeedsFive(b, AllLines[k], q);
    }
  }

  /** A line held by one side on a valid board took at least five moves. */
  lemma WinNeedsFive(b: Board, line: BoardLine, q: PlayerId)
    requires Valid(b) && line in AllLines && q != None
    ensures Uniform(b.cells, line, q) ==> |b.history| >= 5
  {
    if Uniform(b.cells, line, q) {
      LineShape(line);
      var cs := LineCells(line);
      assert b.cells[cs[0].Index()] == q && b.cells[cs[1].Index()] == q && b.cells[cs[2].Index()] == q;
      var i0 := MoveOf(b, cs[0].Index());
      var i1 := MoveOf(b, cs[1].Index());
      var i2 := MoveOf(b, cs[2].Index());
      assert i0 != i1 && i0 != i2 && i1 != i2;
      TurnParity(b.firstPlayer, i0, i1);
      TurnParity(b.firstPlayer, i0, i2);
      ThreeOfAParity(i0, i1, i2, |b.history|);
    }
  }

  /** Three distinct moves of the same parity do not fit in four moves. */
  lemma ThreeOfAParity(i0: nat, i1: nat, i2: nat, n: nat)
    requires i0 < n && i1 < n && i2 < n
    requires i0 != i1 && i0 != i2 && i1 != i2
    requires i0 % 2 == i1 % 2 == i2 % 2
    ensures n >= 5
  {
  }

  /** The move of a valid history that filled the occupied cell `j`. */
  lemma MoveOf(b: Board, j: int) returns (i: nat)
    requires Valid(b) && 0 <= j < 9 && b.cells[j] != None
    ensures i < |b.history| && b.history[i].Index() == j
    ensures TurnOwner(b.firstPlayer, i) == Ok(b.cells[j])
  {
    assert j in Indices(b.history);
    var k :| 0 <= k < |b.history| && b.history[k].Index() == j;
    i := k;
  }

  /** Two moves by the same side have the same parity. */
  lemma TurnParity(first: PlayerId, i: nat, j: nat)
    requires first != None
    requires TurnOwner(first, i) == TurnOwner(first, j)
    ensures i % 2 == j % 2
  {
    TurnAlternates(first, i);
  }
}
