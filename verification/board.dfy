/** The board state machine (BoardContext): nine cells, the move history,
    the two player identities and the cached game result. */
module Board {
  import opened Results
  import opened Primitives
  import opened Lines

  /** The nine cells, indexed by Position.Index. */
  type Cells = s: seq<PlayerId> | |s| == 9 witness [None, None, None, None, None, None, None, None, None]

  const EmptyGrid: Cells := [None, None, None, None, None, None, None, None, None]

  /** GameResult, seen from SelfPlayer; NoResult is the C# `GameResult.None`. */
  datatype GameResult = NoResult | Win | Tie | Lose

  datatype Board = Board(
    cells: Cells,
    firstPlayer: PlayerId,
    selfPlayer: PlayerId,
    result: GameResult,
    winnerLine: BoardLine,
    history: seq<Position>)
  {
    predicate GameOver() {
      result != NoResult
    }
  }

  /** The constructor `BoardContext(self, selfFirst)`. */
  function New(self: PlayerId, selfFirst: bool): (r: Result<Board>)
    ensures r.Ok? <==> selfFirst || self != None
    ensures r.Err? ==> r.error == UndefinedOpponent
    ensures r.Ok? ==> var b := r.value;
      && b.cells == EmptyGrid && b.history == [] && b.result == NoResult && b.winnerLine == DefaultLine
      && b.selfPlayer == self
      && (selfFirst ==> b.firstPlayer == self)
      && (!selfFirst ==> Opponent(self) == Ok(b.firstPlayer))
  {
    if selfFirst then
      Ok(Board(EmptyGrid, self, self, NoResult, DefaultLine, []))
    else
      var other :- Opponent(self);
      Ok(Board(EmptyGrid, other, self, NoResult, DefaultLine, []))
  }

  /** Who moves after `n` moves when `first` opened: the history parity rule. */
  function TurnOwner(first: PlayerId, n: nat): Result<PlayerId> {
    if n % 2 == 0 then Ok(first) else Opponent(first)
  }

  /** With a real first player, every turn has a real owner and turns alternate. */
  lemma TurnAlternates(first: PlayerId, n: nat)
    requires first != None
    ensures TurnOwner(first, n).Ok? && TurnOwner(first, n).value != None
    ensures n > 0 ==> TurnOwner(first, n - 1).Ok? && TurnOwner(first, n).value != TurnOwner(first, n - 1).value
  {
  }

  /** `CurrentPlayer`: FirstPlayer on an even history length, its opponent on
      an odd one; the opponent of an undefined first player throws. */
  function CurrentPlayer(b: Board): (r: Result<PlayerId>)
    ensures r.Err? <==> |b.history| % 2 == 1 && b.firstPlayer == None
    ensures |b.history| % 2 == 0 ==> r == Ok(b.firstPlayer)
    ensures r.Ok? && |b.history| % 2 == 1 ==> r.value != None && r.value != b.firstPlayer
    ensures b.firstPlayer != None ==> r.Ok? && r.value != None
  {
    TurnOwner(b.firstPlayer, |b.history|)
  }

  /** `IsSelfRound`: whether SelfPlayer is the side to move. */
  function IsSelfRound(b: Board): (r: Result<bool>)
    ensures r.Ok? <==> CurrentPlayer(b).Ok?
    ensures r.Ok? ==> (r.value <==> CurrentPlayer(b).value == b.selfPlayer)
  {
    var mover :- CurrentPlayer(b);
    Ok(mover == b.selfPlayer)
  }

  /** `GetCell`: the array read throws for an index past the nine cells. */
  function GetCell(b: Board, p: Position): (r: Result<PlayerId>)
    ensures r.Ok? <==> p.Index() < 9
    ensures r.Ok? ==> r.value == b.cells[p.Index()]
    ensures r.Err? ==> r.error == IndexOutOfRange
  {
    if p.Index() < 9 then Ok(b.cells[p.Index()]) else Err(IndexOutOfRange)
  }

  /** Every cell of `line` is on the grid and holds `p`. */
  ghost predicate Uniform(cells: Cells, line: BoardLine, p: PlayerId) {
    forall c | c in LineCells(line) :: c.Index() < 9 && cells[c.Index()] == p
  }

  /** `line` is completed by one of the two sides. */
  ghost predicate Won(cells: Cells, line: BoardLine) {
    exists p :: p != None && Uniform(cells, line, p)
  }

  /** The loop of IsLineSame over the remaining cells `ps`: the first cell read
      fixes `value`, a later different cell answers (false, None). */
  function SameFrom(b: Board, ps: seq<Position>, hasValue: bool, value: PlayerId): (r: Result<(bool, PlayerId)>)
    decreases |ps|
    ensures (forall c | c in ps :: c.Index() < 9) ==> r.Ok?
    ensures hasValue && (forall c | c in ps :: c.Index() < 9) ==>
      r.value == if (forall c | c in ps :: b.cells[c.Index()] == value) then (true, value) else (false, None)
    ensures !hasValue && ps == [] ==> r == Ok((true, value))
  {
    if ps == [] then Ok((true, value))
    else
      var c :- GetCell(b, ps[0]);
      if !hasValue then SameFrom(b, ps[1..], true, c)
      else if c != value then Ok((false, None))
      else SameFrom(b, ps[1..], true, value)
  }

  /** The cells of an examined line are three distinct grid cells. */
  lemma LineShape(line: BoardLine)
    requires line in AllLines
    ensures |LineCells(line)| == 3
    ensures forall c | c in LineCells(line) :: c.OnBoard()
    ensures forall i, j | 0 <= i < j < 3 :: LineCells(line)[i].Index() != LineCells(line)[j].Index()
  {
    AllLinesCells();
  }

  /** `IsLineSame`: whether all cells of the line hold one value, and which. */
  function IsLineSame(b: Board, line: BoardLine): (r: Result<(bool, PlayerId)>)
    ensures line.kind == NoLine ==> r == Ok((true, None))
  {
    SameFrom(b, LineCells(line), false, None)
  }

  /** On an examined line IsLineSame succeeds, answers true exactly when the
      three cells agree, and then reports their common value. */
  lemma IsLineSameCorrect(b: Board, line: BoardLine)
    requires line in AllLines
    ensures IsLineSame(b, line).Ok?
    ensures IsLineSame(b, line).value.0 <==> exists p :: Uniform(b.cells, line, p)
    ensures IsLineSame(b, line).value.0 ==> Uniform(b.cells, line, IsLineSame(b, line).value.1)
    ensures !IsLineSame(b, line).value.0 ==> IsLineSame(b, line).value.1 == None
  {
    LineShape(line);
    var cs := LineCells(line);
    SameFromThree(b, cs);
    var v := b.cells[cs[0].Index()];
    assert cs[0] in cs;
    if IsLineSame(b, line).value.0 {
      assert Uniform(b.cells, line, v);
    } else {
      var d :| d in cs && b.cells[d.Index()] != v;
      assert forall p :: !Uniform(b.cells, line, p);
    }
  }

  /** IsLineSame's loop over three grid cells: true exactly when all hold
      the first one's value, which it then reports; None on false. */
  lemma SameFromThree(b: Board, cs: seq<Position>)
    requires |cs| == 3 && forall c | c in cs :: c.Index() < 9
    ensures SameFrom(b, cs, false, None).Ok?
    ensures var r := SameFrom(b, cs, false, None).value;
      && (r.0 <==> forall c | c in cs :: b.cells[c.Index()] == b.cells[cs[0].Index()])
      && (r.0 ==> r.1 == b.cells[cs[0].Index()])
      && (!r.0 ==> r.1 == None)
  {
    var v := b.cells[cs[0].Index()];
    assert cs[0] in cs;
    assert forall c | c in cs[1..] :: c in cs;
    assert forall c | c in cs :: c == cs[0] || c in cs[1..];
    assert SameFrom(b, cs, false, None) == SameFrom(b, cs[1..], true, v);
  }


  /** Line `k` (in the examined order) is the first completed line from `from` on. */
  ghost predicate FirstWonFrom(cells: Cells, from: nat, k: nat) {
    && from <= k < |AllLines|
    && Won(cells, AllLines[k])
    && forall j | from <= j < k :: !Won(cells, AllLines[j])
  }

  /** No line from `from` on is completed. */
  ghost predicate NoneWonFrom(cells: Cells, from: nat) {
    forall j | from <= j < |AllLines| :: !Won(cells, AllLines[j])
  }

  /** The outcome recorded when line `k` is completed: Win when the line
      belongs to SelfPlayer, Lose otherwise. */
  ghost predicate RecordsLine(r: Board, b: Board, k: nat)
    requires k < |AllLines|
  {
    && r.winnerLine == AllLines[k]
    && r.result == (if Uniform(b.cells, AllLines[k], b.selfPlayer) then Win else Lose)
  }

  /** What IsLineSame tells CheckGameOver about line `k`: the line is won
      exactly when its cells agree on a real side, and then it belongs to
      SelfPlayer exactly when that side is SelfPlayer. */
  lemma LineVerdict(b: Board, k: nat)
    requires k < |AllLines|
    ensures IsLineSame(b, AllLines[k]).Ok?
    ensures var (same, value) := IsLineSame(b, AllLines[k]).value;
      && (Won(b.cells, AllLines[k]) <==> same && value != None)
      && (same && value != None ==> (Uniform(b.cells, AllLines[k], b.selfPlayer) <==> value == b.selfPlayer))
  {
    var line := AllLines[k];
    IsLineSameCorrect(b, line);
    LineShape(line);
    var c := LineCells(line)[0];
    assert c in LineCells(line);
    var (same, value) := IsLineSame(b, line).value;
    assert forall p | Uniform(b.cells, line, p) :: p == b.cells[c.Index()];
    if same {
      assert Uniform(b.cells, line, value);
    }
  }

  /** One step of the line scan: a completed line `k` is the first one from
      `k` on; past an open line `k`, the first completed line and the absence
      of one are the same from `k` and from `k + 1`. */
  lemma ScanStep(cells: Cells, k: nat)
    requires k < |AllLines|
    ensures Won(cells, AllLines[k]) ==> FirstWonFrom(cells, k, k) && forall m | FirstWonFrom(cells, k, m) :: m == k
    ensures !Won(cells, AllLines[k]) ==>
      && (forall m | FirstWonFrom(cells, k, m) :: FirstWonFrom(cells, k + 1, m))
      && (NoneWonFrom(cells, k) <==> NoneWonFrom(cells, k + 1))
  {
  }

  /** The loop of CheckGameOver from line `k` on. */
  function CheckFrom(b: Board, k: nat): (r: Board)
    requires k <= |AllLines|
    decreases |AllLines| - k
    ensures r.cells == b.cells && r.history == b.history
    ensures r.firstPlayer == b.firstPlayer && r.selfPlayer == b.selfPlayer
    ensures forall m | FirstWonFrom(b.cells, k, m) :: RecordsLine(r, b, m)
    ensures NoneWonFrom(b.cells, k) ==> r == (if |b.history| == 9 then b.(result := Tie) else b)
  {
    if k == |AllLines| then
      if |b.history| == 9 then b.(result := Tie) else b
    else
      LineVerdict(b, k);
      ScanStep(b.cells, k);
      var (same, value) := IsLineSame(b, AllLines[k]).value;
      if same && value != None then
        b.(result := if value == b.selfPlayer then Win else Lose, winnerLine := AllLines[k])
      else
        CheckFrom(b, k + 1)
  }

  /** `CheckGameOver`, run after every placement: the first completed line in
      the examined order decides Win or Lose; with no completed line a full
      history of nine moves is a Tie; otherwise nothing changes. */
  function CheckGameOver(b: Board): (r: Board)
    ensures r.cells == b.cells && r.history == b.history
    ensures r.firstPlayer == b.firstPlayer && r.selfPlayer == b.selfPlayer
    ensures forall k | FirstWonFrom(b.cells, 0, k) :: RecordsLine(r, b, k)
    ensures NoneWonFrom(b.cells, 0) ==> r == (if |b.history| == 9 then b.(result := Tie) else b)
  {
    CheckFrom(b, 0)
  }

  /** `PlaceChess`: refuses a finished game, a position off the nine cells and
      an occupied cell; otherwise the mover by history parity takes the cell,
      the position is appended to the history and the result is re-evaluated:
      the first completed line in the examined order decides Win or Lose, else
      a full history of nine moves is a Tie, else the game goes on. */
  function PlaceChess(b: Board, p: Position): (r: Result<Board>)
    ensures b.GameOver() ==> r == Err(GameIsOver)
    ensures !b.GameOver() && p.Index() >= 9 ==> r == Err(IndexOutOfRange)
    ensures !b.GameOver() && p.Index() < 9 && b.cells[p.Index()] != None ==> r == Err(AlreadyPlaced)
    ensures r.Ok? <==> !b.GameOver() && p.Index() < 9 && b.cells[p.Index()] == None && CurrentPlayer(b).Ok?
    ensures r.Ok? ==>
      && r.value.cells[p.Index()] == CurrentPlayer(b).value
      && (forall i | 0 <= i < 9 && i != p.Index() :: r.value.cells[i] == b.cells[i])
      && r.value.history == b.history + [p]
      && r.value.firstPlayer == b.firstPlayer && r.value.selfPlayer == b.selfPlayer
    ensures r.Ok? ==> forall k | FirstWonFrom(r.value.cells, 0, k) :: RecordsLine(r.value, r.value, k)
    ensures r.Ok? && NoneWonFrom(r.value.cells, 0) ==>
      && r.value.winnerLine == b.winnerLine
      && r.value.result == (if |r.value.history| == 9 then Tie else NoResult)
  {
    if b.GameOver() then Err(GameIsOver)
    else if p.Index() >= 9 then Err(IndexOutOfRange)
    else if b.cells[p.Index()] != None then Err(AlreadyPlaced)
    else
      var mover :- CurrentPlayer(b);
      Ok(CheckGameOver(b.(cells := b.cells[p.Index() := mover], history := b.history + [p])))
  }

  /** `RetractChess`: refuses an empty history; otherwise pops the last
      position, empties its cell and clears (does not recompute) the result
      and the winning line. */
  function RetractChess(b: Board): (r: Result<(Board, Position)>)
    ensures r.Err? <==> b.history == [] || b.history[|b.history| - 1].Index() >= 9
    ensures b.history == [] ==> r == Err(EmptyHistory)
    ensures r.Ok? ==>
      var (nb, p) := r.value;
      && p == b.history[|b.history| - 1]
      && nb.history == b.history[..|b.history| - 1]
      && nb.cells[p.Index()] == None
      && (forall i | 0 <= i < 9 && i != p.Index() :: nb.cells[i] == b.cells[i])
      && nb.result == NoResult && nb.winnerLine == DefaultLine
      && nb.firstPlayer == b.firstPlayer && nb.selfPlayer == b.selfPlayer
  {
    if |b.history| == 0 then Err(EmptyHistory)
    else
      var p := b.history[|b.history| - 1];
      if p.Index() >= 9 then Err(IndexOutOfRange)
      else
        Ok((b.(history := b.history[..|b.history| - 1],
               cells := b.cells[p.Index() := None],
               result := NoResult,
               winnerLine := DefaultLine), p))
  }

  /** A legal placement on an open board with the default winning line,
      followed by a retraction, gives back that board and the position. */
  lemma PlaceThenRetract(b: Board, p: Position)
    requires !b.GameOver() && p.Index() < 9 && b.cells[p.Index()] == None && CurrentPlayer(b).Ok?
    requires b.winnerLine == DefaultLine
    ensures PlaceChess(b, p).Ok?
    ensures RetractChess(PlaceChess(b, p).value) == Ok((b, p))
  {
    var nb := PlaceChess(b, p).value;
    assert nb.history[..|nb.history| - 1] == b.history;
    assert nb.cells[p.Index() := None] == b.cells;
  }

  /** Between two real sides the rounds alternate: after any legal
      placement, it is SelfPlayer's round exactly when it was not before. */
  lemma SelfRoundAlternates(b: Board, p: Position)
    requires !b.GameOver() && p.Index() < 9 && b.cells[p.Index()] == None
    requires b.firstPlayer != None && b.selfPlayer != None
    ensures PlaceChess(b, p).Ok?
    ensures IsSelfRound(b).Ok? && IsSelfRound(PlaceChess(b, p).value).Ok?
    ensures IsSelfRound(PlaceChess(b, p).value).value == !IsSelfRound(b).value
  {
    var n := |b.history|;
    TurnAlternates(b.firstPlayer, n + 1);
    assert CurrentPlayer(b) == TurnOwner(b.firstPlayer, n);
    var nb := PlaceChess(b, p).value;
    assert |nb.history| == n + 1;
    assert CurrentPlayer(nb) == TurnOwner(b.firstPlayer, n + 1);
  }

  /** The scan of GetEmptyCells from index `i` on. */
  function EmptyFrom(cells: Cells, i: nat): (r: seq<Position>)
    requires i <= 9
    decreases 9 - i
    ensures forall k | 0 <= k < |r| :: r[k].OnBoard() && i <= r[k].Index() && cells[r[k].Index()] == None
    ensures forall j | i <= j < 9 && cells[j] == None :: FromIndex(j) in r
    ensures forall k, m | 0 <= k < m < |r| :: r[k].Index() < r[m].Index()
  {
    if i == 9 then []
    else if cells[i] == None then [FromIndex(i)] + EmptyFrom(cells, i + 1)
    else EmptyFrom(cells, i + 1)
  }

  /** `GetEmptyCells`: exactly the empty cells, in ascending index order. */
  function EmptyCells(b: Board): (r: seq<Position>)
    ensures forall k | 0 <= k < |r| :: r[k].OnBoard() && b.cells[r[k].Index()] == None
    ensures forall j | 0 <= j < 9 && b.cells[j] == None :: FromIndex(j) in r
    ensures forall k, m | 0 <= k < m < |r| :: r[k].Index() < r[m].Index()
  {
    EmptyFrom(b.cells, 0)
  }

  /** The loop of FindFinalCell over the remaining cells `ps` of a line. */
  function FinalFrom(cells: Cells, ps: seq<Position>, player: PlayerId, hasEmpty: bool, value: Position): (r: (bool, Position))
    requires forall c | c in ps :: c.Index() < 9
    decreases |ps|
  {
    if ps == [] then (hasEmpty, value)
    else
      var cell := cells[ps[0].Index()];
      if cell == player then FinalFrom(cells, ps[1..], player, hasEmpty, value)
      else if cell != None then (false, value)
      else if hasEmpty then (false, value)
      else FinalFrom(cells, ps[1..], player, true, ps[0])
  }

  /** `FindFinalCell`; only examined lines are ever passed to it (it is private). */
  function FindFinalCell(b: Board, line: BoardLine, player: PlayerId): (r: (bool, Position))
    requires line in AllLines
  {
    LineShape(line);
    FinalFrom(b.cells, LineCells(line), player, false, Position(0, 0))
  }

  /** Line `line` has exactly one empty cell, `c`, and `player` holds the other two. */
  ghost predicate Finishes(cells: Cells, line: BoardLine, player: PlayerId, c: Position)
  {
    && player != None
    && c in LineCells(line) && c.Index() < 9 && cells[c.Index()] == None
    && forall d | d in LineCells(line) && d != c :: d.Index() < 9 && cells[d.Index()] == player
  }

  /** FindFinalCell answers true exactly for a line that `player` can finish
      with one move, and then names the finishing cell; a line holding an
      opponent piece, two empty cells or no empty cell yields nothing, and
      so does the empty player. */
  lemma FindFinalCellCorrect(b: Board, line: BoardLine, player: PlayerId)
    requires line in AllLines
    ensures FindFinalCell(b, line, player).0 ==> Finishes(b.cells, line, player, FindFinalCell(b, line, player).1)
    ensures forall c | Finishes(b.cells, line, player, c) :: FindFinalCell(b, line, player) == (true, c)
  {
    LineShape(line);
    forall c | Finishes(b.cells, line, player, c)
      ensures FindFinalCell(b, line, player) == (true, c)
    {
      FinalFromThree(b.cells, LineCells(line), player, c);
    }
    FinalFromSound(b.cells, LineCells(line), player, false, Position(0, 0));
  }

  /** The completeness half of FindFinalCellCorrect, on any three grid
      cells: the scan skips the player's two cells and remembers the empty
      one. */
  lemma FinalFromThree(cells: Cells, cs: seq<Position>, player: PlayerId, c: Position)
    requires |cs| == 3 && forall d | d in cs :: d.Index() < 9
    requires cs[0] != cs[1] && cs[0] != cs[2] && cs[1] != cs[2]
    requires player != None && c in cs && cells[c.Index()] == None
    requires forall d | d in cs && d != c :: cells[d.Index()] == player
    ensures FinalFrom(cells, cs, player, false, Position(0, 0)) == (true, c)
  {
    assert cs[1..][1..] == [cs[2]] && cs[1..][1..][1..] == [];
    assert cs[0] in cs && cs[1] in cs && cs[2] in cs;
    var r := FinalFrom(cells, cs, player, false, Position(0, 0));
    var z := Position(0, 0);
    if c == cs[0] {
      assert r == FinalFrom(cells, cs[1..], player, true, c);
      assert r == FinalFrom(cells, [cs[2]], player, true, c);
    } else if c == cs[1] {
      assert r == FinalFrom(cells, cs[1..], player, false, z);
      assert r == FinalFrom(cells, [cs[2]], player, true, c);
    } else {
      assert r == FinalFrom(cells, cs[1..], player, false, z);
      assert r == FinalFrom(cells, [cs[2]], player, false, z);
    }
  }

  /** What a true answer of the FindFinalCell loop guarantees. */
  lemma {:induction false} FinalFromSound(cells: Cells, ps: seq<Position>, player: PlayerId, hasEmpty: bool, value: Position)
    requires forall c | c in ps :: c.Index() < 9
    decreases |ps|
    ensures var r := FinalFrom(cells, ps, player, hasEmpty, value);
      && (r.0 && !hasEmpty ==>
            && player != None && r.1 in ps && cells[r.1.Index()] == None
            && forall d | d in ps && d != r.1 :: cells[d.Index()] == player)
      && (r.0 && hasEmpty ==> r.1 == value && forall d | d in ps :: cells[d.Index()] == player)
  {
    if ps != [] {
      var cell := cells[ps[0].Index()];
      if cell == player {
        FinalFromSound(cells, ps[1..], player, hasEmpty, value);
      } else if cell == None && !hasEmpty {
        FinalFromSound(cells, ps[1..], player, true, ps[0]);
      }
    }
  }

  /** `player` can complete `line` with one move. */
  ghost predicate Finishable(cells: Cells, line: BoardLine, player: PlayerId) {
    exists c :: Finishes(cells, line, player, c)
  }

  /** The positions in AllLines, from `k` on, of the lines `player` can
      complete with one move, in ascending order. */
  ghost function FinishableFrom(cells: Cells, player: PlayerId, k: nat): (ms: seq<nat>)
    requires k <= |AllLines|
    decreases |AllLines| - k
    ensures forall i | 0 <= i < |ms| :: k <= ms[i] < |AllLines| && Finishable(cells, AllLines[ms[i]], player)
    ensures forall i, j | 0 <= i < j < |ms| :: ms[i] < ms[j]
  {
    if k == |AllLines| then []
    else
      var rest := FinishableFrom(cells, player, k + 1);
      if Finishable(cells, AllLines[k], player) then [k] + rest else rest
  }

  /** Every line from `k` on that `player` can complete is listed. */
  lemma {:induction false} FinishableFromComplete(cells: Cells, player: PlayerId, k: nat, m: nat)
    requires k <= m < |AllLines| && Finishable(cells, AllLines[m], player)
    decreases m - k
    ensures m in FinishableFrom(cells, player, k)
  {
    if k < m {
      FinishableFromComplete(cells, player, k + 1, m);
    }
  }

  /** The loop of FindFinalCells from line `k` on. */
  function FinalCellsFrom(b: Board, player: PlayerId, k: nat): (r: seq<Position>)
    requires k <= |AllLines|
    decreases |AllLines| - k
    ensures forall c | c in r :: c.OnBoard() && b.cells[c.Index()] == None
    ensures forall c :: c in r <==> exists m | k <= m < |AllLines| :: Finishes(b.cells, AllLines[m], player, c)
  {
    if k == |AllLines| then []
    else
      var line := AllLines[k];
      LineShape(line);
      FindFinalCellCorrect(b, line, player);
      var rest := FinalCellsFrom(b, player, k + 1);
      var (found, cell) := FindFinalCell(b, line, player);
      if found then [cell] + rest else rest
  }

  /** `FindFinalCells`: line by line in the examined order, the cell where
      `player` would complete that line right now. A line contributes one
      entry, so a cell completing two lines is listed twice; every entry is
      an empty grid cell. */
  function FindFinalCells(b: Board, player: PlayerId): (r: seq<Position>)
    ensures forall c | c in r :: c.OnBoard() && b.cells[c.Index()] == None
    ensures forall c :: c in r <==> exists m | 0 <= m < |AllLines| :: Finishes(b.cells, AllLines[m], player, c)
    ensures |r| == |FinishableFrom(b.cells, player, 0)|
    ensures forall i | 0 <= i < |r| :: Finishes(b.cells, AllLines[FinishableFrom(b.cells, player, 0)[i]], player, r[i])
    ensures player == None ==> r == []
  {
    var r := FinalCellsFrom(b, player, 0);
    assert r != [] ==> r[0] in r;
    FinalCellsInOrder(b, player, 0);
    r
  }

  /** `cells` lists, position by position, the finishing cell of the lines
      at the positions `ms` of AllLines. */
  ghost predicate Paired(b: Board, player: PlayerId, cells: seq<Position>, ms: seq<nat>) {
    && |cells| == |ms|
    && forall i | 0 <= i < |cells| :: ms[i] < |AllLines| && Finishes(b.cells, AllLines[ms[i]], player, cells[i])
  }

  /** Prepending a line's finishing cell and that line's position keeps the
      pairing. */
  lemma PairedCons(b: Board, player: PlayerId, cells: seq<Position>, ms: seq<nat>, c: Position, m: nat)
    requires Paired(b, player, cells, ms)
    requires m < |AllLines| && Finishes(b.cells, AllLines[m], player, c)
    ensures Paired(b, player, [c] + cells, [m] + ms)
  {
    forall i | 0 <= i < |[c] + cells|
      ensures ([m] + ms)[i] < |AllLines| && Finishes(b.cells, AllLines[([m] + ms)[i]], player, ([c] + cells)[i])
    {
      if i > 0 {
        assert ([c] + cells)[i] == cells[i - 1] && ([m] + ms)[i] == ms[i - 1];
      }
    }
  }

  /** The scan from line `k` lists, for the i-th line from `k` on that
      `player` can complete, that line's finishing cell, and nothing else. */
  lemma {:induction false} FinalCellsInOrder(b: Board, player: PlayerId, k: nat)
    requires k <= |AllLines|
    decreases |AllLines| - k
    ensures Paired(b, player, FinalCellsFrom(b, player, k), FinishableFrom(b.cells, player, k))
  {
    if k < |AllLines| {
      FinalCellsInOrder(b, player, k + 1);
      var line := AllLines[k];
      FindFinalCellCorrect(b, line, player);
      var rest := FinalCellsFrom(b, player, k + 1);
      var ms := FinishableFrom(b.cells, player, k + 1);
      var (found, cell) := FindFinalCell(b, line, player);
      if found {
        assert Finishable(b.cells, line, player);
        assert FinalCellsFrom(b, player, k) == [cell] + rest;
        assert FinishableFrom(b.cells, player, k) == [k] + ms;
        PairedCons(b, player, rest, ms, cell, k);
      } else {
        assert !Finishable(b.cells, line, player);
        assert FinalCellsFrom(b, player, k) == rest;
        assert FinishableFrom(b.cells, player, k) == ms;
      }
    }
  }

  /** `Winner`: SelfPlayer on a Win, its opponent on a Lose, None otherwise. */
  function Winner(b: Board): (r: Result<PlayerId>)
    ensures b.result == Win ==> r == Ok(b.selfPlayer)
    ensures b.result == Lose ==> r == Opponent(b.selfPlayer)
    ensures b.result == NoResult || b.result == Tie ==> r == Ok(None)
  {
    match b.result
    case Win => Ok(b.selfPlayer)
    case Lose => Opponent(b.selfPlayer)
    case _ => Ok(None)
  }

  /** The cells OnAfterDeserialize rebuilds from a history: move `i` goes to
      the side whose turn it was, later writes overwrite earlier ones, and the
      first failing move (an undefined opponent, an index past the nine cells)
      aborts the replay. */
  function ReplayCells(first: PlayerId, h: seq<Position>): (r: Result<Cells>)
    decreases |h|
  {
    if h == [] then Ok(EmptyGrid)
    else
      var cs :- ReplayCells(first, h[..|h| - 1]);
      var mover :- TurnOwner(first, |h| - 1);
      var p := h[|h| - 1];
      if p.Index() < 9 then Ok(cs[p.Index() := mover]) else Err(IndexOutOfRange)
  }

  /** The board after `OnAfterDeserialize`: only the cells are rebuilt. */
  function Replay(b: Board): Result<Board> {
    var cs :- ReplayCells(b.firstPlayer, b.history);
    Ok(b.(cells := cs))
  }

  /** Once a replay prefix fails, every longer prefix fails with the same fault. */
  lemma {:induction false} ReplayErrPersists(first: PlayerId, h: seq<Position>, i: nat)
    requires i <= |h|
    requires ReplayCells(first, h[..i]).Err?
    decreases |h| - i
    ensures ReplayCells(first, h) == ReplayCells(first, h[..i])
  {
    if i < |h| {
      assert h[..i + 1][..i] == h[..i];
      ReplayErrPersists(first, h, i + 1);
    } else {
      assert h[..i] == h;
    }
  }

  /** `OnAfterDeserialize`: replays the history into fresh cells, in order. */
  method OnAfterDeserialize(b: Board) returns (r: Result<Board>)
    ensures r == Replay(b)
  {
    var h := b.history;
    var cells: Cells := EmptyGrid;
    var i := 0;
    while i < |h|
      invariant 0 <= i <= |h|
      invariant ReplayCells(b.firstPlayer, h[..i]) == Ok(cells)
    {
      assert h[..i + 1][..i] == h[..i];
      var mover := TurnOwner(b.firstPlayer, i);
      if mover.Err? {
        ReplayErrPersists(b.firstPlayer, h, i + 1);
        return Err(mover.error);
      }
      var pos := h[i];
      if pos.Index() >= 9 {
        ReplayErrPersists(b.firstPlayer, h, i + 1);
        return Err(IndexOutOfRange);
      }
      cells := cells[pos.Index() := mover.value];
      i := i + 1;
    }
    assert h[..i] == h;
    r := Ok(b.(cells := cells));
  }
}
