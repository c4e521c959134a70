# Tic-tac-toe core: board state, AI players, statistics and unlocks

This project models the game logic of a Unity tic-tac-toe game in Dafny
and proves properties of it. It covers four parts.

- **The board state** (`BoardContext`): nine cells, the move history, the
  first and self player identities, and a cached game result with its
  winning line. It has a constructor, `PlaceChess` and `RetractChess`, the
  line scan `CheckGameOver`, and the queries `GetEmptyCells`,
  `FindFinalCells` and `Winner`. It also has the replay that rebuilds the
  cells from the history after deserialization.
- **The three AI players:**
  - random: any empty cell;
  - attack-or-block: complete a line, else block the opponent's line,
    else play randomly;
  - minimax: an exhaustive search over the game tree. It places each
    candidate move, searches the reply and retracts the move on the same
    board.
- **The statistics and feature-unlock store** (`StorageManager`):
  per-target win, lose and tie totals and streaks, and the unlock scan over
  the configured features.
- **The display-name helpers** (`SubClassUtility`): they strip a
  `<Base>_` prefix from a subclass name and split camel case into words.

The model is functional. A board is an immutable value. Every operation
that mutates in C# returns the new state. Every exception becomes an
`Err(Fault)` of `Result` and propagates through `:-` as the exception
propagates in C#. Only the `Type` arguments of `ExtractSubClassName` and
`GetSubClassNames` become an `Option`, because the code tests them for
null. The name string of `StandardizeVarName`, a feature's `Key`, the
board history and the subtype collection are taken to be non-null. Byte casts and C#'s truncating `/` and `%` are written out in
`Primitives`. The minimax search threads its board through place,
recursive search and retract, so "the board comes back unchanged" is a
proved property (`Minimax.Minimax`) and not an assumption.

Modules: `Results` (faults, results, null), `Primitives` (PlayerId,
Position), `Lines` (the eight lines), `Board` (the board state),
`Invariants` (the well-formedness invariant and its preservation),
`Outcomes` (win, tie and move-count facts), `AI` (random and
attack-or-block players), `Minimax` (the search), `Storage`
(statistics and unlocks) and `Names` (display names).

## Model

| member | source | states |
|---|---|---|
| Primitives.Opponent | Assets/Scripts/BoardController.cs:19 | The opponent of None throws. X and O map to the other side, which is never None or the side itself. |
| Primitives.OpponentInvolutive | Assets/Scripts/BoardController.cs:19 | The opponent of the opponent of a real side is that side. |
| Primitives.FromIndex | Assets/Scripts/BoardController.cs:41 | For an index 0..8 the byte-cast column/row pair is a grid cell whose Index is that index. |
| Primitives.IndexRoundTrip | Assets/Scripts/BoardController.cs:40-41 | For every grid cell, Index is below 9 and FromIndex(Index) gives the cell back. |
| Primitives.Compare | Assets/Scripts/BoardController.cs:47 | The row-major comparison is 0 exactly for equal positions and negative exactly when the first position is in an earlier row, or in the same row and an earlier column. Like `byte.CompareTo`, it returns the byte difference of the deciding coordinate, between -255 and 255. |
| Primitives.CompareIsDifference | Assets/Scripts/BoardController.cs:47 | The comparison is not normalised: (0,0) against (2,0) gives -2, and (1,2) against (1,0) gives 2. |
| Primitives.CompareMatchesIndex | Assets/Scripts/BoardController.cs:40-47 | On the grid, "compares below" is "has a smaller linear index". |
| Primitives.InvalidOffBoard | Assets/Scripts/BoardController.cs:35 | The (0xFF, 0xFF) sentinel is not a grid cell and its index lies past the nine cells. |
| Lines.CellExact | Assets/Scripts/BoardController.cs:43 | The `(int, int)` conversion keeps every pair of byte values and wraps other values modulo 256. |
| Lines.LineCells | Assets/Scripts/BoardController.cs:219-241 | A line of type None has no cells; every other line has three. |
| Lines.LineGeometry | Assets/Scripts/BoardController.cs:219-241 | For index 0..2, a row's cells share its y, a column's cells share its x, the main diagonal has x = y and the anti-diagonal x + y = 2, all on the grid. |
| Lines.AllLinesCells | Assets/Scripts/BoardController.cs:208-241 | The eight lines are examined in the order row 0, col 0, row 1, col 1, row 2, col 2, main diagonal, anti-diagonal, and each visits the listed three cells. |
| Board.New | Assets/Scripts/BoardController.cs:95-103 | The constructor fails exactly when self is None and does not move first. Otherwise the board is empty with no history, no result and the default line. The first player is self or self's opponent according to the flag. |
| Board.CurrentPlayer | Assets/Scripts/BoardController.cs:85 | An even history gives FirstPlayer. An odd history gives a real side other than FirstPlayer, and throws exactly when FirstPlayer is None. A real FirstPlayer always yields a real side. |
| Board.SelfRoundAlternates | Assets/Scripts/BoardController.cs:85-86 | Between two real sides, a legal placement flips whether it is SelfPlayer's round. |
| Board.TurnAlternates | Assets/Scripts/BoardController.cs:85 | With a real first player, every turn owner is a real side and consecutive turns belong to different sides. |
| Invariants.CurrentPlayerDefined | Assets/Scripts/BoardController.cs:85 | On a well-formed board the side to move is defined, is not None and differs from the owner of the last move. |
| Board.GetCell | Assets/Scripts/BoardController.cs:135-138 | A read succeeds exactly for an index below 9 and returns that cell; otherwise it fails with IndexOutOfRange. |
| Board.IsLineSame | Assets/Scripts/BoardController.cs:186-205 | The default line, of type None, has no cells, so the check answers true with value None. Its behaviour on the eight examined lines is stated by IsLineSameCorrect. |
| Board.IsLineSameCorrect | Assets/Scripts/BoardController.cs:186-205 | On an examined line the check answers true exactly when the three cells agree, and then reports their value; on false it reports None. |
| Board.CheckGameOver | Assets/Scripts/BoardController.cs:165-183 | The first completed line in examined order is recorded as the winning line, with Win when its value is SelfPlayer and Lose otherwise. With no completed line, nine moves give Tie and anything else leaves the board unchanged. Cells, history and players never change. |
| Board.PlaceChess | Assets/Scripts/BoardController.cs:141-150 | The errors in source order: GameIsOver, then IndexOutOfRange, then AlreadyPlaced. Success holds exactly when none applies and the mover is defined. On success the mover takes the cell, no other cell changes, the position is appended, and the result is re-evaluated as in CheckGameOver. |
| Board.RetractChess | Assets/Scripts/BoardController.cs:153-163 | Fails on an empty history (or a stored index past the cells). Otherwise it pops the last position, empties its cell, leaves the other cells alone, and clears the result and winning line. |
| Board.PlaceThenRetract | Assets/Scripts/BoardController.cs:141-163 | On an open board with the default winning line, placing on an empty grid cell with a defined mover succeeds. Retracting afterwards gives back exactly the original board and the placed position. |
| Invariants.NewIsPlayable | Assets/Scripts/BoardController.cs:95-103 | A new game between real sides satisfies the board invariant and has a free cell. |
| Invariants.PlacePreservesPlayable | Assets/Scripts/BoardController.cs:141-150 | On a well-formed open board, placing on an empty grid cell succeeds, keeps the board invariant and removes exactly one empty cell. The invariant covers distinct on-grid history, cell owners by turn parity, and empty cells plus history making nine. |
| Invariants.RetractPreservesPlayable | Assets/Scripts/BoardController.cs:153-163 | On a well-formed board with moves, retraction succeeds, keeps the invariant and frees exactly one cell. |
| Board.EmptyCells | Assets/Scripts/BoardController.cs:243-249 | Lists exactly the empty grid cells, in strictly increasing index order. |
| Board.FindFinalCellCorrect | Assets/Scripts/BoardController.cs:258-278 | The private FindFinalCell answers true for a line exactly when the line has one empty cell and the player holds the other two, and then names that cell. It answers false for the None player. |
| Board.FindFinalCells | Assets/Scripts/BoardController.cs:251-256 | Entry i is the finishing cell of the i-th line, in examined order, that the player can complete with one move. There is one entry per such line, so a cell completing two lines appears twice. A cell is listed exactly when it finishes some line, every entry is an empty grid cell, and nothing is listed for None. |
| Board.FinishableFromComplete | Assets/Scripts/BoardController.cs:253-255 | The line positions the listing follows include every line the player can complete, so no finishing line is skipped. |
| Outcomes.WinnerOwnsLine | Assets/Scripts/BoardController.cs:88-93 | After a placement between real sides, Winner is defined. It is a real side exactly when the result is Win or Lose, and that side holds every cell of the recorded winning line. |
| Board.ReplayErrPersists | Assets/Scripts/BoardController.cs:122-127 | A replay that fails on a prefix of the history fails the same way on the whole history. |
| Board.OnAfterDeserialize | Assets/Scripts/BoardController.cs:119-128 | The loop computes the recursive replay of the history into fresh cells. |
| Invariants.ReplayRebuilds | Assets/Scripts/BoardController.cs:119-128 | On a well-formed board the replay from the history alone gives back the board exactly. |
| Invariants.ReplayPrefix | Assets/Scripts/BoardController.cs:122-127 | Replaying the first k moves rebuilds exactly the cells those moves occupy. |
| Outcomes.LineWinDetected | Assets/Scripts/BoardController.cs:165-176 | On a board whose only pieces are one side's three cells of line k, line k is recorded as the winning line, with Win when that side is SelfPlayer and Lose otherwise. |
| Outcomes.FullBoardTie | Assets/Scripts/BoardController.cs:178-182 | A well-formed full board with no completed line is a Tie. |
| Outcomes.NoWinBeforeFifth | Assets/Scripts/BoardController.cs:165-176 | On a well-formed board with fewer than five moves no line is completed. |
| AI.GetAIPlayer | Assets/Scripts/AIController.cs:11-19 | Level 0 gives the random player, level 1 attack-or-block, and every other level minimax. |
| AI.Pick | Assets/Scripts/AIController.cs:32-33 | Indexing the candidate list by the random draw succeeds exactly for a non-empty list and yields a member; on an empty list it fails with ArgumentOutOfRange. |
| AI.RandomMove | Assets/Scripts/AIController.cs:28-34 | Succeeds exactly when some cell is empty, and then returns one of the empty cells. |
| AI.AttackOrBlockMove | Assets/Scripts/AIController.cs:43-65 | Fails when the side to move is undefined. Any move returned is an empty grid cell. |
| AI.AttackOrBlockPrefers | Assets/Scripts/AIController.cs:48-64 | If the mover can complete a line, the move completes one. Otherwise, if the opponent can, the move blocks such a cell. Otherwise the answer equals the random player's with the same draw. |
| Minimax.Minimax | Assets/Scripts/AIController.cs:81-114 | The search gives back the board it was handed, after every place/recurse/retract step. |
| Minimax.MinimaxTerminal | Assets/Scripts/AIController.cs:83-85 | A finished game scores +1 for Win, -1 for Lose and 0 for Tie, with the Invalid move, for either side. |
| Minimax.MinimaxRange | Assets/Scripts/AIController.cs:83-113 | On a playable board every search score is -1, 0 or +1; the int.MaxValue/MinValue seeds never leak out. |
| Minimax.MinimaxChoice | Assets/Scripts/AIController.cs:86-113 | On an open board the move is an empty cell. Its score is the minimum of the move scores on the AI's turn and the maximum otherwise. It is the cell at the returned position of GetEmptyCells order, and every cell before it has a strictly worse score, so it is the first reaching the best. |
| Minimax.ScanIsFold | Assets/Scripts/AIController.cs:90-97 | The place/recurse/retract loop equals a fold of strict improvements over the child scores, and returns the board unchanged. |
| Minimax.FoldBest | Assets/Scripts/AIController.cs:95-96 | The strict `<`/`>` update ends on a score no candidate beats. It keeps the seed when nothing beats it, and otherwise picks the first candidate with the best score. |
| Minimax.MinimaxMove | Assets/Scripts/AIController.cs:74-78 | The top-level call (AI's turn) answers the Invalid sentinel on a finished board. On an open board it answers an empty cell. That cell's reply score is the lowest over all empty cells, and every empty cell earlier in GetEmptyCells order scores strictly higher. |
| Minimax.MinimaxMoveLowest | Assets/Scripts/AIController.cs:74-78 | On an open board the AI's move is an empty cell whose reply score is at most that of every empty cell. |
| Minimax.MinimaxMoveFirst | Assets/Scripts/AIController.cs:74-78 | On an open board every empty cell with a lower index than the AI's move has a strictly higher reply score. Ties go to the earliest cell. |
| Storage.AddResult | Assets/Scripts/StorageManager.cs:88-111 | A Win, Lose or Tie increments its total and its streak and resets the streaks it breaks. Not-lose grows on Win and Tie and resets on Lose. No result leaves the record alone. |
| Storage.AddPreservesConsistent | Assets/Scripts/StorageManager.cs:88-111 | The streak invariant is preserved: streaks bounded by totals, at most one of win/lose/tie running, and not-lose covering win and tie streaks. |
| Storage.ReplayIsSummary | Assets/Scripts/StorageManager.cs:84-113 | After any sequence of results from a fresh record, the totals are the counts and the streaks are the trailing runs, and the record is consistent. |
| Storage.Load | Assets/Scripts/StorageManager.cs:63-75 | A missing target reads as a fresh zero record; a present one reads as stored. |
| Storage.AddBattleData | Assets/Scripts/StorageManager.cs:84-113 | Only the target's record changes (created if absent), updated by the result; every other record and key stays. |
| Storage.SetFeatureUnlock | Assets/Scripts/StorageManager.cs:56-61 | The feature's key reads unlocked afterwards and every other key reads as before. |
| Storage.Qualifying | Assets/Scripts/StorageManager.cs:123-142 | A feature qualifies exactly when it belongs to the target, is still locked and meets its threshold switch. Manual never qualifies; not-lose totals are wins plus ties. |
| Storage.UnlockFor | Assets/Scripts/StorageManager.cs:115-148 | Records the result first. Unlocks every qualifying feature, and returns only qualifying ones, with a count equal to the number returned. Never re-locks, and each newly unlocked key comes from a returned feature. When feature keys are distinct, the returned list is exactly the qualifying features in scan order. |
| Storage.TryUnlockFeature | Assets/Scripts/StorageManager.cs:150-156 | The result counts for target -1 and then for the target. Every feature that qualifies in either stage is unlocked afterwards. Every listed feature was locked before and is unlocked after, and the -1 features come first. Nothing unlocked before is re-locked. When keys are distinct and the target is not -1, the list is exactly the qualifying -1 features followed by the qualifying target features, each in scan order. |
| Names.Capitalize | Assets/Scripts/Utility/SubClassUtility.cs:38-42 | A lower-case first letter becomes its upper-case form; any other character stays. |
| Names.StandardizeVarName | Assets/Scripts/Utility/SubClassUtility.cs:28-54 | Short and `iValue`-shaped names come back unchanged. Otherwise the first character is capitalized, every character keeps its order, one space goes before each lower-to-upper boundary, and the length grows by the number of boundaries. |
| Names.StandardizedIdempotent | Assets/Scripts/Utility/SubClassUtility.cs:28-54 | Standardizing a standardized name changes nothing. |
| Names.RemoveAllNoOccurrence | Assets/Scripts/Utility/SubClassUtility.cs:24 | Removing a pattern that does not occur leaves the string unchanged. |
| Names.RemoveAllPrefix | Assets/Scripts/Utility/SubClassUtility.cs:24 | A leading occurrence is removed and the rest is processed the same way. |
| Names.ExtractSubClassName | Assets/Scripts/Utility/SubClassUtility.cs:20-25 | The name is null exactly when either type is null. |
| Names.ExtractStripsPrefix | Assets/Scripts/Utility/SubClassUtility.cs:20-25 | A subclass named `<Base>_<rest>` is displayed as the standardized `<rest>`, with any further `<Base>_` removed. |
| Names.ExtractExample | Assets/Scripts/Utility/SubClassUtility.cs:20-54 | `AIPlayer_MiniMax` under `AIPlayer` is displayed as `Mini Max`. |
| Names.GetSubClassNames | Assets/Scripts/Utility/SubClassUtility.cs:9-17 | Produces one name per subclass, in order. An entry is null exactly when the base or that subclass is null. |

## Left out

- Persistence (PlayerPrefs, JSON), logging, delays (`UniTask.WaitForSeconds`) and the thread-pool hop are left out. Unity's `Random.Range` becomes a free `roll` parameter reduced into range.
- The `StorageManager` constructor, `TrySaveLevelState`, `PassedLevelIndex` and `HaveReadGuidance` are left out, because they only do persistence and configuration loading. `GameSettings` is represented by the feature list parameter.
- The MonoBehaviour `BoardController`, the UI, menu, guide, sound and scene classes and the editor drawers are left out. They are presentation and call into the core only.
- The copy constructor and `Clone` are left out: on immutable values a copy is the value itself.
- `GameOver` is the member predicate `Board.GameOver`, with no contract of its own; every contract that mentions a finished game uses it.
- Reflection helpers (`GetSubClassTypes` and the rest of `SubClassUtility` after line 54) are left out. Types are represented by their names.
- Unity serialization of the auto-properties `GameResult` and `WinnerLine` is left out; the replay rebuilds only the cells, as the code does.
- Board.RetractChess: when the popped position's index lies past the nine cells, C# has already removed the history entry before the array write throws. The model returns the error and no partial state.
- Board.RetractChess clears the result and the winning line instead of recomputing them, as the code does. A recompute-on-retract design would differ only on boards that reach a state with a result and keep playing, which `PlaceChess` forbids.
- Board.OnAfterDeserialize: C# leaves the cells partially rebuilt when a stored position throws mid-loop; the model returns the error.
- Storage.AddResult: counters are unbounded integers; the 32-bit wrap-around of `int` after 2^31 games is not modelled.
- Storage.TryUnlockFeature with target -1 counts the result twice for -1, as the code does; it has no callers with -1. For that target, and for feature lists with repeated keys, the exact list is not stated, only its soundness and completeness.
- Storage.UnlockFor states its exact returned list only for distinct feature keys. With a repeated key, the second feature with that key is skipped as already unlocked.
- Storage.IsFeatureUnlock is a predicate with no contract of its own; it is used by every unlock contract.
- Names.StandardizeVarName uses the ASCII letter classes; `char.IsUpper`, `char.IsLower` and `char.IsLetter` also accept non-ASCII letters. A null name is not modelled (C# would throw on `Length`).
- Minimax.Minimax requires a well-formed board (the invariant `Valid`). Every board reached from `New(self, _)` with `self != None` through `PlaceChess` and `RetractChess` satisfies it (Invariants.NewIsPlayable, Invariants.PlacePreservesPlayable, Invariants.RetractPreservesPlayable). The game builds its board with `PlayerId.X` as self. On other boards, for instance one built with self None, termination of the search is not established.
- Minimax.Minimax drops the `depth` argument, which is never read.
- Minimax.MinimaxMove always searches with the AI to choose (`isAiTurn` true), as the code does, whichever side the board's SelfPlayer is.
- Minimax.MinimaxChoice states which move is chosen relative to the children's search scores. The project does not prove that this score equals the game-theoretic value under perfect play, nor any concrete board scenario, since the full tree is not evaluated by the verifier.
