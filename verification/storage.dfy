/** Battle statistics per target and feature unlocking (StorageManager), with
    the PlayerPrefs/JSON persistence stripped: the statistics map, the
    unlocked-feature map and the configured feature list are values. */
module Storage {
  import opened Board

  /** Per-target statistics: totals and current streaks. */
  datatype BattleData = BattleData(
    winCount: int, loseCount: int, tieCount: int,
    winInRow: int, loseInRow: int, tieInRow: int, notLoseInRow: int)

  /** A freshly created record. */
  const Zero := BattleData(0, 0, 0, 0, 0, 0, 0)

  /** The result switch of `AddBattleData`. */
  function AddResult(d: BattleData, result: GameResult): (r: BattleData)
    ensures result == NoResult ==> r == d
    ensures result != NoResult ==> r.winCount + r.loseCount + r.tieCount == d.winCount + d.loseCount + d.tieCount + 1
    ensures result == Win ==>
      && r.winCount == d.winCount + 1 && r.winInRow == d.winInRow + 1 && r.notLoseInRow == d.notLoseInRow + 1
      && r.loseInRow == 0 && r.tieInRow == 0 && r.loseCount == d.loseCount && r.tieCount == d.tieCount
    ensures result == Lose ==>
      && r.loseCount == d.loseCount + 1 && r.loseInRow == d.loseInRow + 1
      && r.winInRow == 0 && r.tieInRow == 0 && r.notLoseInRow == 0
      && r.winCount == d.winCount && r.tieCount == d.tieCount
    ensures result == Tie ==>
      && r.tieCount == d.tieCount + 1 && r.tieInRow == d.tieInRow + 1 && r.notLoseInRow == d.notLoseInRow + 1
      && r.winInRow == 0 && r.loseInRow == 0 && r.winCount == d.winCount && r.loseCount == d.loseCount
  {
    match result
    case Win => d.(winCount := d.winCount + 1, winInRow := d.winInRow + 1, notLoseInRow := d.notLoseInRow + 1,
                   loseInRow := 0, tieInRow := 0)
    case Lose => d.(loseCount := d.loseCount + 1, loseInRow := d.loseInRow + 1,
                    winInRow := 0, tieInRow := 0, notLoseInRow := 0)
    case Tie => d.(tieCount := d.tieCount + 1, tieInRow := d.tieInRow + 1, notLoseInRow := d.notLoseInRow + 1,
                   winInRow := 0, loseInRow := 0)
    case NoResult => d
  }

  /** The streak invariant: counters are non-negative, streaks never exceed
      their totals, at most one of the win, lose and tie streaks is running,
      and the not-lose streak covers the win and tie streaks and is broken by
      a losing streak. */
  predicate Consistent(d: BattleData) {
    && d.winCount >= 0 && d.loseCount >= 0 && d.tieCount >= 0
    && 0 <= d.winInRow <= d.winCount && 0 <= d.loseInRow <= d.loseCount && 0 <= d.tieInRow <= d.tieCount
    && (d.winInRow == 0 || d.loseInRow == 0)
    && (d.winInRow == 0 || d.tieInRow == 0)
    && (d.loseInRow == 0 || d.tieInRow == 0)
    && d.winInRow <= d.notLoseInRow && d.tieInRow <= d.notLoseInRow
    && d.notLoseInRow <= d.winCount + d.tieCount
    && (d.loseInRow > 0 ==> d.notLoseInRow == 0)
  }

  /** A fresh record is consistent and every update keeps it so. */
  lemma AddPreservesConsistent(d: BattleData, result: GameResult)
    requires Consistent(d)
    ensures Consistent(AddResult(d, result))
  {
  }

  /** The statistics after a sequence of results, from a fresh record. */
  function Replay(results: seq<GameResult>): BattleData {
    if results == [] then Zero else AddResult(Replay(results[..|results| - 1]), results[|results| - 1])
  }

  /** How many of `results` equal `x`. */
  function Count(results: seq<GameResult>, x: GameResult): nat {
    if results == [] then 0
    else Count(results[..|results| - 1], x) + (if results[|results| - 1] == x then 1 else 0)
  }

  /** The length of the run at the end of `results` made of outcomes in
      `run`, games without a result being skipped. */
  function Run(results: seq<GameResult>, run: set<GameResult>): nat {
    if results == [] then 0
    else
      var last := results[|results| - 1];
      if last == NoResult then Run(results[..|results| - 1], run)
      else if last in run then Run(results[..|results| - 1], run) + 1
      else 0
  }

  /** The statistics read off a whole history: totals are counts, streaks
      are the trailing runs. */
  function Summary(results: seq<GameResult>): BattleData {
    BattleData(
      Count(results, Win), Count(results, Lose), Count(results, Tie),
      Run(results, {Win}), Run(results, {Lose}), Run(results, {Tie}), Run(results, {Win, Tie}))
  }

  /** Folding the updates over a history gives exactly its counts and
      trailing streaks, and the result is consistent. */
  lemma {:induction false} ReplayIsSummary(results: seq<GameResult>)
    ensures Replay(results) == Summary(results)
    ensures Consistent(Replay(results))
  {
    if results != [] {
      var prefix := results[..|results| - 1];
      ReplayIsSummary(prefix);
      AddPreservesConsistent(Replay(prefix), results[|results| - 1]);
    }
  }

  /** The statistics store: one record per target id; a missing id reads
      as a fresh record. */
  function Load(battles: map<int, BattleData>, targetId: int): (r: BattleData)
    ensures targetId !in battles ==> r == Zero
    ensures targetId in battles ==> r == battles[targetId]
  {
    if targetId in battles then battles[targetId] else Zero
  }

  /** `AddBattleData`: update the record of `targetId`, creating it if
      needed; no other record changes. */
  function AddBattleData(battles: map<int, BattleData>, targetId: int, result: GameResult): (r: map<int, BattleData>)
    ensures targetId in r && r[targetId] == AddResult(Load(battles, targetId), result)
    ensures r.Keys == battles.Keys + {targetId}
    ensures forall id | id in battles && id != targetId :: r[id] == battles[id]
  {
    battles[targetId := AddResult(Load(battles, targetId), result)]
  }

  /** How a feature unlocks. */
  datatype UnlockType =
    | Manual | WinCount | WinInRowCount | LoseCount | LoseInRowCount
    | TieCount | TieInRowCount | NotLoseCount | NotLoseInRowCount

  /** A configured feature (name and description left out). */
  datatype GameFeature = GameFeature(key: string, kind: UnlockType, count: int, targetId: int)

  /** `IsFeatureUnlock`: a key unlocks only when present and set. */
  predicate IsFeatureUnlock(unlocked: map<string, bool>, key: string) {
    key in unlocked && unlocked[key]
  }

  /** `SetFeatureUnlock`: the feature's key becomes unlocked and every other
      key reads as before. */
  function SetFeatureUnlock(unlocked: map<string, bool>, f: GameFeature): (r: map<string, bool>)
    ensures IsFeatureUnlock(r, f.key)
    ensures forall k | k != f.key :: IsFeatureUnlock(r, k) == IsFeatureUnlock(unlocked, k)
  {
    unlocked[f.key := true]
  }

  /** The threshold switch: the statistic named by the feature's type has
      reached its count; not-lose totals are wins plus ties; a manual
      feature never unlocks here. */
  predicate Meets(d: BattleData, f: GameFeature) {
    match f.kind
    case Manual => false
    case WinCount => d.winCount >= f.count
    case WinInRowCount => d.winInRow >= f.count
    case LoseCount => d.loseCount >= f.count
    case LoseInRowCount => d.loseInRow >= f.count
    case TieCount => d.tieCount >= f.count
    case TieInRowCount => d.tieInRow >= f.count
    case NotLoseCount => d.tieCount + d.winCount >= f.count
    case NotLoseInRowCount => d.notLoseInRow >= f.count
  }

  /** A feature that the scan for `targetId` with statistics `d` unlocks,
      given the unlock state before the scan. */
  predicate Qualifies(unlocked: map<string, bool>, d: BattleData, targetId: int, f: GameFeature) {
    f.targetId == targetId && !IsFeatureUnlock(unlocked, f.key) && Meets(d, f)
  }

  /** The features of `features` that qualify, in order. */
  function Qualifying(unlocked: map<string, bool>, d: BattleData, targetId: int, features: seq<GameFeature>): (r: seq<GameFeature>)
    ensures forall f :: f in r <==> f in features && Qualifies(unlocked, d, targetId, f)
  {
    if features == [] then []
    else
      var last := features[|features| - 1];
      Qualifying(unlocked, d, targetId, features[..|features| - 1])
      + (if Qualifies(unlocked, d, targetId, last) then [last] else [])
  }

  /** No two features share a key. */
  predicate DistinctKeys(features: seq<GameFeature>) {
    forall i, j | 0 <= i < j < |features| :: features[i].key != features[j].key
  }

  /** The private `TryUnlockFeature(targetId, result, unlockFeatures)`:
      record the result for `targetId`, then scan the features in order and
      unlock each one for this target that is still locked and whose
      threshold the updated record meets. Returns the new statistics, the
      new unlock map, the features unlocked (appended in scan order) and
      their count. */
  method UnlockFor(battles: map<int, BattleData>, unlocked: map<string, bool>, features: seq<GameFeature>,
                   targetId: int, result: GameResult)
    returns (battles': map<int, BattleData>, unlocked': map<string, bool>, added: seq<GameFeature>, count: int)
    ensures battles' == AddBattleData(battles, targetId, result)
    ensures count == |added|
    ensures forall f | f in added :: f in features && Qualifies(unlocked, battles'[targetId], targetId, f)
    ensures forall f | f in features && Qualifies(unlocked, battles'[targetId], targetId, f) :: IsFeatureUnlock(unlocked', f.key)
    ensures forall k | IsFeatureUnlock(unlocked, k) :: IsFeatureUnlock(unlocked', k)
    ensures forall k | IsFeatureUnlock(unlocked', k) && !IsFeatureUnlock(unlocked, k) :: exists f | f in added :: f.key == k
    ensures DistinctKeys(features) ==> added == Qualifying(unlocked, battles'[targetId], targetId, features)
  {
    battles' := AddBattleData(battles, targetId, result);
    var data := battles'[targetId];
    unlocked' := unlocked;
    added := [];
    count := 0;
    var i := 0;
    assert features[..0] == [];
    while i < |features|
      invariant ScanInv(unlocked, data, targetId, features, i, unlocked', added)
      invariant count == |added|
    {
      var feature := features[i];
      if feature.targetId != targetId || IsFeatureUnlock(unlocked', feature.key) || !Meets(data, feature) {
        SkipStep(unlocked, data, targetId, features, i, unlocked', added);
      } else {
        TakeStep(unlocked, data, targetId, features, i, unlocked', added);
        unlocked' := SetFeatureUnlock(unlocked', feature);
        added := added + [feature];
        count := count + 1;
      }
      i := i + 1;
    }
    assert features[..i] == features;
  }

  /** What the unlock scan keeps after examining the first `i` features,
      `current` being the unlock map and `added` the features unlocked so
      far. */
  ghost predicate ScanInv(unlocked: map<string, bool>, d: BattleData, targetId: int, features: seq<GameFeature>,
                          i: int, current: map<string, bool>, added: seq<GameFeature>) {
    && 0 <= i <= |features|
    && Sound(unlocked, d, targetId, features[..i], added)
    && Complete(unlocked, d, targetId, features[..i], current)
    && Grows(unlocked, current)
    && Explained(unlocked, current, added)
    && (DistinctKeys(features) ==> added == Qualifying(unlocked, d, targetId, features[..i]))
  }

  /** Every feature unlocked so far was scanned and qualifies. */
  ghost predicate Sound(unlocked: map<string, bool>, d: BattleData, targetId: int, scanned: seq<GameFeature>, added: seq<GameFeature>) {
    forall f | f in added :: f in scanned && Qualifies(unlocked, d, targetId, f)
  }

  /** Every scanned feature that qualifies is unlocked. */
  ghost predicate Complete(unlocked: map<string, bool>, d: BattleData, targetId: int, scanned: seq<GameFeature>, current: map<string, bool>) {
    forall f | f in scanned && Qualifies(unlocked, d, targetId, f) :: IsFeatureUnlock(current, f.key)
  }

  /** Nothing unlocked before is locked now. */
  ghost predicate Grows(unlocked: map<string, bool>, current: map<string, bool>) {
    forall k | IsFeatureUnlock(unlocked, k) :: IsFeatureUnlock(current, k)
  }

  /** Every newly unlocked key belongs to an added feature. */
  ghost predicate Explained(unlocked: map<string, bool>, current: map<string, bool>, added: seq<GameFeature>) {
    forall k | IsFeatureUnlock(current, k) && !IsFeatureUnlock(unlocked, k) :: exists f | f in added :: f.key == k
  }

  /** Passing over a feature of another target, an unlocked one or one
      below its threshold keeps the scan invariant. */
  lemma SkipStep(unlocked: map<string, bool>, d: BattleData, targetId: int, features: seq<GameFeature>,
                 i: int, current: map<string, bool>, added: seq<GameFeature>)
    requires ScanInv(unlocked, d, targetId, features, i, current, added) && i < |features|
    requires features[i].targetId != targetId || IsFeatureUnlock(current, features[i].key) || !Meets(d, features[i])
    ensures ScanInv(unlocked, d, targetId, features, i + 1, current, added)
  {
    var f := features[i];
    assert features[..i + 1] == features[..i] + [f];
    QualifyingSnoc(unlocked, d, targetId, features[..i], f);
    if DistinctKeys(features) && f.targetId == targetId && Meets(d, f) {
      KeyFresh(unlocked, current, added, features, i);
    }
  }

  /** Unlocking a qualifying feature and appending it keeps the scan
      invariant. */
  lemma TakeStep(unlocked: map<string, bool>, d: BattleData, targetId: int, features: seq<GameFeature>,
                 i: int, current: map<string, bool>, added: seq<GameFeature>)
    requires ScanInv(unlocked, d, targetId, features, i, current, added) && i < |features|
    requires features[i].targetId == targetId && !IsFeatureUnlock(current, features[i].key) && Meets(d, features[i])
    ensures ScanInv(unlocked, d, targetId, features, i + 1, SetFeatureUnlock(current, features[i]), added + [features[i]])
  {
    var f := features[i];
    var scanned := features[..i];
    assert features[..i + 1] == scanned + [f];
    QualifyingSnoc(unlocked, d, targetId, scanned, f);
    assert Qualifies(unlocked, d, targetId, f);
    SoundTake(unlocked, d, targetId, scanned, added, f);
    ExplainedTake(unlocked, current, added, f);
  }

  /** Appending a qualifying feature to both the scanned and the added
      features keeps Sound. */
  lemma SoundTake(unlocked: map<string, bool>, d: BattleData, targetId: int, scanned: seq<GameFeature>, added: seq<GameFeature>, f: GameFeature)
    requires Sound(unlocked, d, targetId, scanned, added)
    requires Qualifies(unlocked, d, targetId, f)
    ensures Sound(unlocked, d, targetId, scanned + [f], added + [f])
  {
    forall g | g in added + [f] ensures g in scanned + [f] && Qualifies(unlocked, d, targetId, g) {
      if g != f {
        assert g in added;
      }
    }
  }

  /** Unlocking `f` and adding it keeps every new unlock explained. */
  lemma ExplainedTake(unlocked: map<string, bool>, current: map<string, bool>, added: seq<GameFeature>, f: GameFeature)
    requires Explained(unlocked, current, added)
    ensures Explained(unlocked, SetFeatureUnlock(current, f), added + [f])
  {
    var next := SetFeatureUnlock(current, f);
    forall k | IsFeatureUnlock(next, k) && !IsFeatureUnlock(unlocked, k) ensures exists g | g in added + [f] :: g.key == k {
      if k == f.key {
        assert f in added + [f];
      } else {
        var g :| g in added && g.key == k;
        assert g in added + [f];
      }
    }
  }

  /** Qualifying distributes over appending one feature. */
  lemma QualifyingSnoc(unlocked: map<string, bool>, d: BattleData, targetId: int, features: seq<GameFeature>, f: GameFeature)
    ensures Qualifying(unlocked, d, targetId, features + [f])
         == Qualifying(unlocked, d, targetId, features) + (if Qualifies(unlocked, d, targetId, f) then [f] else [])
  {
    assert (features + [f])[..|features|] == features;
  }


  /** With distinct keys, the key of feature `i` was unlocked during the
      scan of the earlier features only if it already was before. */
  lemma KeyFresh(unlocked: map<string, bool>, current: map<string, bool>, added: seq<GameFeature>,
                 features: seq<GameFeature>, i: nat)
    requires i < |features| && DistinctKeys(features)
    requires forall f | f in added :: f in features[..i]
    requires forall k | IsFeatureUnlock(current, k) && !IsFeatureUnlock(unlocked, k) :: exists f | f in added :: f.key == k
    ensures IsFeatureUnlock(current, features[i].key) ==> IsFeatureUnlock(unlocked, features[i].key)
  {
    var k := features[i].key;
    forall f | f in added ensures f.key != k {
      var j :| 0 <= j < i && features[..i][j] == f;
    }
  }

  /** The public `TryUnlockFeature(targetId, result)`: the result counts for
      the global target -1 first and then for `targetId`; the answer lists
      the features unlocked for -1 followed by those unlocked for
      `targetId`. Every feature that qualifies in its stage is unlocked, and
      with distinct keys the list is exactly the qualifying features of the
      two stages, each in scan order. */
  method TryUnlockFeature(battles: map<int, BattleData>, unlocked: map<string, bool>, features: seq<GameFeature>,
                          targetId: int, result: GameResult)
    returns (battles': map<int, BattleData>, unlocked': map<string, bool>, list: seq<GameFeature>)
    ensures battles' == AddBattleData(AddBattleData(battles, -1, result), targetId, result)
    ensures targetId in battles'
    ensures forall f | f in list :: f in features && (f.targetId == -1 || f.targetId == targetId)
    ensures forall f | f in list :: !IsFeatureUnlock(unlocked, f.key) && IsFeatureUnlock(unlocked', f.key)
    ensures forall i, j | 0 <= i < j < |list| :: list[j].targetId == -1 ==> list[i].targetId == -1 || targetId == -1
    ensures forall f | f in features && Qualifies(unlocked, AddBattleData(battles, -1, result)[-1], -1, f) ::
      IsFeatureUnlock(unlocked', f.key)
    ensures forall f | f in features && Qualifies(unlocked, battles'[targetId], targetId, f) :: IsFeatureUnlock(unlocked', f.key)
    ensures forall k | IsFeatureUnlock(unlocked, k) :: IsFeatureUnlock(unlocked', k)
    ensures forall k | IsFeatureUnlock(unlocked', k) && !IsFeatureUnlock(unlocked, k) :: exists f | f in list :: f.key == k
    ensures DistinctKeys(features) && targetId != -1 ==>
      list == Qualifying(unlocked, AddBattleData(battles, -1, result)[-1], -1, features)
            + Qualifying(unlocked, battles'[targetId], targetId, features)
  {
    var b1, u1, first, _ := UnlockFor(battles, unlocked, features, -1, result);
    var b2, u2, second, _ := UnlockFor(b1, u1, features, targetId, result);
    battles', unlocked', list := b2, u2, first + second;
    forall f | f in first ensures IsFeatureUnlock(u1, f.key) {
      assert Qualifies(unlocked, b1[-1], -1, f);
    }
    if DistinctKeys(features) && targetId != -1 {
      FirstStageKeys(unlocked, u1, first, features);
      QualifyingAgree(u1, unlocked, b2[targetId], targetId, features);
    }
  }

  /** With distinct keys, the stage for target -1 unlocks no key of a
      feature that belongs to another target. */
  lemma FirstStageKeys(unlocked: map<string, bool>, u1: map<string, bool>, first: seq<GameFeature>, features: seq<GameFeature>)
    requires DistinctKeys(features)
    requires forall g | g in first :: g in features && g.targetId == -1
    requires forall k | IsFeatureUnlock(u1, k) && !IsFeatureUnlock(unlocked, k) :: exists g | g in first :: g.key == k
    ensures forall f | f in features && f.targetId != -1 :: IsFeatureUnlock(u1, f.key) ==> IsFeatureUnlock(unlocked, f.key)
  {
    forall f | f in features && f.targetId != -1
      ensures IsFeatureUnlock(u1, f.key) ==> IsFeatureUnlock(unlocked, f.key)
    {
      forall g | g in first ensures g.key != f.key {
        var i :| 0 <= i < |features| && features[i] == g;
        var j :| 0 <= j < |features| && features[j] == f;
        assert i != j;
      }
    }
  }

  /** Two unlock maps that agree on which features qualify select the same
      features. */
  lemma {:induction false} QualifyingAgree(u: map<string, bool>, v: map<string, bool>, d: BattleData, targetId: int, features: seq<GameFeature>)
    requires forall f | f in features :: Qualifies(u, d, targetId, f) == Qualifies(v, d, targetId, f)
    ensures Qualifying(u, d, targetId, features) == Qualifying(v, d, targetId, features)
  {
    if features != [] {
      var n := |features| - 1;
      assert forall f | f in features[..n] :: f in features;
      QualifyingAgree(u, v, d, targetId, features[..n]);
      assert features[n] in features;
    }
  }
}
