/** Saving a daily log (`useCreateDailyLog`): the row is upserted by date
    and a fixed-goal point award is added to the running points ledger
    through the `update_user_points` call on every successful save. */
module DailyLogs {
  import opened Wrappers
  import opened Types
  import Stats

  /** The award for saving a log, with the goal fixed at 2 whatever the
      user configured: always 0, 5 or 10, and the same as the statistics'
      per-entry points at goal 2. */
  function SaveAward(drinks: nat): (p: nat)
    ensures p == 0 || p == 5 || p == 10
    ensures p == Stats.EntryPoints(drinks, DefaultGoal)
    ensures p == 10 <==> drinks == 0
    ensures p == 0 <==> drinks > 2
  {
    if drinks == 0 then 10 else if drinks <= 2 then 5 else 0
  }

  /** For every goal other than 2 some drink count is awarded differently
      on save than it is counted by the statistics. */
  lemma SaveAwardDivergesFromStats(goal: nat)
    requires goal != DefaultGoal
    ensures exists drinks: nat :: SaveAward(drinks) != Stats.EntryPoints(drinks, goal)
  {
    if goal < 2 {
      assert SaveAward(2) == 5 && Stats.EntryPoints(2, goal) == 0;
    } else {
      assert SaveAward(goal) == 0 && Stats.EntryPoints(goal, goal) == 5;
    }
  }

  /** The result of a save: the upsert failed (nothing else happens), or
      the row was stored and the ledger call was made with the given points
      (`None` when no call was made). */
  datatype SaveOutcome = SaveFailed(error: string) | Saved(log: DailyLog, ledgerCall: Option<nat>)

  /** `useCreateDailyLog` given the store's reply to the upsert: the ledger
      call happens exactly when the save succeeded and the award is
      positive, and carries the award. */
  function CreateDailyLog(log: DailyLog, upsert: Result<DailyLog, string>): (r: SaveOutcome)
    ensures upsert.Failure? ==> r == SaveFailed(upsert.error)
    ensures upsert.Success? ==> r.Saved? && r.log == upsert.value
    ensures r.Saved? && r.ledgerCall.Some? <==> upsert.Success? && SaveAward(log.drinks) > 0
    ensures r.Saved? && r.ledgerCall.Some? ==> r.ledgerCall.value == SaveAward(log.drinks)
  {
    match upsert
    case Failure(e) => SaveFailed(e)
    case Success(row) =>
      var points := SaveAward(log.drinks);
      Saved(row, if points > 0 then Some(points) else None)
  }

  /** One user's stored logs, keyed by date, and their ledger points. */
  datatype Account = Account(logs: map<string, DailyLog>, points: int)

  /** A successful save: the log replaces any earlier one for its date and
      the award is added, with no check for an earlier log that day. */
  function Save(a: Account, log: DailyLog): Account {
    Account(a.logs[log.date := log], a.points + SaveAward(log.drinks))
  }

  function SaveAll(a: Account, saves: seq<DailyLog>): Account
    decreases |saves|
  {
    if |saves| == 0 then a else SaveAll(Save(a, saves[0]), saves[1..])
  }

  function Repeat(log: DailyLog, k: nat): (r: seq<DailyLog>)
    ensures |r| == k && forall i :: 0 <= i < k ==> r[i] == log
  {
    if k == 0 then [] else [log] + Repeat(log, k - 1)
  }

  /** Saving the same log `k` times keeps a single row for its date but
      adds the award `k` times. */
  lemma {:induction false} RepeatedSavesAddEachTime(a: Account, log: DailyLog, k: nat)
    ensures SaveAll(a, Repeat(log, k)).points == a.points + k * SaveAward(log.drinks)
    ensures k >= 1 ==> SaveAll(a, Repeat(log, k)).logs == a.logs[log.date := log]
    decreases k
  {
    if k > 0 {
      var a' := Save(a, log);
      assert Repeat(log, k)[1..] == Repeat(log, k - 1);
      RepeatedSavesAddEachTime(a', log, k - 1);
      assert a'.logs[log.date := log] == a.logs[log.date := log];
    }
  }

  /** Starting from nothing, `k` saves of one log leave one stored row
      whose recomputed points are the award, while the ledger holds `k`
      times that: more than the recomputation once `k >= 2` and the award
      is positive. */
  lemma LedgerOvercountsResaves(log: DailyLog, k: nat)
    requires k >= 1
    ensures var a := SaveAll(Account(map[], 0), Repeat(log, k));
      && a.logs == map[log.date := log]
      && Stats.TotalPoints(DrinkCounts([log]), DefaultGoal) == SaveAward(log.drinks)
      && a.points == k * SaveAward(log.drinks)
      && (k >= 2 && log.drinks <= 2 ==> a.points > Stats.TotalPoints(DrinkCounts([log]), DefaultGoal))
  {
    RepeatedSavesAddEachTime(Account(map[], 0), log, k);
    assert DrinkCounts([log])[..0] == [];
  }
}
