/**
  The interleaved cloud protocol is never more permissive than the in-memory store.

  Order the requests of any schedule by their deleting write, or by the compare for a wrong guess.
  Replaying that order one call at a time against the in-memory store, each call with the clock the
  request read, grants whatever the schedule granted. Requests the gate turns away wrote nothing
  and are not in the order.
 */
module RedemptionRefinement {
  import opened Prelude
  import opened TxCodes
  import opened CodeStore
  import opened CloudRedemption

  /** One `save` as both kinds of store keep it. */
  datatype Saved = Saved(configs: seq<ConfigId>, tx: Option<TxCode>, mode: InputMode, ttl: int, at: int) {
    predicate Valid() {
      Savable(mode, tx) && ttl > 0 && at >= 0
    }

    function Entry(): Entry
      requires Valid()
    {
      SavedEntry(configs, tx, mode, ttl, at)
    }

    function Item(): Item
      requires Valid()
    {
      SavedItem(configs, tx, mode, ttl, at)
    }
  }

  /** Every grant in the schedule's history is a grant of the in-memory replay, with the same result. */
  ghost predicate ReplayGrants(max: nat, entry: Entry, log: seq<Event>) {
    forall i :: 0 <= i < |log| && log[i].outcome.Granted? ==>
      OutcomeAt(max, Some(entry), Calls(log), i) == log[i].outcome
  }

  /** While the item is stored, the history holds only wrong guesses made in time. */
  ghost predicate Simulates(cfg: Config, saved: Saved, s: State)
    requires saved.Valid()
  {
    && Inv(cfg, saved.Item(), s)
    && (s.item.Some? ==> AllWrong(saved.Entry(), Calls(s.log)))
    && ReplayGrants(cfg.maxTxCodeAttempts, saved.Entry(), s.log)
  }

  lemma VerdictOfSaved(saved: Saved, given: Option<TxCode>)
    requires saved.Valid() && ComparesAlike(saved.mode, saved.tx)
    ensures ItemVerdict(saved.Item(), given) == Match <==> TxMatches(saved, given)
  {
    VerdictsAgree(saved.mode, saved.tx);
  }

  predicate TxMatches(saved: Saved, given: Option<TxCode>)
    requires saved.Valid()
  {
    CodeStore.Matches(saved.Entry(), given)
  }

  /** An in-flight request leaves room in the one-at-a-time order: fewer than `max` calls precede it. */
  lemma InFlightLeavesRoom(cfg: Config, saved: Item, s: State, id: RequestId)
    requires Inv(cfg, saved, s) && id in s.requests && InFlight(s.requests[id].phase)
    ensures |s.log| < cfg.maxTxCodeAttempts
  {
    assert PhaseOk(cfg, saved, s, id);
    forall other | other in LoggedIds(s.log) ensures other in s.admitted {
      var i :| 0 <= i < |s.log| && s.log[i].id == other;
      assert EventOk(cfg, saved, s, s.log[i]);
    }
    assert LoggedIds(s.log) < s.admitted;
    SubsetBound(LoggedIds(s.log), s.admitted);
  }

  function InFlightIds(s: State): set<RequestId> {
    set id | id in s.requests && InFlight(s.requests[id].phase)
  }

  /**
    The counting side of the simulation: the attempts the in-memory replay has counted, plus the
    requests still in flight, never exceed the attempts stored in the cloud.
   */
  lemma AtomicAttemptsPlusInFlight(cfg: Config, saved: Saved, s: State)
    requires saved.Valid() && cfg.maxTxCodeAttempts >= 1 && Simulates(cfg, saved, s) && s.item.Some?
    ensures var slot := SlotAfter(cfg.maxTxCodeAttempts, Some(saved.Entry()), Calls(s.log));
            && |s.log| + |InFlightIds(s)| <= s.item.value.attempts
            && slot == if |s.log| < cfg.maxTxCodeAttempts then Some(saved.Entry().(attempts := |s.log|)) else None
  {
    var inFlight := InFlightIds(s);
    forall id | id in inFlight ensures id in s.admitted && id !in LoggedIds(s.log) {
      assert PhaseOk(cfg, saved.Item(), s, id);
    }
    forall other | other in LoggedIds(s.log) ensures other in s.admitted {
      var i :| 0 <= i < |s.log| && s.log[i].id == other;
      assert EventOk(cfg, saved.Item(), s, s.log[i]);
    }
    var both := LoggedIds(s.log) + inFlight;
    assert LoggedIds(s.log) !! inFlight;
    SubsetBound(both, s.admitted);
    assert |both| == |LoggedIds(s.log)| + |inFlight|;
    WrongGuessesAreCounted(cfg.maxTxCodeAttempts, saved.Entry(), Calls(s.log));
  }

  /** A later event does not change what an earlier call of the replay returned. */
  lemma ReplayIsStable(max: nat, entry: Entry, log: seq<Event>, e: Event)
    requires ReplayGrants(max, entry, log)
    requires e.outcome.Granted? ==> OutcomeAt(max, Some(entry), Calls(log + [e]), |log|) == e.outcome
    ensures ReplayGrants(max, entry, log + [e])
  {
    var before, after := Calls(log), Calls(log + [e]);
    forall i | 0 <= i < |log| && log[i].outcome.Granted?
      ensures OutcomeAt(max, Some(entry), after, i) == log[i].outcome
    {
      assert after[..i] == before[..i];
    }
  }

  lemma NextSimulates(cfg: Config, saved: Saved, s: State, step: Step)
    requires saved.Valid() && ComparesAlike(saved.mode, saved.tx) && cfg.maxTxCodeAttempts >= 1
    requires Simulates(cfg, saved, s) && Next(cfg, s, step).Some?
    ensures Simulates(cfg, saved, Next(cfg, s, step).value)
  {
    NextKeepsInv(cfg, saved.Item(), s, step);
    if Next(cfg, s, step).value.log == s.log {
      ItemIsNotBack(cfg, s, step);
    } else {
      LoggedSimulates(cfg, saved, s, step);
    }
  }

  /** A removed item never comes back. */
  lemma ItemIsNotBack(cfg: Config, s: State, step: Step)
    requires Next(cfg, s, step).Some?
    ensures Next(cfg, s, step).value.item.Some? ==> s.item.Some?
  {
  }

  lemma LoggedSimulates(cfg: Config, saved: Saved, s: State, step: Step)
    requires saved.Valid() && ComparesAlike(saved.mode, saved.tx) && cfg.maxTxCodeAttempts >= 1
    requires Simulates(cfg, saved, s) && Next(cfg, s, step).Some?
    requires Next(cfg, s, step).value.log != s.log && Inv(cfg, saved.Item(), Next(cfg, s, step).value)
    ensures Simulates(cfg, saved, Next(cfg, s, step).value)
  {
    var t := Next(cfg, s, step).value;
    var e := t.log[|s.log|];
    LoggedFrom(cfg, saved, s, step);
    if e.outcome.Granted? {
      InFlightLeavesRoom(cfg, saved.Item(), s, step.id);
      GrantReplays(cfg, saved, s.log, e);
    }
    if t.item.Some? {
      WrongGuessReplays(saved, s.log, e);
    }
    ReplayIsStable(cfg.maxTxCodeAttempts, saved.Entry(), s.log, e);
  }

  /** A right guess in time, after wrong ones only and within the limit, is granted by the replay too. */
  lemma GrantReplays(cfg: Config, saved: Saved, log: seq<Event>, e: Event)
    requires saved.Valid() && ComparesAlike(saved.mode, saved.tx) && cfg.maxTxCodeAttempts >= 1
    requires AllWrong(saved.Entry(), Calls(log)) && |log| < cfg.maxTxCodeAttempts
    requires !ItemExpired(cfg.backend, saved.Item(), e.call.now) && ItemVerdict(saved.Item(), e.call.given) == Match
    ensures OutcomeAt(cfg.maxTxCodeAttempts, Some(saved.Entry()), Calls(log + [e]), |log|) == Granted(saved.configs)
  {
    VerdictOfSaved(saved, e.call.given);
    assert Calls(log + [e])[..|log|] == Calls(log);
    GrantedExactlyWhen(cfg.maxTxCodeAttempts, saved.Entry(), Calls(log + [e]), |log|);
  }

  lemma WrongGuessReplays(saved: Saved, log: seq<Event>, e: Event)
    requires saved.Valid() && ComparesAlike(saved.mode, saved.tx)
    requires AllWrong(saved.Entry(), Calls(log))
    requires !IsExpired(saved.Entry(), e.call.now) && ItemVerdict(saved.Item(), e.call.given) != Match
    ensures AllWrong(saved.Entry(), Calls(log + [e]))
  {
    VerdictOfSaved(saved, e.call.given);
    assert Calls(log + [e])[..|log|] == Calls(log);
  }

  /** What a step that adds to the history adds: a grant, or something that leaves no stored item or a wrong guess. */
  lemma LoggedFrom(cfg: Config, saved: Saved, s: State, step: Step)
    requires saved.Valid() && Simulates(cfg, saved, s) && Next(cfg, s, step).Some?
    requires Next(cfg, s, step).value.log != s.log
    ensures !step.Arrive? && !step.Tick? && !step.Sweep? && step.id in s.requests && InFlight(s.requests[step.id].phase)
    ensures var t := Next(cfg, s, step).value;
            && |t.log| == |s.log| + 1 && t.log == s.log + [t.log[|s.log|]]
            && var e := t.log[|s.log|];
            && (t.item.Some? ==> s.item == t.item && !ItemExpired(cfg.backend, saved.Item(), e.call.now) &&
                                 ItemVerdict(saved.Item(), e.call.given) != Match)
            && (e.outcome.Granted? ==>
                  && s.item.Some? && s.requests[step.id].phase.Redeeming?
                  && !ItemExpired(cfg.backend, saved.Item(), e.call.now)
                  && ItemVerdict(saved.Item(), e.call.given) == Match
                  && e.outcome == Granted(saved.configs))
  {
    assert PhaseOk(cfg, saved.Item(), s, step.id);
  }

  lemma {:induction false} ScheduleSimulates(cfg: Config, saved: Saved, steps: seq<Step>)
    requires saved.Valid() && ComparesAlike(saved.mode, saved.tx) && cfg.maxTxCodeAttempts >= 1
    requires Execute(cfg, Initial(saved.Item(), saved.at), steps).Some?
    ensures Simulates(cfg, saved, Execute(cfg, Initial(saved.Item(), saved.at), steps).value)
  {
    if steps != [] {
      var n := |steps| - 1;
      ScheduleSimulates(cfg, saved, steps[..n]);
      NextSimulates(cfg, saved, Execute(cfg, Initial(saved.Item(), saved.at), steps[..n]).value, steps[n]);
    }
  }

  /** The refinement as a property of one saved code: it holds of every schedule. */
  ghost predicate NeverMorePermissive(cfg: Config, saved: Saved)
    requires saved.Valid()
  {
    forall steps: seq<Step> :: Execute(cfg, Initial(saved.Item(), saved.at), steps).Some? ==>
      var s := Execute(cfg, Initial(saved.Item(), saved.at), steps).value;
      ReplayGrants(cfg.maxTxCodeAttempts, saved.Entry(), s.log)
  }

  function SoloSchedule(given: Option<TxCode>): seq<Step> {
    [Arrive(0, given), Gate(0), ReadClock(0), Compare(0), Redeem(0)]
  }

  /** A single request with a guess the cloud accepts, straight after the save, is granted. */
  lemma SoloGrant(cfg: Config, saved: Saved, given: Option<TxCode>)
    requires saved.Valid() && cfg.maxTxCodeAttempts >= 1
    requires ItemVerdict(saved.Item(), given) == Match
    ensures var end := Execute(cfg, Initial(saved.Item(), saved.at), SoloSchedule(given));
            end.Some? && end.value.log == [Event(0, Call(given, saved.at), Granted(saved.configs))]
  {
    var start := Initial(saved.Item(), saved.at);
    var arrived := [Arrive(0, given)];
    var gated := arrived + [Gate(0)];
    var timed := gated + [ReadClock(0)];
    var compared := timed + [Compare(0)];
    assert Execute(cfg, start, arrived) == Next(cfg, start, Arrive(0, given));
    ExecuteOneMore(cfg, start, arrived, Gate(0));
    ExecuteOneMore(cfg, start, gated, ReadClock(0));
    ExecuteOneMore(cfg, start, timed, Compare(0));
    ExecuteOneMore(cfg, start, compared, Redeem(0));
    assert compared + [Redeem(0)] == SoloSchedule(given);
  }

  /**
    The cloud stores refine the in-memory one under every schedule, for exactly the saved codes both
    compare alike: of a number saved in text mode, or a text others encode like, the cloud accepts more.
   */
  lemma NeverMorePermissiveExactlyWhen(cfg: Config, saved: Saved)
    requires saved.Valid() && cfg.maxTxCodeAttempts >= 1
    ensures NeverMorePermissive(cfg, saved) <==> ComparesAlike(saved.mode, saved.tx)
  {
    if ComparesAlike(saved.mode, saved.tx) {
      forall steps: seq<Step> | Execute(cfg, Initial(saved.Item(), saved.at), steps).Some?
        ensures ReplayGrants(cfg.maxTxCodeAttempts, saved.Entry(),
                             Execute(cfg, Initial(saved.Item(), saved.at), steps).value.log)
      {
        ScheduleSimulates(cfg, saved, steps);
      }
    } else {
      ImposterMatchesInCloudOnly(saved.tx.value);
      var given := Some(Imposter(saved.tx.value));
      SoloGrant(cfg, saved, given);
      var log := Execute(cfg, Initial(saved.Item(), saved.at), SoloSchedule(given)).value.log;
      GrantedExactlyWhen(cfg.maxTxCodeAttempts, saved.Entry(), Calls(log), 0);
    }
  }

  /**
    The order accounts for every grant: a granted request is in it exactly once, with its own guess
    and its own result, and so is granted by the in-memory replay.
   */
  lemma GrantedRequestReplays(cfg: Config, saved: Saved, steps: seq<Step>, id: RequestId) returns (i: nat)
    requires saved.Valid() && ComparesAlike(saved.mode, saved.tx) && cfg.maxTxCodeAttempts >= 1
    requires Execute(cfg, Initial(saved.Item(), saved.at), steps).Some?
    requires IsGranted(Execute(cfg, Initial(saved.Item(), saved.at), steps).value, id)
    ensures var s := Execute(cfg, Initial(saved.Item(), saved.at), steps).value;
            && i < |s.log|
            && s.log[i].id == id
            && s.log[i].call.given == s.requests[id].given
            && OutcomeAt(cfg.maxTxCodeAttempts, Some(saved.Entry()), Calls(s.log), i) == s.requests[id].phase.outcome
            && |LoggedIds(s.log)| == |s.log|
  {
    ScheduleSimulates(cfg, saved, steps);
    var s := Execute(cfg, Initial(saved.Item(), saved.at), steps).value;
    assert PhaseOk(cfg, saved.Item(), s, id);
    i :| 0 <= i < |s.log| && s.log[i].id == id && s.log[i].outcome == s.requests[id].phase.outcome;
    assert EventOk(cfg, saved.Item(), s, s.log[i]);
  }
}
