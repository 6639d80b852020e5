/**
  One-time code redemption in the cloud stores (DynamoDB, Firestore).

  `consume` is several database calls there: a counted gate, an expiry check, a compare and a
  conditional delete. Any number of requests interleave between those calls, a TTL sweeper removes
  items, and any request may die between two of its calls. A state holds the stored item of one
  saved code, the requests with a program counter each, and three history variables.
 */
module CloudRedemption {
  import opened Prelude
  import opened TxCodes
  import opened CodeStore

  type RequestId = nat

  datatype Backend = DynamoDb | Firestore

  datatype Config = Config(backend: Backend, maxTxCodeAttempts: nat)

  /** The stored item; `attempts` is absent until the first gate, which is attempts 0 here. */
  datatype Item = Item(
    configs: seq<ConfigId>,
    txHash: Option<TxHash>,
    mode: InputMode,
    expiresAt: int,
    attempts: nat)

  function SavedItem(configs: seq<ConfigId>, tx: Option<TxCode>, mode: InputMode, ttl: int, now: int): Item
    requires Savable(mode, tx)
  {
    Item(configs, KeptInCloud(mode, tx), mode, now + ttl * 1000, 0)
  }

  /** Firestore rejects already at the expiry instant; DynamoDB, like the in-memory store, after it. */
  predicate ItemExpired(backend: Backend, item: Item, now: int) {
    match backend
    case DynamoDb => now > item.expiresAt
    case Firestore => item.expiresAt <= now
  }

  function ItemVerdict(item: Item, given: Option<TxCode>): Verdict {
    CloudVerdict(item.txHash, item.mode, given)
  }

  /** Where a request stands; `item` is what its gate read back. */
  datatype Phase =
    | Received
    | Admitted(item: Item)                       // through the gate
    | Timed(item: Item, readAt: int)             // clock read, in time
    | DroppingExpired(item: Item, readAt: int)   // clock read, too late: unconditional delete is next
    | LockingOut                                 // last allowed guess was wrong: unconditional delete is next
    | Redeeming(item: Item, readAt: int)         // guess was right: conditional delete is next
    | Finished(outcome: Outcome)
    | Abandoned                                  // died between two database calls

  datatype Request = Request(given: Option<TxCode>, phase: Phase)

  /** A request's place in the one-at-a-time order, with the clock it read and what it returned. */
  datatype Event = Event(id: RequestId, call: Call, outcome: Outcome)

  datatype State = State(
    clock: int,
    item: Option<Item>,
    requests: map<RequestId, Request>,
    admitted: set<RequestId>,   // history: requests that passed the gate
    compared: set<RequestId>,   // history: requests that reached the compare
    log: seq<Event>)            // history: ordered by deleting write, or by compare for a wrong guess

  datatype Step =
    | Arrive(id: RequestId, given: Option<TxCode>)
    | Gate(id: RequestId)
    | ReadClock(id: RequestId)
    | Compare(id: RequestId)
    | DropExpired(id: RequestId)
    | LockOut(id: RequestId)
    | Redeem(id: RequestId)
    | Abandon(id: RequestId)
    | Sweep
    | Tick(to: int)

  function Initial(item: Item, clock: int): State {
    State(clock, Some(item), map[], {}, {}, [])
  }

  function To(s: State, id: RequestId, phase: Phase): State
    requires id in s.requests
  {
    s.(requests := s.requests[id := s.requests[id].(phase := phase)])
  }

  function Logged(s: State, id: RequestId, readAt: int, outcome: Outcome): State
    requires id in s.requests
  {
    s.(log := s.log + [Event(id, Call(s.requests[id].given, readAt), outcome)])
  }

  /** Conditional update: `attempts` is raised only while the item exists and is below the limit. */
  function GateStep(cfg: Config, s: State, id: RequestId): State
    requires id in s.requests
  {
    if s.item.None? || s.item.value.attempts >= cfg.maxTxCodeAttempts then To(s, id, Finished(Locked))
    else
      var item := s.item.value.(attempts := s.item.value.attempts + 1);
      To(s.(item := Some(item), admitted := s.admitted + {id}), id, Admitted(item))
  }

  function CompareStep(cfg: Config, s: State, id: RequestId): State
    requires id in s.requests && s.requests[id].phase.Timed?
  {
    var Timed(item, readAt) := s.requests[id].phase;
    var s := s.(compared := s.compared + {id});
    var v := ItemVerdict(item, s.requests[id].given);
    if v == Match then To(s, id, Redeeming(item, readAt))
    else if item.attempts >= cfg.maxTxCodeAttempts then To(Logged(s, id, readAt, Locked), id, LockingOut)
    else To(Logged(s, id, readAt, Refusal(v)), id, Finished(Refusal(v)))
  }

  /** Delete on the condition that the item still exists; a lost race is "already consumed". */
  function RedeemStep(s: State, id: RequestId): State
    requires id in s.requests && s.requests[id].phase.Redeeming?
  {
    var Redeeming(item, readAt) := s.requests[id].phase;
    var outcome := if s.item.Some? then Granted(item.configs) else AlreadyConsumed;
    To(Logged(s, id, readAt, outcome).(item := None), id, Finished(outcome))
  }

  /** One step of the system, or None when the step is not enabled. */
  function Next(cfg: Config, s: State, step: Step): Option<State> {
    match step
    case Arrive(id, given) =>
      if id in s.requests then None
      else Some(s.(requests := s.requests[id := Request(given, Received)]))
    case Tick(to) =>
      if to < s.clock then None else Some(s.(clock := to))
    case Sweep =>
      if s.item.None? || !TtlPassed(s.item.value.expiresAt, s.clock) then None
      else Some(s.(item := None))
    case _ =>
      if step.id !in s.requests then None else RequestStep(cfg, s, step, s.requests[step.id].phase)
  }

  function RequestStep(cfg: Config, s: State, step: Step, phase: Phase): Option<State>
    requires !step.Arrive? && !step.Tick? && !step.Sweep?
    requires step.id in s.requests && s.requests[step.id].phase == phase
  {
    var id := step.id;
    match (step, phase)
    case (Gate(_), Received) => Some(GateStep(cfg, s, id))
    case (ReadClock(_), Admitted(item)) =>
      Some(To(s, id, if ItemExpired(cfg.backend, item, s.clock) then DroppingExpired(item, s.clock)
                     else Timed(item, s.clock)))
    case (Compare(_), Timed(_, _)) => Some(CompareStep(cfg, s, id))
    case (DropExpired(_), DroppingExpired(_, readAt)) =>
      Some(To(Logged(s, id, readAt, Expired).(item := None), id, Finished(Expired)))
    case (LockOut(_), LockingOut) => Some(To(s.(item := None), id, Finished(Locked)))
    case (Redeem(_), Redeeming(_, _)) => Some(RedeemStep(s, id))
    case (Abandon(_), _) => if phase.Finished? then None else Some(To(s, id, Abandoned))
    case _ => None
  }

  /** The state a whole schedule leads to, or None when one of its steps is not enabled. */
  function Execute(cfg: Config, start: State, steps: seq<Step>): Option<State> {
    if steps == [] then Some(start)
    else
      var before := Execute(cfg, start, steps[..|steps| - 1]);
      if before.None? then None else Next(cfg, before.value, steps[|steps| - 1])
  }

  lemma ExecuteOneMore(cfg: Config, start: State, steps: seq<Step>, step: Step)
    requires Execute(cfg, start, steps).Some?
    ensures Execute(cfg, start, steps + [step]) == Next(cfg, Execute(cfg, start, steps).value, step)
  {
    assert (steps + [step])[..|steps|] == steps;
  }

  function CountCompares(steps: seq<Step>): nat {
    if steps == [] then 0
    else CountCompares(steps[..|steps| - 1]) + (if steps[|steps| - 1].Compare? then 1 else 0)
  }

  function LoggedIds(log: seq<Event>): set<RequestId> {
    set i | 0 <= i < |log| :: log[i].id
  }

  function Calls(log: seq<Event>): (calls: seq<Call>)
    ensures |calls| == |log|
  {
    seq(|log|, i requires 0 <= i < |log| => log[i].call)
  }

  // ---------------------------------------------------------------------------------------------
  // The invariant
  // ---------------------------------------------------------------------------------------------

  /** Past the gate, but not yet in the one-at-a-time order. */
  predicate InFlight(p: Phase) {
    p.Admitted? || p.Timed? || p.DroppingExpired? || p.Redeeming?
  }

  ghost predicate PhaseOk(cfg: Config, saved: Item, s: State, id: RequestId)
    requires id in s.requests
  {
    var r := s.requests[id];
    && (id in s.admitted ==> !r.phase.Received?)
    && (id in s.compared ==> id in s.admitted && !r.phase.Admitted? && !r.phase.Timed? && !r.phase.DroppingExpired?)
    && (InFlight(r.phase) ==>
          && id in s.admitted
          && id !in LoggedIds(s.log)
          && r.phase.item == saved.(attempts := r.phase.item.attempts))
    && (r.phase.Timed? ==> !ItemExpired(cfg.backend, saved, r.phase.readAt))
    && (r.phase.DroppingExpired? ==> ItemExpired(cfg.backend, saved, r.phase.readAt))
    && (r.phase.Redeeming? ==>
          && !ItemExpired(cfg.backend, saved, r.phase.readAt)
          && ItemVerdict(saved, r.given) == Match
          && id in s.compared)
    && (r.phase.Finished? && r.phase.outcome.Granted? ==>
          exists i :: 0 <= i < |s.log| && s.log[i].id == id && s.log[i].outcome == r.phase.outcome)
  }

  ghost predicate EventOk(cfg: Config, saved: Item, s: State, e: Event) {
    && e.id in s.admitted
    && e.id in s.requests && e.call.given == s.requests[e.id].given
    && (e.outcome.Granted? ==>
          && s.item.None?
          && e.id in s.compared
          && e.outcome == Granted(saved.configs)
          && !ItemExpired(cfg.backend, saved, e.call.now)
          && ItemVerdict(saved, e.call.given) == Match)
  }

  ghost predicate StoreOk(cfg: Config, saved: Item, s: State) {
    && (s.item.Some? ==>
          && s.item.value == saved.(attempts := s.item.value.attempts)
          && |s.admitted| == s.item.value.attempts)
    && |s.admitted| <= cfg.maxTxCodeAttempts
    && s.compared <= s.admitted <= s.requests.Keys
  }

  ghost predicate LogOk(cfg: Config, saved: Item, s: State) {
    && |LoggedIds(s.log)| == |s.log|
    && (forall i :: 0 <= i < |s.log| ==> EventOk(cfg, saved, s, s.log[i]))
    && (forall i, j :: 0 <= i < j < |s.log| ==> !(s.log[i].outcome.Granted? && s.log[j].outcome.Granted?))
  }

  ghost predicate Inv(cfg: Config, saved: Item, s: State) {
    && StoreOk(cfg, saved, s)
    && LogOk(cfg, saved, s)
    && (forall id :: id in s.requests ==> PhaseOk(cfg, saved, s, id))
  }

  lemma LoggedIdsAppend(log: seq<Event>, e: Event)
    ensures LoggedIds(log + [e]) == LoggedIds(log) + {e.id}
  {
    var after := log + [e];
    assert after[|log|] == e;
    assert forall i | 0 <= i < |log| :: after[i] == log[i];
  }

  /** A step of one request: only its phase changes, and it alone may enter the history. */
  ghost predicate TouchesOnly(s: State, t: State, id: RequestId) {
    && id in s.requests
    && t.requests.Keys == s.requests.Keys
    && t.requests[id].given == s.requests[id].given
    && (forall other :: other in s.requests && other != id ==> t.requests[other] == s.requests[other])
    && s.admitted <= t.admitted <= s.admitted + {id}
    && s.compared <= t.compared <= s.compared + {id}
    && (t.log == s.log || (|t.log| == |s.log| + 1 && t.log[..|s.log|] == s.log && t.log[|s.log|].id == id))
  }

  lemma OthersStayOk(cfg: Config, saved: Item, s: State, t: State, id: RequestId)
    requires Inv(cfg, saved, s) && TouchesOnly(s, t, id)
    ensures forall other :: other in t.requests && other != id ==> PhaseOk(cfg, saved, t, other)
  {
    if t.log != s.log {
      LoggedIdsAppend(s.log, t.log[|s.log|]);
      assert t.log == s.log + [t.log[|s.log|]];
    }
    forall other | other in t.requests && other != id
      ensures PhaseOk(cfg, saved, t, other)
    {
      assert PhaseOk(cfg, saved, s, other);
    }
  }

  lemma LogStaysOk(cfg: Config, saved: Item, s: State, t: State, id: RequestId)
    requires LogOk(cfg, saved, s) && TouchesOnly(s, t, id)
    requires s.item.None? ==> t.item.None?
    requires t.log != s.log ==>
               && id !in LoggedIds(s.log)
               && EventOk(cfg, saved, t, t.log[|s.log|])
               && (t.log[|s.log|].outcome.Granted? ==> s.item.Some?)
    ensures LogOk(cfg, saved, t)
  {
    forall i | 0 <= i < |s.log|
      ensures EventOk(cfg, saved, t, s.log[i]) && (s.item.Some? ==> !s.log[i].outcome.Granted?)
    {
      assert EventOk(cfg, saved, s, s.log[i]);
    }
    if t.log != s.log {
      LogGrows(cfg, saved, s, t);
    }
  }

  lemma LogGrows(cfg: Config, saved: Item, s: State, t: State)
    requires LogOk(cfg, saved, s) && |t.log| == |s.log| + 1 && t.log[..|s.log|] == s.log
    requires forall i :: 0 <= i < |s.log| ==> EventOk(cfg, saved, t, s.log[i])
    requires EventOk(cfg, saved, t, t.log[|s.log|]) && t.log[|s.log|].id !in LoggedIds(s.log)
    requires t.log[|s.log|].outcome.Granted? ==> forall i :: 0 <= i < |s.log| ==> !s.log[i].outcome.Granted?
    ensures LogOk(cfg, saved, t)
  {
    LoggedIdsAppend(s.log, t.log[|s.log|]);
    assert t.log == s.log + [t.log[|s.log|]];
    assert forall i | 0 <= i < |s.log| :: t.log[i] == s.log[i];
  }

  /** What a step of one request still owes once the bystanders are settled. */
  lemma StepOfOneKeepsInv(cfg: Config, saved: Item, s: State, t: State, id: RequestId)
    requires Inv(cfg, saved, s) && TouchesOnly(s, t, id)
    requires t.admitted == s.admitted && (t.item == s.item || t.item == None)
    requires t.compared != s.compared ==> id in s.admitted
    requires PhaseOk(cfg, saved, t, id)
    requires t.log != s.log ==>
               && id !in LoggedIds(s.log)
               && EventOk(cfg, saved, t, t.log[|s.log|])
               && (t.log[|s.log|].outcome.Granted? ==> s.item.Some?)
    ensures Inv(cfg, saved, t)
  {
    OthersStayOk(cfg, saved, s, t, id);
    LogStaysOk(cfg, saved, s, t, id);
  }

  lemma GateKeepsInv(cfg: Config, saved: Item, s: State, id: RequestId)
    requires Inv(cfg, saved, s) && id in s.requests && s.requests[id].phase.Received?
    ensures Inv(cfg, saved, GateStep(cfg, s, id))
  {
    var t := GateStep(cfg, s, id);
    assert PhaseOk(cfg, saved, s, id);
    OthersStayOk(cfg, saved, s, t, id);
    GateKeepsLog(cfg, saved, s, id);
  }

  lemma GateKeepsLog(cfg: Config, saved: Item, s: State, id: RequestId)
    requires LogOk(cfg, saved, s) && id in s.requests
    ensures LogOk(cfg, saved, GateStep(cfg, s, id))
  {
    LogStaysOk(cfg, saved, s, GateStep(cfg, s, id), id);
  }

  lemma CompareKeepsInv(cfg: Config, saved: Item, s: State, id: RequestId)
    requires Inv(cfg, saved, s) && id in s.requests && s.requests[id].phase.Timed?
    ensures Inv(cfg, saved, CompareStep(cfg, s, id))
  {
    assert PhaseOk(cfg, saved, s, id);
    StepOfOneKeepsInv(cfg, saved, s, CompareStep(cfg, s, id), id);
  }

  lemma RedeemKeepsInv(cfg: Config, saved: Item, s: State, id: RequestId)
    requires Inv(cfg, saved, s) && id in s.requests && s.requests[id].phase.Redeeming?
    ensures Inv(cfg, saved, RedeemStep(s, id))
  {
    var t := RedeemStep(s, id);
    assert PhaseOk(cfg, saved, s, id);
    assert t.log[|s.log|].id == id && t.log[|s.log|].outcome == t.requests[id].phase.outcome;
    StepOfOneKeepsInv(cfg, saved, s, t, id);
  }

  lemma PlainStepKeepsInv(cfg: Config, saved: Item, s: State, step: Step)
    requires Inv(cfg, saved, s) && Next(cfg, s, step).Some?
    requires step.ReadClock? || step.DropExpired? || step.LockOut? || step.Abandon?
    ensures Inv(cfg, saved, Next(cfg, s, step).value)
  {
    assert PhaseOk(cfg, saved, s, step.id);
    StepOfOneKeepsInv(cfg, saved, s, Next(cfg, s, step).value, step.id);
  }

  /** Arrivals, the clock and the sweeper leave the requests and their history alone. */
  lemma EnvironmentKeepsInv(cfg: Config, saved: Item, s: State, step: Step)
    requires Inv(cfg, saved, s) && Next(cfg, s, step).Some?
    requires step.Arrive? || step.Tick? || step.Sweep?
    ensures Inv(cfg, saved, Next(cfg, s, step).value)
  {
    var t := Next(cfg, s, step).value;
    forall id | id in t.requests ensures PhaseOk(cfg, saved, t, id) {
      if id in s.requests {
        assert PhaseOk(cfg, saved, s, id);
      }
    }
    forall i | 0 <= i < |t.log| ensures EventOk(cfg, saved, t, t.log[i]) {
      assert EventOk(cfg, saved, s, s.log[i]);
    }
  }

  lemma NextKeepsInv(cfg: Config, saved: Item, s: State, step: Step)
    requires Inv(cfg, saved, s) && Next(cfg, s, step).Some?
    ensures Inv(cfg, saved, Next(cfg, s, step).value)
  {
    match step
    case Gate(id) => GateKeepsInv(cfg, saved, s, id);
    case Compare(id) => CompareKeepsInv(cfg, saved, s, id);
    case Redeem(id) => RedeemKeepsInv(cfg, saved, s, id);
    case Arrive(_, _) => EnvironmentKeepsInv(cfg, saved, s, step);
    case Tick(_) => EnvironmentKeepsInv(cfg, saved, s, step);
    case Sweep => EnvironmentKeepsInv(cfg, saved, s, step);
    case _ => PlainStepKeepsInv(cfg, saved, s, step);
  }

  lemma InitialInv(cfg: Config, saved: Item, clock: int)
    requires saved.attempts == 0
    ensures Inv(cfg, saved, Initial(saved, clock))
  {
    assert LoggedIds([]) == {};
  }

  /** A request is compared at most once, so the history of compares counts them. */
  lemma NextCountsCompares(cfg: Config, saved: Item, s: State, step: Step)
    requires Inv(cfg, saved, s) && Next(cfg, s, step).Some?
    ensures |Next(cfg, s, step).value.compared| == |s.compared| + (if step.Compare? then 1 else 0)
  {
    if step.Compare? {
      assert PhaseOk(cfg, saved, s, step.id);
      assert Next(cfg, s, step).value.compared == s.compared + {step.id};
    }
  }

  lemma {:induction false} ScheduleKeepsInv(cfg: Config, saved: Item, clock: int, steps: seq<Step>)
    requires saved.attempts == 0
    requires Execute(cfg, Initial(saved, clock), steps).Some?
    ensures var s := Execute(cfg, Initial(saved, clock), steps).value;
            Inv(cfg, saved, s) && CountCompares(steps) == |s.compared|
  {
    if steps == [] {
      InitialInv(cfg, saved, clock);
    } else {
      var n := |steps| - 1;
      ScheduleKeepsInv(cfg, saved, clock, steps[..n]);
      var before := Execute(cfg, Initial(saved, clock), steps[..n]).value;
      NextKeepsInv(cfg, saved, before, steps[n]);
      NextCountsCompares(cfg, saved, before, steps[n]);
    }
  }

  // ---------------------------------------------------------------------------------------------
  // Safety of every schedule
  // ---------------------------------------------------------------------------------------------

  predicate IsGranted(s: State, id: RequestId) {
    id in s.requests && s.requests[id].phase.Finished? && s.requests[id].phase.outcome.Granted?
  }

  /** Whatever the schedule, one saved code is granted to at most one request. */
  lemma AtMostOneGrant(cfg: Config, saved: Item, clock: int, steps: seq<Step>, a: RequestId, b: RequestId)
    requires saved.attempts == 0
    requires Execute(cfg, Initial(saved, clock), steps).Some?
    requires var s := Execute(cfg, Initial(saved, clock), steps).value; IsGranted(s, a) && IsGranted(s, b)
    ensures a == b
  {
    ScheduleKeepsInv(cfg, saved, clock, steps);
    var s := Execute(cfg, Initial(saved, clock), steps).value;
    var i := GrantIsLogged(cfg, saved, s, a);
    var j := GrantIsLogged(cfg, saved, s, b);
    assert i == j;
  }

  lemma GrantIsLogged(cfg: Config, saved: Item, s: State, id: RequestId) returns (i: nat)
    requires Inv(cfg, saved, s) && IsGranted(s, id)
    ensures i < |s.log| && s.log[i].id == id && s.log[i].outcome.Granted?
  {
    assert PhaseOk(cfg, saved, s, id);
    i :| 0 <= i < |s.log| && s.log[i].id == id && s.log[i].outcome == s.requests[id].phase.outcome;
  }

  /** The request that is granted gave the saved tx_code, and gets exactly what was saved. */
  lemma GrantMatchedSavedCode(cfg: Config, saved: Item, clock: int, steps: seq<Step>, id: RequestId)
    requires saved.attempts == 0
    requires Execute(cfg, Initial(saved, clock), steps).Some?
    requires IsGranted(Execute(cfg, Initial(saved, clock), steps).value, id)
    ensures var s := Execute(cfg, Initial(saved, clock), steps).value;
            && ItemVerdict(saved, s.requests[id].given) == Match
            && s.requests[id].phase.outcome == Granted(saved.configs)
            && s.item.None?
  {
    ScheduleKeepsInv(cfg, saved, clock, steps);
    var s := Execute(cfg, Initial(saved, clock), steps).value;
    assert PhaseOk(cfg, saved, s, id);
  }

  /** However many requests arrive at once, at most the allowed number of guesses is ever compared. */
  lemma ComparesAreBounded(cfg: Config, saved: Item, clock: int, steps: seq<Step>)
    requires saved.attempts == 0
    requires Execute(cfg, Initial(saved, clock), steps).Some?
    ensures CountCompares(steps) <= cfg.maxTxCodeAttempts
  {
    ScheduleKeepsInv(cfg, saved, clock, steps);
    var s := Execute(cfg, Initial(saved, clock), steps).value;
    SubsetBound(s.compared, s.admitted);
  }

  /** The sweeper removes only items that every backend already reports as expired. */
  lemma SweepOnlyRemovesExpired(cfg: Config, s: State)
    requires s.item.Some? && Next(cfg, s, Sweep).Some?
    ensures ItemExpired(cfg.backend, s.item.value, s.clock)
  {
  }
}
