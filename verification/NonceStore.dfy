/**
  One-time nonces: the store, and what its two ways of spending a nonce guarantee under interleaving.

  The DPoP checks spend a nonce with one atomic `consume`. Key proofs and presentations call
  `validate` and then, in a second call, `revoke`.
 */
module NonceStore {
  import opened Prelude

  type Nonce = string

  /** Nonce to expiry instant, in epoch milliseconds. */
  type Nonces = map<Nonce, int>

  predicate Live(m: Nonces, n: Nonce, now: int) {
    n in m && now <= m[n]
  }

  /** Spending a nonce in one go, by `consume` or by `validate` and `revoke` with nothing between. */
  function Spend(m: Nonces, n: Nonce, now: int): (Nonces, bool) {
    (m - {n}, Live(m, n, now))
  }

  class InMemoryNonceStore {
    var nonceStates: Nonces

    constructor ()
      ensures nonceStates == map[]
    {
      nonceStates := map[];
    }

    method Save(n: Nonce, ttlMs: int, now: int)
      modifies this
      ensures nonceStates == old(nonceStates)[n := now + ttlMs]
    {
      nonceStates := nonceStates[n := now + ttlMs];
    }

    /** Even `validate` drops the nonce when it has expired. */
    method Validate(n: Nonce, now: int) returns (valid: bool)
      modifies this
      ensures valid <==> Live(old(nonceStates), n, now)
      ensures nonceStates == if valid then old(nonceStates) else old(nonceStates) - {n}
    {
      if n !in nonceStates {
        return false;
      }
      if now > nonceStates[n] {
        nonceStates := nonceStates - {n};
        return false;
      }
      return true;
    }

    method Revoke(n: Nonce) returns (existed: bool)
      modifies this
      ensures existed <==> n in old(nonceStates)
      ensures nonceStates == old(nonceStates) - {n}
    {
      existed := n in nonceStates;
      nonceStates := nonceStates - {n};
    }

    method Consume(n: Nonce, now: int) returns (consumed: bool)
      modifies this
      ensures (nonceStates, consumed) == Spend(old(nonceStates), n, now)
    {
      var valid := Validate(n, now);
      if !valid {
        return false;
      }
      consumed := Revoke(n);
    }
  }

  // ---------------------------------------------------------------------------------------------
  // Interleaved use of one saved nonce
  // ---------------------------------------------------------------------------------------------

  type RequestId = nat

  datatype Backend = InMemory | Firestore | DynamoDb

  /**
    What the read of a `validate` returns: the stored item, or from an eventually consistent read the
    item as it was saved although it is gone, or nothing, as before the save arrived.
   */
  datatype Read = Current | AsSaved | NotYetSaved

  /** DynamoDB's `validate` does not ask for a consistent read. */
  predicate Possible(backend: Backend, read: Read) {
    read == Current || backend == DynamoDb
  }

  datatype Status = Pending | Validated | Accepted | Refused

  datatype Request = Request(consumes: bool, status: Status)

  datatype State = State(clock: int, savedUntil: int, expiresAt: Option<int>, requests: map<RequestId, Request>)

  datatype Step =
    | Arrive(id: RequestId, consumes: bool)
    | Consume(id: RequestId)
    | Validate(id: RequestId, read: Read)
    | Revoke(id: RequestId)
    | Sweep
    | Tick(to: int)

  function Decide(s: State, id: RequestId, status: Status): State
    requires id in s.requests
  {
    s.(requests := s.requests[id := s.requests[id].(status := status)])
  }

  predicate Usable(s: State) {
    s.expiresAt.Some? && s.clock <= s.expiresAt.value
  }

  predicate Waits(s: State, id: RequestId, consumes: bool, status: Status) {
    id in s.requests && s.requests[id] == Request(consumes, status)
  }

  function Seen(s: State, read: Read): Option<int> {
    match read
    case Current => s.expiresAt
    case AsSaved => Some(s.savedUntil)
    case NotYetSaved => None
  }

  /** An expired item is deleted on sight; that delete is a call of its own in the cloud, and removes nothing live. */
  function ValidateStep(s: State, id: RequestId, read: Read): State
    requires id in s.requests
  {
    var seen := Seen(s, read);
    if seen.None? then Decide(s, id, Refused)
    else if s.clock > seen.value then Decide(s.(expiresAt := None), id, Refused)
    else Decide(s, id, Validated)
  }

  function Next(backend: Backend, s: State, step: Step): Option<State> {
    match step
    case Arrive(id, consumes) =>
      if id in s.requests then None else Some(s.(requests := s.requests[id := Request(consumes, Pending)]))
    case Consume(id) =>
      if !Waits(s, id, true, Pending) then None
      else Some(Decide(s.(expiresAt := None), id, if Usable(s) then Accepted else Refused))
    case Validate(id, read) =>
      if !Waits(s, id, false, Pending) || !Possible(backend, read) then None
      else Some(ValidateStep(s, id, read))
    case Revoke(id) =>
      // The flows ignore whether the nonce was still there to revoke.
      if !Waits(s, id, false, Validated) then None
      else Some(Decide(s.(expiresAt := None), id, Accepted))
    case Sweep =>
      if s.expiresAt.Some? && TtlPassed(s.expiresAt.value, s.clock) then Some(s.(expiresAt := None)) else None
    case Tick(to) => if to < s.clock then None else Some(s.(clock := to))
  }

  /** A saved nonce and when, and in which store, its uses begin. */
  datatype Saved = Saved(backend: Backend, expiresAt: int, clock: int)

  function Execute(n: Saved, steps: seq<Step>): Option<State> {
    if steps == [] then Some(State(n.clock, n.expiresAt, Some(n.expiresAt), map[]))
    else
      var before := Execute(n, steps[..|steps| - 1]);
      if before.None? then None else Next(n.backend, before.value, steps[|steps| - 1])
  }

  lemma {:induction false} ExecutePrefix(n: Saved, steps: seq<Step>, k: nat)
    requires k <= |steps| && Execute(n, steps).Some?
    ensures Execute(n, steps[..k]).Some?
    ensures Execute(n, steps[..k]).value.clock <= Execute(n, steps).value.clock
  {
    if k < |steps| {
      var before := steps[..|steps| - 1];
      ExecutePrefix(n, before, k);
      assert before[..k] == steps[..k];
    } else {
      assert steps[..k] == steps;
    }
  }

  // ---------------------------------------------------------------------------------------------
  // The atomic consume
  // ---------------------------------------------------------------------------------------------

  predicate AcceptedConsume(s: State, id: RequestId) {
    id in s.requests && s.requests[id] == Request(true, Accepted)
  }

  ghost predicate ConsumeInv(s: State) {
    && (forall a :: AcceptedConsume(s, a) ==> s.expiresAt.None?)
    && (forall a, b :: AcceptedConsume(s, a) && AcceptedConsume(s, b) ==> a == b)
  }

  lemma {:induction false} ScheduleKeepsConsumeInv(n: Saved, steps: seq<Step>)
    requires Execute(n, steps).Some?
    ensures ConsumeInv(Execute(n, steps).value)
  {
    if steps != [] {
      ScheduleKeepsConsumeInv(n, steps[..|steps| - 1]);
      var s := Execute(n, steps[..|steps| - 1]).value;
      var t := Next(n.backend, s, steps[|steps| - 1]).value;
      assert forall a | AcceptedConsume(t, a) ::
          AcceptedConsume(s, a) || (steps[|steps| - 1] == Consume(a) && Usable(s));
    }
  }

  /** Under every interleaving and in every backend, with anything else going on, at most one `consume` is accepted. */
  lemma AtMostOneConsume(n: Saved, steps: seq<Step>, a: RequestId, b: RequestId)
    requires Execute(n, steps).Some?
    requires AcceptedConsume(Execute(n, steps).value, a) && AcceptedConsume(Execute(n, steps).value, b)
    ensures a == b
  {
    ScheduleKeepsConsumeInv(n, steps);
  }

  // ---------------------------------------------------------------------------------------------
  // Exactly which requests are accepted
  // ---------------------------------------------------------------------------------------------

  /** The store call on which a request is let through or turned away. */
  predicate Reads(step: Step, id: RequestId) {
    step == Consume(id) || (step.Validate? && step.id == id)
  }

  /** The store call after which an accepted request's nonce is gone. */
  predicate Removes(step: Step, id: RequestId) {
    step == Consume(id) || step == Revoke(id)
  }

  ghost predicate Removed(steps: seq<Step>) {
    exists i :: 0 <= i < |steps| && (steps[i].Consume? || steps[i].Revoke?)
  }

  ghost predicate RevokedFrom(steps: seq<Step>, k: nat, id: RequestId) {
    exists i :: k <= i < |steps| && steps[i] == Revoke(id)
  }

  function ClockAt(n: Saved, steps: seq<Step>, j: nat): int
    requires j <= |steps| && Execute(n, steps[..j]).Some?
  {
    Execute(n, steps[..j]).value.clock
  }

  lemma RemovedMore(steps: seq<Step>)
    requires steps != []
    ensures var n := |steps| - 1;
            Removed(steps) <==> Removed(steps[..n]) || steps[n].Consume? || steps[n].Revoke?
  {
    assert forall i | 0 <= i < |steps| - 1 :: steps[..|steps| - 1][i] == steps[i];
  }

  /** In every schedule the nonce is usable exactly until its expiry or the first consume or revoke. */
  lemma {:induction false} UsableExactlyWhen(n: Saved, steps: seq<Step>)
    requires Execute(n, steps).Some?
    ensures var s := Execute(n, steps).value;
            && (Usable(s) <==> s.clock <= n.expiresAt && !Removed(steps))
            && s.savedUntil == n.expiresAt
            && (s.expiresAt.Some? ==> s.expiresAt == Some(n.expiresAt))
  {
    if steps != [] {
      UsableExactlyWhen(n, steps[..|steps| - 1]);
      RemovedMore(steps);
    }
  }

  /** The read at position j lets its request through. */
  ghost predicate SeesLive(n: Saved, steps: seq<Step>, j: nat)
    requires j < |steps| && Execute(n, steps[..j]).Some?
  {
    && ClockAt(n, steps, j) <= n.expiresAt
    && (if steps[j].Validate? && steps[j].read == AsSaved then true
        else if steps[j].Validate? && steps[j].read == NotYetSaved then false
        else !Removed(steps[..j]))
  }

  /** A consume is all there is to it; a validate is followed by its revoke. */
  ghost predicate GetsToEnd(steps: seq<Step>, j: nat, id: RequestId)
    requires j < |steps|
  {
    steps[j].Consume? || RevokedFrom(steps, j + 1, id)
  }

  predicate HasStatus(s: State, id: RequestId, status: Status) {
    id in s.requests && s.requests[id].status == status
  }

  /** After its read a request only changes by its own revoke. */
  lemma {:induction false} StatusFrom(n: Saved, steps: seq<Step>, k: nat, id: RequestId)
    requires k <= |steps| && Execute(n, steps).Some? && Execute(n, steps[..k]).Some?
    requires id in Execute(n, steps[..k]).value.requests && !HasStatus(Execute(n, steps[..k]).value, id, Pending)
    ensures var before := Execute(n, steps[..k]).value.requests[id].status;
            HasStatus(Execute(n, steps).value, id,
                      if before == Validated && RevokedFrom(steps, k, id) then Accepted else before)
  {
    if k == |steps| {
      assert steps[..k] == steps;
    } else {
      var m := |steps| - 1;
      assert steps[..m][..k] == steps[..k];
      StatusFrom(n, steps[..m], k, id);
      assert RevokedFrom(steps, k, id) <==> RevokedFrom(steps[..m], k, id) || steps[m] == Revoke(id) by {
        assert forall i | 0 <= i < m :: steps[..m][i] == steps[i];
      }
    }
  }

  lemma StatusAfterRead(n: Saved, steps: seq<Step>, j: nat, id: RequestId)
    requires Execute(n, steps).Some? && j < |steps| && Reads(steps[j], id)
    ensures Execute(n, steps[..j]).Some? && Execute(n, steps[..j + 1]).Some?
    ensures HasStatus(Execute(n, steps[..j + 1]).value, id,
                      if !SeesLive(n, steps, j) then Refused else if steps[j].Consume? then Accepted else Validated)
  {
    ExecutePrefix(n, steps, j);
    ExecutePrefix(n, steps, j + 1);
    assert steps[..j + 1][..j] == steps[..j];
    UsableExactlyWhen(n, steps[..j]);
  }

  /** A request that asks is refused exactly when its read does not see a live nonce. */
  lemma RefusedExactlyWhen(n: Saved, steps: seq<Step>, j: nat, id: RequestId)
    requires Execute(n, steps).Some? && j < |steps| && Reads(steps[j], id)
    ensures Execute(n, steps[..j]).Some?
    ensures HasStatus(Execute(n, steps).value, id, Refused) <==> !SeesLive(n, steps, j)
  {
    StatusAfterRead(n, steps, j, id);
    StatusFrom(n, steps, j + 1, id);
  }

  /**
    Exactly which requests are accepted, in every schedule: those that ask while the nonce has not
    expired and nobody has removed it, and that get to revoke it if they only validated. A stale
    read asks the nonce as it was saved, whoever removed it since, or finds none at all.
   */
  lemma AcceptedExactlyWhen(n: Saved, steps: seq<Step>, j: nat, id: RequestId)
    requires Execute(n, steps).Some? && j < |steps| && Reads(steps[j], id)
    ensures Execute(n, steps[..j]).Some?
    ensures HasStatus(Execute(n, steps).value, id, Accepted) <==>
            SeesLive(n, steps, j) && GetsToEnd(steps, j, id)
  {
    StatusAfterRead(n, steps, j, id);
    StatusFrom(n, steps, j + 1, id);
  }

  predicate ReadsCurrent(step: Step) {
    step.Validate? ==> step.read == Current
  }

  /**
    Exactly when one nonce is accepted twice by reads of the current item: both requests come to
    their end, and the later one asks in time and before anyone, the earlier one included, removed it.
   */
  lemma BothAcceptedExactlyWhen(n: Saved, steps: seq<Step>, i: nat, j: nat, a: RequestId, b: RequestId)
    requires Execute(n, steps).Some? && i < j < |steps|
    requires Reads(steps[i], a) && Reads(steps[j], b) && ReadsCurrent(steps[i]) && ReadsCurrent(steps[j])
    ensures Execute(n, steps[..j]).Some?
    ensures HasStatus(Execute(n, steps).value, a, Accepted) && HasStatus(Execute(n, steps).value, b, Accepted) <==>
            && GetsToEnd(steps, i, a) && GetsToEnd(steps, j, b)
            && ClockAt(n, steps, j) <= n.expiresAt && !Removed(steps[..j])
  {
    AcceptedExactlyWhen(n, steps, i, a);
    AcceptedExactlyWhen(n, steps, j, b);
    ExecutePrefix(n, steps[..j], i);
    assert steps[..j][..i] == steps[..i];
    if Removed(steps[..i]) {
      var m :| 0 <= m < i && (steps[..i][m].Consume? || steps[..i][m].Revoke?);
      assert steps[..j][m] == steps[..i][m];
    }
  }

  /**
    A request that asks after another one removed the nonce is refused, in every schedule, except
    exactly when an eventually consistent read returns the unexpired nonce as it was saved.
   */
  lemma AskingAfterRemovalIsRefused(n: Saved, steps: seq<Step>, i: nat, j: nat, a: RequestId, b: RequestId)
    requires Execute(n, steps).Some?
    requires i < j < |steps| && Removes(steps[i], a) && Reads(steps[j], b)
    ensures Execute(n, steps[..j]).Some?
    ensures HasStatus(Execute(n, steps).value, b, Refused) <==>
            !(steps[j] == Validate(b, AsSaved) && ClockAt(n, steps, j) <= n.expiresAt)
  {
    RefusedExactlyWhen(n, steps, j, b);
    assert steps[..j][i] == steps[i];
  }

  // ---------------------------------------------------------------------------------------------
  // Uses in turn
  // ---------------------------------------------------------------------------------------------

  /** Whoever asks after a removal is refused: uses that run one at a time accept the nonce once in all. */
  ghost predicate SingleUseInTurn(n: Saved) {
    forall steps: seq<Step>, i: nat, j: nat, a: RequestId, b: RequestId ::
      Execute(n, steps).Some? && i < j < |steps| && Removes(steps[i], a) && Reads(steps[j], b) ==>
      HasStatus(Execute(n, steps).value, b, Refused)
  }

  lemma ExecuteOneMore(n: Saved, steps: seq<Step>, step: Step)
    requires Execute(n, steps).Some?
    ensures Execute(n, steps + [step]) == Next(n.backend, Execute(n, steps).value, step)
  {
    assert (steps + [step])[..|steps|] == steps;
  }

  /** Two pairs of `validate` and `revoke`, the second one after the first, both accepted on a stale read. */
  lemma StaleReadAcceptsAgain(n: Saved) returns (steps: seq<Step>)
    requires n.backend == DynamoDb && n.clock <= n.expiresAt
    ensures |steps| == 6 && steps[3] == Revoke(0) && steps[4] == Validate(1, AsSaved)
    ensures Execute(n, steps).Some?
    ensures HasStatus(Execute(n, steps).value, 0, Accepted) && HasStatus(Execute(n, steps).value, 1, Accepted)
  {
    steps := [];
    ExecuteOneMore(n, steps, Arrive(0, false));
    steps := steps + [Arrive(0, false)];
    ExecuteOneMore(n, steps, Arrive(1, false));
    steps := steps + [Arrive(1, false)];
    ExecuteOneMore(n, steps, Validate(0, Current));
    steps := steps + [Validate(0, Current)];
    ExecuteOneMore(n, steps, Revoke(0));
    steps := steps + [Revoke(0)];
    ExecuteOneMore(n, steps, Validate(1, AsSaved));
    steps := steps + [Validate(1, AsSaved)];
    ExecuteOneMore(n, steps, Revoke(1));
    steps := steps + [Revoke(1)];
  }

  /** Used one at a time, an unexpired nonce is accepted once in all exactly where reads are consistent. */
  lemma SingleUseInTurnExactlyWhen(n: Saved)
    requires n.clock <= n.expiresAt
    ensures SingleUseInTurn(n) <==> n.backend != DynamoDb
  {
    if n.backend == DynamoDb {
      var steps := StaleReadAcceptsAgain(n);
      assert Removes(steps[3], 0) && Reads(steps[4], 1);
    } else {
      forall steps: seq<Step>, i: nat, j: nat, a: RequestId, b: RequestId |
        Execute(n, steps).Some? && i < j < |steps| && Removes(steps[i], a) && Reads(steps[j], b)
        ensures HasStatus(Execute(n, steps).value, b, Refused)
      {
        AskingAfterRemovalIsRefused(n, steps, i, j, a, b);
        if steps[j].Validate? {
          OnlyPossibleReads(n, steps, j);
        }
      }
    }
  }

  lemma OnlyPossibleReads(n: Saved, steps: seq<Step>, j: nat)
    requires Execute(n, steps).Some? && j < |steps| && steps[j].Validate?
    ensures Possible(n.backend, steps[j].read)
  {
    ExecutePrefix(n, steps, j + 1);
    assert steps[..j + 1][..j] == steps[..j];
  }

  /** In any backend, overlapping pairs of `validate` and `revoke` with current reads accept the same nonce twice. */
  lemma OverlappingPairsBothAccept(n: Saved) returns (steps: seq<Step>)
    requires n.clock <= n.expiresAt
    ensures Execute(n, steps).Some?
    ensures HasStatus(Execute(n, steps).value, 0, Accepted) && HasStatus(Execute(n, steps).value, 1, Accepted)
    ensures forall i :: 0 <= i < |steps| ==> ReadsCurrent(steps[i])
  {
    steps := [];
    ExecuteOneMore(n, steps, Arrive(0, false));
    steps := steps + [Arrive(0, false)];
    ExecuteOneMore(n, steps, Arrive(1, false));
    steps := steps + [Arrive(1, false)];
    ExecuteOneMore(n, steps, Validate(0, Current));
    steps := steps + [Validate(0, Current)];
    ExecuteOneMore(n, steps, Validate(1, Current));
    steps := steps + [Validate(1, Current)];
    ExecuteOneMore(n, steps, Revoke(0));
    steps := steps + [Revoke(0)];
    ExecuteOneMore(n, steps, Revoke(1));
    steps := steps + [Revoke(1)];
  }

  /** In any schedule and backend: a request left alone is accepted exactly when the nonce is live. */
  lemma UsesAlone(backend: Backend, s: State, id: RequestId)
    requires id !in s.requests
    ensures var live := s.expiresAt.Some? && s.clock <= s.expiresAt.value;
            && var asked := Next(backend, s, Arrive(id, true));
            && asked.Some? && Next(backend, asked.value, Consume(id)).Some?
            && var consumed := Next(backend, asked.value, Consume(id)).value;
            && consumed.requests == s.requests[id := Request(true, if live then Accepted else Refused)]
            && consumed.expiresAt == None && consumed.clock == s.clock
    ensures var live := s.expiresAt.Some? && s.clock <= s.expiresAt.value;
            && var asked := Next(backend, s, Arrive(id, false));
            && asked.Some? && Next(backend, asked.value, Validate(id, Current)).Some?
            && var validated := Next(backend, asked.value, Validate(id, Current)).value;
            && validated.requests == s.requests[id := Request(false, if live then Validated else Refused)]
            && validated.expiresAt == (if live then s.expiresAt else None)
            && (live ==>
                  && Next(backend, validated, Revoke(id)).Some?
                  && var revoked := Next(backend, validated, Revoke(id)).value;
                     revoked.requests == s.requests[id := Request(false, Accepted)] && revoked.expiresAt == None)
  {
  }

  /**
    The sweeper comes once the rounded-up TTL second is past, the clock never runs backwards, and only
    DynamoDB's reads may be stale.
   */
  lemma SurroundingsExactly(backend: Backend, s: State, to: int, id: RequestId, read: Read)
    ensures Next(backend, s, Sweep).Some? <==> s.expiresAt.Some? && (s.expiresAt.value + 999) / 1000 < s.clock / 1000
    ensures Next(backend, s, Sweep).Some? ==> Next(backend, s, Sweep).value == s.(expiresAt := None)
    ensures Next(backend, s, Tick(to)) == if s.clock <= to then Some(s.(clock := to)) else None
    ensures Next(backend, s, Validate(id, read)).Some? <==>
            id in s.requests && s.requests[id] == Request(false, Pending) && (read == Current || backend == DynamoDb)
  {
  }
}
