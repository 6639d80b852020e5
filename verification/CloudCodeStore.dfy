/**
  The cloud code stores as objects: each database call is one update of the table, and `Consume`
  is the sequence of calls the provider makes when no other request comes between.
 */
module CloudCodeStore {
  import opened Prelude
  import opened TxCodes
  import opened CodeStore
  import opened CloudRedemption

  /** What an undisturbed `consume` does to the item of one code, call by call. */
  function ConsumeItem(cfg: Config, slot: Option<Item>, given: Option<TxCode>, now: int): (Option<Item>, Outcome) {
    if slot.None? || slot.value.attempts >= cfg.maxTxCodeAttempts then (slot, Locked)
    else
      var item := slot.value.(attempts := slot.value.attempts + 1);
      var v := ItemVerdict(item, given);
      if ItemExpired(cfg.backend, item, now) then (None, Expired)
      else if v == Match then (None, Granted(item.configs))
      else if item.attempts >= cfg.maxTxCodeAttempts then (None, Locked)
      else (Some(item), Refusal(v))
  }

  /** The same saved code, with the same count of attempts, in both kinds of store. */
  ghost predicate SameCode(entry: Option<Entry>, item: Option<Item>) {
    && (entry.None? <==> item.None?)
    && (entry.Some? ==>
          && entry.value.configs == item.value.configs
          && entry.value.mode == item.value.mode
          && entry.value.expiresAt == item.value.expiresAt != 0
          && entry.value.attempts == item.value.attempts
          && exists tx ::
               && Savable(entry.value.mode, tx) && ComparesAlike(entry.value.mode, tx)
               && entry.value.txCode == KeptInMemory(entry.value.mode, tx)
               && item.value.txHash == KeptInCloud(entry.value.mode, tx))
  }

  /** One save leaves the same code in both kinds of store. */
  lemma SaveLeavesTheSameCode(configs: seq<ConfigId>, tx: Option<TxCode>, mode: InputMode, ttl: int, now: int)
    requires Savable(mode, tx) && ComparesAlike(mode, tx) && now + ttl * 1000 != 0
    ensures SameCode(Some(SavedEntry(configs, tx, mode, ttl, now)), Some(SavedItem(configs, tx, mode, ttl, now)))
    ensures SavedItem(configs, tx, mode, ttl, now).expiresAt == now + ttl * 1000
    ensures SavedItem(configs, tx, mode, ttl, now).attempts == 0
  {
  }

  /** The one instant on which the stores disagree: Firestore's expiry boundary is closed. */
  predicate OnFirestoreBoundary(cfg: Config, item: Option<Item>, now: int) {
    && cfg.backend == Firestore
    && item.Some? && item.value.attempts < cfg.maxTxCodeAttempts
    && now == item.value.expiresAt
  }

  /**
    Undisturbed, a cloud `consume` returns what the in-memory one returns, except exactly on
    Firestore's boundary; and off that boundary both stores stay on the same code.
   */
  lemma UndisturbedAgreesExactlyWhen(cfg: Config, entry: Option<Entry>, item: Option<Item>,
                                     given: Option<TxCode>, now: int)
    requires cfg.maxTxCodeAttempts >= 1 && SameCode(entry, item)
    ensures var cloud := ConsumeItem(cfg, item, given, now);
            var memory := ConsumeSlot(cfg.maxTxCodeAttempts, entry, given, now);
            && (cloud.1 == memory.1 <==> !OnFirestoreBoundary(cfg, item, now))
            && (!OnFirestoreBoundary(cfg, item, now) ==> SameCode(memory.0, cloud.0))
            && (OnFirestoreBoundary(cfg, item, now) ==> cloud == (None, Expired))
  {
    if entry.Some? {
      var mode := entry.value.mode;
      var tx :| && Savable(mode, tx) && ComparesAlike(mode, tx)
                && entry.value.txCode == KeptInMemory(mode, tx)
                && item.value.txHash == KeptInCloud(mode, tx);
      VerdictsAgree(mode, tx);
      assert CloudVerdict(KeptInCloud(mode, tx), mode, given) == MemoryVerdict(KeptInMemory(mode, tx), mode, given);
    }
  }

  // ---------------------------------------------------------------------------------------------
  // One request of the interleaved protocol, left alone
  // ---------------------------------------------------------------------------------------------

  /** The database calls a request makes when nothing comes between, as far as they are called for. */
  function OwnSteps(cfg: Config, s: State, id: RequestId, given: Option<TxCode>): seq<Step> {
    var slot := s.item;
    if slot.None? || slot.value.attempts >= cfg.maxTxCodeAttempts then [Arrive(id, given)] + [Gate(id)]
    else
      var item := slot.value.(attempts := slot.value.attempts + 1);
      var timed := TimedSteps(id, given);
      if ItemExpired(cfg.backend, item, s.clock) then timed + [DropExpired(id)]
      else if ItemVerdict(item, given) == Match then timed + ([Compare(id)] + [Redeem(id)])
      else if item.attempts >= cfg.maxTxCodeAttempts then timed + ([Compare(id)] + [LockOut(id)])
      else timed + [Compare(id)]
  }

  /** The gate and the clock, of a request that the gate lets through. */
  lemma AdmittedAlone(cfg: Config, s: State, id: RequestId, given: Option<TxCode>)
    requires id !in s.requests && s.item.Some? && s.item.value.attempts < cfg.maxTxCodeAttempts
    ensures var end := Execute(cfg, s, TimedSteps(id, given));
            var item := s.item.value.(attempts := s.item.value.attempts + 1);
            var late := ItemExpired(cfg.backend, item, s.clock);
            var phase := if late then DroppingExpired(item, s.clock) else Timed(item, s.clock);
            && end.Some? && end.value.item == Some(item) && end.value.clock == s.clock
            && end.value.requests == s.requests[id := Request(given, phase)]
  {
    var arrived := [Arrive(id, given)];
    assert Execute(cfg, s, arrived) == Next(cfg, s, Arrive(id, given));
    ExecuteOneMore(cfg, s, arrived, Gate(id));
    ExecuteOneMore(cfg, s, arrived + [Gate(id)], ReadClock(id));
  }

  lemma RefusedAtTheGate(cfg: Config, s: State, id: RequestId, given: Option<TxCode>)
    requires id !in s.requests && !(s.item.Some? && s.item.value.attempts < cfg.maxTxCodeAttempts)
    ensures var end := Execute(cfg, s, [Arrive(id, given)] + [Gate(id)]);
            && end.Some? && end.value.item == s.item && end.value.clock == s.clock
            && end.value.requests == s.requests[id := Request(given, Finished(Locked))]
  {
    var arrived := [Arrive(id, given)];
    assert Execute(cfg, s, arrived) == Next(cfg, s, Arrive(id, given));
    ExecuteOneMore(cfg, s, arrived, Gate(id));
  }

  /** What is left to do of a request whose clock is read, with the item still as its gate left it. */
  lemma TimedAlone(cfg: Config, t: State, id: RequestId, given: Option<TxCode>)
    requires id in t.requests && t.item.Some? && t.requests[id] == Request(given, Timed(t.item.value, t.clock))
    ensures var item, v := t.item.value, ItemVerdict(t.item.value, given);
            var compared := Next(cfg, t, Compare(id));
            && compared.Some?
            && var end :=
                 if v == Match then Next(cfg, compared.value, Redeem(id))
                 else if item.attempts >= cfg.maxTxCodeAttempts then Next(cfg, compared.value, LockOut(id))
                 else compared;
               && end.Some? && end.value.clock == t.clock
               && end.value.item == (if v == Match || item.attempts >= cfg.maxTxCodeAttempts then None else t.item)
               && end.value.requests == t.requests[id := Request(given, Finished(
                    if v == Match then Granted(item.configs)
                    else if item.attempts >= cfg.maxTxCodeAttempts then Locked
                    else Refusal(v)))]
  {
  }

  /** In the middle of any schedule: a request left alone does to the item, and is told, what `ConsumeItem` says. */
  lemma OwnStepsConsume(cfg: Config, s: State, id: RequestId, given: Option<TxCode>)
    requires id !in s.requests
    ensures var end := Execute(cfg, s, OwnSteps(cfg, s, id, given));
            var (slot, outcome) := ConsumeItem(cfg, s.item, given, s.clock);
            && end.Some?
            && end.value.item == slot
            && end.value.requests == s.requests[id := Request(given, Finished(outcome))]
            && end.value.clock == s.clock
  {
    if s.item.None? || s.item.value.attempts >= cfg.maxTxCodeAttempts {
      RefusedAtTheGate(cfg, s, id, given);
    } else {
      AdmittedAlone(cfg, s, id, given);
      var t := Execute(cfg, s, TimedSteps(id, given)).value;
      if t.requests[id].phase.DroppingExpired? {
        ExecuteOneMore(cfg, s, TimedSteps(id, given), DropExpired(id));
      } else {
        ResolvedAlone(cfg, s, id, given);
      }
    }
  }

  function TimedSteps(id: RequestId, given: Option<TxCode>): seq<Step> {
    [Arrive(id, given)] + [Gate(id)] + [ReadClock(id)]
  }

  /** The compare and what follows it. */
  lemma ResolvedAlone(cfg: Config, s: State, id: RequestId, given: Option<TxCode>)
    requires id !in s.requests && s.item.Some? && s.item.value.attempts < cfg.maxTxCodeAttempts
    requires var t := Execute(cfg, s, TimedSteps(id, given));
             var item := s.item.value.(attempts := s.item.value.attempts + 1);
             && t.Some? && t.value.item == Some(item) && t.value.clock == s.clock
             && t.value.requests == s.requests[id := Request(given, Timed(item, s.clock))]
    ensures var item := s.item.value.(attempts := s.item.value.attempts + 1);
            var v := ItemVerdict(item, given);
            var last := v == Match || item.attempts >= cfg.maxTxCodeAttempts;
            var rest := if v == Match then [Compare(id)] + [Redeem(id)]
                        else if last then [Compare(id)] + [LockOut(id)]
                        else [Compare(id)];
            var end := Execute(cfg, s, TimedSteps(id, given) + rest);
            && end.Some? && end.value.clock == s.clock
            && end.value.item == (if last then None else Some(item))
            && end.value.requests == s.requests[id := Request(given, Finished(
                 if v == Match then Granted(item.configs) else if last then Locked else Refusal(v)))]
  {
    var timed := TimedSteps(id, given);
    var t := Execute(cfg, s, timed).value;
    TimedAlone(cfg, t, id, given);
    ExecuteOneMore(cfg, s, timed, Compare(id));
    ExecuteOneMore(cfg, s, timed + [Compare(id)], Redeem(id));
    ExecuteOneMore(cfg, s, timed + [Compare(id)], LockOut(id));
    assert timed + ([Compare(id)] + [Redeem(id)]) == timed + [Compare(id)] + [Redeem(id)];
    assert timed + ([Compare(id)] + [LockOut(id)]) == timed + [Compare(id)] + [LockOut(id)];
  }

  /** A request whose right guess comes after another one took the code away is told so. */
  lemma LoserIsTold(cfg: Config, s: State, id: RequestId)
    requires id in s.requests && s.requests[id].phase.Redeeming? && s.item.None?
    ensures var end := Next(cfg, s, Redeem(id));
            end.Some? && end.value.item.None? && end.value.requests[id].phase == Finished(AlreadyConsumed)
  {
  }

  /** Clocks run forwards by any amount, and a request may die at any point before its end. */
  lemma InterruptionsExactly(cfg: Config, s: State, to: int, id: RequestId)
    ensures Next(cfg, s, Tick(to)) == if s.clock <= to then Some(s.(clock := to)) else None
    ensures Next(cfg, s, Abandon(id)).Some? <==> id in s.requests && !s.requests[id].phase.Finished?
    ensures Next(cfg, s, Abandon(id)).Some? ==>
              Next(cfg, s, Abandon(id)).value == s.(requests := s.requests[id := s.requests[id].(phase := Abandoned)])
  {
  }

  /** The sweeper may come as soon as the item's rounded-up TTL second is past, whatever requests are doing. */
  lemma SweepsExactlyWhen(cfg: Config, s: State)
    ensures Next(cfg, s, Sweep).Some? <==>
            s.item.Some? && (s.item.value.expiresAt + 999) / 1000 < s.clock / 1000
    ensures Next(cfg, s, Sweep).Some? ==> Next(cfg, s, Sweep).value == s.(item := None)
  {
  }

  class CloudPreAuthorizedCodeStore {
    const cfg: Config
    var items: map<Code, Item>

    constructor (backend: Backend, maxTxCodeAttemptsRaw: Option<real>)
      ensures cfg == Config(backend, EffectiveMaxAttempts(maxTxCodeAttemptsRaw))
      ensures items == map[]
    {
      cfg := Config(backend, EffectiveMaxAttempts(maxTxCodeAttemptsRaw));
      items := map[];
    }

    method Save(code: Code, configs: seq<ConfigId>, tx: Option<TxCode>, mode: InputMode, ttlSec: Option<real>,
                defaultTtlSec: int, now: int)
      returns (saved: bool)
      requires defaultTtlSec > 0
      modifies this
      ensures saved <==> Savable(mode, tx)
      ensures saved ==>
        items == old(items)[code := SavedItem(configs, tx, mode, EffectiveTtl(ttlSec, defaultTtlSec), now)]
      ensures !saved ==> items == old(items)
    {
      var item := Item(configs, None, mode, now + EffectiveTtl(ttlSec, defaultTtlSec) * 1000, 0);
      if tx.Some? {
        if mode != Textual {
          var canonical := ToDigitString(tx.value);
          if canonical.None? {
            return false;
          }
          item := item.(txHash := Some(HashText(canonical.value)));
        } else {
          item := item.(txHash := Some(HashText(Rendered(tx.value))));
        }
      }
      items := items[code := item];
      return true;
    }

    /** The conditional update that counts an attempt and reads the item back. */
    method Admit(code: Code) returns (item: Option<Item>)
      modifies this
      ensures item.Some? <==> code in old(items) && old(items)[code].attempts < cfg.maxTxCodeAttempts
      ensures item.Some? ==>
        && item.value == old(items)[code].(attempts := old(items)[code].attempts + 1)
        && items == old(items)[code := item.value]
      ensures item.None? ==> items == old(items)
    {
      if code in items && items[code].attempts < cfg.maxTxCodeAttempts {
        items := items[code := items[code].(attempts := items[code].attempts + 1)];
        return Some(items[code]);
      }
      return None;
    }

    /** A delete; the result says whether the item still existed. */
    method DeleteCode(code: Code) returns (existed: bool)
      modifies this
      ensures existed <==> code in old(items)
      ensures items == old(items) - {code}
    {
      existed := code in items;
      items := items - {code};
    }

    method Consume(code: Code, given: Option<TxCode>, now: int) returns (outcome: Outcome)
      modifies this
      ensures var (slot, result) := ConsumeItem(cfg, Lookup(old(items), code), given, now);
              outcome == result && items == WithSlot(old(items), code, slot)
    {
      var admitted := Admit(code);
      if admitted.None? {
        return Locked;
      }
      var item := admitted.value;
      if ItemExpired(cfg.backend, item, now) {
        var _ := DeleteCode(code);
        return Expired;
      }
      var verdict := ItemVerdict(item, given);
      if verdict != Match {
        if item.attempts >= cfg.maxTxCodeAttempts {
          var _ := DeleteCode(code);
          return Locked;
        }
        return Refusal(verdict);
      }
      var existed := DeleteCode(code);
      return if existed then Granted(item.configs) else AlreadyConsumed;
    }
  }
}
