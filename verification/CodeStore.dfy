/**
  The in-memory pre-authorized code store: the atomic specification of one-time redemption.
 */
module CodeStore {
  import opened Prelude
  import opened TxCodes

  type Code = string
  type ConfigId = string

  datatype Entry = Entry(
    configs: seq<ConfigId>,
    txCode: Option<TxCode>,
    mode: InputMode,
    expiresAt: int,
    attempts: nat)

  datatype Outcome =
    | Granted(configs: seq<ConfigId>)
    | Locked
    | Expired
    | AlreadyConsumed
    | TxCodeRequired
    | TxCodeInvalid
    | TxCodeUnexpected

  const DEFAULT_TTL_SEC := 300
  const DEFAULT_MAX_TX_CODE_ATTEMPTS := 5

  /** An optional number of seconds is floored; absent or non-positive values fall back to the default. */
  function EffectiveTtl(ttlSec: Option<real>, default: int): (r: int)
    requires default > 0
    ensures r > 0
    ensures ttlSec.Some? && ttlSec.value >= 1.0 ==> r as real <= ttlSec.value < r as real + 1.0
    ensures ttlSec.None? || ttlSec.value < 1.0 ==> r == default
  {
    if ttlSec.Some? && ttlSec.value.Floor > 0 then ttlSec.value.Floor else default
  }

  /** Likewise for the limit on attempts, which is never below one. */
  function EffectiveMaxAttempts(raw: Option<real>): (r: nat)
    ensures r >= 1
    ensures raw.None? ==> r == 5
    ensures raw.Some? && raw.value >= 1.0 ==> r as real <= raw.value < r as real + 1.0
    ensures raw.Some? && raw.value < 1.0 ==> r == 1
  {
    var floor := if raw.Some? then raw.value.Floor else DEFAULT_MAX_TX_CODE_ATTEMPTS;
    if floor < 1 then 1 else floor
  }

  function SavedEntry(configs: seq<ConfigId>, tx: Option<TxCode>, mode: InputMode, ttl: int, now: int): Entry
    requires Savable(mode, tx)
  {
    Entry(configs, KeptInMemory(mode, tx), mode, now + ttl * 1000, 0)
  }

  function Refusal(v: Verdict): Outcome
    requires v != Match
  {
    match v
    case Missing => TxCodeRequired
    case Mismatch => TxCodeInvalid
    case Unexpected => TxCodeUnexpected
  }

  /** `expires_at` zero is falsy in the source, hence never expired. */
  predicate IsExpired(e: Entry, now: int) {
    e.expiresAt != 0 && e.expiresAt < now
  }

  predicate Matches(e: Entry, given: Option<TxCode>) {
    MemoryVerdict(e.txCode, e.mode, given) == Match
  }

  /** One atomic `consume` against the slot of one code. */
  function ConsumeSlot(max: nat, slot: Option<Entry>, given: Option<TxCode>, now: int): (Option<Entry>, Outcome) {
    if slot.None? || slot.value.attempts >= max then (slot, Locked)
    else
      var item := slot.value.(attempts := slot.value.attempts + 1);
      if IsExpired(item, now) then (None, Expired)
      else
        var v := MemoryVerdict(item.txCode, item.mode, given);
        if v == Match then (None, Granted(item.configs))
        else if item.attempts >= max then (None, Locked)
        else (Some(item), Refusal(v))
  }

  datatype Call = Call(given: Option<TxCode>, now: int)

  /** The slot after a sequence of calls, one at a time. */
  function SlotAfter(max: nat, slot: Option<Entry>, calls: seq<Call>): Option<Entry> {
    if calls == [] then slot
    else
      var last := calls[|calls| - 1];
      ConsumeSlot(max, SlotAfter(max, slot, calls[..|calls| - 1]), last.given, last.now).0
  }

  /** What the call at position i returns in that sequence. */
  function OutcomeAt(max: nat, slot: Option<Entry>, calls: seq<Call>, i: nat): Outcome
    requires i < |calls|
  {
    ConsumeSlot(max, SlotAfter(max, slot, calls[..i]), calls[i].given, calls[i].now).1
  }

  /** Every call so far was in time and wrong. */
  predicate AllWrong(e: Entry, calls: seq<Call>) {
    forall j | 0 <= j < |calls| :: !IsExpired(e, calls[j].now) && !Matches(e, calls[j].given)
  }

  /** As long as guesses are wrong the slot only counts them, and the last allowed one removes it. */
  lemma {:induction false} WrongGuessesAreCounted(max: nat, e: Entry, calls: seq<Call>)
    requires e.attempts == 0 && max >= 1
    ensures |calls| < max && AllWrong(e, calls) ==> SlotAfter(max, Some(e), calls) == Some(e.(attempts := |calls|))
    ensures !(|calls| < max && AllWrong(e, calls)) ==> SlotAfter(max, Some(e), calls) == None
  {
    if calls != [] {
      var n := |calls| - 1;
      WrongGuessesAreCounted(max, e, calls[..n]);
      assert AllWrong(e, calls) <==>
             AllWrong(e, calls[..n]) && !IsExpired(e, calls[n].now) && !Matches(e, calls[n].given);
    }
  }

  /**
    One-time redemption in closed form, for any sequence of calls with any clocks: call i is granted
    exactly when it is in time and right, it is among the first `max` calls, and every call before
    it was in time and wrong.
   */
  lemma {:induction false} GrantedExactlyWhen(max: nat, e: Entry, calls: seq<Call>, i: nat)
    requires e.attempts == 0 && max >= 1 && i < |calls|
    ensures OutcomeAt(max, Some(e), calls, i).Granted? <==>
            && i < max
            && AllWrong(e, calls[..i])
            && !IsExpired(e, calls[i].now)
            && Matches(e, calls[i].given)
    ensures OutcomeAt(max, Some(e), calls, i).Granted? ==> OutcomeAt(max, Some(e), calls, i) == Granted(e.configs)
  {
    WrongGuessesAreCounted(max, e, calls[..i]);
  }

  /**
    What every call of a sequence is told: expiry comes first, then the right guess, then the limit, and
    only then what is wrong with the guess. Nothing is told apart once the code is gone.
   */
  lemma {:induction false} OutcomeExactly(max: nat, e: Entry, calls: seq<Call>, i: nat)
    requires e.attempts == 0 && max >= 1 && i < |calls|
    ensures var given := calls[i].given;
            OutcomeAt(max, Some(e), calls, i) ==
            if i >= max || !AllWrong(e, calls[..i]) then Locked
            else if e.expiresAt != 0 && calls[i].now > e.expiresAt then Expired
            else if Matches(e, given) then Granted(e.configs)
            else if i + 1 >= max then Locked
            else if e.txCode.None? then TxCodeUnexpected
            else if given.None? then TxCodeRequired
            else TxCodeInvalid
  {
    WrongGuessesAreCounted(max, e, calls[..i]);
  }

  /** No two calls of one sequence are granted. */
  lemma GrantedAtMostOnce(max: nat, e: Entry, calls: seq<Call>, i: nat, j: nat)
    requires e.attempts == 0 && max >= 1 && i < |calls| && j < |calls|
    requires OutcomeAt(max, Some(e), calls, i).Granted? && OutcomeAt(max, Some(e), calls, j).Granted?
    ensures i == j
  {
    GrantedExactlyWhen(max, e, calls, i);
    GrantedExactlyWhen(max, e, calls, j);
  }

  /** The store itself: a map from codes to entries, updated in place. */
  class InMemoryPreAuthorizedCodeStore {
    const maxTxCodeAttempts: nat
    var codes: map<Code, Entry>

    constructor (maxTxCodeAttemptsRaw: Option<real>)
      ensures codes == map[]
      ensures maxTxCodeAttempts == EffectiveMaxAttempts(maxTxCodeAttemptsRaw)
    {
      maxTxCodeAttempts := EffectiveMaxAttempts(maxTxCodeAttemptsRaw);
      codes := map[];
    }

    method Save(code: Code, configs: seq<ConfigId>, tx: Option<TxCode>, mode: InputMode, ttlSec: Option<real>, now: int)
      returns (saved: bool)
      modifies this
      ensures saved <==> Savable(mode, tx)
      ensures saved ==>
        codes == old(codes)[code := SavedEntry(configs, tx, mode, EffectiveTtl(ttlSec, DEFAULT_TTL_SEC), now)]
      ensures !saved ==> codes == old(codes)
    {
      var expiresAt := now + EffectiveTtl(ttlSec, DEFAULT_TTL_SEC) * 1000;
      var storedTxCode := tx;
      if tx.Some? && mode != Textual {
        var canonical := ToDigitString(tx.value);
        if canonical.None? {
          return false;
        }
        storedTxCode := Some(Text(canonical.value));
      }
      codes := codes[code := Entry(configs, storedTxCode, mode, expiresAt, 0)];
      return true;
    }

    method Consume(code: Code, given: Option<TxCode>, now: int) returns (outcome: Outcome)
      modifies this
      ensures var (slot, result) := ConsumeSlot(maxTxCodeAttempts, Lookup(old(codes), code), given, now);
              outcome == result && codes == WithSlot(old(codes), code, slot)
    {
      if code !in codes {
        return Locked;
      }
      var currentAttempts := codes[code].attempts;
      if currentAttempts >= maxTxCodeAttempts {
        return Locked;
      }
      var item := codes[code].(attempts := currentAttempts + 1);
      codes := codes[code := item];

      if item.expiresAt != 0 && item.expiresAt < now {
        codes := codes - {code};
        return Expired;
      }
      var verdict := MemoryVerdict(item.txCode, item.mode, given);
      if verdict != Match {
        if item.attempts >= maxTxCodeAttempts {
          codes := codes - {code};
          return Locked;
        }
        return Refusal(verdict);
      }
      codes := codes - {code};
      return Granted(item.configs);
    }
  }
}
