/**
  Access tokens and the allowed-configuration entries that must outlive them.

  A token expires by whole seconds; the entry saved with it expires by milliseconds and, in
  DynamoDB, may also be removed by the TTL sweeper.
 */
module TokenLifetime {
  import opened Prelude
  import opened CodeStore
  import opened Issuance
  import opened IssuanceGuarantees

  predicate TokenUnexpired(at: int, ttlSec: real, now: int) {
    Seconds(now) as real < TokenExp(at, ttlSec)
  }

  /** The exact boundary instant still reads; `expires_at` zero never expires in memory. */
  predicate EntryReadable(expiresAt: int, now: int) {
    expiresAt >= now
  }

  predicate WholeSeconds(ttlSec: real) {
    ttlSec == ttlSec.Floor as real
  }

  /** Whenever the token is unexpired, its entry (saved no earlier than the token) still reads. */
  ghost predicate EntryOutlivesToken(ttlSec: real) {
    forall minted, saved, now ::
      minted <= saved <= now && TokenUnexpired(minted, ttlSec, now) ==>
        EntryReadable(EntryExpiresAt(saved, ttlSec), now)
  }

  lemma WholeSecondsOutlive(ttlSec: real, minted: int, saved: int, now: int)
    requires ttlSec < 1.0 || WholeSeconds(ttlSec)
    requires minted <= saved <= now && TokenUnexpired(minted, ttlSec, now)
    ensures EntryReadable(EntryExpiresAt(saved, ttlSec), now)
  {
    var whole := ttlSec.Floor;
    if ttlSec < 1.0 {
      assert Seconds(now) < Seconds(minted) + 1;
    } else {
      assert Seconds(now) < Seconds(minted) + whole;
    }
  }

  /** A lifetime with a fraction loses its entry while the token still has most of a second to live. */
  lemma FractionLosesEntry(ttlSec: real)
    requires ttlSec >= 1.0 && !WholeSeconds(ttlSec)
    ensures TokenUnexpired(0, ttlSec, ttlSec.Floor * 1000 + 999)
    ensures !EntryReadable(EntryExpiresAt(0, ttlSec), ttlSec.Floor * 1000 + 999)
  {
    assert Seconds(ttlSec.Floor * 1000 + 999) == ttlSec.Floor;
  }

  /**
    An unexpired token never finds its entry gone, for exactly the lifetimes that are whole seconds
    or below one second; that covers every positive integer lifetime.
   */
  lemma EntryOutlivesTokenExactlyWhen(ttlSec: real)
    ensures EntryOutlivesToken(ttlSec) <==> ttlSec < 1.0 || WholeSeconds(ttlSec)
  {
    if ttlSec < 1.0 || WholeSeconds(ttlSec) {
      forall minted, saved, now | minted <= saved <= now && TokenUnexpired(minted, ttlSec, now)
        ensures EntryReadable(EntryExpiresAt(saved, ttlSec), now)
      {
        WholeSecondsOutlive(ttlSec, minted, saved, now);
      }
    } else {
      FractionLosesEntry(ttlSec);
    }
  }

  // ---------------------------------------------------------------------------------------------
  // The flows
  // ---------------------------------------------------------------------------------------------

  /** What the token response at position t saved: the offered configurations, for the token's lifetime. */
  function SavedEntryAt(cfg: Config, run: seq<Request>, t: nat): Option<Allowed>
    requires t < |run|
  {
    var s, r := At(cfg, run, t), run[t];
    if r.RedeemCode? && r.code in s.codes
    then Some(Allowed(s.codes[r.code].configs, EntryExpiresAt(r.now, TokenTtl(r.ttlSec))))
    else None
  }

  lemma MintedEntry(cfg: Config, s: State, r: Request)
    requires r.RedeemCode? && RedeemFlow(cfg, s, r).response.TokenIssued?
    ensures var token := MintedToken(r);
            && RedeemFlow(cfg, s, r).response == TokenIssued(token) && r.code in s.codes
            && Lookup(RedeemFlow(cfg, s, r).state.allowed, Sha256(token)) ==
               Some(Allowed(s.codes[r.code].configs, EntryExpiresAt(r.now, TokenTtl(r.ttlSec))))
  {
    var mid := RedeemShape(cfg, s, r);
    MintShape(cfg, mid, r, RedeemFlow(cfg, s, r).spent);
  }

  /** A readable entry outlives every request but the one that would mint its token again. */
  lemma ReadableEntryStays(cfg: Config, s: State, r: Request, key: TokenHash)
    requires key in s.allowed && EntryReadable(s.allowed[key].expiresAt, r.now)
    requires Serve(cfg, s, r).response != TokenIssued(key.token)
    ensures Lookup(Serve(cfg, s, r).state.allowed, key) == Some(s.allowed[key])
  {
    match r
    case RedeemCode(_, _, _, _, _, _, _) =>
      var mid := RedeemShape(cfg, s, r);
      MintShape(cfg, mid, r, RedeemFlow(cfg, s, r).spent);
    case Authorize(_, _, _, _, _, _) => AuthorizeShape(cfg, s, r);
    case Issue(_, _, _, _, _, _, _) =>
      CheckProofsOnlySpends(FetchAllowed(s, r.context.key, r.now).0, r.proofs, r.cnonce, r.now);
    case _ =>
  }

  lemma EntryStaysOnce(cfg: Config, run: seq<Request>, k: nat, key: TokenHash, e: Allowed)
    requires k < |run| && Lookup(At(cfg, run, k).allowed, key) == Some(e)
    requires EntryReadable(e.expiresAt, run[k].now) && !MintsAt(cfg, run, k, key.token)
    ensures Lookup(At(cfg, run, k + 1).allowed, key) == Some(e)
  {
    ReadableEntryStays(cfg, At(cfg, run, k), run[k], key);
  }

  lemma {:induction false} EntryStays(cfg: Config, run: seq<Request>, first: nat, n: nat, key: TokenHash, e: Allowed)
    requires first <= n <= |run| && Lookup(At(cfg, run, first).allowed, key) == Some(e)
    requires forall k :: first <= k < n ==> EntryReadable(e.expiresAt, run[k].now)
    requires forall k: nat :: first <= k < n ==> !MintsAt(cfg, run, k, key.token)
    ensures Lookup(At(cfg, run, n).allowed, key) == Some(e)
  {
    if first < n {
      EntryStays(cfg, run, first, n - 1, key, e);
      EntryStaysOnce(cfg, run, n - 1, key, e);
    }
  }

  lemma EntryIsSaved(cfg: Config, run: seq<Request>, t: nat, token: Token)
    requires MintsAt(cfg, run, t, token)
    ensures Lookup(At(cfg, run, t + 1).allowed, Sha256(token)) == SavedEntryAt(cfg, run, t) != None
    ensures run[t].RedeemCode? && token == MintedToken(run[t])
  {
    CodesChange(cfg, At(cfg, run, t), run[t], "");
    MintedEntry(cfg, At(cfg, run, t), run[t]);
  }

  lemma NotMintedAgain(cfg: Config, run: seq<Request>, t: nat, token: Token, n: nat)
    requires FreshIds(run) && MintsAt(cfg, run, t, token) && t < n
    ensures !MintsAt(cfg, run, n, token)
  {
    if MintsAt(cfg, run, n, token) {
      CodeRedeemedAtMostOnce(cfg, run, t, token, n, token);
    }
  }

  /**
    In every run of the flows, a request that presents an unexpired token with a whole-second lifetime
    finds the entry saved with it: the configurations offered under its code.
   */
  lemma UnexpiredTokenFindsItsEntry(cfg: Config, run: seq<Request>, t: nat, token: Token, i: nat)
    requires FreshIds(run) && ClockRuns(run) && MintsAt(cfg, run, t, token) && t < i < |run|
    requires TokenVerifies(At(cfg, run, i), token, run[i].now)
    requires TokenTtl(run[t].ttlSec) < 1.0 || WholeSeconds(TokenTtl(run[t].ttlSec))
    ensures SavedEntryAt(cfg, run, t).Some?
    ensures FetchAllowed(At(cfg, run, i), Sha256(token), run[i].now) == (At(cfg, run, i), SavedEntryAt(cfg, run, t))
  {
    EntryIsSaved(cfg, run, t, token);
    var e := SavedEntryAt(cfg, run, t).value;
    LivesAsLong(cfg, run, t, token, i);
    forall k: nat | t + 1 <= k < i ensures !MintsAt(cfg, run, k, token) {
      NotMintedAgain(cfg, run, t, token, k);
    }
    EntryStays(cfg, run, t + 1, i, Sha256(token), e);
    ReadableIsFetched(At(cfg, run, i), Sha256(token), e, run[i].now);
  }

  /** Up to any request at which the token verifies, its entry is readable. */
  lemma LivesAsLong(cfg: Config, run: seq<Request>, t: nat, token: Token, i: nat)
    requires ClockRuns(run) && MintsAt(cfg, run, t, token) && t < i < |run|
    requires SavedEntryAt(cfg, run, t).Some? && run[t].RedeemCode? && token == MintedToken(run[t])
    requires Seconds(run[i].now) as real < token.exp
    requires TokenTtl(run[t].ttlSec) < 1.0 || WholeSeconds(TokenTtl(run[t].ttlSec))
    ensures forall k :: t + 1 <= k <= i ==> EntryReadable(SavedEntryAt(cfg, run, t).value.expiresAt, run[k].now)
  {
    WholeSecondsOutlive(TokenTtl(run[t].ttlSec), run[t].now, run[t].now, run[i].now);
  }

  lemma ReadableIsFetched(s: State, key: TokenHash, e: Allowed, now: int)
    requires Lookup(s.allowed, key) == Some(e) && EntryReadable(e.expiresAt, now)
    ensures FetchAllowed(s, key, now) == (s, Some(e))
  {
  }

  // ---------------------------------------------------------------------------------------------
  // The DynamoDB store
  // ---------------------------------------------------------------------------------------------

  datatype Item = Item(configs: seq<ConfigId>, expiresAt: int, ttl: int)

  class DynamoDbAllowedConfigurationStore {
    var items: map<TokenHash, Item>

    constructor ()
      ensures items == map[]
    {
      items := map[];
    }

    /** Every item's TTL second is its millisecond expiry, rounded up. */
    predicate Valid()
      reads this
    {
      forall key | key in items :: items[key].ttl == CeilSeconds(items[key].expiresAt)
    }

    method Save(key: TokenHash, configs: seq<ConfigId>, ttlSec: real, now: int)
      requires Valid()
      modifies this
      ensures Valid()
      ensures key in items && items[key].configs == configs && items[key].expiresAt == EntryExpiresAt(now, ttlSec)
      ensures items - {key} == old(items) - {key}
    {
      var expiresAt := now + EffectiveTtl(Some(ttlSec), DEFAULT_TTL_SEC) * 1000;
      items := items[key := Item(configs, expiresAt, (expiresAt + 999) / 1000)];
    }

    method Fetch(key: TokenHash, now: int) returns (configs: Option<seq<ConfigId>>)
      requires Valid()
      modifies this
      ensures Valid()
      ensures configs == if key in old(items) && EntryReadable(old(items)[key].expiresAt, now)
                         then Some(old(items)[key].configs) else None
      ensures items == if configs.Some? then old(items) else old(items) - {key}
    {
      if key !in items {
        return None;
      }
      if items[key].expiresAt < now {
        items := items - {key};
        return None;
      }
      return Some(items[key].configs);
    }

    /** The TTL sweeper, at any instant and on any subset of the items whose TTL second has passed. */
    method Sweep(candidates: set<TokenHash>, now: int)
      requires Valid()
      modifies this
      ensures Valid()
      ensures forall key | key in old(items) && EntryReadable(old(items)[key].expiresAt, now) ::
                key in items && items[key] == old(items)[key]
      ensures forall key | key in items :: key in old(items) && items[key] == old(items)[key]
    {
      items := map key | key in items && !(key in candidates && items[key].ttl < Seconds(now)) :: items[key];
    }
  }

  /**
    The token response and the store together: for a whole-second lifetime, a fetch at any instant at
    which the token verifies finds what was saved, whatever the sweeper removed in between.
   */
  method FetchWhileTokenVerifies(store: DynamoDbAllowedConfigurationStore, token: Token, configs: seq<ConfigId>,
                                 ttlSec: real, minted: int, saved: int, candidates: set<TokenHash>, swept: int,
                                 now: int)
    returns (found: Option<seq<ConfigId>>)
    requires store.Valid()
    requires ttlSec < 1.0 || WholeSeconds(ttlSec)
    requires minted <= saved <= swept <= now && TokenUnexpired(minted, ttlSec, now)
    modifies store
    ensures found == Some(configs)
  {
    store.Save(Sha256(token), configs, ttlSec, saved);
    WholeSecondsOutlive(ttlSec, minted, saved, now);
    store.Sweep(candidates, swept);
    found := store.Fetch(Sha256(token), now);
  }
}
