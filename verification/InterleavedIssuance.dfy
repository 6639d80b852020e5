/**
  Provenance when the store calls of the flows interleave: redemptions, token mintings, saves and
  fetches of allowed configurations, and removals by expiry and sweepers, in any order.

  The write that takes a code out of its store is one step, as it is in memory; in the cloud it is the
  conditional delete, which at most one request of a code wins.
 */
module InterleavedIssuance {
  import opened Prelude
  import opened CodeStore
  import Issuance

  type RequestId = nat
  type Token = Issuance.Token
  type TokenHash = Issuance.TokenHash

  /** A request that won its code: what it got, the token it minted, and whether it has saved the entry. */
  datatype Redeemer = Redeemer(code: Code, configs: seq<ConfigId>, token: Option<Token>, saved: bool)

  datatype Issue = Issue(token: Token, config: ConfigId)

  datatype State = State(
    codes: map<Code, seq<ConfigId>>,
    redeemers: map<RequestId, Redeemer>,
    allowed: map<TokenHash, seq<ConfigId>>,
    offers: map<Code, seq<ConfigId>>,       // history: every offer made
    issues: seq<Issue>)                     // history: every credential issued

  datatype Step =
    | Offer(code: Code, configs: seq<ConfigId>)
    | Drop(code: Code)                       // lockout, expiry or the sweeper
    | Redeem(id: RequestId, code: Code)
    | Mint(id: RequestId, token: Token)
    | Save(id: RequestId)
    | Forget(key: TokenHash)                 // expiry or the sweeper
    | Fetch(token: Token, config: ConfigId)  // finds the entry, and issues

  const NOTHING := State(map[], map[], map[], map[], [])

  /** The server signed the token; whoever has it may present it from then on. */
  predicate IsMinted(s: State, token: Token) {
    exists id :: id in s.redeemers && s.redeemers[id].token == Some(token)
  }

  /** One step, or None when it is not enabled; a request that dies simply takes no further step. */
  function Next(s: State, step: Step): Option<State> {
    match step
    case Offer(code, configs) =>
      if code in s.offers then None
      else Some(s.(codes := s.codes[code := configs], offers := s.offers[code := configs]))
    case Drop(code) => Some(s.(codes := s.codes - {code}))
    case Redeem(id, code) =>
      if code !in s.codes || id in s.redeemers then None
      else
        var r := Redeemer(code, s.codes[code], None, false);
        Some(s.(codes := s.codes - {code}, redeemers := s.redeemers[id := r]))
    case Mint(id, token) =>
      if id !in s.redeemers || s.redeemers[id].token.Some? || token.code != s.redeemers[id].code then None
      else Some(s.(redeemers := s.redeemers[id := s.redeemers[id].(token := Some(token))]))
    case Save(id) =>
      if id !in s.redeemers || s.redeemers[id].token.None? || s.redeemers[id].saved then None
      else
        var r := s.redeemers[id];
        Some(s.(redeemers := s.redeemers[id := r.(saved := true)],
                allowed := s.allowed[Issuance.Sha256(r.token.value) := r.configs]))
    case Forget(key) => Some(s.(allowed := s.allowed - {key}))
    case Fetch(token, config) =>
      var key := Issuance.Sha256(token);
      if !IsMinted(s, token) || key !in s.allowed || config !in s.allowed[key] then None
      else Some(s.(issues := s.issues + [Issue(token, config)]))
  }

  function Execute(steps: seq<Step>): Option<State> {
    if steps == [] then Some(NOTHING)
    else
      var before := Execute(steps[..|steps| - 1]);
      if before.None? then None else Next(before.value, steps[|steps| - 1])
  }

  // ---------------------------------------------------------------------------------------------
  // The invariant
  // ---------------------------------------------------------------------------------------------

  predicate RedeemerOk(s: State, r: Redeemer) {
    && r.code in s.offers && r.configs == s.offers[r.code] && r.code !in s.codes
    && (r.token.Some? ==> r.token.value.code == r.code)
    && (r.saved ==> r.token.Some?)
  }

  /** Some request won the token's code, minted the token, and saved its entry. */
  ghost predicate WasSaved(s: State, token: Token) {
    exists id :: id in s.redeemers && s.redeemers[id].token == Some(token) && s.redeemers[id].saved
  }

  ghost predicate CodesOk(s: State) {
    && (forall code :: code in s.codes ==> code in s.offers && s.codes[code] == s.offers[code])
    && (forall id :: id in s.redeemers ==> RedeemerOk(s, s.redeemers[id]))
    && (forall a, b :: a in s.redeemers && b in s.redeemers && a != b ==> s.redeemers[a].code != s.redeemers[b].code)
  }

  ghost predicate EntriesOk(s: State) {
    forall key :: key in s.allowed ==>
      WasSaved(s, key.token) && key.token.code in s.offers && s.allowed[key] == s.offers[key.token.code]
  }

  ghost predicate IssuesOk(s: State) {
    forall i :: 0 <= i < |s.issues| ==>
      WasSaved(s, s.issues[i].token) && s.issues[i].token.code in s.offers &&
      s.issues[i].config in s.offers[s.issues[i].token.code]
  }

  ghost predicate Inv(s: State) {
    CodesOk(s) && EntriesOk(s) && IssuesOk(s)
  }

  lemma CodesStayOk(s: State, step: Step)
    requires CodesOk(s) && Next(s, step).Some?
    ensures CodesOk(Next(s, step).value)
  {
    var t := Next(s, step).value;
    forall id | id in t.redeemers ensures RedeemerOk(t, t.redeemers[id]) {
      if id in s.redeemers {
        assert RedeemerOk(s, s.redeemers[id]);
      }
    }
  }

  lemma SavedStays(s: State, step: Step, token: Token)
    requires Next(s, step).Some? && WasSaved(s, token)
    ensures WasSaved(Next(s, step).value, token)
  {
    var id :| id in s.redeemers && s.redeemers[id].token == Some(token) && s.redeemers[id].saved;
    var t := Next(s, step).value;
    assert id in t.redeemers && t.redeemers[id] == s.redeemers[id];
  }

  lemma OffersStay(s: State, step: Step)
    requires Next(s, step).Some?
    ensures forall code :: code in s.offers ==>
              code in Next(s, step).value.offers && Next(s, step).value.offers[code] == s.offers[code]
  {
  }

  lemma EntriesStayOk(s: State, step: Step)
    requires Inv(s) && Next(s, step).Some?
    ensures EntriesOk(Next(s, step).value)
  {
    var t := Next(s, step).value;
    OffersStay(s, step);
    forall key | key in t.allowed
      ensures WasSaved(t, key.token) && key.token.code in t.offers && t.allowed[key] == t.offers[key.token.code]
    {
      if key in s.allowed && t.allowed[key] == s.allowed[key] {
        SavedStays(s, step, key.token);
      } else {
        assert step.Save? && t.redeemers[step.id].token == Some(key.token) && t.redeemers[step.id].saved;
        assert RedeemerOk(s, s.redeemers[step.id]);
      }
    }
  }

  lemma IssuesStayOk(s: State, step: Step)
    requires Inv(s) && Next(s, step).Some?
    ensures IssuesOk(Next(s, step).value)
  {
    var t := Next(s, step).value;
    OffersStay(s, step);
    forall i | 0 <= i < |t.issues|
      ensures WasSaved(t, t.issues[i].token) && t.issues[i].token.code in t.offers
      ensures t.issues[i].config in t.offers[t.issues[i].token.code]
    {
      if i < |s.issues| {
        assert t.issues[i] == s.issues[i];
      } else {
        assert step.Fetch? && t.issues[i] == Issue(step.token, step.config);
        assert WasSaved(s, Issuance.Sha256(step.token).token);
      }
      SavedStays(s, step, t.issues[i].token);
    }
  }

  lemma {:induction false} ScheduleKeepsInv(steps: seq<Step>)
    requires Execute(steps).Some?
    ensures Inv(Execute(steps).value)
  {
    if steps != [] {
      var s := Execute(steps[..|steps| - 1]).value;
      ScheduleKeepsInv(steps[..|steps| - 1]);
      CodesStayOk(s, steps[|steps| - 1]);
      EntriesStayOk(s, steps[|steps| - 1]);
      IssuesStayOk(s, steps[|steps| - 1]);
    }
  }

  // ---------------------------------------------------------------------------------------------
  // What every schedule guarantees
  // ---------------------------------------------------------------------------------------------

  /** Under every interleaving a code is redeemed by at most one request, which mints at most one token. */
  lemma CodeIsRedeemedOnce(steps: seq<Step>, a: RequestId, b: RequestId)
    requires Execute(steps).Some?
    requires var s := Execute(steps).value;
             a in s.redeemers && b in s.redeemers && s.redeemers[a].code == s.redeemers[b].code
    ensures a == b
  {
    ScheduleKeepsInv(steps);
  }

  /**
    Provenance under every interleaving: an issued configuration was offered, under a code that exactly
    one request redeemed; that request minted the presented token and had saved its entry.
   */
  lemma IssuedWasOffered(steps: seq<Step>, i: nat) returns (id: RequestId)
    requires Execute(steps).Some? && i < |Execute(steps).value.issues|
    ensures var s := Execute(steps).value;
            var issue := s.issues[i];
            && issue.token.code in s.offers && issue.config in s.offers[issue.token.code]
            && id in s.redeemers
            && s.redeemers[id] == Redeemer(issue.token.code, s.offers[issue.token.code], Some(issue.token), true)
            && forall other :: other in s.redeemers && s.redeemers[other].code == issue.token.code ==> other == id
  {
    ScheduleKeepsInv(steps);
    var s := Execute(steps).value;
    assert WasSaved(s, s.issues[i].token);
    id :| id in s.redeemers && s.redeemers[id].token == Some(s.issues[i].token) && s.redeemers[id].saved;
    assert RedeemerOk(s, s.redeemers[id]);
  }

  /** No save ever overwrites an entry. */
  lemma SavesNeverOverwrite(steps: seq<Step>, id: RequestId)
    requires Execute(steps).Some? && Next(Execute(steps).value, Save(id)).Some?
    ensures var s := Execute(steps).value; Issuance.Sha256(s.redeemers[id].token.value) !in s.allowed
  {
    ScheduleKeepsInv(steps);
    EntryMeansSaved(Execute(steps).value, id);
  }

  /** An entry for the token a request minted was saved by that request. */
  lemma EntryMeansSaved(s: State, id: RequestId)
    requires Inv(s) && id in s.redeemers && s.redeemers[id].token.Some?
    ensures Issuance.Sha256(s.redeemers[id].token.value) in s.allowed ==> s.redeemers[id].saved
  {
    var token := s.redeemers[id].token.value;
    if Issuance.Sha256(token) in s.allowed {
      assert WasSaved(s, Issuance.Sha256(token).token);
      var other :| other in s.redeemers && s.redeemers[other].token == Some(token) && s.redeemers[other].saved;
      assert RedeemerOk(s, s.redeemers[id]) && RedeemerOk(s, s.redeemers[other]);
    }
  }

  /** A token read anywhere in between finds either nothing or exactly what was offered under its code. */
  lemma FetchFindsTheOffer(steps: seq<Step>, token: Token)
    requires Execute(steps).Some?
    ensures var s := Execute(steps).value;
            var found := Lookup(s.allowed, Issuance.Sha256(token));
            found == None || found == Lookup(s.offers, token.code)
    ensures var s := Execute(steps).value; Issuance.Sha256(token) in s.allowed ==> IsMinted(s, token)
  {
    ScheduleKeepsInv(steps);
    var s := Execute(steps).value;
    if Issuance.Sha256(token) in s.allowed {
      assert WasSaved(s, Issuance.Sha256(token).token);
    }
  }

  /** In the middle of any schedule: an offer, its redemption, and a fetch for its token issue what was offered. */
  lemma HonestStepsIssue(s: State, code: Code, configs: seq<ConfigId>, id: RequestId, token: Token, config: ConfigId)
    requires code !in s.offers && id !in s.redeemers && token.code == code && config in configs
    ensures var offered := Next(s, Offer(code, configs));
            && offered.Some? && Next(offered.value, Redeem(id, code)).Some?
            && var redeemed := Next(offered.value, Redeem(id, code)).value;
            && Next(redeemed, Mint(id, token)).Some?
            && var minted := Next(redeemed, Mint(id, token)).value;
            && Next(minted, Save(id)).Some?
            && var saved := Next(minted, Save(id)).value;
            && Next(saved, Fetch(token, config)).Some?
            && Next(saved, Fetch(token, config)).value.issues == s.issues + [Issue(token, config)]
            && code !in saved.codes && Lookup(saved.allowed, Issuance.Sha256(token)) == Some(configs)
  {
    var offered := Next(s, Offer(code, configs)).value;
    var redeemed := Next(offered, Redeem(id, code)).value;
    var minted := Next(redeemed, Mint(id, token)).value;
    var saved := Next(minted, Save(id)).value;
    assert saved.redeemers[id].token == Some(token);
    assert IsMinted(saved, token);
  }

  /** What else may come between: any code may be dropped, and any entry forgotten, at any time. */
  lemma RemovalsAreAlwaysPossible(s: State, code: Code, key: TokenHash)
    ensures Next(s, Drop(code)) == Some(s.(codes := s.codes - {code}))
    ensures Next(s, Forget(key)) == Some(s.(allowed := s.allowed - {key}))
  {
  }
}
