/**
  When exactly each flow succeeds, in terms of its request and the stores, and what it leaves behind.
 */
module IssuanceConditions {
  import opened Prelude
  import opened JsStrings
  import opened TxCodes
  import opened CodeStore
  import opened JtiStores
  import opened ReplayProtection
  import opened Issuance
  import opened IssuanceGuarantees

  // ---------------------------------------------------------------------------------------------
  // DPoP proofs
  // ---------------------------------------------------------------------------------------------

  /** What a verified proof has to be, but for its nonce and jti: signed and bound, and of its time. */
  ghost predicate IsOfItsTime(policy: DpopPolicy, p: Proof, now: int) {
    && p.bound
    && p.claims.iat <= now / 1000 + policy.clockTolerance
    && now / 1000 - p.claims.iat <= policy.maxTokenAge + policy.clockTolerance
  }

  ghost predicate HasLiveNonce(s: State, ctx: ProofContext, now: int) {
    ctx.nonceRequired ==>
      ctx.proof.nonce.Some? && ctx.proof.nonce.value in s.nonces && now <= s.nonces[ctx.proof.nonce.value]
  }

  /** The replay cache's key of a proof. */
  function ProofKey(p: Proof): JsString {
    p.claims.jwkThumbprint + [0x3A] + p.claims.jti
  }

  ghost predicate HasNewJti(s: State, p: Proof, now: int) {
    ProofKey(p) in s.jtis ==> s.jtis[ProofKey(p)] < now
  }

  /** What an accepted proof leaves behind: its nonce is spent, and its jti kept for the length of the window. */
  ghost predicate ProofIsSpent(cfg: Config, after: State, ctx: ProofContext, now: int) {
    && (ctx.nonceRequired ==> ctx.proof.nonce.Some? && ctx.proof.nonce.value !in after.nonces)
    && Lookup(after.jtis, ProofKey(ctx.proof)) == Some(now + (cfg.dpop.maxTokenAge + cfg.dpop.clockTolerance) * 1000)
  }

  lemma NonceIsSpent(s: State, ctx: ProofContext, now: int)
    ensures var (after, ok, spent) := SpendProofNonce(s, ctx, now);
            && (ok <==> HasLiveNonce(s, ctx, now))
            && after == s.(nonces := after.nonces)
            && (ok && ctx.nonceRequired ==> ctx.proof.nonce.value !in after.nonces && spent == [ctx.proof.nonce.value])
            && (!(ok && ctx.nonceRequired) ==> spent == [])
  {
  }

  lemma JtiIsSaved(cfg: Config, s: State, p: Proof, now: int)
    ensures var (after, isNew) := SaveJti(cfg, s, p, now);
            && (isNew <==> HasNewJti(s, p, now))
            && after == s.(jtis := after.jtis)
            && (isNew ==>
                  Lookup(after.jtis, ProofKey(p)) ==
                  Some(now + (cfg.dpop.maxTokenAge + cfg.dpop.clockTolerance) * 1000))
  {
    assert DpopKey(p.claims.jwkThumbprint, p.claims.jti) == ProofKey(p);
  }

  // ---------------------------------------------------------------------------------------------
  // Token endpoint
  // ---------------------------------------------------------------------------------------------

  /** The lifetime asked for, or a day. */
  function Lifetime(ttlSec: Option<real>): real {
    match ttlSec
    case Some(t) => t
    case None => 86400.0
  }

  /** What a token response hands out and saves. */
  lemma TokenCarries(cfg: Config, s: State, r: Request)
    requires r.RedeemCode? && RedeemFlow(cfg, s, r).response.TokenIssued?
    ensures var reply := RedeemFlow(cfg, s, r);
            var token := reply.response.token;
            && token.code == r.code && token.iat == r.now / 1000 && token.clientId == r.clientId
            && token.exp == (r.now / 1000) as real + Lifetime(r.ttlSec)
            && token.jkt == (if r.dpop.Some? then Some(r.dpop.value.proof.claims.jwkThumbprint) else None)
            && reply.state.minted == s.minted + {token}
            && r.code in s.codes && r.code !in reply.state.codes
            && Sha256(token) in reply.state.allowed
            && reply.state.allowed[Sha256(token)].configs == s.codes[r.code].configs
            && reply.state.allowed[Sha256(token)].expiresAt ==
               r.now + (if Lifetime(r.ttlSec) >= 1.0 then Lifetime(r.ttlSec).Floor else 300) * 1000
  {
    var mid := RedeemShape(cfg, s, r);
    MintShape(cfg, mid, r, RedeemFlow(cfg, s, r).spent);
  }

  lemma TokenRequestSpendsItsProof(cfg: Config, s: State, r: Request)
    requires r.RedeemCode? && r.dpop.Some? && RedeemFlow(cfg, s, r).response.TokenIssued?
    ensures HasNewJti(s, r.dpop.value.proof, r.now) && IsOfItsTime(cfg.dpop, r.dpop.value.proof, r.now)
    ensures ProofIsSpent(cfg, RedeemFlow(cfg, s, r).state, r.dpop.value, r.now)
  {
    var ctx := r.dpop.value;
    NonceIsSpent(s, ctx, r.now);
    var (afterNonce, _, spent) := SpendProofNonce(s, ctx, r.now);
    JtiIsSaved(cfg, afterNonce, ctx.proof, r.now);
    MintKeepsProofs(cfg, SaveJti(cfg, afterNonce, ctx.proof, r.now).0, r, spent);
  }

  lemma MintKeepsProofs(cfg: Config, s: State, r: Request, spent: seq<Nonce>)
    requires r.RedeemCode?
    ensures RedeemAndMint(cfg, s, r, spent).state.nonces == s.nonces
    ensures RedeemAndMint(cfg, s, r, spent).state.jtis == s.jtis
  {
  }

  // ---------------------------------------------------------------------------------------------
  // Credential endpoint
  // ---------------------------------------------------------------------------------------------

  /** What the presented scheme has to satisfy. */
  ghost predicate PresentedRight(cfg: Config, s: State, r: Request)
    requires r.Authorize?
  {
    match r.presented
    case Bearer => r.token.jkt.None? && r.dpopMode != Required && (r.dpopMode == Off ==> !r.dpopHeader)
    case Dpop(None) => false
    case Dpop(Some(ctx)) =>
      && r.dpopMode != Off
      && r.token.jkt == Some(ctx.proof.claims.jwkThumbprint)
      && IsOfItsTime(cfg.dpop, ctx.proof, r.now)
      && ctx.proof.ath == Some(Sha256(r.token))
      && HasLiveNonce(s, ctx, r.now)
      && HasNewJti(s, ctx.proof, r.now)
  }

  lemma BoundTokenAcceptedExactlyWhen(cfg: Config, s: State, r: Request, ctx: ProofContext)
    requires r.Authorize?
    ensures BoundTokenCheck(cfg, s, r, ctx).response.Authorized? <==>
            && r.token.jkt == Some(ctx.proof.claims.jwkThumbprint)
            && IsOfItsTime(cfg.dpop, ctx.proof, r.now)
            && ctx.proof.ath == Some(Sha256(r.token))
            && HasLiveNonce(s, ctx, r.now) && HasNewJti(s, ctx.proof, r.now)
    ensures BoundTokenCheck(cfg, s, r, ctx).response.Authorized? ==>
              && BoundTokenCheck(cfg, s, r, ctx).response.context == Context(Sha256(r.token), r.token.clientId, true)
              && ProofIsSpent(cfg, BoundTokenCheck(cfg, s, r, ctx).state, ctx, r.now)
  {
    NonceIsSpent(s, ctx, r.now);
    JtiIsSaved(cfg, SpendProofNonce(s, ctx, r.now).0, ctx.proof, r.now);
  }

  /**
    A credential request is authorized exactly when its token was minted here and has not expired, its
    client is still registered, and it is presented right: a bearer token where that is allowed, or a
    bound one with a fresh proof by its key over it. The proof is then spent.
   */
  lemma AuthorizedExactlyWhen(cfg: Config, s: State, r: Request)
    requires r.Authorize?
    ensures AuthorizeFlow(cfg, s, r).response.Authorized? <==>
            && r.token in s.minted && (r.now / 1000) as real < r.token.exp
            && (r.token.clientId.Some? ==> r.registered)
            && PresentedRight(cfg, s, r)
    ensures AuthorizeFlow(cfg, s, r).response.Authorized? ==>
              && AuthorizeFlow(cfg, s, r).response.context ==
                 Context(Sha256(r.token), r.token.clientId, r.presented.Dpop?)
              && (r.presented.Dpop? ==>
                    ProofIsSpent(cfg, AuthorizeFlow(cfg, s, r).state, r.presented.context.value, r.now))
              && (r.presented.Bearer? ==> AuthorizeFlow(cfg, s, r).state == s)
  {
    if r.presented.Dpop? && r.presented.context.Some? {
      BoundTokenAcceptedExactlyWhen(cfg, s, r, r.presented.context.value);
    }
  }

  // ---------------------------------------------------------------------------------------------
  // Issuing
  // ---------------------------------------------------------------------------------------------

  /** Every proof verifies, and every nonce that counts is live and not used by an earlier one. */
  ghost predicate ProofsPass(nonces: map<Nonce, int>, proofs: seq<KeyProof>, cnonce: bool, now: int) {
    forall i :: 0 <= i < |proofs| ==>
      && proofs[i].verifies
      && (cnonce && proofs[i].nonce.Some? ==>
            && proofs[i].nonce.value in nonces && now <= nonces[proofs[i].nonce.value]
            && forall j :: 0 <= j < i ==> proofs[j].nonce != proofs[i].nonce)
  }

  lemma {:induction false} ProofsPassExactlyWhen(s: State, proofs: seq<KeyProof>, cnonce: bool, now: int)
    ensures CheckProofs(s, proofs, cnonce, now).1 <==> ProofsPass(s.nonces, proofs, cnonce, now)
    decreases |proofs|
  {
    if proofs != [] {
      var p := proofs[0];
      var spends := cnonce && p.nonce.Some?;
      var after := if spends then s.(nonces := s.nonces - {p.nonce.value}) else s;
      ProofsPassExactlyWhen(after, proofs[1..], cnonce, now);
      PassOneMore(s.nonces, proofs, cnonce, now);
    }
  }

  /** The first proof by itself, and the others without its nonce. */
  lemma PassOneMore(nonces: map<Nonce, int>, proofs: seq<KeyProof>, cnonce: bool, now: int)
    requires proofs != []
    ensures var p := proofs[0];
            var spends := cnonce && p.nonce.Some?;
            ProofsPass(nonces, proofs, cnonce, now) <==>
              && p.verifies
              && (spends ==> p.nonce.value in nonces && now <= nonces[p.nonce.value])
              && ProofsPass(if spends then nonces - {p.nonce.value} else nonces, proofs[1..], cnonce, now)
  {
    var p, rest := proofs[0], proofs[1..];
    var left := if cnonce && p.nonce.Some? then nonces - {p.nonce.value} else nonces;
    assert forall i | 0 <= i < |rest| :: rest[i] == proofs[i + 1];
    if ProofsPass(nonces, proofs, cnonce, now) {
      forall i | 0 <= i < |rest|
        ensures rest[i].verifies
        ensures cnonce && rest[i].nonce.Some? ==>
                  && rest[i].nonce.value in left && now <= left[rest[i].nonce.value]
                  && forall j :: 0 <= j < i ==> rest[j].nonce != rest[i].nonce
      {
        assert proofs[i + 1].verifies;
        assert proofs[0].nonce != proofs[i + 1].nonce || !(cnonce && proofs[i + 1].nonce.Some?);
        assert forall j | 0 <= j < i :: rest[j] == proofs[j + 1];
      }
    }
    if p.verifies && (cnonce && p.nonce.Some? ==> p.nonce.value in nonces && now <= nonces[p.nonce.value]) &&
       ProofsPass(left, rest, cnonce, now) {
      forall i | 0 <= i < |proofs|
        ensures proofs[i].verifies
        ensures cnonce && proofs[i].nonce.Some? ==>
                  && proofs[i].nonce.value in nonces && now <= nonces[proofs[i].nonce.value]
                  && forall j :: 0 <= j < i ==> proofs[j].nonce != proofs[i].nonce
      {
        if i > 0 {
          assert rest[i - 1] == proofs[i];
          assert forall j | 0 < j < i :: rest[j - 1] == proofs[j];
        }
      }
    }
  }

  /**
    A credential is issued exactly when its configuration is known, the entry of the presented token is
    readable and allows it, there is a key proof and all of them pass, and the credential can be built.
   */
  lemma IssuedExactlyWhen(s: State, r: Request)
    requires r.Issue?
    ensures IssueFlow(s, r).response == Issued <==>
            && r.known && r.built
            && r.context.key in s.allowed
            && (s.allowed[r.context.key].expiresAt == 0 || r.now <= s.allowed[r.context.key].expiresAt)
            && r.config in s.allowed[r.context.key].configs
            && r.proofs != [] && ProofsPass(s.nonces, r.proofs, r.cnonce, r.now)
  {
    ProofsPassExactlyWhen(FetchAllowed(s, r.context.key, r.now).0, r.proofs, r.cnonce, r.now);
  }

  // ---------------------------------------------------------------------------------------------
  // Presentations
  // ---------------------------------------------------------------------------------------------

  /** A presentation is accepted exactly when its transaction and nonce are live and it verified; both are then gone. */
  lemma PresentationAcceptedExactlyWhen(s: State, r: Request)
    requires r.Present?
    ensures var reply := PresentFlow(s, r);
            reply.response == PresentationAccepted <==>
              && r.verified && r.transaction in s.transactions
              && var tx := s.transactions[r.transaction];
                 r.now <= tx.expiresAt && tx.nonce in s.nonces && r.now <= s.nonces[tx.nonce]
    ensures PresentFlow(s, r).response == PresentationAccepted ==>
              && r.transaction !in PresentFlow(s, r).state.transactions
              && s.transactions[r.transaction].nonce !in PresentFlow(s, r).state.nonces
  {
  }

  /** From the request to the response: what was asked for is accepted within both lifetimes. */
  lemma AskedThenPresented(cfg: Config, s: State, ask: Request, present: Request)
    requires ask.AskPresentation? && present.Present? && present.transaction == ask.transaction
    ensures Serve(cfg, Serve(cfg, s, ask).state, present).response == PresentationAccepted <==>
            present.verified && present.now <= ask.now + ask.ttlMs && present.now <= ask.now + ask.nonceTtlMs
  {
    PresentationAcceptedExactlyWhen(AskFlow(s, ask).state, present);
  }

  // ---------------------------------------------------------------------------------------------
  // DPoP proofs over whole runs
  // ---------------------------------------------------------------------------------------------

  /** The proof a request got through with, at either endpoint. */
  function AcceptedProof(cfg: Config, s: State, r: Request): Option<Proof> {
    var response := Serve(cfg, s, r).response;
    if r.RedeemCode? && r.dpop.Some? && response.TokenIssued? then Some(r.dpop.value.proof)
    else if r.Authorize? && r.presented.Dpop? && r.presented.context.Some? && response.Authorized? then
      Some(r.presented.context.value.proof)
    else None
  }

  lemma AcceptedProofIsRemembered(cfg: Config, s: State, r: Request)
    requires AcceptedProof(cfg, s, r).Some?
    ensures var p := AcceptedProof(cfg, s, r).value;
            && HasNewJti(s, p, r.now) && IsOfItsTime(cfg.dpop, p, r.now)
            && Lookup(Serve(cfg, s, r).state.jtis, ProofKey(p)) ==
               Some(r.now + (cfg.dpop.maxTokenAge + cfg.dpop.clockTolerance) * 1000)
  {
    if r.RedeemCode? {
      TokenRequestSpendsItsProof(cfg, s, r);
    } else {
      AuthorizedExactlyWhen(cfg, s, r);
    }
  }

  /** No request touches a jti that is still remembered. */
  lemma RememberedJtiStays(cfg: Config, s: State, r: Request, key: JsString)
    requires key in s.jtis && r.now <= s.jtis[key]
    ensures Lookup(Serve(cfg, s, r).state.jtis, key) == Some(s.jtis[key])
  {
    match r
    case RedeemCode(_, _, _, _, _, _, _) =>
      if r.dpop.Some? {
        NonceIsSpent(s, r.dpop.value, r.now);
        var (afterNonce, _, spent) := SpendProofNonce(s, r.dpop.value, r.now);
        var saved := SaveJti(cfg, afterNonce, r.dpop.value.proof, r.now).0;
        SavingKeepsRemembered(cfg, afterNonce, r.dpop.value.proof, r.now, key);
        MintKeepsProofs(cfg, saved, r, spent);
      } else {
        MintKeepsProofs(cfg, s, r, []);
      }
    case Authorize(_, _, _, _, _, _) =>
      if r.presented.Dpop? && r.presented.context.Some? {
        var ctx := r.presented.context.value;
        NonceIsSpent(s, ctx, r.now);
        SavingKeepsRemembered(cfg, SpendProofNonce(s, ctx, r.now).0, ctx.proof, r.now, key);
      }
    case Issue(_, _, _, _, _, _, _) => IssueShape(s, r);
    case _ =>
  }

  lemma SavingKeepsRemembered(cfg: Config, s: State, p: Proof, now: int, key: JsString)
    requires key in s.jtis && now <= s.jtis[key]
    ensures Lookup(SaveJti(cfg, s, p, now).0.jtis, key) == Some(s.jtis[key])
  {
    assert key in WithoutExpired(s.jtis, now);
  }

  lemma {:induction false} RememberedUntil(cfg: Config, run: seq<Request>, first: nat, n: nat, key: JsString,
                                           until: int)
    requires first <= n <= |run| && Lookup(At(cfg, run, first).jtis, key) == Some(until)
    requires forall k :: first <= k < n ==> run[k].now <= until
    ensures Lookup(At(cfg, run, n).jtis, key) == Some(until)
  {
    if first < n {
      RememberedUntil(cfg, run, first, n - 1, key, until);
      RememberedJtiStays(cfg, At(cfg, run, n - 1), run[n - 1], key);
    }
  }

  /**
    Over whole runs and both endpoints together, a proof that got through does so again only after the
    length of its window, and only if its clock was ahead of the server's.
   */
  lemma ProofPassesAgainOnlyLate(cfg: Config, run: seq<Request>, i: nat, j: nat, p: Proof, q: Proof)
    requires ClockRuns(run) && i < j < |run| && ProofKey(p) == ProofKey(q)
    requires AcceptedProof(cfg, At(cfg, run, i), run[i]) == Some(p)
    requires AcceptedProof(cfg, At(cfg, run, j), run[j]) == Some(q)
    ensures run[i].now + (cfg.dpop.maxTokenAge + cfg.dpop.clockTolerance) * 1000 < run[j].now
    ensures p.claims.iat == q.claims.iat ==> run[i].now < p.claims.iat * 1000 + 999
  {
    RememberedAfter(cfg, run, i, p);
    RememberedAfter(cfg, run, j, q);
    RememberedProofIsLate(cfg, run, i, j, p, q);
  }

  lemma RememberedProofIsLate(cfg: Config, run: seq<Request>, i: nat, j: nat, p: Proof, q: Proof)
    requires ClockRuns(run) && i < j < |run| && ProofKey(p) == ProofKey(q)
    requires Lookup(At(cfg, run, i + 1).jtis, ProofKey(p)) ==
             Some(run[i].now + (cfg.dpop.maxTokenAge + cfg.dpop.clockTolerance) * 1000)
    requires HasNewJti(At(cfg, run, j), q, run[j].now) && IsOfItsTime(cfg.dpop, q, run[j].now)
    ensures run[i].now + (cfg.dpop.maxTokenAge + cfg.dpop.clockTolerance) * 1000 < run[j].now
    ensures p.claims.iat == q.claims.iat ==> run[i].now < p.claims.iat * 1000 + 999
  {
    var until := run[i].now + (cfg.dpop.maxTokenAge + cfg.dpop.clockTolerance) * 1000;
    if run[j].now <= until {
      RememberedUntil(cfg, run, i + 1, j, ProofKey(p), until);
    }
    LateIsAfterTheWindow(cfg.dpop, run[i].now, run[j].now, q.claims.iat);
  }

  lemma RememberedAfter(cfg: Config, run: seq<Request>, i: nat, p: Proof)
    requires i < |run| && AcceptedProof(cfg, At(cfg, run, i), run[i]) == Some(p)
    ensures HasNewJti(At(cfg, run, i), p, run[i].now) && IsOfItsTime(cfg.dpop, p, run[i].now)
    ensures Lookup(At(cfg, run, i + 1).jtis, ProofKey(p)) ==
            Some(run[i].now + (cfg.dpop.maxTokenAge + cfg.dpop.clockTolerance) * 1000)
  {
    AcceptedProofIsRemembered(cfg, At(cfg, run, i), run[i]);
  }

  lemma LateIsAfterTheWindow(policy: DpopPolicy, first: int, second: int, iat: int)
    requires second / 1000 - iat <= policy.maxTokenAge + policy.clockTolerance
    ensures first + (policy.maxTokenAge + policy.clockTolerance) * 1000 < second ==> first < iat * 1000 + 999
  {
  }
}
