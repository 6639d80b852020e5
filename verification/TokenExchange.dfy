/**
  The token exchange between wallet and server with a DPoP nonce challenge (RFC 9449 section 8):
  what a challenge costs, when a token request succeeds, and why one retry is enough.
 */
module TokenExchange {
  import opened Prelude
  import opened JsStrings
  import opened TxCodes
  import opened CodeStore
  import opened JtiStores
  import opened ReplayProtection
  import opened Issuance
  import NonceStore

  /** A refusal that asks for a nonce spends nothing: no code attempt, no jti, and no live nonce. */
  lemma ChallengeSpendsNothing(cfg: Config, s: State, r: Request)
    requires r.RedeemCode? && RedeemFlow(cfg, s, r).response == UseDpopNonce
    ensures var reply := RedeemFlow(cfg, s, r);
            && reply.state == s.(nonces := reply.state.nonces)
            && reply.spent == []
            && (forall n :: NonceStore.Live(s.nonces, n, r.now) ==>
                  n in reply.state.nonces && reply.state.nonces[n] == s.nonces[n])
  {
    if r.dpop.Some? && ProofVerifies(cfg, r.dpop.value.proof, r.now, None) {
      RefusedNonceSpendsNothing(s, r.dpop.value, r.now);
      var (after, ok, spent) := SpendProofNonce(s, r.dpop.value, r.now);
      MintingIsNoChallenge(cfg, SaveJti(cfg, after, r.dpop.value.proof, r.now).0, r, spent);
    } else {
      MintingIsNoChallenge(cfg, s, r, []);
    }
  }

  lemma RefusedNonceSpendsNothing(s: State, ctx: ProofContext, now: int)
    requires !SpendProofNonce(s, ctx, now).1
    ensures var (after, _, spent) := SpendProofNonce(s, ctx, now);
            && after == s.(nonces := after.nonces) && spent == []
            && (forall n :: NonceStore.Live(s.nonces, n, now) ==> n in after.nonces && after.nonces[n] == s.nonces[n])
  {
  }

  lemma MintingIsNoChallenge(cfg: Config, s: State, r: Request, spent: seq<Nonce>)
    requires r.RedeemCode?
    ensures RedeemAndMint(cfg, s, r, spent).response != UseDpopNonce
  {
  }

  predicate Redeemable(cfg: Config, codes: map<Code, Entry>, code: Code, given: Option<TxCode>, now: int) {
    && code in codes
    && var e := codes[code];
    && e.attempts < cfg.maxTxCodeAttempts
    && (e.expiresAt == 0 || now <= e.expiresAt)
    && MemoryVerdict(e.txCode, e.mode, given) == Match
  }

  predicate JtiUsed(jtis: Entries, p: DpopProof, now: int) {
    var key := DpopKey(p.jwkThumbprint, p.jti);
    key in jtis && now <= jtis[key]
  }

  /** What the DPoP part of a token request has to satisfy. */
  predicate DpopPasses(cfg: Config, s: State, ctx: ProofContext, now: int) {
    && ctx.proof.bound
    && InWindow(cfg.dpop, ctx.proof.claims.iat, now)
    && (ctx.nonceRequired ==> ctx.proof.nonce.Some? && NonceStore.Live(s.nonces, ctx.proof.nonce.value, now))
    && !JtiUsed(s.jtis, ctx.proof.claims, now)
  }

  /** A token request succeeds exactly when its proof passes, its code is redeemable, and the server can sign. */
  lemma TokenIssuedExactlyWhen(cfg: Config, s: State, r: Request)
    requires r.RedeemCode?
    ensures RedeemFlow(cfg, s, r).response.TokenIssued? <==>
            && (r.dpop.Some? ==> DpopPasses(cfg, s, r.dpop.value, r.now))
            && Redeemable(cfg, s.codes, r.code, r.given, r.now) && r.signs
  {
  }

  /** Signing comes after the code: when it fails the code is spent, and nothing is minted or saved for it. */
  lemma SigningFailureSpendsTheCode(cfg: Config, s: State, r: Request)
    requires r.RedeemCode?
    ensures var reply := RedeemFlow(cfg, s, r);
            && (reply.response.SigningFailed? <==>
                  && (r.dpop.Some? ==> DpopPasses(cfg, s, r.dpop.value, r.now))
                  && Redeemable(cfg, s.codes, r.code, r.given, r.now) && !r.signs)
            && (reply.response.SigningFailed? ==>
                  && r.code in s.codes && reply.state.codes == s.codes - {r.code}
                  && reply.state.minted == s.minted && reply.state.allowed == s.allowed)
  {
  }

  /** One wallet's DPoP configuration: its key, and the jti and clock of each of its two attempts. */
  datatype DpopWallet = DpopWallet(
    jwkThumbprint: JsString,
    firstJti: JsString,
    firstIat: int,
    retryJti: JsString,
    retryIat: int)

  function WalletProof(jwkThumbprint: JsString, jti: JsString, iat: int, nonce: Option<Nonce>): Proof {
    Proof(DpopProof(jwkThumbprint, jti, iat), nonce, None, true)
  }

  /** What the wallet redeems, and whether the server can sign a token for it. */
  datatype Redemption = Redemption(
    code: Code,
    given: Option<TxCode>,
    clientId: Option<ClientId>,
    ttlSec: Option<real>,
    signs: bool)

  function TokenRequest(want: Redemption, proof: Proof, now: int): Request {
    RedeemCode(now, want.code, want.given, want.clientId, want.ttlSec, Some(ProofContext(proof, true)), want.signs)
  }

  /** The first request, without a nonce: challenged exactly when its proof is in its window, and nothing else. */
  method AskWithoutNonce(server: CredentialServer, want: Redemption, wallet: DpopWallet, now: int)
    returns (response: Response)
    modifies server
    ensures response == if InWindow(server.cfg.dpop, wallet.firstIat, now) then UseDpopNonce else InvalidDpopProof
    ensures server.View() == old(server.View())
  {
    var proof := WalletProof(wallet.jwkThumbprint, wallet.firstJti, wallet.firstIat, None);
    response := server.CreateAccessToken(TokenRequest(want, proof, now));
  }

  /** The DPoP side of the retry: its proof is in its window and new, and the challenge's nonce has not expired. */
  predicate RetryPasses(dpop: DpopPolicy, jtis: Entries, wallet: DpopWallet, nonceExpiresAt: int, retried: int) {
    && InWindow(dpop, wallet.retryIat, retried)
    && retried <= nonceExpiresAt
    && !JtiUsed(jtis, DpopProof(wallet.jwkThumbprint, wallet.retryJti, wallet.retryIat), retried)
  }

  /** The retry with the challenge's nonce, which the server has saved. */
  method RetryWithNonce(server: CredentialServer, want: Redemption, wallet: DpopWallet, challenge: Nonce, now: int)
    returns (response: Response)
    requires challenge in server.nonces
    modifies server
    ensures response.TokenIssued? <==>
            && RetryPasses(server.cfg.dpop, old(server.jtis), wallet, old(server.nonces)[challenge], now)
            && Redeemable(server.cfg, old(server.codes), want.code, want.given, now) && want.signs
    ensures response.TokenIssued? ==>
              && response.token.code == want.code && response.token.clientId == want.clientId
              && response.token.jkt == Some(wallet.jwkThumbprint)
              && challenge !in server.nonces && want.code !in server.codes
  {
    var proof := WalletProof(wallet.jwkThumbprint, wallet.retryJti, wallet.retryIat, Some(challenge));
    var request := TokenRequest(want, proof, now);
    TokenIssuedExactlyWhen(server.cfg, server.View(), request);
    response := server.CreateAccessToken(request);
  }

  /**
    `obtainAccessToken` of a wallet with DPoP, against a server that requires a nonce: a first request
    without one, and on a challenge a single retry with the nonce the challenge carried. The
    server's clock reads `first`, `challenged` and `retried` on the three calls.
   */
  method ObtainAccessToken(server: CredentialServer, want: Redemption, wallet: DpopWallet,
                           challenge: Nonce, challengeTtlMs: int, first: int, challenged: int, retried: int)
    returns (response: Response)
    requires first <= challenged <= retried
    modifies server
    ensures response.TokenIssued? <==>
            && InWindow(server.cfg.dpop, wallet.firstIat, first)
            && RetryPasses(server.cfg.dpop, old(server.jtis), wallet, challenged + challengeTtlMs, retried)
            && Redeemable(server.cfg, old(server.codes), want.code, want.given, retried) && want.signs
    ensures response.TokenIssued? ==>
              && response.token.code == want.code && response.token.clientId == want.clientId
              && response.token.jkt == Some(wallet.jwkThumbprint)
              && challenge !in server.nonces && want.code !in server.codes
  {
    response := AskWithoutNonce(server, want, wallet, first);
    if response == UseDpopNonce {
      var _ := server.CreateNonce(IssueNonce(challenged, challenge, challengeTtlMs));
      response := RetryWithNonce(server, want, wallet, challenge, retried);
    }
  }
}
