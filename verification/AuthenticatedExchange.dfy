/**
  The wallet's whole token exchange with private_key_jwt and DPoP: each of its two requests carries a
  fresh client assertion, which the server checks before it looks at the DPoP proof and the code.
 */
module AuthenticatedExchange {
  import opened Prelude
  import opened JsStrings
  import opened JtiStores
  import opened ReplayProtection
  import opened ClientIdentity
  import opened ClientAssertions
  import opened Issuance
  import opened TokenExchange

  const BY_KEY := TokenEndpointAuth(PRIVATE_KEY_JWT, true)

  /** A wallet and a server with shared metadata, and a client registered for private_key_jwt under the wallet's id. */
  ghost predicate Registered(w: ClientAuth, m: Metadata, s: Server) {
    && s.metadata == Some(m) && WellKeyed(s.registry)
    && Negotiate(w, Some(m)) == Ok(BY_KEY)
    && JsTrim(w.clientId) == w.clientId
    && w.clientId in s.registry && AuthMethodOf(s.registry[w.clientId]) == PRIVATE_KEY_JWT
  }

  /** When the wallet builds an assertion, under which jti, and when it reaches the server. */
  datatype Sending = Sending(atSecond: int, jti: string, now: int)

  predicate Usable(jti: string) {
    StringValue(Some(jti)) == Some(jti)
  }

  /** What does not depend on the moment: the wallet can build the assertion, and it fits what the server holds. */
  ghost predicate Fits(w: ClientAuth, s: Server, audience: string)
    requires w.clientId in s.registry
  {
    && CanBuild(w, audience)
    && audience in ExpectedAudiences(s, s.registry[w.clientId])
    && RegistrationFits(w, s.registry[w.clientId])
  }

  predicate InTime(sending: Sending) {
    && sending.atSecond <= Seconds(sending.now) + CLIENT_ASSERTION_CLOCK_TOLERANCE_SECONDS
    && sending.now < (sending.atSecond + CLIENT_ASSERTION_LIFETIME_SECONDS) * 1000
  }

  predicate IsNew(w: ClientAuth, jtis: Entries, sending: Sending) {
    JtiKey(w.clientId, sending.jti) !in WithoutExpired(jtis, sending.now)
  }

  function SpendAttempt(w: ClientAuth, sending: Sending): Attempt {
    Attempt(JtiKey(w.clientId, sending.jti), sending.now,
            AssertionTtlMs(sending.atSecond + CLIENT_ASSERTION_LIFETIME_SECONDS, sending.now), true)
  }

  lemma AuthenticatesExactlyWhen(w: ClientAuth, m: Metadata, s: Server, audience: string, sending: Sending,
                                 a: ClientAssertion, jtis: Entries)
    requires Registered(w, m, s) && Usable(sending.jti)
    requires BuildAssertion(w, audience, sending.atSecond, sending.jti) == Some(a)
    ensures var (after, answer) := PolicyStep(s, jtis, RequestFor(w, BY_KEY, a), sending.now);
            && (answer.Ok? <==> Fits(w, s, audience) && InTime(sending) && IsNew(w, jtis, sending))
            && (answer.Ok? ==> after == MemorySave(jtis, SpendAttempt(w, sending)).0)
  {
    AssertionAcceptedExactlyWhen(w, m, s, audience, sending.atSecond, sending.jti, jtis, sending.now);
    BuildsExactlyWhen(w, audience, sending.atSecond, sending.jti);
    var r := RequestFor(w, BY_KEY, a);
    ServerReads(w, m, a);
    assert ClientOf(s, r) == Some(s.registry[w.clientId]);
    if PolicyStep(s, jtis, r, sending.now).1.Ok? {
      AcceptedRequestIsVerified(s, jtis, r, sending.now);
      VerifiesToItsOwn(w, m, s, audience, sending, a);
      AcceptedSpends(w, s, sending, r, jtis);
    }
  }

  lemma VerifiesToItsOwn(w: ClientAuth, m: Metadata, s: Server, audience: string, sending: Sending, a: ClientAssertion)
    requires Registered(w, m, s) && Usable(sending.jti)
    requires BuildAssertion(w, audience, sending.atSecond, sending.jti) == Some(a)
    requires VerifyAssertion(s, RequestFor(w, BY_KEY, a), s.registry[w.clientId], sending.now).Ok?
    ensures VerifyAssertion(s, RequestFor(w, BY_KEY, a), s.registry[w.clientId], sending.now).value ==
            Verified(sending.jti, sending.atSecond + CLIENT_ASSERTION_LIFETIME_SECONDS)
  {
    BuiltAssertionVerifies(w, m, s, audience, sending.atSecond, sending.jti, sending.now);
  }

  /** An accepted assertion leaves exactly its own jti behind, until its `exp`. */
  lemma AcceptedSpends(w: ClientAuth, s: Server, sending: Sending, r: TokenRequest, jtis: Entries)
    requires w.clientId in s.registry && s.registry[w.clientId].clientId == w.clientId
    requires AuthMethodOf(s.registry[w.clientId]) == PRIVATE_KEY_JWT
    requires ClientOf(s, r) == Some(s.registry[w.clientId])
    requires VerifyAssertion(s, r, s.registry[w.clientId], sending.now) ==
             Ok(Verified(sending.jti, sending.atSecond + CLIENT_ASSERTION_LIFETIME_SECONDS))
    requires PolicyStep(s, jtis, r, sending.now).1.Ok?
    ensures PolicyStep(s, jtis, r, sending.now).0 == MemorySave(jtis, SpendAttempt(w, sending)).0
  {
    AcceptedRequestIsVerified(s, jtis, r, sending.now);
  }

  /** Builds one assertion and has the server check it. */
  method Authenticate(endpoint: TokenEndpoint, w: ClientAuth, ghost m: Metadata, audience: string, sending: Sending)
    returns (ok: bool)
    requires Registered(w, m, endpoint.server) && Usable(sending.jti)
    modifies endpoint.jtiStore
    ensures ok <==>
            Fits(w, endpoint.server, audience) && InTime(sending) && IsNew(w, old(endpoint.jtiStore.usedJtis), sending)
    ensures ok ==> endpoint.jtiStore.usedJtis == MemorySave(old(endpoint.jtiStore.usedJtis), SpendAttempt(w, sending)).0
  {
    var assertion := BuildAssertion(w, audience, sending.atSecond, sending.jti);
    BuildsExactlyWhen(w, audience, sending.atSecond, sending.jti);
    if assertion.None? {
      return false;
    }
    AuthenticatesExactlyWhen(w, m, endpoint.server, audience, sending, assertion.value, endpoint.jtiStore.usedJtis);
    var answer := endpoint.ResolveTokenRequestClientPolicy(RequestFor(w, BY_KEY, assertion.value), sending.now);
    ok := answer.Ok?;
  }

  /** The first request's entry changes nothing for another jti, now or later. */
  lemma OtherJtiStaysNew(w: ClientAuth, jtis: Entries, first: Sending, retry: Sending)
    requires first.jti != retry.jti && first.now <= retry.now
    ensures IsNew(w, MemorySave(jtis, SpendAttempt(w, first)).0, retry) <==> IsNew(w, jtis, retry)
  {
    var k, l := JtiKey(w.clientId, first.jti), JtiKey(w.clientId, retry.jti);
    if k == l {
      var id := Utf16(w.clientId);
      AssertionKeyIsInjective(id, Utf16(first.jti), id, Utf16(retry.jti));
      Utf16IsInjective(first.jti, retry.jti);
    }
    var after := MemorySave(jtis, SpendAttempt(w, first)).0;
    assert l in after && retry.now <= after[l] <==> l in jtis && retry.now <= jtis[l];
    assert l in WithoutExpired(after, retry.now) <==> l in after && retry.now <= after[l];
    assert l in WithoutExpired(jtis, retry.now) <==> l in jtis && retry.now <= jtis[l];
  }

  /**
    The exchange: an authenticated request without a nonce, and on a challenge one authenticated retry
    with it. A token is issued exactly when both assertions fit, arrive in time and are new, the first
    proof gets as far as the challenge, the retry's proof passes, and the code is redeemable.
   */
  method ObtainAccessToken(endpoint: TokenEndpoint, server: CredentialServer, w: ClientAuth, ghost m: Metadata,
                           audience: string, want: Redemption, wallet: DpopWallet, challenge: Nonce,
                           challengeTtlMs: int, first: Sending, challenged: int, retry: Sending)
    returns (issued: Option<Token>)
    requires Registered(w, m, endpoint.server) && want.clientId == Some(w.clientId)
    requires Usable(first.jti) && Usable(retry.jti) && first.jti != retry.jti
    requires first.now <= challenged <= retry.now
    modifies endpoint.jtiStore, server
    ensures issued.Some? <==>
            && Fits(w, endpoint.server, audience)
            && InTime(first) && IsNew(w, old(endpoint.jtiStore.usedJtis), first)
            && InWindow(server.cfg.dpop, wallet.firstIat, first.now)
            && InTime(retry) && IsNew(w, old(endpoint.jtiStore.usedJtis), retry)
            && RetryPasses(server.cfg.dpop, old(server.jtis), wallet, challenged + challengeTtlMs, retry.now)
            && Redeemable(server.cfg, old(server.codes), want.code, want.given, retry.now) && want.signs
    ensures issued.Some? ==>
              && issued.value.code == want.code && issued.value.clientId == Some(w.clientId)
              && issued.value.jkt == Some(wallet.jwkThumbprint)
              && want.code !in server.codes && challenge !in server.nonces
  {
    var ok := Authenticate(endpoint, w, m, audience, first);
    if !ok {
      return None;
    }
    OtherJtiStaysNew(w, old(endpoint.jtiStore.usedJtis), first, retry);
    var response := AskWithoutNonce(server, want, wallet, first.now);
    if response != UseDpopNonce {
      return None;
    }
    var _ := server.CreateNonce(IssueNonce(challenged, challenge, challengeTtlMs));
    ok := Authenticate(endpoint, w, m, audience, retry);
    if !ok {
      return None;
    }
    response := RetryWithNonce(server, want, wallet, challenge, retry.now);
    issued := if response.TokenIssued? then Some(response.token) else None;
  }
}
