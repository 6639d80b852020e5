/**
  An honest holder's way through the flows, from the offer to the credential: when it succeeds.
 */
module IssuanceClient {
  import opened Prelude
  import opened TxCodes
  import opened CodeStore
  import opened Issuance
  import NonceStore

  /** What the issuer offers, and when. */
  datatype Terms = Terms(configs: seq<ConfigId>, tx: Option<TxCode>, mode: InputMode, ttlSec: Option<real>)

  /** When the holder's requests arrive, in order. */
  datatype Timing = Timing(offered: int, redeemed: int, authorized: int, nonceIssued: int, issued: int) {
    predicate InOrder() {
      0 <= offered <= redeemed <= authorized <= nonceIssued <= issued
    }
  }

  /** The offer is saved, its code is redeemed in time, and with the right transaction code. */
  predicate Redeems(terms: Terms, given: Option<TxCode>, at: Timing) {
    && Savable(terms.mode, terms.tx)
    && at.redeemed <= at.offered + EffectiveTtl(terms.ttlSec, DEFAULT_TTL_SEC) * 1000
    && MemoryVerdict(KeptInMemory(terms.mode, terms.tx), terms.mode, given) == Match
  }

  /** The token verifies when presented, and its entry and the nonce are there when the credential is asked for. */
  predicate InTime(tokenTtl: real, nonceTtlMs: int, at: Timing) {
    && Seconds(at.authorized) as real < TokenExp(at.redeemed, tokenTtl)
    && at.issued <= EntryExpiresAt(at.redeemed, tokenTtl)
    && at.issued <= at.nonceIssued + nonceTtlMs
  }

  /** From the offer to a bearer token, and what the server then keeps for it. */
  method ObtainToken(server: CredentialServer, code: Code, terms: Terms, given: Option<TxCode>,
                     tokenTtlSec: Option<real>, at: Timing)
    returns (token: Option<Token>)
    requires at.InOrder() && server.cfg.maxTxCodeAttempts >= 1 && code !in server.codes
    modifies server
    ensures token.Some? <==> Redeems(terms, given, at)
    ensures token.Some? ==>
              && token.value.exp == TokenExp(at.redeemed, TokenTtl(tokenTtlSec))
              && token.value.clientId.None? && token.value.jkt.None? && token.value in server.minted
              && code !in server.codes
              && Lookup(server.allowed, Sha256(token.value)) ==
                 Some(Allowed(terms.configs, EntryExpiresAt(at.redeemed, TokenTtl(tokenTtlSec))))
  {
    var response := server.OfferCredential(Offer(at.offered, code, terms.configs, terms.tx, terms.mode, terms.ttlSec));
    if response != Offered {
      return None;
    }
    response := server.CreateAccessToken(RedeemCode(at.redeemed, code, given, None, tokenTtlSec, None, true));
    token := if response.TokenIssued? then Some(response.token) else None;
  }

  /** From a bearer token to the credential, with one key proof over a fresh nonce. */
  method UseToken(server: CredentialServer, token: Token, nonce: Nonce, nonceTtlMs: int, config: ConfigId, at: Timing)
    returns (response: Response)
    requires token in server.minted && token.clientId.None? && token.jkt.None?
    requires Sha256(token) in server.allowed && server.allowed[Sha256(token)].expiresAt > 0
    modifies server
    ensures var entry := old(server.allowed)[Sha256(token)];
            response == Issued <==>
              && Seconds(at.authorized) as real < token.exp
              && at.issued <= entry.expiresAt && config in entry.configs
              && at.issued <= at.nonceIssued + nonceTtlMs
    ensures response == Issued ==> nonce !in server.nonces
    ensures server.codes == old(server.codes)
  {
    response := server.AuthorizeCredentialEndpointAccess(Authorize(at.authorized, token, true, Off, false, Bearer));
    if !response.Authorized? {
      return;
    }
    var context := response.context;
    var _ := server.CreateNonce(IssueNonce(at.nonceIssued, nonce, nonceTtlMs));
    ghost var s := server.View();
    var request := Issue(at.issued, context, config, true, [KeyProof(true, Some(nonce))], true, true);
    OneProof(FetchAllowed(s, context.key, at.issued).0, nonce, at.issued);
    response := server.IssueCredential(request);
  }

  lemma OneProof(s: State, nonce: Nonce, now: int)
    ensures CheckProofs(s, [KeyProof(true, Some(nonce))], true, now) ==
            (s.(nonces := s.nonces - {nonce}), NonceStore.Live(s.nonces, nonce, now),
             if NonceStore.Live(s.nonces, nonce, now) then [nonce] else [])
  {
    var proofs := [KeyProof(true, Some(nonce))];
    var after := s.(nonces := s.nonces - {nonce});
    assert proofs[0].nonce == Some(nonce) && proofs[1..] == [];
    assert CheckProofs(after, proofs[1..], true, now) == (after, true, []);
    assert [nonce] + [] == [nonce];
  }

  /**
    With a server that has not seen the code, the credential is issued exactly when the redemption is
    right and in time and the three lifetimes are kept; and then the code and the nonce are spent.
   */
  method ObtainCredential(server: CredentialServer, code: Code, terms: Terms, given: Option<TxCode>,
                          tokenTtlSec: Option<real>, nonce: Nonce, nonceTtlMs: int, config: ConfigId, at: Timing)
    returns (response: Response)
    requires at.InOrder() && server.cfg.maxTxCodeAttempts >= 1 && code !in server.codes
    modifies server
    ensures response == Issued <==>
            Redeems(terms, given, at) && InTime(TokenTtl(tokenTtlSec), nonceTtlMs, at) && config in terms.configs
    ensures response == Issued ==> code !in server.codes && nonce !in server.nonces
  {
    var token := ObtainToken(server, code, terms, given, tokenTtlSec, at);
    if token.None? {
      return Rejected;
    }
    response := UseToken(server, token.value, nonce, nonceTtlMs, config, at);
  }
}
