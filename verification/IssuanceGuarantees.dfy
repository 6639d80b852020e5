/**
  What whole runs of the flows guarantee: where an issued credential comes from, single use of
  codes, tokens, nonces and transactions, and the binding of tokens to DPoP keys.

  A run is any sequence of requests, of any parties, served one at a time.
 */
module IssuanceGuarantees {
  import opened Prelude
  import opened CodeStore
  import opened Issuance
  import NonceStore

  /** The stores before the request at position n. */
  function At(cfg: Config, run: seq<Request>, n: nat): State
    requires n <= |run|
  {
    if n == 0 then NO_STATE else Serve(cfg, At(cfg, run, n - 1), run[n - 1]).state
  }

  function ReplyAt(cfg: Config, run: seq<Request>, i: nat): Reply
    requires i < |run|
  {
    Serve(cfg, At(cfg, run, i), run[i])
  }

  function NonceMade(r: Request): Option<Nonce> {
    if r.IssueNonce? || r.AskPresentation? then Some(r.nonce) else None
  }

  /** Generated codes, nonces and transaction ids are never generated again. */
  ghost predicate FreshIds(run: seq<Request>) {
    forall i, j :: 0 <= i < j < |run| ==>
      && (run[i].Offer? && run[j].Offer? ==> run[i].code != run[j].code)
      && (NonceMade(run[i]).Some? ==> NonceMade(run[i]) != NonceMade(run[j]))
      && (run[i].AskPresentation? && run[j].AskPresentation? ==> run[i].transaction != run[j].transaction)
  }

  ghost predicate ClockRuns(run: seq<Request>) {
    forall i, j :: 0 <= i <= j < |run| ==> run[i].now <= run[j].now
  }

  predicate MintsAt(cfg: Config, run: seq<Request>, t: nat, token: Token) {
    t < |run| && ReplyAt(cfg, run, t).response == TokenIssued(token)
  }

  predicate AuthorizesAt(cfg: Config, run: seq<Request>, a: nat, context: Context) {
    a < |run| && ReplyAt(cfg, run, a).response == Authorized(context)
  }

  /** The route hands `issueCredential` a context it got from the authorization check. */
  ghost predicate GenuineContexts(cfg: Config, run: seq<Request>) {
    forall i :: 0 <= i < |run| && run[i].Issue? ==>
      exists a: nat :: a < i && AuthorizesAt(cfg, run, a, run[i].context)
  }

  // ---------------------------------------------------------------------------------------------
  // What one request can change
  // ---------------------------------------------------------------------------------------------

  lemma CheckProofsOnlySpends(s: State, proofs: seq<KeyProof>, cnonce: bool, now: int)
    ensures var t := CheckProofs(s, proofs, cnonce, now).0; t == s.(nonces := t.nonces)
    decreases |proofs|
  {
  }

  /** The DPoP checks touch the nonces and the jti cache only. */
  lemma RedeemShape(cfg: Config, s: State, r: Request) returns (mid: State)
    requires r.RedeemCode?
    ensures mid == s.(nonces := mid.nonces, jtis := mid.jtis)
    ensures var reply := RedeemFlow(cfg, s, r);
            || reply == RedeemAndMint(cfg, mid, r, reply.spent)
            || (reply.state == mid && (reply.response.InvalidDpopProof? || reply.response.UseDpopNonce?))
  {
    mid := s;
    if r.dpop.Some? && ProofVerifies(cfg, r.dpop.value.proof, r.now, None) {
      var (afterNonce, nonceOk, _) := SpendProofNonce(s, r.dpop.value, r.now);
      mid := if nonceOk then SaveJti(cfg, afterNonce, r.dpop.value.proof, r.now).0 else afterNonce;
    }
  }

  lemma BoundShape(cfg: Config, s: State, r: Request, ctx: ProofContext)
    requires r.Authorize?
    ensures var reply := BoundTokenCheck(cfg, s, r, ctx);
            && reply.state == s.(nonces := reply.state.nonces, jtis := reply.state.jtis)
            && !reply.response.TokenIssued? && !reply.response.PresentationAccepted?
  {
    if r.token.jkt.Some? && ProofVerifies(cfg, ctx.proof, r.now, Some(r.token)) {
      var (afterNonce, nonceOk, spent) := SpendProofNonce(s, ctx, r.now);
      BindShape(cfg, afterNonce, r, ctx.proof, spent);
    }
  }

  lemma BindShape(cfg: Config, s: State, r: Request, proof: Proof, spent: seq<Nonce>)
    requires r.Authorize?
    ensures var reply := BindProof(cfg, s, r, proof, spent);
            && reply.state == s.(jtis := reply.state.jtis)
            && !reply.response.TokenIssued? && !reply.response.PresentationAccepted?
  {
  }

  lemma AuthorizeShape(cfg: Config, s: State, r: Request)
    requires r.Authorize?
    ensures var reply := AuthorizeFlow(cfg, s, r);
            && reply.state == s.(nonces := reply.state.nonces, jtis := reply.state.jtis)
            && !reply.response.TokenIssued? && !reply.response.PresentationAccepted?
  {
    if r.presented.Dpop? && r.presented.context.Some? {
      BoundShape(cfg, s, r, r.presented.context.value);
    }
  }

  lemma IssueShape(s: State, r: Request)
    requires r.Issue?
    ensures var reply := IssueFlow(s, r);
            && reply.state == s.(nonces := reply.state.nonces, allowed := reply.state.allowed)
            && (reply.state.allowed == s.allowed || reply.state.allowed == s.allowed - {r.context.key})
            && (reply.response.Issued? || reply.response.Rejected?)
  {
    CheckProofsOnlySpends(FetchAllowed(s, r.context.key, r.now).0, r.proofs, r.cnonce, r.now);
  }

  /** The code part of a redemption: no code appears, none changes its offer, and a granted one is gone. */
  lemma CodesAfterConsume(cfg: Config, s: State, r: Request)
    requires r.RedeemCode?
    ensures var (slot, outcome) := ConsumeSlot(cfg.maxTxCodeAttempts, Lookup(s.codes, r.code), r.given, r.now);
            var codes := WithSlot(s.codes, r.code, slot);
            && (forall code :: code in codes ==> code in s.codes && codes[code].configs == s.codes[code].configs)
            && (outcome.Granted? ==>
                  r.code in s.codes && r.code !in codes && outcome.configs == s.codes[r.code].configs)
  {
  }

  lemma MintShape(cfg: Config, s: State, r: Request, spent: seq<Nonce>)
    requires r.RedeemCode?
    ensures var reply := RedeemAndMint(cfg, s, r, spent);
            && (forall code :: code in reply.state.codes ==>
                  code in s.codes && reply.state.codes[code].configs == s.codes[code].configs)
            && reply.state.nonces == s.nonces && reply.state.transactions == s.transactions
            && (!reply.response.TokenIssued? ==>
                  && (reply.response.InvalidGrant? || reply.response.SigningFailed?)
                  && reply.state.minted == s.minted && reply.state.allowed == s.allowed)
            && (reply.response.TokenIssued? ==>
                  var token := MintedToken(r);
                  && reply.response == TokenIssued(token)
                  && r.code in s.codes && r.code !in reply.state.codes
                  && reply.state.minted == s.minted + {token}
                  && Sha256(token) in reply.state.allowed
                  && reply.state.allowed == s.allowed[Sha256(token) := reply.state.allowed[Sha256(token)]]
                  && reply.state.allowed[Sha256(token)] ==
                     Allowed(s.codes[r.code].configs, EntryExpiresAt(r.now, TokenTtl(r.ttlSec))))
  {
    CodesAfterConsume(cfg, s, r);
  }

  /** Codes appear only by an offer, and a redeemed one is gone. */
  lemma CodesChange(cfg: Config, s: State, r: Request, code: Code)
    ensures var reply := Serve(cfg, s, r);
            && (code in reply.state.codes ==>
                  || (r.Offer? && r.code == code && reply.state.codes[code].configs == r.configs)
                  || (code in s.codes && reply.state.codes[code].configs == s.codes[code].configs))
            && (reply.response.TokenIssued? ==>
                  && r.RedeemCode?
                  && reply.response.token == MintedToken(r)
                  && r.code in s.codes && r.code !in reply.state.codes)
  {
    match r
    case RedeemCode(_, _, _, _, _, _, _) =>
      var mid := RedeemShape(cfg, s, r);
      MintShape(cfg, mid, r, RedeemFlow(cfg, s, r).spent);
    case Authorize(_, _, _, _, _, _) => AuthorizeShape(cfg, s, r);
    case Issue(_, _, _, _, _, _, _) => IssueShape(s, r);
    case _ =>
  }

  /** Tokens and allowed configurations appear only with the token response that mints them. */
  lemma TokensChange(cfg: Config, s: State, r: Request)
    ensures var reply := Serve(cfg, s, r);
            && (forall token :: token in reply.state.minted ==>
                  token in s.minted || reply.response == TokenIssued(token))
            && (forall key :: key in reply.state.allowed ==>
                  || (key in s.allowed && reply.state.allowed[key] == s.allowed[key])
                  || (&& reply.response == TokenIssued(key.token)
                      && r.RedeemCode? && r.code in s.codes
                      && reply.state.allowed[key].configs == s.codes[r.code].configs))
  {
    match r
    case RedeemCode(_, _, _, _, _, _, _) =>
      var mid := RedeemShape(cfg, s, r);
      MintShape(cfg, mid, r, RedeemFlow(cfg, s, r).spent);
    case Authorize(_, _, _, _, _, _) => AuthorizeShape(cfg, s, r);
    case Issue(_, _, _, _, _, _, _) => IssueShape(s, r);
    case _ =>
  }

  // ---------------------------------------------------------------------------------------------
  // Provenance
  // ---------------------------------------------------------------------------------------------

  lemma {:induction false} CodeHasOffer(cfg: Config, run: seq<Request>, n: nat, code: Code) returns (o: nat)
    requires n <= |run| && code in At(cfg, run, n).codes
    ensures o < n && run[o].Offer? && run[o].code == code
    ensures At(cfg, run, n).codes[code].configs == run[o].configs
  {
    var s, r := At(cfg, run, n - 1), run[n - 1];
    CodesChange(cfg, s, r, code);
    if r.Offer? && r.code == code && At(cfg, run, n).codes[code].configs == r.configs {
      o := n - 1;
    } else {
      o := CodeHasOffer(cfg, run, n - 1, code);
    }
  }

  lemma MintedIsNewOrOld(cfg: Config, run: seq<Request>, n: nat, token: Token)
    requires n < |run| && token in At(cfg, run, n + 1).minted
    ensures token in At(cfg, run, n).minted || MintsAt(cfg, run, n, token)
  {
    TokensChange(cfg, At(cfg, run, n), run[n]);
  }

  lemma {:induction false} TokenHasRedemption(cfg: Config, run: seq<Request>, n: nat, token: Token) returns (t: nat)
    requires n <= |run| && token in At(cfg, run, n).minted
    ensures t < n && MintsAt(cfg, run, t, token)
  {
    if MintsAt(cfg, run, n - 1, token) {
      t := n - 1;
    } else {
      MintedIsNewOrOld(cfg, run, n - 1, token);
      t := TokenHasRedemption(cfg, run, n - 1, token);
    }
  }

  /** An allowed-configuration entry is the one its token was minted with: what was offered under its code. */
  lemma {:induction false} AllowedHasRedemption(cfg: Config, run: seq<Request>, n: nat, key: TokenHash)
    returns (t: nat)
    requires n <= |run| && key in At(cfg, run, n).allowed
    ensures t < n && MintsAt(cfg, run, t, key.token)
    ensures run[t].RedeemCode? && run[t].code in At(cfg, run, t).codes
    ensures At(cfg, run, n).allowed[key].configs == At(cfg, run, t).codes[run[t].code].configs
  {
    var s, r := At(cfg, run, n - 1), run[n - 1];
    TokensChange(cfg, s, r);
    if key in s.allowed && At(cfg, run, n).allowed[key] == s.allowed[key] {
      t := AllowedHasRedemption(cfg, run, n - 1, key);
    } else {
      t := n - 1;
    }
  }

  /** Once redeemed, a code never comes back. */
  lemma {:induction false} RedeemedCodeStaysGone(cfg: Config, run: seq<Request>, t: nat, token: Token, n: nat)
    requires FreshIds(run) && MintsAt(cfg, run, t, token) && t < n <= |run|
    ensures token.code !in At(cfg, run, n).codes
  {
    CodesChange(cfg, At(cfg, run, t), run[t], token.code);
    if t + 1 < n {
      RedeemedCodeStaysGone(cfg, run, t, token, n - 1);
      CodesChange(cfg, At(cfg, run, n - 1), run[n - 1], token.code);
      var o := CodeHasOffer(cfg, run, t, token.code);
      assert !(run[n - 1].Offer? && run[n - 1].code == token.code);
    }
  }

  /** No code is redeemed twice in a run, whoever asks. */
  lemma CodeRedeemedAtMostOnce(cfg: Config, run: seq<Request>, t: nat, token: Token, u: nat, other: Token)
    requires FreshIds(run) && MintsAt(cfg, run, t, token) && MintsAt(cfg, run, u, other)
    requires token.code == other.code
    ensures t == u && token == other
  {
    CodesChange(cfg, At(cfg, run, t), run[t], token.code);
    CodesChange(cfg, At(cfg, run, u), run[u], token.code);
    if t < u {
      RedeemedCodeStaysGone(cfg, run, t, token, u);
    } else if u < t {
      RedeemedCodeStaysGone(cfg, run, u, other, t);
    }
  }

  /** Minting never overwrites an allowed-configuration entry, because the code in `sub` is single-use. */
  lemma AllowedEntriesAreNeverOverwritten(cfg: Config, run: seq<Request>, t: nat, token: Token)
    requires FreshIds(run) && MintsAt(cfg, run, t, token)
    ensures Sha256(token) !in At(cfg, run, t).allowed
    ensures token !in At(cfg, run, t).minted
  {
    if Sha256(token) in At(cfg, run, t).allowed {
      var earlier := AllowedHasRedemption(cfg, run, t, Sha256(token));
      CodeRedeemedAtMostOnce(cfg, run, earlier, token, t, token);
    }
    if token in At(cfg, run, t).minted {
      var earlier := TokenHasRedemption(cfg, run, t, token);
      CodeRedeemedAtMostOnce(cfg, run, earlier, token, t, token);
    }
  }

  /** What an accepted credential request proves about the token behind its context. */
  ghost predicate AuthorizedProperly(cfg: Config, s: State, r: Request, context: Context) {
    && r.Authorize? && context.key == Sha256(r.token) && context.clientId == r.token.clientId
    && TokenVerifies(s, r.token, r.now)
    && (context.viaDpop <==> r.token.jkt.Some?)
    && (r.token.jkt.Some? ==>
          && r.presented.Dpop? && r.presented.context.Some?
          && var proof := r.presented.context.value.proof;
             && Some(proof.claims.jwkThumbprint) == r.token.jkt
             && proof.ath == Some(Sha256(r.token))
             && ProofVerifies(cfg, proof, r.now, Some(r.token)))
  }

  /**
    A token minted with a DPoP key is only ever accepted with a proof by that key over that token
    (RFC 9449 section 6), and a bearer token only as a bearer token.
   */
  lemma BoundTokenNeedsItsKey(cfg: Config, s: State, r: Request)
    requires Serve(cfg, s, r).response.Authorized?
    ensures AuthorizedProperly(cfg, s, r, Serve(cfg, s, r).response.context)
  {
  }

  /**
    Provenance over whole runs: an issued credential was offered (o), its code was redeemed for the
    presented token by exactly one request (t), and that token was authorized (a), in that order.
   */
  lemma IssuedCredentialWasOffered(cfg: Config, run: seq<Request>, i: nat) returns (o: nat, t: nat, a: nat)
    requires FreshIds(run) && GenuineContexts(cfg, run)
    requires i < |run| && run[i].Issue? && ReplyAt(cfg, run, i).response == Issued
    ensures o < t < a < i
    ensures run[o].Offer? && run[i].config in run[o].configs
    ensures var token := run[i].context.key.token;
            && token.code == run[o].code
            && MintsAt(cfg, run, t, token)
            && (forall u, other :: MintsAt(cfg, run, u, other) && other.code == token.code ==> u == t && other == token)
            && AuthorizesAt(cfg, run, a, run[i].context)
            && AuthorizedProperly(cfg, At(cfg, run, a), run[a], run[i].context)
  {
    var key := run[i].context.key;
    t := AllowedHasRedemption(cfg, run, i, key);
    CodesChange(cfg, At(cfg, run, t), run[t], run[t].code);
    o := CodeHasOffer(cfg, run, t, run[t].code);
    a :| a < i && AuthorizesAt(cfg, run, a, run[i].context);
    BoundTokenNeedsItsKey(cfg, At(cfg, run, a), run[a]);
    var u := TokenHasRedemption(cfg, run, a, key.token);
    forall u, other | MintsAt(cfg, run, u, other) && other.code == key.token.code
      ensures u == t && other == key.token
    {
      CodeRedeemedAtMostOnce(cfg, run, u, other, t, key.token);
    }
  }

  // ---------------------------------------------------------------------------------------------
  // Nonces and transactions
  // ---------------------------------------------------------------------------------------------

  lemma {:induction false} CheckProofsSpends(s: State, proofs: seq<KeyProof>, cnonce: bool, now: int)
    ensures var (t, _, spent) := CheckProofs(s, proofs, cnonce, now);
            && t.nonces.Keys <= s.nonces.Keys
            && (forall p :: 0 <= p < |spent| ==> spent[p] in s.nonces && spent[p] !in t.nonces)
            && (forall p, q :: 0 <= p < q < |spent| ==> spent[p] != spent[q])
    decreases |proofs|
  {
    if proofs != [] && proofs[0].verifies {
      if !cnonce || proofs[0].nonce.None? {
        CheckProofsSpends(s, proofs[1..], cnonce, now);
      } else {
        var (nonces, ok) := NonceStore.Spend(s.nonces, proofs[0].nonce.value, now);
        if ok {
          CheckProofsSpends(s.(nonces := nonces), proofs[1..], cnonce, now);
        }
      }
    }
  }

  /** What a reply accepted was stored before and is not stored after; each nonce once. */
  predicate SpendsProperly(before: NonceStore.Nonces, after: NonceStore.Nonces, spent: seq<Nonce>) {
    && after.Keys <= before.Keys
    && (forall p :: 0 <= p < |spent| ==> spent[p] in before && spent[p] !in after)
    && (forall p, q :: 0 <= p < q < |spent| ==> spent[p] != spent[q])
  }

  lemma RedeemSpends(cfg: Config, s: State, r: Request)
    requires r.RedeemCode?
    ensures SpendsProperly(s.nonces, RedeemFlow(cfg, s, r).state.nonces, RedeemFlow(cfg, s, r).spent)
  {
    if r.dpop.Some? && ProofVerifies(cfg, r.dpop.value.proof, r.now, None) {
      var (afterNonce, _, spent) := SpendProofNonce(s, r.dpop.value, r.now);
      assert SpendsProperly(s.nonces, afterNonce.nonces, spent);
    }
  }

  lemma AuthorizeSpends(cfg: Config, s: State, r: Request)
    requires r.Authorize?
    ensures SpendsProperly(s.nonces, AuthorizeFlow(cfg, s, r).state.nonces, AuthorizeFlow(cfg, s, r).spent)
  {
    if r.presented.Dpop? && r.presented.context.Some? {
      var (afterNonce, _, spent) := SpendProofNonce(s, r.presented.context.value, r.now);
      assert SpendsProperly(s.nonces, afterNonce.nonces, spent);
    }
  }

  lemma IssueSpends(s: State, r: Request)
    requires r.Issue?
    ensures SpendsProperly(s.nonces, IssueFlow(s, r).state.nonces, IssueFlow(s, r).spent)
  {
    CheckProofsSpends(FetchAllowed(s, r.context.key, r.now).0, r.proofs, r.cnonce, r.now);
  }

  lemma NoncesChange(cfg: Config, s: State, r: Request)
    ensures var reply := Serve(cfg, s, r);
            && (forall n :: n in reply.state.nonces ==> n in s.nonces || NonceMade(r) == Some(n))
            && (forall p :: 0 <= p < |reply.spent| ==>
                  reply.spent[p] in s.nonces && reply.spent[p] !in reply.state.nonces)
            && (forall p, q :: 0 <= p < q < |reply.spent| ==> reply.spent[p] != reply.spent[q])
  {
    match r
    case RedeemCode(_, _, _, _, _, _, _) => RedeemSpends(cfg, s, r);
    case Authorize(_, _, _, _, _, _) => AuthorizeSpends(cfg, s, r);
    case Issue(_, _, _, _, _, _, _) => IssueSpends(s, r);
    case _ =>
  }

  lemma {:induction false} NonceHasMaker(cfg: Config, run: seq<Request>, n: nat, nonce: Nonce) returns (m: nat)
    requires n <= |run| && nonce in At(cfg, run, n).nonces
    ensures m < n && NonceMade(run[m]) == Some(nonce)
  {
    NoncesChange(cfg, At(cfg, run, n - 1), run[n - 1]);
    if NonceMade(run[n - 1]) == Some(nonce) {
      m := n - 1;
    } else {
      m := NonceHasMaker(cfg, run, n - 1, nonce);
    }
  }

  lemma SpentIsGone(cfg: Config, run: seq<Request>, i: nat, nonce: Nonce)
    requires i < |run| && nonce in ReplyAt(cfg, run, i).spent
    ensures nonce in At(cfg, run, i).nonces && nonce !in At(cfg, run, i + 1).nonces
  {
    NoncesChange(cfg, At(cfg, run, i), run[i]);
  }

  lemma SpentHasMaker(cfg: Config, run: seq<Request>, i: nat, nonce: Nonce) returns (m: nat)
    requires i < |run| && nonce in ReplyAt(cfg, run, i).spent
    ensures m < i && NonceMade(run[m]) == Some(nonce)
  {
    SpentIsGone(cfg, run, i, nonce);
    m := NonceHasMaker(cfg, run, i, nonce);
  }

  lemma GoneStaysGone(cfg: Config, run: seq<Request>, n: nat, nonce: Nonce)
    requires n < |run| && nonce !in At(cfg, run, n).nonces && NonceMade(run[n]) != Some(nonce)
    ensures nonce !in At(cfg, run, n + 1).nonces
  {
    NoncesChange(cfg, At(cfg, run, n), run[n]);
  }

  lemma {:induction false} SpentNonceStaysGone(cfg: Config, run: seq<Request>, i: nat, nonce: Nonce, n: nat)
    requires FreshIds(run) && i < n <= |run| && nonce in ReplyAt(cfg, run, i).spent
    ensures nonce !in At(cfg, run, n).nonces
  {
    if i + 1 == n {
      SpentIsGone(cfg, run, i, nonce);
    } else {
      SpentNonceStaysGone(cfg, run, i, nonce, n - 1);
      var m := SpentHasMaker(cfg, run, i, nonce);
      assert NonceMade(run[m]) != NonceMade(run[n - 1]);
      GoneStaysGone(cfg, run, n - 1, nonce);
    }
  }

  /**
    Each generated nonce is accepted at most once in total, across token-endpoint DPoP,
    credential-endpoint DPoP, key proofs and presentations.
   */
  lemma NonceAcceptedAtMostOnce(cfg: Config, run: seq<Request>, i: nat, p: nat, j: nat, q: nat)
    requires FreshIds(run) && i < |run| && j < |run|
    requires p < |ReplyAt(cfg, run, i).spent| && q < |ReplyAt(cfg, run, j).spent|
    requires ReplyAt(cfg, run, i).spent[p] == ReplyAt(cfg, run, j).spent[q]
    ensures i == j && p == q
  {
    var nonce := ReplyAt(cfg, run, i).spent[p];
    NoncesChange(cfg, At(cfg, run, i), run[i]);
    NoncesChange(cfg, At(cfg, run, j), run[j]);
    if i < j {
      SpentNonceStaysGone(cfg, run, i, nonce, j);
    } else if j < i {
      SpentNonceStaysGone(cfg, run, j, nonce, i);
    }
  }

  predicate AcceptsPresentationAt(cfg: Config, run: seq<Request>, i: nat, tx: TransactionId) {
    i < |run| && run[i].Present? && run[i].transaction == tx
    && ReplyAt(cfg, run, i).response == PresentationAccepted
  }

  lemma TransactionsChange(cfg: Config, s: State, r: Request, tx: TransactionId)
    ensures var reply := Serve(cfg, s, r);
            && (tx in reply.state.transactions ==> tx in s.transactions || (r.AskPresentation? && r.transaction == tx))
            && (r.Present? && r.transaction == tx && reply.response == PresentationAccepted ==>
                  tx in s.transactions && tx !in reply.state.transactions)
  {
    match r
    case RedeemCode(_, _, _, _, _, _, _) =>
      var mid := RedeemShape(cfg, s, r);
      MintShape(cfg, mid, r, RedeemFlow(cfg, s, r).spent);
    case Authorize(_, _, _, _, _, _) => AuthorizeShape(cfg, s, r);
    case Issue(_, _, _, _, _, _, _) => IssueShape(s, r);
    case _ =>
  }

  lemma {:induction false} TransactionHasMaker(cfg: Config, run: seq<Request>, n: nat, tx: TransactionId)
    returns (m: nat)
    requires n <= |run| && tx in At(cfg, run, n).transactions
    ensures m < n && run[m].AskPresentation? && run[m].transaction == tx
  {
    TransactionsChange(cfg, At(cfg, run, n - 1), run[n - 1], tx);
    if run[n - 1].AskPresentation? && run[n - 1].transaction == tx {
      m := n - 1;
    } else {
      m := TransactionHasMaker(cfg, run, n - 1, tx);
    }
  }

  lemma {:induction false} AnsweredTransactionStaysGone(cfg: Config, run: seq<Request>, i: nat, tx: TransactionId,
                                                        n: nat)
    requires FreshIds(run) && i < n <= |run| && AcceptsPresentationAt(cfg, run, i, tx)
    ensures tx !in At(cfg, run, n).transactions
  {
    TransactionsChange(cfg, At(cfg, run, i), run[i], tx);
    if i + 1 < n {
      AnsweredTransactionStaysGone(cfg, run, i, tx, n - 1);
      TransactionsChange(cfg, At(cfg, run, n - 1), run[n - 1], tx);
      var m := TransactionHasMaker(cfg, run, i, tx);
      assert !(run[n - 1].AskPresentation? && run[n - 1].transaction == run[m].transaction);
    }
  }

  /** Each verifier transaction accepts at most one presentation. */
  lemma TransactionAcceptsAtMostOnce(cfg: Config, run: seq<Request>, i: nat, j: nat, tx: TransactionId)
    requires FreshIds(run) && AcceptsPresentationAt(cfg, run, i, tx) && AcceptsPresentationAt(cfg, run, j, tx)
    ensures i == j
  {
    TransactionsChange(cfg, At(cfg, run, i), run[i], tx);
    TransactionsChange(cfg, At(cfg, run, j), run[j], tx);
    if i < j {
      AnsweredTransactionStaysGone(cfg, run, i, tx, j);
    } else if j < i {
      AnsweredTransactionStaysGone(cfg, run, j, tx, i);
    }
  }
}
