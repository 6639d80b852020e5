/**
  The authorization and issuance flows over their shared stores: offer, redeem a code, mint a token,
  authorize a credential request, issue; and the verifier's presentation flow, which shares the
  nonce store.

  Each flow is a function from the stores and a request to the stores and a reply, and a method of
  `CredentialServer` that does the same to its fields. A token is identified with the JWT the server
  signed, its hash is a symbolic constructor, and a signature verifies when the server made it.
 */
module Issuance {
  import opened Prelude
  import opened JsStrings
  import opened TxCodes
  import opened CodeStore
  import opened JtiStores
  import opened ReplayProtection
  import NonceStore

  type Nonce = NonceStore.Nonce
  type ClientId = string
  type TransactionId = string

  datatype Token = Token(code: Code, iat: int, exp: real, clientId: Option<ClientId>, jkt: Option<JsString>)

  datatype TokenHash = Sha256(token: Token)

  datatype Allowed = Allowed(configs: seq<ConfigId>, expiresAt: int)

  datatype Transaction = Transaction(nonce: Nonce, expiresAt: int)

  datatype State = State(
    codes: map<Code, Entry>,
    nonces: NonceStore.Nonces,
    jtis: Entries,
    allowed: map<TokenHash, Allowed>,
    transactions: map<TransactionId, Transaction>,
    minted: set<Token>)

  const NO_STATE := State(map[], map[], map[], map[], map[], {})

  datatype Config = Config(maxTxCodeAttempts: nat, dpop: DpopPolicy)

  /** A DPoP proof as presented; `bound` says that signature, type, htm and htu are right. */
  datatype Proof = Proof(claims: DpopProof, nonce: Option<Nonce>, ath: Option<TokenHash>, bound: bool)

  datatype ProofContext = ProofContext(proof: Proof, nonceRequired: bool)

  datatype DpopMode = Off | Optional | Required

  datatype Presented = Bearer | Dpop(context: Option<ProofContext>)

  /** What `authorizeCredentialEndpointAccess` hands to `issueCredential`. */
  datatype Context = Context(key: TokenHash, clientId: Option<ClientId>, viaDpop: bool)

  datatype KeyProof = KeyProof(verifies: bool, nonce: Option<Nonce>)

  datatype Request =
    | Offer(now: int, code: Code, configs: seq<ConfigId>, tx: Option<TxCode>, mode: InputMode, ttlSec: Option<real>)
    | IssueNonce(now: int, nonce: Nonce, ttlMs: int)
    | RedeemCode(now: int, code: Code, given: Option<TxCode>, clientId: Option<ClientId>, ttlSec: Option<real>,
                 dpop: Option<ProofContext>, signs: bool)
    | Authorize(now: int, token: Token, registered: bool, dpopMode: DpopMode, dpopHeader: bool, presented: Presented)
    | Issue(now: int, context: Context, config: ConfigId, known: bool, proofs: seq<KeyProof>, cnonce: bool, built: bool)
    | AskPresentation(now: int, transaction: TransactionId, nonce: Nonce, nonceTtlMs: int, ttlMs: int)
    | Present(now: int, transaction: TransactionId, verified: bool)

  datatype Response =
    | Offered
    | NonceIssued
    | TokenIssued(token: Token)
    | UseDpopNonce
    | InvalidDpopProof
    | InvalidGrant(outcome: Outcome)
    | SigningFailed
    | InvalidAccessToken
    | Authorized(context: Context)
    | Issued
    | PresentationAsked
    | PresentationAccepted
    | Rejected

  /** The stores after a flow, what it answered, and the nonces it accepted on the way, in order. */
  datatype Reply = Reply(state: State, response: Response, spent: seq<Nonce>)

  // ---------------------------------------------------------------------------------------------
  // Offer and nonces
  // ---------------------------------------------------------------------------------------------

  function OfferFlow(s: State, r: Request): Reply
    requires r.Offer?
  {
    if !Savable(r.mode, r.tx) then Reply(s, Rejected, [])
    else
      var entry := SavedEntry(r.configs, r.tx, r.mode, EffectiveTtl(r.ttlSec, DEFAULT_TTL_SEC), r.now);
      Reply(s.(codes := s.codes[r.code := entry]), Offered, [])
  }

  /** `createNonce` and `createDpopNonceChallenge`. */
  function NonceFlow(s: State, r: Request): Reply
    requires r.IssueNonce?
  {
    Reply(s.(nonces := s.nonces[r.nonce := r.now + r.ttlMs]), NonceIssued, [])
  }

  // ---------------------------------------------------------------------------------------------
  // DPoP
  // ---------------------------------------------------------------------------------------------

  predicate ProofVerifies(cfg: Config, p: Proof, now: int, token: Option<Token>) {
    && p.bound
    && InWindow(cfg.dpop, p.claims.iat, now)
    && (token.Some? ==> p.ath == Some(Sha256(token.value)))
  }

  /** The nonce part of a DPoP check: the stores, whether the check passes, and what it spent. */
  function SpendProofNonce(s: State, ctx: ProofContext, now: int): (State, bool, seq<Nonce>) {
    if !ctx.nonceRequired then (s, true, [])
    else if ctx.proof.nonce.None? then (s, false, [])
    else
      var n := ctx.proof.nonce.value;
      var (nonces, ok) := NonceStore.Spend(s.nonces, n, now);
      (s.(nonces := nonces), ok, if ok then [n] else [])
  }

  function SaveJti(cfg: Config, s: State, p: Proof, now: int): (State, bool) {
    var key := DpopKey(p.claims.jwkThumbprint, p.claims.jti);
    var (jtis, isNew) := MemorySave(s.jtis, Attempt(key, now, ProofJtiTtlMs(cfg.dpop), true));
    (s.(jtis := jtis), isNew)
  }

  // ---------------------------------------------------------------------------------------------
  // Token endpoint
  // ---------------------------------------------------------------------------------------------

  const DEFAULT_TOKEN_TTL_SEC := 86400.0

  function TokenTtl(ttlSec: Option<real>): real {
    if ttlSec.Some? then ttlSec.value else DEFAULT_TOKEN_TTL_SEC
  }

  /** `exp` of a token minted at `at`. */
  function TokenExp(at: int, ttlSec: real): real {
    Seconds(at) as real + ttlSec
  }

  /** Expiry of the entry saved at `at`: the lifetime is floored, and falls back to 300 s below one. */
  function EntryExpiresAt(at: int, ttlSec: real): int {
    at + EffectiveTtl(Some(ttlSec), DEFAULT_TTL_SEC) * 1000
  }

  /** `createTokenPayload` and the signature. */
  function MintedToken(r: Request): Token
    requires r.RedeemCode?
  {
    Token(r.code, Seconds(r.now), TokenExp(r.now, TokenTtl(r.ttlSec)), r.clientId,
          if r.dpop.Some? then Some(r.dpop.value.proof.claims.jwkThumbprint) else None)
  }

  function RedeemAndMint(cfg: Config, s: State, r: Request, spent: seq<Nonce>): Reply
    requires r.RedeemCode?
  {
    var (slot, outcome) := ConsumeSlot(cfg.maxTxCodeAttempts, Lookup(s.codes, r.code), r.given, r.now);
    var s := s.(codes := WithSlot(s.codes, r.code, slot));
    if !outcome.Granted? then Reply(s, InvalidGrant(outcome), spent)
    else if !r.signs then Reply(s, SigningFailed, spent)
    else
      var token := MintedToken(r);
      var entry := Allowed(outcome.configs, EntryExpiresAt(r.now, TokenTtl(r.ttlSec)));
      Reply(s.(minted := s.minted + {token}, allowed := s.allowed[Sha256(token) := entry]),
            TokenIssued(token), spent)
  }

  function RedeemFlow(cfg: Config, s: State, r: Request): Reply
    requires r.RedeemCode?
  {
    if r.dpop.None? then RedeemAndMint(cfg, s, r, [])
    else
      var ctx := r.dpop.value;
      if !ProofVerifies(cfg, ctx.proof, r.now, None) then Reply(s, InvalidDpopProof, [])
      else
        var (s, nonceOk, spent) := SpendProofNonce(s, ctx, r.now);
        if !nonceOk then Reply(s, UseDpopNonce, spent)
        else
          var (s, isNew) := SaveJti(cfg, s, ctx.proof, r.now);
          if !isNew then Reply(s, InvalidDpopProof, spent) else RedeemAndMint(cfg, s, r, spent)
  }

  // ---------------------------------------------------------------------------------------------
  // Credential endpoint
  // ---------------------------------------------------------------------------------------------

  predicate TokenVerifies(s: State, token: Token, now: int) {
    token in s.minted && Seconds(now) as real < token.exp
  }

  function BoundTokenCheck(cfg: Config, s: State, r: Request, ctx: ProofContext): Reply
    requires r.Authorize?
  {
    if r.token.jkt.None? then Reply(s, InvalidAccessToken, [])
    else if !ProofVerifies(cfg, ctx.proof, r.now, Some(r.token)) then Reply(s, InvalidDpopProof, [])
    else
      var (s, nonceOk, spent) := SpendProofNonce(s, ctx, r.now);
      if !nonceOk then Reply(s, UseDpopNonce, spent) else BindProof(cfg, s, r, ctx.proof, spent)
  }

  /** The key binding, and then the proof's single use. */
  function BindProof(cfg: Config, s: State, r: Request, proof: Proof, spent: seq<Nonce>): Reply
    requires r.Authorize?
  {
    if Some(proof.claims.jwkThumbprint) != r.token.jkt then Reply(s, InvalidDpopProof, spent)
    else
      var (s, isNew) := SaveJti(cfg, s, proof, r.now);
      if !isNew then Reply(s, InvalidDpopProof, spent)
      else Reply(s, Authorized(Context(Sha256(r.token), r.token.clientId, true)), spent)
  }

  function AuthorizeFlow(cfg: Config, s: State, r: Request): Reply
    requires r.Authorize?
  {
    if !TokenVerifies(s, r.token, r.now) then Reply(s, InvalidAccessToken, [])
    else if r.token.clientId.Some? && !r.registered then Reply(s, InvalidAccessToken, [])
    else if r.dpopMode == Off && (r.presented.Dpop? || r.dpopHeader) then Reply(s, InvalidAccessToken, [])
    else match r.presented
      case Dpop(None) => Reply(s, InvalidDpopProof, [])
      case Dpop(Some(ctx)) => BoundTokenCheck(cfg, s, r, ctx)
      case Bearer =>
        if r.dpopMode == Required || r.token.jkt.Some? then Reply(s, InvalidAccessToken, [])
        else Reply(s, Authorized(Context(Sha256(r.token), r.token.clientId, false)), [])
  }

  /** The loop over key proofs: the stores, whether all passed, and the nonces accepted so far. */
  function CheckProofs(s: State, proofs: seq<KeyProof>, cnonce: bool, now: int): (State, bool, seq<Nonce>)
    decreases |proofs|
  {
    if proofs == [] then (s, true, [])
    else
      var p := proofs[0];
      if !p.verifies then (s, false, [])
      else if !cnonce || p.nonce.None? then CheckProofs(s, proofs[1..], cnonce, now)
      else
        var (nonces, ok) := NonceStore.Spend(s.nonces, p.nonce.value, now);
        if !ok then (s.(nonces := nonces), false, [])
        else
          var (t, passed, spent) := CheckProofs(s.(nonces := nonces), proofs[1..], cnonce, now);
          (t, passed, [p.nonce.value] + spent)
  }

  /** `fetch` of the allowed-configuration store drops an entry it finds expired. */
  function FetchAllowed(s: State, key: TokenHash, now: int): (State, Option<Allowed>) {
    if key !in s.allowed then (s, None)
    else if s.allowed[key].expiresAt != 0 && s.allowed[key].expiresAt < now then
      (s.(allowed := s.allowed - {key}), None)
    else (s, Some(s.allowed[key]))
  }

  function IssueFlow(s: State, r: Request): Reply
    requires r.Issue?
  {
    if !r.known then Reply(s, Rejected, [])
    else
      var (s, entry) := FetchAllowed(s, r.context.key, r.now);
      if entry.None? || r.config !in entry.value.configs then Reply(s, Rejected, [])
      else
        var (s, passed, spent) := CheckProofs(s, r.proofs, r.cnonce, r.now);
        if !passed || r.proofs == [] || !r.built then Reply(s, Rejected, spent)
        else Reply(s, Issued, spent)
  }

  // ---------------------------------------------------------------------------------------------
  // Presentations
  // ---------------------------------------------------------------------------------------------

  function AskFlow(s: State, r: Request): Reply
    requires r.AskPresentation?
  {
    Reply(s.(nonces := s.nonces[r.nonce := r.now + r.nonceTtlMs],
             transactions := s.transactions[r.transaction := Transaction(r.nonce, r.now + r.ttlMs)]),
          PresentationAsked, [])
  }

  /** `verified` says that the loops over the answered queries passed. */
  function PresentFlow(s: State, r: Request): Reply
    requires r.Present?
  {
    if r.transaction !in s.transactions then Reply(s, Rejected, [])
    else
      var tx := s.transactions[r.transaction];
      if r.now > tx.expiresAt then Reply(s.(transactions := s.transactions - {r.transaction}), Rejected, [])
      else if !r.verified then Reply(s, Rejected, [])
      else
        var (nonces, ok) := NonceStore.Spend(s.nonces, tx.nonce, r.now);
        if !ok then Reply(s.(nonces := nonces), Rejected, [])
        else Reply(s.(nonces := nonces, transactions := s.transactions - {r.transaction}),
                   PresentationAccepted, [tx.nonce])
  }

  function Serve(cfg: Config, s: State, r: Request): Reply {
    match r
    case Offer(_, _, _, _, _, _) => OfferFlow(s, r)
    case IssueNonce(_, _, _) => NonceFlow(s, r)
    case RedeemCode(_, _, _, _, _, _, _) => RedeemFlow(cfg, s, r)
    case Authorize(_, _, _, _, _, _) => AuthorizeFlow(cfg, s, r)
    case Issue(_, _, _, _, _, _, _) => IssueFlow(s, r)
    case AskPresentation(_, _, _, _, _) => AskFlow(s, r)
    case Present(_, _, _) => PresentFlow(s, r)
  }

  // ---------------------------------------------------------------------------------------------
  // The server
  // ---------------------------------------------------------------------------------------------

  class CredentialServer {
    const cfg: Config
    var codes: map<Code, Entry>
    var nonces: NonceStore.Nonces
    var jtis: Entries
    var allowed: map<TokenHash, Allowed>
    var transactions: map<TransactionId, Transaction>
    var minted: set<Token>

    constructor (cfg: Config)
      ensures this.cfg == cfg && View() == NO_STATE
    {
      this.cfg := cfg;
      codes, nonces, jtis, allowed, transactions, minted := map[], map[], map[], map[], map[], {};
    }

    function View(): State
      reads this
    {
      State(codes, nonces, jtis, allowed, transactions, minted)
    }

    method OfferCredential(r: Request) returns (response: Response)
      requires r.Offer?
      modifies this
      ensures var reply := OfferFlow(old(View()), r); View() == reply.state && response == reply.response
    {
      if !Savable(r.mode, r.tx) {
        return Rejected;
      }
      codes := codes[r.code := SavedEntry(r.configs, r.tx, r.mode, EffectiveTtl(r.ttlSec, DEFAULT_TTL_SEC), r.now)];
      return Offered;
    }

    method CreateNonce(r: Request) returns (response: Response)
      requires r.IssueNonce?
      modifies this
      ensures var reply := NonceFlow(old(View()), r); View() == reply.state && response == reply.response
    {
      nonces := nonces[r.nonce := r.now + r.ttlMs];
      return NonceIssued;
    }

    method ConsumeNonce(n: Nonce, now: int) returns (consumed: bool)
      modifies this`nonces
      ensures (nonces, consumed) == NonceStore.Spend(old(nonces), n, now)
    {
      consumed := n in nonces && now <= nonces[n];
      nonces := nonces - {n};
    }

    method CheckProofNonce(ctx: ProofContext, now: int) returns (ok: bool)
      modifies this`nonces
      ensures var (state, passed, _) := SpendProofNonce(old(View()), ctx, now); View() == state && ok == passed
    {
      if !ctx.nonceRequired {
        return true;
      }
      if ctx.proof.nonce.None? {
        return false;
      }
      ok := ConsumeNonce(ctx.proof.nonce.value, now);
    }

    method SaveProofJti(p: Proof, now: int) returns (isNew: bool)
      modifies this`jtis
      ensures (View(), isNew) == SaveJti(cfg, old(View()), p, now)
    {
      var key := DpopKey(p.claims.jwkThumbprint, p.claims.jti);
      jtis := WithoutExpired(jtis, now);
      if key in jtis {
        return false;
      }
      jtis := jtis[key := now + ProofJtiTtlMs(cfg.dpop)];
      return true;
    }

    method CreateAccessToken(r: Request) returns (response: Response)
      requires r.RedeemCode?
      modifies this
      ensures var reply := RedeemFlow(cfg, old(View()), r); View() == reply.state && response == reply.response
    {
      if r.dpop.Some? {
        var ctx := r.dpop.value;
        if !ProofVerifies(cfg, ctx.proof, r.now, None) {
          return InvalidDpopProof;
        }
        var nonceOk := CheckProofNonce(ctx, r.now);
        if !nonceOk {
          return UseDpopNonce;
        }
        var isNew := SaveProofJti(ctx.proof, r.now);
        if !isNew {
          return InvalidDpopProof;
        }
      }
      response := RedeemCodeAndMint(r);
    }

    /** The code, the token and its entry, once the proof has passed. */
    method RedeemCodeAndMint(r: Request) returns (response: Response)
      requires r.RedeemCode?
      modifies this
      ensures var reply := RedeemAndMint(cfg, old(View()), r, []); View() == reply.state && response == reply.response
    {
      var (slot, outcome) := ConsumeSlot(cfg.maxTxCodeAttempts, Lookup(codes, r.code), r.given, r.now);
      codes := WithSlot(codes, r.code, slot);
      if !outcome.Granted? {
        return InvalidGrant(outcome);
      }
      if !r.signs {
        return SigningFailed;
      }
      var token := MintedToken(r);
      minted := minted + {token};
      var ttl := EffectiveTtl(Some(TokenTtl(r.ttlSec)), DEFAULT_TTL_SEC);
      allowed := allowed[Sha256(token) := Allowed(outcome.configs, r.now + ttl * 1000)];
      return TokenIssued(token);
    }

    method AuthorizeCredentialEndpointAccess(r: Request) returns (response: Response)
      requires r.Authorize?
      modifies this
      ensures var reply := AuthorizeFlow(cfg, old(View()), r); View() == reply.state && response == reply.response
    {
      if r.token !in minted || Seconds(r.now) as real >= r.token.exp {
        return InvalidAccessToken;
      }
      if r.token.clientId.Some? && !r.registered {
        return InvalidAccessToken;
      }
      if r.dpopMode == Off && (r.presented.Dpop? || r.dpopHeader) {
        return InvalidAccessToken;
      }
      if r.presented.Bearer? {
        if r.dpopMode == Required || r.token.jkt.Some? {
          return InvalidAccessToken;
        }
        return Authorized(Context(Sha256(r.token), r.token.clientId, false));
      }
      if r.presented.context.None? {
        return InvalidDpopProof;
      }
      var ctx := r.presented.context.value;
      if r.token.jkt.None? {
        return InvalidAccessToken;
      }
      if !ProofVerifies(cfg, ctx.proof, r.now, Some(r.token)) {
        return InvalidDpopProof;
      }
      var nonceOk := CheckProofNonce(ctx, r.now);
      if !nonceOk {
        return UseDpopNonce;
      }
      if Some(ctx.proof.claims.jwkThumbprint) != r.token.jkt {
        return InvalidDpopProof;
      }
      var isNew := SaveProofJti(ctx.proof, r.now);
      if !isNew {
        return InvalidDpopProof;
      }
      return Authorized(Context(Sha256(r.token), r.token.clientId, true));
    }

    method CheckKeyProofs(proofs: seq<KeyProof>, cnonce: bool, now: int) returns (passed: bool)
      modifies this`nonces
      ensures var (state, ok, _) := CheckProofs(old(View()), proofs, cnonce, now); View() == state && passed == ok
    {
      var i := 0;
      while i < |proofs|
        invariant 0 <= i <= |proofs|
        invariant var whole := CheckProofs(old(View()), proofs, cnonce, now);
                  var rest := CheckProofs(View(), proofs[i..], cnonce, now);
                  whole.0 == rest.0 && whole.1 == rest.1
      {
        var p := proofs[i];
        assert proofs[i..][1..] == proofs[i + 1..];
        if !p.verifies {
          return false;
        }
        if cnonce && p.nonce.Some? {
          var valid := ConsumeNonce(p.nonce.value, now);
          if !valid {
            return false;
          }
        }
        i := i + 1;
      }
      return true;
    }

    method IssueCredential(r: Request) returns (response: Response)
      requires r.Issue?
      modifies this
      ensures var reply := IssueFlow(old(View()), r); View() == reply.state && response == reply.response
    {
      if !r.known || r.context.key !in allowed {
        return Rejected;
      }
      var entry := allowed[r.context.key];
      if entry.expiresAt != 0 && entry.expiresAt < r.now {
        allowed := allowed - {r.context.key};
        return Rejected;
      }
      if r.config !in entry.configs {
        return Rejected;
      }
      var passed := CheckKeyProofs(r.proofs, r.cnonce, r.now);
      if !passed || r.proofs == [] || !r.built {
        return Rejected;
      }
      return Issued;
    }

    method CreateAuthzRequest(r: Request) returns (response: Response)
      requires r.AskPresentation?
      modifies this
      ensures var reply := AskFlow(old(View()), r); View() == reply.state && response == reply.response
    {
      nonces := nonces[r.nonce := r.now + r.nonceTtlMs];
      transactions := transactions[r.transaction := Transaction(r.nonce, r.now + r.ttlMs)];
      return PresentationAsked;
    }

    method VerifyPresentations(r: Request) returns (response: Response)
      requires r.Present?
      modifies this
      ensures var reply := PresentFlow(old(View()), r); View() == reply.state && response == reply.response
    {
      if r.transaction !in transactions {
        return Rejected;
      }
      var tx := transactions[r.transaction];
      if r.now > tx.expiresAt {
        transactions := transactions - {r.transaction};
        return Rejected;
      }
      if !r.verified {
        return Rejected;
      }
      var valid := ConsumeNonce(tx.nonce, r.now);
      if !valid {
        return Rejected;
      }
      transactions := transactions - {r.transaction};
      return PresentationAccepted;
    }
  }
}
