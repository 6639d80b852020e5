/**
  private_key_jwt at the token endpoint: the assertion the wallet builds and every check the server
  makes of one, through the first use of its jti.
 */
module ClientAssertions {
  import opened Prelude
  import opened JsStrings
  import opened ClientIdentity
  import opened JtiStores
  import opened ReplayProtection

  // ---------------------------------------------------------------------------------------------
  // The wallet builds an assertion
  // ---------------------------------------------------------------------------------------------

  const CLIENT_ASSERTION_LIFETIME_SECONDS := 300
  const ECDSA_ALGS := {"ES256", "ES384", "ES512"}

  function GoTrimRight(s: string): string {
    if s != "" && GoBlank(s[|s| - 1]) then GoTrimRight(s[..|s| - 1]) else s
  }

  function GoTrim(s: string): string {
    if s != "" && GoBlank(s[0]) then GoTrim(s[1..]) else GoTrimRight(s)
  }

  lemma {:induction false} GoTrimmedRight(s: string) returns (j: nat)
    ensures j <= |s| && GoTrimRight(s) == s[..j]
    ensures forall k :: j <= k < |s| ==> GoBlank(s[k])
    ensures j > 0 ==> !GoBlank(s[j - 1])
  {
    if s != "" && GoBlank(s[|s| - 1]) {
      j := GoTrimmedRight(s[..|s| - 1]);
    } else {
      j := |s|;
    }
  }

  /** Like JavaScript's, Go's trimming keeps the part between the blanks on either side. */
  lemma {:induction false} GoTrimmedExactly(s: string) returns (i: nat, j: nat)
    ensures i <= j <= |s| && GoTrim(s) == s[i..j]
    ensures forall k :: 0 <= k < i || j <= k < |s| ==> GoBlank(s[k])
    ensures i < j ==> !GoBlank(s[i]) && !GoBlank(s[j - 1])
  {
    if s != "" && GoBlank(s[0]) {
      i, j := GoTrimmedExactly(s[1..]);
      assert forall k | 0 < k < |s| :: s[k] == s[1..][k - 1];
      i, j := i + 1, j + 1;
    } else {
      i := 0;
      j := GoTrimmedRight(s);
    }
  }

  lemma {:induction false} BlankExactlyWhen(s: string)
    ensures GoAllBlank(s) <==> GoTrim(s) == ""
  {
    if s != "" {
      if GoBlank(s[0]) {
        BlankExactlyWhen(s[1..]);
        assert GoAllBlank(s) <==> GoAllBlank(s[1..]) by {
          assert forall i | 0 < i < |s| :: s[i] == s[1..][i - 1];
        }
      } else {
        RightTrimKeepsTheFirst(s);
      }
    }
  }

  lemma {:induction false} RightTrimKeepsTheFirst(s: string)
    requires s != "" && !GoBlank(s[0])
    ensures GoTrimRight(s) != "" && GoTrimRight(s)[0] == s[0]
  {
    if GoBlank(s[|s| - 1]) {
      RightTrimKeepsTheFirst(s[..|s| - 1]);
    }
  }

  /** `resolveClientAssertionAudience`: configuration, then the issuer, then the token endpoint. */
  function AudienceFor(w: ClientAuth, m: Metadata, tokenEndpointUrl: string): string {
    if GoTrim(w.assertionAudience) != "" then GoTrim(w.assertionAudience)
    else if GoTrim(m.issuer) != "" then GoTrim(m.issuer)
    else tokenEndpointUrl
  }

  /** `generateClientAssertion` at a second of the wallet's clock; jti values are fresh UUIDs. */
  function BuildAssertion(w: ClientAuth, audience: string, atSecond: int, jti: string): Option<ClientAssertion> {
    if w.key.None? || GoAllBlank(w.clientId) || GoAllBlank(audience) || SignatureAlgorithm(w) !in ECDSA_ALGS then None
    else
      var key := w.key.value;
      Some(Jwt(
        Header(if GoAllBlank(key.kid) then None else Some(key.kid), Some(SignatureAlgorithm(w))),
        Claims(Some(w.clientId), Some(w.clientId), [audience], Some(atSecond), Some(atSecond),
               Some(atSecond + CLIENT_ASSERTION_LIFETIME_SECONDS), Some(jti)),
        key.material))
  }

  /** The wallet can build an assertion: it has a key for one of the three curves, and an id and an audience to name. */
  ghost predicate CanBuild(w: ClientAuth, audience: string) {
    && w.key.Some? && !GoAllBlank(w.clientId) && !GoAllBlank(audience)
    && w.signingAlg in {"", "ES256", "ES384", "ES512"}
  }

  lemma BuildsExactlyWhen(w: ClientAuth, audience: string, atSecond: int, jti: string)
    ensures BuildAssertion(w, audience, atSecond, jti).Some? <==> CanBuild(w, audience)
  {
  }

  // ---------------------------------------------------------------------------------------------
  // The server verifies one
  // ---------------------------------------------------------------------------------------------

  datatype Server = Server(authz: string, metadata: Option<Metadata>, registry: map<string, Client>)

  datatype Refusal =
    | BadContext(error: ContextError)
    | AnonymousNotSupported
    | AssertionMalformed
    | WrongSubject
    | ClaimMissing
    | FromTheFuture
    | AlgRefused
    | KeyNotFound
    | VerificationFailed
    | Expired
    | JtiUsed

  datatype Verified = Verified(jti: string, exp: int)

  /** `getExpectedClientAssertionAudiences`. */
  function ExpectedAudiences(s: Server, c: Client): seq<string> {
    var configured := StringValue(c.assertionAudience);
    if configured.Some? then [configured.value]
    else if s.metadata.Some? && s.metadata.value.tokenEndpoint.Some? && s.metadata.value.tokenEndpoint.value != ""
    then [s.metadata.value.tokenEndpoint.value, s.authz]
    else [s.authz]
  }

  function FindJwk(keys: seq<Jwk>, kid: string): (key: Option<Jwk>)
    ensures key.Some? ==> key.value in keys && StringValue(key.value.kid) == Some(kid)
    ensures key.None? ==> forall i :: 0 <= i < |keys| ==> StringValue(keys[i].kid) != Some(kid)
  {
    if keys == [] then None
    else if StringValue(keys[0].kid) == Some(kid) then Some(keys[0])
    else FindJwk(keys[1..], kid)
  }

  /** `selectClientAssertionJwk`: by kid, and without one only a single key will do. */
  function SelectJwk(c: Client, h: Header): (key: Option<Jwk>)
    ensures key.Some? ==> key.value in c.keys
  {
    var kid := StringValue(h.kid);
    if kid.Some? then FindJwk(c.keys, kid.value)
    else if |c.keys| == 1 then Some(c.keys[0])
    else None
  }

  /** Entry i is the key to check with: the first one with the header's kid, or without a kid the only one. */
  ghost predicate IsKeyFor(c: Client, h: Header, i: int) {
    && 0 <= i < |c.keys|
    && match StringValue(h.kid)
       case Some(kid) =>
         StringValue(c.keys[i].kid) == Some(kid) && forall j :: 0 <= j < i ==> StringValue(c.keys[j].kid) != Some(kid)
       case None => |c.keys| == 1
  }

  lemma {:induction false} FindsTheFirst(keys: seq<Jwk>, kid: string, i: nat)
    requires i < |keys| && StringValue(keys[i].kid) == Some(kid)
    requires forall j :: 0 <= j < i ==> StringValue(keys[j].kid) != Some(kid)
    ensures FindJwk(keys, kid) == Some(keys[i])
  {
    if i > 0 {
      FindsTheFirst(keys[1..], kid, i - 1);
    }
  }

  lemma {:induction false} FirstOf(keys: seq<Jwk>, kid: string) returns (i: nat)
    requires FindJwk(keys, kid).Some?
    ensures i < |keys| && StringValue(keys[i].kid) == Some(kid)
    ensures forall j :: 0 <= j < i ==> StringValue(keys[j].kid) != Some(kid)
  {
    if StringValue(keys[0].kid) == Some(kid) {
      i := 0;
    } else {
      var later := FirstOf(keys[1..], kid);
      i := later + 1;
      assert forall j | 0 < j < i :: keys[j] == keys[1..][j - 1];
    }
  }

  /** There is at most one key to check with; it is selected, and without one none is. */
  lemma SelectsExactly(c: Client, h: Header) returns (i: int)
    ensures forall j :: IsKeyFor(c, h, j) ==> j == i
    ensures SelectJwk(c, h) == if IsKeyFor(c, h, i) then Some(c.keys[i]) else None
  {
    var kid := StringValue(h.kid);
    i := 0;
    if kid.Some? {
      forall j | IsKeyFor(c, h, j) ensures SelectJwk(c, h) == Some(c.keys[j]) {
        FindsTheFirst(c.keys, kid.value, j);
      }
      if SelectJwk(c, h).Some? {
        i := FirstOf(c.keys, kid.value);
      }
    }
  }

  function Lower(s: string): (r: string)
    ensures |r| == |s|
  {
    seq(|s|, i requires 0 <= i < |s| => if 'A' <= s[i] <= 'Z' then s[i] - 'A' + 'a' else s[i])
  }

  predicate SymmetricOrNone(alg: string) {
    Lower(alg) == "none" || (|alg| >= 2 && Lower(alg)[..2] == "hs")
  }

  predicate AlgSupported(s: Server, c: Client, alg: string) {
    && s.metadata.Some?
    && s.metadata.value.authMethods.Some? && PRIVATE_KEY_JWT in s.metadata.value.authMethods.value
    && s.metadata.value.signingAlgs.Some? && alg in s.metadata.value.signingAlgs.value
    && (StringValue(c.signingAlg).Some? ==> StringValue(c.signingAlg) == Some(alg))
  }

  /** The library's own checks: signature, issuer, subject, audience, `exp` and `nbf` with tolerance. */
  predicate JwtVerifies(s: Server, c: Client, a: ClientAssertion, key: Jwk, now: int)
    requires a.Jwt? && a.claims.exp.Some?
  {
    && a.signer == key.material
    && a.claims.iss == Some(c.clientId) && a.claims.sub == Some(c.clientId)
    && (exists i | 0 <= i < |a.claims.aud| :: a.claims.aud[i] in ExpectedAudiences(s, c))
    && WithinTolerance(a.claims.exp.value, now)
    && (a.claims.nbf.Some? ==> a.claims.nbf.value <= Seconds(now) + CLIENT_ASSERTION_CLOCK_TOLERANCE_SECONDS)
  }

  /** `verifyPrivateKeyJwtClientAuthentication`, check by check. */
  function VerifyAssertion(s: Server, r: TokenRequest, c: Client, now: int): Result<Verified, Refusal> {
    if !HasPrivateKeyJwt(r) then Err(BadContext(AssertionMissing))
    else if r.assertion.value.NotJwt? then Err(AssertionMalformed)
    else
      var a := r.assertion.value;
      var latest := Seconds(now) + CLIENT_ASSERTION_CLOCK_TOLERANCE_SECONDS;
      var alg := StringValue(a.header.alg);
      if StringValue(a.claims.iss) != Some(c.clientId) || StringValue(a.claims.sub) != Some(c.clientId) then
        Err(WrongSubject)
      else if a.claims.exp.None? || a.claims.iat.None? then Err(ClaimMissing)
      else if a.claims.iat.value > latest || (a.claims.nbf.Some? && a.claims.nbf.value > latest) then Err(FromTheFuture)
      else if StringValue(a.claims.jti).None? then Err(ClaimMissing)
      else if alg.None? || SymmetricOrNone(alg.value) || !AlgSupported(s, c, alg.value) then Err(AlgRefused)
      else
        var key := SelectJwk(c, a.header);
        if key.None? then Err(KeyNotFound)
        else if StringValue(key.value.alg).Some? && StringValue(key.value.alg) != alg then Err(AlgRefused)
        else if !JwtVerifies(s, c, a, key.value, now) then Err(VerificationFailed)
        else Ok(Verified(StringValue(a.claims.jti).value, a.claims.exp.value))
  }

  function ClientOf(s: Server, r: TokenRequest): Option<Client> {
    var clientId := RequestClientId(r);
    if clientId.Some? then Lookup(s.registry, clientId.value) else None
  }

  /** The replay cache's key for a client's jti. */
  function JtiKey(clientId: string, jti: string): JsString {
    AssertionKey(Utf16(clientId), Utf16(jti))
  }

  /** `resolveTokenRequestClientPolicy`: what it leaves in the jti cache, and its answer. */
  function PolicyStep(s: Server, jtis: Entries, r: TokenRequest, now: int): (Entries, Result<PolicyContext, Refusal>) {
    var client := ClientOf(s, r);
    var context := ResolveContext(r, client);
    if context.Err? then (jtis, Err(BadContext(context.error)))
    else if context.value.kind.AnonymousClient? && r.preAuthorizedCode &&
            !(s.metadata.Some? && AnonymousPermitted(s.metadata.value)) then (jtis, Err(AnonymousNotSupported))
    else if client.None? || AuthMethodOf(client.value) != PRIVATE_KEY_JWT then (jtis, Ok(context.value))
    else
      var verified := VerifyAssertion(s, r, client.value, now);
      if verified.Err? then (jtis, Err(verified.error))
      else
        var ttlMs := AssertionTtlMs(verified.value.exp, now);
        if ttlMs < MIN_CLIENT_ASSERTION_JTI_TTL_MS then (jtis, Err(Expired))
        else
          var (after, isNew) :=
            MemorySave(jtis, Attempt(JtiKey(client.value.clientId, verified.value.jti), now, ttlMs, true));
          (after, if isNew then Ok(context.value) else Err(JtiUsed))
  }

  // ---------------------------------------------------------------------------------------------
  // What the checks come to
  // ---------------------------------------------------------------------------------------------

  /** The audience of the wallet's assertion: configured, else the issuer, else the token endpoint. */
  lemma AudienceExactly(w: ClientAuth, m: Metadata, url: string)
    ensures !GoAllBlank(w.assertionAudience) ==> AudienceFor(w, m, url) == GoTrim(w.assertionAudience)
    ensures GoAllBlank(w.assertionAudience) && !GoAllBlank(m.issuer) ==> AudienceFor(w, m, url) == GoTrim(m.issuer)
    ensures GoAllBlank(w.assertionAudience) && GoAllBlank(m.issuer) ==> AudienceFor(w, m, url) == url
  {
    BlankExactlyWhen(w.assertionAudience);
    BlankExactlyWhen(m.issuer);
  }

  /** An audience is expected when it is the registered one; without one, the token endpoint or the issuer. */
  lemma ExpectedExactlyWhen(s: Server, c: Client, audience: string)
    ensures audience in ExpectedAudiences(s, c) <==>
            match StringValue(c.assertionAudience)
            case Some(configured) => audience == configured
            case None =>
              || audience == s.authz
              || (audience != "" && s.metadata.Some? && s.metadata.value.tokenEndpoint == Some(audience))
  {
    var e := ExpectedAudiences(s, c);
    assert StringValue(c.assertionAudience).None? ==> e[|e| - 1] == s.authz;
    assert |e| == 2 ==> e[0] == s.metadata.value.tokenEndpoint.value;
  }

  /** HMAC algorithms and `none`, in any case. */
  lemma SymmetricExactly(alg: string)
    ensures SymmetricOrNone(alg) <==>
            || (|alg| >= 2 && alg[0] in "hH" && alg[1] in "sS")
            || (|alg| == 4 && alg[0] in "nN" && alg[1] in "oO" && alg[2] in "nN" && alg[3] in "eE")
  {
    var lower := Lower(alg);
    if |alg| >= 2 {
      assert lower[..2] == "hs" <==> lower[0] == 'h' && lower[1] == 's';
    }
    if |alg| == 4 {
      assert lower == "none" <==> lower[0] == 'n' && lower[1] == 'o' && lower[2] == 'n' && lower[3] == 'e';
    }
  }

  /** What RFC 7523 asks of the claims, with ten seconds of tolerance on either side. */
  ghost predicate ClaimsAreRight(s: Server, c: Client, claims: Claims, now: int) {
    && claims.iss == Some(c.clientId) && claims.sub == Some(c.clientId)
    && StringValue(Some(c.clientId)) == Some(c.clientId)
    && (exists i :: 0 <= i < |claims.aud| && claims.aud[i] in ExpectedAudiences(s, c))
    && claims.exp.Some? && now / 1000 < claims.exp.value + 10
    && claims.iat.Some? && claims.iat.value <= now / 1000 + 10
    && (claims.nbf.Some? ==> claims.nbf.value <= now / 1000 + 10)
    && StringValue(claims.jti).Some?
  }

  /** The algorithm is an asymmetric one, advertised, and the registered one where one is registered. */
  ghost predicate AlgIsRight(s: Server, c: Client, alg: Option<string>) {
    && alg.Some? && !SymmetricOrNone(alg.value)
    && s.metadata.Some?
    && s.metadata.value.authMethods.Some? && PRIVATE_KEY_JWT in s.metadata.value.authMethods.value
    && s.metadata.value.signingAlgs.Some? && alg.value in s.metadata.value.signingAlgs.value
    && StringValue(c.signingAlg) in {None, alg}
  }

  /** The assertion was signed by the registered key to check with, whose own algorithm does not differ. */
  ghost predicate KeyIsRight(c: Client, a: ClientAssertion, alg: Option<string>)
    requires a.Jwt?
  {
    exists i :: IsKeyFor(c, a.header, i) && c.keys[i].material == a.signer && StringValue(c.keys[i].alg) in {None, alg}
  }

  lemma RightKeyIsSelected(c: Client, a: ClientAssertion, alg: Option<string>)
    requires a.Jwt?
    ensures KeyIsRight(c, a, alg) <==>
            var key := SelectJwk(c, a.header);
            key.Some? && key.value.material == a.signer && StringValue(key.value.alg) in {None, alg}
  {
    var i := SelectsExactly(c, a.header);
  }

  /** The claim checks that come before the key is looked for, and those of the library after it. */
  lemma ClaimsChecked(s: Server, c: Client, a: ClientAssertion, key: Jwk, now: int)
    requires a.Jwt?
    ensures ClaimsAreRight(s, c, a.claims, now) && a.signer == key.material <==>
            var latest := Seconds(now) + CLIENT_ASSERTION_CLOCK_TOLERANCE_SECONDS;
            && StringValue(a.claims.iss) == Some(c.clientId) && StringValue(a.claims.sub) == Some(c.clientId)
            && a.claims.exp.Some? && a.claims.iat.Some? && a.claims.iat.value <= latest
            && (a.claims.nbf.Some? ==> a.claims.nbf.value <= latest)
            && StringValue(a.claims.jti).Some?
            && JwtVerifies(s, c, a, key, now)
  {
  }

  lemma AlgChecked(s: Server, c: Client, alg: Option<string>)
    ensures AlgIsRight(s, c, alg) <==> alg.Some? && !SymmetricOrNone(alg.value) && AlgSupported(s, c, alg.value)
  {
  }

  /** Any assertion of any sender verifies exactly when its claims, its algorithm and its key are right. */
  lemma VerifiesExactlyWhen(s: Server, r: TokenRequest, c: Client, now: int)
    ensures VerifyAssertion(s, r, c, now).Ok? <==>
            && StringValue(r.assertionType) == Some(JWT_BEARER) && r.assertion.Some? && r.assertion.value.Jwt?
            && var a := r.assertion.value;
            && ClaimsAreRight(s, c, a.claims, now)
            && AlgIsRight(s, c, StringValue(a.header.alg))
            && KeyIsRight(c, a, StringValue(a.header.alg))
  {
    if r.assertion.Some? && r.assertion.value.Jwt? {
      var a := r.assertion.value;
      AlgChecked(s, c, StringValue(a.header.alg));
      RightKeyIsSelected(c, a, StringValue(a.header.alg));
      if SelectJwk(c, a.header).Some? {
        ClaimsChecked(s, c, a, SelectJwk(c, a.header).value, now);
      }
    }
  }

  /** Just past its `exp` an assertion still verifies and is refused as expired; ten seconds on it does not verify. */
  lemma LateAssertionExactly(s: Server, jtis: Entries, r: TokenRequest, now: int)
    requires ClientOf(s, r).Some? && AuthMethodOf(ClientOf(s, r).value) == PRIVATE_KEY_JWT
    requires ResolveContext(r, ClientOf(s, r)).Ok? && VerifyAssertion(s, r, ClientOf(s, r).value, now).Ok?
    ensures var exp := VerifyAssertion(s, r, ClientOf(s, r).value, now).value.exp;
            && now / 1000 < exp + 10
            && (PolicyStep(s, jtis, r, now).1 == Err(Expired) <==> exp * 1000 <= now)
  {
    VerifiesExactlyWhen(s, r, ClientOf(s, r).value, now);
  }

  /** A request that needs no assertion: an anonymous one by pre-authorized code needs the metadata's permission. */
  lemma PolicyWithoutKeyExactly(s: Server, jtis: Entries, r: TokenRequest, now: int)
    requires ClientOf(s, r).None? || AuthMethodOf(ClientOf(s, r).value) != PRIVATE_KEY_JWT
    ensures var context := ResolveContext(r, ClientOf(s, r));
            var (after, answer) := PolicyStep(s, jtis, r, now);
            && after == jtis
            && answer ==
               match context
               case Err(error) => Err(BadContext(error))
               case Ok(c) =>
                 if c.kind == AnonymousClient && r.preAuthorizedCode &&
                    (s.metadata.None? || s.metadata.value.anonymousAccess != Some(true))
                 then Err(AnonymousNotSupported)
                 else Ok(c)
  {
  }

  /** A request that needs one: it verifies, comes before its `exp`, and its jti is new. */
  lemma PolicyWithKeyExactlyWhen(s: Server, jtis: Entries, r: TokenRequest, now: int)
    requires ClientOf(s, r).Some? && AuthMethodOf(ClientOf(s, r).value) == PRIVATE_KEY_JWT
    ensures var c := ClientOf(s, r).value;
            PolicyStep(s, jtis, r, now).1.Ok? <==>
              && VerifyAssertion(s, r, c, now).Ok?
              && var v := VerifyAssertion(s, r, c, now).value;
                 && now < v.exp * 1000
                 && (JtiKey(c.clientId, v.jti) in jtis ==> jtis[JtiKey(c.clientId, v.jti)] < now)
  {
  }

  class TokenEndpoint {
    const server: Server
    const jtiStore: InMemoryJtiStore

    constructor (server: Server, jtiStore: InMemoryJtiStore)
      ensures this.server == server && this.jtiStore == jtiStore
    {
      this.server, this.jtiStore := server, jtiStore;
    }

    method ResolveTokenRequestClientPolicy(r: TokenRequest, now: int) returns (answer: Result<PolicyContext, Refusal>)
      modifies jtiStore
      ensures (jtiStore.usedJtis, answer) == PolicyStep(server, old(jtiStore.usedJtis), r, now)
    {
      var client := ClientOf(server, r);
      var context := ResolveContext(r, client);
      if context.Err? {
        return Err(BadContext(context.error));
      }
      if context.value.kind.AnonymousClient? && r.preAuthorizedCode {
        if server.metadata.None? || !AnonymousPermitted(server.metadata.value) {
          return Err(AnonymousNotSupported);
        }
      }
      if client.Some? && AuthMethodOf(client.value) == PRIVATE_KEY_JWT {
        var verified := VerifyAssertion(server, r, client.value, now);
        if verified.Err? {
          return Err(verified.error);
        }
        var ttlMs := AssertionTtlMs(verified.value.exp, now);
        if ttlMs < MIN_CLIENT_ASSERTION_JTI_TTL_MS {
          return Err(Expired);
        }
        var isNew := jtiStore.SaveIfAbsent(JtiKey(client.value.clientId, verified.value.jti), now, ttlMs);
        if !isNew {
          return Err(JtiUsed);
        }
      }
      answer := Ok(context.value);
    }
  }

  // ---------------------------------------------------------------------------------------------
  // The wallet's assertion against the server's checks
  // ---------------------------------------------------------------------------------------------

  lemma EcdsaAlgIsPlain(alg: string)
    requires alg in ECDSA_ALGS
    ensures StringValue(Some(alg)) == Some(alg) && !SymmetricOrNone(alg)
  {
    assert alg[0] == 'E' && (alg[4] == '6' || alg[4] == '4' || alg[4] == '2');
    assert Lower(alg)[0] == 'e';
  }

  /** The registered key the assertion is to be checked with is the wallet's, and no pinned algorithm differs. */
  ghost predicate RegistrationFits(w: ClientAuth, c: Client)
    requires w.key.Some?
  {
    var alg := if w.signingAlg == "" then "ES256" else w.signingAlg;
    var h := Header(if GoAllBlank(w.key.value.kid) then None else Some(w.key.value.kid), Some(alg));
    && (StringValue(c.signingAlg).Some? ==> StringValue(c.signingAlg) == Some(alg))
    && exists i ::
         && IsKeyFor(c, h, i)
         && c.keys[i].material == w.key.value.material
         && (StringValue(c.keys[i].alg).Some? ==> StringValue(c.keys[i].alg) == Some(alg))
  }

  /**
    An assertion the wallet built under a successful negotiation is accepted exactly when the wallet's
    clock is at most ten seconds ahead, the assertion has not expired on arrival, its audience is one
    the server expects, the registration fits, and its jti is not in the cache.
   */
  lemma AssertionAcceptedExactlyWhen(w: ClientAuth, m: Metadata, s: Server, audience: string, atSecond: int,
                                     jti: string, jtis: Entries, now: int)
    requires s.metadata == Some(m) && WellKeyed(s.registry)
    requires Negotiate(w, Some(m)) == Ok(TokenEndpointAuth(PRIVATE_KEY_JWT, true))
    requires JsTrim(w.clientId) == w.clientId && StringValue(Some(jti)) == Some(jti)
    requires w.clientId in s.registry && AuthMethodOf(s.registry[w.clientId]) == PRIVATE_KEY_JWT
    requires BuildAssertion(w, audience, atSecond, jti).Some?
    ensures var a := BuildAssertion(w, audience, atSecond, jti).value;
            var client := s.registry[w.clientId];
            var answer := PolicyStep(s, jtis, RequestFor(w, TokenEndpointAuth(PRIVATE_KEY_JWT, true), a), now).1;
            answer.Ok? <==>
              && atSecond <= Seconds(now) + CLIENT_ASSERTION_CLOCK_TOLERANCE_SECONDS
              && now < (atSecond + CLIENT_ASSERTION_LIFETIME_SECONDS) * 1000
              && audience in ExpectedAudiences(s, client)
              && RegistrationFits(w, client)
              && JtiKey(w.clientId, jti) !in WithoutExpired(jtis, now)
  {
    var a := BuildAssertion(w, audience, atSecond, jti).value;
    var r := RequestFor(w, TokenEndpointAuth(PRIVATE_KEY_JWT, true), a);
    var client := s.registry[w.clientId];
    TypeIsNotBlank();
    ServerReads(w, m, a);
    assert ClientOf(s, r) == Some(client);
    BuiltAssertionVerifies(w, m, s, audience, atSecond, jti, now);
  }

  lemma VerifiedValue(s: Server, r: TokenRequest, c: Client, now: int)
    requires VerifyAssertion(s, r, c, now).Ok?
    ensures r.assertion.Some? && r.assertion.value.Jwt?
    ensures var claims := r.assertion.value.claims;
            && StringValue(claims.jti).Some? && claims.exp.Some?
            && VerifyAssertion(s, r, c, now).value == Verified(StringValue(claims.jti).value, claims.exp.value)
  {
  }

  lemma BuiltClaimsAreRight(w: ClientAuth, m: Metadata, s: Server, audience: string, atSecond: int, jti: string,
                            now: int)
    requires WellKeyed(s.registry) && w.clientId in s.registry
    requires Negotiate(w, Some(m)) == Ok(TokenEndpointAuth(PRIVATE_KEY_JWT, true))
    requires JsTrim(w.clientId) == w.clientId && StringValue(Some(jti)) == Some(jti)
    requires BuildAssertion(w, audience, atSecond, jti).Some?
    ensures ClaimsAreRight(s, s.registry[w.clientId], BuildAssertion(w, audience, atSecond, jti).value.claims, now) <==>
            && atSecond <= Seconds(now) + CLIENT_ASSERTION_CLOCK_TOLERANCE_SECONDS
            && WithinTolerance(atSecond + CLIENT_ASSERTION_LIFETIME_SECONDS, now)
            && audience in ExpectedAudiences(s, s.registry[w.clientId])
  {
    var claims := BuildAssertion(w, audience, atSecond, jti).value.claims;
    NegotiationSucceedsExactlyWhen(w, m);
    assert claims.aud[0] == audience;
  }

  lemma BuiltKeyIsRight(w: ClientAuth, m: Metadata, s: Server, audience: string, atSecond: int, jti: string)
    requires s.metadata == Some(m) && w.clientId in s.registry
    requires Negotiate(w, Some(m)) == Ok(TokenEndpointAuth(PRIVATE_KEY_JWT, true))
    requires BuildAssertion(w, audience, atSecond, jti).Some?
    ensures var a, c := BuildAssertion(w, audience, atSecond, jti).value, s.registry[w.clientId];
            var alg := StringValue(a.header.alg);
            RegistrationFits(w, c) <==> AlgIsRight(s, c, alg) && KeyIsRight(c, a, alg)
  {
    EcdsaAlgIsPlain(SignatureAlgorithm(w));
    NegotiationSucceedsExactlyWhen(w, m);
  }

  /** Everything but the lifetimes' last millisecond and the cache. */
  lemma BuiltAssertionVerifies(w: ClientAuth, m: Metadata, s: Server, audience: string, atSecond: int,
                               jti: string, now: int)
    requires s.metadata == Some(m) && WellKeyed(s.registry) && w.clientId in s.registry
    requires Negotiate(w, Some(m)) == Ok(TokenEndpointAuth(PRIVATE_KEY_JWT, true))
    requires JsTrim(w.clientId) == w.clientId && StringValue(Some(jti)) == Some(jti)
    requires BuildAssertion(w, audience, atSecond, jti).Some?
    ensures var a := BuildAssertion(w, audience, atSecond, jti).value;
            var client := s.registry[w.clientId];
            var verified := VerifyAssertion(s, RequestFor(w, TokenEndpointAuth(PRIVATE_KEY_JWT, true), a), client, now);
            && (verified.Ok? <==>
                  && atSecond <= Seconds(now) + CLIENT_ASSERTION_CLOCK_TOLERANCE_SECONDS
                  && WithinTolerance(atSecond + CLIENT_ASSERTION_LIFETIME_SECONDS, now)
                  && audience in ExpectedAudiences(s, client)
                  && RegistrationFits(w, client))
            && (verified.Ok? ==> verified.value == Verified(jti, atSecond + CLIENT_ASSERTION_LIFETIME_SECONDS))
  {
    var a := BuildAssertion(w, audience, atSecond, jti).value;
    var r, c := RequestFor(w, TokenEndpointAuth(PRIVATE_KEY_JWT, true), a), s.registry[w.clientId];
    TypeIsNotBlank();
    VerifiesExactlyWhen(s, r, c, now);
    if VerifyAssertion(s, r, c, now).Ok? {
      VerifiedValue(s, r, c, now);
    }
    BuiltClaimsAreRight(w, m, s, audience, atSecond, jti, now);
    BuiltKeyIsRight(w, m, s, audience, atSecond, jti);
  }

  /**
    A request negotiated without authentication is served exactly when it names no client or one
    registered for that: the anonymous access the wallet relied on is the one the server checks.
   */
  lemma UnauthenticatedRequestIsServed(w: ClientAuth, m: Metadata, s: Server, a: ClientAssertion, jtis: Entries,
                                       now: int)
    requires s.metadata == Some(m) && JsTrim(w.clientId) == w.clientId && Names(a, w.clientId)
    requires Negotiate(w, Some(m)).Ok? && Negotiate(w, Some(m)).value.authMethod == NONE
    ensures var auth := Negotiate(w, Some(m)).value;
            var (after, answer) := PolicyStep(s, jtis, RequestFor(w, auth, a), now);
            && after == jtis
            && (answer.Ok? <==>
                  !auth.sendClientId || (w.clientId in s.registry && AuthMethodOf(s.registry[w.clientId]) == NONE))
            && (answer.Ok? ==>
                  && (answer.value.kind == AnonymousClient <==> !auth.sendClientId)
                  && ProofIssuerAccepted(ProofIssuer(auth, w), answer.value.clientId))
  {
    ServerReads(w, m, a);
    NegotiationSucceedsExactlyWhen(w, m);
    RegisteredMethodIsResolved(w, m, a, s.registry);
  }

  /** With no audience configured on either side, the issuer both sides know is one. */
  lemma DefaultAudienceIsExpected(w: ClientAuth, m: Metadata, s: Server, c: Client, tokenEndpointUrl: string)
    requires GoTrim(w.assertionAudience) == "" && StringValue(c.assertionAudience).None?
    requires GoTrim(m.issuer) == s.authz != ""
    ensures AudienceFor(w, m, tokenEndpointUrl) in ExpectedAudiences(s, c)
  {
    var expected := ExpectedAudiences(s, c);
    assert expected[|expected| - 1] == s.authz;
  }

  /** A retry carries a fresh jti, so the entry the first request left behind does not refuse it. */
  lemma FreshJtiIsNotInTheWay(clientId: string, first: string, second: string, jtis: Entries, ttlMs: int,
                              now: int, later: int)
    requires first != second && now <= later
    requires JtiKey(clientId, second) !in jtis
    ensures JtiKey(clientId, second) !in
              WithoutExpired(MemorySave(jtis, Attempt(JtiKey(clientId, first), now, ttlMs, true)).0, later)
  {
    if JtiKey(clientId, first) == JtiKey(clientId, second) {
      AssertionKeyIsInjective(Utf16(clientId), Utf16(first), Utf16(clientId), Utf16(second));
      Utf16IsInjective(first, second);
    }
  }

  /** Signed by one of the client's keys with an asymmetric algorithm, naming that client, with a jti and an `exp`. */
  ghost predicate Genuine(c: Client, a: ClientAssertion, jti: string, exp: int) {
    && a.Jwt?
    && (exists i :: 0 <= i < |c.keys| && c.keys[i].material == a.signer)
    && a.claims.iss == Some(c.clientId) == a.claims.sub
    && a.header.alg.Some? && !SymmetricOrNone(JsTrim(a.header.alg.value))
    && a.claims.exp == Some(exp)
    && a.claims.jti.Some? && jti == JsTrim(a.claims.jti.value) != ""
  }

  lemma VerifiedAssertionIsGenuine(s: Server, r: TokenRequest, c: Client, now: int)
    requires VerifyAssertion(s, r, c, now).Ok?
    ensures var v := VerifyAssertion(s, r, c, now).value;
            r.assertion.Some? && Genuine(c, r.assertion.value, v.jti, v.exp)
  {
    var a := r.assertion.value;
    var key := SelectJwk(c, a.header).value;
    assert key in c.keys;
  }

  /** An accepted request passed the assertion's checks and the cache, in that order, and left its jti there. */
  lemma AcceptedRequestIsVerified(s: Server, jtis: Entries, r: TokenRequest, now: int)
    requires PolicyStep(s, jtis, r, now).1.Ok?
    requires ClientOf(s, r).Some? && AuthMethodOf(ClientOf(s, r).value) == PRIVATE_KEY_JWT
    ensures var c := ClientOf(s, r).value;
            && VerifyAssertion(s, r, c, now).Ok?
            && var v := VerifyAssertion(s, r, c, now).value;
            && now < v.exp * 1000
            && PolicyStep(s, jtis, r, now).0 ==
               MemorySave(jtis, Attempt(JtiKey(c.clientId, v.jti), now, AssertionTtlMs(v.exp, now), true)).0
            && MemorySave(jtis, Attempt(JtiKey(c.clientId, v.jti), now, AssertionTtlMs(v.exp, now), true)).1
  {
  }

  lemma AcceptedRequestNamesItsClient(s: Server, jtis: Entries, r: TokenRequest, now: int)
    requires WellKeyed(s.registry) && ClientOf(s, r).Some? && PolicyStep(s, jtis, r, now).1.Ok?
    ensures PolicyStep(s, jtis, r, now).1.value == PolicyContext(DefaultClient, Some(ClientOf(s, r).value.clientId))
  {
  }

  lemma SavedKeyIsSpent(jtis: Entries, key: JsString, exp: int, now: int)
    requires MemorySave(jtis, Attempt(key, now, AssertionTtlMs(exp, now), true)).1
    ensures key !in WithoutExpired(jtis, now)
    ensures Lookup(MemorySave(jtis, Attempt(key, now, AssertionTtlMs(exp, now), true)).0, key) == Some(exp * 1000)
  {
  }

  /**
    Whoever sent it, a request accepted for a client registered with private_key_jwt carries a genuine
    assertion of that client, before its `exp`; its jti was not live, and is spent until then.
   */
  lemma AcceptedAssertionIsGenuine(s: Server, jtis: Entries, r: TokenRequest, now: int) returns (jti: string, exp: int)
    requires WellKeyed(s.registry)
    requires PolicyStep(s, jtis, r, now).1.Ok?
    requires ClientOf(s, r).Some? && AuthMethodOf(ClientOf(s, r).value) == PRIVATE_KEY_JWT
    ensures var (after, answer) := PolicyStep(s, jtis, r, now);
            var c := ClientOf(s, r).value;
            && answer.value == PolicyContext(DefaultClient, Some(c.clientId))
            && r.assertion.Some? && Genuine(c, r.assertion.value, jti, exp)
            && now < exp * 1000
            && JtiKey(c.clientId, jti) !in WithoutExpired(jtis, now)
            && Lookup(after, JtiKey(c.clientId, jti)) == Some(exp * 1000)
  {
    var c := ClientOf(s, r).value;
    AcceptedRequestIsVerified(s, jtis, r, now);
    AcceptedRequestNamesItsClient(s, jtis, r, now);
    VerifiedAssertionIsGenuine(s, r, c, now);
    var v := VerifyAssertion(s, r, c, now).value;
    SavedKeyIsSpent(jtis, JtiKey(c.clientId, v.jti), v.exp, now);
    jti, exp := v.jti, v.exp;
  }

  /** The use of an assertion that a request amounts to, with every check but the lifetimes folded into one. */
  function UseOf(s: Server, r: TokenRequest, now: int): AssertionUse
    requires ClientOf(s, r).Some?
  {
    var c := ClientOf(s, r).value;
    match VerifyAssertion(s, r, c, now)
    case Ok(v) => AssertionUse(Assertion(Utf16(c.clientId), Utf16(v.jti), v.exp), now, ResolveContext(r, Some(c)).Ok?)
    case Err(_) => AssertionUse(Assertion(Utf16(c.clientId), [], 0), now, false)
  }

  /** Each request acts on the jti cache as one use in a replay run, so the single-use theorem covers the endpoint. */
  lemma PolicyStepIsAnAssertionUse(s: Server, jtis: Entries, r: TokenRequest, now: int)
    requires ClientOf(s, r).Some? && AuthMethodOf(ClientOf(s, r).value) == PRIVATE_KEY_JWT
    ensures var (after, answer) := PolicyStep(s, jtis, r, now);
            (after, answer.Ok?) == MemorySave(jtis, AssertionOp(UseOf(s, r, now)).attempt)
  {
    var c := ClientOf(s, r).value;
    assert ResolveContext(r, Some(c)).Ok? ==> ResolveContext(r, Some(c)).value.kind == DefaultClient;
    if VerifyAssertion(s, r, c, now).Ok? {
      assert WithinTolerance(VerifyAssertion(s, r, c, now).value.exp, now);
    }
  }
}
