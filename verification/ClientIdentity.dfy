/**
  How the wallet and the authorization server come to agree on who the client is: the wallet's
  negotiation of a client authentication method, the server's reading of the token request that
  follows, and the issuer rule for the key proof of the credential request.
 */
module ClientIdentity {
  import opened Prelude

  // ---------------------------------------------------------------------------------------------
  // Trimming, which the two languages do not do alike
  // ---------------------------------------------------------------------------------------------

  predicate SharedBlank(c: char) {
    || '\U{0009}' <= c <= '\U{000D}' || c == ' ' || c == '\U{00A0}' || c == '\U{1680}'
    || '\U{2000}' <= c <= '\U{200A}' || c == '\U{2028}' || c == '\U{2029}' || c == '\U{202F}'
    || c == '\U{205F}' || c == '\U{3000}'
  }

  /** `unicode.IsSpace`, for Go's `strings.TrimSpace`. */
  predicate GoBlank(c: char) {
    SharedBlank(c) || c == '\U{0085}'
  }

  /** White space and line terminators, for JavaScript's `trim`. */
  predicate JsBlank(c: char) {
    SharedBlank(c) || c == '\U{FEFF}'
  }

  function JsTrimRight(s: string): string {
    if s != "" && JsBlank(s[|s| - 1]) then JsTrimRight(s[..|s| - 1]) else s
  }

  function JsTrim(s: string): string {
    if s != "" && JsBlank(s[0]) then JsTrim(s[1..]) else JsTrimRight(s)
  }

  /** What is blank to one of the two languages only. */
  lemma BlanksDiffer(c: char)
    ensures GoBlank(c) && !JsBlank(c) <==> c == '\U{0085}'
    ensures JsBlank(c) && !GoBlank(c) <==> c == '\U{FEFF}'
    ensures (c as int) < 0x80 ==> (GoBlank(c) <==> c in "\t\n\U{0B}\U{0C}\r ")
  {
  }

  /** Trimming keeps a middle part: all is blank around it, and it neither starts nor ends with a blank. */
  lemma {:induction false} TrimmedRight(s: string) returns (j: nat)
    ensures j <= |s| && JsTrimRight(s) == s[..j]
    ensures forall k :: j <= k < |s| ==> JsBlank(s[k])
    ensures j > 0 ==> !JsBlank(s[j - 1])
  {
    if s != "" && JsBlank(s[|s| - 1]) {
      j := TrimmedRight(s[..|s| - 1]);
    } else {
      j := |s|;
    }
  }

  lemma {:induction false} TrimmedExactly(s: string) returns (i: nat, j: nat)
    ensures i <= j <= |s| && JsTrim(s) == s[i..j]
    ensures forall k :: 0 <= k < i || j <= k < |s| ==> JsBlank(s[k])
    ensures i < j ==> !JsBlank(s[i]) && !JsBlank(s[j - 1])
  {
    if s != "" && JsBlank(s[0]) {
      i, j := TrimmedExactly(s[1..]);
      assert forall k | 0 < k < |s| :: s[k] == s[1..][k - 1];
      i, j := i + 1, j + 1;
    } else {
      i := 0;
      j := TrimmedRight(s);
    }
  }

  predicate GoAllBlank(s: string) {
    forall i | 0 <= i < |s| :: GoBlank(s[i])
  }

  /** `getStringValue`: missing and blank form values are the same thing. */
  function StringValue(s: Option<string>): (v: Option<string>)
    ensures v.Some? ==> v.value != ""
  {
    if s.Some? && JsTrim(s.value) != "" then Some(JsTrim(s.value)) else None
  }

  // ---------------------------------------------------------------------------------------------
  // The wallet's side
  // ---------------------------------------------------------------------------------------------

  const NONE := "none"
  const PRIVATE_KEY_JWT := "private_key_jwt"

  /** In parts, so that the solver has its two ends at hand when it is trimmed. */
  const JWT_BEARER := "urn:" + "ietf:params:oauth:client-assertion-type" + ":jwt-bearer"

  type KeyMaterial = nat

  datatype WalletKey = WalletKey(kid: string, material: KeyMaterial)

  datatype ClientAuth = ClientAuth(
    authMethod: string,
    clientId: string,
    key: Option<WalletKey>,
    assertionAudience: string,
    signingAlg: string)

  /** The metadata document both sides read. */
  datatype Metadata = Metadata(
    issuer: string,
    tokenEndpoint: Option<string>,
    authMethods: Option<seq<string>>,
    signingAlgs: Option<seq<string>>,
    anonymousAccess: Option<bool>)

  datatype TokenEndpointAuth = TokenEndpointAuth(authMethod: string, sendClientId: bool)

  datatype NegotiationError =
    | NoMetadata
    | Unimplemented
    | MethodsAbsent
    | MethodsEmpty
    | NotAdvertised
    | CredentialsMissing
    | AlgsMissing
    | AlgNotAdvertised
    | ClientIdNeeded

  function Configured(w: ClientAuth): string {
    if w.authMethod == "" then NONE else w.authMethod
  }

  function SignatureAlgorithm(w: ClientAuth): string {
    if w.signingAlg == "" then "ES256" else w.signingAlg
  }

  predicate AnonymousPermitted(m: Metadata) {
    m.anonymousAccess == Some(true)
  }

  /** `clientAuthMethodUsable`; None when the method is usable. */
  function Unusable(configured: string, w: ClientAuth, m: Metadata): Option<NegotiationError>
    requires m.authMethods.Some?
  {
    if configured == NONE then
      if NONE in m.authMethods.value then None else Some(NotAdvertised)
    else if configured == PRIVATE_KEY_JWT then
      if GoAllBlank(w.clientId) || w.key.None? then Some(CredentialsMissing)
      else if PRIVATE_KEY_JWT !in m.authMethods.value then Some(NotAdvertised)
      else if m.signingAlgs.None? || m.signingAlgs.value == [] then Some(AlgsMissing)
      else if SignatureAlgorithm(w) !in m.signingAlgs.value then Some(AlgNotAdvertised)
      else None
    else Some(Unimplemented)
  }

  /** `resolveClientAuthMethod`. */
  function Negotiate(w: ClientAuth, metadata: Option<Metadata>): Result<TokenEndpointAuth, NegotiationError> {
    if metadata.None? then Err(NoMetadata)
    else
      var m, configured := metadata.value, Configured(w);
      if configured != NONE && configured != PRIVATE_KEY_JWT then Err(Unimplemented)
      else if m.authMethods.None? then Err(MethodsAbsent)
      else if m.authMethods.value == [] then Err(MethodsEmpty)
      else
        var unusable := Unusable(configured, w, m);
        if unusable.Some? then Err(unusable.value)
        else if configured == PRIVATE_KEY_JWT then Ok(TokenEndpointAuth(PRIVATE_KEY_JWT, true))
        else if AnonymousPermitted(m) then Ok(TokenEndpointAuth(NONE, false))
        else if GoAllBlank(w.clientId) then Err(ClientIdNeeded)
        else Ok(TokenEndpointAuth(NONE, true))
  }

  /**
    The metadata filters the configured method and never replaces it; anonymous access decides only
    whether an unauthenticated request carries a client id, and a method is never usable because of it.
   */
  lemma NegotiationSucceedsExactlyWhen(w: ClientAuth, m: Metadata)
    ensures var configured := if w.authMethod == "" then "none" else w.authMethod;
            var alg := if w.signingAlg == "" then "ES256" else w.signingAlg;
            Negotiate(w, Some(m)).Ok? <==>
            && m.authMethods.Some? && configured in m.authMethods.value
            && (|| (configured == "none" && (m.anonymousAccess == Some(true) || !GoAllBlank(w.clientId)))
                || (configured == "private_key_jwt" && !GoAllBlank(w.clientId) && w.key.Some? &&
                    m.signingAlgs.Some? && alg in m.signingAlgs.value))
    ensures Negotiate(w, Some(m)).Ok? ==>
              var auth := Negotiate(w, Some(m)).value;
              && auth.authMethod == (if w.authMethod == "" then "none" else w.authMethod)
              && (auth.sendClientId <==> auth.authMethod == "private_key_jwt" || m.anonymousAccess != Some(true))
              && (auth.sendClientId ==> !GoAllBlank(w.clientId))
  {
  }

  /** Why a negotiation fails: the first of these that holds, in this order. */
  lemma NegotiationErrorExactly(w: ClientAuth, metadata: Option<Metadata>)
    requires Negotiate(w, metadata).Err?
    ensures var error := Negotiate(w, metadata).error;
            var byKey := w.authMethod == "private_key_jwt";
            if metadata.None? then error == NoMetadata
            else if !byKey && w.authMethod != "" && w.authMethod != "none" then error == Unimplemented
            else
              var m := metadata.value;
              if m.authMethods.None? then error == MethodsAbsent
              else if m.authMethods.value == [] then error == MethodsEmpty
              else if byKey && (GoAllBlank(w.clientId) || w.key.None?) then error == CredentialsMissing
              else if (if byKey then "private_key_jwt" else "none") !in m.authMethods.value then error == NotAdvertised
              else if !byKey then error == ClientIdNeeded
              else if m.signingAlgs.None? || m.signingAlgs.value == [] then error == AlgsMissing
              else error == AlgNotAdvertised
  {
  }

  /** `proofIssuer`: the `iss` of the key proof. */
  function ProofIssuer(auth: TokenEndpointAuth, w: ClientAuth): Option<string> {
    if !auth.sendClientId || GoAllBlank(w.clientId) then None else Some(w.clientId)
  }

  // ---------------------------------------------------------------------------------------------
  // The token request
  // ---------------------------------------------------------------------------------------------

  datatype Header = Header(kid: Option<string>, alg: Option<string>)

  /** The claims the server reads; an absent `aud` is an empty list. */
  datatype Claims = Claims(
    iss: Option<string>,
    sub: Option<string>,
    aud: seq<string>,
    iat: Option<int>,
    nbf: Option<int>,
    exp: Option<int>,
    jti: Option<string>)

  /** A compact JWT with the key that signed it, or another form value, with claims when its second part has them. */
  datatype ClientAssertion =
    | Jwt(header: Header, claims: Claims, signer: KeyMaterial)
    | NotJwt(blank: bool, readable: Option<Claims>)

  datatype TokenRequest = TokenRequest(
    preAuthorizedCode: bool,
    clientId: Option<string>,
    assertionType: Option<string>,
    assertion: Option<ClientAssertion>)

  /** What the wallet posts: with an assertion both parameters, otherwise the client id if it is to be sent. */
  function RequestFor(w: ClientAuth, auth: TokenEndpointAuth, assertion: ClientAssertion): TokenRequest {
    var clientId := if auth.sendClientId && !GoAllBlank(w.clientId) then Some(w.clientId) else None;
    if auth.authMethod == PRIVATE_KEY_JWT then TokenRequest(true, clientId, Some(JWT_BEARER), Some(assertion))
    else TokenRequest(true, clientId, None, None)
  }

  /** The wallet only asks for tokens by pre-authorized code; an assertion goes out with its type, or not at all. */
  lemma RequestCarries(w: ClientAuth, auth: TokenEndpointAuth, a: ClientAssertion)
    ensures var r := RequestFor(w, auth, a);
            && r.preAuthorizedCode
            && r.clientId == (if auth.sendClientId && !GoAllBlank(w.clientId) then Some(w.clientId) else None)
            && (auth.authMethod == "private_key_jwt" ==> r.assertionType == Some(JWT_BEARER) && r.assertion == Some(a))
            && (auth.authMethod != "private_key_jwt" ==> r.assertionType == None && r.assertion == None)
  {
  }

  // ---------------------------------------------------------------------------------------------
  // The server's side
  // ---------------------------------------------------------------------------------------------

  datatype Jwk = Jwk(kid: Option<string>, alg: Option<string>, material: KeyMaterial)

  datatype Client = Client(
    clientId: string,
    authMethod: Option<string>,
    signingAlg: Option<string>,
    assertionAudience: Option<string>,
    keys: seq<Jwk>)

  /** Registered clients, stored under their own id. */
  ghost predicate WellKeyed(registry: map<string, Client>) {
    forall id :: id in registry ==> registry[id].clientId == id
  }

  datatype ClientKind = AnonymousClient | DefaultClient

  datatype PolicyContext = PolicyContext(kind: ClientKind, clientId: Option<string>)

  datatype ContextError = AssertionWithoutClient | ClientUnknown | AssertionMissing | MethodNotImplemented

  predicate HasAssertion(r: TokenRequest) {
    r.assertion.Some? && !(r.assertion.value.NotJwt? && r.assertion.value.blank)
  }

  /** The client id an assertion names, when its issuer and subject do not disagree. */
  function AssertionClientId(r: TokenRequest): Option<string> {
    if !HasAssertion(r) then None
    else
      var claims := if r.assertion.value.Jwt? then Some(r.assertion.value.claims) else r.assertion.value.readable;
      match claims
      case None => None
      case Some(c) =>
        var iss, sub := StringValue(c.iss), StringValue(c.sub);
        if iss.Some? && sub.Some? && iss != sub then None else if iss.Some? then iss else sub
  }

  /** `getTokenRequestClientId`. */
  function RequestClientId(r: TokenRequest): Option<string> {
    if StringValue(r.clientId).Some? then StringValue(r.clientId) else AssertionClientId(r)
  }

  function AuthMethodOf(c: Client): string {
    if c.authMethod.Some? then c.authMethod.value else NONE
  }

  predicate HasPrivateKeyJwt(r: TokenRequest) {
    StringValue(r.assertionType) == Some(JWT_BEARER) && HasAssertion(r)
  }

  /** `resolveTokenRequestPolicyClientContext`. */
  function ResolveContext(r: TokenRequest, client: Option<Client>): Result<PolicyContext, ContextError> {
    var clientId := RequestClientId(r);
    if clientId.None? then
      if HasAssertion(r) then Err(AssertionWithoutClient) else Ok(PolicyContext(AnonymousClient, None))
    else if client.None? then Err(ClientUnknown)
    else if AuthMethodOf(client.value) == PRIVATE_KEY_JWT then
      if HasPrivateKeyJwt(r) then Ok(PolicyContext(DefaultClient, clientId)) else Err(AssertionMissing)
    else if AuthMethodOf(client.value) == NONE then Ok(PolicyContext(DefaultClient, clientId))
    else Err(MethodNotImplemented)
  }

  /** Which client a request is from: the body's `client_id`, else what its assertion's issuer and subject agree on. */
  lemma RequestClientIdExactly(r: TokenRequest)
    ensures StringValue(r.clientId).Some? ==> RequestClientId(r) == StringValue(r.clientId)
    ensures StringValue(r.clientId).None? && r.assertion.Some? && r.assertion.value.Jwt? ==>
              var claims := r.assertion.value.claims;
              var iss, sub := StringValue(claims.iss), StringValue(claims.sub);
              RequestClientId(r) ==
                if iss.None? then sub else if sub.None? || sub == iss then iss else None
    ensures StringValue(r.clientId).None? && r.assertion.None? ==> RequestClientId(r) == None
  {
  }

  /** How a request is classed: anonymous, refused, or from the registered client it names. */
  lemma ContextExactly(r: TokenRequest, client: Option<Client>)
    ensures var id := RequestClientId(r);
            var sent := r.assertion.Some? && !(r.assertion.value.NotJwt? && r.assertion.value.blank);
            ResolveContext(r, client) ==
            if id.None? then (if sent then Err(AssertionWithoutClient) else Ok(PolicyContext(AnonymousClient, None)))
            else if client.None? then Err(ClientUnknown)
            else match client.value.authMethod
              case None => Ok(PolicyContext(DefaultClient, id))
              case Some(name) =>
                if name == "none" then Ok(PolicyContext(DefaultClient, id))
                else if name != "private_key_jwt" then Err(MethodNotImplemented)
                else if StringValue(r.assertionType) != Some(JWT_BEARER) || !sent then Err(AssertionMissing)
                else Ok(PolicyContext(DefaultClient, id))
  {
  }

  function ContextOf(r: TokenRequest, registry: map<string, Client>): Result<PolicyContext, ContextError> {
    var clientId := RequestClientId(r);
    ResolveContext(r, if clientId.Some? then Lookup(registry, clientId.value) else None)
  }

  /** The `iss` rule of the key proof for a token from the pre-authorized code flow. */
  predicate ProofIssuerAccepted(iss: Option<string>, clientId: Option<string>) {
    if clientId.None? || clientId.value == "" then iss.None? else iss.Some? ==> iss == clientId
  }

  /** Leaving the issuer out always passes; one that is there must name the token's own client, which then has an id. */
  lemma IssuerAcceptedExactlyWhen(iss: Option<string>, clientId: Option<string>)
    ensures ProofIssuerAccepted(iss, clientId) <==> iss.None? || (iss == clientId && iss.value != "")
  {
  }

  // ---------------------------------------------------------------------------------------------
  // Agreement
  // ---------------------------------------------------------------------------------------------

  /** The assertion names the wallet's client id, as every assertion the wallet builds does. */
  predicate Names(a: ClientAssertion, clientId: string) {
    a.Jwt? && a.claims.iss == Some(clientId) && a.claims.sub == Some(clientId)
  }

  lemma ServerReads(w: ClientAuth, m: Metadata, a: ClientAssertion)
    requires Negotiate(w, Some(m)).Ok? && Names(a, w.clientId)
    ensures var auth := Negotiate(w, Some(m)).value;
            RequestClientId(RequestFor(w, auth, a)) ==
            if auth.sendClientId then StringValue(Some(w.clientId)) else None
  {
  }

  /**
    Once the server resolves a negotiated request, it takes the client for anonymous exactly when no
    client id was sent, exactly when an id that was sent is not blank to it as well.
   */
  lemma AnonymousExactlyWhenNoIdSent(w: ClientAuth, m: Metadata, a: ClientAssertion, registry: map<string, Client>)
    requires Negotiate(w, Some(m)).Ok? && Names(a, w.clientId)
    requires ContextOf(RequestFor(w, Negotiate(w, Some(m)).value, a), registry).Ok?
    ensures var auth := Negotiate(w, Some(m)).value;
            var context := ContextOf(RequestFor(w, auth, a), registry).value;
            (context.kind == AnonymousClient <==> !auth.sendClientId) <==>
            (auth.sendClientId ==> JsTrim(w.clientId) != "")
  {
    ServerReads(w, m, a);
  }

  /**
    The key proof's issuer is then accepted exactly when a client id that was sent has no blanks around
    it: the wallet sends it as configured, and the server remembers it trimmed.
   */
  lemma ProofIssuerAcceptedExactlyWhen(w: ClientAuth, m: Metadata, a: ClientAssertion, registry: map<string, Client>)
    requires Negotiate(w, Some(m)).Ok? && Names(a, w.clientId)
    requires ContextOf(RequestFor(w, Negotiate(w, Some(m)).value, a), registry).Ok?
    ensures var auth := Negotiate(w, Some(m)).value;
            var context := ContextOf(RequestFor(w, auth, a), registry).value;
            ProofIssuerAccepted(ProofIssuer(auth, w), context.clientId) <==>
            (auth.sendClientId ==> JsTrim(w.clientId) == w.clientId)
  {
    ServerReads(w, m, a);
  }

  /** A registration for the wallet's id and method is all it takes for the server to resolve the request. */
  lemma RegisteredMethodIsResolved(w: ClientAuth, m: Metadata, a: ClientAssertion, registry: map<string, Client>)
    requires Negotiate(w, Some(m)).Ok? && Names(a, w.clientId) && JsTrim(w.clientId) == w.clientId
    ensures var auth := Negotiate(w, Some(m)).value;
            ContextOf(RequestFor(w, auth, a), registry).Ok? <==>
            (!auth.sendClientId ||
             (w.clientId in registry && AuthMethodOf(registry[w.clientId]) in {auth.authMethod, NONE}))
  {
    ServerReads(w, m, a);
    TypeIsNotBlank();
  }

  lemma TypeIsNotBlank()
    ensures JsTrim(JWT_BEARER) == JWT_BEARER
  {
    var last := ":jwt-bearer";
    assert JWT_BEARER[0] == 'u';
    assert JWT_BEARER[|JWT_BEARER| - 1] == last[|last| - 1] == 'r';
  }

  /** A client id with a blank around it negotiates well and then loses its key proofs. */
  lemma PaddedClientIdLosesItsProofs()
    ensures var w := ClientAuth(NONE, " wallet", None, "", "");
            var m := Metadata("as", None, Some([NONE]), None, None);
            var registry := map["wallet" := Client("wallet", None, None, None, [])];
            var auth := Negotiate(w, Some(m));
            && auth == Ok(TokenEndpointAuth(NONE, true))
            && (forall a ::
                  ContextOf(RequestFor(w, auth.value, a), registry) == Ok(PolicyContext(DefaultClient, Some("wallet"))))
            && !ProofIssuerAccepted(ProofIssuer(auth.value, w), Some("wallet"))
  {
    var id := " wallet";
    assert id[1] == 'w' && !GoBlank(id[1]);
    assert id[1..] == "wallet";
    assert JsTrimRight("wallet") == "wallet" by { assert "wallet"[5] == 't'; }
    assert JsTrim("wallet") == "wallet" by { assert "wallet"[0] == 'w'; }
    assert JsTrim(id) == "wallet";
  }

  /** The one mark that is blank to JavaScript only: the wallet sends it as a client id, the server sees no client. */
  lemma ByteOrderMarkIsAnonymous()
    ensures var w := ClientAuth(NONE, ['\U{FEFF}'], None, "", "");
            var m := Metadata("as", None, Some([NONE]), None, None);
            var auth := Negotiate(w, Some(m));
            && auth == Ok(TokenEndpointAuth(NONE, true))
            && (forall a, registry ::
                  ContextOf(RequestFor(w, auth.value, a), registry) == Ok(PolicyContext(AnonymousClient, None)))
            && !ProofIssuerAccepted(ProofIssuer(auth.value, w), None)
  {
    var id := ['\U{FEFF}'];
    assert !GoBlank(id[0]) && JsBlank(id[0]);
    assert id[1..] == "";
    assert JsTrim(id) == "";
  }
}
