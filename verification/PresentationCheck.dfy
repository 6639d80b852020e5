/**
  `verifyPresentations`: the loops that decide whether a response answers the transaction's query.
  What one presentation must satisfy is the format provider's knowledge and comes in as a function.
 */
module PresentationCheck {
  import opened Prelude
  import opened Dcql

  datatype Presentation = Text(text: string) | Object

  /** One member of `vp_token`: a Credential Query id and its presentations. */
  datatype Answer = Answer(id: string, presentations: seq<Presentation>)

  datatype Payload = Payload(text: string)

  /** What the provider is told to expect. Only SD-JWT providers are told which claims to look for. */
  datatype Expectation = Expectation(format: string, disclosures: seq<string>, audience: string, nonce: string)

  /** The registered format providers, by key, and what each makes of a presentation. */
  datatype Providers = Providers(keys: set<string>, verify: (string, string, Expectation) -> Option<Payload>)

  datatype Fault =
    | UnknownQuery(id: string)
    | NoPresentation(id: string)
    | UnsupportedFormat(format: string)
    | NotText
    | DoesNotVerify
    | Unanswered(id: string)
    | NoOptionAnswered(set_: CredentialSet)

  datatype Transaction = Transaction(query: Query, audience: string, nonce: string)

  /** The credential query an id names when the queries are put in a map: the last one wins. */
  function FormatOf(queries: seq<CredentialQuery>, id: string): (format: Option<string>)
    ensures format.Some? <==> exists i :: 0 <= i < |queries| && queries[i].id == id
  {
    if queries == [] then None
    else if queries[|queries| - 1].id == id then Some(queries[|queries| - 1].format)
    else FormatOf(queries[..|queries| - 1], id)
  }

  /** The query `find` returns: the first with the id. */
  function FindQuery(queries: seq<CredentialQuery>, id: string): Option<CredentialQuery> {
    if queries == [] then None
    else if queries[0].id == id then Some(queries[0])
    else FindQuery(queries[1..], id)
  }

  function Dotted(path: seq<PathElement>): string
    requires forall i | 0 <= i < |path| :: path[i].Key?
  {
    if path == [] then ""
    else if |path| == 1 then path[0].name
    else path[0].name + "." + Dotted(path[1..])
  }

  /** Claims whose path is all names; null and array positions are skipped. */
  function SpecifiedDisclosures(claims: seq<seq<PathElement>>): seq<string> {
    if claims == [] then []
    else
      (if forall i | 0 <= i < |claims[0]| :: claims[0][i].Key? then [Dotted(claims[0])] else []) +
      SpecifiedDisclosures(claims[1..])
  }

  function ProviderKey(format: string): string {
    if format == "jwt_vc_json" then "jwt_vp_json" else format
  }

  function ExpectationFor(tx: Transaction, format: string, id: string): Expectation {
    var claims := match FindQuery(tx.query.credentials, id) case Some(q) => q.claims case None => [];
    if format == "dc+sd-jwt" then Expectation("dc+sd-jwt", SpecifiedDisclosures(claims), tx.audience, tx.nonce)
    else Expectation("jwt_vp_json", [], tx.audience, tx.nonce)
  }

  /** What the transaction's query asks of the answers under an id, if the id is known. */
  predicate Known(tx: Transaction, id: string) {
    var format := FormatOf(tx.query.credentials, id);
    format.Some? && format.value != ""
  }

  function PayloadOf(p: Providers, tx: Transaction, id: string, presentation: Presentation): Option<Payload>
    requires Known(tx, id)
  {
    var format := FormatOf(tx.query.credentials, id).value;
    if presentation.Text?
    then p.verify(ProviderKey(format), presentation.text, ExpectationFor(tx, format, id))
    else None
  }

  /** One answer is good: a known query, a provider for it, at least one presentation, and all of them verify. */
  predicate Stands(p: Providers, tx: Transaction, answer: Answer) {
    && Known(tx, answer.id)
    && answer.presentations != []
    && ProviderKey(FormatOf(tx.query.credentials, answer.id).value) in p.keys
    && forall i | 0 <= i < |answer.presentations| :: PayloadOf(p, tx, answer.id, answer.presentations[i]).Some?
  }

  ghost predicate Holds(p: Providers, tx: Transaction, answer: Answer, payloads: seq<Payload>)
    requires Stands(p, tx, answer)
  {
    && |payloads| == |answer.presentations|
    && forall i :: 0 <= i < |payloads| ==>
         Some(payloads[i]) == PayloadOf(p, tx, answer.id, answer.presentations[i])
  }

  ghost function Ids(answers: seq<Answer>): (ids: set<string>) {
    set i | 0 <= i < |answers| :: answers[i].id
  }

  /** A response that answers the query: every answer stands, and the answered ids cover the query. */
  ghost predicate Accepted(p: Providers, tx: Transaction, response: seq<Answer>) {
    && (forall i :: 0 <= i < |response| ==> Stands(p, tx, response[i]))
    && Covered(tx.query, Ids(response))
  }

  /** What is wrong with an answer that does not stand, when that is what gets reported. */
  ghost predicate Blames(p: Providers, tx: Transaction, answer: Answer, fault: Fault) {
    var format := FormatOf(tx.query.credentials, answer.id);
    match fault
    case UnknownQuery(id) => id == answer.id && !Known(tx, id)
    case NoPresentation(id) => id == answer.id && Known(tx, id) && answer.presentations == []
    case UnsupportedFormat(f) => Known(tx, answer.id) && format == Some(f) && ProviderKey(f) !in p.keys
    case NotText => exists i :: 0 <= i < |answer.presentations| && answer.presentations[i].Object?
    case DoesNotVerify =>
      Known(tx, answer.id) &&
      exists i :: 0 <= i < |answer.presentations| && answer.presentations[i].Text? &&
        PayloadOf(p, tx, answer.id, answer.presentations[i]).None?
    case Unanswered(_) => false
    case NoOptionAnswered(_) => false
  }

  method VerifyAnswer(p: Providers, tx: Transaction, answer: Answer) returns (r: Result<seq<Payload>, Fault>)
    ensures r.Ok? <==> Stands(p, tx, answer)
    ensures r.Ok? ==> Holds(p, tx, answer, r.value)
    ensures r.Err? ==> Blames(p, tx, answer, r.error)
  {
    var format := FormatOf(tx.query.credentials, answer.id);
    if format.None? || format.value == "" {
      return Err(UnknownQuery(answer.id));
    }
    if |answer.presentations| == 0 {
      return Err(NoPresentation(answer.id));
    }
    if ProviderKey(format.value) !in p.keys {
      return Err(UnsupportedFormat(format.value));
    }
    var expectation := ExpectationFor(tx, format.value, answer.id);
    var payloads := [];
    for i := 0 to |answer.presentations|
      invariant |payloads| == i
      invariant forall j :: 0 <= j < i ==> Some(payloads[j]) == PayloadOf(p, tx, answer.id, answer.presentations[j])
    {
      var presentation := answer.presentations[i];
      if presentation.Object? {
        return Err(NotText);
      }
      var payload := p.verify(ProviderKey(format.value), presentation.text, expectation);
      if payload.None? {
        return Err(DoesNotVerify);
      }
      payloads := payloads + [payload.value];
    }
    r := Ok(payloads);
  }

  method CheckCoverage(query: Query, presented: set<string>) returns (fault: Option<Fault>)
    ensures fault.None? <==> Covered(query, presented)
    ensures fault.Some? ==>
              match fault.value
              case Unanswered(id) =>
                && query.sets.None? && id !in presented
                && exists i :: 0 <= i < |query.credentials| && query.credentials[i].id == id
              case NoOptionAnswered(s) =>
                query.sets.Some? && s in query.sets.value && !Optional(s) && !SetSatisfied(s, presented)
              case _ => false
  {
    if query.sets.None? {
      for i := 0 to |query.credentials|
        invariant forall j | 0 <= j < i :: query.credentials[j].id in presented
      {
        if query.credentials[i].id !in presented {
          return Some(Unanswered(query.credentials[i].id));
        }
      }
    } else {
      var sets := query.sets.value;
      for i := 0 to |sets|
        invariant forall j | 0 <= j < i :: Optional(sets[j]) || SetSatisfied(sets[j], presented)
      {
        if Optional(sets[i]) {
          continue;
        }
        if !SetSatisfied(sets[i], presented) {
          return Some(NoOptionAnswered(sets[i]));
        }
      }
    }
    fault := None;
  }

  /**
    The loops pass exactly when every answer stands and the answered ids cover the query; the result
    then holds the payloads of exactly the answered ids, in order. Otherwise the first answer that
    does not stand is blamed, and coverage only when all of them stand.
   */
  method VerifyPresentations(p: Providers, tx: Transaction, response: seq<Answer>)
    returns (r: Result<map<string, seq<Payload>>, Fault>)
    requires forall i, j | 0 <= i < j < |response| :: response[i].id != response[j].id
    ensures r.Ok? <==> Accepted(p, tx, response)
    ensures r.Ok? ==> r.value.Keys == Ids(response)
    ensures r.Ok? ==> forall i :: 0 <= i < |response| ==> Holds(p, tx, response[i], r.value[response[i].id])
    ensures r.Err? ==>
              || (exists i :: 0 <= i < |response| && Blames(p, tx, response[i], r.error) &&
                    forall j :: 0 <= j < i ==> Stands(p, tx, response[j]))
              || ((r.error.Unanswered? || r.error.NoOptionAnswered?) &&
                  forall i :: 0 <= i < |response| ==> Stands(p, tx, response[i]))
  {
    var results: map<string, seq<Payload>> := map[];
    for i := 0 to |response|
      invariant forall j :: 0 <= j < i ==>
                  Stands(p, tx, response[j]) && response[j].id in results &&
                  Holds(p, tx, response[j], results[response[j].id])
      invariant results.Keys == Ids(response[..i])
    {
      var verdict := VerifyAnswer(p, tx, response[i]);
      if verdict.Err? {
        return Err(verdict.error);
      }
      results := results[response[i].id := verdict.value];
      IdsOneMore(response, i);
    }
    assert response[..|response|] == response;
    var fault := CheckCoverage(tx.query, results.Keys);
    if fault.Some? {
      return Err(fault.value);
    }
    r := Ok(results);
  }

  lemma IdsOneMore(answers: seq<Answer>, i: nat)
    requires i < |answers|
    ensures Ids(answers[..i + 1]) == Ids(answers[..i]) + {answers[i].id}
  {
    var more := answers[..i + 1];
    assert more[i] == answers[i] && forall j | 0 <= j < i :: more[j] == answers[..i][j];
    assert forall j | 0 <= j < i :: answers[..i][j].id in Ids(more);
    assert more[i].id in Ids(more);
  }

  // ---------------------------------------------------------------------------------------------
  // What a provider is told
  // ---------------------------------------------------------------------------------------------

  /** A claim path of names only. */
  predicate NamesOnly(path: seq<PathElement>) {
    forall i | 0 <= i < |path| :: path[i].Key?
  }

  /** Names with dots between them. */
  lemma {:induction false} DottedGrows(path: seq<PathElement>, last: PathElement)
    requires NamesOnly(path) && last.Key?
    ensures Dotted([]) == ""
    ensures Dotted(path + [last]) == if path == [] then last.name else Dotted(path) + "." + last.name
  {
    var longer := path + [last];
    if path == [] {
      assert longer == [last];
    } else {
      DottedGrows(path[1..], last);
      assert longer[1..] == path[1..] + [last];
    }
  }

  /** The claims named to a provider are those of the paths of names only, in the query's order. */
  lemma {:induction false} DisclosuresGrow(claims: seq<seq<PathElement>>, last: seq<PathElement>)
    ensures SpecifiedDisclosures([]) == []
    ensures SpecifiedDisclosures(claims + [last]) ==
            SpecifiedDisclosures(claims) + if NamesOnly(last) then [Dotted(last)] else []
  {
    var longer := claims + [last];
    if claims == [] {
      assert longer == [last] && longer[1..] == [];
    } else {
      DisclosuresGrow(claims[1..], last);
      assert longer[1..] == claims[1..] + [last];
    }
  }

  /** The first query with an id is what `find` gives, and the last one is what a map by id keeps. */
  lemma {:induction false} FirstWithId(queries: seq<CredentialQuery>, id: string, i: nat)
    requires i < |queries| && queries[i].id == id && forall j :: 0 <= j < i ==> queries[j].id != id
    ensures FindQuery(queries, id) == Some(queries[i])
  {
    if i > 0 {
      FirstWithId(queries[1..], id, i - 1);
    }
  }

  lemma {:induction false} LastWithId(queries: seq<CredentialQuery>, id: string, i: nat)
    requires i < |queries| && queries[i].id == id && forall j :: i < j < |queries| ==> queries[j].id != id
    ensures FormatOf(queries, id) == Some(queries[i].format)
  {
    if i + 1 < |queries| {
      LastWithId(queries[..|queries| - 1], id, i);
    }
  }

  /**
    For a query of its own id, a presentation is checked by the provider of its format, against the
    transaction's audience and nonce, and for SD-JWT against the claims the query names.
   */
  lemma ProviderIsToldExactly(p: Providers, tx: Transaction, i: nat, text: string)
    requires DistinctIds(tx.query) && i < |tx.query.credentials|
    requires tx.query.credentials[i].format != ""
    ensures var q := tx.query.credentials[i];
            && Known(tx, q.id)
            && PayloadOf(p, tx, q.id, Text(text)) ==
               p.verify(
                 if q.format == "jwt_vc_json" then "jwt_vp_json" else q.format,
                 text,
                 if q.format == "dc+sd-jwt"
                 then Expectation("dc+sd-jwt", SpecifiedDisclosures(q.claims), tx.audience, tx.nonce)
                 else Expectation("jwt_vp_json", [], tx.audience, tx.nonce))
            && PayloadOf(p, tx, q.id, Object) == None
  {
    FirstWithId(tx.query.credentials, tx.query.credentials[i].id, i);
    LastWithId(tx.query.credentials, tx.query.credentials[i].id, i);
  }

  /** Which answers stand, for a request with distinct ids. */
  lemma StandsExactlyWhen(p: Providers, tx: Transaction, answer: Answer)
    requires DistinctIds(tx.query)
    ensures Stands(p, tx, answer) <==>
            exists i :: 0 <= i < |tx.query.credentials| && AnswersQuery(p, tx, answer, i)
  {
    forall i | 0 <= i < |tx.query.credentials| && tx.query.credentials[i].id == answer.id
      ensures FormatOf(tx.query.credentials, answer.id) == Some(tx.query.credentials[i].format)
    {
      LastWithId(tx.query.credentials, answer.id, i);
    }
    if Stands(p, tx, answer) {
      var i :| 0 <= i < |tx.query.credentials| && tx.query.credentials[i].id == answer.id;
      assert AnswersQuery(p, tx, answer, i);
    }
  }

  ghost predicate AnswersQuery(p: Providers, tx: Transaction, answer: Answer, i: nat)
    requires i < |tx.query.credentials|
  {
    var q := tx.query.credentials[i];
    && q.id == answer.id && q.format != ""
    && (if q.format == "jwt_vc_json" then "jwt_vp_json" else q.format) in p.keys
    && answer.presentations != []
    && Known(tx, answer.id)
    && forall j :: 0 <= j < |answer.presentations| ==> PayloadOf(p, tx, answer.id, answer.presentations[j]).Some?
  }
}
