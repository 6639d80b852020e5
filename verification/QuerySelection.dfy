/**
  Which Credential Query the wallet answers. A response carries one credential for now, so the choice
  falls on a held query that answers the whole request by itself.
 */
module QuerySelection {
  import opened Prelude
  import opened Dcql
  import PresentationCheck

  datatype SelectError = AccessDenied | Unsupported

  /** The query an id names in the map by id: the last one. */
  function ById(queries: seq<CredentialQuery>, id: string): (q: Option<CredentialQuery>)
    ensures q.Some? ==> q.value in queries && q.value.id == id
    ensures q.None? ==> forall i :: 0 <= i < |queries| ==> queries[i].id != id
  {
    if queries == [] then None
    else if queries[|queries| - 1].id == id then Some(queries[|queries| - 1])
    else ById(queries[..|queries| - 1], id)
  }

  predicate Satisfiable(queries: seq<CredentialQuery>, held: CredentialQuery -> bool, ids: seq<string>) {
    forall i | 0 <= i < |ids| :: ById(queries, ids[i]).Some? && held(ById(queries, ids[i]).value)
  }

  predicate SomeOptionSatisfiable(queries: seq<CredentialQuery>, held: CredentialQuery -> bool, set_: CredentialSet) {
    exists i :: 0 <= i < |set_.options| && Satisfiable(queries, held, set_.options[i])
  }

  /** One of the options asks for nothing but this id. */
  predicate AnswersAlone(set_: CredentialSet, id: string) {
    exists i :: 0 <= i < |set_.options| && set_.options[i] != [] && OnlyAsks(set_.options[i], id)
  }

  predicate OnlyAsks(option: seq<string>, id: string) {
    forall i | 0 <= i < |option| :: option[i] == id
  }

  function SetsOf(query: Query): seq<CredentialSet> {
    match query.sets
    case None => []
    case Some(sets) => sets
  }

  predicate AnswersEverySet(query: Query, id: string) {
    var sets := SetsOf(query);
    && (forall i | 0 <= i < |sets| :: AnswersAlone(sets[i], id) || Optional(sets[i]))
    && exists i :: 0 <= i < |sets| && AnswersAlone(sets[i], id)
  }

  /** A credential for this query alone is a whole answer, as far as the wallet is concerned. */
  predicate AnswersRequest(query: Query, k: nat)
    requires k < |query.credentials|
  {
    if SetsOf(query) == [] then |query.credentials| == 1
    else AnswersEverySet(query, query.credentials[k].id)
  }

  predicate Selectable(query: Query, held: CredentialQuery -> bool, k: nat)
    requires k < |query.credentials|
  {
    held(query.credentials[k]) && AnswersRequest(query, k)
  }

  /** Nothing can be answered because something the verifier insists on is not held. */
  ghost predicate LacksSomethingRequired(query: Query, held: CredentialQuery -> bool) {
    var sets := SetsOf(query);
    if sets == [] then exists i :: 0 <= i < |query.credentials| && !held(query.credentials[i])
    else
      || (exists i :: 0 <= i < |sets| && !Optional(sets[i]) && !SomeOptionSatisfiable(query.credentials, held, sets[i]))
      || (forall i :: 0 <= i < |sets| ==> Optional(sets[i]) && !SomeOptionSatisfiable(query.credentials, held, sets[i]))
  }

  /** `singleCredentialAnswer`: the first held query, in the request's order, that answers every set. */
  method SingleCredentialAnswer(query: Query, held: CredentialQuery -> bool) returns (k: Option<nat>)
    requires SetsOf(query) != []
    ensures k.Some? ==> k.value < |query.credentials| && Selectable(query, held, k.value) &&
                        forall j :: 0 <= j < k.value ==> !Selectable(query, held, j)
    ensures k.None? ==> forall j :: 0 <= j < |query.credentials| ==> !Selectable(query, held, j)
  {
    var sets := SetsOf(query);
    for i := 0 to |query.credentials|
      invariant forall j :: 0 <= j < i ==> !Selectable(query, held, j)
    {
      var q := query.credentials[i];
      if !held(q) {
        continue;
      }
      var answersAll, offered := true, false;
      for j := 0 to |sets|
        invariant answersAll
        invariant forall m | 0 <= m < j :: AnswersAlone(sets[m], q.id) || Optional(sets[m])
        invariant offered <==> exists m :: 0 <= m < j && AnswersAlone(sets[m], q.id)
      {
        if AnswersAlone(sets[j], q.id) {
          offered := true;
        } else if !Optional(sets[j]) {
          answersAll := false;
          break;
        }
      }
      if answersAll && offered {
        return Some(i);
      }
    }
    k := None;
  }

  /** `SelectCredentialQuery`, by index; with distinct ids the map by id gives that query back. */
  method SelectCredentialQuery(query: Query, held: CredentialQuery -> bool) returns (r: Result<nat, SelectError>)
    requires query.credentials != [] && DistinctIds(query)
    ensures r.Ok? ==> r.value < |query.credentials| && Selectable(query, held, r.value) &&
                      forall j :: 0 <= j < r.value ==> !Selectable(query, held, j)
    ensures r.Err? ==> forall j :: 0 <= j < |query.credentials| ==> !Selectable(query, held, j)
    ensures r.Err? ==> (r.error.AccessDenied? <==> LacksSomethingRequired(query, held))
  {
    var sets := SetsOf(query);
    if |sets| == 0 {
      var ids := seq(|query.credentials|, i requires 0 <= i < |query.credentials| => query.credentials[i].id);
      EveryIdSatisfiable(query, held, ids);
      if !Satisfiable(query.credentials, held, ids) {
        return Err(AccessDenied);
      }
      if |ids| != 1 {
        return Err(Unsupported);
      }
      return Ok(0);
    }
    var single := SingleCredentialAnswer(query, held);
    if single.Some? {
      return Ok(single.value);
    }
    var anyRequired := false;
    for i := 0 to |sets|
      invariant anyRequired <==> exists j :: 0 <= j < i && !Optional(sets[j])
      invariant forall j :: 0 <= j < i ==> Optional(sets[j]) || SomeOptionSatisfiable(query.credentials, held, sets[j])
    {
      if Optional(sets[i]) {
        continue;
      }
      anyRequired := true;
      if !SomeOptionSatisfiable(query.credentials, held, sets[i]) {
        return Err(AccessDenied);
      }
    }
    if !anyRequired && !exists i | 0 <= i < |sets| :: SomeOptionSatisfiable(query.credentials, held, sets[i]) {
      return Err(AccessDenied);
    }
    r := Err(Unsupported);
  }

  lemma {:induction false} ByIdOfItsOwn(queries: seq<CredentialQuery>, k: nat)
    requires k < |queries|
    requires forall i, j :: 0 <= i < j < |queries| ==> queries[i].id != queries[j].id
    ensures ById(queries, queries[k].id) == Some(queries[k])
  {
    if k < |queries| - 1 {
      ByIdOfItsOwn(queries[..|queries| - 1], k);
    }
  }

  lemma EveryIdSatisfiable(query: Query, held: CredentialQuery -> bool, ids: seq<string>)
    requires DistinctIds(query) && |ids| == |query.credentials|
    requires forall i :: 0 <= i < |ids| ==> ids[i] == query.credentials[i].id
    ensures Satisfiable(query.credentials, held, ids) <==>
            forall i :: 0 <= i < |query.credentials| ==> held(query.credentials[i])
  {
    forall i | 0 <= i < |ids| ensures ById(query.credentials, ids[i]) == Some(query.credentials[i]) {
      ByIdOfItsOwn(query.credentials, i);
    }
    if forall i :: 0 <= i < |query.credentials| ==> held(query.credentials[i]) {
      forall i | 0 <= i < |ids| ensures held(ById(query.credentials, ids[i]).value) {}
    }
    if Satisfiable(query.credentials, held, ids) {
      forall i | 0 <= i < |query.credentials| ensures held(query.credentials[i]) {
        assert held(ById(query.credentials, ids[i]).value);
      }
    }
  }

  /** The id of a query of the request that the wallet holds something for. */
  ghost predicate IsHeldId(query: Query, held: CredentialQuery -> bool, id: string) {
    exists k :: 0 <= k < |query.credentials| && query.credentials[k].id == id && held(query.credentials[k])
  }

  lemma HeldIdByMap(query: Query, held: CredentialQuery -> bool, id: string)
    requires DistinctIds(query)
    ensures IsHeldId(query, held, id) <==> ById(query.credentials, id).Some? && held(ById(query.credentials, id).value)
  {
    forall k | 0 <= k < |query.credentials| && query.credentials[k].id == id
      ensures ById(query.credentials, id) == Some(query.credentials[k])
    {
      ByIdOfItsOwn(query.credentials, k);
    }
  }

  /** A query answers a set alone when one of the options names it, and nothing else. */
  lemma AnswersAloneExactlyWhen(set_: CredentialSet, id: string)
    ensures AnswersAlone(set_, id) <==>
            exists i :: 0 <= i < |set_.options| && |set_.options[i]| > 0 && NamesOnly(set_.options[i], id)
  {
  }

  /** Every member of the option is this id. */
  ghost predicate NamesOnly(option: seq<string>, id: string) {
    forall i :: 0 <= i < |option| ==> option[i] == id
  }

  /** A query answers the request alone: the only one without sets; with sets, each required one and some one. */
  lemma AnswersRequestExactlyWhen(query: Query, k: nat)
    requires k < |query.credentials|
    ensures query.sets.None? || query.sets.value == [] ==> (AnswersRequest(query, k) <==> |query.credentials| == 1)
    ensures query.sets.Some? && query.sets.value != [] ==>
              var sets, id := query.sets.value, query.credentials[k].id;
              (AnswersRequest(query, k) <==>
               && (forall i :: 0 <= i < |sets| ==> AnswersAlone(sets[i], id) || sets[i].required == Some(false))
               && (exists i :: 0 <= i < |sets| && AnswersAlone(sets[i], id)))
  {
  }

  /** An option is satisfiable exactly when all its ids are held. */
  lemma SatisfiableExactlyWhen(query: Query, held: CredentialQuery -> bool, ids: seq<string>)
    requires DistinctIds(query)
    ensures Satisfiable(query.credentials, held, ids) <==> forall i :: 0 <= i < |ids| ==> IsHeldId(query, held, ids[i])
  {
    forall i | 0 <= i < |ids|
      ensures IsHeldId(query, held, ids[i]) <==>
              ById(query.credentials, ids[i]).Some? && held(ById(query.credentials, ids[i]).value)
    {
      HeldIdByMap(query, held, ids[i]);
    }
    if forall i :: 0 <= i < |ids| ==> IsHeldId(query, held, ids[i]) {
      forall i | 0 <= i < |ids|
        ensures ById(query.credentials, ids[i]).Some? && held(ById(query.credentials, ids[i]).value)
      {
        assert IsHeldId(query, held, ids[i]);
      }
    }
  }

  // ---------------------------------------------------------------------------------------------
  // Agreement with the verifier
  // ---------------------------------------------------------------------------------------------

  /** What the wallet's parser guarantees: ids are distinct, and sets and options are not empty. */
  ghost predicate WellFormed(query: Query) {
    && query.credentials != [] && DistinctIds(query)
    && (query.sets.Some? ==> query.sets.value != [])
    && forall s, o :: s in SetsOf(query) && o in s.options ==> o != []
  }

  lemma AloneIsSatisfied(set_: CredentialSet, id: string)
    requires forall o :: o in set_.options ==> o != []
    ensures AnswersAlone(set_, id) <==> SetSatisfied(set_, {id})
  {
    forall i | 0 <= i < |set_.options|
      ensures set_.options[i] != [] && (OnlyAsks(set_.options[i], id) <==> WhollyIn(set_.options[i], {id}))
    {
      assert set_.options[i] in set_.options;
    }
  }

  /**
    The wallet takes a query for a whole answer exactly when the verifier's coverage check passes for
    that id alone and, when there are sets, some set can be answered with it alone.
   */
  lemma AnswersExactlyWhenCovered(query: Query, k: nat)
    requires WellFormed(query) && k < |query.credentials|
    ensures AnswersRequest(query, k) <==>
            && Covered(query, {query.credentials[k].id})
            && (query.sets.Some? ==>
                  exists i :: 0 <= i < |SetsOf(query)| && SetSatisfied(SetsOf(query)[i], {query.credentials[k].id}))
  {
    var id := query.credentials[k].id;
    var sets := SetsOf(query);
    if sets == [] {
      if |query.credentials| == 1 {
        assert k == 0;
      } else {
        assert query.credentials[0].id != query.credentials[1].id;
      }
    } else {
      forall i | 0 <= i < |sets| ensures AnswersAlone(sets[i], id) <==> SetSatisfied(sets[i], {id}) {
        assert sets[i] in sets;
        AloneIsSatisfied(sets[i], id);
      }
    }
  }

  /** With something required, the verifier's coverage check alone decides. */
  lemma RequiredSetDecides(query: Query, k: nat)
    requires WellFormed(query) && k < |query.credentials|
    requires exists i :: 0 <= i < |SetsOf(query)| && !Optional(SetsOf(query)[i])
    ensures AnswersRequest(query, k) <==> Covered(query, {query.credentials[k].id})
  {
    AnswersExactlyWhenCovered(query, k);
  }

  /**
    A response with one presentation under the selected id is accepted exactly when that presentation
    stands: the wallet's choice of query never makes the verifier refuse a response as incomplete.
   */
  lemma SelectedAnswerIsComplete(p: PresentationCheck.Providers, tx: PresentationCheck.Transaction, k: nat,
                                 presentation: PresentationCheck.Presentation)
    requires WellFormed(tx.query) && k < |tx.query.credentials| && AnswersRequest(tx.query, k)
    ensures var answer := PresentationCheck.Answer(tx.query.credentials[k].id, [presentation]);
            PresentationCheck.Accepted(p, tx, [answer]) <==> PresentationCheck.Stands(p, tx, answer)
  {
    var answer := PresentationCheck.Answer(tx.query.credentials[k].id, [presentation]);
    AnswersExactlyWhenCovered(tx.query, k);
    assert PresentationCheck.Ids([answer]) == {answer.id} by {
      assert [answer][0].id in PresentationCheck.Ids([answer]);
    }
  }
}
