/**
  The Digital Credentials Query Language as both ends read it (OpenID4VP 1.0 section 6): the wallet
  picks a Credential Query to answer, the verifier decides whether the answers cover the request.
 */
module Dcql {
  import opened Prelude

  datatype PathElement = Key(name: string) | Position(index: nat) | Wildcard

  /** `meta.vct_values`: absent, of the wrong type, or an array whose strings are listed. */
  datatype VctValues = Unconstrained | NotAnArray | OneOf(values: seq<string>)

  datatype CredentialQuery = CredentialQuery(
    id: string,
    format: string,
    vctValues: VctValues,
    claims: seq<seq<PathElement>>)

  datatype CredentialSet = CredentialSet(options: seq<seq<string>>, required: Option<bool>)

  datatype Query = Query(credentials: seq<CredentialQuery>, sets: Option<seq<CredentialSet>>)

  predicate Optional(set_: CredentialSet) {
    set_.required == Some(false)
  }

  predicate WhollyIn(option: seq<string>, ids: set<string>) {
    forall i | 0 <= i < |option| :: option[i] in ids
  }

  predicate SetSatisfied(set_: CredentialSet, ids: set<string>) {
    exists i :: 0 <= i < |set_.options| && WhollyIn(set_.options[i], ids)
  }

  /** Answers with these ids are a complete response (section 6.4.2). */
  predicate Covered(query: Query, ids: set<string>) {
    match query.sets
    case None => forall i | 0 <= i < |query.credentials| :: query.credentials[i].id in ids
    case Some(sets) => forall i | 0 <= i < |sets| :: Optional(sets[i]) || SetSatisfied(sets[i], ids)
  }

  /** Without sets every query is answered; with sets each one not marked optional has an option wholly answered. */
  lemma CoveredExactlyWhen(query: Query, ids: set<string>)
    ensures query.sets.None? ==>
              (Covered(query, ids) <==> forall q :: q in query.credentials ==> q.id in ids)
    ensures query.sets.Some? ==>
              (Covered(query, ids) <==>
               forall s :: s in query.sets.value && s.required != Some(false) ==>
                 exists o :: o in s.options && forall id :: id in o ==> id in ids)
  {
    if query.sets.Some? {
      forall s | s in query.sets.value
        ensures SetSatisfied(s, ids) <==> exists o :: o in s.options && forall id :: id in o ==> id in ids
      {
        SatisfiedExactlyWhen(s, ids);
      }
    }
  }

  lemma SatisfiedExactlyWhen(set_: CredentialSet, ids: set<string>)
    ensures SetSatisfied(set_, ids) <==> exists o :: o in set_.options && forall id :: id in o ==> id in ids
  {
    forall i | 0 <= i < |set_.options|
      ensures WhollyIn(set_.options[i], ids) <==> forall id :: id in set_.options[i] ==> id in ids
    {
    }
    forall o | o in set_.options && (forall id :: id in o ==> id in ids) ensures SetSatisfied(set_, ids) {
      var i :| 0 <= i < |set_.options| && set_.options[i] == o;
      assert WhollyIn(set_.options[i], ids);
    }
    if SetSatisfied(set_, ids) {
      var i :| 0 <= i < |set_.options| && WhollyIn(set_.options[i], ids);
      assert set_.options[i] in set_.options;
    }
  }

  ghost predicate DistinctIds(query: Query) {
    forall i, j :: 0 <= i < j < |query.credentials| ==> query.credentials[i].id != query.credentials[j].id
  }
}
