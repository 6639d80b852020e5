/**
  The wallet's search for a credential to present: it takes the Credential Query that answers the
  request, tries its credentials newest first, and sets the query aside when none of them can disclose
  the requested claims, until one can or no query is left.
 */
module PresentationSearch {
  import opened Prelude
  import opened Dcql
  import opened HeldCredentials
  import opened QuerySelection

  /** What serializing one credential for one query comes to. */
  datatype Attempt = Serialized(bytes: string) | Unsatisfiable(why: string) | Broken(why: string)

  datatype Reason =
    | Denied(why: string)
    | TransactionDataRefused
    | TooManyCredentials

  /** What trying the candidates of one query came to. */
  datatype Tried = Ended(outcome: Outcome) | PutAside(reason: Reason)

  datatype Outcome =
    | Presented(redirect: string)
    | Refused(reason: Reason)
    | Stopped

  /** What reaches the verifier. A denial goes out without its reason (OpenID4VP 1.0 section 15.9). */
  datatype Message =
    | Presentation(queryId: string, bytes: string)
    | Denial
    | TransactionDataError

  datatype Request = Request(
    query: Query,
    transactionData: seq<Option<seq<string>>>,
    hashable: bool,
    directPost: bool)

  /** The wallet's surroundings, fixed for one search. */
  datatype World = World(
    entries: Option<seq<Saved>>,
    serialize: (string, CredentialQuery) -> Attempt,
    deliver: (string, string) -> Option<string>,
    defaultOptions: set<Flavor>,
    callerOptions: bool,
    canBuild: bool)

  const NOTHING_HELD := "the wallet does not hold what the request asks for"

  /** The flavor of a credential that matches some query. */
  function FlavorOf(e: Saved): (f: Flavor)
    requires e.Held? && e.flavor.Some?
  {
    e.flavor.value
  }

  /** `CheckTransactionDataFor`: every entry decodes and names the query. */
  predicate References(r: Request, id: string) {
    forall i | 0 <= i < |r.transactionData| :: r.transactionData[i].Some? && id in r.transactionData[i].value
  }

  // ---------------------------------------------------------------------------------------------
  // What the search should come to
  // ---------------------------------------------------------------------------------------------

  ghost function CandidatesAt(w: World, r: Request, k: nat): seq<Saved>
    requires w.entries.Some? && k < |r.query.credentials|
  {
    Candidates(w.entries.value, r.query.credentials[k])
  }

  /** A held query that answers the request. */
  ghost predicate Eligible(w: World, r: Request, k: nat)
    requires w.entries.Some?
  {
    k < |r.query.credentials| && CandidatesAt(w, r, k) != [] && AnswersRequest(r.query, k)
  }

  ghost predicate CanTry(w: World, flavor: Flavor) {
    (w.callerOptions || flavor in w.defaultOptions) && w.canBuild
  }

  ghost predicate NoneDiscloses(w: World, candidates: seq<Saved>, q: CredentialQuery) {
    forall i :: 0 <= i < |candidates| ==> candidates[i].Held? && w.serialize(candidates[i].raw, q).Unsatisfiable?
  }

  /** Why a query is put aside, if it is. */
  ghost function SetAsideFor(w: World, r: Request, k: nat): Option<Reason>
    requires w.entries.Some? && Eligible(w, r, k)
  {
    var q := r.query.credentials[k];
    var candidates := CandidatesAt(w, r, k);
    CandidatesShareFlavor(w.entries.value, q);
    var last := candidates[|candidates| - 1];
    if !References(r, q.id) then Some(TransactionDataRefused)
    else if CanTry(w, FlavorOf(candidates[0])) && NoneDiscloses(w, candidates, q) then
      Some(Denied(w.serialize(last.raw, q).why))
    else None
  }

  /** The query the search settles on: the first eligible one, in the request's order, that is not put aside. */
  ghost predicate SettlesOn(w: World, r: Request, k: nat)
    requires w.entries.Some?
  {
    && Eligible(w, r, k) && SetAsideFor(w, r, k).None?
    && forall j: nat :: j < k && Eligible(w, r, j) ==> SetAsideFor(w, r, j).Some?
  }

  ghost predicate FirstEligible(w: World, r: Request, k: nat)
    requires w.entries.Some?
  {
    Eligible(w, r, k) && forall j: nat :: j < k ==> !Eligible(w, r, j)
  }

  /** The first candidate that does not merely lack the claims. */
  ghost predicate FirstConclusive(w: World, candidates: seq<Saved>, q: CredentialQuery, m: nat) {
    && m < |candidates| && candidates[m].Held?
    && !w.serialize(candidates[m].raw, q).Unsatisfiable?
    && forall i :: 0 <= i < m ==> candidates[i].Held? && w.serialize(candidates[i].raw, q).Unsatisfiable?
  }

  /** What presenting the first conclusive candidate does: one message at most, and the search ends. */
  ghost predicate Concludes(w: World, r: Request, k: nat, outcome: Outcome, messages: seq<Message>)
    requires w.entries.Some? && Eligible(w, r, k)
  {
    var q := r.query.credentials[k];
    var candidates := CandidatesAt(w, r, k);
    CandidatesShareFlavor(w.entries.value, q);
    if !CanTry(w, FlavorOf(candidates[0])) then outcome == Stopped && messages == []
    else exists m: nat :: FirstConclusive(w, candidates, q, m) && Submits(w, q, candidates[m], outcome, messages)
  }

  ghost predicate Submits(w: World, q: CredentialQuery, e: Saved, outcome: Outcome, messages: seq<Message>) {
    && e.Held?
    && match w.serialize(e.raw, q)
       case Serialized(bytes) =>
         && messages == [Presentation(q.id, bytes)]
         && outcome == (match w.deliver(q.id, bytes) case Some(redirect) => Presented(redirect) case None => Stopped)
       case Unsatisfiable(_) => false
       case Broken(_) => outcome == Stopped && messages == []
  }

  function RefusalMessages(r: Request, reason: Reason): seq<Message> {
    if !r.directPost then []
    else match reason
      case Denied(_) => [Denial]
      case TransactionDataRefused => [TransactionDataError]
      case TooManyCredentials => []
  }

  /** The queries taken as held while some are set aside. */
  function HeldOutside(entries: seq<Saved>, setAside: set<string>): CredentialQuery -> bool {
    (q: CredentialQuery) => q.id !in setAside && Candidates(entries, q) != []
  }

  predicate Unhashable(r: Request) {
    r.transactionData != [] && !r.hashable
  }

  /** The refusal when the wallet has nothing to try. */
  ghost function SelectionReason(r: Request, entries: seq<Saved>): Reason {
    if LacksSomethingRequired(r.query, HeldOutside(entries, {})) then Denied(NOTHING_HELD) else TooManyCredentials
  }

  ghost predicate IsRefusal(r: Request, reason: Reason, outcome: Outcome, messages: seq<Message>) {
    outcome == Refused(reason) && messages == RefusalMessages(r, reason)
  }

  /**
    What a search comes to. It settles on the first query, in the request's order, that is held,
    answers the request and is not put aside, and ends with that query's first conclusive credential.
    When every such query is put aside, the first one's reason is the refusal; when there is none, the
    selection's own error is.
   */
  ghost predicate Answered(w: World, r: Request, outcome: Outcome, messages: seq<Message>) {
    if Unhashable(r) then IsRefusal(r, TransactionDataRefused, outcome, messages)
    else if w.entries.None? then outcome == Stopped && messages == []
    else if exists k: nat :: SettlesOn(w, r, k) then
      exists k: nat :: SettlesOn(w, r, k) && Concludes(w, r, k, outcome, messages)
    else if exists k: nat :: Eligible(w, r, k) then
      exists k: nat :: FirstEligible(w, r, k) && SetAsideFor(w, r, k).Some? &&
        IsRefusal(r, SetAsideFor(w, r, k).value, outcome, messages)
    else IsRefusal(r, SelectionReason(r, w.entries.value), outcome, messages)
  }

  // ---------------------------------------------------------------------------------------------
  // The search
  // ---------------------------------------------------------------------------------------------

  class Presenter {
    const world: World
    /** Everything sent to the verifier so far. */
    var sent: seq<Message>

    constructor (world: World)
      ensures this.world == world && sent == []
    {
      this.world, sent := world, [];
    }

    method Refuse(r: Request, reason: Reason) returns (outcome: Outcome)
      modifies this
      ensures outcome == Refused(reason) && sent == old(sent) + RefusalMessages(r, reason)
    {
      if r.directPost {
        match reason
        case Denied(_) => sent := sent + [Denial];
        case TransactionDataRefused => sent := sent + [TransactionDataError];
        case TooManyCredentials =>
      }
      outcome := Refused(reason);
    }

    /** Every match for the query the request is best answered with, and that query's index. */
    method SelectCredentials(r: Request, entries: seq<Saved>, setAside: set<string>)
      returns (picked: Result<nat, SelectError>, candidates: seq<Saved>)
      requires r.query.credentials != [] && DistinctIds(r.query)
      requires world.entries == Some(entries)
      ensures picked.Ok? ==>
                var k := picked.value;
                && Eligible(world, r, k) && r.query.credentials[k].id !in setAside
                && candidates == CandidatesAt(world, r, k)
                && forall j: nat :: j < k && Eligible(world, r, j) ==> r.query.credentials[j].id in setAside
      ensures picked.Err? ==> forall j: nat :: Eligible(world, r, j) ==> r.query.credentials[j].id in setAside
      ensures picked.Err? ==>
                (picked.error.AccessDenied? <==>
                 LacksSomethingRequired(r.query, HeldOutside(entries, setAside)))
    {
      var held := HeldOutside(entries, setAside);
      candidates := [];
      picked := SelectCredentialQuery(r.query, held);
      forall j: nat | j < |r.query.credentials|
        ensures Selectable(r.query, held, j) <==> Eligible(world, r, j) && r.query.credentials[j].id !in setAside {}
      if picked.Ok? {
        candidates := Candidates(entries, r.query.credentials[picked.value]);
      }
    }

    /** Presents the first candidate that can disclose the claims, if any can. */
    method PresentFirstDisclosable(q: CredentialQuery, candidates: seq<Saved>) returns (tried: Tried)
      requires candidates != [] && forall i | 0 <= i < |candidates| :: candidates[i].Held?
      modifies this
      ensures !world.canBuild ==> tried == Ended(Stopped) && sent == old(sent)
      ensures world.canBuild && tried.PutAside? ==>
                NoneDiscloses(world, candidates, q) && sent == old(sent) &&
                tried.reason == Denied(world.serialize(candidates[|candidates| - 1].raw, q).why)
      ensures world.canBuild && tried.Ended? ==>
                exists m: nat, messages :: FirstConclusive(world, candidates, q, m) && sent == old(sent) + messages &&
                  Submits(world, q, candidates[m], tried.outcome, messages)
    {
      var why := "";
      for i := 0 to |candidates|
        invariant sent == old(sent)
        invariant i > 0 ==> world.canBuild
        invariant forall j | 0 <= j < i :: world.serialize(candidates[j].raw, q).Unsatisfiable?
        invariant i > 0 ==> why == world.serialize(candidates[i - 1].raw, q).why
      {
        if !world.canBuild {
          return Ended(Stopped);
        }
        var attempt := world.serialize(candidates[i].raw, q);
        match attempt
        case Unsatisfiable(reason) =>
          why := reason;
        case Broken(_) =>
          assert FirstConclusive(world, candidates, q, i);
          assert sent == old(sent) + [];
          return Ended(Stopped);
        case Serialized(bytes) =>
          assert FirstConclusive(world, candidates, q, i);
          sent := sent + [Presentation(q.id, bytes)];
          var redirect := world.deliver(q.id, bytes);
          if redirect.Some? {
            return Ended(Presented(redirect.value));
          }
          return Ended(Stopped);
      }
      tried := PutAside(Denied(why));
    }

    /** One round: the transaction data, the serializer's options, then the candidates. */
    method TryQuery(r: Request, k: nat, candidates: seq<Saved>) returns (tried: Tried)
      requires world.entries.Some? && Eligible(world, r, k) && candidates == CandidatesAt(world, r, k)
      modifies this
      ensures tried.PutAside? ==> SetAsideFor(world, r, k) == Some(tried.reason) && sent == old(sent)
      ensures tried.Ended? ==> SetAsideFor(world, r, k).None?
      ensures tried.Ended? ==>
                exists messages :: sent == old(sent) + messages && Concludes(world, r, k, tried.outcome, messages)
    {
      var q := r.query.credentials[k];
      if !References(r, q.id) {
        return PutAside(TransactionDataRefused);
      }
      CandidatesShareFlavor(world.entries.value, q);
      CandidatesAreSorted(world.entries.value, q);
      if !world.callerOptions && FlavorOf(candidates[0]) !in world.defaultOptions {
        assert Concludes(world, r, k, Stopped, []) && sent == old(sent) + [];
        return Ended(Stopped);
      }
      tried := PresentFirstDisclosable(q, candidates);
      if !world.canBuild {
        assert Concludes(world, r, k, Stopped, []) && sent == old(sent) + [];
      }
    }

    /** No query is left: the first reason recorded is reported, or else the selection's own error. */
    method GiveUp(r: Request, setAside: set<string>, refusal: Option<Reason>, error: SelectError, ghost n: nat)
      returns (outcome: Outcome)
      requires !Unhashable(r) && world.entries.Some?
      requires PutAsideBelow(world, r, setAside, n) && FirstReason(world, r, refusal, n)
      requires forall j: nat :: Eligible(world, r, j) ==> r.query.credentials[j].id in setAside
      requires error.AccessDenied? <==> LacksSomethingRequired(r.query, HeldOutside(world.entries.value, setAside))
      modifies this
      ensures exists messages ::
                sent == old(sent) + messages && |messages| <= 1 && Answered(world, r, outcome, messages)
    {
      NothingLeft(world, r, setAside, n);
      if refusal.Some? {
        outcome := Refuse(r, refusal.value);
        ExhaustedIsAnswered(world, r, refusal, n);
      } else {
        outcome := Refuse(r, if error.AccessDenied? then Denied(NOTHING_HELD) else TooManyCredentials);
        NothingSetAside(r, world.entries.value, setAside);
      }
    }

    /** The whole search, as `Answered` says. No query is tried twice, and at most one message goes out. */
    method Present(r: Request) returns (outcome: Outcome, ghost rounds: nat)
      requires r.query.credentials != [] && DistinctIds(r.query)
      modifies this
      ensures rounds <= |r.query.credentials|
      ensures exists messages ::
                sent == old(sent) + messages && |messages| <= 1 && Answered(world, r, outcome, messages)
    {
      rounds := 0;
      if r.transactionData != [] && !r.hashable {
        outcome := Refuse(r, TransactionDataRefused);
        return;
      }
      if world.entries.None? {
        assert sent == old(sent) + [];
        return Stopped, rounds;
      }
      var setAside: set<string> := {};
      var refusal: Option<Reason> := None;
      ghost var n: nat := 0;
      while true
        invariant sent == old(sent)
        invariant rounds <= n <= |r.query.credentials|
        invariant PutAsideBelow(world, r, setAside, n) && FirstReason(world, r, refusal, n)
        decreases |r.query.credentials| - n
      {
        var picked, candidates := SelectCredentials(r, world.entries.value, setAside);
        if picked.Err? {
          outcome := GiveUp(r, setAside, refusal, picked.error, n);
          return;
        }
        var k := picked.value;
        PickedNext(world, r, setAside, n, k);
        rounds := rounds + 1;
        var tried := TryQuery(r, k, candidates);
        if tried.Ended? {
          outcome := tried.outcome;
          SettledIsAnswered(world, r, setAside, n, k);
          ConclusionIsAnswer(world, r, k, outcome);
          return;
        }
        OneMorePutAside(world, r, setAside, n, k);
        FirstReasonStays(world, r, refusal, n, k);
        refusal := if refusal.Some? then refusal else Some(tried.reason);
        setAside := setAside + {r.query.credentials[k].id};
        n := k + 1;
      }
    }
  }

  // ---------------------------------------------------------------------------------------------
  // What gets presented
  // ---------------------------------------------------------------------------------------------

  /** The credential cannot deliver the claims the query asks for. */
  predicate Lacks(w: World, q: CredentialQuery, e: Saved) {
    e.Held? && w.serialize(e.raw, q).Unsatisfiable?
  }

  lemma {:induction false} EarlierOfAge(w: World, q: CredentialQuery, s: seq<Saved>, m: nat) returns (p: nat)
    requires m < |s| && forall i :: 0 <= i < m ==> Lacks(w, q, s[i])
    ensures p < |OfAge(s, Age(s[m]))| && OfAge(s, Age(s[m]))[p] == s[m]
    ensures forall i :: 0 <= i < p ==> Lacks(w, q, OfAge(s, Age(s[m]))[i])
  {
    if m == 0 {
      p := 0;
    } else {
      var before := EarlierOfAge(w, q, s[1..], m - 1);
      p := if Age(s[0]) == Age(s[m]) then before + 1 else before;
    }
  }

  lemma {:induction false} EarlierInStore(w: World, q: CredentialQuery, s: seq<Saved>, age: Option<int>, p: nat)
    returns (i: nat)
    requires p < |Matching(OfAge(s, age), q)|
    requires forall j :: 0 <= j < p ==> Lacks(w, q, Matching(OfAge(s, age), q)[j])
    ensures i < |s| && s[i] == Matching(OfAge(s, age), q)[p] && Age(s[i]) == age && Matches(q, s[i])
    ensures forall j :: 0 <= j < i && Age(s[j]) == age && Matches(q, s[j]) ==> Lacks(w, q, s[j])
  {
    var all, rest := Matching(OfAge(s, age), q), Matching(OfAge(s[1..], age), q);
    if Age(s[0]) == age {
      assert OfAge(s, age)[1..] == OfAge(s[1..], age);
    }
    if Age(s[0]) != age || !Matches(q, s[0]) {
      assert all == rest;
      var later := EarlierInStore(w, q, s[1..], age, p);
      i := later + 1;
      assert forall j | 0 < j < i :: s[j] == s[1..][j - 1];
    } else if p == 0 {
      i := 0;
    } else {
      assert all == [s[0]] + rest;
      assert forall j | 0 <= j < p - 1 :: Lacks(w, q, rest[j]) by {
        assert forall j | 0 <= j < p - 1 :: rest[j] == all[j + 1];
      }
      var later := EarlierInStore(w, q, s[1..], age, p - 1);
      i := later + 1;
      assert Lacks(w, q, all[0]);
      assert forall j | 0 < j < i :: s[j] == s[1..][j - 1];
    }
  }

  /** A held credential that meets the query. */
  ghost predicate IsAnswer(q: CredentialQuery, e: Saved) {
    e.Held? && e.flavor.Some? && e.types.Some? && MeetsQuery(q, e.flavor.value, e.types.value)
  }

  /** Entry i meets the query and serializes, and whatever goes before it and meets the query lacks the claims. */
  ghost predicate NewestThatCan(w: World, q: CredentialQuery, i: nat)
    requires w.entries.Some? && i < |w.entries.value|
  {
    var entries := w.entries.value;
    && IsAnswer(q, entries[i]) && w.serialize(entries[i].raw, q).Serialized?
    && forall j :: 0 <= j < |entries| && IsAnswer(q, entries[j]) && GoesFirst(entries, j, i) ==>
         w.serialize(entries[j].raw, q).Unsatisfiable?
  }

  /** Received later, or at the same time and stored earlier. */
  ghost predicate GoesFirst(entries: seq<Saved>, j: nat, i: nat)
    requires j < |entries| && i < |entries| && entries[j].Held? && entries[i].Held?
  {
    || entries[j].receivedAt > entries[i].receivedAt
    || (entries[j].receivedAt == entries[i].receivedAt && j < i)
  }

  lemma ConclusiveIsNewest(w: World, q: CredentialQuery, m: nat) returns (i: nat)
    requires w.entries.Some? && FirstConclusive(w, Candidates(w.entries.value, q), q, m)
    requires w.serialize(Candidates(w.entries.value, q)[m].raw, q).Serialized?
    ensures i < |w.entries.value| && w.entries.value[i] == Candidates(w.entries.value, q)[m] && NewestThatCan(w, q, i)
  {
    var entries := w.entries.value;
    var candidates := Candidates(entries, q);
    CandidatesAreSorted(entries, q);
    assert forall j :: 0 <= j < m ==> Lacks(w, q, candidates[j]);
    var p := EarlierOfAge(w, q, candidates, m);
    assert OfAge(candidates, Age(candidates[m])) == Matching(OfAge(entries, Age(candidates[m])), q);
    i := EarlierInStore(w, q, entries, Age(candidates[m]), p);
    MatchesExactlyWhen(q, entries[i]);
    forall j | 0 <= j < |entries| && IsAnswer(q, entries[j])
      ensures GoesFirst(entries, j, i) ==> Lacks(w, q, entries[j])
    {
      MatchesExactlyWhen(q, entries[j]);
      if Before(entries[j], entries[i]) {
        assert entries[j] in candidates;
        NewerComesEarlier(w, q, candidates, m, entries[j]);
      }
    }
  }

  lemma NewerComesEarlier(w: World, q: CredentialQuery, candidates: seq<Saved>, m: nat, e: Saved)
    requires NewestFirst(candidates) && m < |candidates| && e in candidates && Before(e, candidates[m])
    requires forall i :: 0 <= i < m ==> Lacks(w, q, candidates[i])
    ensures Lacks(w, q, e)
  {
    var at :| 0 <= at < |candidates| && candidates[at] == e;
    assert at < m;
  }

  /**
    What is presented is the most recently received credential matching the query that can disclose
    the claims: every matching one received later, or at the same time and stored earlier, lacks them.
   */
  lemma PresentedIsTheNewestThatCan(w: World, r: Request, k: nat, outcome: Outcome, messages: seq<Message>)
    requires w.entries.Some? && Eligible(w, r, k) && Concludes(w, r, k, outcome, messages) && messages != []
    ensures var q := r.query.credentials[k];
            exists i :: 0 <= i < |w.entries.value| && NewestThatCan(w, q, i) &&
              messages == [Presentation(q.id, w.serialize(w.entries.value[i].raw, q).bytes)]
  {
    var q := r.query.credentials[k];
    var candidates := CandidatesAt(w, r, k);
    var m: nat :| FirstConclusive(w, candidates, q, m) && Submits(w, q, candidates[m], outcome, messages);
    var i := ConclusiveIsNewest(w, q, m);
  }

  /**
    A presentation only ever goes out for a query that every transaction data entry names, in a request
    whose transaction data the wallet can hash.
   */
  lemma PresentedIsReferenced(w: World, r: Request, outcome: Outcome, messages: seq<Message>, id: string, bytes: string)
    requires Answered(w, r, outcome, messages) && Presentation(id, bytes) in messages
    ensures r.transactionData == [] || r.hashable
    ensures forall i :: 0 <= i < |r.transactionData| ==>
              r.transactionData[i].Some? && id in r.transactionData[i].value
    ensures messages == [Presentation(id, bytes)]
  {
    if !Unhashable(r) && w.entries.Some? {
      forall n: nat | SettlesOn(w, r, n) && Concludes(w, r, n, outcome, messages)
        ensures r.query.credentials[n].id == id && messages == [Presentation(id, bytes)] && References(r, id)
      {
        ConcludesForItsQuery(w, r, n, outcome, messages, id, bytes);
      }
    }
  }

  lemma ConcludesForItsQuery(w: World, r: Request, n: nat, outcome: Outcome, messages: seq<Message>, id: string,
                             bytes: string)
    requires w.entries.Some? && SettlesOn(w, r, n) && Concludes(w, r, n, outcome, messages)
    requires Presentation(id, bytes) in messages
    ensures r.query.credentials[n].id == id && messages == [Presentation(id, bytes)] && References(r, id)
  {
  }

  /** A refusal reaches the verifier only by direct_post, a denial without its reason, and a plain error not at all. */
  lemma RefusalReaches(r: Request, reason: Reason)
    ensures RefusalMessages(r, reason) ==
            if !r.directPost || reason.TooManyCredentials? then []
            else if reason.Denied? then [Denial] else [TransactionDataError]
  {
  }

  lemma {:induction false} SomethingSettles(w: World, r: Request, k: nat) returns (first: nat)
    requires w.entries.Some? && Eligible(w, r, k) && SetAsideFor(w, r, k).None?
    ensures SettlesOn(w, r, first)
  {
    if j: nat :| j < k && Eligible(w, r, j) && SetAsideFor(w, r, j).None? {
      first := SomethingSettles(w, r, j);
    } else {
      first := k;
    }
  }

  /**
    A refusal is never mistaken: when the search refuses, no credential could have been presented. Every
    held query that answers the request is outside the transaction data, or all its credentials lack the claims.
   */
  lemma RefusedMeansNothingFits(w: World, r: Request, outcome: Outcome, messages: seq<Message>, k: nat, e: Saved)
    requires Answered(w, r, outcome, messages) && outcome.Refused? && !Unhashable(r)
    requires w.entries.Some? && k < |r.query.credentials| && AnswersRequest(r.query, k)
    requires e in w.entries.value && IsAnswer(r.query.credentials[k], e)
    ensures var q := r.query.credentials[k];
            || (exists i :: 0 <= i < |r.transactionData| &&
                  (r.transactionData[i].None? || q.id !in r.transactionData[i].value))
            || w.serialize(e.raw, q).Unsatisfiable?
  {
    var q := r.query.credentials[k];
    MatchesExactlyWhen(q, e);
    CandidatesAreSorted(w.entries.value, q);
    assert e in CandidatesAt(w, r, k);
    assert Eligible(w, r, k);
    if SetAsideFor(w, r, k).None? {
      var first := SomethingSettles(w, r, k);
    }
  }

  // ---------------------------------------------------------------------------------------------
  // The loop invariant
  // ---------------------------------------------------------------------------------------------

  /** The set-aside ids are those of the eligible queries below n, and each of them has a reason. */
  ghost predicate PutAsideBelow(w: World, r: Request, setAside: set<string>, n: nat)
    requires w.entries.Some?
  {
    && (forall j: nat :: j < |r.query.credentials| ==>
          (r.query.credentials[j].id in setAside <==> j < n && Eligible(w, r, j)))
    && (forall j: nat :: j < n && Eligible(w, r, j) ==> SetAsideFor(w, r, j).Some?)
  }

  ghost predicate FirstReason(w: World, r: Request, refusal: Option<Reason>, n: nat)
    requires w.entries.Some?
  {
    match refusal
    case None => forall j: nat :: j < n ==> !Eligible(w, r, j)
    case Some(_) => exists f: nat :: f < n && FirstEligible(w, r, f) && SetAsideFor(w, r, f) == refusal
  }

  lemma NotYetTried(w: World, r: Request, setAside: set<string>, n: nat, k: nat)
    requires w.entries.Some? && PutAsideBelow(w, r, setAside, n)
    requires Eligible(w, r, k) && r.query.credentials[k].id !in setAside
    ensures n <= k
  {
  }

  /** Nothing eligible lies between what was put aside and the query picked next. */
  ghost predicate NextAfter(w: World, r: Request, n: nat, k: nat)
    requires w.entries.Some?
  {
    n <= k && Eligible(w, r, k) && forall j: nat :: n <= j < k ==> !Eligible(w, r, j)
  }

  lemma PickedNext(w: World, r: Request, setAside: set<string>, n: nat, k: nat)
    requires w.entries.Some? && PutAsideBelow(w, r, setAside, n)
    requires Eligible(w, r, k) && r.query.credentials[k].id !in setAside
    requires forall j: nat :: j < k && Eligible(w, r, j) ==> r.query.credentials[j].id in setAside
    ensures NextAfter(w, r, n, k)
  {
    NotYetTried(w, r, setAside, n, k);
    forall j: nat | n <= j < k ensures !Eligible(w, r, j) {
      assert r.query.credentials[j].id !in setAside;
    }
  }

  lemma OneMorePutAside(w: World, r: Request, setAside: set<string>, n: nat, k: nat)
    requires w.entries.Some? && DistinctIds(r.query) && PutAsideBelow(w, r, setAside, n)
    requires NextAfter(w, r, n, k) && SetAsideFor(w, r, k).Some?
    ensures PutAsideBelow(w, r, setAside + {r.query.credentials[k].id}, k + 1)
  {
    var after := setAside + {r.query.credentials[k].id};
    forall j: nat | j < |r.query.credentials|
      ensures r.query.credentials[j].id in after <==> j < k + 1 && Eligible(w, r, j)
    {
      assert r.query.credentials[j].id in setAside <==> j < n && Eligible(w, r, j);
    }
    forall j: nat | j < k + 1 && Eligible(w, r, j) ensures SetAsideFor(w, r, j).Some? {
      assert j < n || j == k;
    }
  }

  lemma FirstReasonStays(w: World, r: Request, refusal: Option<Reason>, n: nat, k: nat)
    requires w.entries.Some? && FirstReason(w, r, refusal, n)
    requires NextAfter(w, r, n, k) && SetAsideFor(w, r, k).Some?
    ensures FirstReason(w, r, if refusal.Some? then refusal else SetAsideFor(w, r, k), k + 1)
  {
    if refusal.None? {
      assert FirstEligible(w, r, k);
    }
  }

  lemma SettledIsAnswered(w: World, r: Request, setAside: set<string>, n: nat, k: nat)
    requires w.entries.Some? && PutAsideBelow(w, r, setAside, n) && Eligible(w, r, k) && SetAsideFor(w, r, k).None?
    requires forall j: nat :: j < k && Eligible(w, r, j) ==> r.query.credentials[j].id in setAside
    ensures SettlesOn(w, r, k)
    ensures forall j: nat :: SettlesOn(w, r, j) ==> j == k
  {
    forall j: nat | j < k && Eligible(w, r, j) ensures SetAsideFor(w, r, j).Some? {
      assert r.query.credentials[j].id in setAside;
    }
  }

  lemma ConclusionIsAnswer(w: World, r: Request, k: nat, outcome: Outcome)
    requires !Unhashable(r) && w.entries.Some? && SettlesOn(w, r, k)
    ensures forall messages :: Concludes(w, r, k, outcome, messages) ==>
              |messages| <= 1 && Answered(w, r, outcome, messages)
  {
  }

  lemma ExhaustedIsAnswered(w: World, r: Request, refusal: Option<Reason>, n: nat)
    requires w.entries.Some? && FirstReason(w, r, refusal, n) && refusal.Some?
    requires forall j: nat :: Eligible(w, r, j) ==> SetAsideFor(w, r, j).Some?
    ensures exists f: nat :: FirstEligible(w, r, f) && SetAsideFor(w, r, f) == refusal
    ensures forall j: nat :: !SettlesOn(w, r, j)
  {
  }

  lemma NothingSetAside(r: Request, entries: seq<Saved>, setAside: set<string>)
    requires forall j :: 0 <= j < |r.query.credentials| ==> r.query.credentials[j].id !in setAside
    ensures LacksSomethingRequired(r.query, HeldOutside(entries, setAside)) <==>
            LacksSomethingRequired(r.query, HeldOutside(entries, {}))
  {
    var some, all := HeldOutside(entries, setAside), HeldOutside(entries, {});
    forall q | q in r.query.credentials ensures some(q) == all(q) {}
    var sets := SetsOf(r.query);
    forall i | 0 <= i < |sets|
      ensures SomeOptionSatisfiable(r.query.credentials, some, sets[i]) <==>
              SomeOptionSatisfiable(r.query.credentials, all, sets[i])
    {
      forall o | 0 <= o < |sets[i].options|
        ensures Satisfiable(r.query.credentials, some, sets[i].options[o]) <==>
                Satisfiable(r.query.credentials, all, sets[i].options[o]) {}
    }
  }

  lemma NothingLeft(w: World, r: Request, setAside: set<string>, n: nat)
    requires w.entries.Some? && PutAsideBelow(w, r, setAside, n)
    requires forall j: nat :: Eligible(w, r, j) ==> r.query.credentials[j].id in setAside
    ensures forall j: nat :: Eligible(w, r, j) ==> j < n && SetAsideFor(w, r, j).Some?
  {
  }
}
