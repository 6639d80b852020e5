/**
  The credentials a wallet holds: which of them match a Credential Query, and their newest-first order.
 */
module HeldCredentials {
  import opened Prelude
  import opened Dcql

  // ---------------------------------------------------------------------------------------------
  // What the wallet holds
  // ---------------------------------------------------------------------------------------------

  datatype Flavor = JwtVc | SdJwtVc | MockFormat

  function FormatIdentifier(f: Flavor): string {
    match f
    case JwtVc => "jwt_vc_json"
    case SdJwtVc => "dc+sd-jwt"
    case MockFormat => "mock_vc"
  }

  /** An entry without its stored half is Blank; an unknown MIME type has no flavor. */
  datatype Saved = Blank | Held(receivedAt: int, flavor: Option<Flavor>, types: Option<seq<string>>, raw: string)

  predicate Matches(q: CredentialQuery, e: Saved) {
    && e.Held? && e.flavor.Some? && e.types.Some?
    && q.format == FormatIdentifier(e.flavor.value)
    && (q.format == "dc+sd-jwt" ==> MatchesVct(q.vctValues, e.types.value))
  }

  predicate MatchesVct(v: VctValues, types: seq<string>) {
    match v
    case Unconstrained => true
    case NotAnArray => false
    case OneOf(values) => exists i | 0 <= i < |values| :: values[i] in types
  }

  /** The query's format names the credential's flavor, and for SD-JWT its type is one asked for, if any are. */
  ghost predicate MeetsQuery(q: CredentialQuery, flavor: Flavor, types: seq<string>) {
    match flavor
    case JwtVc => q.format == "jwt_vc_json"
    case MockFormat => q.format == "mock_vc"
    case SdJwtVc =>
      && q.format == "dc+sd-jwt"
      && match q.vctValues
         case Unconstrained => true
         case NotAnArray => false
         case OneOf(values) => exists vct :: vct in values && vct in types
  }

  /** A credential matches exactly when its flavor and types are known and meet the query. */
  lemma MatchesExactlyWhen(q: CredentialQuery, e: Saved)
    ensures Matches(q, e) <==>
            e.Held? && e.flavor.Some? && e.types.Some? && MeetsQuery(q, e.flavor.value, e.types.value)
  {
    if e.Held? && e.types.Some? && q.vctValues.OneOf? {
      var values := q.vctValues.values;
      if vct :| vct in values && vct in e.types.value {
        var i :| 0 <= i < |values| && values[i] == vct;
        assert MatchesVct(q.vctValues, e.types.value);
      }
    }
  }

  // ---------------------------------------------------------------------------------------------
  // Newest first
  // ---------------------------------------------------------------------------------------------

  /** The comparison handed to the stable sort: received later, and blanks after everything else. */
  predicate Before(left: Saved, right: Saved) {
    if left.Blank? then false
    else if right.Blank? then true
    else left.receivedAt > right.receivedAt
  }

  function Age(e: Saved): Option<int> {
    if e.Blank? then None else Some(e.receivedAt)
  }

  function OfAge(s: seq<Saved>, age: Option<int>): seq<Saved> {
    if s == [] then []
    else if Age(s[0]) == age then [s[0]] + OfAge(s[1..], age)
    else OfAge(s[1..], age)
  }

  predicate NewestFirst(s: seq<Saved>) {
    forall i, j | 0 <= i < j < |s| :: !Before(s[j], s[i])
  }

  /** In order, and within each age exactly the original entries in the original order. */
  ghost predicate StablySorted(sorted: seq<Saved>, original: seq<Saved>) {
    NewestFirst(sorted) && forall age :: OfAge(sorted, age) == OfAge(original, age)
  }

  function Insert(x: Saved, s: seq<Saved>): seq<Saved> {
    if s == [] || !Before(s[0], x) then [x] + s else [s[0]] + Insert(x, s[1..])
  }

  function Newest(s: seq<Saved>): seq<Saved> {
    if s == [] then [] else Insert(s[0], Newest(s[1..]))
  }

  function NewestCredentials(entries: seq<Saved>, limit: int): seq<Saved> {
    if entries == [] || limit <= 0 then []
    else
      var sorted := Newest(entries);
      sorted[..if limit > |sorted| then |sorted| else limit]
  }

  lemma {:induction false} InsertKeepsAges(x: Saved, s: seq<Saved>, age: Option<int>)
    ensures OfAge(Insert(x, s), age) == OfAge([x] + s, age)
  {
    assert ([x] + s)[1..] == s;
    if s != [] && Before(s[0], x) {
      InsertKeepsAges(x, s[1..], age);
      assert ([x] + s[1..])[1..] == s[1..];
      assert Insert(x, s)[1..] == Insert(x, s[1..]);
    }
  }

  lemma {:induction false} InsertKeepsOrder(x: Saved, s: seq<Saved>)
    requires NewestFirst(s)
    ensures NewestFirst(Insert(x, s))
    ensures forall e :: e in Insert(x, s) <==> e == x || e in s
  {
    if s != [] && Before(s[0], x) {
      InsertKeepsOrder(x, s[1..]);
      var rest := Insert(x, s[1..]);
      assert s == [s[0]] + s[1..];
      forall j | 0 <= j < |rest| ensures !Before(rest[j], s[0]) {
        assert rest[j] in rest;
      }
    } else {
      forall e | e in [x] + s ensures e == x || e in s {}
    }
  }

  lemma {:induction false} NewestIsStablySorted(s: seq<Saved>)
    ensures StablySorted(Newest(s), s)
    ensures forall e :: e in Newest(s) <==> e in s
  {
    if s != [] {
      var rest := s[1..];
      NewestIsStablySorted(rest);
      InsertKeepsOrder(s[0], Newest(rest));
      assert s == [s[0]] + rest;
      forall age ensures OfAge(Newest(s), age) == OfAge(s, age) {
        InsertKeepsAges(s[0], Newest(rest), age);
        assert ([s[0]] + Newest(rest))[1..] == Newest(rest);
      }
    }
  }

  lemma {:induction false} OfAgeKeeps(s: seq<Saved>, i: nat)
    requires i < |s|
    ensures s[i] in OfAge(s, Age(s[i]))
  {
    if i > 0 {
      OfAgeKeeps(s[1..], i - 1);
    }
  }

  lemma {:induction false} OfAgeOnlyFrom(s: seq<Saved>, age: Option<int>, e: Saved)
    requires e in OfAge(s, age)
    ensures e in s && Age(e) == age
  {
    if e in OfAge(s[1..], age) {
      OfAgeOnlyFrom(s[1..], age, e);
    }
  }

  /** Whatever stable sort runs, the result is `Newest`: there is only one stably sorted arrangement. */
  lemma {:induction false} StableSortIsUnique(a: seq<Saved>, b: seq<Saved>)
    requires NewestFirst(a) && NewestFirst(b)
    requires forall age :: OfAge(a, age) == OfAge(b, age)
    ensures a == b
  {
    if a == [] {
      if b != [] {
        OfAgeKeeps(b, 0);
      }
    } else if b == [] {
      OfAgeKeeps(a, 0);
    } else {
      OfAgeKeeps(a, 0);
      OfAgeKeeps(b, 0);
      OfAgeOnlyFrom(b, Age(a[0]), a[0]);
      OfAgeOnlyFrom(a, Age(b[0]), b[0]);
      assert !Before(a[0], b[0]) && !Before(b[0], a[0]);
      assert Age(a[0]) == Age(b[0]);
      assert OfAge(a, Age(a[0]))[0] == a[0] && OfAge(b, Age(b[0]))[0] == b[0];
      forall age ensures OfAge(a[1..], age) == OfAge(b[1..], age) {
        assert OfAge(a, age) == OfAge(b, age);
        if age == Age(a[0]) {
          assert OfAge(a[1..], age) == OfAge(a, age)[1..];
          assert OfAge(b[1..], age) == OfAge(b, age)[1..];
        }
      }
      StableSortIsUnique(a[1..], b[1..]);
    }
  }

  // ---------------------------------------------------------------------------------------------
  // Candidates
  // ---------------------------------------------------------------------------------------------

  function Matching(s: seq<Saved>, q: CredentialQuery): seq<Saved> {
    if s == [] then []
    else if Matches(q, s[0]) then [s[0]] + Matching(s[1..], q)
    else Matching(s[1..], q)
  }

  function Candidates(entries: seq<Saved>, q: CredentialQuery): seq<Saved> {
    Matching(NewestCredentials(entries, |entries|), q)
  }

  lemma {:induction false} MatchingKeepsOrder(s: seq<Saved>, q: CredentialQuery)
    requires NewestFirst(s)
    ensures NewestFirst(Matching(s, q))
    ensures forall e :: e in Matching(s, q) <==> e in s && Matches(q, e)
  {
    if s != [] {
      MatchingKeepsOrder(s[1..], q);
      var rest := Matching(s[1..], q);
      assert s == [s[0]] + s[1..];
      forall j | 0 <= j < |rest| ensures !Before(rest[j], s[0]) {
        assert rest[j] in rest;
      }
    }
  }

  lemma {:induction false} MatchingWithinAge(s: seq<Saved>, q: CredentialQuery, age: Option<int>)
    ensures OfAge(Matching(s, q), age) == Matching(OfAge(s, age), q)
  {
    if s != [] {
      MatchingWithinAge(s[1..], q, age);
      if Matches(q, s[0]) {
        assert Matching(s, q)[1..] == Matching(s[1..], q);
      }
      if Age(s[0]) == age {
        assert OfAge(s, age)[1..] == OfAge(s[1..], age);
      }
    }
  }

  /** The length of the newest-first list, so that a limit of all entries cuts nothing off. */
  lemma {:induction false} NewestLength(s: seq<Saved>)
    ensures |Newest(s)| == |s|
  {
    if s != [] {
      NewestLength(s[1..]);
      InsertLength(s[0], Newest(s[1..]));
    }
  }

  lemma {:induction false} InsertLength(x: Saved, s: seq<Saved>)
    ensures |Insert(x, s)| == |s| + 1
  {
    if s != [] && Before(s[0], x) {
      InsertLength(x, s[1..]);
    }
  }

  lemma CandidatesAreSorted(entries: seq<Saved>, q: CredentialQuery)
    ensures Candidates(entries, q) == Matching(Newest(entries), q)
    ensures NewestFirst(Candidates(entries, q))
    ensures forall e :: e in Candidates(entries, q) <==> e in entries && Matches(q, e)
    ensures forall age :: OfAge(Candidates(entries, q), age) == Matching(OfAge(entries, age), q)
  {
    NewestLength(entries);
    assert NewestCredentials(entries, |entries|) == Newest(entries);
    NewestIsStablySorted(entries);
    MatchingKeepsOrder(Newest(entries), q);
    forall age ensures OfAge(Candidates(entries, q), age) == Matching(OfAge(entries, age), q) {
      MatchingWithinAge(Newest(entries), q, age);
    }
  }

  /** The candidates are the credentials held whose flavor and types are known and meet the query. */
  lemma CandidateExactlyWhen(entries: seq<Saved>, q: CredentialQuery, e: Saved)
    ensures e in Candidates(entries, q) <==>
            && e in entries && e.Held? && e.flavor.Some? && e.types.Some?
            && MeetsQuery(q, e.flavor.value, e.types.value)
  {
    CandidatesAreSorted(entries, q);
    MatchesExactlyWhen(q, e);
  }

  /** With a limit, the newest ones up to it. */
  lemma NewestWithin(entries: seq<Saved>, limit: int)
    ensures var newest := NewestCredentials(entries, limit);
            && |newest| == (if limit <= 0 then 0 else if limit < |entries| then limit else |entries|)
            && newest <= Newest(entries)
  {
    NewestLength(entries);
  }

  /** Credentials that match one query share its format, hence their flavor. */
  lemma CandidatesShareFlavor(entries: seq<Saved>, q: CredentialQuery)
    ensures forall e, f :: e in Candidates(entries, q) && f in Candidates(entries, q) ==>
              e.Held? && f.Held? && e.flavor == f.flavor && e.flavor.Some?
  {
    CandidatesAreSorted(entries, q);
    forall e | e in Candidates(entries, q) ensures e.Held? && e.flavor == Some(FlavorFor(q.format)) {
      assert Matches(q, e);
    }
  }

  /** The one flavor a format identifier stands for. */
  function FlavorFor(format: string): (f: Flavor)
    ensures forall g :: FormatIdentifier(g) == format ==> f == g
  {
    if format == "jwt_vc_json" then JwtVc
    else if format == "dc+sd-jwt" then SdJwtVc
    else MockFormat
  }
}
