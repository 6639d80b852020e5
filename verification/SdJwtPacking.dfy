/**
  SD-JWT packing in the dc+sd-jwt issuer (RFC 9901 section 4.2): which claims are disclosed, what the
  `_sd` array holds, and what the assembled credential splits back into.

  Salting, encoding and hashing come in as functions; the only fact about them that matters here is
  that encoded text never holds the separator `~`.
 */
module SdJwtPacking {
  import opened Prelude
  import opened ClaimTrees

  /** A claim value: an object with fields, or any other JSON text. */
  datatype Tree = Node(fields: map<string, Tree>) | Leaf(text: string)

  datatype Claim = Claim(path: Path, mandatory: bool)

  /** One property of an object, in insertion order. */
  datatype Member = Member(name: string, value: Tree)

  function Read(t: Tree, path: Path): Option<Tree>
    decreases |path|
  {
    if path == [] then Some(t)
    else if t.Node? && path[0] in t.fields then Read(t.fields[path[0]], path[1..])
    else None
  }

  /** A path reads member by member. */
  lemma {:induction false} ReadGrows(t: Tree, path: Path, name: string)
    ensures Read(t, []) == Some(t)
    ensures Read(t, path + [name]) ==
            match Read(t, path)
            case Some(Node(fields)) => (if name in fields then Some(fields[name]) else None)
            case _ => None
    decreases |path|
  {
    var longer := path + [name];
    if path == [] {
      assert longer[0] == name && longer[1..] == [];
    } else {
      assert longer[0] == path[0] && longer[1..] == path[1..] + [name];
      if t.Node? && path[0] in t.fields {
        ReadGrows(t.fields[path[0]], path[1..], name);
      }
    }
  }

  // ---------------------------------------------------------------------------------------------
  // Sorting claims into the payload and the disclosures
  // ---------------------------------------------------------------------------------------------

  predicate HasName(members: seq<Member>, name: string) {
    exists i :: 0 <= i < |members| && members[i].name == name
  }

  ghost predicate DistinctNames(members: seq<Member>) {
    forall i, j :: 0 <= i < j < |members| ==> members[i].name != members[j].name
  }

  /** The claim asks for a root claim that the source has, at the whole of its path. */
  predicate Asks(source: Tree, claim: Claim, name: string) {
    claim.path != [] && claim.path[0] == name && Read(source, claim.path).Some?
  }

  ghost predicate Asked(source: Tree, claims: seq<Claim>, name: string) {
    exists j :: 0 <= j < |claims| && Asks(source, claims[j], name)
  }

  predicate Refused(source: Tree, claim: Claim) {
    !SafePath(claim.path) || (claim.mandatory && Read(source, claim.path).None?)
  }

  /** The members are the asked root claims on one side of the split, each once, with the source's value. */
  ghost predicate HoldsAsked(source: Tree, claims: seq<Claim>, members: seq<Member>, side: string -> bool) {
    && DistinctNames(members)
    && (forall name :: HasName(members, name) <==> Asked(source, claims, name) && side(name))
    && (forall i :: 0 <= i < |members| ==> Read(source, [members[i].name]) == Some(members[i].value))
  }

  method SetMember(members: seq<Member>, name: string, value: Tree) returns (after: seq<Member>)
    requires DistinctNames(members)
    requires forall i | 0 <= i < |members| && members[i].name == name :: members[i].value == value
    ensures DistinctNames(after)
    ensures forall m :: HasName(after, m) <==> HasName(members, m) || m == name
    ensures forall i | 0 <= i < |after| :: after[i] in members || after[i] == Member(name, value)
  {
    for i := 0 to |members|
      invariant forall j | 0 <= j < i :: members[j].name != name
    {
      if members[i].name == name {
        after := members[i := Member(name, value)];
        assert after == members;
        return;
      }
    }
    after := members + [Member(name, value)];
    assert after[|members|].name == name;
    forall m | HasName(members, m) ensures HasName(after, m) {
      var i :| 0 <= i < |members| && members[i].name == m;
      assert after[i].name == m;
    }
  }

  lemma AskedMore(source: Tree, claims: seq<Claim>, i: nat, name: string)
    requires i < |claims|
    ensures Asked(source, claims[..i + 1], name) <==> Asked(source, claims[..i], name) || Asks(source, claims[i], name)
  {
    var more := claims[..i + 1];
    assert more[i] == claims[i] && forall j | 0 <= j < i :: more[j] == claims[..i][j];
  }

  lemma RootOfResolvedPath(t: Tree, path: Path)
    requires path != [] && Read(t, path).Some?
    ensures Read(t, [path[0]]).Some?
  {
    assert [path[0]][1..] == [];
  }

  /** The claim loop: each present root claim goes to the payload or to the disclosures. */
  method SplitClaims(claims: seq<Claim>, source: Tree, nonDisclosable: set<string>)
    returns (ok: bool, payload: seq<Member>, disclosable: seq<Member>)
    ensures ok <==> forall j :: 0 <= j < |claims| ==> !Refused(source, claims[j])
    ensures ok ==> HoldsAsked(source, claims, payload, name => name in nonDisclosable)
    ensures ok ==> HoldsAsked(source, claims, disclosable, name => name !in nonDisclosable)
  {
    payload, disclosable := [], [];
    for i := 0 to |claims|
      invariant forall j | 0 <= j < i :: !Refused(source, claims[j])
      invariant HoldsAsked(source, claims[..i], payload, name => name in nonDisclosable)
      invariant HoldsAsked(source, claims[..i], disclosable, name => name !in nonDisclosable)
    {
      var claim := claims[i];
      forall name ensures Asked(source, claims[..i + 1], name) <==>
                          Asked(source, claims[..i], name) || Asks(source, claim, name) {
        AskedMore(source, claims, i, name);
      }
      if !SafePath(claim.path) {
        return false, payload, disclosable;
      }
      var value := Read(source, claim.path);
      if claim.mandatory && value.None? {
        return false, payload, disclosable;
      }
      if value.Some? {
        RootOfResolvedPath(source, claim.path);
        var name := claim.path[0];
        var rootValue := Read(source, [name]).value;
        if name in nonDisclosable {
          payload := SetMember(payload, name, rootValue);
        } else {
          disclosable := SetMember(disclosable, name, rootValue);
        }
      }
    }
    assert claims[..|claims|] == claims;
    ok := true;
  }

  // ---------------------------------------------------------------------------------------------
  // Disclosures and their digests
  // ---------------------------------------------------------------------------------------------

  /** Text encoding, hashing and signing, as far as packing sees them. */
  datatype Codec = Codec(
    encode: (string, string, Tree) -> string,
    digest: string -> string,
    sign: map<string, PayloadValue> -> string)

  datatype PayloadValue = Value(tree: Tree) | Digests(list: seq<string>) | Text(text: string)

  /** base64url and compact JWTs have no `~`. */
  ghost predicate SeparatorFree(c: Codec) {
    && (forall salt, name, value :: '~' !in c.encode(salt, name, value))
    && (forall payload :: '~' !in c.sign(payload))
  }

  function Disclosures(c: Codec, members: seq<Member>, salts: seq<string>): (d: seq<string>)
    requires |salts| == |members|
    ensures |d| == |members|
  {
    seq(|members|, i requires 0 <= i < |members| => c.encode(salts[i], members[i].name, members[i].value))
  }

  function DigestsOf(c: Codec, disclosures: seq<string>): (d: seq<string>)
    ensures |d| == |disclosures|
  {
    seq(|disclosures|, i requires 0 <= i < |disclosures| => c.digest(disclosures[i]))
  }

  /** The default string order of `Array.prototype.sort`: by code units. */
  predicate Leq(a: string, b: string) {
    if a == "" then true
    else if b == "" then false
    else a[0] < b[0] || (a[0] == b[0] && Leq(a[1..], b[1..]))
  }

  predicate IsSorted(s: seq<string>) {
    forall i, j | 0 <= i < j < |s| :: Leq(s[i], s[j])
  }

  lemma {:induction false} LeqIsTotal(a: string, b: string)
    ensures Leq(a, b) || Leq(b, a)
  {
    if a != "" && b != "" {
      LeqIsTotal(a[1..], b[1..]);
    }
  }

  lemma {:induction false} LeqIsTransitive(a: string, b: string, c: string)
    requires Leq(a, b) && Leq(b, c)
    ensures Leq(a, c)
  {
    if a != "" && b != "" && c != "" && a[0] == b[0] == c[0] {
      LeqIsTransitive(a[1..], b[1..], c[1..]);
    }
  }

  /** The order is by the first difference, and a prefix comes first. */
  lemma {:induction false} LeqExactlyWhen(a: string, b: string)
    ensures Leq(a, b) <==> a <= b || exists k :: FirstDifference(a, b, k) && a[k] < b[k]
  {
    if a != "" && b != "" {
      if a[0] == b[0] {
        LeqExactlyWhen(a[1..], b[1..]);
        assert a <= b <==> a[1..] <= b[1..] by {
          assert a == [a[0]] + a[1..] && b == [b[0]] + b[1..];
        }
        forall k | FirstDifference(a[1..], b[1..], k) ensures FirstDifference(a, b, k + 1) {
          assert forall j | 0 < j < k + 1 :: a[j] == a[1..][j - 1] && b[j] == b[1..][j - 1];
        }
        forall k | FirstDifference(a, b, k) ensures k > 0 && FirstDifference(a[1..], b[1..], k - 1) {
          assert forall j | 0 <= j < k - 1 :: a[j + 1] == a[1..][j] && b[j + 1] == b[1..][j];
        }
        if exists k :: FirstDifference(a[1..], b[1..], k) && a[1..][k] < b[1..][k] {
          var k :| FirstDifference(a[1..], b[1..], k) && a[1..][k] < b[1..][k];
          assert FirstDifference(a, b, k + 1) && a[k + 1] < b[k + 1];
        }
      } else {
        assert FirstDifference(a, b, 0);
        assert forall k | FirstDifference(a, b, k) :: k == 0;
        assert !(a <= b);
      }
    }
  }

  ghost predicate FirstDifference(a: string, b: string, k: int) {
    0 <= k < |a| && k < |b| && a[k] != b[k] && forall j :: 0 <= j < k ==> a[j] == b[j]
  }

  function Insert(s: seq<string>, x: string): seq<string> {
    if s == [] || Leq(x, s[0]) then [x] + s else [s[0]] + Insert(s[1..], x)
  }

  /** What the library's `sort` returns; strings in code-unit order leave it no choice. */
  function Sort(s: seq<string>): seq<string> {
    if s == [] then [] else Insert(Sort(s[1..]), s[0])
  }

  lemma {:induction false} InsertSorts(s: seq<string>, x: string)
    requires IsSorted(s)
    ensures IsSorted(Insert(s, x)) && multiset(Insert(s, x)) == multiset(s) + multiset{x}
  {
    if s == [] {
    } else if Leq(x, s[0]) {
      forall j | 0 <= j < |s| ensures Leq(x, s[j]) {
        if j > 0 {
          LeqIsTransitive(x, s[0], s[j]);
        }
      }
    } else {
      LeqIsTotal(x, s[0]);
      InsertSorts(s[1..], x);
      var rest := Insert(s[1..], x);
      assert s == [s[0]] + s[1..];
      forall j | 0 <= j < |rest| ensures Leq(s[0], rest[j]) {
        assert rest[j] in multiset(rest);
        if rest[j] != x {
          assert rest[j] in multiset(s[1..]);
          assert rest[j] in s[1..];
        }
      }
    }
  }

  lemma {:induction false} SortSorts(s: seq<string>)
    ensures IsSorted(Sort(s)) && multiset(Sort(s)) == multiset(s)
  {
    if s != [] {
      SortSorts(s[1..]);
      InsertSorts(Sort(s[1..]), s[0]);
      assert s == [s[0]] + s[1..];
    }
  }

  /** `createDisclosures`: one disclosure per claim, and the sorted digests for `_sd`. */
  method CreateDisclosures(c: Codec, members: seq<Member>, salts: seq<string>)
    returns (disclosures: seq<string>, sd: seq<string>)
    requires |salts| == |members|
    ensures disclosures == Disclosures(c, members, salts)
    ensures IsSorted(sd) && multiset(sd) == multiset(DigestsOf(c, disclosures))
  {
    disclosures := [];
    var sdDigests := [];
    for i := 0 to |members|
      invariant |disclosures| == i && disclosures == Disclosures(c, members, salts)[..i]
      invariant sdDigests == DigestsOf(c, disclosures)
    {
      var disclosure := c.encode(salts[i], members[i].name, members[i].value);
      disclosures := disclosures + [disclosure];
      sdDigests := sdDigests + [c.digest(disclosure)];
    }
    SortSorts(sdDigests);
    sd := Sort(sdDigests);
  }

  // ---------------------------------------------------------------------------------------------
  // The payload
  // ---------------------------------------------------------------------------------------------

  /** Spreads members over a payload, later ones on top. */
  function Spread(payload: map<string, PayloadValue>, members: seq<Member>): map<string, PayloadValue> {
    if members == [] then payload
    else
      var last := members[|members| - 1];
      Spread(payload, members[..|members| - 1])[last.name := Value(last.value)]
  }

  const HASH_ALG := "sha-256"

  function WithDigests(payload: map<string, PayloadValue>, sd: seq<string>): map<string, PayloadValue> {
    payload["_sd" := Digests(sd)]["_sd_alg" := Text(HASH_ALG)]
  }

  lemma {:induction false} SpreadKeys(payload: map<string, PayloadValue>, members: seq<Member>, k: string)
    ensures k in Spread(payload, members) <==> k in payload || HasName(members, k)
    ensures k in payload && !HasName(members, k) ==> Spread(payload, members)[k] == payload[k]
  {
    if members != [] {
      var n := |members| - 1;
      SpreadKeys(payload, members[..n], k);
      assert HasName(members, k) <==> HasName(members[..n], k) || members[n].name == k by {
        assert forall i | 0 <= i < n :: members[..n][i] == members[i];
      }
    }
  }

  lemma {:induction false} SpreadHolds(payload: map<string, PayloadValue>, members: seq<Member>, i: nat)
    requires DistinctNames(members) && i < |members|
    ensures members[i].name in Spread(payload, members)
    ensures Spread(payload, members)[members[i].name] == Value(members[i].value)
  {
    var n := |members| - 1;
    if i < n {
      SpreadHolds(payload, members[..n], i);
    }
  }

  // ---------------------------------------------------------------------------------------------
  // Assembly
  // ---------------------------------------------------------------------------------------------

  function Join(parts: seq<string>): string {
    if parts == [] then ""
    else if |parts| == 1 then parts[0]
    else parts[0] + "~" + Join(parts[1..])
  }

  /** What a reader gets by splitting at `~`. */
  function Split(s: string): (parts: seq<string>)
    ensures parts != []
  {
    if s == "" then [""]
    else
      var rest := Split(s[1..]);
      if s[0] == '~' then [""] + rest else [[s[0]] + rest[0]] + rest[1..]
  }

  lemma {:induction false} SplitWithout(s: string)
    requires '~' !in s
    ensures Split(s) == [s]
  {
    if s != "" {
      SplitWithout(s[1..]);
      assert s == [s[0]] + s[1..];
      assert [s[1..]][1..] == [];
    }
  }

  lemma {:induction false} SplitAtFirst(s: string, rest: string)
    requires '~' !in s
    ensures Split(s + "~" + rest) == [s] + Split(rest)
  {
    if s == "" {
      assert s + "~" + rest == "~" + rest;
    } else {
      assert (s + "~" + rest)[1..] == s[1..] + "~" + rest;
      SplitAtFirst(s[1..], rest);
      assert (s + "~" + rest)[0] == s[0] && s == [s[0]] + s[1..];
      assert ([s[1..]] + Split(rest))[1..] == Split(rest);
    }
  }

  lemma {:induction false} SplitInvertsJoin(parts: seq<string>, tail: string)
    requires parts != [] && forall i | 0 <= i < |parts| :: '~' !in parts[i]
    ensures Split(Join(parts) + "~" + tail) == parts + Split(tail)
  {
    if |parts| == 1 {
      SplitAtFirst(parts[0], tail);
    } else {
      var rest := Join(parts[1..]) + "~" + tail;
      assert Join(parts) + "~" + tail == parts[0] + "~" + rest;
      SplitAtFirst(parts[0], rest);
      SplitInvertsJoin(parts[1..], tail);
      assert [parts[0]] + (parts[1..] + Split(tail)) == parts + Split(tail);
    }
  }

  /** What the finished credential is made of. */
  datatype Packed = Packed(payload: map<string, PayloadValue>, disclosures: seq<string>, text: string)

  /** The `_sd` member lists the digests of exactly the appended disclosures, in sorted order. */
  ghost predicate ListsItsDisclosures(c: Codec, p: Packed) {
    if p.disclosures == [] then true
    else
      && "_sd" in p.payload && p.payload["_sd"].Digests?
      && IsSorted(p.payload["_sd"].list)
      && multiset(p.payload["_sd"].list) == multiset(DigestsOf(c, p.disclosures))
      && "_sd_alg" in p.payload && p.payload["_sd_alg"] == Text(HASH_ALG)
  }

  /** A claim kept in the payload sits there, unless it carries the name of a member added later. */
  predicate Survives(name: string, disclosures: seq<string>) {
    disclosures == [] || (name != "_sd" && name != "_sd_alg")
  }

  /**
    The rest of `createCredential` after the claim loop. With any disclosure, splitting the text at
    `~` gives back the JWT and the disclosures in order; without one there is no separator at all.
    Every member kept for the payload is there exactly when its name survives the digests.
   */
  method Pack(c: Codec, base: map<string, PayloadValue>, kept: seq<Member>, disclosable: seq<Member>,
              salts: seq<string>)
    returns (p: Packed)
    requires SeparatorFree(c) && DistinctNames(kept) && DistinctNames(disclosable) && |salts| == |disclosable|
    ensures p.disclosures == Disclosures(c, disclosable, salts)
    ensures ListsItsDisclosures(c, p)
    ensures forall i :: 0 <= i < |kept| ==>
              (kept[i].name in p.payload && p.payload[kept[i].name] == Value(kept[i].value) <==>
               Survives(kept[i].name, p.disclosures))
    ensures forall k :: k in p.payload <==>
                        k in base || HasName(kept, k) || (disclosable != [] && (k == "_sd" || k == "_sd_alg"))
    ensures forall k :: k in base && !HasName(kept, k) && Survives(k, p.disclosures) ==> p.payload[k] == base[k]
    ensures Split(p.text) == [c.sign(p.payload)] + (if disclosable == [] then [] else p.disclosures + [""])
  {
    var payload := Spread(base, kept);
    forall k
      ensures k in payload <==> k in base || HasName(kept, k)
      ensures k in base && !HasName(kept, k) ==> payload[k] == base[k]
    {
      SpreadKeys(base, kept, k);
    }
    forall i | 0 <= i < |kept| ensures kept[i].name in payload && payload[kept[i].name] == Value(kept[i].value) {
      SpreadHolds(base, kept, i);
    }
    var disclosures := [];
    if |disclosable| > 0 {
      var sd;
      disclosures, sd := CreateDisclosures(c, disclosable, salts);
      payload := WithDigests(payload, sd);
    }
    var jwt := c.sign(payload);
    var text := jwt;
    SplitWithout(jwt);
    if |disclosures| > 0 {
      text := jwt + "~" + Join(disclosures) + "~";
      assert text == jwt + "~" + (Join(disclosures) + "~" + "");
      SplitAtFirst(jwt, Join(disclosures) + "~" + "");
      forall i | 0 <= i < |disclosures| ensures '~' !in disclosures[i] {
        assert disclosures[i] == c.encode(salts[i], disclosable[i].name, disclosable[i].value);
      }
      SplitInvertsJoin(disclosures, "");
      assert [jwt] + (disclosures + Split("")) == [jwt] + (disclosures + [""]);
    }
    p := Packed(payload, disclosures, text);
  }

  /** The claim loop and the packing together: where every configured claim of the source ends up. */
  method CreateCredential(c: Codec, base: map<string, PayloadValue>, claims: seq<Claim>, source: Tree,
                          nonDisclosable: set<string>, saltFor: string -> string)
    returns (ok: bool, p: Packed, ghost hidden: seq<Member>)
    requires SeparatorFree(c)
    ensures ok <==> forall j :: 0 <= j < |claims| ==> !Refused(source, claims[j])
    ensures ok ==> HoldsAsked(source, claims, hidden, name => name !in nonDisclosable)
    ensures ok ==> |p.disclosures| == |hidden| &&
                   (forall i :: 0 <= i < |hidden| ==>
                     p.disclosures[i] == c.encode(saltFor(hidden[i].name), hidden[i].name, hidden[i].value))
    ensures ok ==> ListsItsDisclosures(c, p)
    ensures ok ==> forall name ::
                     Asked(source, claims, name) && name in nonDisclosable && Survives(name, p.disclosures) ==>
                     name in p.payload && Some(p.payload[name]) == PayloadOf(Read(source, [name]))
    ensures ok ==> Split(p.text) == [c.sign(p.payload)] + (if hidden == [] then [] else p.disclosures + [""])
  {
    var kept, disclosable;
    ok, kept, disclosable := SplitClaims(claims, source, nonDisclosable);
    hidden := disclosable;
    if !ok {
      p := Packed(map[], [], "");
      return;
    }
    var salts := seq(|disclosable|, i requires 0 <= i < |disclosable| => saltFor(disclosable[i].name));
    p := Pack(c, base, kept, disclosable, salts);
    forall name | Asked(source, claims, name) && name in nonDisclosable && Survives(name, p.disclosures)
      ensures name in p.payload && Some(p.payload[name]) == PayloadOf(Read(source, [name]))
    {
      assert HasName(kept, name);
      var i :| 0 <= i < |kept| && kept[i].name == name;
    }
  }

  function PayloadOf(t: Option<Tree>): Option<PayloadValue> {
    match t
    case Some(v) => Some(Value(v))
    case None => None
  }
}
