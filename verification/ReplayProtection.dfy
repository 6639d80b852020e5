/**
  How far the replay caches protect DPoP proofs and client assertions over whole runs.

  A run is any sequence of presentations, of any proofs or assertions, with non-decreasing clocks.
  `otherChecks` stands for every check made before the cache is asked: signature, binding, nonce.
 */
module ReplayProtection {
  import opened Prelude
  import opened JsStrings
  import opened JtiStores

  // ---------------------------------------------------------------------------------------------
  // DPoP proofs
  // ---------------------------------------------------------------------------------------------

  datatype DpopPolicy = DpopPolicy(maxTokenAge: nat, clockTolerance: nat)

  const DEFAULT_DPOP_POLICY := DpopPolicy(300, 60)

  function WindowSeconds(p: DpopPolicy): nat {
    p.maxTokenAge + p.clockTolerance
  }

  function ProofJtiTtlMs(p: DpopPolicy): nat {
    WindowSeconds(p) * 1000
  }

  datatype DpopProof = DpopProof(jwkThumbprint: JsString, jti: JsString, iat: int)

  /** The `iat` window of a proof: not from the future, not too old, with tolerance on both sides. */
  predicate InWindow(p: DpopPolicy, iat: int, now: int) {
    iat <= Seconds(now) + p.clockTolerance && Seconds(now) - iat <= WindowSeconds(p)
  }

  /** The window on the clock: it opens the tolerance before the named second and shuts after the last good one. */
  lemma WindowExactly(p: DpopPolicy, iat: int, now: int)
    ensures InWindow(p, iat, now) <==>
            (iat - p.clockTolerance) * 1000 <= now < (iat + p.maxTokenAge + p.clockTolerance + 1) * 1000
    ensures InWindow(DEFAULT_DPOP_POLICY, iat, now) <==> -60_000 <= now - iat * 1000 < 361_000
  {
  }

  datatype ProofUse = ProofUse(proof: DpopProof, now: int, otherChecks: bool)

  function ProofOp(p: DpopPolicy, use: ProofUse): Op {
    Use(Attempt(DpopKey(use.proof.jwkThumbprint, use.proof.jti), use.now, ProofJtiTtlMs(p),
                use.otherChecks && InWindow(p, use.proof.iat, use.now)))
  }

  function ProofOps(p: DpopPolicy, run: seq<ProofUse>): (ops: seq<Op>)
    ensures |ops| == |run|
  {
    seq(|run|, i requires 0 <= i < |run| => ProofOp(p, run[i]))
  }

  predicate ProofRun(run: seq<ProofUse>) {
    forall i, j | 0 <= i < j < |run| :: run[i].now <= run[j].now
  }

  predicate ProofAccepted(backend: Backend, p: DpopPolicy, run: seq<ProofUse>, i: nat)
    requires i < |run|
  {
    Accepts(backend, ProofOps(p, run), i)
  }

  /**
    If a proof is accepted a second time, the first entry has expired and the proof is still inside
    its window: so the first acceptance came before the end of the proof's own `iat` second.
   */
  lemma SecondAcceptanceIsLate(backend: Backend, p: DpopPolicy, run: seq<ProofUse>, i: nat, j: nat)
    requires ProofRun(run) && i < j < |run| && run[i].proof == run[j].proof
    requires ProofAccepted(backend, p, run, i) && ProofAccepted(backend, p, run, j)
    ensures run[i].now + ProofJtiTtlMs(p) < run[j].now <= (run[i].proof.iat + WindowSeconds(p)) * 1000 + 999
    ensures run[i].now < run[i].proof.iat * 1000 + 999
  {
    var ops := ProofOps(p, run);
    assert InOrder(ops);
    if run[j].now <= run[i].now + ProofJtiTtlMs(p) {
      RefusedInEveryBackend(backend, ops, i, j);
    }
  }

  /** The proof is presented at t and once more at some later time, and accepted both times. */
  ghost predicate Replayable(backend: Backend, p: DpopPolicy, proof: DpopProof, t: int) {
    exists run: seq<ProofUse>, i: nat, j: nat ::
      && ProofRun(run) && i < j < |run|
      && run[i].proof == run[j].proof == proof && run[i].now == t
      && ProofAccepted(backend, p, run, i) && ProofAccepted(backend, p, run, j)
  }

  /** A proof from the future is accepted again right after its entry expires. */
  lemma ReplaysOnceForgotten(backend: Backend, p: DpopPolicy, proof: DpopProof, t: int) returns (run: seq<ProofUse>)
    requires InWindow(p, proof.iat, t) && t < proof.iat * 1000 + 999
    ensures |run| == 2 && ProofRun(run) && run[0].proof == run[1].proof == proof && run[0].now == t
    ensures ProofAccepted(backend, p, run, 0) && ProofAccepted(backend, p, run, 1)
  {
    var again := t + ProofJtiTtlMs(p) + 1;
    run := [ProofUse(proof, t, true), ProofUse(proof, again, true)];
    StillInWindow(p, proof.iat, t);
    var first, second := ProofOp(p, run[0]), ProofOp(p, run[1]);
    AcceptedOnceExpired(backend, first.attempt, second.attempt);
    assert ProofOps(p, run) == [first, second];
  }

  lemma StillInWindow(p: DpopPolicy, iat: int, t: int)
    requires InWindow(p, iat, t) && t < iat * 1000 + 999
    ensures InWindow(p, iat, t + ProofJtiTtlMs(p) + 1)
  {
    assert Seconds(t + WindowSeconds(p) * 1000 + 1) == Seconds(t + 1) + WindowSeconds(p);
  }

  /**
    The exact replay bound: a proof accepted at t can be accepted again in some run if and only if t
    precedes the last millisecond of the second its `iat` names. Keeping a jti for the length of the
    window therefore covers every proof whose clock was not ahead of the server's.
   */
  lemma ReplayableExactlyWhen(backend: Backend, p: DpopPolicy, proof: DpopProof, t: int)
    requires InWindow(p, proof.iat, t)
    ensures Replayable(backend, p, proof, t) <==> t < proof.iat * 1000 + 999
  {
    if t < proof.iat * 1000 + 999 {
      var run := ReplaysOnceForgotten(backend, p, proof, t);
    }
    forall run: seq<ProofUse>, i: nat, j: nat |
      && ProofRun(run) && i < j < |run|
      && run[i].proof == run[j].proof == proof && run[i].now == t
      && ProofAccepted(backend, p, run, i) && ProofAccepted(backend, p, run, j)
      ensures t < proof.iat * 1000 + 999
    {
      SecondAcceptanceIsLate(backend, p, run, i, j);
    }
  }

  /** With the default policy, a proof whose clock is a minute ahead is accepted twice. */
  lemma ProofFromTheFutureReplays(backend: Backend, jwkThumbprint: JsString, jti: JsString)
    ensures Replayable(backend, DEFAULT_DPOP_POLICY, DpopProof(jwkThumbprint, jti, 60), 0)
  {
    ReplayableExactlyWhen(backend, DEFAULT_DPOP_POLICY, DpopProof(jwkThumbprint, jti, 60), 0);
  }

  // ---------------------------------------------------------------------------------------------
  // private_key_jwt client assertions
  // ---------------------------------------------------------------------------------------------

  const CLIENT_ASSERTION_CLOCK_TOLERANCE_SECONDS := 10
  const MIN_CLIENT_ASSERTION_JTI_TTL_MS := 1

  datatype Assertion = Assertion(clientId: JsString, jti: JsString, exp: int)

  /** The signature check still passes this many seconds past `exp`. */
  predicate WithinTolerance(exp: int, now: int) {
    exp > Seconds(now) - CLIENT_ASSERTION_CLOCK_TOLERANCE_SECONDS
  }

  /** The cache keeps the jti until `exp`, and is asked only while that leaves a positive lifetime. */
  function AssertionTtlMs(exp: int, now: int): int {
    exp * 1000 - now
  }

  datatype AssertionUse = AssertionUse(assertion: Assertion, now: int, otherChecks: bool)

  function AssertionOp(use: AssertionUse): Op {
    var ttlMs := AssertionTtlMs(use.assertion.exp, use.now);
    Use(Attempt(AssertionKey(use.assertion.clientId, use.assertion.jti), use.now, ttlMs,
                && use.otherChecks
                && WithinTolerance(use.assertion.exp, use.now)
                && ttlMs >= MIN_CLIENT_ASSERTION_JTI_TTL_MS))
  }

  function AssertionOps(run: seq<AssertionUse>): (ops: seq<Op>)
    ensures |ops| == |run|
  {
    seq(|run|, i requires 0 <= i < |run| => AssertionOp(run[i]))
  }

  predicate AssertionRun(run: seq<AssertionUse>) {
    forall i, j | 0 <= i < j < |run| :: run[i].now <= run[j].now
  }

  predicate AssertionAccepted(backend: Backend, run: seq<AssertionUse>, i: nat)
    requires i < |run|
  {
    Accepts(backend, AssertionOps(run), i)
  }

  /** Over any run each assertion is accepted at most once, and only strictly before its `exp`. */
  lemma AssertionAcceptedAtMostOnce(backend: Backend, run: seq<AssertionUse>, i: nat, j: nat)
    requires AssertionRun(run) && i < |run| && j < |run| && run[i].assertion == run[j].assertion
    requires AssertionAccepted(backend, run, i) && AssertionAccepted(backend, run, j)
    ensures i == j && run[i].now < run[i].assertion.exp * 1000
  {
    var ops := AssertionOps(run);
    assert InOrder(ops);
    if i < j {
      RefusedInEveryBackend(backend, ops, i, j);
    } else if j < i {
      RefusedInEveryBackend(backend, ops, j, i);
    }
  }

  /**
    No false alarm: the cache refuses an otherwise good assertion only when an earlier accepted one
    of the same client carried the same jti and has not passed its `exp`.
   */
  lemma RefusalHasACause(backend: Backend, run: seq<AssertionUse>, j: nat) returns (i: nat)
    requires AssertionRun(run) && j < |run| && AssertionOp(run[j]).attempt.checked
    requires !AssertionAccepted(backend, run, j)
    ensures i < j && AssertionAccepted(backend, run, i)
    ensures run[i].assertion.clientId == run[j].assertion.clientId
    ensures run[i].assertion.jti == run[j].assertion.jti
    ensures run[j].now <= run[i].assertion.exp * 1000
  {
    i := RefusalHasASource(backend, AssertionOps(run), j);
    var a, b := run[i].assertion, run[j].assertion;
    AssertionKeyIsWellFormed(a.clientId, a.jti);
    AssertionKeyIsWellFormed(b.clientId, b.jti);
    AssertionKeyIsInjective(a.clientId, a.jti, b.clientId, b.jti);
  }

  /** Every entry in the cache was put there by an accepted use, with that use's expiry. */
  lemma {:induction false} LiveEntryHasASource(ops: seq<Op>, j: nat, key: JsString) returns (i: nat)
    requires j <= |ops| && key in MemoryAfter(ops[..j])
    ensures i < j && ops[i].Use? && ops[i].attempt.key == key && MemoryAccepts(ops, i)
    ensures MemoryAfter(ops[..j])[key] == ops[i].attempt.now + ops[i].attempt.ttlMs
  {
    assert ops[..j][..j - 1] == ops[..j - 1];
    var last := ops[j - 1];
    if last.Use? && last.attempt.key == key && MemoryAccepts(ops, j - 1) {
      i := j - 1;
    } else {
      i := LiveEntryHasASource(ops, j - 1, key);
    }
  }

  /** In any backend, a checked use is refused only while an accepted use under the same name is remembered. */
  lemma RefusalHasASource(backend: Backend, ops: seq<Op>, j: nat) returns (i: nat)
    requires InOrder(ops) && j < |ops| && ops[j].Use? && ops[j].attempt.checked && !Accepts(backend, ops, j)
    ensures i < j && ops[i].Use? && Accepts(backend, ops, i)
    ensures EntryName(backend, ops[i].attempt.key) == EntryName(backend, ops[j].attempt.key)
    ensures ops[j].attempt.now <= ops[i].attempt.now + ops[i].attempt.ttlMs
  {
    var named := NamedOps(backend, ops);
    assert InOrder(named);
    AcceptsByName(backend, ops, j);
    i := LiveEntryHasASource(named, j, named[j].attempt.key);
    AcceptsByName(backend, ops, i);
  }

  // ---------------------------------------------------------------------------------------------
  // Refused DPoP proofs
  // ---------------------------------------------------------------------------------------------

  /** Thumbprints are base64url text. */
  predicate IsThumbprint(t: JsString) {
    COLON !in t && forall i | 0 <= i < |t| :: !IsSurrogate(t[i])
  }

  predicate ThumbprintsOnly(run: seq<ProofUse>) {
    forall k | 0 <= k < |run| :: IsThumbprint(run[k].proof.jwkThumbprint)
  }

  /**
    A DPoP proof is refused as a replay only while an accepted proof of its own key, with a jti of the
    same name, is remembered.
   */
  lemma ProofRefusalHasACause(backend: Backend, p: DpopPolicy, run: seq<ProofUse>, j: nat) returns (i: nat)
    requires ProofRun(run) && j < |run| && ProofOp(p, run[j]).attempt.checked && ThumbprintsOnly(run)
    requires !ProofAccepted(backend, p, run, j)
    ensures i < j && ProofAccepted(backend, p, run, i)
    ensures run[i].proof.jwkThumbprint == run[j].proof.jwkThumbprint
    ensures EntryName(backend, run[i].proof.jti) == EntryName(backend, run[j].proof.jti)
    ensures run[j].now <= run[i].now + ProofJtiTtlMs(p)
  {
    i := RefusalHasASource(backend, ProofOps(p, run), j);
    var a, b := run[i].proof, run[j].proof;
    DpopEntryExactlyWhen(a.jwkThumbprint, a.jti, b.jwkThumbprint, b.jti);
    if backend == InMemory {
      DpopKeyIsInjective(a.jwkThumbprint, a.jti, b.jwkThumbprint, b.jti);
    }
  }

  predicate SameProofId(a: DpopProof, b: DpopProof) {
    a.jwkThumbprint == b.jwkThumbprint && a.jti == b.jti
  }

  /** In some run a good proof is refused although no accepted one had its key and jti. */
  ghost predicate FalselyRefused(backend: Backend, p: DpopPolicy, proof: DpopProof) {
    exists run: seq<ProofUse>, j: nat ::
      && ProofRun(run) && ThumbprintsOnly(run) && j < |run| && run[j].proof == proof
      && ProofOp(p, run[j]).attempt.checked && !ProofAccepted(backend, p, run, j)
      && forall i :: 0 <= i < j && ProofAccepted(backend, p, run, i) ==> !SameProofId(run[i].proof, proof)
  }

  /** Memory raises no false alarm; the cloud does for exactly the jti values something else encodes like. */
  lemma FalselyRefusedExactlyWhen(backend: Backend, p: DpopPolicy, proof: DpopProof)
    requires IsThumbprint(proof.jwkThumbprint)
    ensures FalselyRefused(backend, p, proof) <==> backend == Cloud && !Distinctive(proof.jti)
  {
    if backend == Cloud && !Distinctive(proof.jti) {
      LookalikeEncodesAs(proof.jti);
      var run := FalseAlarm(p, proof, Lookalike(proof.jti));
      assert !SameProofId(run[0].proof, proof);
    }
    forall run: seq<ProofUse>, j: nat |
      && ProofRun(run) && ThumbprintsOnly(run) && j < |run| && run[j].proof == proof
      && ProofOp(p, run[j]).attempt.checked && !ProofAccepted(backend, p, run, j)
      && (forall i :: 0 <= i < j && ProofAccepted(backend, p, run, i) ==> !SameProofId(run[i].proof, proof))
      ensures backend == Cloud && !Distinctive(proof.jti)
    {
      var i := ProofRefusalHasACause(backend, p, run, j);
      assert !SameProofId(run[i].proof, proof);
      if Distinctive(proof.jti) && backend == Cloud {
        OnlyItselfEncodesAs(proof.jti, run[i].proof.jti);
      }
    }
  }

  /** Two jti values of one key that encode alike: both are new in memory, and the second is refused in the cloud. */
  lemma FalseAlarm(p: DpopPolicy, proof: DpopProof, otherJti: JsString) returns (run: seq<ProofUse>)
    requires IsThumbprint(proof.jwkThumbprint)
    requires otherJti != proof.jti && WellFormed(otherJti) == WellFormed(proof.jti)
    ensures |run| == 2 && ProofRun(run) && ThumbprintsOnly(run)
    ensures run[0].proof == proof.(jti := otherJti) && run[1].proof == proof
    ensures ProofOp(p, run[0]).attempt.checked && ProofOp(p, run[1]).attempt.checked
    ensures ProofAccepted(InMemory, p, run, 0) && ProofAccepted(InMemory, p, run, 1)
    ensures ProofAccepted(Cloud, p, run, 0) && !ProofAccepted(Cloud, p, run, 1)
  {
    var now := proof.iat * 1000;
    var other := proof.(jti := otherJti);
    run := [ProofUse(other, now, true), ProofUse(proof, now, true)];
    DpopEntryExactlyWhen(proof.jwkThumbprint, otherJti, proof.jwkThumbprint, proof.jti);
    if DpopKey(proof.jwkThumbprint, otherJti) == DpopKey(proof.jwkThumbprint, proof.jti) {
      DpopKeyIsInjective(proof.jwkThumbprint, otherJti, proof.jwkThumbprint, proof.jti);
    }
    var k, l := DpopKey(proof.jwkThumbprint, otherJti), DpopKey(proof.jwkThumbprint, proof.jti);
    SharedEntryRefuses(k, l, now, ProofJtiTtlMs(p));
    assert ProofOps(p, run) ==
           [Use(Attempt(k, now, ProofJtiTtlMs(p), true)), Use(Attempt(l, now, ProofJtiTtlMs(p), true))];
  }

  /** The pair of jti values U+D800 and U+D801, each on its own, as in `FalseAlarm`. */
  lemma UnpairedSurrogatesCollide(p: DpopPolicy, jwkThumbprint: JsString, iat: int) returns (run: seq<ProofUse>)
    requires IsThumbprint(jwkThumbprint)
    ensures |run| == 2 && ProofRun(run)
    ensures run[0].proof == DpopProof(jwkThumbprint, [0xD800], iat)
    ensures run[1].proof == DpopProof(jwkThumbprint, [0xD801], iat)
    ensures ProofAccepted(InMemory, p, run, 0) && ProofAccepted(InMemory, p, run, 1)
    ensures ProofAccepted(Cloud, p, run, 0) && !ProofAccepted(Cloud, p, run, 1)
  {
    assert WellFormed([0xD801]) == [REPLACEMENT] == WellFormed([0xD800]);
    run := FalseAlarm(p, DpopProof(jwkThumbprint, [0xD801], iat), [0xD800]);
  }
}
