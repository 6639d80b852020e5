/**
  The KMS signature key store: concurrent `save` calls on one alias.

  A `save` is a sequence of KMS calls (describe, create key, import material, create or update the
  alias, discard the orphan). Any number of generating and importing calls interleave, any KMS call
  may fail without taking effect, and a caller may die between two KMS calls.
 */
module KmsKeyStore {
  import opened Prelude

  type KeyId = nat
  type CallId = nat

  datatype KeyState = PendingImport | Enabled | Disabled | PendingDeletion

  datatype Kind = Generate | Import

  /** Where a `save` stands; the name is the KMS call it makes next. */
  datatype Phase =
    | Describe
    | CreateKey
    | GetParametersForImport(key: KeyId)
    | ImportKeyMaterial(key: KeyId)
    | CreateAlias(key: KeyId)
    | UpdateAlias(key: KeyId)
    | ScheduleKeyDeletion(key: KeyId, result: bool)
    | Returned(ok: bool)
    | Died

  /** `made` is the key the call created, if it got that far. */
  datatype Save = Save(kind: Kind, phase: Phase, made: Option<KeyId>)

  datatype State = State(
    keys: map<KeyId, KeyState>,
    alias: Option<KeyId>,
    saves: map<CallId, Save>,
    targets: seq<KeyId>,    // history: every key the alias has pointed at, latest last
    leaked: set<KeyId>)     // history: orphans whose deletion call failed

  datatype Step =
    | Begin(call: CallId, kind: Kind)
    | Request(call: CallId, freshKey: KeyId, fails: bool)   // the call's next KMS request
    | Die(call: CallId)
    | Toggle(key: KeyId)                                    // an operator disables or enables a key

  const EMPTY := State(map[], None, map[], [], {})

  predicate Ready(state: KeyState) {
    state == Enabled || state == Disabled
  }

  function Goto(s: State, c: CallId, phase: Phase): State
    requires c in s.saves
  {
    s.(saves := s.saves[c := s.saves[c].(phase := phase)])
  }

  function PointAlias(s: State, key: KeyId): State {
    s.(alias := Some(key), targets := s.targets + [key])
  }

  /** A generating save returns early when the alias exists: fine if its key is usable, an error if not. */
  function DescribeAlias(s: State, c: CallId, fails: bool): State
    requires c in s.saves
  {
    if fails then Goto(s, c, Returned(false))
    else if s.alias.None? then Goto(s, c, CreateKey)
    else Goto(s, c, Returned(s.alias.value in s.keys && s.keys[s.alias.value] == Enabled))
  }

  function MakeKey(s: State, c: CallId, freshKey: KeyId, fails: bool): State
    requires c in s.saves
  {
    if fails then Goto(s, c, Returned(false))
    else
      var kind := s.saves[c].kind;
      var phase := if kind == Generate then CreateAlias(freshKey) else GetParametersForImport(freshKey);
      s.(keys := s.keys[freshKey := if kind == Generate then Enabled else PendingImport],
         saves := s.saves[c := Save(kind, phase, Some(freshKey))])
  }

  /** Losing the alias race is a success for a generating save and a repoint for an importing one. */
  function MakeAlias(s: State, c: CallId, key: KeyId, fails: bool): State
    requires c in s.saves
  {
    if fails then Goto(s, c, ScheduleKeyDeletion(key, false))
    else if s.alias.None? then Goto(PointAlias(s, key), c, Returned(true))
    else if s.saves[c].kind == Generate then Goto(s, c, ScheduleKeyDeletion(key, true))
    else Goto(s, c, UpdateAlias(key))
  }

  function SaveRequest(s: State, c: CallId, freshKey: KeyId, fails: bool): Option<State>
    requires c in s.saves
  {
    match s.saves[c].phase
    case Describe => Some(DescribeAlias(s, c, fails))
    case CreateKey => if freshKey in s.keys then None else Some(MakeKey(s, c, freshKey, fails))
    case GetParametersForImport(key) =>
      Some(Goto(s, c, if fails then ScheduleKeyDeletion(key, false) else ImportKeyMaterial(key)))
    case ImportKeyMaterial(key) =>
      Some(if fails then Goto(s, c, ScheduleKeyDeletion(key, false))
           else Goto(s.(keys := s.keys[key := Enabled]), c, CreateAlias(key)))
    case CreateAlias(key) => Some(MakeAlias(s, c, key, fails))
    case UpdateAlias(key) =>
      Some(if fails then Goto(s, c, ScheduleKeyDeletion(key, false))
           else Goto(PointAlias(s, key), c, Returned(true)))
    case ScheduleKeyDeletion(key, result) =>
      Some(if fails then Goto(s.(leaked := s.leaked + {key}), c, Returned(result))
           else Goto(s.(keys := s.keys[key := PendingDeletion]), c, Returned(result)))
    case _ => None
  }

  function Next(s: State, step: Step): Option<State> {
    match step
    case Begin(c, kind) =>
      if c in s.saves then None
      else Some(s.(saves := s.saves[c := Save(kind, if kind == Generate then Describe else CreateKey, None)]))
    case Request(c, freshKey, fails) =>
      if c in s.saves then SaveRequest(s, c, freshKey, fails) else None
    case Die(c) =>
      if c in s.saves && !s.saves[c].phase.Returned? then Some(Goto(s, c, Died)) else None
    case Toggle(key) =>
      if key in s.keys && Ready(s.keys[key])
      then Some(s.(keys := s.keys[key := if s.keys[key] == Enabled then Disabled else Enabled]))
      else None
  }

  function Execute(steps: seq<Step>): Option<State> {
    if steps == [] then Some(EMPTY)
    else
      var before := Execute(steps[..|steps| - 1]);
      if before.None? then None else Next(before.value, steps[|steps| - 1])
  }

  // ---------------------------------------------------------------------------------------------
  // The invariant
  // ---------------------------------------------------------------------------------------------

  /** A key a running save holds: it has never been an alias target and nothing discarded it. */
  predicate Held(s: State, key: KeyId, states: set<KeyState>) {
    key in s.keys && s.keys[key] in states && key !in s.targets
  }

  predicate SaveOk(s: State, save: Save) {
    && (save.made.Some? ==> save.made.value in s.keys)
    && match save.phase
       case Describe => save.kind == Generate && save.made.None?
       case CreateKey => save.made.None?
       case GetParametersForImport(key) =>
         save.kind == Import && save.made == Some(key) && Held(s, key, {PendingImport})
       case ImportKeyMaterial(key) =>
         save.kind == Import && save.made == Some(key) && Held(s, key, {PendingImport})
       case CreateAlias(key) => save.made == Some(key) && Held(s, key, {Enabled, Disabled})
       case UpdateAlias(key) =>
         save.kind == Import && save.made == Some(key) && s.alias.Some? && Held(s, key, {Enabled, Disabled})
       case ScheduleKeyDeletion(key, result) =>
         && save.made == Some(key) && Held(s, key, {PendingImport, Enabled, Disabled})
         && (result ==> save.kind == Generate && s.alias.Some?)
       case Returned(ok) =>
         && (ok && save.kind == Generate ==> s.alias.Some?)
         && (ok && save.kind == Import ==> save.made.Some? && save.made.value in s.targets)
         && (save.made.Some? ==> Settled(s, save.made.value))
       case Died => true
  }

  /** The three fates of a finished call's key, and the fourth when the cleanup itself failed. */
  predicate Settled(s: State, key: KeyId) {
    && key in s.keys
    && (key in s.targets || s.keys[key] == PendingDeletion || key in s.leaked)
  }

  ghost predicate TargetsOk(s: State) {
    && (s.alias == if s.targets == [] then None else Some(s.targets[|s.targets| - 1]))
    && (forall key :: key in s.targets ==> key in s.keys && Ready(s.keys[key]))
  }

  ghost predicate SavesOk(s: State) {
    && (forall c :: c in s.saves ==> SaveOk(s, s.saves[c]))
    && (forall c, d :: c in s.saves && d in s.saves && c != d && s.saves[c].made.Some? ==>
          s.saves[c].made != s.saves[d].made)
  }

  ghost predicate OnlyGenerating(s: State) {
    forall c :: c in s.saves ==> s.saves[c].kind == Generate
  }

  ghost predicate Inv(s: State) {
    TargetsOk(s) && SavesOk(s) && (OnlyGenerating(s) ==> |s.targets| <= 1)
  }

  lemma NextKeepsTargets(s: State, step: Step)
    requires Inv(s) && Next(s, step).Some?
    ensures TargetsOk(Next(s, step).value)
    ensures OnlyGenerating(Next(s, step).value) ==> |Next(s, step).value.targets| <= 1
  {
    if step.Request? {
      RequestKeepsTargets(s, step);
      RequestKeepsKinds(s, step);
    } else {
      OtherStepKeepsTargets(s, step);
    }
  }

  lemma OtherStepKeepsTargets(s: State, step: Step)
    requires Inv(s) && !step.Request? && Next(s, step).Some?
    ensures TargetsOk(Next(s, step).value) && Next(s, step).value.targets == s.targets
    ensures OnlyGenerating(Next(s, step).value) ==> OnlyGenerating(s)
  {
    var t := Next(s, step).value;
    if OnlyGenerating(t) {
      forall c | c in s.saves ensures s.saves[c].kind == Generate {
        assert c in t.saves && s.saves[c].kind == t.saves[c].kind;
      }
    }
  }

  lemma RequestKeepsKinds(s: State, step: Step)
    requires step.Request? && Next(s, step).Some?
    ensures OnlyGenerating(Next(s, step).value) ==> OnlyGenerating(s) && s.saves[step.call].kind == Generate
  {
    var t := Next(s, step).value;
    assert t.saves == s.saves[step.call := t.saves[step.call]] && t.saves[step.call].kind == s.saves[step.call].kind;
    if OnlyGenerating(t) {
      forall c | c in s.saves ensures s.saves[c].kind == Generate {
        assert c in t.saves;
      }
    }
  }

  /** A request moves the alias to its own, ready key or not at all; a generating one only sets it once. */
  lemma RequestKeepsTargets(s: State, step: Step)
    requires Inv(s) && step.Request? && Next(s, step).Some?
    ensures TargetsOk(Next(s, step).value)
    ensures Next(s, step).value.targets != s.targets ==> s.saves[step.call].kind == Import || s.targets == []
    ensures |Next(s, step).value.targets| <= |s.targets| + 1
  {
    assert SaveOk(s, s.saves[step.call]);
  }

  /** What a step may do to keys other than its own: toggle them between enabled and disabled. */
  ghost predicate SparesOthers(s: State, t: State, own: Option<KeyId>) {
    && (forall key :: key in s.keys && own != Some(key) ==>
          key in t.keys && (t.keys[key] == s.keys[key] || (Ready(s.keys[key]) && Ready(t.keys[key]))))
    && (forall key :: key in s.targets ==> key in t.targets)
    && (forall key :: key in t.targets && own != Some(key) ==> key in s.targets)
    && (s.alias.Some? ==> t.alias.Some?)
    && s.leaked <= t.leaked
  }

  lemma OtherSaveStaysOk(s: State, t: State, own: Option<KeyId>, save: Save)
    requires SparesOthers(s, t, own) && SaveOk(s, save)
    requires save.made.Some? ==> save.made != own
    ensures SaveOk(t, save)
  {
  }

  /** The key a step works on: the one its call made, or is making. */
  function OwnKey(s: State, step: Step): Option<KeyId> {
    if step.Request? && step.call in s.saves then
      if s.saves[step.call].phase.CreateKey? then Some(step.freshKey) else s.saves[step.call].made
    else None
  }

  lemma NextSparesOthers(s: State, step: Step)
    requires Inv(s) && Next(s, step).Some?
    ensures SparesOthers(s, Next(s, step).value, OwnKey(s, step))
  {
    if step.Request? {
      assert SaveOk(s, s.saves[step.call]);
    }
  }

  lemma NextKeepsOwnSave(s: State, step: Step)
    requires Inv(s) && Next(s, step).Some?
    requires !step.Toggle?
    ensures var t := Next(s, step).value; step.call in t.saves && SaveOk(t, t.saves[step.call])
  {
    if step.Request? {
      RequestKeepsOwnSave(s, step);
    }
  }

  lemma RequestKeepsOwnSave(s: State, step: Step)
    requires Inv(s) && step.Request? && Next(s, step).Some?
    ensures var t := Next(s, step).value; step.call in t.saves && SaveOk(t, t.saves[step.call])
  {
    assert SaveOk(s, s.saves[step.call]);
  }

  lemma BystandersAreUntouched(s: State, step: Step, c: CallId)
    requires Inv(s) && Next(s, step).Some?
    requires c in Next(s, step).value.saves && (step.Toggle? || c != step.call)
    ensures c in s.saves && Next(s, step).value.saves[c] == s.saves[c]
    ensures s.saves[c].made.Some? ==> s.saves[c].made != OwnKey(s, step)
  {
    assert c in s.saves && SaveOk(s, s.saves[c]);
  }

  /** Bystanders keep their phase, and the key a step works on is none of theirs. */
  lemma BystandersStay(s: State, step: Step, c: CallId)
    requires Inv(s) && Next(s, step).Some?
    requires c in Next(s, step).value.saves && (step.Toggle? || c != step.call)
    ensures c in s.saves && Next(s, step).value.saves[c] == s.saves[c]
    ensures s.saves[c].made.Some? ==> s.saves[c].made != OwnKey(s, step)
    ensures SaveOk(Next(s, step).value, s.saves[c])
  {
    BystandersAreUntouched(s, step, c);
    NextSparesOthers(s, step);
    OtherSaveStaysOk(s, Next(s, step).value, OwnKey(s, step), s.saves[c]);
  }

  lemma OwnMadeIsOwnKey(s: State, step: Step)
    requires Inv(s) && Next(s, step).Some? && !step.Toggle?
    ensures var made := Next(s, step).value.saves[step.call].made;
            made.Some? ==>
              made == OwnKey(s, step) || (step.Die? && step.call in s.saves && made == s.saves[step.call].made)
  {
  }

  lemma NextKeepsSaves(s: State, step: Step)
    requires Inv(s) && Next(s, step).Some?
    ensures SavesOk(Next(s, step).value)
  {
    var t := Next(s, step).value;
    forall c | c in t.saves ensures SaveOk(t, t.saves[c]) {
      if step.Toggle? || c != step.call {
        BystandersStay(s, step, c);
      } else {
        NextKeepsOwnSave(s, step);
      }
    }
    forall c, d | c in t.saves && d in t.saves && c != d && t.saves[c].made.Some?
      ensures t.saves[c].made != t.saves[d].made
    {
      if step.Toggle? || c != step.call {
        BystandersStay(s, step, c);
      }
      if step.Toggle? || d != step.call {
        BystandersStay(s, step, d);
      }
      if !step.Toggle? {
        OwnMadeIsOwnKey(s, step);
      }
    }
  }

  lemma NextKeepsInv(s: State, step: Step)
    requires Inv(s) && Next(s, step).Some?
    ensures Inv(Next(s, step).value)
  {
    NextKeepsTargets(s, step);
    NextKeepsSaves(s, step);
  }

  lemma {:induction false} ScheduleKeepsInv(steps: seq<Step>)
    requires Execute(steps).Some?
    ensures Inv(Execute(steps).value)
  {
    if steps != [] {
      ScheduleKeepsInv(steps[..|steps| - 1]);
      NextKeepsInv(Execute(steps[..|steps| - 1]).value, steps[|steps| - 1]);
    }
  }

  // ---------------------------------------------------------------------------------------------
  // What every schedule guarantees
  // ---------------------------------------------------------------------------------------------

  /**
    The alias only ever points at a key whose material is in place, and no key it points at, or
    ever pointed at, has been discarded.
   */
  lemma AliasIsReady(steps: seq<Step>)
    requires Execute(steps).Some?
    ensures var s := Execute(steps).value;
            && (s.alias.Some? ==> s.alias.value in s.keys && Ready(s.keys[s.alias.value]))
            && (forall key :: key in s.targets ==> key in s.keys && s.keys[key] != PendingDeletion)
  {
    ScheduleKeepsInv(steps);
  }

  /** No finished call leaves a key behind, unless the call that was to discard it failed. */
  lemma FinishedCallsLeaveNoOrphan(steps: seq<Step>, c: CallId)
    requires Execute(steps).Some?
    requires c in Execute(steps).value.saves && Execute(steps).value.saves[c].phase.Returned?
    requires Execute(steps).value.saves[c].made.Some?
    ensures var s := Execute(steps).value; Settled(s, s.saves[c].made.value)
  {
    ScheduleKeepsInv(steps);
    var s := Execute(steps).value;
    assert SaveOk(s, s.saves[c]);
  }

  /** A successful save leaves an alias; a successful import was the alias's target at some point. */
  lemma SuccessMeansAlias(steps: seq<Step>, c: CallId)
    requires Execute(steps).Some?
    requires c in Execute(steps).value.saves && Execute(steps).value.saves[c].phase == Returned(true)
    ensures var s := Execute(steps).value;
            && s.alias.Some?
            && (s.saves[c].kind == Import ==> s.saves[c].made.Some? && s.saves[c].made.value in s.targets)
  {
    ScheduleKeepsInv(steps);
    var s := Execute(steps).value;
    assert SaveOk(s, s.saves[c]);
  }

  predicate GenerateOnly(steps: seq<Step>) {
    forall i | 0 <= i < |steps| :: steps[i].Begin? ==> steps[i].kind == Generate
  }

  lemma GenerateOnlyStep(s: State, step: Step)
    requires OnlyGenerating(s) && (step.Begin? ==> step.kind == Generate) && Next(s, step).Some?
    ensures OnlyGenerating(Next(s, step).value)
  {
    if step.Request? {
      var t := Next(s, step).value;
      assert t.saves == s.saves[step.call := t.saves[step.call]] && t.saves[step.call].kind == s.saves[step.call].kind;
    }
  }

  lemma {:induction false} GenerateOnlySaves(steps: seq<Step>)
    requires Execute(steps).Some? && GenerateOnly(steps)
    ensures forall c :: c in Execute(steps).value.saves ==> Execute(steps).value.saves[c].kind == Generate
  {
    if steps != [] {
      var before := steps[..|steps| - 1];
      assert GenerateOnly(before);
      GenerateOnlySaves(before);
      GenerateOnlyStep(Execute(before).value, steps[|steps| - 1]);
    }
  }

  /** When nothing is imported, the alias never moves once it is set. */
  lemma {:induction false} GenerateOnlyAliasIsStable(steps: seq<Step>, n: nat)
    requires Execute(steps).Some? && GenerateOnly(steps) && n <= |steps|
    requires Execute(steps[..n]).Some? && Execute(steps[..n]).value.alias.Some?
    ensures Execute(steps).value.alias == Execute(steps[..n]).value.alias
  {
    if n == |steps| {
      assert steps[..n] == steps;
    } else {
      var before := steps[..|steps| - 1];
      assert GenerateOnly(before) && before[..n] == steps[..n];
      GenerateOnlyAliasIsStable(before, n);
      GenerateOnlySaves(before);
      ScheduleKeepsInv(before);
      var s := Execute(before).value;
      var last := steps[|steps| - 1];
      if last.Request? {
        assert SaveOk(s, s.saves[last.call]);
      }
    }
  }

  // ---------------------------------------------------------------------------------------------
  // One undisturbed save
  // ---------------------------------------------------------------------------------------------

  datatype KmsCall =
    | DescribeKeyCall | CreateKeyCall | GetParametersForImportCall | ImportKeyMaterialCall
    | CreateAliasCall | UpdateAliasCall | ScheduleKeyDeletionCall

  /** Which failures make an undisturbed save fail. */
  ghost predicate Succeeds(keys: map<KeyId, KeyState>, alias: Option<KeyId>, kind: Kind, fails: KmsCall -> bool)
    requires alias.Some? ==> alias.value in keys
  {
    if kind == Generate then
      !fails(DescribeKeyCall) &&
      (if alias.Some? then keys[alias.value] == Enabled else !fails(CreateKeyCall) && !fails(CreateAliasCall))
    else
      && !fails(CreateKeyCall) && !fails(GetParametersForImportCall) && !fails(ImportKeyMaterialCall)
      && !fails(CreateAliasCall) && (alias.Some? ==> !fails(UpdateAliasCall))
  }

  ghost predicate MakesKey(alias: Option<KeyId>, kind: Kind, fails: KmsCall -> bool) {
    !fails(CreateKeyCall) && (kind == Generate ==> !fails(DescribeKeyCall) && alias.None?)
  }

  /**
    What an undisturbed save leaves: exactly when it succeeds, where the alias points then, and that a key
    it made is the alias's, or discarded, or left as it was where the discarding fails as well.
   */
  ghost predicate SaveGives(keys: map<KeyId, KeyState>, alias: Option<KeyId>, kind: Kind, freshKey: KeyId,
                            fails: KmsCall -> bool, after: map<KeyId, KeyState>, aliasAfter: Option<KeyId>, ok: bool)
    requires alias.Some? ==> alias.value in keys
  {
    && (ok <==> Succeeds(keys, alias, kind, fails))
    && aliasAfter == (if ok && (kind == Import || alias.None?) then Some(freshKey) else alias)
    && after - {freshKey} == keys
    && (freshKey in after <==> MakesKey(alias, kind, fails))
    && (freshKey in after ==>
          after[freshKey] ==
          if ok then Enabled
          else if !fails(ScheduleKeyDeletionCall) then PendingDeletion
          else if kind == Import && (fails(GetParametersForImportCall) || fails(ImportKeyMaterialCall))
          then PendingImport
          else Enabled)
  }

  function CallOf(phase: Phase): KmsCall
    requires !phase.Returned? && !phase.Died?
  {
    match phase
    case Describe => DescribeKeyCall
    case CreateKey => CreateKeyCall
    case GetParametersForImport(_) => GetParametersForImportCall
    case ImportKeyMaterial(_) => ImportKeyMaterialCall
    case CreateAlias(_) => CreateAliasCall
    case UpdateAlias(_) => UpdateAliasCall
    case ScheduleKeyDeletion(_, _) => ScheduleKeyDeletionCall
  }

  /** A save's next n requests, with nothing between them. */
  function Alone(s: State, c: CallId, freshKey: KeyId, fails: KmsCall -> bool, n: nat): State
    requires c in s.saves
    ensures c in Alone(s, c, freshKey, fails, n).saves
    decreases n
  {
    if n == 0 || s.saves[c].phase.Returned? || s.saves[c].phase.Died? then s
    else
      var next := Next(s, Request(c, freshKey, fails(CallOf(s.saves[c].phase))));
      if next.None? then s else Alone(next.value, c, freshKey, fails, n - 1)
  }

  /** An orphan's deletion is the save's last request. */
  lemma DiscardsAlone(s: State, c: CallId, freshKey: KeyId, fails: KmsCall -> bool, n: nat)
    requires n >= 1 && c in s.saves && s.saves[c].phase == ScheduleKeyDeletion(freshKey, false)
    ensures var end := Alone(s, c, freshKey, fails, n);
            && end.saves == s.saves[c := s.saves[c].(phase := Returned(false))] && end.alias == s.alias
            && end.keys == if fails(ScheduleKeyDeletionCall) then s.keys else s.keys[freshKey := PendingDeletion]
  {
    var next := Next(s, Request(c, freshKey, fails(ScheduleKeyDeletionCall))).value;
    assert Alone(next, c, freshKey, fails, n - 1) == next;
  }

  /** From the alias call on, for a key that is ready. */
  lemma AliasesAlone(s: State, c: CallId, freshKey: KeyId, fails: KmsCall -> bool, n: nat)
    requires n >= 3 && c in s.saves && s.saves[c].phase == CreateAlias(freshKey)
    requires s.saves[c].kind == Generate ==> s.alias.None?
    requires freshKey in s.keys && s.keys[freshKey] == Enabled
    ensures var end := Alone(s, c, freshKey, fails, n);
            var ok := !fails(CreateAliasCall) && (s.alias.Some? ==> !fails(UpdateAliasCall));
            && end.saves == s.saves[c := s.saves[c].(phase := Returned(ok))]
            && end.alias == (if ok then Some(freshKey) else s.alias)
            && end.keys == if ok || fails(ScheduleKeyDeletionCall) then s.keys else s.keys[freshKey := PendingDeletion]
  {
    var next := Next(s, Request(c, freshKey, fails(CreateAliasCall))).value;
    if fails(CreateAliasCall) {
      DiscardsAlone(next, c, freshKey, fails, n - 1);
    } else if s.alias.Some? {
      var updated := Next(next, Request(c, freshKey, fails(UpdateAliasCall))).value;
      if fails(UpdateAliasCall) {
        DiscardsAlone(updated, c, freshKey, fails, n - 2);
      } else {
        assert Alone(updated, c, freshKey, fails, n - 2) == updated;
      }
    } else {
      assert Alone(next, c, freshKey, fails, n - 1) == next;
    }
  }

  lemma GeneratesAlone(s: State, c: CallId, freshKey: KeyId, fails: KmsCall -> bool)
    requires TargetsOk(s) && freshKey !in s.keys
    requires c in s.saves && s.saves[c] == Save(Generate, Describe, None)
    ensures var end := Alone(s, c, freshKey, fails, 7);
            && end.saves[c].phase.Returned?
            && SaveGives(s.keys, s.alias, Generate, freshKey, fails, end.keys, end.alias, end.saves[c].phase.ok)
            && end.saves - {c} == s.saves - {c}
  {
    var described := Next(s, Request(c, freshKey, fails(DescribeKeyCall))).value;
    if fails(DescribeKeyCall) || s.alias.Some? {
      assert Alone(described, c, freshKey, fails, 6) == described;
    } else {
      var made := Next(described, Request(c, freshKey, fails(CreateKeyCall))).value;
      if fails(CreateKeyCall) {
        assert Alone(made, c, freshKey, fails, 5) == made;
      } else {
        AliasesAlone(made, c, freshKey, fails, 5);
        assert Alone(described, c, freshKey, fails, 6) == Alone(made, c, freshKey, fails, 5);
      }
    }
    assert Alone(s, c, freshKey, fails, 7) == Alone(described, c, freshKey, fails, 6);
  }

  lemma ImportsAlone(s: State, c: CallId, freshKey: KeyId, fails: KmsCall -> bool)
    requires TargetsOk(s) && freshKey !in s.keys
    requires c in s.saves && s.saves[c] == Save(Import, CreateKey, None)
    ensures var end := Alone(s, c, freshKey, fails, 7);
            && end.saves[c].phase.Returned?
            && SaveGives(s.keys, s.alias, Import, freshKey, fails, end.keys, end.alias, end.saves[c].phase.ok)
            && end.saves - {c} == s.saves - {c}
  {
    var made := Next(s, Request(c, freshKey, fails(CreateKeyCall))).value;
    assert Alone(s, c, freshKey, fails, 7) == Alone(made, c, freshKey, fails, 6);
    if fails(CreateKeyCall) {
      assert Alone(made, c, freshKey, fails, 6) == made;
    } else {
      FillsAlone(made, c, freshKey, fails, 6);
    }
  }

  /** From a key without material to the end of an import. */
  lemma FillsAlone(s: State, c: CallId, freshKey: KeyId, fails: KmsCall -> bool, n: nat)
    requires n >= 5 && c in s.saves && s.saves[c].phase == GetParametersForImport(freshKey)
    requires s.saves[c].kind == Import && freshKey in s.keys && s.keys[freshKey] == PendingImport
    ensures var end := Alone(s, c, freshKey, fails, n);
            var filled := !fails(GetParametersForImportCall) && !fails(ImportKeyMaterialCall);
            var ok := filled && !fails(CreateAliasCall) && (s.alias.Some? ==> !fails(UpdateAliasCall));
            && end.saves == s.saves[c := s.saves[c].(phase := Returned(ok))]
            && end.alias == (if ok then Some(freshKey) else s.alias)
            && end.keys == s.keys[freshKey :=
                 if ok then Enabled
                 else if !fails(ScheduleKeyDeletionCall) then PendingDeletion
                 else if filled then Enabled else PendingImport]
  {
    var ready := Next(s, Request(c, freshKey, fails(GetParametersForImportCall))).value;
    assert Alone(s, c, freshKey, fails, n) == Alone(ready, c, freshKey, fails, n - 1);
    if fails(GetParametersForImportCall) {
      DiscardsAlone(ready, c, freshKey, fails, n - 1);
    } else {
      var imported := Next(ready, Request(c, freshKey, fails(ImportKeyMaterialCall))).value;
      assert Alone(ready, c, freshKey, fails, n - 1) == Alone(imported, c, freshKey, fails, n - 2);
      if fails(ImportKeyMaterialCall) {
        DiscardsAlone(imported, c, freshKey, fails, n - 2);
      } else {
        AliasesAlone(imported, c, freshKey, fails, n - 2);
      }
    }
  }

  /** In the middle of any schedule: a save that is left alone ends as an undisturbed save does. */
  lemma SaveAloneGives(s: State, c: CallId, kind: Kind, freshKey: KeyId, fails: KmsCall -> bool)
    requires TargetsOk(s) && freshKey !in s.keys && c !in s.saves
    ensures Next(s, Begin(c, kind)).Some?
    ensures var end := Alone(Next(s, Begin(c, kind)).value, c, freshKey, fails, 7);
            && end.saves[c].phase.Returned?
            && SaveGives(s.keys, s.alias, kind, freshKey, fails, end.keys, end.alias, end.saves[c].phase.ok)
            && end.saves - {c} == s.saves
  {
    var begun := Next(s, Begin(c, kind)).value;
    assert begun.saves - {c} == s.saves;
    if kind == Generate {
      GeneratesAlone(begun, c, freshKey, fails);
    } else {
      ImportsAlone(begun, c, freshKey, fails);
    }
  }

  /** What may come between: a caller may die at any point before its return, and an operator toggles ready keys. */
  lemma InterruptionsExactly(s: State, c: CallId, key: KeyId)
    ensures Next(s, Die(c)).Some? <==> c in s.saves && !s.saves[c].phase.Returned?
    ensures Next(s, Die(c)).Some? ==> Next(s, Die(c)).value == s.(saves := s.saves[c := s.saves[c].(phase := Died)])
    ensures Next(s, Toggle(key)).Some? <==> key in s.keys && s.keys[key] in {Enabled, Disabled}
    ensures Next(s, Toggle(key)).Some? ==>
              Next(s, Toggle(key)).value ==
              s.(keys := s.keys[key := if s.keys[key] == Enabled then Disabled else Enabled])
  {
  }

  /** The store as an object over one alias, with `save` as the source writes it. */
  class KmsSignatureKeyStore {
    var keys: map<KeyId, KeyState>
    var alias: Option<KeyId>

    constructor ()
      ensures keys == map[] && alias == None
    {
      keys, alias := map[], None;
    }

    method DiscardOrphanKey(key: KeyId, fails: KmsCall -> bool)
      modifies this`keys
      ensures keys == if fails(ScheduleKeyDeletionCall) then old(keys) else old(keys)[key := PendingDeletion]
    {
      if !fails(ScheduleKeyDeletionCall) {
        keys := keys[key := PendingDeletion];
      }
    }

    /** `fails` says which of this call's KMS requests fail; a failed request has no effect. */
    method Save(kind: Kind, freshKey: KeyId, fails: KmsCall -> bool) returns (ok: bool)
      requires freshKey !in keys
      requires alias.Some? ==> alias.value in keys
      modifies this
      ensures SaveGives(old(keys), old(alias), kind, freshKey, fails, keys, alias, ok)
    {
      if kind == Generate {
        if fails(DescribeKeyCall) {
          return false;
        }
        if alias.Some? {
          return keys[alias.value] == Enabled;
        }
        if fails(CreateKeyCall) {
          return false;
        }
        keys := keys[freshKey := Enabled];
        // No other writer comes between the describe and the alias here, so the alias is free.
        if fails(CreateAliasCall) {
          DiscardOrphanKey(freshKey, fails);
          return false;
        }
        alias := Some(freshKey);
        return true;
      }

      if fails(CreateKeyCall) {
        return false;
      }
      keys := keys[freshKey := PendingImport];
      if fails(GetParametersForImportCall) || fails(ImportKeyMaterialCall) {
        DiscardOrphanKey(freshKey, fails);
        return false;
      }
      keys := keys[freshKey := Enabled];
      if fails(CreateAliasCall) || (alias.Some? && fails(UpdateAliasCall)) {
        DiscardOrphanKey(freshKey, fails);
        return false;
      }
      alias := Some(freshKey);
      return true;
    }
  }
}
