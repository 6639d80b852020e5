/**
  The replay caches: `saveIfAbsent` of the DPoP proof and client assertion jti stores.

  The in-memory store sweeps every expired entry and then looks the key up; DynamoDB does one
  conditional put and Firestore one transaction, both of which look at the one entry only, while a
  TTL sweeper may remove expired items at any time. The cloud stores name an entry by a digest of the
  key's UTF-8 text, so keys that differ in unpaired surrogates only are one entry there.
 */
module JtiStores {
  import opened Prelude
  import opened JsStrings

  /** Key to expiry instant, in epoch milliseconds. */
  type Entries = map<JsString, int>

  /** One use of a jti: `checked` says that everything verified before the store held. */
  datatype Attempt = Attempt(key: JsString, now: int, ttlMs: int, checked: bool)

  function WithoutExpired(m: Entries, now: int): Entries {
    map key | key in m && now <= m[key] :: m[key]
  }

  function MemorySave(m: Entries, a: Attempt): (Entries, bool) {
    if !a.checked then (m, false)
    else
      var live := WithoutExpired(m, a.now);
      if a.key in live then (live, false) else (live[a.key := a.now + a.ttlMs], true)
  }

  /** One entry: `attribute_not_exists(id) OR expires_at < :now`; the exact boundary still counts as used. */
  function ConditionalSave(m: Entries, a: Attempt): (Entries, bool) {
    if !a.checked || (a.key in m && a.now <= m[a.key]) then (m, false)
    else (m[a.key := a.now + a.ttlMs], true)
  }

  /** What happens to a store: attempts, and in the cloud removals by the TTL sweeper. */
  datatype Op = Use(attempt: Attempt) | Sweep(key: JsString, now: int)

  function Time(op: Op): int {
    if op.Use? then op.attempt.now else op.now
  }

  predicate InOrder(ops: seq<Op>) {
    forall i, j | 0 <= i < j < |ops| :: Time(ops[i]) <= Time(ops[j])
  }

  /** The TTL sweeper has no counterpart in memory. */
  function MemoryStep(m: Entries, op: Op): Entries {
    if op.Use? then MemorySave(m, op.attempt).0 else m
  }

  function TableStep(m: Entries, op: Op): Entries {
    if op.Use? then ConditionalSave(m, op.attempt).0
    else if op.key in m && TtlPassed(m[op.key], op.now) then m - {op.key} else m
  }

  /** A sweep takes an entry whose rounded-up TTL second is past, and nothing else. */
  lemma SweptExactly(m: Entries, key: JsString, now: int)
    ensures TableStep(m, Sweep(key, now)) ==
            if key in m && (m[key] + 999) / 1000 < now / 1000 then m - {key} else m
  {
  }

  function MemoryAfter(ops: seq<Op>): Entries {
    if ops == [] then map[]
    else
      MemoryStep(MemoryAfter(ops[..|ops| - 1]), ops[|ops| - 1])
  }

  function TableAfter(ops: seq<Op>): Entries {
    if ops == [] then map[]
    else
      TableStep(TableAfter(ops[..|ops| - 1]), ops[|ops| - 1])
  }

  /** Whether the use at position i is accepted by the map, or by a table with the same keys. */
  predicate MemoryAccepts(ops: seq<Op>, i: nat)
    requires i < |ops|
  {
    ops[i].Use? && MemorySave(MemoryAfter(ops[..i]), ops[i].attempt).1
  }

  predicate TableAccepts(ops: seq<Op>, i: nat)
    requires i < |ops|
  {
    ops[i].Use? && ConditionalSave(TableAfter(ops[..i]), ops[i].attempt).1
  }

  /** One key reads the same in both stores, as far as it is still live. */
  ghost predicate SameWhileLive(m: Entries, c: Entries, now: int, key: JsString) {
    && (key in m && now <= m[key] ==> key in c && c[key] == m[key])
    && (key in c && now <= c[key] ==> key in m && m[key] == c[key])
  }

  lemma AgreementAt(m: Entries, c: Entries, now: int, key: JsString)
    requires WithoutExpired(m, now) == WithoutExpired(c, now)
    ensures SameWhileLive(m, c, now, key)
  {
    assert key in m && now <= m[key] <==> key in WithoutExpired(m, now);
    assert key in c && now <= c[key] <==> key in WithoutExpired(c, now);
    assert key in WithoutExpired(m, now) ==> WithoutExpired(m, now)[key] == WithoutExpired(c, now)[key];
  }

  lemma AgreementEverywhere(m: Entries, c: Entries, now: int)
    requires forall key :: SameWhileLive(m, c, now, key)
    ensures WithoutExpired(m, now) == WithoutExpired(c, now)
  {
    var a, b := WithoutExpired(m, now), WithoutExpired(c, now);
    forall key ensures (key in a <==> key in b) && (key in a ==> a[key] == b[key]) {
      assert SameWhileLive(m, c, now, key);
    }
  }

  /** One operation on both stores, with everything that was live at its time the same before it. */
  lemma OpKeepsAgreement(m: Entries, c: Entries, op: Op, now: int, key: JsString)
    requires forall k :: SameWhileLive(m, c, Time(op), k)
    requires Time(op) <= now
    ensures SameWhileLive(MemoryStep(m, op), TableStep(c, op), now, key)
  {
    assert SameWhileLive(m, c, Time(op), key);
    if op.Use? {
      assert SameWhileLive(m, c, Time(op), op.attempt.key);
    }
  }

  /** The entries alive at the time of the last operation are the same in both kinds of store. */
  lemma {:induction false} LiveEntriesAgree(ops: seq<Op>, now: int)
    requires InOrder(ops) && (ops != [] ==> Time(ops[|ops| - 1]) <= now)
    ensures WithoutExpired(MemoryAfter(ops), now) == WithoutExpired(TableAfter(ops), now)
  {
    if ops != [] {
      var before, op := ops[..|ops| - 1], ops[|ops| - 1];
      LiveEntriesAgree(before, Time(op));
      var m, c := MemoryAfter(before), TableAfter(before);
      assert forall key :: SameWhileLive(m, c, Time(op), key) by {
        forall key ensures SameWhileLive(m, c, Time(op), key) {
          AgreementAt(m, c, Time(op), key);
        }
      }
      forall key ensures SameWhileLive(MemoryAfter(ops), TableAfter(ops), now, key) {
        OpKeepsAgreement(m, c, op, now, key);
      }
      AgreementEverywhere(MemoryAfter(ops), TableAfter(ops), now);
    }
  }

  /** With the same keys, sweeping the whole map and looking at one entry give the same answers. */
  lemma TableAgrees(ops: seq<Op>, i: nat)
    requires InOrder(ops) && i < |ops|
    ensures MemoryAccepts(ops, i) <==> TableAccepts(ops, i)
  {
    if ops[i].Use? {
      var a := ops[i].attempt;
      LiveEntriesAgree(ops[..i], a.now);
      AgreementAt(MemoryAfter(ops[..i]), TableAfter(ops[..i]), a.now, a.key);
    }
  }

  /** An accepted entry stays until its expiry instant has passed. */
  lemma {:induction false} EntryStays(ops: seq<Op>, i: nat, j: nat)
    requires InOrder(ops) && i < j <= |ops| && MemoryAccepts(ops, i)
    requires Time(ops[j - 1]) <= ops[i].attempt.now + ops[i].attempt.ttlMs
    ensures Lookup(MemoryAfter(ops[..j]), ops[i].attempt.key) ==
            Some(ops[i].attempt.now + ops[i].attempt.ttlMs)
  {
    assert ops[..j][..j - 1] == ops[..j - 1];
    if i + 1 < j {
      EntryStays(ops, i, j - 1);
    }
  }

  /** A key accepted once is refused through the instant its entry expires. */
  lemma RefusedWhileLive(ops: seq<Op>, i: nat, j: nat)
    requires InOrder(ops) && i < j < |ops| && MemoryAccepts(ops, i)
    requires ops[j].Use? && ops[j].attempt.key == ops[i].attempt.key
    requires ops[j].attempt.now <= ops[i].attempt.now + ops[i].attempt.ttlMs
    ensures !MemoryAccepts(ops, j)
  {
    EntryStays(ops, i, j);
  }

  // ---------------------------------------------------------------------------------------------
  // Backends
  // ---------------------------------------------------------------------------------------------

  datatype Backend = InMemory | Cloud

  /** What a backend knows a key by; digests lose nothing beyond what the encoding of the text loses. */
  function EntryName(backend: Backend, key: JsString): JsString {
    if backend == InMemory then key else WellFormed(key)
  }

  function Named(backend: Backend, op: Op): Op {
    if op.Use? then Use(op.attempt.(key := EntryName(backend, op.attempt.key))) else op
  }

  /** The operations as the backend's entries see them; the sweeper works on entries already. */
  function NamedOps(backend: Backend, ops: seq<Op>): (named: seq<Op>)
    ensures |named| == |ops|
  {
    seq(|ops|, i requires 0 <= i < |ops| => Named(backend, ops[i]))
  }

  predicate Accepts(backend: Backend, ops: seq<Op>, i: nat)
    requires i < |ops|
  {
    if backend == InMemory then MemoryAccepts(ops, i) else TableAccepts(NamedOps(Cloud, ops), i)
  }

  /** Every backend accepts what the sweeping map accepts of the operations under the backend's names. */
  lemma AcceptsByName(backend: Backend, ops: seq<Op>, i: nat)
    requires InOrder(ops) && i < |ops|
    ensures Accepts(backend, ops, i) <==> MemoryAccepts(NamedOps(backend, ops), i)
  {
    if backend == InMemory {
      assert NamedOps(InMemory, ops) == ops;
    } else {
      TableAgrees(NamedOps(Cloud, ops), i);
    }
  }

  /** A use accepted once keeps every use of the same key refused through the instant its entry expires. */
  lemma RefusedInEveryBackend(backend: Backend, ops: seq<Op>, i: nat, j: nat)
    requires InOrder(ops) && i < j < |ops| && Accepts(backend, ops, i)
    requires ops[i].Use? && ops[j].Use?
    requires EntryName(backend, ops[j].attempt.key) == EntryName(backend, ops[i].attempt.key)
    requires ops[j].attempt.now <= ops[i].attempt.now + ops[i].attempt.ttlMs
    ensures !Accepts(backend, ops, j)
  {
    AcceptsByName(backend, ops, i);
    AcceptsByName(backend, ops, j);
    RefusedWhileLive(NamedOps(backend, ops), i, j);
  }

  /** Once its entry has expired, a key is accepted again. */
  lemma AcceptedOnceExpired(backend: Backend, first: Attempt, second: Attempt)
    requires first.checked && second.checked && first.key == second.key
    requires first.now <= first.now + first.ttlMs < second.now
    ensures var ops := [Use(first), Use(second)]; Accepts(backend, ops, 0) && Accepts(backend, ops, 1)
  {
    var ops := [Use(first), Use(second)];
    var named := NamedOps(backend, ops);
    AcceptsByName(backend, ops, 0);
    AcceptsByName(backend, ops, 1);
    assert named[..0] == [];
    assert named[..1] == [named[0]] && [named[0]][..0] == [];
    assert MemoryAfter([named[0]]) == MemoryStep(map[], named[0]);
  }

  /** No two of the keys share a cloud entry. */
  ghost predicate KeptApart(keys: iset<JsString>) {
    forall k, l :: k in keys && l in keys && WellFormed(k) == WellFormed(l) ==> k == l
  }

  ghost predicate UsesOnly(ops: seq<Op>, keys: iset<JsString>) {
    forall i :: 0 <= i < |ops| && ops[i].Use? ==> ops[i].attempt.key in keys
  }

  /** Over these keys every backend accepts and refuses the same uses, in every run, whatever the sweeper does. */
  ghost predicate BackendsAgreeOn(keys: iset<JsString>) {
    forall ops: seq<Op>, i: nat :: InOrder(ops) && UsesOnly(ops, keys) && i < |ops| ==>
      (Accepts(InMemory, ops, i) <==> Accepts(Cloud, ops, i))
  }

  lemma {:induction false} NamesKeepEntries(ops: seq<Op>, keys: iset<JsString>, key: JsString)
    requires KeptApart(keys) && UsesOnly(ops, keys) && key in keys
    ensures Lookup(MemoryAfter(NamedOps(Cloud, ops)), WellFormed(key)) == Lookup(MemoryAfter(ops), key)
  {
    if ops != [] {
      var n := |ops| - 1;
      NamesKeepEntries(ops[..n], keys, key);
      assert NamedOps(Cloud, ops)[..n] == NamedOps(Cloud, ops[..n]);
      if ops[n].Use? {
        NamesKeepEntries(ops[..n], keys, ops[n].attempt.key);
      }
    }
  }

  /** The backends agree on a set of keys exactly when no two of them share a cloud entry. */
  lemma BackendsAgreeExactlyWhen(keys: iset<JsString>)
    ensures BackendsAgreeOn(keys) <==> KeptApart(keys)
  {
    if KeptApart(keys) {
      forall ops: seq<Op>, i: nat | InOrder(ops) && UsesOnly(ops, keys) && i < |ops|
        ensures Accepts(InMemory, ops, i) <==> Accepts(Cloud, ops, i)
      {
        AcceptsByName(Cloud, ops, i);
        assert NamedOps(Cloud, ops)[..i] == NamedOps(Cloud, ops[..i]);
        if ops[i].Use? {
          NamesKeepEntries(ops[..i], keys, ops[i].attempt.key);
        }
      }
    } else {
      var k, l :| k in keys && l in keys && WellFormed(k) == WellFormed(l) && k != l;
      SharedEntryRefuses(k, l, 0, 1);
      var ops := [Use(Attempt(k, 0, 1, true)), Use(Attempt(l, 0, 1, true))];
      assert UsesOnly(ops, keys);
    }
  }

  /** Two keys with one cloud entry: at one instant both are new in memory, and the second is not in the cloud. */
  lemma SharedEntryRefuses(k: JsString, l: JsString, now: int, ttlMs: nat)
    requires k != l && WellFormed(k) == WellFormed(l)
    ensures var ops := [Use(Attempt(k, now, ttlMs, true)), Use(Attempt(l, now, ttlMs, true))];
            && InOrder(ops)
            && Accepts(InMemory, ops, 0) && Accepts(InMemory, ops, 1)
            && Accepts(Cloud, ops, 0) && !Accepts(Cloud, ops, 1)
  {
    var ops := [Use(Attempt(k, now, ttlMs, true)), Use(Attempt(l, now, ttlMs, true))];
    var named := NamedOps(Cloud, ops);
    assert ops[..0] == [] && named[..0] == [];
    assert ops[..1] == [ops[0]] && [ops[0]][..0] == [];
    assert named[..1] == [named[0]] && [named[0]][..0] == [];
    assert MemoryAfter([ops[0]]) == MemoryStep(map[], ops[0]);
    assert TableAfter([named[0]]) == TableStep(map[], named[0]);
  }

  // ---------------------------------------------------------------------------------------------
  // Keys
  // ---------------------------------------------------------------------------------------------

  const COLON: CodeUnit := 0x3A
  const QUOTE: CodeUnit := 0x22
  const BACKSLASH: CodeUnit := 0x5C
  const COMMA: CodeUnit := 0x2C
  const OPEN: CodeUnit := 0x5B
  const CLOSE: CodeUnit := 0x5D
  const LETTER_U: CodeUnit := 0x75

  /** `${jwkThumbprint}:${jti}` */
  function DpopKey(jwkThumbprint: JsString, jti: JsString): JsString {
    jwkThumbprint + [COLON] + jti
  }

  /** Thumbprints are base64url, so they never hold the separator; then the key loses nothing. */
  lemma DpopKeyIsInjective(t1: JsString, j1: JsString, t2: JsString, j2: JsString)
    requires COLON !in t1 && COLON !in t2
    requires DpopKey(t1, j1) == DpopKey(t2, j2)
    ensures t1 == t2 && j1 == j2
  {
    var k1, k2 := DpopKey(t1, j1), DpopKey(t2, j2);
    assert k1[|t1|] == COLON && k2[|t2|] == COLON;
    assert forall i | 0 <= i < |t1| :: k1[i] == t1[i];
    assert forall i | 0 <= i < |t2| :: k2[i] == t2[i];
    assert t1 == k1[..|t1|] && t2 == k2[..|t2|];
    assert j1 == k1[|t1| + 1..] && j2 == k2[|t2| + 1..];
  }

  /** Without that guarantee different pairs share a key, wherever the colon is. */
  lemma DpopKeyNeedsColonFreeThumbprints(t: JsString, u: JsString, j: JsString)
    ensures DpopKey(t + [COLON] + u, j) == DpopKey(t, u + [COLON] + j)
    ensures t + [COLON] + u != t
  {
    assert DpopKey(t + [COLON] + u, j) == t + [COLON] + u + [COLON] + j == DpopKey(t, u + [COLON] + j);
    assert |t + [COLON] + u| > |t|;
  }

  /** With base64url thumbprints, two proofs share a cloud entry exactly when key and encoded jti are the same. */
  lemma DpopEntryExactlyWhen(t1: JsString, j1: JsString, t2: JsString, j2: JsString)
    requires COLON !in t1 && COLON !in t2
    requires (forall i | 0 <= i < |t1| :: !IsSurrogate(t1[i])) && forall i | 0 <= i < |t2| :: !IsSurrogate(t2[i])
    ensures WellFormed(DpopKey(t1, j1)) == WellFormed(DpopKey(t2, j2)) <==> t1 == t2 && WellFormed(j1) == WellFormed(j2)
  {
    WellFormedAfter(t1 + [COLON], j1);
    WellFormedAfter(t2 + [COLON], j2);
    assert WellFormed(DpopKey(t1, j1)) == DpopKey(t1, WellFormed(j1));
    assert WellFormed(DpopKey(t2, j2)) == DpopKey(t2, WellFormed(j2));
    if DpopKey(t1, WellFormed(j1)) == DpopKey(t2, WellFormed(j2)) {
      DpopKeyIsInjective(t1, WellFormed(j1), t2, WellFormed(j2));
    }
  }

  function HexDigit(n: nat): CodeUnit
    requires n < 16
  {
    if n < 10 then 0x30 + n else 0x61 + n - 10
  }

  function HexValue(u: CodeUnit): int {
    if u <= 0x39 then u - 0x30 else u - 0x61 + 10
  }

  /** The letter after the backslash for the code units JSON abbreviates, or None. */
  function Shorthand(u: CodeUnit): Option<CodeUnit> {
    if u == QUOTE || u == BACKSLASH then Some(u)
    else if u == 8 then Some(0x62)
    else if u == 9 then Some(0x74)
    else if u == 10 then Some(0x6E)
    else if u == 12 then Some(0x66)
    else if u == 13 then Some(0x72)
    else None
  }

  /** How `JSON.stringify` writes one code unit that is not half of a surrogate pair. */
  function EscapeUnit(u: CodeUnit): JsString {
    if Shorthand(u).Some? then [BACKSLASH, Shorthand(u).value]
    else if u < 32 || IsHighSurrogate(u) || IsLowSurrogate(u) then
      [BACKSLASH, LETTER_U, HexDigit(u / 0x1000), HexDigit(u / 0x100 % 16), HexDigit(u / 16 % 16), HexDigit(u % 16)]
    else [u]
  }

  /** The escapes of JSON: seven abbreviations, and hexadecimal for other control characters and unpaired surrogates. */
  lemma EscapesExactly(u: CodeUnit)
    ensures EscapeUnit(0x22) == [0x5C, 0x22] && EscapeUnit(0x5C) == [0x5C, 0x5C]
    ensures EscapeUnit(8) == [0x5C, 0x62] && EscapeUnit(9) == [0x5C, 0x74] && EscapeUnit(10) == [0x5C, 0x6E]
    ensures EscapeUnit(12) == [0x5C, 0x66] && EscapeUnit(13) == [0x5C, 0x72]
    ensures u >= 32 && u != 0x22 && u != 0x5C && !IsSurrogate(u) ==> EscapeUnit(u) == [u]
    ensures u < 8 || u == 11 || 14 <= u < 32 || IsSurrogate(u) ==>
              |EscapeUnit(u)| == 6 && EscapeUnit(u)[..2] == [0x5C, 0x75]
  {
  }

  function Escape(s: JsString): JsString {
    if s == [] then []
    else if StartsWithPair(s) then [s[0]] + ([s[1]] + Escape(s[2..]))
    else EscapeUnit(s[0]) + Escape(s[1..])
  }

  /** A string as JSON writes it, up to its closing quote, and what follows. */
  function Written(a: JsString, rest: JsString): JsString {
    Escape(a) + [QUOTE] + rest
  }

  /** `JSON.stringify([clientId, jti])` */
  function AssertionKey(clientId: JsString, jti: JsString): JsString {
    [OPEN, QUOTE] + Written(clientId, [COMMA, QUOTE] + Written(jti, [CLOSE]))
  }

  /** Reads one code unit back: the unit and how much of the text wrote it. */
  function ReadUnit(s: JsString): Option<(CodeUnit, nat)> {
    if s == [] || s[0] == QUOTE then None
    else if s[0] != BACKSLASH then Some((s[0], 1))
    else if |s| < 2 then None
    else if s[1] == LETTER_U then
      if |s| < 6 then None
      else
        var code := HexValue(s[2]) * 0x1000 + HexValue(s[3]) * 0x100 + HexValue(s[4]) * 16 + HexValue(s[5]);
        if 0 <= code < 0x1_0000 then Some((code, 6)) else None
    else Some((Abbreviated(s[1]), 2))
  }

  function Abbreviated(letter: CodeUnit): CodeUnit {
    if letter == 0x62 then 8
    else if letter == 0x74 then 9
    else if letter == 0x6E then 10
    else if letter == 0x66 then 12
    else if letter == 0x72 then 13
    else letter
  }

  /** Reads a string back up to its closing quote: the string and the rest of the text. */
  function ReadString(s: JsString): Option<(JsString, JsString)> {
    if s != [] && s[0] == QUOTE then Some(([], s[1..]))
    else
      var first := ReadUnit(s);
      if first.None? || first.value.1 > |s| || first.value.1 == 0 then None
      else
        var rest := ReadString(s[first.value.1..]);
        if rest.None? then None else Some(([first.value.0] + rest.value.0, rest.value.1))
  }

  lemma HexDigitReadsBack(n: nat)
    requires n < 16
    ensures HexValue(HexDigit(n)) == n
  {
  }

  lemma HexReadsBack(u: CodeUnit)
    ensures HexValue(HexDigit(u / 0x1000)) * 0x1000 + HexValue(HexDigit(u / 0x100 % 16)) * 0x100 +
            HexValue(HexDigit(u / 16 % 16)) * 16 + HexValue(HexDigit(u % 16)) == u
  {
    HexDigitReadsBack(u / 0x1000);
    HexDigitReadsBack(u / 0x100 % 16);
    HexDigitReadsBack(u / 16 % 16);
    HexDigitReadsBack(u % 16);
    var tens, hundreds := u / 16, u / 0x100;
    assert hundreds == tens / 16 && u / 0x1000 == hundreds / 16;
  }

  lemma ReadUnitInvertsEscape(u: CodeUnit, rest: JsString)
    ensures ReadUnit(EscapeUnit(u) + rest) == Some((u, |EscapeUnit(u)|))
    ensures (EscapeUnit(u) + rest)[0] != QUOTE
  {
    var s := EscapeUnit(u) + rest;
    HexReadsBack(u);
    assert forall i | 0 <= i < |EscapeUnit(u)| :: s[i] == EscapeUnit(u)[i];
  }

  /** Reading goes past what one unit was written as. */
  lemma ReadStringStep(u: CodeUnit, written: JsString, tail: JsString)
    requires written == EscapeUnit(u) || (written == [u] && u != QUOTE && u != BACKSLASH)
    requires ReadString(tail).Some?
    ensures ReadString(written + tail) == Some(([u] + ReadString(tail).value.0, ReadString(tail).value.1))
  {
    if written == EscapeUnit(u) {
      ReadUnitInvertsEscape(u, tail);
    }
    assert (written + tail)[|written|..] == tail;
  }

  lemma WrittenPair(a: JsString, rest: JsString)
    requires StartsWithPair(a)
    ensures Written(a, rest) == [a[0]] + ([a[1]] + Written(a[2..], rest))
  {
  }

  lemma WrittenUnit(a: JsString, rest: JsString)
    requires a != [] && !StartsWithPair(a)
    ensures Written(a, rest) == EscapeUnit(a[0]) + Written(a[1..], rest)
  {
  }

  /** What JSON writes for a string reads back as that string, whatever follows. */
  lemma {:induction false} ReadStringInvertsEscape(a: JsString, rest: JsString)
    ensures ReadString(Written(a, rest)) == Some((a, rest))
  {
    if a == [] {
      assert Written(a, rest) == [QUOTE] + rest;
    } else if StartsWithPair(a) {
      WrittenPair(a, rest);
      ReadStringInvertsEscape(a[2..], rest);
      ReadStringStep(a[1], [a[1]], Written(a[2..], rest));
      ReadStringStep(a[0], [a[0]], [a[1]] + Written(a[2..], rest));
      assert [a[0]] + ([a[1]] + a[2..]) == a;
    } else {
      WrittenUnit(a, rest);
      ReadStringInvertsEscape(a[1..], rest);
      ReadStringStep(a[0], EscapeUnit(a[0]), Written(a[1..], rest));
      assert [a[0]] + a[1..] == a;
    }
  }

  /** The JSON pair key loses nothing, whatever code units client ids and jti values hold. */
  lemma AssertionKeyIsInjective(c1: JsString, j1: JsString, c2: JsString, j2: JsString)
    requires AssertionKey(c1, j1) == AssertionKey(c2, j2)
    ensures c1 == c2 && j1 == j2
  {
    var last1, last2 := Written(j1, [CLOSE]), Written(j2, [CLOSE]);
    var tail1, tail2 := [COMMA, QUOTE] + last1, [COMMA, QUOTE] + last2;
    assert AssertionKey(c1, j1)[2..] == Written(c1, tail1);
    assert AssertionKey(c2, j2)[2..] == Written(c2, tail2);
    ReadStringInvertsEscape(c1, tail1);
    ReadStringInvertsEscape(c2, tail2);
    assert tail1[2..] == last1 && tail2[2..] == last2;
    ReadStringInvertsEscape(j1, [CLOSE]);
    ReadStringInvertsEscape(j2, [CLOSE]);
  }

  /** JSON escapes unpaired surrogates, so encoding takes nothing from what it writes. */
  lemma {:induction false} WrittenIsWellFormed(a: JsString, rest: JsString)
    ensures WellFormed(Written(a, rest)) == Written(a, WellFormed(rest))
    decreases |a|
  {
    if a == [] {
      assert Written(a, rest) == [QUOTE] + rest && Written(a, WellFormed(rest)) == [QUOTE] + WellFormed(rest);
      WellFormedAfter([QUOTE], rest);
    } else if StartsWithPair(a) {
      WrittenPair(a, rest);
      WrittenPair(a, WellFormed(rest));
      WrittenIsWellFormed(a[2..], rest);
      WellFormedPair(a[0], a[1], Written(a[2..], rest));
    } else {
      WrittenUnit(a, rest);
      WrittenUnit(a, WellFormed(rest));
      WrittenIsWellFormed(a[1..], rest);
      WellFormedAfter(EscapeUnit(a[0]), Written(a[1..], rest));
    }
  }

  lemma AssertionKeyIsWellFormed(clientId: JsString, jti: JsString)
    ensures WellFormed(AssertionKey(clientId, jti)) == AssertionKey(clientId, jti)
  {
    var second := Written(jti, [CLOSE]);
    WellFormedAfter([CLOSE], []);
    assert [CLOSE] + [] == [CLOSE];
    WrittenIsWellFormed(jti, [CLOSE]);
    WellFormedAfter([COMMA, QUOTE], second);
    WrittenIsWellFormed(clientId, [COMMA, QUOTE] + second);
    WellFormedAfter([OPEN, QUOTE], Written(clientId, [COMMA, QUOTE] + second));
  }

  ghost function AssertionKeys(): iset<JsString> {
    iset clientId: JsString, jti: JsString | true :: AssertionKey(clientId, jti)
  }

  /** For client assertions the backends agree without exception. */
  lemma BackendsAgreeOnAssertions()
    ensures BackendsAgreeOn(AssertionKeys())
  {
    forall k, l | k in AssertionKeys() && l in AssertionKeys() && WellFormed(k) == WellFormed(l) ensures k == l {
      var c1, j1 :| k == AssertionKey(c1, j1);
      var c2, j2 :| l == AssertionKey(c2, j2);
      AssertionKeyIsWellFormed(c1, j1);
      AssertionKeyIsWellFormed(c2, j2);
    }
    BackendsAgreeExactlyWhen(AssertionKeys());
  }

  ghost function DpopKeys(jwkThumbprint: JsString, jtis: iset<JsString>): iset<JsString> {
    iset jti | jti in jtis :: DpopKey(jwkThumbprint, jti)
  }

  /** For the proofs of one DPoP key the backends agree exactly when no two jti values encode alike. */
  lemma BackendsAgreeOnProofsExactlyWhen(jwkThumbprint: JsString, jtis: iset<JsString>)
    requires COLON !in jwkThumbprint && forall i | 0 <= i < |jwkThumbprint| :: !IsSurrogate(jwkThumbprint[i])
    ensures BackendsAgreeOn(DpopKeys(jwkThumbprint, jtis)) <==> KeptApart(jtis)
  {
    var keys := DpopKeys(jwkThumbprint, jtis);
    BackendsAgreeExactlyWhen(keys);
    forall j1, j2 | j1 in jtis && j2 in jtis
      ensures WellFormed(DpopKey(jwkThumbprint, j1)) == WellFormed(DpopKey(jwkThumbprint, j2)) <==>
              WellFormed(j1) == WellFormed(j2)
      ensures DpopKey(jwkThumbprint, j1) == DpopKey(jwkThumbprint, j2) ==> j1 == j2
    {
      DpopEntryExactlyWhen(jwkThumbprint, j1, jwkThumbprint, j2);
      if DpopKey(jwkThumbprint, j1) == DpopKey(jwkThumbprint, j2) {
        DpopKeyIsInjective(jwkThumbprint, j1, jwkThumbprint, j2);
      }
    }
    if KeptApart(keys) {
      forall j1, j2 | j1 in jtis && j2 in jtis && WellFormed(j1) == WellFormed(j2) ensures j1 == j2 {
        assert DpopKey(jwkThumbprint, j1) in keys && DpopKey(jwkThumbprint, j2) in keys;
      }
    }
  }

  // ---------------------------------------------------------------------------------------------
  // The in-memory store
  // ---------------------------------------------------------------------------------------------

  class InMemoryJtiStore {
    var usedJtis: Entries

    constructor ()
      ensures usedJtis == map[]
    {
      usedJtis := map[];
    }

    method CleanupExpired(now: int)
      modifies this
      ensures usedJtis == WithoutExpired(old(usedJtis), now)
    {
      var pending := usedJtis.Keys;
      while pending != {}
        invariant pending <= old(usedJtis).Keys
        invariant forall key ::
          key in usedJtis <==> key in old(usedJtis) && (key in pending || now <= old(usedJtis)[key])
        invariant forall key | key in usedJtis :: usedJtis[key] == old(usedJtis)[key]
        decreases pending
      {
        var key :| key in pending;
        if now > usedJtis[key] {
          usedJtis := usedJtis - {key};
        }
        pending := pending - {key};
      }
    }

    method SaveIfAbsent(key: JsString, now: int, ttlMs: int) returns (saved: bool)
      modifies this
      ensures (usedJtis, saved) == MemorySave(old(usedJtis), Attempt(key, now, ttlMs, true))
    {
      CleanupExpired(now);
      if key in usedJtis {
        return false;
      }
      usedJtis := usedJtis[key := now + ttlMs];
      return true;
    }
  }
}
