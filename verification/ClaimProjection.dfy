/**
  The claim loop of the jwt_vc_json issuer: from the configured claim paths and a claims source it
  builds the credential subject, sharing the source's own objects where a whole claim is an object.
 */
module ClaimProjection {
  import opened Prelude
  import opened ClaimTrees

  /** The source's objects as they were, its root, and the root of the subject being built. */
  datatype World = World(source: Heap, sourceRoot: JsonObject, root: JsonObject)

  function SourceAt(w: World, path: Path): Option<Json> {
    Resolve(w.source, Ref(w.sourceRoot), path)
  }

  function SubjectAt(w: World, h: Heap, path: Path): Option<Json> {
    Resolve(h, Ref(w.root), path)
  }

  /** For each object the loop made: the source object it stands for, and its path in the subject. */
  datatype Made = Made(source: JsonObject, path: Path)

  type Shadow = map<JsonObject, Made>

  /** A field of a made object is the source's own value, or a made object standing for it. */
  predicate Mirrors(sh: Shadow, v: Json, sourceValue: Json) {
    v == sourceValue || (v.Ref? && v.obj in sh && sourceValue == Ref(sh[v.obj].source))
  }

  predicate FieldOk(w: World, h: Heap, sh: Shadow, done: set<Path>, n: JsonObject, k: string)
    requires n in sh && n in h && k in h[n]
  {
    var here := sh[n];
    && here.source in w.source
    && k in w.source[here.source]
    && Mirrors(sh, h[n][k], w.source[here.source][k])
    && (h[n][k] == w.source[here.source][k] ==> here.path + [k] in done)
    && (h[n][k] != w.source[here.source][k] ==> sh[h[n][k].obj].path == here.path + [k])
  }

  predicate LeadsToClaim(path: Path, claimed: set<Path>) {
    exists q :: q in claimed && path < q
  }

  /** The shape of the heap during the loop: the subject is a sub-tree of an unchanged source. */
  ghost predicate Shape(w: World, h: Heap, sh: Shadow, done: set<Path>, claimed: set<Path>) {
    && Closed(w.source) && w.sourceRoot in w.source
    && w.source.Keys !! sh.Keys
    && w.root in sh && sh[w.root] == Made(w.sourceRoot, [])
    && (forall o :: o in w.source ==> o in h && h[o] == w.source[o])
    && (forall n :: n in sh ==> n in h && sh[n].source in w.source)
    && (forall n, k :: n in sh && n in h && k in h[n] ==> FieldOk(w, h, sh, done, n, k))
    && (forall n :: n in sh ==> n == w.root || LeadsToClaim(sh[n].path, claimed))
    && done <= claimed
  }

  /** Every claim written so far reads the same from the subject as from the source. */
  ghost predicate ReadsSame(w: World, h: Heap, done: set<Path>) {
    forall p :: p in done ==> SourceAt(w, p).Some? && SubjectAt(w, h, p) == SourceAt(w, p)
  }

  // ---------------------------------------------------------------------------------------------
  // Reading
  // ---------------------------------------------------------------------------------------------

  lemma {:induction false} ResolveAppend(h: Heap, v: Json, p: Path, q: Path)
    ensures Resolve(h, v, p + q) ==
            if Resolve(h, v, p).Some? then Resolve(h, Resolve(h, v, p).value, q) else None
    decreases |p|
  {
    if p == [] {
      assert p + q == q;
    } else {
      assert (p + q)[0] == p[0] && (p + q)[1..] == p[1..] + q;
      if v.Ref? && v.obj in h && p[0] in h[v.obj] {
        ResolveAppend(h, h[v.obj][p[0]], p[1..], q);
      }
    }
  }

  predicate IsSourceValue(w: World, v: Json) {
    v.Ref? ==> v.obj in w.source
  }

  /** From a source value on, the subject and the source are the same objects. */
  lemma {:induction false} SourceReadsAlike(w: World, h: Heap, v: Json, p: Path)
    requires Closed(w.source) && IsSourceValue(w, v)
    requires forall o :: o in w.source ==> o in h && h[o] == w.source[o]
    ensures Resolve(h, v, p) == Resolve(w.source, v, p)
    decreases |p|
  {
    if p != [] && v.Ref? && p[0] in w.source[v.obj] {
      SourceReadsAlike(w, h, w.source[v.obj][p[0]], p[1..]);
    }
  }

  /** A change that only adds fields to made objects or replaces theirs by the source's own values. */
  ghost predicate Upgrades(w: World, h: Heap, after: Heap, sh: Shadow) {
    && (forall o :: o in w.source ==> o in after && after[o] == w.source[o])
    && (forall n, k :: n in sh && n in h && k in h[n] ==>
          && n in after && k in after[n]
          && sh[n].source in w.source && k in w.source[sh[n].source]
          && (after[n][k] == h[n][k] || after[n][k] == w.source[sh[n].source][k]))
  }

  /** Upgrading keeps every read that already gave the source's own value. */
  lemma {:induction false} UpgradeKeepsReads(w: World, h: Heap, after: Heap, sh: Shadow, done: set<Path>,
                                             claimed: set<Path>, n: JsonObject, p: Path)
    requires Shape(w, h, sh, done, claimed) && Upgrades(w, h, after, sh) && n in sh && p != []
    requires Resolve(h, Ref(n), p).Some?
    requires Resolve(h, Ref(n), p) == Resolve(w.source, Ref(sh[n].source), p)
    ensures Resolve(after, Ref(n), p) == Resolve(h, Ref(n), p)
    decreases |p|
  {
    var v, sourceValue := h[n][p[0]], w.source[sh[n].source][p[0]];
    assert FieldOk(w, h, sh, done, n, p[0]);
    if after[n][p[0]] == sourceValue || v == sourceValue {
      SourceReadsAlike(w, after, sourceValue, p[1..]);
    } else if p[1..] != [] {
      UpgradeKeepsReads(w, h, after, sh, done, claimed, v.obj, p[1..]);
    }
  }

  lemma UpgradeKeepsReadsSame(w: World, h: Heap, after: Heap, sh: Shadow, done: set<Path>, claimed: set<Path>)
    requires Shape(w, h, sh, done, claimed) && Upgrades(w, h, after, sh) && ReadsSame(w, h, done)
    requires [] !in done
    ensures ReadsSame(w, after, done)
  {
    forall p | p in done ensures SubjectAt(w, after, p) == SourceAt(w, p) {
      UpgradeKeepsReads(w, h, after, sh, done, claimed, w.root, p);
    }
  }

  // ---------------------------------------------------------------------------------------------
  // Writing
  // ---------------------------------------------------------------------------------------------

  /** The walk of a write has followed `path` in both trees. */
  ghost predicate CursorOk(w: World, h: Heap, sh: Shadow, at: JsonObject, path: Path) {
    && SubjectAt(w, h, path) == Some(Ref(at))
    && (at in sh ==> sh[at].path == path && SourceAt(w, path) == Some(Ref(sh[at].source)))
    && (at !in sh ==> at in w.source && SourceAt(w, path) == Some(Ref(at)))
  }

  /** The path of a made object is where the subject holds it. */
  lemma {:induction false} MadePathIsWalked(w: World, h: Heap, sh: Shadow, done: set<Path>, claimed: set<Path>,
                                            n: JsonObject, p: Path)
    requires Shape(w, h, sh, done, claimed) && n in sh
    requires Resolve(h, Ref(n), p).Some? && Resolve(h, Ref(n), p).value.Ref?
    requires Resolve(h, Ref(n), p).value.obj in sh
    ensures sh[Resolve(h, Ref(n), p).value.obj].path == sh[n].path + p
    decreases |p|
  {
    if p != [] {
      var v, sourceValue := h[n][p[0]], w.source[sh[n].source][p[0]];
      assert FieldOk(w, h, sh, done, n, p[0]);
      if v == sourceValue {
        SourceReadsAlike(w, h, v, p[1..]);
        SourceStaysSource(w, v, p[1..]);
      } else {
        MadePathIsWalked(w, h, sh, done, claimed, v.obj, p[1..]);
        assert sh[n].path + [p[0]] + p[1..] == sh[n].path + p;
      }
    } else {
      assert sh[n].path + p == sh[n].path;
    }
  }

  lemma {:induction false} SourceStaysSource(w: World, v: Json, p: Path)
    requires Closed(w.source) && IsSourceValue(w, v) && Resolve(w.source, v, p).Some?
    ensures IsSourceValue(w, Resolve(w.source, v, p).value)
    decreases |p|
  {
    if p != [] {
      SourceStaysSource(w, w.source[v.obj][p[0]], p[1..]);
    }
  }

  /** Changing the object a walk ends at does not change the walk. */
  lemma {:induction false} WalkAvoidsItsEnd(w: World, h: Heap, after: Heap, sh: Shadow, done: set<Path>,
                                            claimed: set<Path>, n: JsonObject, p: Path, end: JsonObject)
    requires Shape(w, h, sh, done, claimed) && n in sh && end in sh
    requires Resolve(h, Ref(n), p) == Some(Ref(end))
    requires forall o :: o in h && o != end ==> o in after && after[o] == h[o]
    ensures Resolve(after, Ref(n), p) == Some(Ref(end))
    decreases |p|
  {
    if p != [] {
      MadePathIsWalked(w, h, sh, done, claimed, n, p);
      assert n != end;
      var v := h[n][p[0]];
      assert FieldOk(w, h, sh, done, n, p[0]);
      if v.Ref? && v.obj in sh {
        WalkAvoidsItsEnd(w, h, after, sh, done, claimed, v.obj, p[1..], end);
      } else {
        SourceReadsAlike(w, h, v, p[1..]);
        SourceStaysSource(w, v, p[1..]);
      }
    }
  }

  /** The loop's invariant. */
  ghost predicate Projects(w: World, h: Heap, sh: Shadow, done: set<Path>, claimed: set<Path>) {
    Shape(w, h, sh, done, claimed) && ReadsSame(w, h, done) && [] !in done
  }

  /** The source holds an object, or anything at all, at each proper prefix of a path it resolves. */
  lemma SourcePrefix(w: World, path: Path, i: nat)
    requires i < |path| && SourceAt(w, path).Some?
    ensures SourceAt(w, path[..i]).Some? && SourceAt(w, path[..i]).value.Ref?
    ensures var o := SourceAt(w, path[..i]).value.obj;
            && o in w.source && path[i] in w.source[o]
            && SourceAt(w, path[..i + 1]) == Some(w.source[o][path[i]])
  {
    ResolveAppend(w.source, Ref(w.sourceRoot), path[..i], path[i..]);
    assert path[..i] + path[i..] == path;
    ResolveAppend(w.source, Ref(w.sourceRoot), path[..i], [path[i]]);
    assert path[..i] + [path[i]] == path[..i + 1];
  }

  lemma SubjectStep(w: World, h: Heap, path: Path, i: nat, at: JsonObject)
    requires i < |path| && SubjectAt(w, h, path[..i]) == Some(Ref(at)) && at in h && path[i] in h[at]
    ensures SubjectAt(w, h, path[..i + 1]) == Some(h[at][path[i]])
  {
    ResolveAppend(h, Ref(w.root), path[..i], [path[i]]);
    assert path[..i] + [path[i]] == path[..i + 1];
  }

  function Linked(h: Heap, at: JsonObject, key: string, child: JsonObject): Heap
    requires at in h
  {
    h[at := h[at][key := Ref(child)]][child := map[]]
  }

  lemma LinkKeepsShape(w: World, h: Heap, sh: Shadow, done: set<Path>, claimed: set<Path>,
                       path: Path, at: JsonObject, key: string, child: JsonObject, stands: JsonObject)
    requires Shape(w, h, sh, done, claimed) && path in claimed
    requires at in sh && key !in h[at] && child !in h
    requires sh[at].path + [key] < path
    requires stands in w.source && key in w.source[sh[at].source] && w.source[sh[at].source][key] == Ref(stands)
    ensures Shape(w, Linked(h, at, key, child), sh[child := Made(stands, sh[at].path + [key])], done, claimed)
  {
    var t, after := Linked(h, at, key, child), sh[child := Made(stands, sh[at].path + [key])];
    forall n, k | n in after && n in t && k in t[n] ensures FieldOk(w, t, after, done, n, k) {
      if n != child && (n != at || k != key) {
        assert FieldOk(w, h, sh, done, n, k);
      }
    }
    forall n | n in after ensures n == w.root || LeadsToClaim(after[n].path, claimed) {
      assert n in sh || after[n].path < path;
    }
  }

  lemma LinkUpgrades(w: World, h: Heap, sh: Shadow, done: set<Path>, claimed: set<Path>,
                     at: JsonObject, key: string, child: JsonObject)
    requires Shape(w, h, sh, done, claimed) && at in sh && key !in h[at] && child !in h
    ensures Upgrades(w, h, Linked(h, at, key, child), sh)
  {
    forall n, k | n in sh && n in h && k in h[n] ensures k in w.source[sh[n].source] {
      assert FieldOk(w, h, sh, done, n, k);
    }
  }

  /** A new empty object in place of a missing segment stands for the source's object there. */
  lemma LinkProjects(w: World, h: Heap, sh: Shadow, done: set<Path>, claimed: set<Path>,
                     path: Path, i: nat, at: JsonObject, child: JsonObject) returns (after: Shadow)
    requires Projects(w, h, sh, done, claimed) && path in claimed && i + 1 < |path|
    requires SourceAt(w, path).Some?
    requires at in sh && CursorOk(w, h, sh, at, path[..i])
    requires path[i] !in h[at] && child !in h
    ensures var t := Linked(h, at, path[i], child);
            && Projects(w, t, after, done, claimed)
            && child in after && CursorOk(w, t, after, child, path[..i + 1])
  {
    var t := Linked(h, at, path[i], child);
    SourcePrefix(w, path, i);
    SourcePrefix(w, path, i + 1);
    var stands := SourceAt(w, path[..i + 1]).value.obj;
    after := sh[child := Made(stands, path[..i + 1])];
    assert path[..i] + [path[i]] == path[..i + 1] < path;
    LinkKeepsShape(w, h, sh, done, claimed, path, at, path[i], child, stands);
    LinkUpgrades(w, h, sh, done, claimed, at, path[i], child);
    UpgradeKeepsReadsSame(w, h, t, sh, done, claimed);
    LinkMovesCursor(w, h, sh, done, claimed, path, i, at, child);
  }

  lemma LinkMovesCursor(w: World, h: Heap, sh: Shadow, done: set<Path>, claimed: set<Path>,
                        path: Path, i: nat, at: JsonObject, child: JsonObject)
    requires Shape(w, h, sh, done, claimed) && i < |path|
    requires at in sh && CursorOk(w, h, sh, at, path[..i])
    requires path[i] !in h[at] && child !in h
    ensures SubjectAt(w, Linked(h, at, path[i], child), path[..i + 1]) == Some(Ref(child))
  {
    var t := Linked(h, at, path[i], child);
    WalkAvoidsItsEnd(w, h, t, sh, done, claimed, w.root, path[..i], at);
    SubjectStep(w, t, path, i, at);
  }

  /** One segment of the walk keeps the invariant and stays in step in both trees. */
  lemma StepProjects(w: World, c: Cursor, sh: Shadow, done: set<Path>, claimed: set<Path>,
                     path: Path, i: nat, child: Option<JsonObject>) returns (after: Shadow)
    requires Projects(w, c.heap, sh, done, claimed) && path in claimed && i + 1 < |path|
    requires SourceAt(w, path).Some?
    requires CursorOk(w, c.heap, sh, c.at, path[..i])
    requires child.None? <==> HasObject(c, path[i])
    requires child.Some? ==> child.value !in c.heap
    ensures var t := StepDown(c, path[i], child);
            Projects(w, t.heap, after, done, claimed) && CursorOk(w, t.heap, after, t.at, path[..i + 1])
  {
    SourcePrefix(w, path, i);
    SourcePrefix(w, path, i + 1);
    after := sh;
    if c.at in sh {
      if path[i] in c.heap[c.at] {
        assert FieldOk(w, c.heap, sh, done, c.at, path[i]);
        SubjectStep(w, c.heap, path, i, c.at);
        assert path[..i] + [path[i]] == path[..i + 1];
      } else {
        after := LinkProjects(w, c.heap, sh, done, claimed, path, i, c.at, child.value);
      }
    } else {
      SubjectStep(w, c.heap, path, i, c.at);
    }
  }

  lemma {:induction false} WalkProjects(w: World, h: Heap, sh: Shadow, done: set<Path>, claimed: set<Path>,
                                        path: Path, made: seq<Option<JsonObject>>) returns (after: Shadow)
    requires Projects(w, h, sh, done, claimed) && path in claimed && |made| < |path|
    requires SourceAt(w, path).Some?
    requires MadeWhereMissing(Cursor(h, w.root), path, made)
    ensures var c := Walk(Cursor(h, w.root), path, made);
            Projects(w, c.heap, after, done, claimed) && CursorOk(w, c.heap, after, c.at, path[..|made|])
    decreases |made|
  {
    if made == [] {
      after := sh;
    } else {
      var n := |made| - 1;
      assert forall j | 0 <= j <= n :: made[..n][..j] == made[..j];
      after := WalkProjects(w, h, sh, done, claimed, path, made[..n]);
      after := StepProjects(w, Walk(Cursor(h, w.root), path, made[..n]), after, done, claimed, path, n, made[n]);
    }
  }

  lemma StoreKeepsShape(w: World, c: Cursor, sh: Shadow, done: set<Path>, claimed: set<Path>, path: Path)
    requires Shape(w, c.heap, sh, done, claimed) && path in claimed && path != []
    requires SourceAt(w, path).Some?
    requires c.at in sh && CursorOk(w, c.heap, sh, c.at, path[..|path| - 1])
    ensures Shape(w, Stored(c, path[|path| - 1], SourceAt(w, path).value), sh, done + {path}, claimed)
  {
    var i := |path| - 1;
    var key := path[i];
    var t := Stored(c, key, SourceAt(w, path).value);
    SourcePrefix(w, path, i);
    assert path[..i + 1] == path && path[..i] + [key] == path;
    forall n, k | n in sh && n in t && k in t[n] ensures FieldOk(w, t, sh, done + {path}, n, k) {
      if n != c.at || k != key {
        assert FieldOk(w, c.heap, sh, done, n, k);
      }
    }
  }

  lemma StoreUpgrades(w: World, c: Cursor, sh: Shadow, done: set<Path>, claimed: set<Path>, path: Path)
    requires Shape(w, c.heap, sh, done, claimed) && path != []
    requires SourceAt(w, path).Some?
    requires c.at in sh && CursorOk(w, c.heap, sh, c.at, path[..|path| - 1])
    ensures Upgrades(w, c.heap, Stored(c, path[|path| - 1], SourceAt(w, path).value), sh)
  {
    var key, v := path[|path| - 1], SourceAt(w, path).value;
    var t := Stored(c, key, v);
    SourcePrefix(w, path, |path| - 1);
    assert path[..|path| - 1 + 1] == path;
    assert w.source[sh[c.at].source][key] == v;
    forall n, k | n in sh && n in c.heap && k in c.heap[n]
      ensures k in w.source[sh[n].source] && k in t[n]
      ensures t[n][k] == c.heap[n][k] || t[n][k] == w.source[sh[n].source][k]
    {
      assert FieldOk(w, c.heap, sh, done, n, k);
    }
  }

  /** Storing the source's value under the last segment completes the claim. */
  lemma StoreProjects(w: World, c: Cursor, sh: Shadow, done: set<Path>, claimed: set<Path>, path: Path)
    requires Projects(w, c.heap, sh, done, claimed) && path in claimed && path != []
    requires SourceAt(w, path).Some?
    requires CursorOk(w, c.heap, sh, c.at, path[..|path| - 1])
    ensures Projects(w, Stored(c, path[|path| - 1], SourceAt(w, path).value), sh, done + {path}, claimed)
  {
    var i := |path| - 1;
    var key, v := path[i], SourceAt(w, path).value;
    var t := Stored(c, key, v);
    SourcePrefix(w, path, i);
    assert path[..i + 1] == path && path[..i] + [key] == path;
    if c.at in sh {
      StoreKeepsShape(w, c, sh, done, claimed, path);
      StoreUpgrades(w, c, sh, done, claimed, path);
      UpgradeKeepsReadsSame(w, c.heap, t, sh, done, claimed);
      StoreReads(w, c, sh, done, claimed, path);
    } else {
      StoreInSource(w, c, sh, done, claimed, path);
    }
  }

  lemma StoreReads(w: World, c: Cursor, sh: Shadow, done: set<Path>, claimed: set<Path>, path: Path)
    requires Shape(w, c.heap, sh, done, claimed) && path != []
    requires SourceAt(w, path).Some?
    requires c.at in sh && CursorOk(w, c.heap, sh, c.at, path[..|path| - 1])
    ensures SubjectAt(w, Stored(c, path[|path| - 1], SourceAt(w, path).value), path) == SourceAt(w, path)
  {
    var i := |path| - 1;
    var t := Stored(c, path[i], SourceAt(w, path).value);
    assert path[..i + 1] == path;
    WalkAvoidsItsEnd(w, c.heap, t, sh, done, claimed, w.root, path[..i], c.at);
    SubjectStep(w, t, path, i, c.at);
  }

  /** Inside one of the source's own objects the value is already there. */
  lemma StoreInSource(w: World, c: Cursor, sh: Shadow, done: set<Path>, claimed: set<Path>, path: Path)
    requires Projects(w, c.heap, sh, done, claimed) && path in claimed && path != []
    requires SourceAt(w, path).Some?
    requires c.at !in sh && CursorOk(w, c.heap, sh, c.at, path[..|path| - 1])
    ensures Projects(w, Stored(c, path[|path| - 1], SourceAt(w, path).value), sh, done + {path}, claimed)
  {
    var i := |path| - 1;
    var t := Stored(c, path[i], SourceAt(w, path).value);
    SourcePrefix(w, path, i);
    assert path[..i + 1] == path;
    assert c.heap[c.at][path[i] := SourceAt(w, path).value] == c.heap[c.at];
    assert t == c.heap;
    SubjectStep(w, t, path, i, c.at);
    forall n, k | n in sh && n in t && k in t[n] ensures FieldOk(w, t, sh, done + {path}, n, k) {
      assert FieldOk(w, c.heap, sh, done, n, k);
    }
  }

  /** A whole write of the loop, in any order and over any overlap with earlier claims. */
  lemma WriteProjects(w: World, h: Heap, sh: Shadow, done: set<Path>, claimed: set<Path>,
                      path: Path, made: seq<Option<JsonObject>>) returns (after: Shadow)
    requires Projects(w, h, sh, done, claimed) && path in claimed && path != [] && |made| == |path| - 1
    requires SourceAt(w, path).Some?
    requires MadeWhereMissing(Cursor(h, w.root), path, made)
    ensures Projects(w, Write(h, w.root, path, SourceAt(w, path).value, made), after, done + {path}, claimed)
  {
    after := WalkProjects(w, h, sh, done, claimed, path, made);
    StoreProjects(w, Walk(Cursor(h, w.root), path, made), after, done, claimed, path);
  }

  /** Nothing in the subject lies off the claimed paths. */
  lemma {:induction false} NothingElseFrom(w: World, h: Heap, sh: Shadow, done: set<Path>, claimed: set<Path>,
                                           n: JsonObject, p: Path) returns (q: Path)
    requires Shape(w, h, sh, done, claimed) && n in sh && p != []
    requires Resolve(h, Ref(n), p).Some?
    ensures q in claimed && (q <= sh[n].path + p || sh[n].path + p <= q)
    decreases |p|
  {
    var v := h[n][p[0]];
    assert FieldOk(w, h, sh, done, n, p[0]);
    assert sh[n].path + p == sh[n].path + [p[0]] + p[1..];
    if v == w.source[sh[n].source][p[0]] {
      q := sh[n].path + [p[0]];
    } else if p[1..] == [] {
      assert sh[n].path + p == sh[v.obj].path;
      q :| q in claimed && sh[v.obj].path < q;
    } else {
      q := NothingElseFrom(w, h, sh, done, claimed, v.obj, p[1..]);
    }
  }

  // ---------------------------------------------------------------------------------------------
  // The claim loop
  // ---------------------------------------------------------------------------------------------

  const CREDENTIAL_SUBJECT := "credentialSubject"

  datatype Claim = Claim(path: Path, mandatory: bool)

  datatype ClaimError = InvalidConfiguration | InvalidClaims

  /** `credentialSubjectPath`: the prefix is dropped, and may not be the whole path. */
  function SubjectPath(path: Path): Option<Path> {
    if path == [] || path[0] != CREDENTIAL_SUBJECT then Some(path)
    else if |path| == 1 then None
    else Some(path[1..])
  }

  /** The prefix is dropped where there is one, and is no path by itself; three segments are unsafe. */
  lemma PathsExactly(path: Path)
    ensures SubjectPath(["credentialSubject"]) == None
    ensures path != [] ==> SubjectPath(["credentialSubject"] + path) == Some(path)
    ensures path == [] || path[0] != "credentialSubject" ==> SubjectPath(path) == Some(path)
    ensures SafePath(path) <==>
            path != [] && "__proto__" !in path && "constructor" !in path && "prototype" !in path
  {
    assert (["credentialSubject"] + path)[1..] == path;
  }

  /** The value of a claim: at its own path, or else without the prefix. */
  function ClaimValue(h: Heap, source: JsonObject, path: Path): Option<Json>
    requires SubjectPath(path).Some?
  {
    var own := Resolve(h, Ref(source), path);
    if own.None? && |SubjectPath(path).value| != |path| then Resolve(h, Ref(source), SubjectPath(path).value) else own
  }

  /** The claim has the value that the root has at the claim's path under the subject. */
  predicate ReadsFrom(h: Heap, source: JsonObject, root: JsonObject, path: Path) {
    SubjectPath(path).Some? && SafePath(path) ==>
      ClaimValue(h, source, path) == Resolve(h, Ref(root), SubjectPath(path).value)
  }

  /** All claims are read from one object: the source itself, or some object in it. */
  ghost predicate OneRoot(h: Heap, source: JsonObject, root: JsonObject, claims: seq<Claim>) {
    forall j :: 0 <= j < |claims| ==> ReadsFrom(h, source, root, claims[j].path)
  }

  /** That object is the source itself when it has no `credentialSubject` of its own, or when no path is prefixed. */
  lemma SourceIsRoot(h: Heap, source: JsonObject, claims: seq<Claim>)
    requires source in h
    requires CREDENTIAL_SUBJECT !in h[source] ||
             forall j :: 0 <= j < |claims| ==> SubjectPath(claims[j].path) == Some(claims[j].path)
    ensures OneRoot(h, source, source, claims)
  {
  }

  /** With a `credentialSubject` of its own, that one is, when all paths are prefixed and none falls back past it. */
  lemma OwnSubjectIsRoot(h: Heap, source: JsonObject, own: JsonObject, claims: seq<Claim>)
    requires source in h && CREDENTIAL_SUBJECT in h[source] && h[source][CREDENTIAL_SUBJECT] == Ref(own)
    requires forall j :: 0 <= j < |claims| && SubjectPath(claims[j].path).Some? ==>
               && SubjectPath(claims[j].path).value != claims[j].path
               && (Resolve(h, Ref(source), claims[j].path).Some? ||
                   Resolve(h, Ref(source), SubjectPath(claims[j].path).value).None?)
    ensures OneRoot(h, source, own, claims)
  {
  }

  /** The claim has a value in the source, at its path under the subject. */
  predicate Present(w: World, claim: Claim) {
    SubjectPath(claim.path).Some? && SafePath(claim.path) && SourceAt(w, SubjectPath(claim.path).value).Some?
  }

  predicate Refused(w: World, claim: Claim) {
    SubjectPath(claim.path).None? || !SafePath(claim.path) || (claim.mandatory && !Present(w, claim))
  }

  lemma SubjectPathIsSafe(path: Path)
    requires SafePath(path) && SubjectPath(path).Some?
    ensures SafePath(SubjectPath(path).value)
  {
    if path[0] == CREDENTIAL_SUBJECT {
      assert forall i | 0 <= i < |path| - 1 :: path[1..][i] == path[i + 1];
    }
  }

  lemma ClaimMore(w: World, h: Heap, sh: Shadow, done: set<Path>, path: Path)
    requires Projects(w, h, sh, done, done)
    ensures Projects(w, h, sh, done, done + {path})
  {
    forall n | n in sh ensures n == w.root || LeadsToClaim(sh[n].path, done + {path}) {
      if n != w.root {
        var q :| q in done && sh[n].path < q;
      }
    }
  }

  /** Reads one claim: at its own path first, then without the prefix. */
  method ReadClaim(claim: Claim, source: JsonObject, ghost objects: set<JsonObject>)
    returns (result: Result<Option<Json>, ClaimError>)
    requires source in objects && Closed(Snapshot(objects))
    ensures result.Ok? <==> SubjectPath(claim.path).Some? && SafePath(claim.path)
    ensures result.Ok? && result.value.Some? && result.value.value.Ref? ==> result.value.value.obj in objects
    ensures result.Ok? ==> result.value == ClaimValue(Snapshot(objects), source, claim.path)
  {
    var subjectPath := SubjectPath(claim.path);
    if subjectPath.None? {
      return Err(InvalidConfiguration);
    }
    var read := GetClaimValue(source, claim.path, objects);
    if read.Err? {
      return Err(InvalidClaims);
    }
    if read.value.None? && |subjectPath.value| != |claim.path| {
      SubjectPathIsSafe(claim.path);
      read := GetClaimValue(source, subjectPath.value, objects);
    }
    return Ok(read.value);
  }

  /** The path is part of a configured path the source has, or lies inside the value there. */
  ghost predicate OnAClaim(w: World, claims: seq<Claim>, p: Path) {
    exists j :: 0 <= j < |claims| && Present(w, claims[j]) &&
                var q := SubjectPath(claims[j].path).value; q <= p || p <= q
  }

  /** Every configured path the source has reads the same from the subject, and nothing else is there. */
  ghost predicate AgreesWithSource(w: World, h: Heap, claims: seq<Claim>) {
    && (forall j :: 0 <= j < |claims| && Present(w, claims[j]) ==>
          SubjectAt(w, h, SubjectPath(claims[j].path).value) == SourceAt(w, SubjectPath(claims[j].path).value))
    && (forall p: Path :: p != [] && SubjectAt(w, h, p).Some? ==> OnAClaim(w, claims, p))
  }

  ghost predicate NoneRefused(w: World, claims: seq<Claim>) {
    forall j :: 0 <= j < |claims| ==> !Refused(w, claims[j])
  }

  /** The claims written so far are the present ones among those seen so far. */
  ghost predicate DoneIs(w: World, claims: seq<Claim>, done: set<Path>) {
    && (forall j :: 0 <= j < |claims| && Present(w, claims[j]) ==> SubjectPath(claims[j].path).value in done)
    && (forall p :: p in done ==>
          exists j :: 0 <= j < |claims| && Present(w, claims[j]) && SubjectPath(claims[j].path) == Some(p))
  }

  lemma DoneMore(w: World, claims: seq<Claim>, done: set<Path>, i: nat)
    requires i < |claims| && DoneIs(w, claims[..i], done)
    ensures Present(w, claims[i]) ==> DoneIs(w, claims[..i + 1], done + {SubjectPath(claims[i].path).value})
    ensures !Present(w, claims[i]) ==> DoneIs(w, claims[..i + 1], done)
  {
    var seen := claims[..i + 1];
    assert seen[i] == claims[i] && forall j | 0 <= j < i :: seen[j] == claims[..i][j];
    forall p | p in done
      ensures exists j :: 0 <= j < |seen| && Present(w, seen[j]) && SubjectPath(seen[j].path) == Some(p)
    {
      var j :| 0 <= j < i && Present(w, claims[..i][j]) && SubjectPath(claims[..i][j].path) == Some(p);
      assert seen[j] == claims[..i][j];
    }
  }

  lemma NoneRefusedMore(w: World, claims: seq<Claim>, i: nat)
    requires i < |claims| && NoneRefused(w, claims[..i]) && !Refused(w, claims[i])
    ensures NoneRefused(w, claims[..i + 1])
  {
    assert forall j | 0 <= j < i :: claims[..i + 1][j] == claims[..i][j];
  }

  /** The invariant at the end of the loop is what the loop is for. */
  lemma FinishedSubjectAgrees(w: World, h: Heap, sh: Shadow, done: set<Path>, claims: seq<Claim>)
    requires Projects(w, h, sh, done, done) && DoneIs(w, claims, done)
    ensures AgreesWithSource(w, h, claims)
  {
    forall p: Path | p != [] && SubjectAt(w, h, p).Some? ensures OnAClaim(w, claims, p) {
      var q := NothingElseFrom(w, h, sh, done, done, w.root, p);
      assert [] + p == p;
    }
  }

  lemma FreshSubjectProjects(w: World, h: Heap)
    requires Closed(w.source) && w.sourceRoot in w.source && w.root !in w.source
    requires h == w.source[w.root := map[]]
    ensures Projects(w, h, map[w.root := Made(w.sourceRoot, [])], {}, {})
  {
  }

  /** One round of the loop: reads a claim and, if it has a value, writes it. */
  method AddClaim(claim: Claim, source: JsonObject, subject: JsonObject, ghost objects: set<JsonObject>,
                  ghost w: World, ghost sh: Shadow, ghost done: set<Path>)
    returns (error: Option<ClaimError>, ghost after: set<JsonObject>, ghost newShadow: Shadow)
    requires source in objects && subject in objects && Closed(Snapshot(objects))
    requires source in w.source && w.root == subject
    modifies objects
    ensures objects <= after && fresh(after - objects) && Closed(Snapshot(after))
    ensures ReadsFrom(w.source, source, w.sourceRoot, claim.path) &&
            old(Projects(w, Snapshot(objects), sh, done, done)) ==>
              && (error.Some? <==> Refused(w, claim))
              && var present := error.None? && Present(w, claim);
                 var doneNow := if present then done + {SubjectPath(claim.path).value} else done;
                 Projects(w, Snapshot(after), newShadow, doneNow, doneNow)
  {
    after, newShadow := objects, sh;
    ghost var h := Snapshot(objects);
    ghost var plain := ReadsFrom(w.source, source, w.sourceRoot, claim.path) && Projects(w, h, sh, done, done);
    var read := ReadClaim(claim, source, objects);
    if read.Err? {
      return Some(read.error), after, newShadow;
    }
    var path := SubjectPath(claim.path).value;
    if plain {
      SourceReadsAlike(w, h, Ref(source), claim.path);
      SourceReadsAlike(w, h, Ref(source), path);
    }
    if claim.mandatory && read.value.None? {
      return Some(InvalidClaims), after, newShadow;
    }
    if read.value.Some? {
      SubjectPathIsSafe(claim.path);
      ghost var made;
      var safe;
      safe, made := SetClaimValue(subject, path, read.value.value, objects);
      if plain {
        ClaimMore(w, h, sh, done, path);
        newShadow := WriteProjects(w, h, sh, done, done + {path}, path, made);
      }
      after := objects + Created(made);
    }
    error := None;
  }

  /**
    The claim loop of `createCredential`. When all claims are read from one object, as they are when the
    source has no `credentialSubject` of its own: the source is left as it was; the loop fails exactly
    when some claim is refused; and the subject reads the same as that object at every configured path
    it has, and holds nothing else.
   */
  method BuildSubject(claims: seq<Claim>, source: JsonObject, ghost root: JsonObject, ghost objects: set<JsonObject>)
    returns (error: Option<ClaimError>, subject: JsonObject, ghost after: set<JsonObject>)
    requires source in objects && root in objects && Closed(Snapshot(objects))
    modifies objects
    ensures objects <= after && fresh(after - objects) && subject in after - objects
    ensures OneRoot(old(Snapshot(objects)), source, root, claims) ==>
              var w := World(old(Snapshot(objects)), root, subject);
              && (forall o :: o in objects ==> o.fields == w.source[o])
              && (error.None? <==> NoneRefused(w, claims))
              && (error.None? ==> AgreesWithSource(w, Snapshot(after), claims))
  {
    subject := new JsonObject();
    after := objects + {subject};
    ghost var plain := OneRoot(Snapshot(objects), source, root, claims);
    ghost var w := World(Snapshot(objects), root, subject);
    ghost var sh: Shadow := map[subject := Made(root, [])];
    ghost var done: set<Path> := {};
    assert Snapshot(after) == w.source[subject := map[]];
    FreshSubjectProjects(w, Snapshot(after));
    for i := 0 to |claims|
      invariant objects + {subject} <= after && fresh(after - objects) && Closed(Snapshot(after))
      invariant plain ==> Projects(w, Snapshot(after), sh, done, done)
      invariant plain ==> NoneRefused(w, claims[..i]) && DoneIs(w, claims[..i], done)
    {
      error, after, sh := AddClaim(claims[i], source, subject, after, w, sh, done);
      if error.Some? {
        return;
      }
      if plain {
        NoneRefusedMore(w, claims, i);
        DoneMore(w, claims, done, i);
        if Present(w, claims[i]) {
          done := done + {SubjectPath(claims[i].path).value};
        }
      }
    }
    if plain {
      assert claims[..|claims|] == claims;
      FinishedSubjectAgrees(w, Snapshot(after), sh, done, claims);
    }
    error := None;
  }
}
