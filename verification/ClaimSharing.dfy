/**
  The subject shares objects with the source, so a write into the subject can land in the source. When
  exactly it does, and a pair of claims that makes it.
 */
module ClaimSharing {
  import opened Prelude
  import opened ClaimTrees
  import opened ClaimProjection

  ghost predicate Spared(h: Heap, after: Heap, source: set<JsonObject>) {
    forall o :: o in source && o in h ==> o in after && after[o] == h[o]
  }

  /** How many segments of the walk found an object before the first one that was made. */
  function FirstMade(made: seq<Option<JsonObject>>): (n: nat)
    ensures n <= |made| && (n < |made| ==> made[n].Some?)
    ensures forall i :: 0 <= i < n ==> made[i].None?
  {
    if made == [] || made[0].Some? then 0 else 1 + FirstMade(made[1..])
  }

  /** While nothing is made, walking changes nothing. */
  lemma {:induction false} WalkChangesNothing(c: Cursor, path: Path, made: seq<Option<JsonObject>>)
    requires |made| <= |path| && forall i | 0 <= i < |made| :: made[i].None?
    ensures Walk(c, path, made).heap == c.heap
  {
    if made != [] {
      WalkChangesNothing(c, path, made[..|made| - 1]);
    }
  }

  /** The object the write first changes: where the first segment is missing, or the parent of the last one. */
  function FirstChanged(h: Heap, target: JsonObject, path: Path, made: seq<Option<JsonObject>>): JsonObject
    requires |made| <= |path|
  {
    Walk(Cursor(h, target), path, made[..FirstMade(made)]).at
  }

  /** The cursor is on an empty object the heap did not have, and that heap is still all there. */
  predicate OffTheOld(old_: Heap, c: Cursor) {
    && c.at in c.heap && c.at !in old_ && c.heap[c.at] == map[]
    && forall o | o in old_ :: o in c.heap && c.heap[o] == old_[o]
  }

  lemma StepOffTheOld(old_: Heap, c: Cursor, key: string, child: Option<JsonObject>)
    requires OffTheOld(old_, c)
    requires child.None? <==> HasObject(c, key)
    requires child.Some? ==> child.value !in c.heap
    ensures OffTheOld(old_, StepDown(c, key, child))
  {
  }

  /** The walk's step at segment k, and what the loop makes there. */
  ghost predicate WalksAt(c: Cursor, path: Path, made: seq<Option<JsonObject>>, k: nat) {
    && k < |made| <= |path|
    && var here := Walk(c, path, made[..k]);
       && Walk(c, path, made[..k + 1]) == StepDown(here, path[k], made[k])
       && (made[k].None? <==> HasObject(here, path[k]))
       && (made[k].Some? ==> made[k].value !in here.heap)
  }

  lemma WalkOneMore(c: Cursor, path: Path, made: seq<Option<JsonObject>>, k: nat)
    requires k < |made| <= |path| && MadeWhereMissing(c, path, made)
    ensures WalksAt(c, path, made, k)
  {
    assert made[..k + 1][..k] == made[..k];
  }

  lemma OneMoreOffTheOld(old_: Heap, c: Cursor, path: Path, made: seq<Option<JsonObject>>, k: nat)
    requires WalksAt(c, path, made, k) && OffTheOld(old_, Walk(c, path, made[..k]))
    ensures OffTheOld(old_, Walk(c, path, made[..k + 1]))
  {
    StepOffTheOld(old_, Walk(c, path, made[..k]), path[k], made[k]);
  }

  /** From a made object on, everything on the way is made and empty, and nothing older changes. */
  lemma {:induction false} MadeFromThere(old_: Heap, c: Cursor, path: Path, made: seq<Option<JsonObject>>,
                                         n: nat, k: nat)
    requires n <= k <= |made| <= |path| && forall j: nat :: n <= j < k ==> WalksAt(c, path, made, j)
    requires OffTheOld(old_, Walk(c, path, made[..n]))
    ensures OffTheOld(old_, Walk(c, path, made[..k]))
    decreases k
  {
    if n < k {
      MadeFromThere(old_, c, path, made, n, k - 1);
      OneMoreOffTheOld(old_, c, path, made, k - 1);
    }
  }

  /**
    A write leaves every object of the source as it was exactly when the first object it changes is none
    of them, or when nothing was missing on the way and the value is there already.
   */
  lemma WriteSparesExactlyWhen(h: Heap, source: set<JsonObject>, target: JsonObject, path: Path, v: Json,
                               made: seq<Option<JsonObject>>)
    requires Closed(h) && target in h && source <= h.Keys && path != [] && |made| == |path| - 1
    requires MadeWhereMissing(Cursor(h, target), path, made)
    ensures var first, last := FirstChanged(h, target, path, made), path[|path| - 1];
            first in h &&
            (Spared(h, Write(h, target, path, v, made), source) <==>
             (first in source ==> FirstMade(made) == |made| && last in h[first] && h[first][last] == v))
  {
    var c, n, last := Cursor(h, target), FirstMade(made), path[|path| - 1];
    var here := Walk(c, path, made[..n]);
    WalkChangesNothing(c, path, made[..n]);
    WalkStays(c, path, made[..n]);
    if n == |made| {
      assert made[..n] == made;
      assert Write(h, target, path, v, made) == h[here.at := h[here.at][last := v]];
    } else {
      WriteMakes(h, target, path, v, made, n);
    }
  }

  /** The heap with a new object linked where a segment was missing; only the linking object differs. */
  function Linking(h: Heap, at: JsonObject, key: string, child: JsonObject): Heap
    requires at in h
  {
    h[at := h[at][key := Ref(child)]]
  }

  lemma LinkingChangesOne(h: Heap, at: JsonObject, key: string, child: JsonObject)
    requires Closed(h) && at in h && child !in h && !HasObject(Cursor(h, at), key)
    ensures OffTheOld(Linking(h, at, key, child), StepDown(Cursor(h, at), key, Some(child)))
    ensures Linking(h, at, key, child).Keys == h.Keys
    ensures forall o :: o in h ==> (Linking(h, at, key, child)[o] == h[o] <==> o != at)
  {
    assert Linking(h, at, key, child)[at][key] == Ref(child);
    assert key in h[at] ==> h[at][key] != Ref(child);
  }

  /** A write that makes its first object at segment n links it there, and leaves every other older object alone. */
  lemma WriteMakes(h: Heap, target: JsonObject, path: Path, v: Json, made: seq<Option<JsonObject>>, n: nat)
    requires Closed(h) && path != [] && n < |made| == |path| - 1 && MadeWhereMissing(Cursor(h, target), path, made)
    requires var here := Walk(Cursor(h, target), path, made[..n]); here.heap == h && here.at in h
    requires made[n].Some?
    ensures var here := Walk(Cursor(h, target), path, made[..n]);
            && h.Keys <= Write(h, target, path, v, made).Keys
            && (forall o :: o in h ==> (Write(h, target, path, v, made)[o] == h[o] <==> o != here.at))
  {
    var c := Cursor(h, target);
    var here := Walk(c, path, made[..n]);
    WalkOneMore(c, path, made, n);
    LinkingChangesOne(h, here.at, path[n], made[n].value);
    forall j: nat | n + 1 <= j < |made| ensures WalksAt(c, path, made, j) {
      WalkOneMore(c, path, made, j);
    }
    MadeFromThere(Linking(h, here.at, path[n], made[n].value), c, path, made, n + 1, |made|);
    assert made[..|made|] == made;
  }

  /** A walk that makes nothing stays on objects of the heap. */
  lemma {:induction false} WalkStays(c: Cursor, path: Path, made: seq<Option<JsonObject>>)
    requires |made| <= |path| && c.at in c.heap && Closed(c.heap) && forall i | 0 <= i < |made| :: made[i].None?
    ensures Walk(c, path, made).at in c.heap
  {
    if made != [] {
      WalkChangesNothing(c, path, made[..|made| - 1]);
      WalkStays(c, path, made[..|made| - 1]);
    }
  }

  /**
    Claims read from two places of one source: the first puts the inner object of the source's own
    `credentialSubject` into the subject, and the second is written into that object.
   */
  lemma TwoPlacesWriteTheSource(source: JsonObject, own: JsonObject, inner: JsonObject, beside: JsonObject,
                                subject: JsonObject, v: Json, h: Heap)
    requires source != own && source != inner && source != beside && source != subject && own != inner
    requires own != beside && own != subject && inner != beside && inner != subject && beside != subject
    requires h == map[source := map[CREDENTIAL_SUBJECT := Ref(own), "a" := Ref(beside)],
                      own := map["a" := Ref(inner)], inner := map[], beside := map["b" := v], subject := map[]]
    ensures ClaimValue(h, source, [CREDENTIAL_SUBJECT, "a"]) == Some(Ref(inner))
    ensures var once := Write(h, subject, ["a"], Ref(inner), []);
            && ClaimValue(once, source, ["a", "b"]) == Some(v)
            && MadeWhereMissing(Cursor(once, subject), ["a", "b"], [None])
            && Write(once, subject, ["a", "b"], v, [None])[inner] == map["b" := v] != h[inner]
  {
    var prefixed, plain := [CREDENTIAL_SUBJECT, "a"], ["a", "b"];
    ResolveTwo(h, source, prefixed, own);
    var once := Write(h, subject, ["a"], Ref(inner), []);
    assert once == h[subject := map["a" := Ref(inner)]];
    ResolveTwo(once, source, plain, beside);
    assert plain[0] != CREDENTIAL_SUBJECT;
    var c := Cursor(once, subject);
    var made: seq<Option<JsonObject>> := [None];
    assert made[..0] == [] && Walk(c, plain, []) == c;
    assert HasObject(c, "a");
    assert Walk(c, plain, made) == Cursor(once, inner);
  }

  lemma ResolveTwo(h: Heap, o: JsonObject, path: Path, next: JsonObject)
    requires |path| == 2 && o in h && path[0] in h[o] && h[o][path[0]] == Ref(next)
    requires next in h && path[1] in h[next]
    ensures Resolve(h, Ref(o), path) == Some(h[next][path[1]])
  {
    var tail := path[1..];
    assert tail[0] == path[1] && tail[1..] == [];
    assert Resolve(h, h[next][path[1]], []) == Some(h[next][path[1]]);
    assert Resolve(h, Ref(next), tail) == Resolve(h, h[next][tail[0]], tail[1..]);
  }
}
