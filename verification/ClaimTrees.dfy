/**
  Claim objects as JavaScript has them: mutable, nested, and shared by reference.

  A snapshot of the heap is a map from objects to their fields; reading a path and writing a path
  are functions on snapshots, and `GetClaimValue` and `SetClaimValue` do the same to the objects.
 */
module ClaimTrees {
  import opened Prelude

  type Path = seq<string>

  /** A plain object by reference, or anything else (string, number, array, null) as an atom. */
  datatype Json = Ref(obj: JsonObject) | Atom(text: string)

  class JsonObject {
    var fields: map<string, Json>

    constructor ()
      ensures fields == map[]
    {
      fields := map[];
    }
  }

  type Heap = map<JsonObject, map<string, Json>>

  ghost function Snapshot(objects: set<JsonObject>): Heap
    reads objects
  {
    map o | o in objects :: o.fields
  }

  predicate Closed(h: Heap) {
    forall o, k :: o in h && k in h[o] && h[o][k].Ref? ==> h[o][k].obj in h
  }

  const FORBIDDEN_SEGMENTS := {"__proto__", "constructor", "prototype"}

  /** `assertSafePath` */
  predicate SafePath(path: Path) {
    path != [] && forall i | 0 <= i < |path| :: path[i] !in FORBIDDEN_SEGMENTS
  }

  function Resolve(h: Heap, v: Json, path: Path): Option<Json>
    decreases |path|
  {
    if path == [] then Some(v)
    else if v.Ref? && v.obj in h && path[0] in h[v.obj] then Resolve(h, h[v.obj][path[0]], path[1..])
    else None
  }

  /** Where a write stands: the heap so far and the object it has walked to. */
  datatype Cursor = Cursor(heap: Heap, at: JsonObject)

  predicate HasObject(c: Cursor, key: string) {
    c.at in c.heap && key in c.heap[c.at] && c.heap[c.at][key].Ref?
  }

  /** One segment of the walk; `child` is the object created when the segment holds none. */
  function StepDown(c: Cursor, key: string, child: Option<JsonObject>): Cursor {
    if c.at !in c.heap then c
    else if child.Some? then
      Cursor(c.heap[c.at := c.heap[c.at][key := Ref(child.value)]][child.value := map[]], child.value)
    else if HasObject(c, key) then Cursor(c.heap, c.heap[c.at][key].obj)
    else c
  }

  function Walk(c: Cursor, path: Path, made: seq<Option<JsonObject>>): Cursor
    requires |made| <= |path|
    decreases |made|
  {
    if made == [] then c
    else StepDown(Walk(c, path, made[..|made| - 1]), path[|made| - 1], made[|made| - 1])
  }

  function Stored(c: Cursor, key: string, v: Json): Heap {
    if c.at in c.heap then c.heap[c.at := c.heap[c.at][key := v]] else c.heap
  }

  /** Objects are created exactly where the walk finds none, and are new. */
  predicate MadeWhereMissing(c: Cursor, path: Path, made: seq<Option<JsonObject>>)
    requires |made| <= |path|
  {
    forall i | 0 <= i < |made| ::
      var here := Walk(c, path, made[..i]);
      && (made[i].None? <==> HasObject(here, path[i]))
      && (made[i].Some? ==> made[i].value !in here.heap)
  }

  /** What `setClaimValue` does to the heap. */
  function Write(h: Heap, target: JsonObject, path: Path, v: Json, made: seq<Option<JsonObject>>): Heap
    requires path != [] && |made| == |path| - 1
  {
    Stored(Walk(Cursor(h, target), path, made), path[|path| - 1], v)
  }

  ghost function Created(made: seq<Option<JsonObject>>): set<JsonObject> {
    set i | 0 <= i < |made| && made[i].Some? :: made[i].value
  }

  method GetClaimValue(claims: JsonObject, path: Path, ghost objects: set<JsonObject>)
    returns (result: Result<Option<Json>, ()>)
    requires claims in objects && Closed(Snapshot(objects))
    ensures result == if SafePath(path) then Ok(Resolve(Snapshot(objects), Ref(claims), path)) else Err(())
    ensures result.Ok? && result.value.Some? && result.value.value.Ref? ==> result.value.value.obj in objects
  {
    if !SafePath(path) {
      return Err(());
    }
    var current := Ref(claims);
    ghost var h := Snapshot(objects);
    for i := 0 to |path|
      invariant current.Ref? ==> current.obj in objects
      invariant Resolve(h, current, path[i..]) == Resolve(h, Ref(claims), path)
    {
      assert path[i..][1..] == path[i + 1..];
      if !current.Ref? || path[i] !in current.obj.fields {
        return Ok(None);
      }
      assert current.obj.fields == h[current.obj];
      current := current.obj.fields[path[i]];
    }
    return Ok(Some(current));
  }

  method Descend(current: JsonObject, key: string, ghost objects: set<JsonObject>)
    returns (next: JsonObject, ghost child: Option<JsonObject>)
    requires current in objects && Closed(Snapshot(objects))
    modifies current
    ensures child.None? <==> HasObject(Cursor(old(Snapshot(objects)), current), key)
    ensures child.Some? ==> fresh(child.value) && child.value !in objects
    ensures var after := objects + Created([child]);
            && next in after && Closed(Snapshot(after))
            && Cursor(Snapshot(after), next) == StepDown(Cursor(old(Snapshot(objects)), current), key, child)
  {
    ghost var h := Snapshot(objects);
    assert current.fields == h[current];
    if key !in current.fields || !current.fields[key].Ref? {
      var created := new JsonObject();
      current.fields := current.fields[key := Ref(created)];
      child := Some(created);
      next := created;
      assert objects + Created([child]) == objects + {created} by {
        assert [child][0] == child;
      }
      assert Snapshot(objects + {created}) == h[current := h[current][key := Ref(created)]][created := map[]];
    } else {
      child := None;
      next := current.fields[key].obj;
      assert Created([child]) == {};
      assert objects + Created([child]) == objects;
    }
  }

  lemma CreatedAppend(made: seq<Option<JsonObject>>, child: Option<JsonObject>)
    ensures Created(made + [child]) == Created(made) + Created([child])
  {
    var after := made + [child];
    assert after[|made|] == child == [child][0];
    assert forall i | 0 <= i < |made| :: after[i] == made[i];
  }

  lemma WalkAppend(c: Cursor, path: Path, made: seq<Option<JsonObject>>, child: Option<JsonObject>)
    requires |made| < |path| && MadeWhereMissing(c, path, made)
    requires child.None? <==> HasObject(Walk(c, path, made), path[|made|])
    requires child.Some? ==> child.value !in Walk(c, path, made).heap
    ensures Walk(c, path, made + [child]) == StepDown(Walk(c, path, made), path[|made|], child)
    ensures MadeWhereMissing(c, path, made + [child])
  {
    var longer := made + [child];
    assert longer[..|made|] == made;
    assert forall j | 0 <= j < |made| :: longer[..j] == made[..j];
  }

  /** The loop of `setClaimValue`: the object that will hold the last segment. */
  method FindParent(target: JsonObject, path: Path, ghost objects: set<JsonObject>)
    returns (parent: JsonObject, ghost made: seq<Option<JsonObject>>)
    requires path != [] && target in objects && Closed(Snapshot(objects))
    modifies objects
    ensures |made| == |path| - 1 && fresh(Created(made))
    ensures MadeWhereMissing(Cursor(old(Snapshot(objects)), target), path, made)
    ensures parent in objects + Created(made) && Closed(Snapshot(objects + Created(made)))
    ensures Cursor(Snapshot(objects + Created(made)), parent) ==
            Walk(Cursor(old(Snapshot(objects)), target), path, made)
  {
    made := [];
    parent := target;
    ghost var now := objects;
    ghost var start := Cursor(Snapshot(objects), target);
    for i := 0 to |path| - 1
      invariant |made| == i && fresh(Created(made)) && now == objects + Created(made)
      invariant parent in now && Closed(Snapshot(now))
      invariant Cursor(Snapshot(now), parent) == Walk(start, path, made)
      invariant MadeWhereMissing(start, path, made)
    {
      ghost var child;
      parent, child := Descend(parent, path[i], now);
      CreatedAppend(made, child);
      WalkAppend(start, path, made, child);
      now := now + Created([child]);
      made := made + [child];
    }
  }

  method SetClaimValue(target: JsonObject, path: Path, value: Json, ghost objects: set<JsonObject>)
    returns (safe: bool, ghost made: seq<Option<JsonObject>>)
    requires target in objects && Closed(Snapshot(objects))
    requires value.Ref? ==> value.obj in objects
    modifies objects
    ensures safe <==> SafePath(path)
    ensures !safe ==> made == [] && Snapshot(objects) == old(Snapshot(objects))
    ensures safe ==> Closed(Snapshot(objects + Created(made)))
    ensures safe ==>
              && |made| == |path| - 1
              && fresh(Created(made))
              && MadeWhereMissing(Cursor(old(Snapshot(objects)), target), path, made)
              && Snapshot(objects + Created(made)) == Write(old(Snapshot(objects)), target, path, value, made)
  {
    if !SafePath(path) {
      return false, [];
    }
    var parent;
    parent, made := FindParent(target, path, objects);
    StoreField(parent, path[|path| - 1], value, objects + Created(made));
    safe := true;
  }

  /** The assignment after the loop. */
  method StoreField(parent: JsonObject, key: string, value: Json, ghost objects: set<JsonObject>)
    requires parent in objects && Closed(Snapshot(objects))
    requires value.Ref? ==> value.obj in objects
    modifies parent
    ensures Closed(Snapshot(objects))
    ensures Snapshot(objects) == Stored(Cursor(old(Snapshot(objects)), parent), key, value)
  {
    ghost var h := Snapshot(objects);
    parent.fields := parent.fields[key := value];
    assert Snapshot(objects) == h[parent := h[parent][key := value]];
  }
}
