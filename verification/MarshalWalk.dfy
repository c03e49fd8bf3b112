/** `extractPycNames`: decode one code object and collect the names of every code object nested in its constants. */
module MarshalWalk {
  import opened Bytes
  import opened Marshal
  import opened MarshalShape
  import opened MarshalReaders

  function LayoutFor(pythonVersion: string): Layout {
    if pythonVersion == "3.7" then Layout37
    else if pythonVersion in ["3.8", "3.9", "3.10"] then Layout38to310
    else if pythonVersion in ["3.11", "3.12", "3.13"] then Layout311plus
    else LayoutUnknown
  }

  /** A chain of code objects, each a direct constant of the one before. */
  ghost predicate IsChain(objects: seq<CodeObject>, p: seq<nat>) {
    && p != [] && (forall i :: 0 <= i < |p| ==> p[i] < |objects|)
    && (forall i :: 0 <= i < |p| - 1 ==> CodeRef(p[i + 1]) in objects[p[i]].consts)
  }

  /** `id` is reached from `root` through at most `links` constants. */
  ghost predicate Reached(objects: seq<CodeObject>, root: nat, id: nat, links: nat) {
    exists p :: IsChain(objects, p) && p[0] == root && p[|p| - 1] == id && |p| <= links + 1
  }

  ghost predicate Reachable(objects: seq<CodeObject>, root: nat, id: nat) {
    exists p :: IsChain(objects, p) && p[0] == root && p[|p| - 1] == id
  }

  /** No chain of constants from the root is longer than the walk's depth limit. */
  ghost predicate Shallow(objects: seq<CodeObject>, root: nat) {
    forall p :: IsChain(objects, p) && p[0] == root ==> |p| <= MAX_DEPTH + 1
  }

  ghost predicate WellFormed(objects: seq<CodeObject>) {
    forall i, v :: 0 <= i < |objects| && v in objects[i].consts && v.CodeRef? ==> v.id < |objects|
  }

  /** The names of the code objects in `ids`. */
  ghost function NamesOf(objects: seq<CodeObject>, ids: set<nat>): iset<seq<byte>> {
    iset id, x | id in ids && id < |objects| && x in objects[id].names :: x
  }

  ghost predicate Closed(objects: seq<CodeObject>, id: nat, seen: set<nat>) {
    id < |objects| && forall v :: v in objects[id].consts && v.CodeRef? ==> v.id in seen
  }

  // ----- The walk, as a function of what was seen -----

  /** The code objects seen after the walk from `c`.  Every index in a decoded table is in range. */
  function Visit(objects: seq<CodeObject>, c: nat, depth: nat, seen: set<nat>): set<nat>
    decreases MAX_DEPTH + 1 - depth, 1, 0
  {
    if c in seen || depth > MAX_DEPTH || c >= |objects| then seen
    else VisitFrom(objects, objects[c].consts, 0, depth, seen + {c})
  }

  /** The same after the constants from the `i`-th on. */
  function VisitFrom(objects: seq<CodeObject>, consts: seq<Value>, i: nat, depth: nat, seen: set<nat>): set<nat>
    requires i <= |consts| && depth <= MAX_DEPTH
    decreases MAX_DEPTH + 1 - depth, 0, |consts| - i
  {
    if i == |consts| then seen
    else VisitFrom(objects, consts, i + 1, depth,
                   if consts[i].CodeRef? then Visit(objects, consts[i].id, depth + 1, seen) else seen)
  }

  class Walker {
    const objects: seq<CodeObject>
    var names: set<seq<byte>>
    var seen: set<nat>

    constructor (objects: seq<CodeObject>)
      ensures this.objects == objects && names == {} && seen == {}
    {
      this.objects := objects;
      names, seen := {}, {};
    }

    /** `names` holds the names of the code objects seen so far, each within reach of the root. */
    ghost predicate Valid(root: nat)
      reads this
    {
      && (forall x :: x in names <==> x in NamesOf(objects, seen))
      && (forall id :: id in seen ==> id < |objects| && Reached(objects, root, id, MAX_DEPTH))
    }

    /** Visit `c`, which lies at the end of the chain `path`.  `active` are the objects whose visit is under way. */
    method Walk(c: nat, depth: nat, ghost path: seq<nat>, ghost active: set<nat>)
      requires WellFormed(objects) && IsChain(objects, path) && path[|path| - 1] == c && |path| == depth + 1
      requires Valid(path[0])
      requires Shallow(objects, path[0]) ==> forall id :: id in seen && id !in active ==> Closed(objects, id, seen)
      modifies this`names, this`seen
      ensures Valid(path[0]) && old(seen) <= seen && seen == Visit(objects, c, depth, old(seen))
      ensures depth <= MAX_DEPTH ==> c in seen
      ensures Shallow(objects, path[0]) ==> forall id :: id in seen && id !in active ==> Closed(objects, id, seen)
      decreases MAX_DEPTH + 1 - depth
    {
      if c in seen || depth > MAX_DEPTH {
        return;
      }
      seen := seen + {c};
      names := names + (set x | x in objects[c].names);
      var consts := objects[c].consts;
      var i := 0;
      while i < |consts|
        invariant 0 <= i <= |consts|
        invariant Valid(path[0]) && old(seen) <= seen && c in seen
        invariant VisitFrom(objects, consts, i, depth, seen) == Visit(objects, c, depth, old(seen))
        invariant Shallow(objects, path[0]) ==>
          forall id :: id in seen && id !in active + {c} ==> Closed(objects, id, seen)
        invariant Shallow(objects, path[0]) ==>
          forall j :: 0 <= j < i && consts[j].CodeRef? ==> consts[j].id in seen
      {
        if consts[i].CodeRef? {
          Walk(consts[i].id, depth + 1, path + [consts[i].id], active + {c});
        }
        i := i + 1;
      }
    }
  }

  lemma {:induction false} ClosedHoldsChain(objects: seq<CodeObject>, seen: set<nat>, p: seq<nat>)
    requires IsChain(objects, p) && p[0] in seen
    requires forall id :: id in seen ==> Closed(objects, id, seen)
    ensures p[|p| - 1] in seen
  {
    if |p| > 1 {
      assert IsChain(objects, p[1..]);
      assert CodeRef(p[0 + 1]) in objects[p[0]].consts;
      ClosedHoldsChain(objects, seen, p[1..]);
    }
  }

  lemma LayeredIsWellFormed(t: Tables)
    requires Layered(t)
    ensures WellFormed(t.objects)
  {
    forall i, v | 0 <= i < |t.objects| && v in t.objects[i].consts && v.CodeRef? ensures v.id < |t.objects| {
      assert IdsBelow(v, i);
    }
  }

  /** What decoding a whole file body yields. */
  function Decoded(body: seq<byte>, layout: Layout): Result<Value> {
    ReadObject(State(body, Tables([], []), MAX_OBJECTS), 0, layout)
  }

  /** The names collected are names of code objects at most `MAX_DEPTH` constants away from the root, and all the
      names there are when no chain of constants is longer than that. */
  ghost predicate CollectsNames(objects: seq<CodeObject>, root: nat, names: set<seq<byte>>) {
    && (forall x :: x in names ==>
          exists id: nat :: id < |objects| && Reached(objects, root, id, MAX_DEPTH) && x in objects[id].names)
    && (Shallow(objects, root) ==>
          forall id: nat, x :: id < |objects| && Reachable(objects, root, id) && x in objects[id].names ==> x in names)
  }

  /** The names collected are exactly those of the code objects the walk from the root visits. */
  ghost predicate VisitsNames(objects: seq<CodeObject>, root: nat, names: set<seq<byte>>) {
    forall x :: x in names <==> x in NamesOf(objects, Visit(objects, root, 0, {}))
  }

  method ExtractPycNames(body: seq<byte>, pythonVersion: string) returns (names: set<seq<byte>>, ok: bool)
    ensures var r := Decoded(body, LayoutFor(pythonVersion));
            && ok == (LayoutFor(pythonVersion) != LayoutUnknown && r.Ok? && r.value.CodeRef?)
            && (ok ==> CollectsNames(r.st.tables.objects, r.value.id, names)
                       && VisitsNames(r.st.tables.objects, r.value.id, names))
  {
    names := {};
    var layout := LayoutFor(pythonVersion);
    if layout == LayoutUnknown {
      return names, false;
    }
    var reader := new MarshalReader(body, layout);
    var v;
    v, ok := reader.ReadObject(0);
    if !ok || !v.CodeRef? {
      return names, false;
    }
    DecodedCodeIsAcyclic(body, 0, layout);
    LayeredIsWellFormed(Tables(reader.refs, reader.objects));
    var walker := new Walker(reader.objects);
    walker.Walk(v.id, 0, [v.id], {});
    names := walker.names;
    WalkCollects(walker, v.id);
  }

  lemma WalkCollects(walker: Walker, root: nat)
    requires walker.Valid(root) && root in walker.seen
    requires Shallow(walker.objects, root) ==> forall id :: id in walker.seen ==> Closed(walker.objects, id, walker.seen)
    ensures CollectsNames(walker.objects, root, walker.names)
  {
    var objects, seen := walker.objects, walker.seen;
    if Shallow(objects, root) {
      forall id: nat, x | id < |objects| && Reachable(objects, root, id) && x in objects[id].names ensures x in walker.names {
        var p :| IsChain(objects, p) && p[0] == root && p[|p| - 1] == id;
        ClosedHoldsChain(objects, seen, p);
      }
    }
  }
}
