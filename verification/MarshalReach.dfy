/** When the depth limit of the walk hides nothing.  A chain of constants can outgrow the depth of the file only through
    back-references to code, so a file whose back-references stand for anything else yields every name. */
module MarshalReach {
  import opened Bytes
  import opened Marshal
  import opened MarshalTrees
  import opened MarshalRoundTrip
  import opened MarshalShape
  import opened MarshalWalk

  // ----- Back-references that stand for no code -----

  /** No back-reference in the tree stands for a code object, or for a tuple with one inside. */
  ghost predicate PlainRefs(n: Node, t: Tables)
    requires Eval(n, t).Some?
  {
    PlainRefsInBody(n.body, KindOf(n.tag), Reserve(t, n.flagged))
  }

  ghost predicate PlainRefsInBody(b: Body, kind: Kind, t: Tables)
    requires EvalBody(b, kind, t).Some?
  {
    match b
    case Listing(ns) => PlainRefsInNodes(ns, t)
    case Table(es) => PlainRefsInEntries(es, t)
    case Fields(fs) => PlainRefsInFields(fs, t)
    case Ref(i) => IdsBelow(t.refs[i], 0)
    case _ => true
  }

  ghost predicate PlainRefsInNodes(ns: Nodes, t: Tables)
    requires EvalNodes(ns, t).Some?
  {
    match ns
    case Nil => true
    case Cons(n, tail) => PlainRefs(n, t) && PlainRefsInNodes(tail, Eval(n, t).value.tables)
  }

  ghost predicate PlainRefsInEntries(es: Entries, t: Tables)
    requires EvalEntries(es, t).Some?
  {
    match es
    case Stop(k) => PlainRefs(k, t)
    case Entry(k, v, rest) =>
      var t1 := Eval(k, t).value.tables;
      var t2 := Eval(v, t1).value.tables;
      PlainRefs(k, t) && PlainRefs(v, t1) && PlainRefsInEntries(rest, t2)
  }

  ghost predicate PlainRefsInFields(fs: FieldList, t: Tables)
    requires EvalFields(fs, t).Some?
  {
    match fs
    case Done => true
    case RawField(_, rest) => PlainRefsInFields(rest, t)
    case ObjectField(n, rest) => PlainRefs(n, t) && PlainRefsInFields(rest, Eval(n, t).value.tables)
  }

  // ----- Chains no longer than the tree is deep -----

  /** No chain of constants from `id` has more than `k` objects. */
  ghost predicate Bounded(objects: seq<CodeObject>, id: nat, k: nat) {
    forall p :: IsChain(objects, p) && p[0] == id ==> |p| <= k
  }

  /** The same of every code object inside `v`. */
  ghost predicate ValueBounded(objects: seq<CodeObject>, v: Value, k: nat) {
    match v
    case CodeRef(id) => Bounded(objects, id, k)
    case Items(items) => forall x :: x in items ==> ValueBounded(objects, x, k)
    case _ => true
  }

  ghost predicate AllBounded(objects: seq<CodeObject>, vs: seq<Value>, k: nat) {
    forall v :: v in vs ==> ValueBounded(objects, v, k)
  }

  lemma RestOfChain(objects: seq<CodeObject>, p: seq<nat>)
    requires IsChain(objects, p) && |p| > 1
    ensures IsChain(objects, p[1..]) && p[1..][0] == p[1]
  {
    var q := p[1..];
    forall i | 0 <= i < |q| - 1 ensures CodeRef(q[i + 1]) in objects[q[i]].consts {
      assert CodeRef(p[i + 1 + 1]) in objects[p[i + 1]].consts;
    }
  }

  /** Chains from a code object stay among those completed before it, so later ones do not lengthen them. */
  lemma {:induction false} ChainStaysBelow(t: Tables, later: seq<CodeObject>, p: seq<nat>)
    requires Layered(t) && t.objects <= later && IsChain(later, p) && p[0] < |t.objects|
    ensures IsChain(t.objects, p)
  {
    if |p| > 1 {
      assert CodeRef(p[0 + 1]) in later[p[0]].consts;
      assert IdsBelow(CodeRef(p[1]), p[0]);
      var q := p[1..];
      RestOfChain(later, p);
      ChainStaysBelow(t, later, q);
      forall i | 0 <= i < |p| - 1 ensures CodeRef(p[i + 1]) in t.objects[p[i]].consts {
        if i > 0 {
          assert CodeRef(q[i - 1 + 1]) in t.objects[q[i - 1]].consts;
        }
      }
      assert forall i :: 0 < i < |p| ==> p[i] == q[i - 1];
    }
  }

  lemma {:induction false} StaysBounded(t: Tables, later: seq<CodeObject>, v: Value, k: nat, m: nat)
    requires Layered(t) && t.objects <= later && k <= m
    requires IdsBelow(v, |t.objects|) && ValueBounded(t.objects, v, k)
    ensures ValueBounded(later, v, m)
  {
    match v
    case CodeRef(id) =>
      forall p | IsChain(later, p) && p[0] == id ensures |p| <= m { ChainStaysBelow(t, later, p); }
    case Items(items) =>
      forall x | x in items ensures ValueBounded(later, x, m) { StaysBounded(t, later, x, k, m); }
    case _ =>
  }

  lemma {:induction false} NoCodeIsBounded(objects: seq<CodeObject>, v: Value, k: nat)
    requires IdsBelow(v, 0)
    ensures ValueBounded(objects, v, k)
  {
    if v.Items? {
      forall x | x in v.items ensures ValueBounded(objects, x, k) { NoCodeIsBounded(objects, x, k); }
    }
  }

  /** A new code object is one longer than the longest chain from its constants. */
  lemma NewCodeBounded(t: Tables, fields: seq<Value>, k: nat)
    requires Layered(t) && |fields| >= 3 && fields[1].Items? && fields[2].Items?
    requires IdsBelow(fields[1], |t.objects|) && ValueBounded(t.objects, fields[1], k)
    ensures Bounded(NewCode(t, fields).objects, |t.objects|, k + 1)
  {
    var later := NewCode(t, fields).objects;
    forall p | IsChain(later, p) && p[0] == |t.objects| ensures |p| <= k + 1 {
      if |p| > 1 {
        assert CodeRef(p[0 + 1]) in fields[1].items;
        StaysBounded(t, later, CodeRef(p[1]), k, k);
        RestOfChain(later, p);
      }
    }
  }

  lemma {:induction false} TreeIsBounded(n: Node, t: Tables)
    requires Layered(t) && Eval(n, t).Some? && PlainRefs(n, t)
    ensures var m := Eval(n, t).value; ValueBounded(m.tables.objects, m.value, Height(n) + 1)
  {
    var t1 := Reserve(t, n.flagged);
    ReserveLayered(t, n.flagged);
    BodyIsBounded(n.body, KindOf(n.tag), t1);
  }

  lemma {:induction false} BodyIsBounded(b: Body, kind: Kind, t: Tables)
    requires Layered(t) && EvalBody(b, kind, t).Some? && PlainRefsInBody(b, kind, t)
    ensures var m := EvalBody(b, kind, t).value; ValueBounded(m.tables.objects, m.value, BodyHeight(b) + 1)
  {
    match b
    case Listing(ns) =>
      NodesAreBounded(ns, t);
      var m := EvalNodes(ns, t).value;
      NodesLayered(ns, t);
      AllWiden(m.tables, m.tables.objects, m.value, NodesHeight(ns), NodesHeight(ns) + 1);
    case Table(es) => EntriesMeanNothing(es, t);
    case Fields(fs) =>
      FieldsAreBounded(fs, t);
      FieldsLayered(fs, t);
      var r := EvalFields(fs, t).value;
      assert r.value[1] in r.value;
      NewCodeBounded(r.tables, r.value, FieldsHeight(fs));
    case Ref(i) => NoCodeIsBounded(t.objects, t.refs[i], 1);
    case _ =>
  }

  lemma {:induction false} EntriesMeanNothing(es: Entries, t: Tables)
    requires EvalEntries(es, t).Some?
    ensures EvalEntries(es, t).value.value == None
  {
    if es.Entry? {
      var t1 := Eval(es.key, t).value.tables;
      EntriesMeanNothing(es.rest, Eval(es.value, t1).value.tables);
    }
  }

  lemma AllWiden(t: Tables, later: seq<CodeObject>, vs: seq<Value>, k: nat, m: nat)
    requires Layered(t) && t.objects <= later && k <= m
    requires (forall v :: v in vs ==> IdsBelow(v, |t.objects|)) && AllBounded(t.objects, vs, k)
    ensures AllBounded(later, vs, m)
  {
    forall v | v in vs ensures ValueBounded(later, v, m) { StaysBounded(t, later, v, k, m); }
  }

  lemma {:induction false} NodesAreBounded(ns: Nodes, t: Tables)
    requires Layered(t) && EvalNodes(ns, t).Some? && PlainRefsInNodes(ns, t)
    ensures var m := EvalNodes(ns, t).value; AllBounded(m.tables.objects, m.value, NodesHeight(ns))
  {
    if ns.Cons? {
      var first := Eval(ns.head, t).value;
      TreeIsBounded(ns.head, t);
      EvalLayered(ns.head, t);
      NodesAreBounded(ns.tail, first.tables);
      NodesLayered(ns.tail, first.tables);
      var more := EvalNodes(ns.tail, first.tables).value;
      FirstAndMore(first, more, Height(ns.head) + 1, NodesHeight(ns.tail));
    }
  }

  lemma {:induction false} FieldsAreBounded(fs: FieldList, t: Tables)
    requires Layered(t) && EvalFields(fs, t).Some? && PlainRefsInFields(fs, t)
    ensures var m := EvalFields(fs, t).value; AllBounded(m.tables.objects, m.value, FieldsHeight(fs))
  {
    match fs
    case Done =>
    case RawField(_, rest) => FieldsAreBounded(rest, t);
    case ObjectField(n, rest) =>
      var first := Eval(n, t).value;
      TreeIsBounded(n, t);
      EvalLayered(n, t);
      FieldsAreBounded(rest, first.tables);
      FieldsLayered(rest, first.tables);
      var more := EvalFields(rest, first.tables).value;
      FirstAndMore(first, more, Height(n) + 1, FieldsHeight(rest));
  }

  lemma FirstAndMore(first: Meaning<Value>, more: Meaning<seq<Value>>, k: nat, m: nat)
    requires Layered(first.tables) && Grows(first.tables, more.tables)
    requires IdsBelow(first.value, |first.tables.objects|) && ValueBounded(first.tables.objects, first.value, k)
    requires (forall v :: v in more.value ==> IdsBelow(v, |more.tables.objects|)) && AllBounded(more.tables.objects, more.value, m)
    ensures AllBounded(more.tables.objects, [first.value] + more.value, Max(k, m))
  {
    StaysBounded(first.tables, more.tables.objects, first.value, k, Max(k, m));
    AllWiden(more.tables, more.tables.objects, more.value, m, Max(k, m));
  }

  // ----- Nothing is hidden -----

  /** A file body that starts with the encoding of a code object decodes to what that tree means; and when no
      back-reference in it stands for code, the names collected from it are exactly those of all the code objects
      reachable from the root through constants. */
  lemma ExtractedNamesOfEncoding(n: Node, tail: seq<byte>, layout: Layout, names: set<seq<byte>>)
    requires Wf(n, layout) && Eval(n, Tables([], [])).Some? && Objects(n) <= MAX_OBJECTS && Height(n) <= MAX_DEPTH
    requires var m := Eval(n, Tables([], [])).value;
             m.value.CodeRef? && PlainRefs(n, Tables([], [])) && CollectsNames(m.tables.objects, m.value.id, names)
    ensures var m := Eval(n, Tables([], [])).value;
            Decoded(Encode(n, layout) + tail, layout) == Ok(State(tail, m.tables, MAX_OBJECTS - Objects(n)), m.value)
    ensures var m := Eval(n, Tables([], [])).value;
            forall x :: x in names <==> ReachableName(m.tables.objects, m.value.id, x)
  {
    hide Encode, Wf, Objects, Height, Eval;
    var t := Tables([], []);
    DecodeEncode(n, tail, t, MAX_OBJECTS, 0, layout);
    TreeIsBounded(n, t);
    var m := Eval(n, t).value;
    NamesWhenShallow(m.tables.objects, m.value.id, names);
  }

  /** `x` is a name of some code object reachable from the root. */
  ghost predicate ReachableName(objects: seq<CodeObject>, root: nat, x: seq<byte>) {
    exists id: nat :: id < |objects| && Reachable(objects, root, id) && x in objects[id].names
  }

  lemma NamesWhenShallow(objects: seq<CodeObject>, root: nat, names: set<seq<byte>>)
    requires CollectsNames(objects, root, names) && Shallow(objects, root)
    ensures forall x :: x in names <==> ReachableName(objects, root, x)
  {
    forall x | x in names ensures ReachableName(objects, root, x) {
      var id: nat :| id < |objects| && Reached(objects, root, id, MAX_DEPTH) && x in objects[id].names;
      assert Reachable(objects, root, id);
    }
  }

  // ----- What the walk visits -----

  /** What was seen before is seen after, and all else lies on a chain from `c`. */
  lemma {:induction false} VisitReaches(objects: seq<CodeObject>, c: nat, depth: nat, seen: set<nat>)
    ensures seen <= Visit(objects, c, depth, seen)
    ensures forall id :: id in Visit(objects, c, depth, seen) - seen ==> Reachable(objects, c, id)
    decreases MAX_DEPTH + 1 - depth, 1, 0
  {
    if !(c in seen || depth > MAX_DEPTH || c >= |objects|) {
      assert IsChain(objects, [c]);
      VisitFromReaches(objects, c, 0, depth, seen + {c});
    }
  }

  lemma {:induction false} VisitFromReaches(objects: seq<CodeObject>, c: nat, i: nat, depth: nat, seen: set<nat>)
    requires c < |objects| && i <= |objects[c].consts| && depth <= MAX_DEPTH
    ensures seen <= VisitFrom(objects, objects[c].consts, i, depth, seen)
    ensures forall id :: id in VisitFrom(objects, objects[c].consts, i, depth, seen) - seen ==> Reachable(objects, c, id)
    decreases MAX_DEPTH + 1 - depth, 0, |objects[c].consts| - i
  {
    var consts := objects[c].consts;
    if i < |consts| {
      if consts[i].CodeRef? {
        VisitReaches(objects, consts[i].id, depth + 1, seen);
        var next := Visit(objects, consts[i].id, depth + 1, seen);
        forall id | id in next - seen ensures Reachable(objects, c, id) {
          ReachableThrough(objects, c, consts[i].id, id);
        }
        VisitFromReaches(objects, c, i + 1, depth, next);
      } else {
        VisitFromReaches(objects, c, i + 1, depth, seen);
      }
    }
  }

  lemma ReachableThrough(objects: seq<CodeObject>, c: nat, d: nat, id: nat)
    requires c < |objects| && CodeRef(d) in objects[c].consts && Reachable(objects, d, id)
    ensures Reachable(objects, c, id)
  {
    var p :| IsChain(objects, p) && p[0] == d && p[|p| - 1] == id;
    var q := [c] + p;
    forall i | 0 <= i < |q| - 1 ensures CodeRef(q[i + 1]) in objects[q[i]].consts {
      if i > 0 {
        assert CodeRef(p[i - 1 + 1]) in objects[p[i - 1]].consts;
      }
    }
    assert IsChain(objects, q) && q[0] == c && q[|q| - 1] == id;
  }

  /** The walk visits every code object reachable from the root if and only if none it visits has a constant it does not:
      no chain, however long, is lost otherwise. */
  lemma WalkIsCompleteExactly(objects: seq<CodeObject>, root: nat)
    requires root < |objects| && WellFormed(objects)
    ensures (forall id: nat :: Reachable(objects, root, id) ==> id in Visit(objects, root, 0, {}))
       <==> (forall id :: id in Visit(objects, root, 0, {}) ==> Closed(objects, id, Visit(objects, root, 0, {})))
  {
    hide Visit;
    var seen := Visit(objects, root, 0, {});
    VisitReaches(objects, root, 0, {});
    RootIsVisited(objects, root);
    if forall id: nat :: Reachable(objects, root, id) ==> id in seen {
      forall id | id in seen ensures Closed(objects, id, seen) {
        ReachableInRange(objects, root, id);
        forall v | v in objects[id].consts && v.CodeRef? ensures v.id in seen {
          ReachableNext(objects, root, id, v.id);
        }
      }
    }
    if forall id :: id in seen ==> Closed(objects, id, seen) {
      forall id: nat | Reachable(objects, root, id) ensures id in seen {
        var p :| IsChain(objects, p) && p[0] == root && p[|p| - 1] == id;
        ClosedHoldsChain(objects, seen, p);
      }
    }
  }

  lemma RootIsVisited(objects: seq<CodeObject>, root: nat)
    requires root < |objects|
    ensures root in Visit(objects, root, 0, {})
  {
    VisitFromReaches(objects, root, 0, 0, {} + {root});
  }

  lemma ReachableInRange(objects: seq<CodeObject>, root: nat, id: nat)
    requires Reachable(objects, root, id)
    ensures id < |objects|
  {
  }

  lemma ReachableNext(objects: seq<CodeObject>, root: nat, id: nat, next: nat)
    requires Reachable(objects, root, id) && id < |objects| && CodeRef(next) in objects[id].consts && next < |objects|
    ensures Reachable(objects, root, next)
  {
    var p :| IsChain(objects, p) && p[0] == root && p[|p| - 1] == id;
    var q := p + [next];
    forall i | 0 <= i < |q| - 1 ensures CodeRef(q[i + 1]) in objects[q[i]].consts {
      if i < |p| - 1 {
        assert CodeRef(p[i + 1]) in objects[p[i]].consts;
      }
    }
    assert IsChain(objects, q) && q[0] == root && q[|q| - 1] == next;
  }
}
