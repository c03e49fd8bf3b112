/** What decoding leaves in its tables: code objects that refer only to earlier ones, and a reference table
    filled in pre-order. */
module MarshalShape {
  import opened Bytes
  import opened Marshal
  import opened MarshalTrees
  import opened MarshalAccepts

  // ----- Acyclicity -----

  /** Every code object inside `v` is among the first `n` completed. */
  ghost predicate IdsBelow(v: Value, n: nat) {
    match v
    case CodeRef(id) => id < n
    case Items(items) => forall x :: x in items ==> IdsBelow(x, n)
    case _ => true
  }

  /** Each code object's constants hold only code objects completed before it. */
  ghost predicate Layered(t: Tables) {
    && (forall v :: v in t.refs ==> IdsBelow(v, |t.objects|))
    && (forall i, v :: 0 <= i < |t.objects| && v in t.objects[i].consts ==> IdsBelow(v, i))
  }

  lemma IdsBelowMono(v: Value, n: nat, m: nat)
    requires IdsBelow(v, n) && n <= m
    ensures IdsBelow(v, m)
  {
  }

  /** The tables stay layered and keep every object and every slot they had. */
  ghost predicate Grows(t: Tables, t': Tables) {
    Layered(t') && t.objects <= t'.objects && t.refs <= t'.refs
  }

  lemma ReserveLayered(t: Tables, flagged: bool)
    requires Layered(t)
    ensures Layered(Reserve(t, flagged))
  {
  }

  lemma FillLayered(t: Tables, slot: nat, flagged: bool, v: Value)
    requires Layered(t) && IdsBelow(v, |t.objects|) && (flagged ==> slot < |t.refs|)
    ensures Layered(Fill(t, slot, flagged, v))
  {
  }

  lemma NewCodeLayered(t: Tables, fields: seq<Value>)
    requires Layered(t) && |fields| >= 3 && fields[1].Items? && fields[2].Items?
    requires forall v :: v in fields ==> IdsBelow(v, |t.objects|)
    ensures Layered(NewCode(t, fields))
  {
    var t' := NewCode(t, fields);
    assert fields[1] in fields;
    forall v | v in t'.refs ensures IdsBelow(v, |t'.objects|) {
      IdsBelowMono(v, |t.objects|, |t'.objects|);
    }
  }

  lemma {:induction false} EvalLayered(n: Node, t: Tables)
    requires Layered(t) && Eval(n, t).Some?
    ensures Grows(t, Eval(n, t).value.tables)
    ensures IdsBelow(Eval(n, t).value.value, |Eval(n, t).value.tables.objects|)
  {
    var t1 := Reserve(t, n.flagged);
    ReserveLayered(t, n.flagged);
    BodyLayered(n.body, KindOf(n.tag), t1);
    var b := EvalBody(n.body, KindOf(n.tag), t1).value;
    FillLayered(b.tables, |t.refs|, n.flagged, b.value);
    FillKeeps(t, b.tables, n.flagged, b.value);
  }

  lemma FillKeeps(t: Tables, t': Tables, flagged: bool, v: Value)
    requires Reserve(t, flagged).refs <= t'.refs
    ensures t.refs <= Fill(t', |t.refs|, flagged, v).refs
  {
    assert t.refs <= Reserve(t, flagged).refs;
  }

  lemma {:induction false} BodyLayered(b: Body, kind: Kind, t: Tables)
    requires Layered(t) && EvalBody(b, kind, t).Some?
    ensures Grows(t, EvalBody(b, kind, t).value.tables)
    ensures IdsBelow(EvalBody(b, kind, t).value.value, |EvalBody(b, kind, t).value.tables.objects|)
  {
    match b
    case Listing(ns) => NodesLayered(ns, t);
    case Table(es) => EntriesLayered(es, t);
    case Fields(fs) =>
      FieldsLayered(fs, t);
      var r := EvalFields(fs, t).value;
      NewCodeLayered(r.tables, r.value);
    case _ =>
  }

  lemma AllBelow(vs: seq<Value>, n: nat, m: nat)
    requires n <= m && forall v :: v in vs ==> IdsBelow(v, n)
    ensures forall v :: v in vs ==> IdsBelow(v, m)
  {
    forall v | v in vs ensures IdsBelow(v, m) { IdsBelowMono(v, n, m); }
  }

  lemma {:induction false} NodesLayered(ns: Nodes, t: Tables)
    requires Layered(t) && EvalNodes(ns, t).Some?
    ensures var m := EvalNodes(ns, t).value;
            Grows(t, m.tables) && forall v :: v in m.value ==> IdsBelow(v, |m.tables.objects|)
  {
    match ns
    case Nil =>
    case Cons(n, rest) =>
      EvalLayered(n, t);
      var v := Eval(n, t).value;
      NodesLayered(rest, v.tables);
      AllBelow([v.value], |v.tables.objects|, |EvalNodes(ns, t).value.tables.objects|);
  }

  lemma {:induction false} EntriesLayered(es: Entries, t: Tables)
    requires Layered(t) && EvalEntries(es, t).Some?
    ensures Grows(t, EvalEntries(es, t).value.tables) && EvalEntries(es, t).value.value == None
  {
    EvalLayered(es.key, t);
    if es.Entry? {
      var key := Eval(es.key, t).value;
      EvalLayered(es.value, key.tables);
      EntriesLayered(es.rest, Eval(es.value, key.tables).value.tables);
    }
  }

  lemma {:induction false} FieldsLayered(fs: FieldList, t: Tables)
    requires Layered(t) && EvalFields(fs, t).Some?
    ensures var m := EvalFields(fs, t).value;
            Grows(t, m.tables) && forall v :: v in m.value ==> IdsBelow(v, |m.tables.objects|)
  {
    match fs
    case Done =>
    case RawField(_, rest) => FieldsLayered(rest, t);
    case ObjectField(n, rest) =>
      EvalLayered(n, t);
      var v := Eval(n, t).value;
      FieldsLayered(rest, v.tables);
      AllBelow([v.value], |v.tables.objects|, |EvalFields(fs, t).value.tables.objects|);
  }

  /** Whatever bytes are decoded, the code objects form an acyclic graph: completion order is a topological order. */
  lemma DecodedCodeIsAcyclic(input: seq<byte>, depth: int, layout: Layout)
    requires ReadObject(State(input, Tables([], []), MAX_OBJECTS), depth, layout).Ok?
    ensures var r := ReadObject(State(input, Tables([], []), MAX_OBJECTS), depth, layout);
            Layered(r.st.tables) && IdsBelow(r.value, |r.st.tables.objects|)
  {
    var st := State(input, Tables([], []), MAX_OBJECTS);
    var n := Accepts(st, depth, layout);
    EvalLayered(n, st.tables);
  }

  // ----- The reference table -----

  /** The flagged objects of a tree, in the order their type bytes appear. */
  function Flagged(n: Node): seq<Node> {
    (if n.flagged then [n] else []) + FlaggedInBody(n.body)
  }

  function FlaggedInBody(b: Body): seq<Node> {
    match b
    case Listing(ns) => FlaggedInNodes(ns)
    case Table(es) => FlaggedInEntries(es)
    case Fields(fs) => FlaggedInFields(fs)
    case _ => []
  }

  function FlaggedInNodes(ns: Nodes): seq<Node> {
    match ns case Nil => [] case Cons(n, tail) => Flagged(n) + FlaggedInNodes(tail)
  }

  function FlaggedInEntries(es: Entries): seq<Node> {
    match es
    case Stop(k) => Flagged(k)
    case Entry(k, v, rest) => Flagged(k) + (Flagged(v) + FlaggedInEntries(rest))
  }

  function FlaggedInFields(fs: FieldList): seq<Node> {
    match fs
    case Done => []
    case RawField(_, rest) => FlaggedInFields(rest)
    case ObjectField(n, rest) => Flagged(n) + FlaggedInFields(rest)
  }

  // ----- What each slot holds -----

  /** A flagged object, and the tables as they were when its type byte was read. */
  datatype Reading = Reading(node: Node, before: Tables)

  /** The flagged objects of a tree in the order they are read, each with the tables reached by then. */
  function Readings(n: Node, t: Tables): seq<Reading>
    requires Eval(n, t).Some?
  {
    (if n.flagged then [Reading(n, t)] else []) + BodyReadings(n.body, KindOf(n.tag), Reserve(t, n.flagged))
  }

  function BodyReadings(b: Body, kind: Kind, t: Tables): seq<Reading>
    requires EvalBody(b, kind, t).Some?
  {
    match b
    case Listing(ns) => NodesReadings(ns, t)
    case Table(es) => EntriesReadings(es, t)
    case Fields(fs) => FieldsReadings(fs, t)
    case _ => []
  }

  function NodesReadings(ns: Nodes, t: Tables): seq<Reading>
    requires EvalNodes(ns, t).Some?
  {
    match ns
    case Nil => []
    case Cons(n, tail) => Readings(n, t) + NodesReadings(tail, Eval(n, t).value.tables)
  }

  function EntriesReadings(es: Entries, t: Tables): seq<Reading>
    requires EvalEntries(es, t).Some?
  {
    match es
    case Stop(k) => Readings(k, t)
    case Entry(k, v, rest) =>
      var t1 := Eval(k, t).value.tables;
      var t2 := Eval(v, t1).value.tables;
      Readings(k, t) + (Readings(v, t1) + EntriesReadings(rest, t2))
  }

  function FieldsReadings(fs: FieldList, t: Tables): seq<Reading>
    requires EvalFields(fs, t).Some?
  {
    match fs
    case Done => []
    case RawField(_, rest) => FieldsReadings(rest, t)
    case ObjectField(n, rest) => Readings(n, t) + FieldsReadings(rest, Eval(n, t).value.tables)
  }

  /** What the object meant, read from those tables. */
  function Meant(r: Reading): Value {
    var m := Eval(r.node, r.before);
    if m.Some? then m.value.value else Null
  }

  function Meanings(rs: seq<Reading>): (vs: seq<Value>)
    ensures |vs| == |rs| && forall k :: 0 <= k < |rs| ==> vs[k] == Meant(rs[k])
  {
    seq(|rs|, k requires 0 <= k < |rs| => Meant(rs[k]))
  }

  function NodesOf(rs: seq<Reading>): (ns: seq<Node>)
    ensures |ns| == |rs| && forall k :: 0 <= k < |rs| ==> ns[k] == rs[k].node
  {
    seq(|rs|, k requires 0 <= k < |rs| => rs[k].node)
  }

  /** The table went from `t` to `t'` by these readings: one slot each, in order, holding exactly what the object meant. */
  ghost predicate Filled(t: Tables, rs: seq<Reading>, ns: seq<Node>, t': Tables) {
    t'.refs == t.refs + Meanings(rs) && NodesOf(rs) == ns
    && forall k :: 0 <= k < |rs| ==> Eval(rs[k].node, rs[k].before).Some? && |rs[k].before.refs| == |t.refs| + k
  }

  lemma FilledThen(t: Tables, a: seq<Reading>, m: seq<Node>, t1: Tables, b: seq<Reading>, n: seq<Node>, t2: Tables)
    requires Filled(t, a, m, t1) && Filled(t1, b, n, t2)
    ensures Filled(t, a + b, m + n, t2)
  {
    hide Meant, Eval;
    var rs := a + b;
    assert Meanings(rs) == Meanings(a) + Meanings(b);
    assert NodesOf(rs) == NodesOf(a) + NodesOf(b);
    forall k | 0 <= k < |rs| ensures Eval(rs[k].node, rs[k].before).Some? && |rs[k].before.refs| == |t.refs| + k {
      if k >= |a| {
        assert rs[k] == b[k - |a|];
      }
    }
  }

  /** Reading a tree appends exactly one slot per flagged object, in pre-order, each holding what that object means given
      the tables reached when it is read; no slot that was there before changes. */
  lemma {:induction false} TableIsPreOrder(n: Node, t: Tables)
    requires Eval(n, t).Some?
    ensures Filled(t, Readings(n, t), Flagged(n), Eval(n, t).value.tables)
  {
    var t1 := Reserve(t, n.flagged);
    BodyFills(n.body, KindOf(n.tag), t1);
    OwnSlot(n, t);
  }

  lemma OwnSlot(n: Node, t: Tables)
    requires Eval(n, t).Some?
    requires var t1, kind := Reserve(t, n.flagged), KindOf(n.tag);
             Filled(t1, BodyReadings(n.body, kind, t1), FlaggedInBody(n.body), EvalBody(n.body, kind, t1).value.tables)
    ensures Filled(t, Readings(n, t), Flagged(n), Eval(n, t).value.tables)
  {
    hide KindOf, EvalBody, BodyReadings, FlaggedInBody, Filled;
    var t1, kind := Reserve(t, n.flagged), KindOf(n.tag);
    var inner := BodyReadings(n.body, kind, t1);
    if n.flagged {
      SlotThen(Reading(n, t), inner, FlaggedInBody(n.body), EvalBody(n.body, kind, t1).value.tables);
    } else {
      assert Readings(n, t) == inner && Flagged(n) == FlaggedInBody(n.body);
    }
  }

  lemma SlotThen(own: Reading, inner: seq<Reading>, ns: seq<Node>, t1: Tables)
    requires Eval(own.node, own.before).Some? && Filled(Reserve(own.before, true), inner, ns, t1)
    ensures var slot, v := |own.before.refs|, Eval(own.node, own.before).value.value;
            Filled(own.before, [own] + inner, [own.node] + ns, Fill(t1, slot, true, v))
  {
    hide Eval;
    var rs := [own] + inner;
    assert Meanings(rs) == [Meant(own)] + Meanings(inner);
    assert NodesOf(rs) == [own.node] + NodesOf(inner);
    assert forall k :: 0 < k < |rs| ==> rs[k] == inner[k - 1];
  }

  lemma {:induction false} BodyFills(b: Body, kind: Kind, t: Tables)
    requires EvalBody(b, kind, t).Some?
    ensures Filled(t, BodyReadings(b, kind, t), FlaggedInBody(b), EvalBody(b, kind, t).value.tables)
  {
    hide Filled;
    NothingFilled(t);
    match b
    case Listing(ns) => NodesFill(ns, t);
    case Table(es) => EntriesFill(es, t);
    case Fields(fs) =>
      FieldsFill(fs, t);
      SameRefs(t, FieldsReadings(fs, t), FlaggedInFields(fs), EvalFields(fs, t).value.tables, EvalBody(b, kind, t).value.tables);
    case _ =>
  }

  lemma NothingFilled(t: Tables)
    ensures Filled(t, [], [], t)
  {
  }

  lemma SameRefs(t: Tables, rs: seq<Reading>, ns: seq<Node>, t1: Tables, t2: Tables)
    requires Filled(t, rs, ns, t1) && t2.refs == t1.refs
    ensures Filled(t, rs, ns, t2)
  {
  }

  lemma {:induction false} NodesFill(ns: Nodes, t: Tables)
    requires EvalNodes(ns, t).Some?
    ensures Filled(t, NodesReadings(ns, t), FlaggedInNodes(ns), EvalNodes(ns, t).value.tables)
  {
    hide Filled;
    if ns.Cons? {
      var t1 := Eval(ns.head, t).value.tables;
      TableIsPreOrder(ns.head, t);
      NodesFill(ns.tail, t1);
      FilledThen(t, Readings(ns.head, t), Flagged(ns.head), t1, NodesReadings(ns.tail, t1), FlaggedInNodes(ns.tail),
                 EvalNodes(ns, t).value.tables);
    } else {
      NothingFilled(t);
    }
  }

  lemma {:induction false} EntriesFill(es: Entries, t: Tables)
    requires EvalEntries(es, t).Some?
    ensures Filled(t, EntriesReadings(es, t), FlaggedInEntries(es), EvalEntries(es, t).value.tables)
  {
    hide Filled;
    TableIsPreOrder(es.key, t);
    if es.Entry? {
      var t1 := Eval(es.key, t).value.tables;
      var t2 := Eval(es.value, t1).value.tables;
      var t3 := EvalEntries(es.rest, t2).value.tables;
      TableIsPreOrder(es.value, t1);
      EntriesFill(es.rest, t2);
      var a, b, c := Readings(es.key, t), Readings(es.value, t1), EntriesReadings(es.rest, t2);
      FilledThen(t1, b, Flagged(es.value), t2, c, FlaggedInEntries(es.rest), t3);
      FilledThen(t, a, Flagged(es.key), t1, b + c, Flagged(es.value) + FlaggedInEntries(es.rest), t3);
    }
  }

  lemma {:induction false} FieldsFill(fs: FieldList, t: Tables)
    requires EvalFields(fs, t).Some?
    ensures Filled(t, FieldsReadings(fs, t), FlaggedInFields(fs), EvalFields(fs, t).value.tables)
  {
    hide Filled;
    match fs
    case Done => NothingFilled(t);
    case RawField(_, rest) => FieldsFill(rest, t);
    case ObjectField(n, rest) =>
      var t1 := Eval(n, t).value.tables;
      TableIsPreOrder(n, t);
      FieldsFill(rest, t1);
      FilledThen(t, Readings(n, t), Flagged(n), t1, FieldsReadings(rest, t1), FlaggedInFields(rest),
                 EvalFields(fs, t).value.tables);
  }
}
