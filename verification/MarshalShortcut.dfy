/** A name two constants from the root that the walk misses.  The root refers to the top of a tower and then, directly,
    to its second lowest storey.  When the tower is just so high that the walk reaches that storey at the depth limit, the
    storey is marked seen with its constant cut off, and the direct reference to it is passed over. */
module MarshalShortcut {
  import opened Bytes
  import opened Marshal
  import opened MarshalTrees
  import opened MarshalNamed
  import opened MarshalWalk
  import opened MarshalTower

  /** A tower of `n` links whose top also refers to storey 1. */
  function Shortcut(n: nat): seq<CodeObject>
    requires n >= 2
  {
    seq(n, (i: nat) => Storey(i)) + [CodeObject([], [CodeRef(n - 1), CodeRef(1)])]
  }

  // ----- What the walk visits -----

  function Span(low: int, high: nat): set<nat> {
    set i: nat | i <= high && AtLeast(i, low)
  }

  predicate AtLeast(i: int, low: int) { low <= i }

  /** Down a tower from storey `k` at some depth, the walk gets as far as the limit lets it. */
  lemma {:induction false} ChainVisit(objects: seq<CodeObject>, k: nat, depth: nat, seen: set<nat>)
    requires k < |objects| && depth <= MAX_DEPTH
    requires forall i: nat :: i <= k ==> objects[i] == Storey(i) && i !in seen
    ensures Visit(objects, k, depth, seen) == seen + Span(k - (MAX_DEPTH - depth), k)
    decreases k
  {
    var consts, now := objects[k].consts, seen + {k};
    if k == 0 {
      assert consts == [];
    } else {
      assert consts == [CodeRef(k - 1)];
      var next := Visit(objects, k - 1, depth + 1, now);
      assert VisitFrom(objects, consts, 1, depth, next) == next;
      if depth < MAX_DEPTH {
        ChainVisit(objects, k - 1, depth + 1, now);
      }
    }
  }

  /** The walk gets to the bottom unless the tower has exactly one link more than the limit. */
  lemma ShortcutVisit(n: nat)
    requires n >= 2
    ensures 0 in Visit(Shortcut(n), n, 0, {}) <==> n != MAX_DEPTH + 1
  {
    hide Visit;
    var objects := Shortcut(n);
    var consts := [CodeRef(n - 1), CodeRef(1)];
    var seen := {} + {n};
    ChainVisit(objects, n - 1, 1, seen);
    var first := Visit(objects, n - 1, 1, seen);
    var second := Visit(objects, 1, 1, first);
    RootVisit(n);
    if 1 in first {
      SeenAlready(objects, 1, 1, first);
    } else {
      ChainVisit(objects, 1, 1, first);
    }
  }

  /** An object with two constants is visited by visiting one after the other. */
  lemma TwoConstants(objects: seq<CodeObject>, c: nat, a: nat, b: nat, depth: nat, seen: set<nat>)
    requires c < |objects| && c !in seen && depth <= MAX_DEPTH && objects[c].consts == [CodeRef(a), CodeRef(b)]
    ensures Visit(objects, c, depth, seen) == Visit(objects, b, depth + 1, Visit(objects, a, depth + 1, seen + {c}))
  {
    var consts := objects[c].consts;
    var first := Visit(objects, a, depth + 1, seen + {c});
    var second := Visit(objects, b, depth + 1, first);
    hide Visit;
    assert VisitFrom(objects, consts, 2, depth, second) == second;
    assert VisitFrom(objects, consts, 1, depth, first) == second;
    assert VisitFrom(objects, consts, 0, depth, seen + {c}) == second;
  }

  lemma RootVisit(n: nat)
    requires n >= 2
    ensures var objects := Shortcut(n);
            Visit(objects, n, 0, {}) == Visit(objects, 1, 1, Visit(objects, n - 1, 1, {} + {n}))
  {
    hide Visit;
    TwoConstants(Shortcut(n), n, n - 1, 1, 0, {});
  }

  lemma SeenAlready(objects: seq<CodeObject>, c: nat, depth: nat, seen: set<nat>)
    requires c in seen
    ensures Visit(objects, c, depth, seen) == seen
  {
  }

  /** The name is two constants away from the root whatever the height. */
  lemma TwoConstantsAway(n: nat)
    requires n >= 2
    ensures Reached(Shortcut(n), n, 0, 2) && HIDDEN in Shortcut(n)[0].names
  {
    var objects := Shortcut(n);
    var p := [n, 1, 0];
    forall i | 0 <= i < |p| - 1 ensures CodeRef(p[i + 1]) in objects[p[i]].consts {
      if i == 0 {
        assert objects[n].consts[1] == CodeRef(1);
      } else {
        assert objects[1].consts[0] == CodeRef(0);
      }
    }
    assert IsChain(objects, p);
  }

  lemma ShortcutNames(n: nat, names: set<seq<byte>>)
    requires n >= 2 && VisitsNames(Shortcut(n), n, names)
    ensures HIDDEN in names <==> n != MAX_DEPTH + 1
  {
    hide Visit;
    ShortcutVisit(n);
    var objects := Shortcut(n);
    assert HIDDEN in objects[0].names;
    assert forall id: nat :: id < |objects| && HIDDEN in objects[id].names ==> id == 0;
  }

  // ----- The file -----

  function Back(i: int): PyObject { PyObject(false, PyReference(i)) }

  function BothConsts(n: nat): PyObject {
    Tuple(PyCons(Back(n - 1), PyCons(Back(1), PyNil)))
  }

  function File(n: nat): PyObject { PyObject(false, PyCode(CodeOf(Tuple(Links(0, n)), BothConsts(n), n))) }

  lemma BothConstsMean(n: nat, t: Tables, layout: Layout)
    requires 2 <= n <= |t.refs| && t.refs[n - 1] == CodeRef(n - 1) && t.refs[1] == CodeRef(1)
    ensures Eval(TreeOf(BothConsts(n), layout), t) == Some(Meaning(t, Items([CodeRef(n - 1), CodeRef(1)])))
    ensures Objects(TreeOf(BothConsts(n), layout)) == 3 && Height(TreeOf(BothConsts(n), layout)) <= 1
  {
    hide TreeOf, Eval, Objects, Height, EvalNodes, NodesObjects, NodesHeight;
    var a, b := Node(false, 0x72, Ref(n - 1)), Node(false, 0x72, Ref(1));
    BackTree(n - 1, layout);
    BackTree(1, layout);
    TreesOfTwo(Back(n - 1), Back(1), layout);
    ReferenceMeans(n - 1, t);
    ReferenceMeans(1, t);
    OneMeans(b, CodeRef(1), t);
    TwoMean(a, b, n, t);
    TupleMeans(Cons(a, Cons(b, Nil)), [CodeRef(n - 1), CodeRef(1)], t, t);
    ListingCost(false, 0x28, Cons(a, Cons(b, Nil)));
  }

  lemma BackTree(i: int, layout: Layout)
    ensures TreeOf(Back(i), layout) == Node(false, 0x72, Ref(i))
    ensures Objects(TreeOf(Back(i), layout)) == 1 && Height(TreeOf(Back(i), layout)) == 0
  {
  }

  lemma ListingCost(flagged: bool, tag: byte, ns: Nodes)
    ensures Objects(Node(flagged, tag, Listing(ns))) == 1 + NodesObjects(ns)
    ensures Height(Node(flagged, tag, Listing(ns))) == NodesHeight(ns)
  {
  }

  lemma TreesOfTwo(p: PyObject, q: PyObject, layout: Layout)
    ensures TreeOf(Tuple(PyCons(p, PyCons(q, PyNil))), layout)
         == Node(false, 0x28, Listing(Cons(TreeOf(p, layout), Cons(TreeOf(q, layout), Nil))))
  {
    var rest := PyCons(q, PyNil);
    assert TreesOf(PyNil, layout) == Nil;
    assert TreesOf(rest, layout) == Cons(TreeOf(q, layout), Nil);
    assert TreesOf(PyCons(p, rest), layout) == Cons(TreeOf(p, layout), TreesOf(rest, layout));
  }

  lemma TwoMean(a: Node, b: Node, n: nat, t: Tables)
    requires n >= 1 && Objects(a) == 1 && Height(a) == 0 && Eval(a, t) == Some(Meaning(t, CodeRef(n - 1)))
    requires EvalNodes(Cons(b, Nil), t) == Some(Meaning(t, [CodeRef(1)]))
    requires NodesObjects(Cons(b, Nil)) == 1 && NodesHeight(Cons(b, Nil)) == 1
    ensures EvalNodes(Cons(a, Cons(b, Nil)), t) == Some(Meaning(t, [CodeRef(n - 1), CodeRef(1)]))
    ensures NodesObjects(Cons(a, Cons(b, Nil))) == 2 && NodesHeight(Cons(a, Cons(b, Nil))) == 1
  {
    hide Eval;
    assert [CodeRef(n - 1)] + [CodeRef(1)] == [CodeRef(n - 1), CodeRef(1)];
  }

  lemma FileWritable(n: nat, layout: Layout)
    requires 2 <= n < TWO31 && layout != LayoutUnknown
    ensures Writable(File(n), layout)
  {
    hide CodeOf, CodeWritable, Links, AllWritable;
    LinksCount(0, n);
    LinksWritable(0, n, layout);
    BothWritable(n, layout);
    CodeIsWritable(Tuple(Links(0, n)), BothConsts(n), n, layout);
  }

  lemma BothWritable(n: nat, layout: Layout)
    requires 2 <= n < TWO31
    ensures Writable(BothConsts(n), layout)
  {
    var rest := PyCons(Back(1), PyNil);
    assert AllWritable(PyNil, layout) && Count(PyNil) == 0;
    assert AllWritable(rest, layout) && Count(rest) == 1;
    assert AllWritable(PyCons(Back(n - 1), rest), layout) && Count(PyCons(Back(n - 1), rest)) == 2;
  }

  lemma FileMeans(n: nat, layout: Layout)
    requires n >= 2
    ensures var m := Eval(TreeOf(File(n), layout), Tables([], []));
            m.Some? && m.value.tables.objects == Shortcut(n) && m.value.value == CodeRef(n)
    ensures Objects(TreeOf(File(n), layout)) <= 12 * n + 13 && Height(TreeOf(File(n), layout)) <= 5
  {
    hide CodeOf, TreeOf, TreesOf, Links, Eval, EvalNodes, Objects, Height, NodesObjects, NodesHeight, BothConsts, NamesField;
    var bytecode := Tuple(Links(0, n));
    BytecodeMeans(n, layout);
    BothConstsMean(n, TablesAt(n), layout);
    var strings := NamesMean(n, TablesAt(n), layout);
    CodeMeans(false, bytecode, BothConsts(n), [CodeRef(n - 1), CodeRef(1)], n, Tables([], []), TablesAt(n), layout);
    assert TablesAt(n).objects + [CodeObject(Storey(n).names, [CodeRef(n - 1), CodeRef(1)])] == Shortcut(n);
  }

  lemma FileDecodes(n: nat, tail: seq<byte>, layout: Layout)
    requires n >= 2 && layout != LayoutUnknown && 12 * n + 13 <= MAX_OBJECTS
    ensures Writable(File(n), layout)
    ensures var r := Decoded(Write(File(n), layout) + tail, layout);
            r.Ok? && r.value == CodeRef(n) && r.st.tables.objects == Shortcut(n) && r.st.rest == tail
  {
    hide Eval, Write, TreeOf, File, Objects, Height, Writable, ReadObject;
    FileWritable(n, layout);
    FileMeans(n, layout);
    DecodeWritten(File(n), tail, Tables([], []), MAX_OBJECTS, 0, layout);
  }

  /** The names of the file: the name two constants from the root is missed exactly when the tower has one link more than
      the walk's depth limit, and found again when it has more. */
  method NamesOfShortcut(n: nat, tail: seq<byte>, pythonVersion: string) returns (names: set<seq<byte>>, ok: bool)
    requires n >= 2 && LayoutFor(pythonVersion) != LayoutUnknown && 12 * n + 13 <= MAX_OBJECTS
    ensures ok && (HIDDEN in names <==> n != MAX_DEPTH + 1)
  {
    var layout := LayoutFor(pythonVersion);
    FileDecodes(n, tail, layout);
    names, ok := ExtractPycNames(Write(File(n), layout) + tail, pythonVersion);
    ShortcutNames(n, names);
  }
}
