/** A file whose decoding is shallow and whose code objects form a chain of any length: the names at its end are
    collected exactly when the chain has no more links than the walk's depth limit. */
module MarshalTower {
  import opened Bytes
  import opened Marshal
  import opened MarshalTrees
  import opened MarshalNamed
  import opened MarshalWalk

  /** The one name in the file. */
  const HIDDEN: seq<byte> := [0x68, 0x69, 0x64, 0x64, 0x65, 0x6E]

  // ----- The code objects -----

  /** `n + 1` code objects, each the only constant of the next; the first holds the name. */
  function Tower(n: nat): seq<CodeObject> {
    seq(n + 1, (i: nat) => Storey(i))
  }

  function Storey(i: nat): CodeObject {
    if i == 0 then CodeObject([HIDDEN], []) else CodeObject([], [CodeRef(i - 1)])
  }

  lemma {:induction false} TowerChainsDescend(n: nat, p: seq<nat>)
    requires IsChain(Tower(n), p) && p[0] == n
    ensures forall i :: 0 <= i < |p| ==> p[i] == n - i
  {
    if |p| > 1 {
      var q := p[..|p| - 1];
      assert IsChain(Tower(n), q) by {
        forall i | 0 <= i < |q| - 1 ensures CodeRef(q[i + 1]) in Tower(n)[q[i]].consts {
          assert CodeRef(p[i + 1]) in Tower(n)[p[i]].consts;
        }
      }
      TowerChainsDescend(n, q);
      var i := |p| - 2;
      assert q[i] == p[i] == n - i;
      assert CodeRef(p[i + 1]) in Tower(n)[p[i]].consts;
    }
  }

  lemma TowerReachesBottom(n: nat)
    ensures Reachable(Tower(n), n, 0)
  {
    var p := seq(n + 1, (i: nat) requires i <= n => n - i);
    forall i | 0 <= i < |p| - 1 ensures CodeRef(p[i + 1]) in Tower(n)[p[i]].consts {
      assert Tower(n)[p[i]].consts == [CodeRef(p[i] - 1)];
    }
    assert IsChain(Tower(n), p) && p[0] == n && p[|p| - 1] == 0;
  }

  /** The name is always reachable, and collected exactly when the tower is at most `MAX_DEPTH` links high. */
  lemma TowerHidesItsName(n: nat, names: set<seq<byte>>)
    requires CollectsNames(Tower(n), n, names)
    ensures Reachable(Tower(n), n, 0) && HIDDEN in Tower(n)[0].names
    ensures HIDDEN in names <==> n <= MAX_DEPTH
  {
    TowerReachesBottom(n);
    assert HIDDEN in Tower(n)[0].names;
    if n <= MAX_DEPTH {
      forall p | IsChain(Tower(n), p) && p[0] == n ensures |p| <= MAX_DEPTH + 1 {
        TowerChainsDescend(n, p);
        assert p[|p| - 1] == n - (|p| - 1);
      }
    }
    if HIDDEN in names {
      var id: nat :| id < |Tower(n)| && Reached(Tower(n), n, id, MAX_DEPTH) && HIDDEN in Tower(n)[id].names;
      var q :| IsChain(Tower(n), q) && q[0] == n && q[|q| - 1] == id && |q| <= MAX_DEPTH + 1;
      TowerChainsDescend(n, q);
      assert q[|q| - 1] == n - (|q| - 1);
    }
  }

  // ----- The file -----

  const FILLER: PyObject := PyObject(false, PyBytes([]))

  function Tuple(l: PyList): PyObject { PyObject(false, PyTuple(l)) }

  function CodeOf(bytecode: PyObject, consts: PyObject, k: nat): PyCodeFields {
    PyCodeFields(0, 0, 0, 0, 0, 0, 0, bytecode, consts, NamesField(k),
                 FILLER, FILLER, FILLER, FILLER, FILLER, FILLER, FILLER, FILLER)
  }

  /** A reference to the code object before. */
  function ConstsOf(k: nat): PyObject {
    Tuple(if k == 0 then PyNil else PyCons(PyObject(false, PyReference(k - 1)), PyNil))
  }

  function NamesField(k: nat): PyObject {
    Tuple(if k == 0 then PyCons(PyObject(false, PyAscii(HIDDEN)), PyNil) else PyNil)
  }

  function Link(k: nat): PyObject { PyObject(true, PyCode(CodeOf(FILLER, ConstsOf(k), k))) }

  /** Links `k` to `n - 1`, side by side. */
  function Links(k: nat, n: nat): PyList
    decreases n - k
  {
    if k >= n then PyNil else PyCons(Link(k), Links(k + 1, n))
  }

  /** The root holds all the links in its bytecode field, which is skipped, and a reference to the last as its constant. */
  function Root(n: nat): PyObject { PyObject(false, PyCode(CodeOf(Tuple(Links(0, n)), ConstsOf(n), n))) }

  // ----- It can be written -----

  lemma {:induction false} LinksCount(k: nat, n: nat)
    requires k <= n
    ensures Count(Links(k, n)) == n - k
    decreases n - k
  {
    if k < n { LinksCount(k + 1, n); }
  }

  lemma CodeIsWritable(bytecode: PyObject, consts: PyObject, k: nat, layout: Layout)
    requires Writable(bytecode, layout) && Writable(consts, layout) && k < TWO31
    ensures CodeWritable(CodeOf(bytecode, consts, k), layout)
  {
    hide Writable;
    assert Writable(FILLER, layout) && Writable(NamesField(k), layout) by {
      SmallPartsWritable(k, layout);
    }
  }

  lemma SmallPartsWritable(k: nat, layout: Layout)
    requires k < TWO31
    ensures Writable(FILLER, layout) && Writable(ConstsOf(k), layout) && Writable(NamesField(k), layout)
  {
    var r := PyObject(false, PyReference(k - 1));
    var s := PyObject(false, PyAscii(HIDDEN));
    assert k > 0 ==> Writable(r, layout);
    assert Writable(s, layout);
    assert k > 0 ==> AllWritable(PyCons(r, PyNil), layout) && Count(PyCons(r, PyNil)) == 1;
    assert AllWritable(PyCons(s, PyNil), layout) && Count(PyCons(s, PyNil)) == 1;
    assert AllWritable(PyNil, layout) && Count(PyNil) == 0;
  }

  lemma {:induction false} LinksWritable(k: nat, n: nat, layout: Layout)
    requires k <= n < TWO31 && layout != LayoutUnknown
    ensures AllWritable(Links(k, n), layout)
    decreases n - k
  {
    hide CodeOf, CodeWritable;
    if k < n {
      assert Writable(FILLER, layout);
      SmallPartsWritable(k, layout);
      CodeIsWritable(FILLER, ConstsOf(k), k, layout);
      LinksWritable(k + 1, n, layout);
    }
  }

  lemma RootWritable(n: nat, layout: Layout)
    requires n < TWO31 && layout != LayoutUnknown
    ensures Writable(Root(n), layout)
  {
    hide CodeOf, CodeWritable, Links, AllWritable;
    LinksCount(0, n);
    LinksWritable(0, n, layout);
    SmallPartsWritable(n, layout);
    CodeIsWritable(Tuple(Links(0, n)), ConstsOf(n), n, layout);
  }

  // ----- What it means -----

  /** Fields that mean nothing, leave the tables alone, and spend one object each, `k` in all. */
  ghost predicate Quiet(fs: FieldList, k: nat) {
    (forall t :: EvalFields(fs, t).Some? && EvalFields(fs, t).value.tables == t)
    && FieldsObjects(fs) == k && FieldsHeight(fs) <= 1
  }

  lemma FillerIsQuiet(fs: FieldList, k: nat, layout: Layout)
    requires Quiet(fs, k)
    ensures Quiet(ObjectField(TreeOf(FILLER, layout), fs), k + 1)
  {
    var filler := TreeOf(FILLER, layout);
    assert filler == Node(false, 0x73, Counted([]));
    assert Objects(filler) == 1 && Height(filler) == 0;
    forall t ensures EvalFields(ObjectField(filler, fs), t).Some? && EvalFields(ObjectField(filler, fs), t).value.tables == t {
      assert Eval(filler, t) == Some(Meaning(t, None));
      assert EvalFields(fs, t).Some?;
    }
  }

  /** The fields after the names. */
  lemma RestIsQuiet(c: PyCodeFields, layout: Layout)
    requires c.variables == c.kindsOrFree == c.cells == c.filename == c.name == c.qualname == c.lines == c.exceptions == FILLER
    ensures exists k :: k <= 7 && Quiet(MainFields(c, layout).rest.rest.rest.rest.rest, k)
  {
    hide TreeOf, Quiet;
    var last: nat := if layout == Layout311plus then 2 else 1;
    LastIsQuiet(c, layout);
    FillerIsQuiet(LastFields(c, layout), last, layout);
    var f1 := ObjectField(TreeOf(FILLER, layout), LastFields(c, layout));
    FillerIsQuiet(f1, last + 1, layout);
    var f2 := ObjectField(TreeOf(FILLER, layout), f1);
    FillerIsQuiet(f2, last + 2, layout);
    var f3 := ObjectField(TreeOf(FILLER, layout), f2);
    assert f3 == LabelFields(c, layout);
    FillerIsQuiet(f3, last + 3, layout);
    var f4 := ObjectField(TreeOf(FILLER, layout), f3);
    FillerIsQuiet(f4, last + 4, layout);
    var f5 := ObjectField(TreeOf(FILLER, layout), f4);
    assert MainFields(c, layout).rest.rest.rest.rest.rest == f5;
    assert Quiet(f5, last + 5);
  }

  lemma LastIsQuiet(c: PyCodeFields, layout: Layout)
    requires c.lines == c.exceptions == FILLER
    ensures Quiet(LastFields(c, layout), if layout == Layout311plus then 2 else 1)
  {
    hide TreeOf;
    assert Quiet(Done, 0);
    FillerIsQuiet(Done, 0, layout);
    var one := ObjectField(TreeOf(FILLER, layout), Done);
    if layout == Layout311plus {
      FillerIsQuiet(one, 1, layout);
      RawIsQuiet(c.firstLine, ObjectField(TreeOf(FILLER, layout), one), 2);
    } else {
      RawIsQuiet(c.firstLine, one, 1);
    }
  }

  lemma RawIsQuiet(n: int, fs: FieldList, k: nat)
    requires Quiet(fs, k)
    ensures Quiet(RawField(n, fs), k)
  {
    forall t ensures EvalFields(RawField(n, fs), t).Some? && EvalFields(RawField(n, fs), t).value.tables == t {
      assert EvalFields(fs, t).Some?;
    }
  }

  /** The tables once the links before `k` are read. */
  function TablesAt(k: nat): Tables {
    Tables(seq(k, (i: nat) => CodeRef(i)), seq(k, (i: nat) => Storey(i)))
  }

  lemma TupleMeans(ns: Nodes, items: seq<Value>, t: Tables, t1: Tables)
    requires EvalNodes(ns, t) == Some(Meaning(t1, items))
    ensures Eval(Node(false, 0x28, Listing(ns)), t) == Some(Meaning(t1, Items(items)))
  {
  }

  lemma OneMeans(n: Node, v: Value, t: Tables)
    requires Eval(n, t) == Some(Meaning(t, v)) && Objects(n) == 1 && Height(n) == 0
    ensures EvalNodes(Cons(n, Nil), t) == Some(Meaning(t, [v]))
    ensures NodesObjects(Cons(n, Nil)) == 1 && NodesHeight(Cons(n, Nil)) == 1
  {
    hide Eval;
    assert EvalNodes(Nil, t) == Some(Meaning(t, []));
    assert [v] + [] == [v];
  }

  lemma TupleOfOne(p: PyObject, layout: Layout)
    ensures TreeOf(Tuple(PyCons(p, PyNil)), layout) == Node(false, 0x28, Listing(Cons(TreeOf(p, layout), Nil)))
    ensures TreeOf(Tuple(PyNil), layout) == Node(false, 0x28, Listing(Nil))
  {
    assert TreesOf(PyNil, layout) == Nil;
    assert TreesOf(PyCons(p, PyNil), layout) == Cons(TreeOf(p, layout), Nil);
  }

  /** The constants of storey `k` mean its one constant, wherever the slot before it holds the storey before. */
  lemma ConstsMean(k: nat, t: Tables, layout: Layout)
    requires k > 0 ==> k - 1 < |t.refs| && t.refs[k - 1] == CodeRef(k - 1)
    ensures Eval(TreeOf(ConstsOf(k), layout), t) == Some(Meaning(t, Items(Storey(k).consts)))
    ensures Objects(TreeOf(ConstsOf(k), layout)) == (if k == 0 then 1 else 2) && Height(TreeOf(ConstsOf(k), layout)) <= 1
  {
    var p := PyObject(false, PyReference(k - 1));
    TupleOfOne(p, layout);
    if k == 0 {
      TupleMeans(Nil, [], t, t);
    } else {
      var r := TreeOf(p, layout);
      assert r == Node(false, 0x72, Ref(k - 1));
      ReferenceMeans(k - 1, t);
      OneMeans(r, CodeRef(k - 1), t);
      TupleMeans(Cons(r, Nil), [CodeRef(k - 1)], t, t);
    }
  }

  lemma ReferenceMeans(i: nat, t: Tables)
    requires i < |t.refs|
    ensures Eval(Node(false, 0x72, Ref(i)), t) == Some(Meaning(t, t.refs[i]))
  {
  }

  lemma NamesMean(k: nat, t: Tables, layout: Layout) returns (items: seq<Value>)
    ensures Eval(TreeOf(NamesField(k), layout), t) == Some(Meaning(t, Items(items))) && StringsIn(items) == Storey(k).names
    ensures Objects(TreeOf(NamesField(k), layout)) == (if k == 0 then 2 else 1) && Height(TreeOf(NamesField(k), layout)) <= 1
  {
    var p := PyObject(false, PyAscii(HIDDEN));
    TupleOfOne(p, layout);
    assert StringsIn([]) == [];
    if k == 0 {
      var s := TreeOf(p, layout);
      assert s == Node(false, 0x61, Counted(HIDDEN));
      items := [Str(HIDDEN)];
      TextMeans(HIDDEN, t);
      OneMeans(s, Str(HIDDEN), t);
      TupleMeans(Cons(s, Nil), items, t, t);
      assert items[1..] == [];
    } else {
      items := [];
      TupleMeans(Nil, [], t, t);
    }
  }

  lemma TextMeans(s: seq<byte>, t: Tables)
    ensures Eval(Node(false, 0x61, Counted(s)), t) == Some(Meaning(t, Str(s)))
  {
  }

  // ----- A code object -----

  /** The fields that hold objects, from the bytecode on. */
  function ObjectsOf(bytecode: PyObject, consts: PyObject, k: nat, layout: Layout): FieldList {
    MainFields(CodeOf(bytecode, consts, k), layout).rest.rest
  }

  lemma MainIsObjects(bytecode: PyObject, consts: PyObject, k: nat, layout: Layout)
    ensures var main := MainFields(CodeOf(bytecode, consts, k), layout); main.RawField? && main.rest.RawField?
    ensures exists more, m :: (m <= 7 && Quiet(more, m) && ObjectsOf(bytecode, consts, k, layout)
      == ObjectField(TreeOf(bytecode, layout), ObjectField(TreeOf(consts, layout), ObjectField(TreeOf(NamesField(k), layout), more))))
  {
    hide TreeOf, Quiet;
    var c := CodeOf(bytecode, consts, k);
    MainShape(c, layout);
    RestIsQuiet(c, layout);
    var more := MainFields(c, layout).rest.rest.rest.rest.rest;
    var m :| m <= 7 && Quiet(more, m);
  }

  /** Reading the fields: the bytecode may add to the tables, the rest only read them. */
  lemma FieldsMean(bytecode: PyObject, consts: PyObject, items: seq<Value>, k: nat, t: Tables, t1: Tables, layout: Layout)
    requires var b := Eval(TreeOf(bytecode, layout), t); b.Some? && b.value.tables == t1
    requires Eval(TreeOf(consts, layout), t1) == Some(Meaning(t1, Items(items)))
    ensures var r := EvalFields(ObjectsOf(bytecode, consts, k, layout), t);
            r.Some? && r.value.tables == t1 && |r.value.value| >= 3 && r.value.value[1].Items? && r.value.value[2].Items?
            && NewCode(t1, r.value.value) == t1.(objects := t1.objects + [CodeObject(Storey(k).names, items)])
  {
    hide TreeOf, Eval, StringsIn, ObjectsOf, Objects, Height, FieldsObjects, FieldsHeight;
    MainIsObjects(bytecode, consts, k, layout);
    var strings := NamesMean(k, t1, layout);
    var second, third := TreeOf(consts, layout), TreeOf(NamesField(k), layout);
    var more, m :| m <= 7 && Quiet(more, m)
      && ObjectsOf(bytecode, consts, k, layout) == ObjectField(TreeOf(bytecode, layout), ObjectField(second, ObjectField(third, more)));
    assert EvalFields(more, t1).Some? && EvalFields(more, t1).value.tables == t1;
    var f3 := ObjectField(third, more);
    var r3 := EvalFields(f3, t1);
    assert r3 == Some(Meaning(t1, [Items(strings)] + EvalFields(more, t1).value.value));
    var f2 := ObjectField(second, f3);
    var r2 := EvalFields(f2, t1);
    assert r2 == Some(Meaning(t1, [Items(items)] + r3.value.value));
    var f1 := ObjectField(TreeOf(bytecode, layout), f2);
    var r1 := EvalFields(f1, t);
    assert r1 == Some(Meaning(t1, [Eval(TreeOf(bytecode, layout), t).value.value] + r2.value.value));
  }

  lemma FieldsCost(bytecode: PyObject, consts: PyObject, k: nat, layout: Layout)
    requires Height(TreeOf(consts, layout)) <= 1
    ensures FieldsObjects(ObjectsOf(bytecode, consts, k, layout))
         <= Objects(TreeOf(bytecode, layout)) + Objects(TreeOf(consts, layout)) + Objects(TreeOf(NamesField(k), layout)) + 7
    ensures FieldsHeight(ObjectsOf(bytecode, consts, k, layout)) <= Max(2, 1 + Height(TreeOf(bytecode, layout)))
  {
    hide TreeOf, Eval, EvalFields, ObjectsOf, Objects, Height;
    MainIsObjects(bytecode, consts, k, layout);
    var strings := NamesMean(k, TablesAt(k), layout);
    var second, third := TreeOf(consts, layout), TreeOf(NamesField(k), layout);
    var more, m :| m <= 7 && Quiet(more, m)
      && ObjectsOf(bytecode, consts, k, layout) == ObjectField(TreeOf(bytecode, layout), ObjectField(second, ObjectField(third, more)));
    assert FieldsObjects(more) == m && FieldsHeight(more) <= 1;
    var f3 := ObjectField(third, more);
    assert FieldsObjects(f3) == Objects(third) + m && FieldsHeight(f3) <= 2;
    var f2 := ObjectField(second, f3);
    assert FieldsObjects(f2) == Objects(second) + FieldsObjects(f3) && FieldsHeight(f2) <= 2;
  }

  /** The size and height of a code object come from its fields that hold objects. */
  lemma CountsCostNothing(c: PyCodeFields, layout: Layout)
    requires MainFields(c, layout).RawField? && MainFields(c, layout).rest.RawField?
    ensures FieldsObjects(FieldsOf(c, layout)) == FieldsObjects(MainFields(c, layout).rest.rest)
    ensures FieldsHeight(FieldsOf(c, layout)) == FieldsHeight(MainFields(c, layout).rest.rest)
  {
    hide MainFields;
    var main := MainFields(c, layout);
    var one := RawField(if layout == Layout37 || layout == Layout38to310 then c.localCount else c.kwOnlyArgCount, main);
    var two := RawField(if layout == Layout37 || layout == Layout38to310 then c.kwOnlyArgCount else c.posOnlyArgCount, one);
    var three := RawField(if layout == Layout38to310 then c.posOnlyArgCount else c.argCount, two);
    assert FieldsObjects(one) == FieldsObjects(main) == FieldsObjects(main.rest.rest);
    assert FieldsHeight(one) == FieldsHeight(main) == FieldsHeight(main.rest.rest);
    assert FieldsObjects(three) == FieldsObjects(two) == FieldsObjects(one);
    assert FieldsHeight(three) == FieldsHeight(two) == FieldsHeight(one);
  }

  lemma CodeNodeMeans(flagged: bool, fs: FieldList, t: Tables, t1: Tables, v: seq<Value>)
    requires EvalFields(fs, Reserve(t, flagged)) == Some(Meaning(t1, v))
    requires |v| >= 3 && v[1].Items? && v[2].Items? && (flagged ==> |t.refs| < |t1.refs|)
    ensures var n := Node(flagged, 0x63, Fields(fs));
            Eval(n, t) == Some(Meaning(Fill(NewCode(t1, v), |t.refs|, flagged, CodeRef(|t1.objects|)), CodeRef(|t1.objects|)))
            && Objects(n) == 1 + FieldsObjects(fs) && Height(n) == FieldsHeight(fs)
  {
    hide EvalFields, StringsIn, FieldsObjects, FieldsHeight;
  }

  /** A code object with the names of storey `k` and these constants. */
  lemma CodeMeans(flagged: bool, bytecode: PyObject, consts: PyObject, items: seq<Value>, k: nat, t: Tables, t1: Tables,
                  layout: Layout)
    requires var b := Eval(TreeOf(bytecode, layout), Reserve(t, flagged)); b.Some? && b.value.tables == t1
    requires Eval(TreeOf(consts, layout), t1) == Some(Meaning(t1, Items(items))) && Height(TreeOf(consts, layout)) <= 1
    requires flagged ==> |t.refs| < |t1.refs|
    ensures var n := TreeOf(PyObject(flagged, PyCode(CodeOf(bytecode, consts, k))), layout);
            var done := t1.(objects := t1.objects + [CodeObject(Storey(k).names, items)]);
            Eval(n, t) == Some(Meaning(Fill(done, |t.refs|, flagged, CodeRef(|t1.objects|)), CodeRef(|t1.objects|)))
            && Objects(n) <= Objects(TreeOf(bytecode, layout)) + Objects(TreeOf(consts, layout))
                             + Objects(TreeOf(NamesField(k), layout)) + 8
            && Height(n) <= Max(2, 1 + Height(TreeOf(bytecode, layout)))
  {
    hide TreeOf, FieldsOf, MainFields, Eval, EvalFields, StringsIn, Objects, Height, FieldsObjects, FieldsHeight, NewCode, Quiet;
    var c := CodeOf(bytecode, consts, k);
    var p := PyObject(flagged, PyCode(c));
    FieldsMean(bytecode, consts, items, k, Reserve(t, flagged), t1, layout);
    FieldsCost(bytecode, consts, k, layout);
    CountsAreSkipped(c, Reserve(t, flagged), layout);
    MainIsObjects(bytecode, consts, k, layout);
    CountsCostNothing(c, layout);
    TreeOfCode(p, c, layout);
    CodeNodeMeans(flagged, FieldsOf(c, layout), t, t1, EvalFields(FieldsOf(c, layout), Reserve(t, flagged)).value.value);
  }

  /** One of storey `k` completes that storey, wherever the slot before it holds the storey before. */
  lemma StoreyMeans(flagged: bool, bytecode: PyObject, k: nat, t: Tables, t1: Tables, layout: Layout)
    requires var b := Eval(TreeOf(bytecode, layout), Reserve(t, flagged)); b.Some? && b.value.tables == t1
    requires k > 0 ==> k - 1 < |t1.refs| && t1.refs[k - 1] == CodeRef(k - 1)
    requires flagged ==> |t.refs| < |t1.refs|
    ensures var n := TreeOf(PyObject(flagged, PyCode(CodeOf(bytecode, ConstsOf(k), k))), layout);
            Eval(n, t) == Some(Meaning(Fill(t1.(objects := t1.objects + [Storey(k)]), |t.refs|, flagged, CodeRef(|t1.objects|)),
                                       CodeRef(|t1.objects|)))
            && Objects(n) <= Objects(TreeOf(bytecode, layout)) + 11 && Height(n) <= Max(2, 1 + Height(TreeOf(bytecode, layout)))
  {
    hide TreeOf, Eval, Objects, Height, CodeOf, ConstsOf, NamesField, Fill;
    ConstsMean(k, t1, layout);
    var strings := NamesMean(k, t1, layout);
    CodeMeans(flagged, bytecode, ConstsOf(k), Storey(k).consts, k, t, t1, layout);
    assert CodeObject(Storey(k).names, Storey(k).consts) == Storey(k);
  }

  // ----- The whole file -----

  lemma FillerMeans(t: Tables, layout: Layout)
    ensures Eval(TreeOf(FILLER, layout), t) == Some(Meaning(t, None))
    ensures Objects(TreeOf(FILLER, layout)) == 1 && Height(TreeOf(FILLER, layout)) == 0
  {
    assert TreeOf(FILLER, layout) == Node(false, 0x73, Counted([]));
  }

  lemma LinkMeans(k: nat, layout: Layout)
    ensures Eval(TreeOf(Link(k), layout), TablesAt(k)) == Some(Meaning(TablesAt(k + 1), CodeRef(k)))
    ensures Objects(TreeOf(Link(k), layout)) <= 12 && Height(TreeOf(Link(k), layout)) <= 2
  {
    hide CodeOf, TreeOf, Eval, Objects, Height;
    var t := TablesAt(k);
    var t1 := Reserve(t, true);
    FillerMeans(t1, layout);
    StoreyMeans(true, FILLER, k, t, t1, layout);
    var after := Fill(t1.(objects := t1.objects + [Storey(k)]), k, true, CodeRef(k));
    assert after.refs == TablesAt(k + 1).refs;
    assert after.objects == TablesAt(k + 1).objects;
  }

  lemma {:induction false} LinksMean(k: nat, n: nat, layout: Layout)
    requires k <= n
    ensures var ns := TreesOf(Links(k, n), layout);
            EvalNodes(ns, TablesAt(k)).Some? && EvalNodes(ns, TablesAt(k)).value.tables == TablesAt(n)
            && NodesObjects(ns) <= 12 * (n - k) && NodesHeight(ns) <= 3
    decreases n - k
  {
    hide TreeOf, Eval, Objects, Height, TablesAt, Link;
    if k < n {
      LinkMeans(k, layout);
      LinksMean(k + 1, n, layout);
    }
  }

  /** The bytecode field leaves all the links in the tables. */
  lemma BytecodeMeans(n: nat, layout: Layout)
    ensures var node := TreeOf(Tuple(Links(0, n)), layout);
            Eval(node, Tables([], [])).Some? && Eval(node, Tables([], [])).value.tables == TablesAt(n)
            && Objects(node) <= 12 * n + 1 && Height(node) <= 3
  {
    hide CodeOf, TreesOf, Links, EvalNodes, NodesObjects, NodesHeight, Eval;
    var bytecode := Tuple(Links(0, n));
    var ns := TreesOf(Links(0, n), layout);
    LinksMean(0, n, layout);
    assert TablesAt(0) == Tables([], []);
    assert TreeOf(bytecode, layout) == Node(false, 0x28, Listing(ns));
    var inner := EvalNodes(ns, TablesAt(0)).value;
    TupleMeans(ns, inner.value, TablesAt(0), inner.tables);
    assert Objects(TreeOf(bytecode, layout)) == 1 + NodesObjects(ns) && Height(TreeOf(bytecode, layout)) == NodesHeight(ns);
  }

  /** The file means a tower of `n` links, read from the top. */
  lemma RootMeans(n: nat, layout: Layout)
    ensures var m := Eval(TreeOf(Root(n), layout), Tables([], []));
            m.Some? && m.value.tables.objects == Tower(n) && m.value.value == CodeRef(n)
    ensures Objects(TreeOf(Root(n), layout)) <= 12 * n + 12 && Height(TreeOf(Root(n), layout)) <= 5
  {
    hide CodeOf, TreeOf, Links, Eval, Objects, Height;
    BytecodeMeans(n, layout);
    StoreyMeans(false, Tuple(Links(0, n)), n, Tables([], []), TablesAt(n), layout);
    assert TablesAt(n).objects + [Storey(n)] == Tower(n);
  }

  /** The bytes of the file decode, whatever follows them. */
  lemma TowerDecodes(n: nat, tail: seq<byte>, layout: Layout)
    requires layout != LayoutUnknown && 12 * n + 12 <= MAX_OBJECTS
    ensures Writable(Root(n), layout)
    ensures var r := Decoded(Write(Root(n), layout) + tail, layout);
            r.Ok? && r.value == CodeRef(n) && r.st.tables.objects == Tower(n) && r.st.rest == tail
  {
    hide Eval, Write, TreeOf, Root, Objects, Height, Writable, ReadObject;
    RootWritable(n, layout);
    RootMeans(n, layout);
    DecodeWritten(Root(n), tail, Tables([], []), MAX_OBJECTS, 0, layout);
  }

  /** The names of the file: of a chain of any length, within the decoder's budget of objects, the name at its end is
      collected exactly when the chain has at most `MAX_DEPTH` links.  The extraction reports success either way. */
  method NamesOfTower(n: nat, tail: seq<byte>, pythonVersion: string) returns (names: set<seq<byte>>, ok: bool)
    requires LayoutFor(pythonVersion) != LayoutUnknown && 12 * n + 12 <= MAX_OBJECTS
    ensures ok && (HIDDEN in names <==> n <= MAX_DEPTH)
  {
    var layout := LayoutFor(pythonVersion);
    TowerDecodes(n, tail, layout);
    names, ok := ExtractPycNames(Write(Root(n), layout) + tail, pythonVersion);
    TowerHidesItsName(n, names);
  }
}
