/** Which names a file yields, told from the file: the texts that stand in the names tuples of its code objects. */
module MarshalNames {
  import opened Bytes
  import opened Marshal
  import opened MarshalTrees
  import opened MarshalNamed
  import opened MarshalShape
  import opened MarshalWalk

  // ----- The strings of a list -----

  /** Every string among the items is kept, and nothing else. */
  lemma {:induction false} StringsAreKept(items: seq<Value>, x: seq<byte>)
    ensures x in StringsIn(items) <==> Str(x) in items
  {
    if items != [] {
      StringsAreKept(items[1..], x);
      assert items == [items[0]] + items[1..];
    }
  }

  /** The members of a list, each with the tables reached when it is read. */
  function Members(ns: Nodes, t: Tables): (rs: seq<Reading>)
    requires EvalNodes(ns, t).Some?
    ensures |rs| == Length(ns)
  {
    match ns
    case Nil => []
    case Cons(n, tail) => [Reading(n, t)] + Members(tail, Eval(n, t).value.tables)
  }

  /** A list means what its members mean, one by one and in order. */
  lemma {:induction false} ListMeansMembers(ns: Nodes, t: Tables)
    requires EvalNodes(ns, t).Some?
    ensures EvalNodes(ns, t).value.value == Meanings(Members(ns, t))
    ensures forall k :: 0 <= k < Length(ns) ==> Eval(Members(ns, t)[k].node, Members(ns, t)[k].before).Some?
  {
    if ns.Cons? {
      var t1 := Eval(ns.head, t).value.tables;
      ListMeansMembers(ns.tail, t1);
      var rs := Members(ns, t);
      assert rs == [Reading(ns.head, t)] + Members(ns.tail, t1);
      assert Meanings(rs) == [Meant(rs[0])] + Meanings(Members(ns.tail, t1));
    }
  }

  /** The k-th object of a written list is the k-th member of its tree. */
  function Item(l: PyList, k: nat): PyObject
    requires k < Count(l)
  {
    if k == 0 then l.head else Item(l.tail, k - 1)
  }

  lemma {:induction false} MembersAreItems(l: PyList, t: Tables, layout: Layout, k: nat)
    requires EvalNodes(TreesOf(l, layout), t).Some? && k < Count(l)
    ensures |Members(TreesOf(l, layout), t)| == Count(l)
    ensures Members(TreesOf(l, layout), t)[k].node == TreeOf(Item(l, k), layout)
  {
    hide TreeOf;
    var t1 := Eval(TreeOf(l.head, layout), t).value.tables;
    if k > 0 {
      MembersAreItems(l.tail, t1, layout, k - 1);
    } else {
      TreesCount(l, layout);
    }
  }

  lemma {:induction false} TreesCount(l: PyList, layout: Layout)
    ensures Length(TreesOf(l, layout)) == Count(l)
  {
    if l.PyCons? { TreesCount(l.tail, layout); }
  }

  predicate IsListOf(c: Content, l: PyList) {
    c in {PySmallTuple(l), PyTuple(l), PyListObject(l)}
  }

  /** A tuple or list means the list of what its members mean. */
  lemma ListObjectMeans(p: PyObject, l: PyList, t: Tables, layout: Layout)
    requires IsListOf(p.content, l) && Eval(TreeOf(p, layout), t).Some?
    ensures EvalNodes(TreesOf(l, layout), Reserve(t, p.flagged)).Some?
    ensures Eval(TreeOf(p, layout), t).value.value == Items(Meanings(Members(TreesOf(l, layout), Reserve(t, p.flagged))))
  {
    hide TreesOf, EvalNodes, Members, Meanings;
    TypeByteKind(p.content);
    ListBody(p, l, layout);
    ListMeansMembers(TreesOf(l, layout), Reserve(t, p.flagged));
  }

  lemma ListBody(p: PyObject, l: PyList, layout: Layout)
    requires IsListOf(p.content, l)
    ensures TreeOf(p, layout) == Node(p.flagged, TypeByte(p.content), Listing(TreesOf(l, layout)))
    ensures KindByName(p.content) == SmallTuple || KindByName(p.content) == Sequence
  {
  }

  // ----- One code object -----

  /** The object, read with these tables, stands for the string: one written there, or one referred to. */
  ghost predicate StandsFor(n: Node, t: Tables, x: seq<byte>) {
    Eval(n, t).Some? && Eval(n, t).value.value == Str(x)
  }

  /** A text is a name of the code object exactly when some member of its written names tuple stands for it. */
  lemma NamesAreMembers(p: PyObject, c: PyCodeFields, l: PyList, t: Tables, layout: Layout, x: seq<byte>)
    requires p.content == PyCode(c) && Eval(TreeOf(p, layout), t).Some? && IsListOf(c.names.content, l)
    ensures var m := Eval(TreeOf(p, layout), t).value;
            var consts := BeforeNames(c, Reserve(t, p.flagged), layout);
            m.value.CodeRef? && |m.tables.objects| == m.value.id + 1 && consts.Some?
            && EvalNodes(TreesOf(l, layout), Reserve(consts.value, c.names.flagged)).Some? &&
            var members := Members(TreesOf(l, layout), Reserve(consts.value, c.names.flagged));
            |members| == Count(l) && (forall k: nat :: k < Count(l) ==> members[k].node == TreeOf(Item(l, k), layout))
            && (x in m.tables.objects[m.value.id].names
                <==> exists k: nat :: k < Count(l) && StandsFor(TreeOf(Item(l, k), layout), members[k].before, x))
  {
    hide TreeOf, TreesOf, Eval, EvalNodes, Members, StringsIn;
    CodeKeepsConstsAndNames(p, c, t, layout);
    var t0 := Reserve(t, p.flagged);
    var t2 := BeforeNames(c, t0, layout).value;
    ListObjectMeans(c.names, l, t2, layout);
    var ns, t3 := TreesOf(l, layout), Reserve(t2, c.names.flagged);
    var members := Members(ns, t3);
    TreesCount(l, layout);
    forall k: nat | k < Count(l) ensures members[k].node == TreeOf(Item(l, k), layout) {
      MembersAreItems(l, t3, layout, k);
    }
    ListMeansMembers(ns, t3);
    StringsAreKept(Meanings(members), x);
    assert forall k :: 0 <= k < |members| ==> Meanings(members)[k] == Meant(members[k]);
  }

  /** The tables reached when the names field of a code object is read: behind its bytecode and its constants. */
  function BeforeNames(c: PyCodeFields, t: Tables, layout: Layout): Option<Tables> {
    var bytecode := Eval(TreeOf(c.bytecode, layout), t);
    if bytecode.NoValue? then NoValue
    else
      var consts := Eval(TreeOf(c.consts, layout), bytecode.value.tables);
      if consts.NoValue? then NoValue else Some(consts.value.tables)
  }

  // ----- All code objects of a file -----

  /** The code objects of a tree in the order in which they are completed, each with the tables reached when its first
      field is read. */
  function Codes(n: Node, t: Tables): seq<Reading>
    requires Eval(n, t).Some?
  {
    CodesInBody(n.body, KindOf(n.tag), Reserve(t, n.flagged))
    + if n.body.Fields? then [Reading(n, Reserve(t, n.flagged))] else []
  }

  function CodesInBody(b: Body, kind: Kind, t: Tables): seq<Reading>
    requires EvalBody(b, kind, t).Some?
  {
    match b
    case Listing(ns) => CodesInNodes(ns, t)
    case Table(es) => CodesInEntries(es, t)
    case Fields(fs) => CodesInFields(fs, t)
    case _ => []
  }

  function CodesInNodes(ns: Nodes, t: Tables): seq<Reading>
    requires EvalNodes(ns, t).Some?
  {
    match ns
    case Nil => []
    case Cons(n, tail) => Codes(n, t) + CodesInNodes(tail, Eval(n, t).value.tables)
  }

  function CodesInEntries(es: Entries, t: Tables): seq<Reading>
    requires EvalEntries(es, t).Some?
  {
    match es
    case Stop(k) => Codes(k, t)
    case Entry(k, v, rest) =>
      var t1 := Eval(k, t).value.tables;
      var t2 := Eval(v, t1).value.tables;
      Codes(k, t) + (Codes(v, t1) + CodesInEntries(rest, t2))
  }

  function CodesInFields(fs: FieldList, t: Tables): seq<Reading>
    requires EvalFields(fs, t).Some?
  {
    match fs
    case Done => []
    case RawField(_, rest) => CodesInFields(rest, t)
    case ObjectField(n, rest) => Codes(n, t) + CodesInFields(rest, Eval(n, t).value.tables)
  }

  /** The k-th object field, with the tables reached when it is read. */
  function FieldAt(fs: FieldList, t: Tables, k: nat): Option<Reading> {
    match fs
    case Done => NoValue
    case RawField(_, rest) => FieldAt(rest, t, k)
    case ObjectField(n, rest) =>
      if k == 0 then Some(Reading(n, t))
      else if Eval(n, t).NoValue? then NoValue
      else FieldAt(rest, Eval(n, t).value.tables, k - 1)
  }

  /** The second object field means these constants, and the third a list that has exactly these texts as strings. */
  ghost predicate Written(r: Reading, o: CodeObject) {
    r.node.body.Fields? &&
    var fs := r.node.body.fields;
    var consts, names := FieldAt(fs, r.before, 1), FieldAt(fs, r.before, 2);
    && consts.Some? && Meant(consts.value) == Items(o.consts)
    && names.Some? && Meant(names.value).Items? && forall x :: x in o.names <==> Str(x) in Meant(names.value).items
  }

  /** From `t` to `t'` these code objects were completed, one object each and in order. */
  ghost predicate Completed(t: Tables, cs: seq<Reading>, t': Tables) {
    |t'.objects| == |t.objects| + |cs| && t.objects <= t'.objects
    && forall k :: 0 <= k < |cs| ==> Written(cs[k], t'.objects[|t.objects| + k])
  }

  lemma CompletedThen(t: Tables, a: seq<Reading>, t1: Tables, b: seq<Reading>, t2: Tables)
    requires Completed(t, a, t1) && Completed(t1, b, t2)
    ensures Completed(t, a + b, t2)
  {
    hide Written;
    var cs := a + b;
    forall k | 0 <= k < |cs| ensures Written(cs[k], t2.objects[|t.objects| + k]) {
      if k < |a| {
        assert t2.objects[|t.objects| + k] == t1.objects[|t.objects| + k];
      } else {
        assert cs[k] == b[k - |a|];
      }
    }
  }

  lemma SameObjects(t: Tables, u: Tables, cs: seq<Reading>, t': Tables, u': Tables)
    requires Completed(t, cs, t') && u.objects == t.objects && u'.objects == t'.objects
    ensures Completed(u, cs, u')
  {
  }

  lemma {:induction false} ObjectsArePostOrder(n: Node, t: Tables)
    requires Eval(n, t).Some?
    ensures Completed(t, Codes(n, t), Eval(n, t).value.tables)
    ensures n.body.Fields? ==> Codes(n, t) != [] && Eval(n, t).value.value == CodeRef(|Eval(n, t).value.tables.objects| - 1)
  {
    hide Completed, CodesInBody;
    var t1, kind := Reserve(t, n.flagged), KindOf(n.tag);
    var t2 := EvalBody(n.body, kind, t1).value.tables;
    BodyCompletes(n.body, kind, t1, n);
    SameObjects(t1, t, Codes(n, t), t2, Eval(n, t).value.tables);
  }

  lemma {:induction false} BodyCompletes(b: Body, kind: Kind, t: Tables, n: Node)
    requires EvalBody(b, kind, t).Some? && n.body == b
    ensures Completed(t, CodesInBody(b, kind, t) + (if b.Fields? then [Reading(n, t)] else []), EvalBody(b, kind, t).value.tables)
    ensures b.Fields? ==> EvalBody(b, kind, t).value.value == CodeRef(|EvalBody(b, kind, t).value.tables.objects| - 1)
    decreases b
  {
    hide Completed, Written;
    NothingCompleted(t);
    var cs := CodesInBody(b, kind, t);
    match b
    case Listing(ns) => NodesComplete(ns, t); assert cs + [] == cs;
    case Table(es) => EntriesComplete(es, t); assert cs + [] == cs;
    case Fields(fs) =>
      FieldsComplete(fs, t);
      CodeCompletes(n, fs, kind, t);
      CompletedThen(t, cs, EvalFields(fs, t).value.tables, [Reading(n, t)], EvalBody(b, kind, t).value.tables);
    case _ => assert cs + [] == cs == [];
  }

  lemma NothingCompleted(t: Tables)
    ensures Completed(t, [], t)
  {
  }

  lemma CodeCompletes(n: Node, fs: FieldList, kind: Kind, t: Tables)
    requires n.body == Fields(fs) && EvalBody(n.body, kind, t).Some?
    ensures Completed(EvalFields(fs, t).value.tables, [Reading(n, t)], EvalBody(n.body, kind, t).value.tables)
    ensures EvalBody(n.body, kind, t).value.value == CodeRef(|EvalBody(n.body, kind, t).value.tables.objects| - 1)
  {
    hide EvalFields, StringsIn, Meant, FieldAt;
    var r := EvalFields(fs, t).value;
    FieldsAreValues(fs, t, 1);
    FieldsAreValues(fs, t, 2);
    var o := CodeObject(StringsIn(r.value[2].items), r.value[1].items);
    forall x ensures x in o.names <==> Str(x) in r.value[2].items {
      StringsAreKept(r.value[2].items, x);
    }
    assert Written(Reading(n, t), o);
  }

  lemma {:induction false} FieldsAreValues(fs: FieldList, t: Tables, k: nat)
    requires EvalFields(fs, t).Some? && k < |EvalFields(fs, t).value.value|
    ensures FieldAt(fs, t, k).Some? && Meant(FieldAt(fs, t, k).value) == EvalFields(fs, t).value.value[k]
  {
    match fs
    case Done =>
    case RawField(_, rest) => FieldsAreValues(rest, t, k);
    case ObjectField(n, rest) =>
      if k > 0 {
        FieldsAreValues(rest, Eval(n, t).value.tables, k - 1);
      }
  }

  lemma {:induction false} NodesComplete(ns: Nodes, t: Tables)
    requires EvalNodes(ns, t).Some?
    ensures Completed(t, CodesInNodes(ns, t), EvalNodes(ns, t).value.tables)
  {
    hide Completed;
    if ns.Cons? {
      var t1 := Eval(ns.head, t).value.tables;
      ObjectsArePostOrder(ns.head, t);
      NodesComplete(ns.tail, t1);
      CompletedThen(t, Codes(ns.head, t), t1, CodesInNodes(ns.tail, t1), EvalNodes(ns, t).value.tables);
    } else {
      NothingCompleted(t);
    }
  }

  lemma {:induction false} EntriesComplete(es: Entries, t: Tables)
    requires EvalEntries(es, t).Some?
    ensures Completed(t, CodesInEntries(es, t), EvalEntries(es, t).value.tables)
  {
    hide Completed;
    ObjectsArePostOrder(es.key, t);
    if es.Entry? {
      var t1 := Eval(es.key, t).value.tables;
      var t2 := Eval(es.value, t1).value.tables;
      var t3 := EvalEntries(es.rest, t2).value.tables;
      ObjectsArePostOrder(es.value, t1);
      EntriesComplete(es.rest, t2);
      var b, c := Codes(es.value, t1), CodesInEntries(es.rest, t2);
      CompletedThen(t1, b, t2, c, t3);
      CompletedThen(t, Codes(es.key, t), t1, b + c, t3);
    }
  }

  lemma {:induction false} FieldsComplete(fs: FieldList, t: Tables)
    requires EvalFields(fs, t).Some?
    ensures Completed(t, CodesInFields(fs, t), EvalFields(fs, t).value.tables)
  {
    hide Completed;
    match fs
    case Done => NothingCompleted(t);
    case RawField(_, rest) => FieldsComplete(rest, t);
    case ObjectField(n, rest) =>
      var t1 := Eval(n, t).value.tables;
      ObjectsArePostOrder(n, t);
      FieldsComplete(rest, t1);
      CompletedThen(t, Codes(n, t), t1, CodesInFields(rest, t1), EvalFields(fs, t).value.tables);
  }

  // ----- The names of a file -----

  /** Some member of the code object's names list means this string. */
  ghost predicate NamedIn(r: Reading, x: seq<byte>) {
    r.node.body.Fields? &&
    var names := FieldAt(r.node.body.fields, r.before, 2);
    names.Some? && Meant(names.value).Items? && exists k :: 0 <= k < |Meant(names.value).items| && Meant(names.value).items[k] == Str(x)
  }

  /** The bytes written for a code object, whatever follows them, yield exactly the texts in the names lists of those code
      objects of the file that the walk visits.  The k-th code object to be completed is the k-th of the file. */
  method NamesOfFile(p: PyObject, tail: seq<byte>, pythonVersion: string) returns (names: set<seq<byte>>, ok: bool)
    requires Writable(p, LayoutFor(pythonVersion)) && p.content.PyCode? && LayoutFor(pythonVersion) != LayoutUnknown
    requires var n := TreeOf(p, LayoutFor(pythonVersion));
             Eval(n, Tables([], [])).Some? && Objects(n) <= MAX_OBJECTS && Height(n) <= MAX_DEPTH
    ensures var n, t := TreeOf(p, LayoutFor(pythonVersion)), Tables([], []);
            var codes, objects := Codes(n, t), Eval(n, t).value.tables.objects;
            ok && |codes| == |objects| > 0
            && forall x :: x in names <==> exists k: nat :: k in Visit(objects, |objects| - 1, 0, {}) && k < |codes| && NamedIn(codes[k], x)
  {
    hide Writable, Eval, TreeOf, Objects, Height, Write, ReadObject, Visit, Codes;
    var layout := LayoutFor(pythonVersion);
    ghost var n := TreeOf(p, layout);
    var t := Tables([], []);
    DecodeWritten(p, tail, t, MAX_OBJECTS, 0, layout);
    names, ok := ExtractPycNames(Write(p, layout) + tail, pythonVersion);
    CodeIsFields(p, layout);
    ObjectsArePostOrder(n, t);
    forall x ensures x in names <==> exists k: nat :: k in Visit(Eval(n, t).value.tables.objects,
      |Eval(n, t).value.tables.objects| - 1, 0, {}) && k < |Codes(n, t)| && NamedIn(Codes(n, t)[k], x)
    {
      WrittenNames(Codes(n, t), Eval(n, t).value.tables.objects, x);
    }
  }

  lemma CodeIsFields(p: PyObject, layout: Layout)
    requires p.content.PyCode?
    ensures TreeOf(p, layout).body.Fields?
  {
  }

  lemma WrittenNames(codes: seq<Reading>, objects: seq<CodeObject>, x: seq<byte>)
    requires |codes| == |objects| && forall k :: 0 <= k < |codes| ==> Written(codes[k], objects[k])
    ensures forall k :: 0 <= k < |codes| ==> (x in objects[k].names <==> NamedIn(codes[k], x))
  {
    forall k | 0 <= k < |codes| ensures x in objects[k].names <==> NamedIn(codes[k], x) {
      assert Written(codes[k], objects[k]);
    }
  }

  // ----- Versions -----

  /** "3." and the minor version in decimal. */
  function VersionText(minor: nat): string
    requires minor < 100
  {
    "3." + if minor < 10 then [minor as char + '0'] else [(minor / 10) as char + '0', (minor % 10) as char + '0']
  }

  /** Python 3.7, 3.8 to 3.10, and 3.11 to 3.13 have a layout each; no other version has one. */
  lemma LayoutMeaning(minor: nat)
    requires minor < 100
    ensures (LayoutFor(VersionText(minor)) == if minor == 7 then Layout37
                                              else if 8 <= minor <= 10 then Layout38to310
                                              else if 11 <= minor <= 13 then Layout311plus else LayoutUnknown)
  {
    var v := VersionText(minor);
    if minor < 10 {
      assert |v| == 3 && v[2] as int == minor + '0' as int;
      assert v == "3.7" <==> minor == 7 by { assert v[..2] == "3." && "3.7" == "3." + ['7'] && v == "3." + [v[2]]; }
      assert v == "3.8" <==> minor == 8 by { assert v[..2] == "3." && "3.8" == "3." + ['8'] && v == "3." + [v[2]]; }
      assert v == "3.9" <==> minor == 9 by { assert v[..2] == "3." && "3.9" == "3." + ['9'] && v == "3." + [v[2]]; }
    } else {
      assert |v| == 4 && v[2] as int == minor / 10 + '0' as int && v[3] as int == minor % 10 + '0' as int;
      TwoDigits(v, minor, '1', '0', 10);
      TwoDigits(v, minor, '1', '1', 11);
      TwoDigits(v, minor, '1', '2', 12);
      TwoDigits(v, minor, '1', '3', 13);
      assert "3." + ['1', '0'] == "3.10" && "3." + ['1', '1'] == "3.11" && "3." + ['1', '2'] == "3.12" && "3." + ['1', '3'] == "3.13";
    }
  }

  lemma TwoDigits(v: string, minor: nat, tens: char, ones: char, n: nat)
    requires 10 <= minor < 100 && v == VersionText(minor) && '0' <= tens <= '9' && '0' <= ones <= '9'
    requires n == 10 * (tens as int - '0' as int) + (ones as int - '0' as int)
    ensures v == "3." + [tens, ones] <==> minor == n
  {
    assert v == "3." + [v[2], v[3]];
    assert v[2] as int == minor / 10 + '0' as int && v[3] as int == minor % 10 + '0' as int;
    assert ("3." + [tens, ones])[2] == tens && ("3." + [tens, ones])[3] == ones;
  }

  lemma OtherVersionsAreUnknown(v: string)
    requires LayoutFor(v) != LayoutUnknown
    ensures exists minor: nat :: 7 <= minor <= 13 && v == VersionText(minor)
  {
    assert VersionText(7) == "3.7" && VersionText(8) == "3.8" && VersionText(9) == "3.9" && VersionText(10) == "3.10";
    assert VersionText(11) == "3.11" && VersionText(12) == "3.12" && VersionText(13) == "3.13";
  }
}
