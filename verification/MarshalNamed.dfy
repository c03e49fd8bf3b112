/** Marshalled Python objects by name, with the bytes CPython writes for each and the fields of a code object in the
    order of each version.  This is a description of its own: the decoder's tables of type bytes and field schedules
    are proved to agree with it. */
module MarshalNamed {
  import opened Bytes
  import opened Marshal
  import opened MarshalTrees
  import opened MarshalRoundTrip

  /** An object, flagged when it may be referred back to. */
  datatype PyObject = PyObject(flagged: bool, content: Content)

  datatype Content =
    | PyNull | PyNone | PyFalse | PyTrue | PyStopIteration | PyEllipsis
    | PyInt(value: int) | PyInt64(raw: seq<byte>) | PyLong(size: int, digits: seq<byte>)
    | PyFloat(text: seq<byte>) | PyBinaryFloat(raw: seq<byte>)
    | PyComplex(re: seq<byte>, im: seq<byte>) | PyBinaryComplex(raw: seq<byte>)
    | PyBytes(text: seq<byte>)
    | PyInterned(text: seq<byte>) | PyUnicode(text: seq<byte>) | PyAscii(text: seq<byte>) | PyAsciiInterned(text: seq<byte>)
    | PyShortAscii(text: seq<byte>) | PyShortAsciiInterned(text: seq<byte>)
    | PySmallTuple(items: PyList) | PyTuple(items: PyList) | PyListObject(items: PyList)
    | PySet(items: PyList) | PyFrozenSet(items: PyList)
    | PyDict(entries: PyEntries)
    | PyCode(code: PyCodeFields)
    | PyReference(index: int)

  datatype PyList = PyNil | PyCons(head: PyObject, tail: PyList)

  /** The entries of a dictionary; a NULL object closes them. */
  datatype PyEntries = PyEnd(flagged: bool) | PyEntry(key: PyObject, value: PyObject, rest: PyEntries)

  /** The fields of a code object in any version; a version without a field does not write it. */
  datatype PyCodeFields = PyCodeFields(
    argCount: int, posOnlyArgCount: int, kwOnlyArgCount: int, localCount: int, stackSize: int, flags: int, firstLine: int,
    bytecode: PyObject, consts: PyObject, names: PyObject, variables: PyObject, kindsOrFree: PyObject, cells: PyObject,
    filename: PyObject, name: PyObject, qualname: PyObject, lines: PyObject, exceptions: PyObject)

  function Count(l: PyList): nat {
    match l case PyNil => 0 case PyCons(_, tail) => 1 + Count(tail)
  }

  // ----- What can be written -----

  predicate IsInt32(n: int) { -TWO31 <= n < TWO31 }

  predicate Writable(p: PyObject, layout: Layout) {
    match p.content
    case PyInt(v) => IsInt32(v)
    case PyInt64(raw) => |raw| == 8
    case PyLong(n, digits) => IsInt32(n) && |digits| == 2 * (if n < 0 then -n else n)
    case PyFloat(s) => |s| < 256
    case PyBinaryFloat(raw) => |raw| == 8
    case PyComplex(re, im) => |re| < 256 && |im| < 256
    case PyBinaryComplex(raw) => |raw| == 16
    case PyBytes(s) => |s| < TWO31
    case PyInterned(s) => |s| < TWO31
    case PyUnicode(s) => |s| < TWO31
    case PyAscii(s) => |s| < TWO31
    case PyAsciiInterned(s) => |s| < TWO31
    case PyShortAscii(s) => |s| < 256
    case PyShortAsciiInterned(s) => |s| < 256
    case PySmallTuple(l) => Count(l) < 256 && AllWritable(l, layout)
    case PyTuple(l) => Count(l) < TWO31 && AllWritable(l, layout)
    case PyListObject(l) => Count(l) < TWO31 && AllWritable(l, layout)
    case PySet(l) => Count(l) < TWO31 && AllWritable(l, layout)
    case PyFrozenSet(l) => Count(l) < TWO31 && AllWritable(l, layout)
    case PyDict(es) => EntriesWritable(es, layout)
    case PyCode(c) => layout != LayoutUnknown && CodeWritable(c, layout)
    case PyReference(i) => 0 <= i < TWO31
    case _ => true
  }

  predicate AllWritable(l: PyList, layout: Layout) {
    match l case PyNil => true case PyCons(p, tail) => Writable(p, layout) && AllWritable(tail, layout)
  }

  predicate EntriesWritable(es: PyEntries, layout: Layout) {
    match es
    case PyEnd(_) => true
    case PyEntry(k, v, rest) => Writable(k, layout) && Writable(v, layout) && EntriesWritable(rest, layout)
  }

  predicate CodeWritable(c: PyCodeFields, layout: Layout) {
    IsInt32(c.argCount) && IsInt32(c.posOnlyArgCount) && IsInt32(c.kwOnlyArgCount) && IsInt32(c.localCount)
    && IsInt32(c.stackSize) && IsInt32(c.flags) && IsInt32(c.firstLine)
    && Writable(c.bytecode, layout) && Writable(c.consts, layout) && Writable(c.names, layout) && Writable(c.variables, layout)
    && Writable(c.kindsOrFree, layout) && Writable(c.cells, layout) && Writable(c.filename, layout) && Writable(c.name, layout)
    && Writable(c.qualname, layout) && Writable(c.lines, layout) && Writable(c.exceptions, layout)
  }

  // ----- How it is written -----

  function TypeByte(c: Content): byte {
    match c
    case PyNull => 0x30
    case PyNone => 0x4E
    case PyFalse => 0x46
    case PyTrue => 0x54
    case PyStopIteration => 0x53
    case PyEllipsis => 0x2E
    case PyInt(_) => 0x69
    case PyInt64(_) => 0x49
    case PyLong(_, _) => 0x6C
    case PyFloat(_) => 0x66
    case PyBinaryFloat(_) => 0x67
    case PyComplex(_, _) => 0x78
    case PyBinaryComplex(_) => 0x79
    case PyBytes(_) => 0x73
    case PyInterned(_) => 0x74
    case PyUnicode(_) => 0x75
    case PyAscii(_) => 0x61
    case PyAsciiInterned(_) => 0x41
    case PyShortAscii(_) => 0x7A
    case PyShortAsciiInterned(_) => 0x5A
    case PySmallTuple(_) => 0x29
    case PyTuple(_) => 0x28
    case PyListObject(_) => 0x5B
    case PySet(_) => 0x3C
    case PyFrozenSet(_) => 0x3E
    case PyDict(_) => 0x7B
    case PyCode(_) => 0x63
    case PyReference(_) => 0x72
  }

  function Flag(flagged: bool): int { if flagged then 0x80 else 0 }

  function Write(p: PyObject, layout: Layout): seq<byte>
    requires Writable(p, layout)
    decreases p, 2
  {
    [TypeByte(p.content) + Flag(p.flagged)] + WriteContent(p, layout)
  }

  function WriteContent(p: PyObject, layout: Layout): seq<byte>
    requires Writable(p, layout)
    decreases p, 1
  {
    match p.content
    case PyInt(v) => Le32(v)
    case PyInt64(raw) => raw
    case PyLong(n, digits) => Le32(n) + digits
    case PyFloat(s) => [|s|] + s
    case PyBinaryFloat(raw) => raw
    case PyComplex(re, im) => [|re|] + re + ([|im|] + im)
    case PyBinaryComplex(raw) => raw
    case PyBytes(s) => Le32(|s|) + s
    case PyInterned(s) => Le32(|s|) + s
    case PyUnicode(s) => Le32(|s|) + s
    case PyAscii(s) => Le32(|s|) + s
    case PyAsciiInterned(s) => Le32(|s|) + s
    case PyShortAscii(s) => [|s|] + s
    case PyShortAsciiInterned(s) => [|s|] + s
    case PySmallTuple(l) => [Count(l)] + WriteList(l, layout)
    case PyTuple(l) => Le32(Count(l)) + WriteList(l, layout)
    case PyListObject(l) => Le32(Count(l)) + WriteList(l, layout)
    case PySet(l) => Le32(Count(l)) + WriteList(l, layout)
    case PyFrozenSet(l) => Le32(Count(l)) + WriteList(l, layout)
    case PyDict(es) => WriteEntries(es, layout)
    case PyCode(c) => WriteCode(c, layout)
    case PyReference(i) => Le32(i)
    case _ => []
  }

  function WriteList(l: PyList, layout: Layout): seq<byte>
    requires AllWritable(l, layout)
  {
    match l case PyNil => [] case PyCons(p, tail) => Write(p, layout) + WriteList(tail, layout)
  }

  function WriteEntries(es: PyEntries, layout: Layout): seq<byte>
    requires EntriesWritable(es, layout)
  {
    match es
    case PyEnd(flagged) => [0x30 + Flag(flagged)]
    case PyEntry(k, v, rest) => Write(k, layout) + (Write(v, layout) + WriteEntries(rest, layout))
  }

  /** The fields in CPython's order: since 3.8 there is a count of positional-only arguments; since 3.11 there is no
      count of locals, one list of variables with their kinds, a qualified name and an exception table. */
  function WriteCode(c: PyCodeFields, layout: Layout): seq<byte>
    requires layout != LayoutUnknown && CodeWritable(c, layout)
    decreases c, 3
  {
    match layout
    case Layout37 => Le32(c.argCount) + (Le32(c.kwOnlyArgCount) + (Le32(c.localCount) + WriteMain(c, layout)))
    case Layout38to310 =>
      Le32(c.argCount) + (Le32(c.posOnlyArgCount) + (Le32(c.kwOnlyArgCount) + (Le32(c.localCount) + WriteMain(c, layout))))
    case Layout311plus => Le32(c.argCount) + (Le32(c.posOnlyArgCount) + (Le32(c.kwOnlyArgCount) + WriteMain(c, layout)))
  }

  function WriteMain(c: PyCodeFields, layout: Layout): seq<byte>
    requires CodeWritable(c, layout)
    decreases c, 2
  {
    Le32(c.stackSize) + (Le32(c.flags) +
    (Write(c.bytecode, layout) + (Write(c.consts, layout) + (Write(c.names, layout) +
    (Write(c.variables, layout) + (Write(c.kindsOrFree, layout) + WriteLabels(c, layout)))))))
  }

  function WriteLabels(c: PyCodeFields, layout: Layout): seq<byte>
    requires CodeWritable(c, layout)
    decreases c, 1
  {
    if layout == Layout311plus
    then Write(c.filename, layout) + (Write(c.name, layout) + (Write(c.qualname, layout) + WriteLast(c, layout)))
    else Write(c.cells, layout) + (Write(c.filename, layout) + (Write(c.name, layout) + WriteLast(c, layout)))
  }

  function WriteLast(c: PyCodeFields, layout: Layout): seq<byte>
    requires CodeWritable(c, layout)
    decreases c, 0
  {
    Le32(c.firstLine) + (Write(c.lines, layout) + (if layout == Layout311plus then Write(c.exceptions, layout) else []))
  }

  // ----- The same objects as trees of the decoder's own description -----

  function TreeOf(p: PyObject, layout: Layout): Node
    decreases p, 2
  {
    Node(p.flagged, TypeByte(p.content), BodyOf(p, layout))
  }

  function BodyOf(p: PyObject, layout: Layout): Body
    decreases p, 1
  {
    match p.content
    case PyInt(v) => if IsInt32(v) then Plain(Le32(v)) else Blank
    case PyInt64(raw) => Plain(raw)
    case PyLong(n, digits) => BigInt(n, digits)
    case PyFloat(s) => Short(s)
    case PyBinaryFloat(raw) => Plain(raw)
    case PyComplex(re, im) => Pair(re, im)
    case PyBinaryComplex(raw) => Plain(raw)
    case PyBytes(s) => Counted(s)
    case PyInterned(s) => Counted(s)
    case PyUnicode(s) => Counted(s)
    case PyAscii(s) => Counted(s)
    case PyAsciiInterned(s) => Counted(s)
    case PyShortAscii(s) => Short(s)
    case PyShortAsciiInterned(s) => Short(s)
    case PySmallTuple(l) => Listing(TreesOf(l, layout))
    case PyTuple(l) => Listing(TreesOf(l, layout))
    case PyListObject(l) => Listing(TreesOf(l, layout))
    case PySet(l) => Listing(TreesOf(l, layout))
    case PyFrozenSet(l) => Listing(TreesOf(l, layout))
    case PyDict(es) => Table(EntriesOf(es, layout))
    case PyCode(c) => Fields(FieldsOf(c, layout))
    case PyReference(i) => Ref(i)
    case _ => Blank
  }

  function TreesOf(l: PyList, layout: Layout): Nodes {
    match l case PyNil => Nil case PyCons(p, tail) => Cons(TreeOf(p, layout), TreesOf(tail, layout))
  }

  function EntriesOf(es: PyEntries, layout: Layout): Entries {
    match es
    case PyEnd(flagged) => Stop(Node(flagged, 0x30, Blank))
    case PyEntry(k, v, rest) => Entry(TreeOf(k, layout), TreeOf(v, layout), EntriesOf(rest, layout))
  }

  function FieldsOf(c: PyCodeFields, layout: Layout): FieldList
    decreases c, 3
  {
    match layout
    case Layout37 => RawField(c.argCount, RawField(c.kwOnlyArgCount, RawField(c.localCount, MainFields(c, layout))))
    case Layout38to310 =>
      RawField(c.argCount, RawField(c.posOnlyArgCount, RawField(c.kwOnlyArgCount, RawField(c.localCount, MainFields(c, layout)))))
    case _ => RawField(c.argCount, RawField(c.posOnlyArgCount, RawField(c.kwOnlyArgCount, MainFields(c, layout))))
  }

  function MainFields(c: PyCodeFields, layout: Layout): FieldList
    decreases c, 2
  {
    RawField(c.stackSize, RawField(c.flags,
      ObjectField(TreeOf(c.bytecode, layout), ObjectField(TreeOf(c.consts, layout), ObjectField(TreeOf(c.names, layout),
      ObjectField(TreeOf(c.variables, layout), ObjectField(TreeOf(c.kindsOrFree, layout), LabelFields(c, layout))))))))
  }

  function LabelFields(c: PyCodeFields, layout: Layout): FieldList
    decreases c, 1
  {
    if layout == Layout311plus then
      ObjectField(TreeOf(c.filename, layout), ObjectField(TreeOf(c.name, layout),
        ObjectField(TreeOf(c.qualname, layout), LastFields(c, layout))))
    else
      ObjectField(TreeOf(c.cells, layout), ObjectField(TreeOf(c.filename, layout),
        ObjectField(TreeOf(c.name, layout), LastFields(c, layout))))
  }

  function LastFields(c: PyCodeFields, layout: Layout): FieldList
    decreases c, 0
  {
    RawField(c.firstLine, ObjectField(TreeOf(c.lines, layout),
      if layout == Layout311plus then ObjectField(TreeOf(c.exceptions, layout), Done) else Done))
  }

  // ----- The two descriptions agree -----

  /** The tree is well-formed in the decoder's terms and encodes to the bytes written. */
  ghost predicate Agrees(p: PyObject, layout: Layout)
    requires Writable(p, layout)
  {
    Wf(TreeOf(p, layout), layout) && Encode(TreeOf(p, layout), layout) == Write(p, layout)
  }

  ghost predicate FieldsAgree(fs: FieldList, kinds: seq<FieldKind>, bytes: seq<byte>, layout: Layout) {
    FieldsWf(fs, kinds, layout) && EncodeFields(fs, kinds, layout) == bytes
  }

  lemma NoFields(layout: Layout)
    ensures FieldsAgree(Done, [], [], layout)
  {
  }

  lemma RawFirst(n: int, fs: FieldList, kinds: seq<FieldKind>, bytes: seq<byte>, layout: Layout)
    requires IsInt32(n) && FieldsAgree(fs, kinds, bytes, layout)
    ensures FieldsAgree(RawField(n, fs), [RawLong] + kinds, Le32(n) + bytes, layout)
  {
    hide Le32;
    assert ([RawLong] + kinds)[1..] == kinds;
  }

  lemma ObjectFirst(p: PyObject, fs: FieldList, kinds: seq<FieldKind>, bytes: seq<byte>, layout: Layout)
    requires Writable(p, layout) && Agrees(p, layout) && FieldsAgree(fs, kinds, bytes, layout)
    ensures FieldsAgree(ObjectField(TreeOf(p, layout), fs), [Object] + kinds, Write(p, layout) + bytes, layout)
  {
    hide Write, Writable, TreeOf, Wf, Encode;
    assert ([Object] + kinds)[1..] == kinds;
  }

  /** Every field of a code object agrees. */
  ghost predicate CodeAgrees(c: PyCodeFields, layout: Layout)
    requires CodeWritable(c, layout)
  {
    Agrees(c.bytecode, layout) && Agrees(c.consts, layout) && Agrees(c.names, layout) && Agrees(c.variables, layout)
    && Agrees(c.kindsOrFree, layout) && Agrees(c.cells, layout) && Agrees(c.filename, layout) && Agrees(c.name, layout)
    && Agrees(c.qualname, layout) && Agrees(c.lines, layout) && Agrees(c.exceptions, layout)
  }

  function LastKinds(layout: Layout): seq<FieldKind> {
    [RawLong] + ([Object] + (if layout == Layout311plus then [Object] + [] else []))
  }

  function LabelKinds(layout: Layout): seq<FieldKind> {
    [Object] + ([Object] + ([Object] + LastKinds(layout)))
  }

  function MainKinds(layout: Layout): seq<FieldKind> {
    [RawLong] + ([RawLong] + ([Object] + ([Object] + ([Object] + ([Object] + ([Object] + LabelKinds(layout)))))))
  }

  function AllKinds(layout: Layout): seq<FieldKind> {
    if layout == Layout38to310 then [RawLong] + ([RawLong] + ([RawLong] + ([RawLong] + MainKinds(layout))))
    else [RawLong] + ([RawLong] + ([RawLong] + MainKinds(layout)))
  }

  lemma MainSchedule(layout: Layout)
    ensures (MainKinds(layout) == [RawLong, RawLong, Object, Object, Object, Object, Object, Object, Object, Object, RawLong, Object]
                                  + if layout == Layout311plus then [Object] else [])
  {
    var ending := if layout == Layout311plus then [Object] else [];
    assert LastKinds(layout) == [RawLong, Object] + ending;
    assert LabelKinds(layout) == [Object, Object, Object, RawLong, Object] + ending;
  }

  lemma PlainSchedule(layout: Layout)
    requires layout == Layout37 || layout == Layout311plus
    ensures AllKinds(layout) == Schedule(layout)
  {
    hide MainKinds;
    MainSchedule(layout);
    assert AllKinds(layout) == [RawLong, RawLong, RawLong] + MainKinds(layout);
  }

  lemma PositionalSchedule()
    ensures AllKinds(Layout38to310) == Schedule(Layout38to310)
  {
    hide MainKinds;
    MainSchedule(Layout38to310);
    assert AllKinds(Layout38to310) == [RawLong, RawLong, RawLong, RawLong] + MainKinds(Layout38to310);
  }

  /** The order of the fields is the decoder's schedule. */
  lemma KindsAreTheSchedule(layout: Layout)
    requires layout != LayoutUnknown
    ensures AllKinds(layout) == Schedule(layout)
  {
    hide AllKinds, Schedule;
    if layout == Layout38to310 {
      PositionalSchedule();
    } else {
      PlainSchedule(layout);
    }
  }

  lemma LastAgrees(c: PyCodeFields, layout: Layout)
    requires CodeWritable(c, layout) && CodeAgrees(c, layout)
    ensures FieldsAgree(LastFields(c, layout), LastKinds(layout), WriteLast(c, layout), layout)
  {
    hide Agrees, FieldsAgree, Write, Writable, TreeOf, Le32;
    NoFields(layout);
    if layout == Layout311plus {
      ObjectFirst(c.exceptions, Done, [], [], layout);
      assert Write(c.exceptions, layout) + [] == Write(c.exceptions, layout);
      ObjectFirst(c.lines, ObjectField(TreeOf(c.exceptions, layout), Done), [Object] + [], Write(c.exceptions, layout), layout);
    } else {
      ObjectFirst(c.lines, Done, [], [], layout);
    }
    RawFirst(c.firstLine, LastFields(c, layout).rest, LastKinds(layout)[1..], WriteLast(c, layout)[|Le32(c.firstLine)|..], layout);
  }

  lemma ThreeObjects(p: PyObject, q: PyObject, r: PyObject, fs: FieldList, kinds: seq<FieldKind>, bytes: seq<byte>, layout: Layout)
    requires Writable(p, layout) && Writable(q, layout) && Writable(r, layout)
    requires Agrees(p, layout) && Agrees(q, layout) && Agrees(r, layout) && FieldsAgree(fs, kinds, bytes, layout)
    ensures FieldsAgree(ObjectField(TreeOf(p, layout), ObjectField(TreeOf(q, layout), ObjectField(TreeOf(r, layout), fs))),
                        [Object] + ([Object] + ([Object] + kinds)),
                        Write(p, layout) + (Write(q, layout) + (Write(r, layout) + bytes)), layout)
  {
    hide Agrees, FieldsAgree, Write, Writable, TreeOf;
    ObjectFirst(r, fs, kinds, bytes, layout);
    var fr, br := ObjectField(TreeOf(r, layout), fs), Write(r, layout) + bytes;
    ObjectFirst(q, fr, [Object] + kinds, br, layout);
    ObjectFirst(p, ObjectField(TreeOf(q, layout), fr), [Object] + ([Object] + kinds), Write(q, layout) + br, layout);
  }

  lemma LabelsAgree(c: PyCodeFields, layout: Layout)
    requires CodeWritable(c, layout) && CodeAgrees(c, layout)
    ensures FieldsAgree(LabelFields(c, layout), LabelKinds(layout), WriteLabels(c, layout), layout)
  {
    hide Agrees, FieldsAgree, Write, Writable, TreeOf, LastFields, WriteLast, LastKinds;
    LastAgrees(c, layout);
    if layout == Layout311plus {
      ThreeObjects(c.filename, c.name, c.qualname, LastFields(c, layout), LastKinds(layout), WriteLast(c, layout), layout);
    } else {
      ThreeObjects(c.cells, c.filename, c.name, LastFields(c, layout), LastKinds(layout), WriteLast(c, layout), layout);
    }
  }

  lemma MainAgrees(c: PyCodeFields, layout: Layout)
    requires CodeWritable(c, layout) && CodeAgrees(c, layout)
    ensures FieldsAgree(MainFields(c, layout), MainKinds(layout), WriteMain(c, layout), layout)
  {
    hide Agrees, FieldsAgree, Write, Writable, TreeOf, LabelFields, WriteLabels, LabelKinds, Le32;
    LabelsAgree(c, layout);
    var k0, b0, f0 := LabelKinds(layout), WriteLabels(c, layout), LabelFields(c, layout);
    ObjectFirst(c.kindsOrFree, f0, k0, b0, layout);
    var k1, b1, f1 := [Object] + k0, Write(c.kindsOrFree, layout) + b0, ObjectField(TreeOf(c.kindsOrFree, layout), f0);
    ObjectFirst(c.variables, f1, k1, b1, layout);
    var k2, b2, f2 := [Object] + k1, Write(c.variables, layout) + b1, ObjectField(TreeOf(c.variables, layout), f1);
    ThreeObjects(c.bytecode, c.consts, c.names, f2, k2, b2, layout);
    var k3 := [Object] + ([Object] + ([Object] + k2));
    var b3 := Write(c.bytecode, layout) + (Write(c.consts, layout) + (Write(c.names, layout) + b2));
    var f3 := ObjectField(TreeOf(c.bytecode, layout), ObjectField(TreeOf(c.consts, layout), ObjectField(TreeOf(c.names, layout), f2)));
    RawFirst(c.flags, f3, k3, b3, layout);
    RawFirst(c.stackSize, RawField(c.flags, f3), [RawLong] + k3, Le32(c.flags) + b3, layout);
  }

  lemma CodeFieldsAgree(c: PyCodeFields, layout: Layout)
    requires layout != LayoutUnknown && CodeWritable(c, layout) && CodeAgrees(c, layout)
    ensures FieldsAgree(FieldsOf(c, layout), Schedule(layout), WriteCode(c, layout), layout)
  {
    hide FieldsAgree, Writable, MainFields, WriteMain, MainKinds, Le32, Schedule, CodeAgrees;
    MainAgrees(c, layout);
    KindsAreTheSchedule(layout);
    var k0, b0, f0 := MainKinds(layout), WriteMain(c, layout), MainFields(c, layout);
    var x := if layout == Layout311plus then c.kwOnlyArgCount else c.localCount;
    var y := if layout == Layout311plus then c.posOnlyArgCount else c.kwOnlyArgCount;
    RawFirst(x, f0, k0, b0, layout);
    var k1, b1, f1 := [RawLong] + k0, Le32(x) + b0, RawField(x, f0);
    RawFirst(y, f1, k1, b1, layout);
    var k2, b2, f2 := [RawLong] + k1, Le32(y) + b1, RawField(y, f1);
    if layout == Layout38to310 {
      RawFirst(c.posOnlyArgCount, f2, k2, b2, layout);
      RawFirst(c.argCount, RawField(c.posOnlyArgCount, f2), [RawLong] + k2, Le32(c.posOnlyArgCount) + b2, layout);
    } else {
      RawFirst(c.argCount, f2, k2, b2, layout);
    }
  }

  /** What follows the type byte agrees. */
  ghost predicate ContentAgrees(p: PyObject, layout: Layout)
    requires Writable(p, layout)
  {
    var body, kind := BodyOf(p, layout), KindOf(TypeByte(p.content));
    BodyFits(body, kind, layout) && EncodeBody(body, kind, layout) == WriteContent(p, layout)
  }

  lemma ScalarAgrees(p: PyObject, layout: Layout)
    requires Writable(p, layout) && !p.content.PyDict? && !p.content.PyCode?
    requires !p.content.PySmallTuple? && !p.content.PyTuple? && !p.content.PyListObject? && !p.content.PySet? && !p.content.PyFrozenSet?
    ensures ContentAgrees(p, layout)
  {
    hide KindOf, Le32;
    TypeByteKind(p.content);
  }

  lemma RunAgrees(p: PyObject, l: PyList, layout: Layout)
    requires Writable(p, layout) && AllWritable(l, layout)
    requires p.content in {PySmallTuple(l), PyTuple(l), PyListObject(l), PySet(l), PyFrozenSet(l)}
    requires NodesWf(TreesOf(l, layout), layout) && EncodeNodes(TreesOf(l, layout), layout) == WriteList(l, layout)
    requires Length(TreesOf(l, layout)) == Count(l)
    ensures ContentAgrees(p, layout)
  {
    hide KindOf, Le32, TreesOf, WriteList, NodesWf, EncodeNodes, Count, Length;
    TypeByteKind(p.content);
  }

  lemma {:induction false} EncodingAgrees(p: PyObject, layout: Layout)
    requires Writable(p, layout)
    ensures Agrees(p, layout)
    decreases p, 1
  {
    hide KindOf, BodyFits, EncodeBody, BodyOf, WriteContent;
    BodyAgrees(p, layout);
  }

  lemma {:induction false} BodyAgrees(p: PyObject, layout: Layout)
    requires Writable(p, layout)
    ensures ContentAgrees(p, layout)
    decreases p, 0
  {
    hide KindOf, ContentAgrees;
    match p.content
    case PySmallTuple(l) => ListAgrees(l, layout); RunAgrees(p, l, layout);
    case PyTuple(l) => ListAgrees(l, layout); RunAgrees(p, l, layout);
    case PyListObject(l) => ListAgrees(l, layout); RunAgrees(p, l, layout);
    case PySet(l) => ListAgrees(l, layout); RunAgrees(p, l, layout);
    case PyFrozenSet(l) => ListAgrees(l, layout); RunAgrees(p, l, layout);
    case PyDict(es) => EntriesAgree(es, layout); DictAgrees(p, es, layout);
    case PyCode(c) => CodeAgreesThroughout(c, layout); CodeFieldsAgree(c, layout); CodeContentAgrees(p, c, layout);
    case _ => ScalarAgrees(p, layout);
  }

  lemma DictAgrees(p: PyObject, es: PyEntries, layout: Layout)
    requires Writable(p, layout) && p.content == PyDict(es)
    requires EntriesWf(EntriesOf(es, layout), layout) && EncodeEntries(EntriesOf(es, layout), layout) == WriteEntries(es, layout)
    ensures ContentAgrees(p, layout)
  {
    hide KindOf, EntriesOf, WriteEntries, EntriesWf, EncodeEntries;
    TypeByteKind(p.content);
  }

  lemma CodeContentAgrees(p: PyObject, c: PyCodeFields, layout: Layout)
    requires Writable(p, layout) && p.content == PyCode(c)
    requires FieldsAgree(FieldsOf(c, layout), Schedule(layout), WriteCode(c, layout), layout)
    ensures ContentAgrees(p, layout)
  {
    hide KindOf, Schedule, FieldsOf, WriteCode, FieldsWf, EncodeFields;
    TypeByteKind(p.content);
  }

  /** What follows each type byte. */
  function KindByName(c: Content): Kind {
    match c
    case PyNull => NullKind
    case PyInt(_) => Fixed(4)
    case PyInt64(_) => Fixed(8)
    case PyLong(_, _) => Long
    case PyFloat(_) => Float
    case PyBinaryFloat(_) => Fixed(8)
    case PyComplex(_, _) => Complex
    case PyBinaryComplex(_) => Fixed(16)
    case PyBytes(_) => RawString
    case PyInterned(_) => Text
    case PyUnicode(_) => Text
    case PyAscii(_) => Text
    case PyAsciiInterned(_) => Text
    case PyShortAscii(_) => ShortText
    case PyShortAsciiInterned(_) => ShortText
    case PySmallTuple(_) => SmallTuple
    case PyTuple(_) => Sequence
    case PyListObject(_) => Sequence
    case PySet(_) => SetKind
    case PyFrozenSet(_) => SetKind
    case PyDict(_) => Dict
    case PyCode(_) => Code
    case PyReference(_) => BackReference
    case _ => NoneKind
  }

  predicate IsNumber(c: Content) {
    c.PyInt? || c.PyInt64? || c.PyLong? || c.PyFloat? || c.PyBinaryFloat? || c.PyComplex? || c.PyBinaryComplex?
  }

  predicate IsText(c: Content) {
    c.PyBytes? || c.PyInterned? || c.PyUnicode? || c.PyAscii? || c.PyAsciiInterned? || c.PyShortAscii? || c.PyShortAsciiInterned?
  }

  lemma NumberKind(c: Content)
    requires IsNumber(c)
    ensures KindOf(TypeByte(c)) == KindByName(c)
  {
  }

  lemma TextKind(c: Content)
    requires IsText(c)
    ensures KindOf(TypeByte(c)) == KindByName(c)
  {
  }

  lemma OtherKind(c: Content)
    requires !IsNumber(c) && !IsText(c)
    ensures KindOf(TypeByte(c)) == KindByName(c)
  {
  }

  /** The decoder's table of type bytes is this one. */
  lemma TypeByteKind(c: Content)
    ensures KindOf(TypeByte(c)) == KindByName(c)
  {
    hide KindOf, TypeByte, KindByName;
    if IsNumber(c) {
      NumberKind(c);
    } else if IsText(c) {
      TextKind(c);
    } else {
      OtherKind(c);
    }
  }

  lemma {:induction false} ListAgrees(l: PyList, layout: Layout)
    requires AllWritable(l, layout)
    ensures NodesWf(TreesOf(l, layout), layout) && EncodeNodes(TreesOf(l, layout), layout) == WriteList(l, layout)
    ensures Length(TreesOf(l, layout)) == Count(l)
    decreases l, 0
  {
    hide Write, TreeOf, Encode, Wf;
    match l
    case PyNil =>
    case PyCons(p, tail) =>
      EncodingAgrees(p, layout);
      ListAgrees(tail, layout);
  }

  lemma {:induction false} EntriesAgree(es: PyEntries, layout: Layout)
    requires EntriesWritable(es, layout)
    ensures EntriesWf(EntriesOf(es, layout), layout) && EncodeEntries(EntriesOf(es, layout), layout) == WriteEntries(es, layout)
    decreases es
  {
    hide Write, TreeOf, Wf;
    match es
    case PyEnd(flagged) =>
      EndAgrees(flagged, layout);
    case PyEntry(k, v, rest) =>
      EncodingAgrees(k, layout);
      EncodingAgrees(v, layout);
      EntriesAgree(rest, layout);
  }

  lemma EndAgrees(flagged: bool, layout: Layout)
    ensures var end := Node(flagged, 0x30, Blank); Wf(end, layout) && Encode(end, layout) == [0x30 + Flag(flagged)]
  {
  }

  lemma {:induction false} CodeAgreesThroughout(c: PyCodeFields, layout: Layout)
    requires CodeWritable(c, layout)
    ensures CodeAgrees(c, layout)
    decreases c
  {
    hide Agrees;
    EncodingAgrees(c.bytecode, layout);
    EncodingAgrees(c.consts, layout);
    EncodingAgrees(c.names, layout);
    EncodingAgrees(c.variables, layout);
    EncodingAgrees(c.kindsOrFree, layout);
    EncodingAgrees(c.cells, layout);
    EncodingAgrees(c.filename, layout);
    EncodingAgrees(c.name, layout);
    EncodingAgrees(c.qualname, layout);
    EncodingAgrees(c.lines, layout);
    EncodingAgrees(c.exceptions, layout);
  }

  // ----- Decoding what was written -----

  /** Decoding the bytes written for a Python object, whatever follows them, yields what the object stands for and
      consumes exactly those bytes. */
  lemma DecodeWritten(p: PyObject, tail: seq<byte>, t: Tables, budget: int, depth: int, layout: Layout)
    requires Writable(p, layout) && Eval(TreeOf(p, layout), t).Some?
    requires Objects(TreeOf(p, layout)) <= budget && depth + Height(TreeOf(p, layout)) <= MAX_DEPTH
    ensures (ReadObject(At(Write(p, layout), tail, t, budget), depth, layout)
         == Ok(State(tail, Eval(TreeOf(p, layout), t).value.tables, budget - Objects(TreeOf(p, layout))),
               Eval(TreeOf(p, layout), t).value.value))
  {
    hide Writable, Eval, Objects, Height, ReadObject, Write, TreeOf, Encode, Wf;
    EncodingAgrees(p, layout);
    DecodeEncode(TreeOf(p, layout), tail, t, budget, depth, layout);
  }

  predicate IsString(c: Content) {
    c.PyInterned? || c.PyUnicode? || c.PyAscii? || c.PyAsciiInterned? || c.PyShortAscii? || c.PyShortAsciiInterned?
  }

  predicate IsScalar(c: Content) {
    c.PyNone? || c.PyFalse? || c.PyTrue? || c.PyStopIteration? || c.PyEllipsis? || c.PyInt? || c.PyInt64? || c.PyLong?
    || c.PyFloat? || c.PyBinaryFloat? || c.PyComplex? || c.PyBinaryComplex? || c.PyBytes?
  }

  /** Strings are kept, scalars and byte strings are dropped, a reference stands for the object in its slot. */
  lemma LeavesMean(p: PyObject, t: Tables, layout: Layout)
    requires Writable(p, layout)
    ensures IsString(p.content) ==> Eval(TreeOf(p, layout), t).Some? && Eval(TreeOf(p, layout), t).value.value == Str(p.content.text)
    ensures IsScalar(p.content) ==> Eval(TreeOf(p, layout), t).Some? && Eval(TreeOf(p, layout), t).value.value == None
    ensures p.content.PyNull? ==> Eval(TreeOf(p, layout), t).Some? && Eval(TreeOf(p, layout), t).value.value == Null
    ensures var slots := Reserve(t, p.flagged).refs;
            p.content.PyReference? && p.content.index < |slots| ==>
              Eval(TreeOf(p, layout), t).Some? && Eval(TreeOf(p, layout), t).value.value == slots[p.content.index]
  {
    hide KindOf, Le32;
    TypeByteKind(p.content);
  }

  /** The fields before `MainFields` mean nothing. */
  lemma CountsAreSkipped(c: PyCodeFields, t: Tables, layout: Layout)
    ensures EvalFields(FieldsOf(c, layout), t) == EvalFields(MainFields(c, layout).rest.rest, t)
  {
    hide MainFields;
    var main := MainFields(c, layout);
    assert main.RawField? && main.rest.RawField? by { MainShape(c, layout); }
    assert EvalFields(main, t) == EvalFields(main.rest, t) == EvalFields(main.rest.rest, t);
    var one := RawField(if layout == Layout37 || layout == Layout38to310 then c.localCount else c.kwOnlyArgCount, main);
    assert EvalFields(one, t) == EvalFields(main, t);
    var two := RawField(if layout == Layout37 || layout == Layout38to310 then c.kwOnlyArgCount else c.posOnlyArgCount, one);
    assert EvalFields(two, t) == EvalFields(one, t);
    var three := RawField(if layout == Layout38to310 then c.posOnlyArgCount else c.argCount, two);
    assert EvalFields(three, t) == EvalFields(two, t);
    assert EvalFields(RawField(c.argCount, three), t) == EvalFields(three, t);
  }

  lemma MainShape(c: PyCodeFields, layout: Layout)
    ensures MainFields(c, layout).RawField? && MainFields(c, layout).rest.RawField?
    ensures var objects := MainFields(c, layout).rest.rest;
            objects.ObjectField? && objects.node == TreeOf(c.bytecode, layout)
            && objects.rest.ObjectField? && objects.rest.node == TreeOf(c.consts, layout)
            && objects.rest.rest.ObjectField? && objects.rest.rest.node == TreeOf(c.names, layout)
  {
    hide TreeOf;
  }

  /** In every version a code object keeps its constants, whole, and the strings among its names, and nothing else; it
      comes after all code objects among its fields. */
  lemma CodeKeepsConstsAndNames(p: PyObject, c: PyCodeFields, t: Tables, layout: Layout)
    requires p.content == PyCode(c) && Eval(TreeOf(p, layout), t).Some?
    ensures var m := Eval(TreeOf(p, layout), t).value;
            var bytecode := Eval(TreeOf(c.bytecode, layout), Reserve(t, p.flagged));
            m.value.CodeRef? && |m.tables.objects| == m.value.id + 1 && bytecode.Some? &&
            var consts := Eval(TreeOf(c.consts, layout), bytecode.value.tables);
            consts.Some? && consts.value.value.Items? &&
            var names := Eval(TreeOf(c.names, layout), consts.value.tables);
            names.Some? && names.value.value.Items? &&
            m.tables.objects[m.value.id] == CodeObject(StringsIn(names.value.value.items), consts.value.value.items)
  {
    hide KindOf, TreeOf, FieldsOf, MainFields, EvalFields, StringsIn;
    var t0 := Reserve(t, p.flagged);
    TreeOfCode(p, c, layout);
    CountsAreSkipped(c, t0, layout);
    MainShape(c, layout);
    var fields := MainFields(c, layout).rest.rest;
    FirstField(fields, t0);
    var m0 := Eval(fields.node, t0).value;
    FirstField(fields.rest, m0.tables);
    var m1 := Eval(fields.rest.node, m0.tables).value;
    FirstField(fields.rest.rest, m1.tables);
  }

  lemma TreeOfCode(p: PyObject, c: PyCodeFields, layout: Layout)
    requires p.content == PyCode(c)
    ensures TreeOf(p, layout) == Node(p.flagged, 0x63, Fields(FieldsOf(c, layout)))
  {
  }

  lemma FirstField(fs: FieldList, t: Tables)
    requires fs.ObjectField? && EvalFields(fs, t).Some?
    ensures var first := Eval(fs.node, t);
            first.Some? && EvalFields(fs.rest, first.value.tables).Some?
            && var more := EvalFields(fs.rest, first.value.tables).value;
               EvalFields(fs, t).value == Meaning(more.tables, [first.value.value] + more.value)
  {
  }
}
