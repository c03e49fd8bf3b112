/** Marshalled object trees, their encoding, and what they mean without any reference to bytes.
    The encoder is the specification the decoder is proved against. */
module MarshalTrees {
  import opened Bytes
  import opened Marshal

  datatype Option<+T> = NoValue | Some(value: T)

  /** An object: its reference flag, its type byte without the flag, and what follows it. */
  datatype Node = Node(flagged: bool, tag: byte, body: Body)

  datatype Body =
    | Blank
    | Plain(bytes: seq<byte>)
    | Short(bytes: seq<byte>)
    | Pair(re: seq<byte>, im: seq<byte>)
    | BigInt(n: int, digits: seq<byte>)
    | Counted(bytes: seq<byte>)
    | Listing(nodes: Nodes)
    | Table(entries: Entries)
    | Fields(fields: FieldList)
    | Ref(index: int)

  datatype Nodes = Nil | Cons(head: Node, tail: Nodes)

  datatype Entries = Stop(key: Node) | Entry(key: Node, value: Node, rest: Entries)

  datatype FieldList = Done | RawField(n: int, rest: FieldList) | ObjectField(node: Node, rest: FieldList)

  function Length(ns: Nodes): nat {
    match ns case Nil => 0 case Cons(_, tail) => 1 + Length(tail)
  }

  function Max(a: nat, b: nat): nat { if a < b then b else a }

  // ----- Which trees a layout can write -----

  predicate Wf(n: Node, layout: Layout) {
    n.tag < 128 && BodyFits(n.body, KindOf(n.tag), layout)
  }

  predicate BodyFits(b: Body, kind: Kind, layout: Layout) {
    match b
    case Blank => kind.NullKind? || kind.NoneKind?
    case Plain(p) => kind.Fixed? && |p| == kind.width
    case Short(p) => (kind.Float? || kind.ShortText?) && |p| < 256
    case Pair(re, im) => kind.Complex? && |re| < 256 && |im| < 256
    case BigInt(n, digits) => kind.Long? && -TWO31 <= n < TWO31 && |digits| == 2 * (if n < 0 then -n else n)
    case Counted(p) => (kind.RawString? || kind.Text?) && |p| < TWO31
    case Listing(ns) =>
      && (kind.SmallTuple? || kind.Sequence? || kind.SetKind?)
      && Length(ns) < (if kind.SmallTuple? then 256 else TWO31)
      && NodesWf(ns, layout)
    case Table(es) => kind.Dict? && EntriesWf(es, layout)
    case Fields(fs) => kind.Code? && layout != LayoutUnknown && FieldsWf(fs, Schedule(layout), layout)
    case Ref(i) => kind.BackReference? && 0 <= i < TWO31
  }

  predicate NodesWf(ns: Nodes, layout: Layout) {
    match ns case Nil => true case Cons(n, tail) => Wf(n, layout) && NodesWf(tail, layout)
  }

  predicate EntriesWf(es: Entries, layout: Layout) {
    match es
    case Stop(k) => Wf(k, layout)
    case Entry(k, v, rest) => Wf(k, layout) && Wf(v, layout) && EntriesWf(rest, layout)
  }

  predicate FieldsWf(fs: FieldList, kinds: seq<FieldKind>, layout: Layout) {
    match fs
    case Done => kinds == []
    case RawField(n, rest) =>
      kinds != [] && kinds[0] == RawLong && -TWO31 <= n < TWO31 && FieldsWf(rest, kinds[1..], layout)
    case ObjectField(n, rest) =>
      kinds != [] && kinds[0] == Object && Wf(n, layout) && FieldsWf(rest, kinds[1..], layout)
  }

  // ----- The encoder -----

  function Encode(n: Node, layout: Layout): seq<byte>
    requires Wf(n, layout)
  {
    [if n.flagged then n.tag + 128 else n.tag] + EncodeBody(n.body, KindOf(n.tag), layout)
  }

  function EncodeBody(b: Body, kind: Kind, layout: Layout): seq<byte>
    requires BodyFits(b, kind, layout)
  {
    match b
    case Blank => []
    case Plain(p) => p
    case Short(p) => [|p|] + p
    case Pair(re, im) => [|re|] + re + ([|im|] + im)
    case BigInt(n, digits) => Le32(n) + digits
    case Counted(p) => Le32(|p|) + p
    case Listing(ns) =>
      (if kind.SmallTuple? then [Length(ns)] else Le32(Length(ns))) + EncodeNodes(ns, layout)
    case Table(es) => EncodeEntries(es, layout)
    case Fields(fs) => EncodeFields(fs, Schedule(layout), layout)
    case Ref(i) => Le32(i)
  }

  function EncodeNodes(ns: Nodes, layout: Layout): seq<byte>
    requires NodesWf(ns, layout)
  {
    match ns case Nil => [] case Cons(n, tail) => Encode(n, layout) + EncodeNodes(tail, layout)
  }

  function EncodeEntries(es: Entries, layout: Layout): seq<byte>
    requires EntriesWf(es, layout)
  {
    match es
    case Stop(k) => Encode(k, layout)
    case Entry(k, v, rest) => Encode(k, layout) + (Encode(v, layout) + EncodeEntries(rest, layout))
  }

  function EncodeFields(fs: FieldList, kinds: seq<FieldKind>, layout: Layout): seq<byte>
    requires FieldsWf(fs, kinds, layout)
  {
    match fs
    case Done => []
    case RawField(n, rest) => Le32(n) + EncodeFields(rest, kinds[1..], layout)
    case ObjectField(n, rest) => Encode(n, layout) + EncodeFields(rest, kinds[1..], layout)
  }

  // ----- Size and height -----

  /** How many objects reading the tree spends. */
  function Objects(n: Node): nat { 1 + BodyObjects(n.body) }

  function BodyObjects(b: Body): nat {
    match b
    case Listing(ns) => NodesObjects(ns)
    case Table(es) => EntriesObjects(es)
    case Fields(fs) => FieldsObjects(fs)
    case _ => 0
  }

  function NodesObjects(ns: Nodes): nat {
    match ns case Nil => 0 case Cons(n, tail) => Objects(n) + NodesObjects(tail)
  }

  function EntriesObjects(es: Entries): nat {
    match es
    case Stop(k) => Objects(k)
    case Entry(k, v, rest) => Objects(k) + Objects(v) + EntriesObjects(rest)
  }

  function FieldsObjects(fs: FieldList): nat {
    match fs
    case Done => 0
    case RawField(_, rest) => FieldsObjects(rest)
    case ObjectField(n, rest) => Objects(n) + FieldsObjects(rest)
  }

  /** How many levels below the root the deepest object lies. */
  function Height(n: Node): nat { BodyHeight(n.body) }

  function BodyHeight(b: Body): nat {
    match b
    case Listing(ns) => NodesHeight(ns)
    case Table(es) => EntriesHeight(es)
    case Fields(fs) => FieldsHeight(fs)
    case _ => 0
  }

  function NodesHeight(ns: Nodes): nat {
    match ns case Nil => 0 case Cons(n, tail) => Max(1 + Height(n), NodesHeight(tail))
  }

  function EntriesHeight(es: Entries): nat {
    match es
    case Stop(k) => 1 + Height(k)
    case Entry(k, v, rest) => Max(1 + Height(k), Max(1 + Height(v), EntriesHeight(rest)))
  }

  function FieldsHeight(fs: FieldList): nat {
    match fs
    case Done => 0
    case RawField(_, rest) => FieldsHeight(rest)
    case ObjectField(n, rest) => Max(1 + Height(n), FieldsHeight(rest))
  }

  // ----- Meaning -----

  datatype Meaning<+V> = Meaning(tables: Tables, value: V)

  /** What a tree stands for, given the tables built by the objects before it: a flagged object takes the
      next slot before its children do, and the slot reads as None until the object is complete. */
  function Eval(n: Node, t: Tables): (m: Option<Meaning<Value>>)
    ensures m.Some? ==> |t.refs| <= |m.value.tables.refs|
  {
    var b := EvalBody(n.body, KindOf(n.tag), Reserve(t, n.flagged));
    if b.NoValue? then NoValue
    else Some(Meaning(Fill(b.value.tables, |t.refs|, n.flagged, b.value.value), b.value.value))
  }

  function EvalBody(b: Body, kind: Kind, t: Tables): (m: Option<Meaning<Value>>)
    ensures m.Some? ==> |t.refs| <= |m.value.tables.refs|
  {
    match b
    case Blank => Some(Meaning(t, if kind.NullKind? then Null else None))
    case Plain(_) => Some(Meaning(t, None))
    case Short(p) => Some(Meaning(t, if kind.ShortText? then Str(p) else None))
    case Pair(_, _) => Some(Meaning(t, None))
    case BigInt(_, _) => Some(Meaning(t, None))
    case Counted(p) => Some(Meaning(t, if kind.Text? then Str(p) else None))
    case Listing(ns) =>
      var r := EvalNodes(ns, t);
      if r.NoValue? then NoValue
      else Some(Meaning(r.value.tables, if kind.SetKind? then None else Items(r.value.value)))
    case Table(es) => EvalEntries(es, t)
    case Fields(fs) =>
      var r := EvalFields(fs, t);
      if r.NoValue? then NoValue
      else
        var v := r.value.value;
        if |v| < 3 || !v[1].Items? || !v[2].Items? then NoValue
        else Some(Meaning(NewCode(r.value.tables, v), CodeRef(|r.value.tables.objects|)))
    case Ref(i) => if 0 <= i < |t.refs| then Some(Meaning(t, t.refs[i])) else NoValue
  }

  function EvalNodes(ns: Nodes, t: Tables): (m: Option<Meaning<seq<Value>>>)
    ensures m.Some? ==> |t.refs| <= |m.value.tables.refs|
  {
    match ns
    case Nil => Some(Meaning(t, []))
    case Cons(n, tail) =>
      var v := Eval(n, t);
      if v.NoValue? then NoValue
      else
        var more := EvalNodes(tail, v.value.tables);
        if more.NoValue? then NoValue
        else Some(Meaning(more.value.tables, [v.value.value] + more.value.value))
  }

  /** A dict is dropped; it must end at its first key that means NULL. */
  function EvalEntries(es: Entries, t: Tables): (m: Option<Meaning<Value>>)
    ensures m.Some? ==> |t.refs| <= |m.value.tables.refs|
  {
    match es
    case Stop(k) =>
      var key := Eval(k, t);
      if key.Some? && key.value.value == Null then Some(Meaning(key.value.tables, None)) else NoValue
    case Entry(k, v, rest) =>
      var key := Eval(k, t);
      if key.NoValue? || key.value.value == Null then NoValue
      else
        var val := Eval(v, key.value.tables);
        if val.NoValue? then NoValue else EvalEntries(rest, val.value.tables)
  }

  function EvalFields(fs: FieldList, t: Tables): (m: Option<Meaning<seq<Value>>>)
    ensures m.Some? ==> |t.refs| <= |m.value.tables.refs|
  {
    match fs
    case Done => Some(Meaning(t, []))
    case RawField(_, rest) => EvalFields(rest, t)
    case ObjectField(n, rest) =>
      var v := Eval(n, t);
      if v.NoValue? then NoValue
      else
        var more := EvalFields(rest, v.value.tables);
        if more.NoValue? then NoValue
        else Some(Meaning(more.value.tables, [v.value.value] + more.value.value))
  }
}
