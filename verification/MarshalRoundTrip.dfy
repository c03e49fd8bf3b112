/** The decoder undoes the encoder, and accepts nothing but encodings. */
module MarshalRoundTrip {
  import opened Bytes
  import opened Marshal
  import opened MarshalTrees

  /** `input` followed by anything: the state a read starts from. */
  function At(input: seq<byte>, tail: seq<byte>, t: Tables, budget: int): State {
    State(input + tail, t, budget)
  }

  // ----- Raw reads undo raw writes -----

  lemma ReadNConcat(p: seq<byte>, tail: seq<byte>, t: Tables, budget: int)
    ensures ReadN(At(p, tail, t, budget), |p|) == Ok(State(tail, t, budget), p)
  {
    assert (p + tail)[|p|..] == tail && (p + tail)[..|p|] == p;
  }

  lemma ReadInt32Concat(n: int, tail: seq<byte>, t: Tables, budget: int)
    requires -TWO31 <= n < TWO31
    ensures ReadInt32(At(Le32(n), tail, t, budget)) == Ok(State(tail, t, budget), n)
  {
    ReadNConcat(Le32(n), tail, t, budget);
    FromLe32OfLe32(n);
  }

  lemma ReadByteConcat(b: byte, tail: seq<byte>, t: Tables, budget: int)
    ensures ReadByte(At([b], tail, t, budget)) == Ok(State(tail, t, budget), b)
  {
    assert ([b] + tail)[1..] == tail;
  }

  lemma Counted8Concat(p: seq<byte>, tail: seq<byte>, t: Tables, budget: int)
    requires |p| < 256
    ensures Counted8(At([|p|] + p, tail, t, budget)) == Ok(State(tail, t, budget), p)
  {
    assert [|p|] + p + tail == [|p|] + (p + tail);
    ReadByteConcat(|p|, p + tail, t, budget);
    ReadNConcat(p, tail, t, budget);
  }

  lemma Counted32Concat(p: seq<byte>, tail: seq<byte>, t: Tables, budget: int)
    requires |p| < TWO31
    ensures Counted32(At(Le32(|p|) + p, tail, t, budget)) == Ok(State(tail, t, budget), p)
  {
    assert Le32(|p|) + p + tail == Le32(|p|) + (p + tail);
    ReadInt32Concat(|p|, p + tail, t, budget);
    ReadNConcat(p, tail, t, budget);
  }

  lemma Assoc(a: seq<byte>, b: seq<byte>, tail: seq<byte>)
    ensures a + b + tail == a + (b + tail)
  {
  }

  lemma Assoc3(a: seq<byte>, b: seq<byte>, c: seq<byte>, tail: seq<byte>)
    ensures a + (b + c) + tail == a + (b + (c + tail))
  {
  }

  // ----- Decode after encode -----

  lemma ObjectStep(flagged: bool, tag: byte, rest: seq<byte>, t: Tables, budget: int, body: Result<Value>, depth: int,
                   layout: Layout)
    requires tag < 128 && depth <= MAX_DEPTH && budget > 0
    requires body == ReadBody(State(rest, Reserve(t, flagged), budget - 1), KindOf(tag), depth, layout) && body.Ok?
    ensures ReadObject(State([if flagged then tag + 128 else tag] + rest, t, budget), depth, layout)
         == Ok(body.st.(tables := Fill(body.st.tables, |t.refs|, flagged, body.value)), body.value)
  {
    hide ReadBody, KindOf;
    ReadByteConcat(if flagged then tag + 128 else tag, rest, t, budget - 1);
  }

  /** Reading the encoding of a tree, whatever bytes follow it, yields the tree's meaning, consumes exactly
      the encoding, and spends exactly the tree's objects. */
  lemma {:induction false} DecodeEncode(n: Node, tail: seq<byte>, t: Tables, budget: int, depth: int, layout: Layout)
    requires Wf(n, layout) && Eval(n, t).Some?
    requires Objects(n) <= budget && depth + Height(n) <= MAX_DEPTH
    ensures ReadObject(At(Encode(n, layout), tail, t, budget), depth, layout)
         == Ok(State(tail, Eval(n, t).value.tables, budget - Objects(n)), Eval(n, t).value.value)
    decreases n, 1
  {
    hide ReadObject, ReadBody, EvalBody, EncodeBody, KindOf, BodyObjects, BodyHeight;
    var kind := KindOf(n.tag);
    var rest := EncodeBody(n.body, kind, layout) + tail;
    assert Encode(n, layout) + tail == [if n.flagged then n.tag + 128 else n.tag] + rest;
    DecodeEncodeBody(n.body, kind, tail, Reserve(t, n.flagged), budget - 1, depth, layout);
    ObjectStep(n.flagged, n.tag, rest, t, budget, ReadBody(State(rest, Reserve(t, n.flagged), budget - 1), kind, depth, layout),
               depth, layout);
  }

  lemma {:induction false} DecodeEncodeBody(b: Body, kind: Kind, tail: seq<byte>, t: Tables, budget: int, depth: int,
                                            layout: Layout)
    requires BodyFits(b, kind, layout) && EvalBody(b, kind, t).Some?
    requires BodyObjects(b) <= budget && depth + BodyHeight(b) <= MAX_DEPTH
    ensures ReadBody(At(EncodeBody(b, kind, layout), tail, t, budget), kind, depth, layout)
         == Ok(State(tail, EvalBody(b, kind, t).value.tables, budget - BodyObjects(b)), EvalBody(b, kind, t).value.value)
    decreases b, 1
  {
    hide ReadBody, EvalBody, EncodeBody, EntriesRead, FieldsRead, Schedule;
    match b
    case Listing(ns) =>
      EvalListing(ns, kind, t);
      DecodeEncodeListing(ns, kind, tail, t, budget, depth, layout);
    case Table(es) =>
      DecodeEncodeEntries(es, tail, t, budget, depth, layout);
      TableRead(es, kind, tail, t, budget, depth, layout);
    case Fields(fs) =>
      DecodeEncodeFields(fs, Schedule(layout), tail, t, budget, depth, layout);
      CodeRead(fs, kind, tail, t, budget, depth, layout);
    case _ => DecodeEncodeLeaf(b, kind, tail, t, budget, depth, layout);
  }

  lemma EvalListing(ns: Nodes, kind: Kind, t: Tables)
    requires EvalBody(Listing(ns), kind, t).Some?
    ensures EvalNodes(ns, t).Some? && EvalBody(Listing(ns), kind, t).value.tables == EvalNodes(ns, t).value.tables
  {
  }

  lemma TableRead(es: Entries, kind: Kind, tail: seq<byte>, t: Tables, budget: int, depth: int, layout: Layout)
    requires BodyFits(Table(es), kind, layout) && EvalBody(Table(es), kind, t).Some?
    requires EntriesRead(es, tail, t, budget, depth, layout)
    ensures ReadBody(At(EncodeBody(Table(es), kind, layout), tail, t, budget), kind, depth, layout)
         == Ok(State(tail, EvalBody(Table(es), kind, t).value.tables, budget - EntriesObjects(es)),
               EvalBody(Table(es), kind, t).value.value)
  {
    hide ReadEntries, EvalEntries, EncodeEntries, EntriesWf, EntriesObjects;
  }

  lemma CodeRead(fs: FieldList, kind: Kind, tail: seq<byte>, t: Tables, budget: int, depth: int, layout: Layout)
    requires BodyFits(Fields(fs), kind, layout) && EvalBody(Fields(fs), kind, t).Some?
    requires FieldsRead(fs, Schedule(layout), tail, t, budget, depth, layout)
    ensures ReadBody(At(EncodeBody(Fields(fs), kind, layout), tail, t, budget), kind, depth, layout)
         == Ok(State(tail, EvalBody(Fields(fs), kind, t).value.tables, budget - FieldsObjects(fs)),
               EvalBody(Fields(fs), kind, t).value.value)
  {
    hide ReadFields, EvalFields, EncodeFields, FieldsWf, FieldsObjects, StringsIn, Schedule;
  }

  lemma DecodeEncodePair(b: Body, kind: Kind, tail: seq<byte>, t: Tables, budget: int, depth: int, layout: Layout)
    requires b.Pair? && BodyFits(b, kind, layout) && EvalBody(b, kind, t).Some?
    ensures ReadBody(At(EncodeBody(b, kind, layout), tail, t, budget), kind, depth, layout)
         == Ok(State(tail, EvalBody(b, kind, t).value.tables, budget), EvalBody(b, kind, t).value.value)
  {
    hide ReadItems, ReadEntries, ReadFields, ReadObject, FromLe32, Le32;
    var re, im := b.re, b.im;
    var second := [|im|] + im;
    assert [|re|] + re + second + tail == [|re|] + re + (second + tail);
    Counted8Concat(re, second + tail, t, budget);
    Counted8Concat(im, tail, t, budget);
  }

  lemma DecodeEncodeBigInt(b: Body, kind: Kind, tail: seq<byte>, t: Tables, budget: int, depth: int, layout: Layout)
    requires b.BigInt? && BodyFits(b, kind, layout) && EvalBody(b, kind, t).Some?
    ensures ReadBody(At(EncodeBody(b, kind, layout), tail, t, budget), kind, depth, layout)
         == Ok(State(tail, EvalBody(b, kind, t).value.tables, budget), EvalBody(b, kind, t).value.value)
  {
    hide ReadItems, ReadEntries, ReadFields, ReadObject, FromLe32, Le32;
    var n, digits := b.n, b.digits;
    assert Le32(n) + digits + tail == Le32(n) + (digits + tail);
    ReadInt32Concat(n, digits + tail, t, budget);
    ReadNConcat(digits, tail, t, budget);
  }

  lemma DecodeEncodeLeaf(b: Body, kind: Kind, tail: seq<byte>, t: Tables, budget: int, depth: int, layout: Layout)
    requires !b.Listing? && !b.Table? && !b.Fields?
    requires BodyFits(b, kind, layout) && EvalBody(b, kind, t).Some?
    ensures ReadBody(At(EncodeBody(b, kind, layout), tail, t, budget), kind, depth, layout)
         == Ok(State(tail, EvalBody(b, kind, t).value.tables, budget), EvalBody(b, kind, t).value.value)
  {
    hide ReadItems, ReadEntries, ReadFields, ReadObject, FromLe32, Le32;
    match b
    case Blank => assert [] + tail == tail;
    case Plain(p) => ReadNConcat(p, tail, t, budget);
    case Short(p) => Counted8Concat(p, tail, t, budget);
    case Pair(_, _) => DecodeEncodePair(b, kind, tail, t, budget, depth, layout);
    case BigInt(_, _) => DecodeEncodeBigInt(b, kind, tail, t, budget, depth, layout);
    case Counted(p) => Counted32Concat(p, tail, t, budget);
    case Ref(i) => ReadInt32Concat(i, tail, t, budget);
  }

  lemma {:induction false} DecodeEncodeListing(ns: Nodes, kind: Kind, tail: seq<byte>, t: Tables, budget: int,
                                               depth: int, layout: Layout)
    requires BodyFits(Listing(ns), kind, layout) && EvalNodes(ns, t).Some?
    requires NodesObjects(ns) <= budget && depth + NodesHeight(ns) <= MAX_DEPTH
    ensures ReadBody(At(EncodeBody(Listing(ns), kind, layout), tail, t, budget), kind, depth, layout)
         == Ok(State(tail, EvalNodes(ns, t).value.tables, budget - NodesObjects(ns)),
               EvalBody(Listing(ns), kind, t).value.value)
    decreases ns, 1
  {
    hide ReadItems, EvalNodes, EncodeNodes, NodesObjects, NodesHeight, Le32, FromLe32;
    var items := EncodeNodes(ns, layout);
    DecodeEncodeNodes(ns, tail, t, budget, depth, layout);
    if kind.SmallTuple? {
      assert [Length(ns)] + items + tail == [Length(ns)] + (items + tail);
      ReadByteConcat(Length(ns), items + tail, t, budget);
    } else {
      assert Le32(Length(ns)) + items + tail == Le32(Length(ns)) + (items + tail);
      ReadInt32Concat(Length(ns), items + tail, t, budget);
    }
  }

  lemma NoItems(st: State, depth: int, layout: Layout)
    ensures ReadItems(st, 0, depth, layout) == Ok(st, [])
  {
  }

  lemma ItemsStep(st: State, first: Result<Value>, more: Result<seq<Value>>, n: nat, depth: int, layout: Layout)
    requires first == ReadObject(st, depth + 1, layout) && first.Ok?
    requires more == ReadItems(first.st, n, depth, layout) && more.Ok?
    ensures ReadItems(st, n + 1, depth, layout) == Ok(more.st, [first.value] + more.value)
  {
  }

  lemma {:induction false} DecodeEncodeNodes(ns: Nodes, tail: seq<byte>, t: Tables, budget: int, depth: int,
                                             layout: Layout)
    requires NodesWf(ns, layout) && EvalNodes(ns, t).Some?
    requires NodesObjects(ns) <= budget && depth + NodesHeight(ns) <= MAX_DEPTH
    ensures ReadItems(At(EncodeNodes(ns, layout), tail, t, budget), Length(ns), depth, layout)
         == Ok(State(tail, EvalNodes(ns, t).value.tables, budget - NodesObjects(ns)), EvalNodes(ns, t).value.value)
    decreases ns, 0
  {
    hide ReadObject, ReadItems, Eval, Encode, Objects, Height;
    match ns
    case Nil =>
      assert [] + tail == tail;
      NoItems(State(tail, t, budget), depth, layout);
    case Cons(n, rest) =>
      var after := EncodeNodes(rest, layout);
      var m := Eval(n, t).value;
      Assoc(Encode(n, layout), after, tail);
      DecodeEncode(n, after + tail, t, budget, depth + 1, layout);
      DecodeEncodeNodes(rest, tail, m.tables, budget - Objects(n), depth, layout);
      var first := Ok(State(after + tail, m.tables, budget - Objects(n)), m.value);
      ItemsStep(At(EncodeNodes(ns, layout), tail, t, budget), first,
                ReadItems(first.st, Length(rest), depth, layout), Length(rest), depth, layout);
  }

  lemma EntriesStep(st: State, key: Result<Value>, val: Result<Value>, depth: int, layout: Layout)
    requires key == ReadObject(st, depth + 1, layout) && key.Ok? && key.value != Null
    requires val == ReadObject(key.st, depth + 1, layout) && val.Ok?
    ensures ReadEntries(st, depth, layout) == ReadEntries(val.st, depth, layout)
  {
  }

  lemma EntriesStop(st: State, key: Result<Value>, depth: int, layout: Layout)
    requires key == ReadObject(st, depth + 1, layout) && key.Ok? && key.value == Null
    ensures ReadEntries(st, depth, layout) == Ok(key.st, None)
  {
  }

  ghost predicate EntriesRead(es: Entries, tail: seq<byte>, t: Tables, budget: int, depth: int, layout: Layout)
    requires EntriesWf(es, layout)
  {
    var m := EvalEntries(es, t);
    m.Some? ==>
      ReadEntries(At(EncodeEntries(es, layout), tail, t, budget), depth, layout)
        == Ok(State(tail, m.value.tables, budget - EntriesObjects(es)), m.value.value)
  }

  lemma {:induction false} DecodeEncodeEntries(es: Entries, tail: seq<byte>, t: Tables, budget: int, depth: int,
                                               layout: Layout)
    requires EntriesWf(es, layout)
    requires EntriesObjects(es) <= budget && depth + EntriesHeight(es) <= MAX_DEPTH
    ensures EntriesRead(es, tail, t, budget, depth, layout)
    decreases es, 1
  {
    hide ReadObject, ReadEntries, Eval, Encode, Objects, Height;
    var key := Eval(es.key, t);
    match es
    case Stop(k) =>
      if key.Some? && key.value.value == Null {
        DecodeEncode(k, tail, t, budget, depth + 1, layout);
        EntriesStop(At(Encode(k, layout), tail, t, budget),
                    Ok(State(tail, key.value.tables, budget - Objects(k)), key.value.value), depth, layout);
      }
    case Entry(k, v, rest) =>
      if key.Some? && key.value.value != Null && Eval(v, key.value.tables).Some? {
        var val := Eval(v, key.value.tables).value;
        DecodeEncodeEntry(es, EncodeEntries(rest, layout) + tail, t, key.value, val, budget, depth, layout);
        DecodeEncodeEntries(rest, tail, val.tables, budget - Objects(k) - Objects(v), depth, layout);
        EntryReads(es, tail, t, key.value, val, budget, depth, layout);
      }
  }

  lemma EntryReads(es: Entries, tail: seq<byte>, t: Tables, key: Meaning<Value>, val: Meaning<Value>, budget: int,
                   depth: int, layout: Layout)
    requires es.Entry? && EntriesWf(es, layout)
    requires Eval(es.key, t) == Some(key) && key.value != Null && Eval(es.value, key.tables) == Some(val)
    requires var after := EncodeEntries(es.rest, layout) + tail;
             var st := State(Encode(es.key, layout) + (Encode(es.value, layout) + after), t, budget);
             var st' := State(after, val.tables, budget - Objects(es.key) - Objects(es.value));
             ReadEntries(st, depth, layout) == ReadEntries(st', depth, layout)
    requires EntriesRead(es.rest, tail, val.tables, budget - Objects(es.key) - Objects(es.value), depth, layout)
    ensures EntriesRead(es, tail, t, budget, depth, layout)
  {
    hide ReadObject, ReadEntries, Eval, Encode, Objects, Height;
    Assoc3(Encode(es.key, layout), Encode(es.value, layout), EncodeEntries(es.rest, layout), tail);
  }

  lemma {:induction false} DecodeEncodeEntry(es: Entries, after: seq<byte>, t: Tables, key: Meaning<Value>,
                                             val: Meaning<Value>, budget: int, depth: int, layout: Layout)
    requires es.Entry? && Wf(es.key, layout) && Wf(es.value, layout)
    requires Eval(es.key, t) == Some(key) && key.value != Null && Eval(es.value, key.tables) == Some(val)
    requires Objects(es.key) + Objects(es.value) <= budget
    requires depth + 1 + Height(es.key) <= MAX_DEPTH && depth + 1 + Height(es.value) <= MAX_DEPTH
    ensures var st := State(Encode(es.key, layout) + (Encode(es.value, layout) + after), t, budget);
            var st' := State(after, val.tables, budget - Objects(es.key) - Objects(es.value));
            ReadEntries(st, depth, layout) == ReadEntries(st', depth, layout)
    decreases es, 0
  {
    hide ReadObject, ReadEntries, Eval, Encode, Objects, Height;
    var mid := State(Encode(es.value, layout) + after, key.tables, budget - Objects(es.key));
    var k := DecodeKey(es, mid.rest, t, key, budget, depth, layout);
    var v := DecodeValue(es, after, key, val, mid.budget, depth, layout);
    EntriesStep(State(Encode(es.key, layout) + mid.rest, t, budget), k, v, depth, layout);
  }

  lemma {:induction false} DecodeKey(es: Entries, after: seq<byte>, t: Tables, key: Meaning<Value>, budget: int,
                                     depth: int, layout: Layout)
      returns (r: Result<Value>)
    requires es.Entry? && Wf(es.key, layout) && Eval(es.key, t) == Some(key)
    requires Objects(es.key) <= budget && depth + 1 + Height(es.key) <= MAX_DEPTH
    ensures r == ReadObject(State(Encode(es.key, layout) + after, t, budget), depth + 1, layout)
    ensures r == Ok(State(after, key.tables, budget - Objects(es.key)), key.value)
    decreases es.key, 2
  {
    hide ReadObject, Eval, Encode, Objects, Height;
    DecodeEncode(es.key, after, t, budget, depth + 1, layout);
    r := Ok(State(after, key.tables, budget - Objects(es.key)), key.value);
  }

  lemma {:induction false} DecodeValue(es: Entries, after: seq<byte>, key: Meaning<Value>, val: Meaning<Value>,
                                       budget: int, depth: int, layout: Layout)
      returns (r: Result<Value>)
    requires es.Entry? && Wf(es.value, layout) && Eval(es.value, key.tables) == Some(val)
    requires Objects(es.value) <= budget && depth + 1 + Height(es.value) <= MAX_DEPTH
    ensures r == ReadObject(State(Encode(es.value, layout) + after, key.tables, budget), depth + 1, layout)
    ensures r == Ok(State(after, val.tables, budget - Objects(es.value)), val.value)
    decreases es.value, 2
  {
    hide ReadObject, Eval, Encode, Objects, Height;
    DecodeEncode(es.value, after, key.tables, budget, depth + 1, layout);
    r := Ok(State(after, val.tables, budget - Objects(es.value)), val.value);
  }

  lemma RawFieldStep(st: State, fields: seq<FieldKind>, n: Result<int>, depth: int, layout: Layout)
    requires fields != [] && fields[0] == RawLong && n == ReadInt32(st) && n.Ok?
    ensures ReadFields(st, fields, depth, layout) == ReadFields(n.st, fields[1..], depth, layout)
  {
  }

  lemma FieldsStep(st: State, fields: seq<FieldKind>, first: Result<Value>, more: Result<seq<Value>>, depth: int,
                   layout: Layout)
    requires fields != [] && fields[0] == Object
    requires first == ReadObject(st, depth + 1, layout) && first.Ok?
    requires more == ReadFields(first.st, fields[1..], depth, layout) && more.Ok?
    ensures ReadFields(st, fields, depth, layout) == Ok(more.st, [first.value] + more.value)
  {
  }

  ghost predicate FieldsRead(fs: FieldList, kinds: seq<FieldKind>, tail: seq<byte>, t: Tables, budget: int,
                             depth: int, layout: Layout)
    requires FieldsWf(fs, kinds, layout)
  {
    var m := EvalFields(fs, t);
    m.Some? ==>
      ReadFields(At(EncodeFields(fs, kinds, layout), tail, t, budget), kinds, depth, layout)
        == Ok(State(tail, m.value.tables, budget - FieldsObjects(fs)), m.value.value)
  }

  lemma {:induction false} DecodeEncodeFields(fs: FieldList, kinds: seq<FieldKind>, tail: seq<byte>, t: Tables,
                                              budget: int, depth: int, layout: Layout)
    requires FieldsWf(fs, kinds, layout)
    requires FieldsObjects(fs) <= budget && depth + FieldsHeight(fs) <= MAX_DEPTH
    ensures FieldsRead(fs, kinds, tail, t, budget, depth, layout)
    decreases fs, 1
  {
    hide ReadObject, Eval, Encode, Objects, Height;
    match fs
    case Done => assert [] + tail == tail;
    case RawField(n, rest) =>
      DecodeEncodeFields(rest, kinds[1..], tail, t, budget, depth, layout);
      RawFieldReads(fs, kinds, tail, t, budget, depth, layout);
    case ObjectField(n, rest) =>
      ObjectFieldReads(fs, kinds, tail, t, budget, depth, layout);
  }

  lemma RawFieldReads(fs: FieldList, kinds: seq<FieldKind>, tail: seq<byte>, t: Tables, budget: int, depth: int,
                      layout: Layout)
    requires fs.RawField? && FieldsWf(fs, kinds, layout)
    requires FieldsRead(fs.rest, kinds[1..], tail, t, budget, depth, layout)
    ensures FieldsRead(fs, kinds, tail, t, budget, depth, layout)
  {
    hide ReadObject, ReadFields, Eval, Encode, Objects, Height, Le32, FromLe32;
    var after := EncodeFields(fs.rest, kinds[1..], layout);
    Assoc(Le32(fs.n), after, tail);
    ReadInt32Concat(fs.n, after + tail, t, budget);
    RawFieldStep(At(Le32(fs.n), after + tail, t, budget), kinds, Ok(State(after + tail, t, budget), fs.n), depth, layout);
  }

  lemma {:induction false} ObjectFieldReads(fs: FieldList, kinds: seq<FieldKind>, tail: seq<byte>, t: Tables,
                                            budget: int, depth: int, layout: Layout)
    requires fs.ObjectField? && FieldsWf(fs, kinds, layout)
    requires FieldsObjects(fs) <= budget && depth + FieldsHeight(fs) <= MAX_DEPTH
    ensures FieldsRead(fs, kinds, tail, t, budget, depth, layout)
    decreases fs, 0
  {
    hide ReadObject, ReadFields, Eval, Encode, Objects, Height;
    if EvalFields(fs, t).Some? {
      var n, rest := fs.node, fs.rest;
      var after := EncodeFields(rest, kinds[1..], layout);
      var m := Eval(n, t).value;
      Assoc(Encode(n, layout), after, tail);
      DecodeEncode(n, after + tail, t, budget, depth + 1, layout);
      DecodeEncodeFields(rest, kinds[1..], tail, m.tables, budget - Objects(n), depth, layout);
      var first := Ok(State(after + tail, m.tables, budget - Objects(n)), m.value);
      FieldsStep(At(EncodeFields(fs, kinds, layout), tail, t, budget), kinds, first,
                 ReadFields(first.st, kinds[1..], depth, layout), depth, layout);
    }
  }
}
