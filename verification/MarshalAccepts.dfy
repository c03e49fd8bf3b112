/** The decoder accepts only encodings: whatever it reads is the encoding of a tree within the limits. */
module MarshalAccepts {
  import opened Bytes
  import opened Marshal
  import opened MarshalTrees
  import opened MarshalRoundTrip

  /** `n` is a tree whose encoding is what the read consumed and whose meaning is what it returned. */
  ghost predicate Explains(n: Node, st: State, r: Result<Value>, depth: int, layout: Layout) {
    && r.Ok? && Wf(n, layout)
    && st.rest == Encode(n, layout) + r.st.rest
    && Eval(n, st.tables) == Some(Meaning(r.st.tables, r.value))
    && Objects(n) == st.budget - r.st.budget
    && depth + Height(n) <= MAX_DEPTH
  }

  ghost predicate BodyExplains(b: Body, kind: Kind, st: State, r: Result<Value>, depth: int, layout: Layout) {
    && r.Ok? && BodyFits(b, kind, layout)
    && st.rest == EncodeBody(b, kind, layout) + r.st.rest
    && EvalBody(b, kind, st.tables) == Some(Meaning(r.st.tables, r.value))
    && BodyObjects(b) == st.budget - r.st.budget
    && depth + BodyHeight(b) <= MAX_DEPTH
  }

  ghost predicate NodesExplain(ns: Nodes, st: State, r: Result<seq<Value>>, depth: int, layout: Layout) {
    && r.Ok? && NodesWf(ns, layout)
    && st.rest == EncodeNodes(ns, layout) + r.st.rest
    && EvalNodes(ns, st.tables) == Some(Meaning(r.st.tables, r.value))
    && NodesObjects(ns) == st.budget - r.st.budget
    && depth + NodesHeight(ns) <= MAX_DEPTH
  }

  ghost predicate EntriesExplain(es: Entries, st: State, r: Result<Value>, depth: int, layout: Layout) {
    && r.Ok? && EntriesWf(es, layout)
    && st.rest == EncodeEntries(es, layout) + r.st.rest
    && EvalEntries(es, st.tables) == Some(Meaning(r.st.tables, r.value))
    && EntriesObjects(es) == st.budget - r.st.budget
    && depth + EntriesHeight(es) <= MAX_DEPTH
  }

  ghost predicate FieldsExplain(fs: FieldList, kinds: seq<FieldKind>, st: State, r: Result<seq<Value>>, depth: int,
                                layout: Layout) {
    && r.Ok? && FieldsWf(fs, kinds, layout)
    && st.rest == EncodeFields(fs, kinds, layout) + r.st.rest
    && EvalFields(fs, st.tables) == Some(Meaning(r.st.tables, r.value))
    && FieldsObjects(fs) == st.budget - r.st.budget
    && depth + FieldsHeight(fs) <= MAX_DEPTH
  }

  // ----- Raw reads -----

  lemma ReadNAccepts(st: State, n: int)
    requires ReadN(st, n).Ok?
    ensures var r := ReadN(st, n);
            |r.value| == n && st.rest == r.value + r.st.rest && r.st.tables == st.tables
  {
  }

  lemma ReadInt32Accepts(st: State)
    requires ReadInt32(st).Ok?
    ensures var r := ReadInt32(st);
            -TWO31 <= r.value < TWO31 && st.rest == Le32(r.value) + r.st.rest && r.st.tables == st.tables
  {
    ReadNAccepts(st, 4);
    Le32OfFromLe32(ReadN(st, 4).value);
  }

  lemma Counted8Accepts(st: State)
    requires Counted8(st).Ok?
    ensures var r := Counted8(st);
            |r.value| < 256 && st.rest == [|r.value|] + r.value + r.st.rest && r.st.tables == st.tables
  {
    var n := ReadByte(st);
    ReadNAccepts(n.st, n.value);
    assert st.rest == [n.value] + n.st.rest;
  }

  lemma Counted32Accepts(st: State)
    requires Counted32(st).Ok?
    ensures var r := Counted32(st);
            |r.value| < TWO31 && st.rest == Le32(|r.value|) + r.value + r.st.rest && r.st.tables == st.tables
  {
    ReadInt32Accepts(st);
    var n := ReadInt32(st);
    ReadNAccepts(n.st, n.value);
  }

  // ----- Objects -----

  /** Every successful read is the read of some tree's encoding. */
  lemma {:induction false} Accepts(st: State, depth: int, layout: Layout) returns (n: Node)
    requires ReadObject(st, depth, layout).Ok?
    ensures Explains(n, st, ReadObject(st, depth, layout), depth, layout)
    decreases Limit(st), 0, 0
  {
    var first := ReadByte(st.(budget := st.budget - 1));
    var flagged := first.value >= 128;
    var tag: byte := first.value % 128;
    var st1 := first.st.(tables := Reserve(st.tables, flagged));
    var b := BodyAccepts(st1, KindOf(tag), depth, layout);
    n := Node(flagged, tag, b);
    ObjectExplained(n, st, st1, depth, layout);
  }

  lemma ObjectExplained(n: Node, st: State, st1: State, depth: int, layout: Layout)
    requires st.budget > 0 && st.rest != [] && n.tag < 128 && depth <= MAX_DEPTH
    requires st.rest[0] == (if n.flagged then n.tag + 128 else n.tag)
    requires st1 == State(st.rest[1..], Reserve(st.tables, n.flagged), st.budget - 1)
    requires BodyExplains(n.body, KindOf(n.tag), st1, ReadBody(st1, KindOf(n.tag), depth, layout), depth, layout)
    ensures Explains(n, st, ReadObject(st, depth, layout), depth, layout)
  {
    ObjectStep(n.flagged, n.tag, st1.rest, st.tables, st.budget, ReadBody(st1, KindOf(n.tag), depth, layout), depth, layout);
    assert st.rest == [st.rest[0]] + st.rest[1..];
    Assoc([st.rest[0]], EncodeBody(n.body, KindOf(n.tag), layout), ReadBody(st1, KindOf(n.tag), depth, layout).st.rest);
  }

  lemma {:induction false} BodyAccepts(st: State, kind: Kind, depth: int, layout: Layout) returns (b: Body)
    requires ReadBody(st, kind, depth, layout).Ok? && depth <= MAX_DEPTH
    ensures BodyExplains(b, kind, st, ReadBody(st, kind, depth, layout), depth, layout)
    decreases Limit(st), 3, 0
  {
    hide ReadObject, ReadItems, ReadEntries, ReadFields, EvalNodes, EvalEntries, EvalFields, EncodeNodes, EncodeEntries, EncodeFields, StringsIn;
    match kind
    case SmallTuple =>
      var n := ReadByte(st);
      var ns := NodesAccept(n.st, n.value, depth, layout);
      assert st.rest == [n.value] + n.st.rest;
      b := Listing(ns);
    case Sequence => b := ListingAccepts(st, kind, depth, layout);
    case SetKind => b := ListingAccepts(st, kind, depth, layout);
    case Dict =>
      var es := EntriesAccept(st, depth, layout);
      b := Table(es);
    case Code =>
      var fs := FieldsAccept(st, Schedule(layout), depth, layout);
      b := Fields(fs);
    case _ => b := LeafAccepts(st, kind, depth, layout);
  }

  lemma {:induction false} ListingAccepts(st: State, kind: Kind, depth: int, layout: Layout) returns (b: Body)
    requires kind.Sequence? || kind.SetKind?
    requires ReadBody(st, kind, depth, layout).Ok? && depth <= MAX_DEPTH
    ensures BodyExplains(b, kind, st, ReadBody(st, kind, depth, layout), depth, layout)
    decreases Limit(st), 2, 0
  {
    hide ReadItems, EvalNodes, EncodeNodes, NodesObjects, NodesHeight, Le32, FromLe32;
    ReadInt32Accepts(st);
    var n := ReadInt32(st);
    var ns := NodesAccept(n.st, n.value, depth, layout);
    b := Listing(ns);
  }

  lemma LeafAccepts(st: State, kind: Kind, depth: int, layout: Layout) returns (b: Body)
    requires !kind.SmallTuple? && !kind.Sequence? && !kind.SetKind? && !kind.Dict? && !kind.Code?
    requires ReadBody(st, kind, depth, layout).Ok? && depth <= MAX_DEPTH
    ensures BodyExplains(b, kind, st, ReadBody(st, kind, depth, layout), depth, layout)
  {
    match kind
    case NullKind => b := Blank;
    case NoneKind => b := Blank;
    case Fixed(w) =>
      ReadNAccepts(st, w);
      b := Plain(ReadN(st, w).value);
    case Complex => b := ComplexAccepts(st, depth, layout);
    case Long => b := LongAccepts(st, depth, layout);
    case BackReference =>
      ReadInt32Accepts(st);
      b := Ref(ReadInt32(st).value);
    case _ => b := CountedAccepts(st, kind, depth, layout);
  }

  lemma CountedAccepts(st: State, kind: Kind, depth: int, layout: Layout) returns (b: Body)
    requires kind.Float? || kind.ShortText? || kind.RawString? || kind.Text?
    requires ReadBody(st, kind, depth, layout).Ok? && depth <= MAX_DEPTH
    ensures BodyExplains(b, kind, st, ReadBody(st, kind, depth, layout), depth, layout)
  {
    if kind.Float? || kind.ShortText? {
      Counted8Accepts(st);
      b := Short(Counted8(st).value);
    } else {
      Counted32Accepts(st);
      b := Counted(Counted32(st).value);
    }
  }

  lemma ComplexAccepts(st: State, depth: int, layout: Layout) returns (b: Body)
    requires ReadBody(st, Complex, depth, layout).Ok? && depth <= MAX_DEPTH
    ensures BodyExplains(b, Complex, st, ReadBody(st, Complex, depth, layout), depth, layout)
  {
    var re := Counted8(st);
    var im := Counted8(re.st);
    Counted8Accepts(st);
    Counted8Accepts(re.st);
    b := Pair(re.value, im.value);
    Assoc([|re.value|] + re.value, [|im.value|] + im.value, im.st.rest);
  }

  lemma LongAccepts(st: State, depth: int, layout: Layout) returns (b: Body)
    requires ReadBody(st, Long, depth, layout).Ok? && depth <= MAX_DEPTH
    ensures BodyExplains(b, Long, st, ReadBody(st, Long, depth, layout), depth, layout)
  {
    var n := ReadInt32(st);
    var count := 2 * (if n.value < 0 then -n.value else n.value);
    ReadInt32Accepts(st);
    ReadNAccepts(n.st, count);
    var digits := ReadN(n.st, count);
    b := BigInt(n.value, digits.value);
    Assoc(Le32(n.value), digits.value, digits.st.rest);
  }

  lemma {:induction false} NodesAccept(st: State, count: nat, depth: int, layout: Layout) returns (ns: Nodes)
    requires ReadItems(st, count, depth, layout).Ok? && depth <= MAX_DEPTH
    ensures NodesExplain(ns, st, ReadItems(st, count, depth, layout), depth, layout)
    ensures Length(ns) == count
    decreases Limit(st), 1, count
  {
    hide ReadObject, Eval, Encode, Objects, Height;
    if count == 0 {
      ns := Nil;
    } else {
      var v := ReadObject(st, depth + 1, layout);
      var n := Accepts(st, depth + 1, layout);
      var rest := NodesAccept(v.st, count - 1, depth, layout);
      ns := Cons(n, rest);
      Assoc(Encode(n, layout), EncodeNodes(rest, layout), ReadItems(v.st, count - 1, depth, layout).st.rest);
    }
  }

  lemma {:induction false} EntriesAccept(st: State, depth: int, layout: Layout) returns (es: Entries)
    requires ReadEntries(st, depth, layout).Ok?
    ensures EntriesExplain(es, st, ReadEntries(st, depth, layout), depth, layout)
    decreases Limit(st), 1, 0
  {
    hide ReadObject, Eval, Encode, Objects, Height;
    var key := ReadObject(st, depth + 1, layout);
    var k := Accepts(st, depth + 1, layout);
    if key.value == Null {
      es := Stop(k);
    } else {
      var val := ReadObject(key.st, depth + 1, layout);
      var v := Accepts(key.st, depth + 1, layout);
      var rest := EntriesAccept(val.st, depth, layout);
      es := Entry(k, v, rest);
      EntryExplained(es, st, key, val, depth, layout);
    }
  }

  lemma EntryExplained(es: Entries, st: State, key: Result<Value>, val: Result<Value>, depth: int, layout: Layout)
    requires es.Entry? && key == ReadObject(st, depth + 1, layout) && key.Ok? && key.value != Null
    requires val == ReadObject(key.st, depth + 1, layout) && val.Ok?
    requires Explains(es.key, st, key, depth + 1, layout) && Explains(es.value, key.st, val, depth + 1, layout)
    requires EntriesExplain(es.rest, val.st, ReadEntries(val.st, depth, layout), depth, layout)
    ensures EntriesExplain(es, st, ReadEntries(st, depth, layout), depth, layout)
  {
    hide ReadObject, ReadEntries, Eval, Encode, Objects, Height;
    EntriesStep(st, key, val, depth, layout);
    Assoc3(Encode(es.key, layout), Encode(es.value, layout), EncodeEntries(es.rest, layout),
           ReadEntries(val.st, depth, layout).st.rest);
  }

  lemma {:induction false} FieldsAccept(st: State, kinds: seq<FieldKind>, depth: int,
                                        layout: Layout) returns (fs: FieldList)
    requires ReadFields(st, kinds, depth, layout).Ok? && depth <= MAX_DEPTH
    ensures FieldsExplain(fs, kinds, st, ReadFields(st, kinds, depth, layout), depth, layout)
    decreases Limit(st), 1, |kinds|
  {
    hide ReadObject, Eval, Encode, Objects, Height, Le32, FromLe32;
    if kinds == [] {
      fs := Done;
    } else if kinds[0] == RawLong {
      ReadInt32Accepts(st);
      var n := ReadInt32(st);
      var rest := FieldsAccept(n.st, kinds[1..], depth, layout);
      fs := RawField(n.value, rest);
      Assoc(Le32(n.value), EncodeFields(rest, kinds[1..], layout), ReadFields(n.st, kinds[1..], depth, layout).st.rest);
    } else {
      var v := ReadObject(st, depth + 1, layout);
      var n := Accepts(st, depth + 1, layout);
      var rest := FieldsAccept(v.st, kinds[1..], depth, layout);
      fs := ObjectField(n, rest);
      Assoc(Encode(n, layout), EncodeFields(rest, kinds[1..], layout), ReadFields(v.st, kinds[1..], depth, layout).st.rest);
    }
  }

  /** A read from `input` succeeds exactly when `input` starts with the encoding of a tree that means something
      and fits the depth limit and the object budget. */
  lemma DecodesExactlyTheEncodings(st: State, depth: int, layout: Layout)
    ensures ReadObject(st, depth, layout).Ok?
        <==> exists n, tail ::
               && Wf(n, layout) && st.rest == Encode(n, layout) + tail && Eval(n, st.tables).Some?
               && Objects(n) <= st.budget && depth + Height(n) <= MAX_DEPTH
  {
    if ReadObject(st, depth, layout).Ok? {
      var n := Accepts(st, depth, layout);
      var tail := ReadObject(st, depth, layout).st.rest;
      assert st.rest == Encode(n, layout) + tail;
    }
    if n, tail :| && Wf(n, layout) && st.rest == Encode(n, layout) + tail && Eval(n, st.tables).Some?
                  && Objects(n) <= st.budget && depth + Height(n) <= MAX_DEPTH {
      DecodeEncode(n, tail, st.tables, st.budget, depth, layout);
    }
  }
}
