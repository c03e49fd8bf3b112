/** The reader itself: methods that move through the bytes, fill the reference table and spend the shared
    object budget, each proved against the function of the same name in `Marshal`. */
module MarshalReaders {
  import opened Bytes
  import opened Marshal

  class MarshalReader {
    const data: seq<byte>
    const layout: Layout
    var pos: nat
    var refs: seq<Value>
    var objects: seq<CodeObject>
    var objectBudget: int

    ghost predicate Valid()
      reads this
    {
      pos <= |data|
    }

    /** What is left to read and what has been built. */
    ghost function Here(): State
      reads this
      requires Valid()
    {
      State(data[pos..], Tables(refs, objects), objectBudget)
    }

    /** The outcome of a method is the outcome `r` of its specification. */
    ghost predicate Agrees<V>(r: Result<V>, v: V, ok: bool)
      reads this
    {
      Valid() && ok == r.Ok? && (ok ==> Here() == r.st && v == r.value)
    }

    constructor (body: seq<byte>, layout: Layout)
      ensures Valid() && this.layout == layout
      ensures Here() == State(body, Tables([], []), MAX_OBJECTS)
    {
      data, this.layout := body, layout;
      pos, refs, objects, objectBudget := 0, [], [], MAX_OBJECTS;
    }

    method NextByte() returns (b: byte, ok: bool)
      requires Valid()
      modifies this`pos
      ensures Agrees(ReadByte(old(Here())), b, ok)
    {
      if pos >= |data| {
        return 0, false;
      }
      b, ok := data[pos], true;
      pos := pos + 1;
    }

    method Next(n: int) returns (b: seq<byte>, ok: bool)
      requires Valid()
      modifies this`pos
      ensures Agrees(ReadN(old(Here()), n), b, ok)
    {
      if n < 0 || pos + n > |data| {
        return [], false;
      }
      assert data[pos..][..n] == data[pos..pos + n] && data[pos..][n..] == data[pos + n..];
      b, ok := data[pos..pos + n], true;
      pos := pos + n;
    }

    method NextInt32() returns (n: int, ok: bool)
      requires Valid()
      modifies this`pos
      ensures Agrees(ReadInt32(old(Here())), n, ok)
    {
      var b;
      b, ok := Next(4);
      n := if ok then FromLe32(b) else 0;
    }

    method NextCounted8() returns (b: seq<byte>, ok: bool)
      requires Valid()
      modifies this`pos
      ensures Agrees(Counted8(old(Here())), b, ok)
    {
      var n;
      b := [];
      n, ok := NextByte();
      if ok {
        b, ok := Next(n);
      }
    }

    method NextCounted32() returns (b: seq<byte>, ok: bool)
      requires Valid()
      modifies this`pos
      ensures Agrees(Counted32(old(Here())), b, ok)
    {
      var n;
      b := [];
      n, ok := NextInt32();
      if ok {
        b, ok := Next(n);
      }
    }

    method ReadObject(depth: int) returns (v: Value, ok: bool)
      requires Valid()
      modifies this
      ensures Agrees(Marshal.ReadObject(old(Here()), depth, layout), v, ok)
      decreases Limit(Here()), 0, 0
    {
      v := None;
      if depth > MAX_DEPTH {
        return v, false;
      }
      objectBudget := objectBudget - 1;
      if objectBudget < 0 {
        return v, false;
      }
      var typeByte;
      typeByte, ok := NextByte();
      if !ok {
        return;
      }
      var flagged := typeByte >= 128;
      var refSlot := |refs|;
      if flagged {
        refs := refs + [None];
      }
      v, ok := ReadObjectBody(KindOf(typeByte % 128), depth);
      if ok && flagged {
        refs := refs[refSlot := v];
      }
    }

    method ReadObjectBody(kind: Kind, depth: int) returns (v: Value, ok: bool)
      requires Valid()
      modifies this
      ensures Agrees(Marshal.ReadBody(old(Here()), kind, depth, layout), v, ok)
      decreases Limit(Here()), 3, 0
    {
      v := None;
      match kind
      case SmallTuple =>
        var n, items;
        n, ok := NextByte();
        if ok {
          items, ok := ReadItems(n, depth);
          v := Items(items);
        }
      case Sequence =>
        var n, items;
        n, ok := NextInt32();
        if ok && n >= 0 {
          items, ok := ReadItems(n, depth);
          v := Items(items);
        } else {
          ok := false;
        }
      case SetKind =>
        var n, items;
        n, ok := NextInt32();
        if ok && n >= 0 {
          items, ok := ReadItems(n, depth);
        } else {
          ok := false;
        }
      case Dict => v, ok := ReadDict(depth);
      case Code => v, ok := ReadCodeObject(depth);
      case _ => v, ok := ReadScalar(kind, depth);
    }

    /** The objects that hold no other object. */
    method ReadScalar(kind: Kind, depth: int) returns (v: Value, ok: bool)
      requires Valid()
      requires !kind.SmallTuple? && !kind.Sequence? && !kind.SetKind? && !kind.Dict? && !kind.Code?
      modifies this`pos
      ensures Agrees(Marshal.ReadBody(old(Here()), kind, depth, layout), v, ok)
    {
      v := None;
      match kind
      case NullKind => return Null, true;
      case NoneKind => ok := true;
      case Fixed(w) => var _, done := Next(w); ok := done;
      case Float => var _, done := NextCounted8(); ok := done;
      case Complex =>
        var _, first := NextCounted8();
        if !first {
          return None, false;
        }
        var _, second := NextCounted8();
        ok := second;
      case Long =>
        var n, counted := NextInt32();
        if !counted {
          return None, false;
        }
        var _, done := Next((if n < 0 then -n else n) * 2);
        ok := done;
      case RawString => var _, done := NextCounted32(); ok := done;
      case Text =>
        var text, done := NextCounted32();
        return Str(text), done;
      case ShortText =>
        var text, done := NextCounted8();
        return Str(text), done;
      case BackReference =>
        var n, done := NextInt32();
        if !done || n < 0 || n >= |refs| {
          return None, false;
        }
        return refs[n], true;
      case Unrecognized => ok := false;
    }

    method ReadItems(n: nat, depth: int) returns (items: seq<Value>, ok: bool)
      requires Valid()
      modifies this
      ensures Agrees(Marshal.ReadItems(old(Here()), n, depth, layout), items, ok)
      decreases Limit(Here()), 1, 0
    {
      ghost var start := Here();
      items := [];
      PrependNothing(Marshal.ReadItems(start, n, depth, layout));
      var i := 0;
      while i < n
        invariant 0 <= i <= n
        invariant Valid() && Limit(Here()) <= Limit(start)
        invariant Prepend(items, Marshal.ReadItems(Here(), n - i, depth, layout))
               == Marshal.ReadItems(start, n, depth, layout)
      {
        var v;
        v, ok := ReadObject(depth + 1);
        if !ok {
          return;
        }
        PrependMore(items, v, Marshal.ReadItems(Here(), n - i - 1, depth, layout));
        items := items + [v];
        i := i + 1;
      }
      ok := true;
      PrependNothing(Ok(Here(), []));
      assert items + [] == items;
    }

    method ReadDict(depth: int) returns (v: Value, ok: bool)
      requires Valid()
      modifies this
      ensures Agrees(Marshal.ReadEntries(old(Here()), depth, layout), v, ok)
      decreases Limit(Here()), 1, 0
    {
      ghost var start := Here();
      v := None;
      while true
        invariant Valid() && Limit(Here()) <= Limit(start)
        invariant Marshal.ReadEntries(Here(), depth, layout) == Marshal.ReadEntries(start, depth, layout)
        decreases Limit(Here())
      {
        var key, value;
        key, ok := ReadObject(depth + 1);
        if !ok {
          return;
        }
        if key == Null {
          return None, true;
        }
        value, ok := ReadObject(depth + 1);
        if !ok {
          return;
        }
      }
    }

    // ----- Code objects -----

    /** The fields `done` have been read since `start`; `vals` are the objects among them. */
    ghost predicate Progress(start: State, done: seq<FieldKind>, vals: seq<Value>, depth: int)
      reads this
    {
      Valid() && ReadFields(start, done, depth, layout) == Ok(Here(), vals)
    }

    method SkipRawLong(ghost start: State, ghost done: seq<FieldKind>, ghost vals: seq<Value>, ghost depth: int)
        returns (ok: bool, ghost done': seq<FieldKind>)
      requires Progress(start, done, vals, depth)
      modifies this`pos
      ensures done' == done + [RawLong]
      ensures if ok then Progress(start, done', vals, depth)
              else Valid() && ReadFields(start, done', depth, layout).Fail?
      ensures ok ==> Limit(Here()) <= Limit(old(Here()))
    {
      done' := done + [RawLong];
      ReadFieldsMore(start, done, RawLong, depth, layout);
      var _, read := NextInt32();
      ok := read;
    }

    method FieldObject(depth: int, ghost start: State, ghost done: seq<FieldKind>, ghost vals: seq<Value>)
        returns (v: Value, ok: bool, ghost done': seq<FieldKind>)
      requires Progress(start, done, vals, depth)
      modifies this
      ensures done' == done + [Object]
      ensures if ok then Progress(start, done', vals + [v], depth)
              else Valid() && ReadFields(start, done', depth, layout).Fail?
      ensures ok ==> Limit(Here()) <= Limit(old(Here()))
      decreases Limit(Here()), 1, 0
    {
      done' := done + [Object];
      ReadFieldsMore(start, done, Object, depth, layout);
      v, ok := ReadObject(depth + 1);
    }

    /** The outcome of reading the fields `done` since `start`. */
    ghost predicate Outcome(start: State, done: seq<FieldKind>, vals: seq<Value>, depth: int, ok: bool)
      reads this
    {
      if ok then Progress(start, done, vals, depth) else Valid() && ReadFields(start, done, depth, layout).Fail?
    }

    /** Argument counts. */
    method SkipArgCounts(depth: int) returns (ok: bool, ghost done: seq<FieldKind>)
      requires Valid() && layout != LayoutUnknown
      modifies this`pos
      ensures Outcome(old(Here()), done, [], depth, ok)
      ensures ok ==> Limit(Here()) <= Limit(old(Here()))
      ensures done <= ArgCounts(layout) && (ok ==> done == ArgCounts(layout))
    {
      ghost var start := Here();
      done := [];
      ok, done := SkipRawLong(start, done, [], depth); // argcount
      if !ok { return; }
      if layout != Layout37 {
        ok, done := SkipRawLong(start, done, [], depth); // posonlyargcount
        if !ok { return; }
      }
      ok, done := SkipRawLong(start, done, [], depth); // kwonlyargcount
    }

    /** Frame sizes and flags. */
    method SkipSizes(depth: int, ghost start: State, ghost before: seq<FieldKind>)
        returns (ok: bool, ghost done: seq<FieldKind>)
      requires Progress(start, before, [], depth) && layout != LayoutUnknown
      modifies this`pos
      ensures Outcome(start, done, [], depth, ok)
      ensures ok ==> Limit(Here()) <= Limit(old(Here()))
      ensures done <= before + Sizes(layout) && (ok ==> done == before + Sizes(layout))
    {
      done := before;
      if layout != Layout311plus {
        ok, done := SkipRawLong(start, done, [], depth); // nlocals
        if !ok { return; }
      }
      ok, done := SkipRawLong(start, done, [], depth); // stacksize
      if !ok { return; }
      ok, done := SkipRawLong(start, done, [], depth); // flags
    }

    /** The bytecode, then the two fields that are kept. */
    method ReadKept(depth: int, ghost start: State, ghost before: seq<FieldKind>)
        returns (consts: Value, names: Value, ok: bool, ghost done: seq<FieldKind>, ghost vals: seq<Value>)
      requires Progress(start, before, [], depth)
      modifies this
      ensures Outcome(start, done, vals, depth, ok)
      ensures ok ==> Limit(Here()) <= Limit(old(Here()))
      ensures done <= before + [Object, Object, Object] && (ok ==> done == before + [Object, Object, Object])
      ensures ok ==> |vals| == 3 && vals[1] == consts && vals[2] == names
      decreases Limit(Here()), 1, 1
    {
      var bytecode;
      consts, names, vals := None, None, [];
      bytecode, ok, done := FieldObject(depth, start, before, vals);
      if !ok { return; }
      vals := vals + [bytecode];
      consts, ok, done := FieldObject(depth, start, done, vals);
      if !ok { return; }
      vals := vals + [consts];
      names, ok, done := FieldObject(depth, start, done, vals);
      vals := vals + [names];
    }

    /** Read and drop two objects, and a third when the layout has one. */
    method SkipObjects(three: bool, depth: int, ghost start: State, ghost before: seq<FieldKind>,
                       ghost kept: seq<Value>)
        returns (ok: bool, ghost done: seq<FieldKind>, ghost vals: seq<Value>)
      requires Progress(start, before, kept, depth)
      modifies this
      ensures Outcome(start, done, vals, depth, ok) && kept <= vals
      ensures ok ==> Limit(Here()) <= Limit(old(Here()))
      ensures done <= before + Skipped(three) && (ok ==> done == before + Skipped(three))
      decreases Limit(Here()), 1, 1
    {
      var dropped;
      vals := kept;
      dropped, ok, done := FieldObject(depth, start, before, vals);
      if !ok { return; }
      vals := vals + [dropped];
      dropped, ok, done := FieldObject(depth, start, done, vals);
      if !ok { return; }
      vals := vals + [dropped];
      if three {
        dropped, ok, done := FieldObject(depth, start, done, vals);
        vals := vals + [dropped];
      }
    }

    /** The line number, the line table and, since 3.11, the exception table. */
    method SkipLines(depth: int, ghost start: State, ghost before: seq<FieldKind>, ghost kept: seq<Value>)
        returns (ok: bool, ghost done: seq<FieldKind>, ghost vals: seq<Value>)
      requires Progress(start, before, kept, depth) && layout != LayoutUnknown
      modifies this
      ensures Outcome(start, done, vals, depth, ok) && kept <= vals
      ensures ok ==> Limit(Here()) <= Limit(old(Here()))
      ensures done <= before + Lines(layout) && (ok ==> done == before + Lines(layout))
      decreases Limit(Here()), 1, 1
    {
      var dropped;
      vals := kept;
      ok, done := SkipRawLong(start, before, vals, depth); // firstlineno
      if !ok { return; }
      dropped, ok, done := FieldObject(depth, start, done, vals); // lnotab or linetable
      if !ok { return; }
      vals := vals + [dropped];
      if layout == Layout311plus {
        dropped, ok, done := FieldObject(depth, start, done, vals); // exceptiontable
        vals := vals + [dropped];
      }
    }

    /** Everything up to and including the names. */
    method ReadHead(depth: int)
        returns (consts: Value, names: Value, ok: bool, ghost done: seq<FieldKind>, ghost vals: seq<Value>)
      requires Valid() && layout != LayoutUnknown
      modifies this
      ensures Outcome(old(Here()), done, vals, depth, ok)
      ensures ok ==> Limit(Here()) <= Limit(old(Here()))
      ensures done <= Head(layout) && (ok ==> done == Head(layout))
      ensures ok ==> |vals| == 3 && vals[1] == consts && vals[2] == names
      decreases Limit(Here()), 1, 2
    {
      ghost var start := Here();
      consts, names, vals := None, None, [];
      ok, done := SkipArgCounts(depth);
      if !ok { return; }
      ok, done := SkipSizes(depth, start, done);
      if !ok { return; }
      consts, names, ok, done, vals := ReadKept(depth, start, done);
    }

    /** All the fields in order, keeping the second and third objects. */
    method ReadAllFields(depth: int) returns (consts: Value, names: Value, ok: bool, ghost vals: seq<Value>)
      requires Valid() && layout != LayoutUnknown
      modifies this
      ensures Outcome(old(Here()), Schedule(layout), vals, depth, ok)
      ensures ok ==> |vals| >= 3 && vals[1] == consts && vals[2] == names
      decreases Limit(Here()), 1, 3
    {
      ghost var start, done := Here(), [];
      consts, names, ok, done, vals := ReadHead(depth);
      if ok {
        ok, done, vals := SkipObjects(layout != Layout311plus, depth, start, done, vals); // variable names
      }
      if ok {
        ok, done, vals := SkipObjects(layout == Layout311plus, depth, start, done, vals); // filename, name, qualname
      }
      if ok {
        ok, done, vals := SkipLines(depth, start, done, vals);
      }
      ScheduleParts(layout);
      if !ok {
        PrefixFails(start, done, Schedule(layout), depth, layout);
      }
    }

    method ReadCodeObject(depth: int) returns (v: Value, ok: bool)
      requires Valid()
      modifies this
      ensures Agrees(Marshal.ReadCode(old(Here()), depth, layout), v, ok)
      decreases Limit(Here()), 2, 0
    {
      v := None;
      if layout == LayoutUnknown {
        return v, false;
      }
      var consts, names;
      ghost var vals;
      consts, names, ok, vals := ReadAllFields(depth);
      if !ok {
        return;
      }
      if !consts.Items? || !names.Items? {
        return None, false;
      }
      v := CodeRef(|objects|);
      objects := objects + [CodeObject(StringsIn(names.items), consts.items)];
    }
  }

  function ArgCounts(layout: Layout): seq<FieldKind> {
    if layout == Layout37 then [RawLong, RawLong] else [RawLong, RawLong, RawLong]
  }

  function Skipped(three: bool): seq<FieldKind> {
    if three then [Object, Object, Object] else [Object, Object]
  }

  function Lines(layout: Layout): seq<FieldKind> {
    if layout == Layout311plus then [RawLong, Object, Object] else [RawLong, Object]
  }

  function Head(layout: Layout): seq<FieldKind> {
    ArgCounts(layout) + Sizes(layout) + [Object, Object, Object]
  }

  lemma ScheduleParts(layout: Layout)
    requires layout != LayoutUnknown
    ensures Schedule(layout)
         == Head(layout) + Skipped(layout != Layout311plus) + Skipped(layout == Layout311plus) + Lines(layout)
  {
  }

  lemma {:induction false} PrefixFails(st: State, done: seq<FieldKind>, fields: seq<FieldKind>, depth: int,
                                       layout: Layout)
    requires done <= fields && ReadFields(st, done, depth, layout).Fail?
    ensures ReadFields(st, fields, depth, layout).Fail?
    decreases |fields| - |done|
  {
    if done != fields {
      var next := fields[|done|];
      assert done + [next] <= fields;
      ReadFieldsMore(st, done, next, depth, layout);
      PrefixFails(st, done + [next], fields, depth, layout);
    } else {
      assert done == fields;
    }
  }

  function Sizes(layout: Layout): seq<FieldKind> {
    if layout == Layout311plus then [RawLong, RawLong] else [RawLong, RawLong, RawLong]
  }

  /** One field more, after `fields` have been read. */
  ghost function OneMore(r: Result<seq<Value>>, f: FieldKind, depth: int, layout: Layout): Result<seq<Value>> {
    if r.Fail? then Fail
    else if f == RawLong then As(ReadInt32(r.st), r.value)
    else
      var v := ReadObject(r.st, depth + 1, layout);
      if v.Fail? then Fail else Ok(v.st, r.value + [v.value])
  }

  lemma {:induction false} ReadFieldsMore(st: State, fields: seq<FieldKind>, f: FieldKind, depth: int, layout: Layout)
    ensures ReadFields(st, fields + [f], depth, layout) == OneMore(ReadFields(st, fields, depth, layout), f, depth, layout)
    decreases |fields|
  {
    if fields == [] {
      OneField(st, f, depth, layout);
    } else {
      assert (fields + [f])[1..] == fields[1..] + [f];
      if fields[0] == RawLong {
        if ReadInt32(st).Ok? {
          ReadFieldsMore(ReadInt32(st).st, fields[1..], f, depth, layout);
        }
      } else {
        var first := ReadObject(st, depth + 1, layout);
        if first.Ok? {
          ReadFieldsMore(first.st, fields[1..], f, depth, layout);
          var r := ReadFields(first.st, fields[1..], depth, layout);
          if r.Ok? && f == Object && ReadObject(r.st, depth + 1, layout).Ok? {
            var v := ReadObject(r.st, depth + 1, layout).value;
            assert [first.value] + (r.value + [v]) == [first.value] + r.value + [v];
          }
        }
      }
    }
  }

  lemma OneField(st: State, f: FieldKind, depth: int, layout: Layout)
    ensures ReadFields(st, [] + [f], depth, layout) == OneMore(ReadFields(st, [], depth, layout), f, depth, layout)
  {
    assert [] + [f] == [f] && [f][1..] == [];
    var v := ReadObject(st, depth + 1, layout);
    if f == Object && v.Ok? {
      assert ReadFields(v.st, [], depth, layout) == Ok(v.st, []);
      assert [v.value] + [] == [] + [v.value];
    }
  }

  ghost function Prepend(vals: seq<Value>, r: Result<seq<Value>>): Result<seq<Value>> {
    if r.Fail? then Fail else Ok(r.st, vals + r.value)
  }

  lemma PrependNothing(r: Result<seq<Value>>)
    ensures Prepend([], r) == r
  {
    if r.Ok? {
      assert [] + r.value == r.value;
    }
  }

  lemma PrependMore(vals: seq<Value>, v: Value, r: Result<seq<Value>>)
    ensures Prepend(vals, Prepend([v], r)) == Prepend(vals + [v], r)
  {
    if r.Ok? {
      assert vals + ([v] + r.value) == vals + [v] + r.value;
    }
  }
}
