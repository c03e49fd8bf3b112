/** The bounded decoder for CPython's `marshal` format: what `readObject` computes, as a function of
    the bytes left, the tables built so far and the object budget. */
module Marshal {
  import opened Bytes

  const MAX_OBJECTS: int := 500_000
  const MAX_DEPTH: int := 200

  datatype Layout = LayoutUnknown | Layout37 | Layout38to310 | Layout311plus

  /** A decoded value.  A code object is a pointer in the program; here it is its index in `Tables.objects`,
      the list of code objects in the order they were completed. */
  datatype Value = Null | None | Str(text: seq<byte>) | Items(items: seq<Value>) | CodeRef(id: nat)

  datatype CodeObject = CodeObject(names: seq<seq<byte>>, consts: seq<Value>)

  datatype Tables = Tables(refs: seq<Value>, objects: seq<CodeObject>)

  datatype State = State(rest: seq<byte>, tables: Tables, budget: int)

  datatype Result<+V> = Fail | Ok(st: State, value: V)

  // ----- Type bytes and the field order of a code object -----

  datatype Kind =
    | NullKind | NoneKind | Fixed(width: nat) | Float | Complex | Long | RawString | Text | ShortText
    | SmallTuple | Sequence | SetKind | Dict | Code | BackReference | Unrecognized

  /** What follows an object's type byte once the reference flag is stripped. */
  function KindOf(tag: byte): Kind {
    var c := tag as char;
    if c == '0' then NullKind
    else if c in "NFTS." then NoneKind
    else if c == 'i' then Fixed(4)
    else if c in "Ig" then Fixed(8)
    else if c == 'f' then Float
    else if c == 'x' then Complex
    else if c == 'y' then Fixed(16)
    else if c == 'l' then Long
    else if c == 's' then RawString
    else if c in "tuaA" then Text
    else if c in "zZ" then ShortText
    else if c == ')' then SmallTuple
    else if c in "([" then Sequence
    else if c in "<>" then SetKind
    else if c == '{' then Dict
    else if c == 'c' then Code
    else if c == 'r' then BackReference
    else Unrecognized
  }

  /** One field of a marshalled code object: a bare 32-bit integer or a typed object. */
  datatype FieldKind = RawLong | Object

  /** The positional fields of a code object.  The second object is `co_consts`, the third `co_names`. */
  function Schedule(layout: Layout): seq<FieldKind>
    requires layout != LayoutUnknown
  {
    match layout
    case Layout37 =>
      [RawLong, RawLong, RawLong, RawLong, RawLong,
       Object, Object, Object, Object, Object, Object, Object, Object, RawLong, Object]
    case Layout38to310 =>
      [RawLong, RawLong, RawLong, RawLong, RawLong, RawLong,
       Object, Object, Object, Object, Object, Object, Object, Object, RawLong, Object]
    case Layout311plus =>
      [RawLong, RawLong, RawLong, RawLong, RawLong,
       Object, Object, Object, Object, Object, Object, Object, Object, RawLong, Object, Object]
  }

  function StringsIn(items: seq<Value>): seq<seq<byte>> {
    if items == [] then []
    else (if items[0].Str? then [items[0].text] else []) + StringsIn(items[1..])
  }

  function Limit(st: State): nat {
    if st.budget < 0 then 0 else st.budget
  }

  // ----- Raw reads -----

  function ReadByte(st: State): (r: Result<byte>)
    ensures r.Ok? ==> r.st.budget == st.budget
  {
    if st.rest == [] then Fail else Ok(st.(rest := st.rest[1..]), st.rest[0])
  }

  function ReadN(st: State, n: int): (r: Result<seq<byte>>)
    ensures r.Ok? ==> r.st.budget == st.budget
  {
    if n < 0 || n > |st.rest| then Fail else Ok(st.(rest := st.rest[n..]), st.rest[..n])
  }

  function ReadInt32(st: State): (r: Result<int>)
    ensures r.Ok? ==> r.st.budget == st.budget
  {
    var r := ReadN(st, 4);
    if r.Fail? then Fail else Ok(r.st, FromLe32(r.value))
  }

  function Counted8(st: State): (r: Result<seq<byte>>)
    ensures r.Ok? ==> r.st.budget == st.budget
  {
    var n := ReadByte(st);
    if n.Fail? then Fail else ReadN(n.st, n.value)
  }

  function Counted32(st: State): (r: Result<seq<byte>>)
    ensures r.Ok? ==> r.st.budget == st.budget
  {
    var n := ReadInt32(st);
    if n.Fail? then Fail else ReadN(n.st, n.value)
  }

  function As<V, W>(r: Result<V>, w: W): Result<W> {
    if r.Fail? then Fail else Ok(r.st, w)
  }

  // ----- Objects -----

  function Reserve(t: Tables, flagged: bool): Tables {
    if flagged then t.(refs := t.refs + [None]) else t
  }

  /** Fill the slot reserved before the object was read. */
  function Fill(t: Tables, slot: nat, flagged: bool, v: Value): Tables
    requires flagged ==> slot < |t.refs|
  {
    if flagged then t.(refs := t.refs[slot := v]) else t
  }

  function ReadObject(st: State, depth: int, layout: Layout): (r: Result<Value>)
    ensures r.Ok? ==> 0 <= r.st.budget < st.budget && |st.tables.refs| <= |r.st.tables.refs|
    decreases Limit(st), 0, 0
  {
    if depth > MAX_DEPTH || st.budget <= 0 then Fail
    else
      var b := ReadByte(st.(budget := st.budget - 1));
      if b.Fail? then Fail
      else
        var flagged := b.value >= 128;
        var tag: byte := b.value % 128;
        var slot := |st.tables.refs|;
        var body := ReadBody(b.st.(tables := Reserve(st.tables, flagged)), KindOf(tag), depth, layout);
        if body.Fail? then Fail
        else Ok(body.st.(tables := Fill(body.st.tables, slot, flagged, body.value)), body.value)
  }

  function ReadBody(st: State, kind: Kind, depth: int, layout: Layout): (r: Result<Value>)
    ensures r.Ok? ==> r.st.budget <= st.budget && (0 <= st.budget ==> 0 <= r.st.budget)
    ensures r.Ok? ==> |st.tables.refs| <= |r.st.tables.refs|
    decreases Limit(st), 3, 0
  {
    match kind
    case NullKind => Ok(st, Null)
    case NoneKind => Ok(st, None)
    case Fixed(w) => As(ReadN(st, w), None)
    case Float => As(Counted8(st), None)
    case Complex =>
      var re := Counted8(st);
      if re.Fail? then Fail else As(Counted8(re.st), None)
    case Long =>
      var n := ReadInt32(st);
      if n.Fail? then Fail else As(ReadN(n.st, 2 * (if n.value < 0 then -n.value else n.value)), None)
    case RawString => As(Counted32(st), None)
    case Text =>
      var s := Counted32(st);
      if s.Fail? then Fail else Ok(s.st, Str(s.value))
    case ShortText =>
      var s := Counted8(st);
      if s.Fail? then Fail else Ok(s.st, Str(s.value))
    case SmallTuple =>
      var n := ReadByte(st);
      if n.Fail? then Fail
      else
        var r := ReadItems(n.st, n.value, depth, layout);
        if r.Fail? then Fail else Ok(r.st, Items(r.value))
    case Sequence =>
      var n := ReadInt32(st);
      if n.Fail? || n.value < 0 then Fail
      else
        var r := ReadItems(n.st, n.value, depth, layout);
        if r.Fail? then Fail else Ok(r.st, Items(r.value))
    case SetKind =>
      var n := ReadInt32(st);
      if n.Fail? || n.value < 0 then Fail else As(ReadItems(n.st, n.value, depth, layout), None)
    case Dict => ReadEntries(st, depth, layout)
    case Code => ReadCode(st, depth, layout)
    case BackReference =>
      var n := ReadInt32(st);
      if n.Fail? || n.value < 0 || n.value >= |st.tables.refs| then Fail
      else Ok(n.st, st.tables.refs[n.value])
    case Unrecognized => Fail
  }

  function ReadItems(st: State, n: nat, depth: int, layout: Layout): (r: Result<seq<Value>>)
    ensures r.Ok? ==> r.st.budget <= st.budget && (0 <= st.budget ==> 0 <= r.st.budget)
    ensures r.Ok? ==> |st.tables.refs| <= |r.st.tables.refs|
    decreases Limit(st), 1, n
  {
    if n == 0 then Ok(st, [])
    else
      var v := ReadObject(st, depth + 1, layout);
      if v.Fail? then Fail
      else
        var more := ReadItems(v.st, n - 1, depth, layout);
        if more.Fail? then Fail else Ok(more.st, [v.value] + more.value)
  }

  /** Key and value objects until a key decodes to NULL. */
  function ReadEntries(st: State, depth: int, layout: Layout): (r: Result<Value>)
    ensures r.Ok? ==> r.st.budget <= st.budget && (0 <= st.budget ==> 0 <= r.st.budget)
    ensures r.Ok? ==> |st.tables.refs| <= |r.st.tables.refs|
    decreases Limit(st), 1, 0
  {
    var key := ReadObject(st, depth + 1, layout);
    if key.Fail? then Fail
    else if key.value == Null then Ok(key.st, None)
    else
      var v := ReadObject(key.st, depth + 1, layout);
      if v.Fail? then Fail else ReadEntries(v.st, depth, layout)
  }

  /** The object fields of a code object, in order. */
  function ReadFields(st: State, fields: seq<FieldKind>, depth: int, layout: Layout): (r: Result<seq<Value>>)
    ensures r.Ok? ==> r.st.budget <= st.budget && (0 <= st.budget ==> 0 <= r.st.budget)
    ensures r.Ok? ==> |st.tables.refs| <= |r.st.tables.refs|
    decreases Limit(st), 1, |fields|
  {
    if fields == [] then Ok(st, [])
    else if fields[0] == RawLong then
      var n := ReadInt32(st);
      if n.Fail? then Fail else ReadFields(n.st, fields[1..], depth, layout)
    else
      var v := ReadObject(st, depth + 1, layout);
      if v.Fail? then Fail
      else
        var more := ReadFields(v.st, fields[1..], depth, layout);
        if more.Fail? then Fail else Ok(more.st, [v.value] + more.value)
  }

  /** Keep `co_consts` and the strings of `co_names`; the new object goes to the end of the list. */
  function NewCode(t: Tables, fields: seq<Value>): Tables
    requires |fields| >= 3 && fields[1].Items? && fields[2].Items?
  {
    t.(objects := t.objects + [CodeObject(StringsIn(fields[2].items), fields[1].items)])
  }

  function ReadCode(st: State, depth: int, layout: Layout): (r: Result<Value>)
    ensures r.Ok? ==> r.st.budget <= st.budget && (0 <= st.budget ==> 0 <= r.st.budget)
    ensures r.Ok? ==> |st.tables.refs| <= |r.st.tables.refs|
    decreases Limit(st), 2, 0
  {
    if layout == LayoutUnknown then Fail
    else
      var r := ReadFields(st, Schedule(layout), depth, layout);
      if r.Fail? || |r.value| < 3 || !r.value[1].Items? || !r.value[2].Items? then Fail
      else Ok(r.st.(tables := NewCode(r.st.tables, r.value)), CodeRef(|r.st.tables.objects|))
  }
}
