/** The pickle opcodes by name, with the bytes each is written as.  This is a table of its own: the disassembler's
    table of shapes and effects is proved to agree with it, instruction by instruction. */
module PickleOpcodes {
  import opened Bytes
  import opened Pickle
  import opened PickleFacts

  datatype Opcode =
    // references, calls and the stack
    | Global(moduleName: text, name: text) | Inst(moduleName: text, name: text) | StackGlobal | Reduce
    | Mark | PopMark | Pop | Dup
    // strings
    | String(line: text) | Unicode(line: text)
    | BinString(value: text) | ShortBinString(value: text)
    | BinUnicode(value: text) | ShortBinUnicode(value: text) | BinUnicode8(value: text)
    // bytes and numbers
    | BinBytes(value: text) | ShortBinBytes(value: text) | BinBytes8(value: text) | ByteArray8(value: text)
    | Int(line: text) | Long(line: text) | Float(line: text)
    | BinInt(value: text) | BinInt1(b: byte) | BinInt2(value: text) | BinFloat(value: text) | Long1(value: text) | Long4(value: text)
    // memo, headers, persistent ids and the extension registry
    | Memoize | Put(line: text) | BinPut(b: byte) | LongBinPut(value: text)
    | Get(line: text) | BinGet(b: byte) | LongBinGet(value: text)
    | Proto(b: byte) | Frame(value: text) | PersId(line: text) | BinPersId
    | Ext1(b: byte) | Ext2(value: text) | Ext4(value: text)
    // constants and containers
    | NoneObject | NewTrue | NewFalse | EmptyTuple | EmptyList | EmptyDict | EmptySet
    | Tuple | Tuple1 | Tuple2 | Tuple3 | List | Dict | FrozenSet | Obj | NewObj | NewObjEx
    | Append | Appends | SetItem | SetItems | AddItems | Build | NextBuffer | ReadonlyBuffer

  predicate IsLine(s: text) { 0x0A !in s }

  /** The arguments fit the form the opcode gives them. */
  predicate Writable(op: Opcode) {
    match op
    case Global(m, n) => IsLine(m) && IsLine(n)
    case Inst(m, n) => IsLine(m) && IsLine(n)
    case String(s) => IsLine(s)
    case Unicode(s) => IsLine(s)
    case Int(s) => IsLine(s)
    case Long(s) => IsLine(s)
    case Float(s) => IsLine(s)
    case Put(s) => IsLine(s)
    case Get(s) => IsLine(s)
    case PersId(s) => IsLine(s)
    case ShortBinString(s) => |s| < 0x100
    case ShortBinUnicode(s) => |s| < 0x100
    case ShortBinBytes(s) => |s| < 0x100
    case Long1(s) => |s| < 0x100
    case BinString(s) => |s| < TWO32
    case BinUnicode(s) => |s| < TWO32
    case BinBytes(s) => |s| < TWO32
    case Long4(s) => |s| < TWO32
    case BinUnicode8(s) => |s| < TWO63
    case BinBytes8(s) => |s| < TWO63
    case ByteArray8(s) => |s| < TWO63
    case BinInt2(s) => |s| == 2
    case Ext2(s) => |s| == 2
    case BinInt(s) => |s| == 4
    case Ext4(s) => |s| == 4
    case LongBinPut(s) => |s| == 4
    case LongBinGet(s) => |s| == 4
    case BinFloat(s) => |s| == 8
    case Frame(s) => |s| == 8
    case _ => true
  }

  /** The byte an opcode starts with. */
  function CodeOf(op: Opcode): byte {
    match op
    case Global(_, _) => 0x63
    case Inst(_, _) => 0x69
    case StackGlobal => 0x93
    case Reduce => 0x52
    case Mark => 0x28
    case PopMark => 0x31
    case Pop => 0x30
    case Dup => 0x32
    case String(_) => 0x53
    case Unicode(_) => 0x56
    case BinString(_) => 0x54
    case ShortBinString(_) => 0x55
    case BinUnicode(_) => 0x58
    case ShortBinUnicode(_) => 0x8C
    case BinUnicode8(_) => 0x8D
    case BinBytes(_) => 0x42
    case ShortBinBytes(_) => 0x43
    case BinBytes8(_) => 0x8E
    case ByteArray8(_) => 0x96
    case Int(_) => 0x49
    case Long(_) => 0x4C
    case Float(_) => 0x46
    case BinInt(_) => 0x4A
    case BinInt1(_) => 0x4B
    case BinInt2(_) => 0x4D
    case BinFloat(_) => 0x47
    case Long1(_) => 0x8A
    case Long4(_) => 0x8B
    case Memoize => 0x94
    case Put(_) => 0x70
    case BinPut(_) => 0x71
    case LongBinPut(_) => 0x72
    case Get(_) => 0x67
    case BinGet(_) => 0x68
    case LongBinGet(_) => 0x6A
    case Proto(_) => 0x80
    case Frame(_) => 0x95
    case PersId(_) => 0x50
    case BinPersId => 0x51
    case Ext1(_) => 0x82
    case Ext2(_) => 0x83
    case Ext4(_) => 0x84
    case NoneObject => 0x4E
    case NewTrue => 0x88
    case NewFalse => 0x89
    case EmptyTuple => 0x29
    case EmptyList => 0x5D
    case EmptyDict => 0x7D
    case EmptySet => 0x8F
    case Tuple => 0x74
    case Tuple1 => 0x85
    case Tuple2 => 0x86
    case Tuple3 => 0x87
    case List => 0x6C
    case Dict => 0x64
    case FrozenSet => 0x91
    case Obj => 0x6F
    case NewObj => 0x81
    case NewObjEx => 0x92
    case Append => 0x61
    case Appends => 0x65
    case SetItem => 0x73
    case SetItems => 0x75
    case AddItems => 0x90
    case Build => 0x62
    case NextBuffer => 0x97
    case ReadonlyBuffer => 0x98
  }

  /** The bytes that follow it. */
  function ArgumentBytes(op: Opcode): seq<byte> {
    match op
    case Global(m, n) => m + [0x0A] + n + [0x0A]
    case Inst(m, n) => m + [0x0A] + n + [0x0A]
    case String(s) => s + [0x0A]
    case Unicode(s) => s + [0x0A]
    case BinString(s) => LittleBytes(|s|, 4) + s
    case ShortBinString(s) => LittleBytes(|s|, 1) + s
    case BinUnicode(s) => LittleBytes(|s|, 4) + s
    case ShortBinUnicode(s) => LittleBytes(|s|, 1) + s
    case BinUnicode8(s) => LittleBytes(|s|, 8) + s
    case BinBytes(s) => LittleBytes(|s|, 4) + s
    case ShortBinBytes(s) => LittleBytes(|s|, 1) + s
    case BinBytes8(s) => LittleBytes(|s|, 8) + s
    case ByteArray8(s) => LittleBytes(|s|, 8) + s
    case Int(s) => s + [0x0A]
    case Long(s) => s + [0x0A]
    case Float(s) => s + [0x0A]
    case BinInt(s) => s
    case BinInt1(b) => [b]
    case BinInt2(s) => s
    case BinFloat(s) => s
    case Long1(s) => LittleBytes(|s|, 1) + s
    case Long4(s) => LittleBytes(|s|, 4) + s
    case Put(s) => s + [0x0A]
    case BinPut(b) => [b]
    case LongBinPut(s) => s
    case Get(s) => s + [0x0A]
    case BinGet(b) => [b]
    case LongBinGet(s) => s
    case Proto(b) => [b]
    case Frame(s) => s
    case PersId(s) => s + [0x0A]
    case Ext1(b) => [b]
    case Ext2(s) => s
    case Ext4(s) => s
    case _ => []
  }

  /** How an opcode is written. */
  function Written(op: Opcode): seq<byte> {
    [CodeOf(op)] + ArgumentBytes(op)
  }

  function FirstArgument(op: Opcode): text {
    match op
    case Global(m, _) => m
    case Inst(m, _) => m
    case String(s) => s
    case Unicode(s) => s
    case BinString(s) => s
    case ShortBinString(s) => s
    case BinUnicode(s) => s
    case ShortBinUnicode(s) => s
    case BinUnicode8(s) => s
    case BinBytes(s) => s
    case ShortBinBytes(s) => s
    case BinBytes8(s) => s
    case ByteArray8(s) => s
    case Int(s) => s
    case Long(s) => s
    case Float(s) => s
    case BinInt(s) => s
    case BinInt1(b) => [b]
    case BinInt2(s) => s
    case BinFloat(s) => s
    case Long1(s) => s
    case Long4(s) => s
    case Put(s) => s
    case BinPut(b) => [b]
    case LongBinPut(s) => s
    case Get(s) => s
    case BinGet(b) => [b]
    case LongBinGet(s) => s
    case Proto(b) => [b]
    case Frame(s) => s
    case PersId(s) => s
    case Ext1(b) => [b]
    case Ext2(s) => s
    case Ext4(s) => s
    case _ => []
  }

  function SecondArgument(op: Opcode): text {
    match op
    case Global(_, n) => n
    case Inst(_, n) => n
    case _ => []
  }

  /** The instruction an opcode is, in the disassembler's terms. */
  function Coded(op: Opcode): Instr {
    Instr(CodeOf(op), FirstArgument(op), SecondArgument(op))
  }

  // ----- The two tables agree -----

  predicate IsLineOp(op: Opcode) {
    op.String? || op.Unicode? || op.Int? || op.Long? || op.Float? || op.Put? || op.Get? || op.PersId?
  }

  predicate IsTextual(op: Opcode) {
    op.BinString? || op.ShortBinString? || op.BinUnicode? || op.ShortBinUnicode? || op.BinUnicode8?
  }

  predicate IsBinary(op: Opcode) {
    op.BinBytes? || op.ShortBinBytes? || op.BinBytes8? || op.ByteArray8? || op.Long1? || op.Long4?
  }

  predicate IsFixed(op: Opcode) {
    op.BinInt? || op.BinInt1? || op.BinInt2? || op.BinFloat? || op.BinPut? || op.LongBinPut? || op.BinGet? || op.LongBinGet?
    || op.Proto? || op.Frame? || op.Ext1? || op.Ext2? || op.Ext4?
  }

  lemma LinesAgree(op: Opcode)
    requires Writable(op) && IsLineOp(op)
    ensures WellFormed(Coded(op)) && AssembleOne(Coded(op)) == Written(op)
  {
  }

  lemma PowersOfPrefixes()
    ensures Power256(1) == 0x100 && Power256(4) == TWO32 && Power256(8) == TWO64
  {
    assert Power256(2) == 0x10000;
    assert Power256(6) == 0x1_0000_0000_0000;
  }

  predicate Counts(op: Opcode, width: nat) {
    if op.BinUnicode8? || op.BinBytes8? || op.ByteArray8? then width == 8
    else if op.BinString? || op.BinUnicode? || op.BinBytes? || op.Long4? then width == 4
    else width == 1
  }

  lemma CountedShape(op: Opcode, width: nat)
    requires (IsTextual(op) || IsBinary(op)) && Counts(op, width)
    ensures ShapeOf(CodeOf(op)) == Prefixed(width)
  {
  }

  lemma CountedBytes(op: Opcode, width: nat)
    requires Writable(op) && (IsTextual(op) || IsBinary(op)) && Counts(op, width)
    ensures ArgumentBytes(op) == LittleBytes(|FirstArgument(op)|, width) + FirstArgument(op) && SecondArgument(op) == []
    ensures |FirstArgument(op)| < TWO63 && (width == 1 ==> |FirstArgument(op)| < 0x100) && (width == 4 ==> |FirstArgument(op)| < TWO32)
  {
    hide LittleBytes;
  }

  lemma CountedAgree(op: Opcode)
    requires Writable(op) && (IsTextual(op) || IsBinary(op))
    ensures WellFormed(Coded(op)) && AssembleOne(Coded(op)) == Written(op)
  {
    hide Power256, LittleBytes, ShapeOf, CodeOf, ArgumentBytes, FirstArgument, SecondArgument, Writable;
    var width := if Counts(op, 8) then 8 else if Counts(op, 4) then 4 else 1;
    CountedShape(op, width);
    CountedBytes(op, width);
    PowersOfPrefixes();
  }

  lemma FixedShape(op: Opcode)
    requires Writable(op) && IsFixed(op)
    ensures ShapeOf(CodeOf(op)) == Width(|FirstArgument(op)|)
  {
  }

  lemma FixedAgree(op: Opcode)
    requires Writable(op) && IsFixed(op)
    ensures WellFormed(Coded(op)) && AssembleOne(Coded(op)) == Written(op)
  {
    hide ShapeOf, CodeOf, Writable;
    FixedShape(op);
  }

  lemma OthersAgree(op: Opcode)
    requires Writable(op) && !IsLineOp(op) && !IsTextual(op) && !IsBinary(op) && !IsFixed(op)
    ensures WellFormed(Coded(op)) && AssembleOne(Coded(op)) == Written(op)
  {
  }

  /** Every opcode, written out by name, is a well-formed instruction of the disassembler's table. */
  lemma WrittenIsAssembled(op: Opcode)
    requires Writable(op)
    ensures WellFormed(Coded(op)) && AssembleOne(Coded(op)) == Written(op)
  {
    hide *;
    if IsLineOp(op) {
      LinesAgree(op);
    } else if IsTextual(op) || IsBinary(op) {
      CountedAgree(op);
    } else if IsFixed(op) {
      FixedAgree(op);
    } else {
      OthersAgree(op);
    }
  }

  /** The opcode puts this string on top of the stack. */
  predicate PushesString(op: Opcode, s: text) {
    match op
    case String(line) => s == Unquote(line)
    case Unicode(line) => s == line
    case BinString(value) => s == value
    case ShortBinString(value) => s == value
    case BinUnicode(value) => s == value
    case ShortBinUnicode(value) => s == value
    case BinUnicode8(value) => s == value
    case _ => false
  }

  /** The opcode leaves the stack as it is: a memo store or a header. */
  predicate Neutral(op: Opcode) {
    op.Memoize? || op.Put? || op.BinPut? || op.LongBinPut? || op.Proto? || op.Frame?
  }

  lemma StringsArePushed(op: Opcode, s: text)
    requires PushesString(op, s)
    ensures Pushes(Coded(op), s)
  {
  }

  lemma NeutralIsTransparent(op: Opcode)
    requires Neutral(op)
    ensures Transparent(Coded(op).op)
  {
  }

  lemma NamingCodes(op: Opcode)
    ensures CodeOf(op) == 0x63 <==> op.Global?
    ensures CodeOf(op) == 0x69 <==> op.Inst?
    ensures CodeOf(op) == 0x93 <==> op.StackGlobal?
  {
  }

  /** Which opcodes name references. */
  lemma NamingByOpcode(op: Opcode)
    ensures EffectOf(Coded(op).op) == Import <==> op.Global?
    ensures EffectOf(Coded(op).op) == Instance <==> op.Inst?
    ensures EffectOf(Coded(op).op) == PopPair <==> op.StackGlobal?
  {
    hide CodeOf, EffectOf;
    NamingCodes(op);
    NamingOpcodes(CodeOf(op));
  }

  // ----- Whole programs -----

  predicate AllWritable(ops: seq<Opcode>) {
    forall k :: 0 <= k < |ops| ==> Writable(ops[k])
  }

  function WriteAll(ops: seq<Opcode>): seq<byte> {
    if ops == [] then [] else Written(ops[0]) + WriteAll(ops[1..])
  }

  lemma {:induction false} WriteAllGrows(ops: seq<Opcode>, k: nat)
    requires k < |ops|
    ensures |WriteAll(ops[..k])| <= |WriteAll(ops[..k + 1])|
  {
    hide Written;
    if k > 0 {
      WriteAllGrows(ops[1..], k - 1);
      assert ops[1..][..k - 1] == ops[..k][1..] && ops[1..][..k] == ops[..k + 1][1..];
    }
  }

  function Program(ops: seq<Opcode>): (code: seq<Instr>)
    ensures |code| == |ops| && forall k :: 0 <= k < |ops| ==> code[k] == Coded(ops[k])
  {
    if ops == [] then [] else [Coded(ops[0])] + Program(ops[1..])
  }

  lemma {:induction false} WriteAllIsAssembly(ops: seq<Opcode>)
    requires AllWritable(ops)
    ensures AllWellFormed(Program(ops)) && WriteAll(ops) == Assemble(Program(ops))
  {
    hide Written, Writable, Coded, WellFormed, AssembleOne;
    if ops != [] {
      WrittenIsAssembled(ops[0]);
      WriteAllIsAssembly(ops[1..]);
      assert Program(ops)[1..] == Program(ops[1..]);
    }
  }

  /** The references named by a program, as the disassembler reports them for its bytes closed by STOP, whatever follows
      the STOP. */
  function Found(ops: seq<Opcode>, tail: seq<byte>, limit: nat): seq<(text, text)> {
    Reported(WriteAll(ops) + [0x2E] + tail, limit)
  }

  /** The last two values pushed before opcode `k` are these strings. */
  ghost predicate JustWrote(ops: seq<Opcode>, k: nat, a: text, b: text)
    requires k <= |ops|
  {
    exists p, q :: 0 <= p < q < k && PushesString(ops[p], a) && PushesString(ops[q], b)
      && (forall j :: p < j < k && j != q ==> Neutral(ops[j]))
  }

  lemma JustWroteIsPushed(ops: seq<Opcode>, k: nat, a: text, b: text)
    requires k <= |ops| && JustWrote(ops, k, a, b)
    ensures JustPushed(Program(ops), k, a, b)
  {
    hide Coded, PushesString, Neutral, Transparent, Pushes;
    var p, q :| 0 <= p < q < k && PushesString(ops[p], a) && PushesString(ops[q], b)
             && (forall j :: p < j < k && j != q ==> Neutral(ops[j]));
    var code := Program(ops);
    StringsArePushed(ops[p], a);
    StringsArePushed(ops[q], b);
    forall j | p < j < k && j != q ensures Transparent(code[j].op) {
      NeutralIsTransparent(ops[j]);
    }
  }

  /** A program's bytes are read to the STOP and no further, and the references found are those its instructions name. */
  lemma FoundIsRecovered(ops: seq<Opcode>, tail: seq<byte>, limit: nat)
    requires AllWritable(ops) && |ops| < limit && |WriteAll(ops) + [0x2E] + tail| < TWO63
    ensures var data := WriteAll(ops) + [0x2E] + tail;
            Scan(data, |data|, EMPTY, limit).Scanned? && Scan(data, |data|, EMPTY, limit).left == tail
    ensures Found(ops, tail, limit) == Recovered(Program(ops))
  {
    hide Scan, Execute, Assemble, WellFormed, WriteAll, AllWritable;
    WriteAllIsAssembly(ops);
    ScanOfStream(Program(ops), tail, |WriteAll(ops) + [0x2E] + tail|, limit);
  }

  /** One more opcode adds to the references found: GLOBAL and INST their pair, STACK_GLOBAL the two real strings just
      pushed, any other opcode nothing. */
  lemma FoundStepByStep(ops: seq<Opcode>, k: nat, tail: seq<byte>, limit: nat)
    requires AllWritable(ops) && k < |ops| < limit && |WriteAll(ops[..k + 1]) + [0x2E] + tail| < TWO63
    ensures var before, after := Found(ops[..k], tail, limit), Found(ops[..k + 1], tail, limit);
            match ops[k]
            case Global(m, n) => after == before + [(m, n)]
            case Inst(m, n) => after == before + [(m, n)]
            case StackGlobal => before <= after && |after| <= |before| + 1 &&
              forall a, b :: JustWrote(ops, k, a, b) && IsReal(a) && IsReal(b) ==> after == before + [(a, b)]
            case _ => after == before
  {
    hide Found, Recovered, Writable, WriteAll, JustWrote, JustPushed, EffectOf, IsMarkOrEmpty;
    WriteAllGrows(ops, k);
    FoundIsRecovered(ops[..k], tail, limit);
    FoundIsRecovered(ops[..k + 1], tail, limit);
    var code := Program(ops);
    assert Program(ops[..k]) == code[..k] && Program(ops[..k + 1]) == code[..k + 1];
    RecoveredStepByStep(code, k);
    NamingByOpcode(ops[k]);
    forall a, b | JustWrote(ops, k, a, b) && IsReal(a) && IsReal(b) ensures JustPushed(code, k, a, b) {
      JustWroteIsPushed(ops, k, a, b);
    }
  }
}
