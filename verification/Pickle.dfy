/** The pickle disassembler: opcode and argument parsing with a shadow stack, nothing executed.  What one scan
    computes is given here as a function of the bytes left, the stack and the references found so far. */
module Pickle {
  import opened Bytes

  const MAX_OPCODES: nat := 200_000
  const MAX_STREAMS: nat := 64

  type text = seq<byte>

  const MARK: text := [0, 0x6D, 0x61, 0x72, 0x6B]
  const GLOBAL: text := [0, 0x67, 0x6C, 0x6F, 0x62, 0x61, 0x6C]
  const INST: text := [0, 0x69, 0x6E, 0x73, 0x74]

  /** A tracked stack entry; `gi` is the index of the reference it stands for. */
  datatype Slot = Slot(value: text, global: bool, gi: int)

  datatype Reference = Reference(moduleName: text, name: text, reduced: bool)

  datatype Machine = Machine(stack: seq<Slot>, globals: seq<Reference>)

  const EMPTY: Machine := Machine([], [])

  // ----- The opcode table -----

  /** What follows an opcode byte. */
  datatype Shape = Halt | Unsupported | Bare | Line | TwoLines | Width(bytes: nat) | Prefixed(width: nat)

  function ShapeOf(op: byte): Shape {
    var c := op as char;
    if c == '.' then Halt
    else if c in {'(', '1', '0', 'R', 'a', 'b', 's', 'u', '2', 'N', 'd', 'e', 'l', 'o', 't', '}', ']', ')', 'Q'}
            || op in {0x94, 0x93, 0x81, 0x85, 0x86, 0x87, 0x88, 0x89, 0x8F, 0x90, 0x91, 0x92, 0x97, 0x98} then Bare
    else if c in {'F', 'I', 'L', 'P', 'S', 'V', 'g', 'p'} then Line
    else if c in {'c', 'i'} then TwoLines
    else if c in {'K', 'h', 'q'} || op in {0x80, 0x82} then Width(1)
    else if c == 'M' || op == 0x83 then Width(2)
    else if c in {'J', 'j', 'r'} || op == 0x84 then Width(4)
    else if c == 'G' || op == 0x95 then Width(8)
    else if c in {'U', 'C'} || op in {0x8C, 0x8A} then Prefixed(1)
    else if c in {'T', 'X', 'B'} || op == 0x8B then Prefixed(4)
    else if op in {0x8D, 0x8E, 0x96} then Prefixed(8)
    else Unsupported
  }

  /** What an opcode does to the shadow stack and the list of references. */
  datatype Effect =
    | Keep | PushBlank | PushText | PushQuoted | PushMark | PopOne | PopToMark | PopPair | Import | Instance | Reduce

  function EffectOf(op: byte): Effect {
    var c := op as char;
    if c == '(' then PushMark
    else if op == 0x93 then PopPair
    else if c == '1' then PopToMark
    else if c == '0' then PopOne
    else if c == 'R' then Reduce
    else if c == 'c' then Import
    else if c == 'i' then Instance
    else if c == 'S' then PushQuoted
    else if c in {'V', 'T', 'U', 'X'} || op in {0x8C, 0x8D} then PushText
    else if c in {'a', 'b', 's', 'u', '2', 'p', 'q', 'r'} || op in {0x94, 0x80, 0x95} then Keep
    else PushBlank
  }

  // ----- Arguments -----

  /** An argument read or not, and the bytes left either way; or a fault, from which nothing is left. */
  datatype Taken = Lost(left: seq<byte>) | Got(value: text, left: seq<byte>) | Fault

  /** The index of the first newline, or the length if there is none. */
  function LineEnd(rest: seq<byte>): (k: nat)
    ensures k <= |rest| && 0x0A !in rest[..k] && (k < |rest| ==> rest[k] == 0x0A)
  {
    if rest == [] || rest[0] == 0x0A then 0 else
      var k := LineEnd(rest[1..]);
      assert rest[..1 + k] == [rest[0]] + rest[1..][..k];
      1 + k
  }

  function TakeLine(rest: seq<byte>): (t: Taken)
    ensures !t.Fault? && |t.left| <= |rest|
  {
    var k := LineEnd(rest);
    if k == |rest| then Lost([]) else Got(rest[..k], rest[k + 1..])
  }

  /** Reading `count` bytes of a file of `n` bytes, the last `|rest|` of which are left.  A count that takes the position
      past the largest integer turns the sum negative: the test against the length passes, and the slice faults. */
  function TakeN(rest: seq<byte>, n: nat, count: int): (t: Taken)
    ensures !t.Fault? ==> |t.left| <= |rest|
  {
    if count < 0 then Lost(rest)
    else if n - |rest| + count >= TWO63 then Fault
    else if count > |rest| then Lost(rest)
    else Got(rest[..count], rest[count..])
  }

  /** An unsigned little-endian number. */
  function Little(b: seq<byte>): nat {
    if b == [] then 0 else b[0] + 256 * Little(b[1..])
  }

  function TakePrefixed(rest: seq<byte>, n: nat, width: nat): (t: Taken)
    ensures !t.Fault? ==> |t.left| <= |rest|
  {
    match TakeN(rest, n, width)
    case Fault => Fault
    case Lost(left) => Lost(left)
    case Got(b, left) => TakeN(left, n, Wrap64(Little(b)))
  }

  /** The arguments of an opcode; only GLOBAL and INST have a second one. */
  datatype Arguments = Crash | Broken(left: seq<byte>) | Read(first: text, second: text, left: seq<byte>)

  function AsArguments(t: Taken): (a: Arguments)
    ensures a.Crash? <==> t.Fault?
    ensures !t.Fault? ==> a.left == t.left
  {
    match t
    case Fault => Crash
    case Lost(left) => Broken(left)
    case Got(value, left) => Read(value, [], left)
  }

  function ArgumentsOf(shape: Shape, n: nat, rest: seq<byte>): (a: Arguments)
    ensures !a.Crash? ==> |a.left| <= |rest|
  {
    match shape
    case Line => AsArguments(TakeLine(rest))
    case Width(w) => AsArguments(TakeN(rest, n, w))
    case Prefixed(w) => AsArguments(TakePrefixed(rest, n, w))
    case TwoLines =>
      var a := TakeLine(rest);
      var b := TakeLine(a.left);
      if a.Got? && b.Got? then Read(a.value, b.value, b.left) else Broken(b.left)
    case _ => Read([], [], rest)
  }

  // ----- Effects -----

  predicate IsMarkOrEmpty(s: text) {
    s == [] || s == MARK || s == GLOBAL || s == INST
  }

  /** Strips one pair of equal quotes. */
  function Unquote(s: text): text {
    if |s| >= 2 && (s[0] == 0x27 || s[0] == 0x22) && s[|s| - 1] == s[0] then s[1..|s| - 1] else s
  }

  /** What lies below the topmost mark, which goes too; nothing if there is no mark. */
  function DropToMark(stack: seq<Slot>): (below: seq<Slot>)
    ensures below <= stack && forall k :: |below| < k < |stack| ==> stack[k].value != MARK
    ensures stack != [] ==> |below| < |stack| && (stack[|below|].value == MARK || below == [])
  {
    if stack == [] then []
    else
      var below := stack[..|stack| - 1];
      if stack[|stack| - 1].value == MARK then below else DropToMark(below)
  }

  function Push(m: Machine, value: text): Machine {
    m.(stack := m.stack + [Slot(value, false, -1)])
  }

  function AddGlobal(m: Machine, moduleName: text, name: text): Machine {
    Machine(m.stack + [Slot(GLOBAL, true, |m.globals|)], m.globals + [Reference(moduleName, name, false)])
  }

  /** STACK_GLOBAL: the two topmost values name a reference when both are real strings. */
  function TakePair(m: Machine): Machine {
    var n := |m.stack|;
    if n < 2 then Push(m, GLOBAL)
    else
      var a, b, below := m.stack[n - 2].value, m.stack[n - 1].value, m.(stack := m.stack[..n - 2]);
      if !IsMarkOrEmpty(a) && !IsMarkOrEmpty(b) then AddGlobal(below, a, b) else Push(below, GLOBAL)
  }

  /** REDUCE: flags the reference under the topmost value, if there is one. */
  function CallBelowTop(m: Machine): Machine {
    var n := |m.stack|;
    if n < 2 then Push(m, [])
    else
      var callable := m.stack[n - 2];
      var globals := if callable.global && 0 <= callable.gi < |m.globals|
                     then m.globals[callable.gi := m.globals[callable.gi].(reduced := true)] else m.globals;
      Push(Machine(m.stack[..n - 2], globals), [])
  }

  function Perform(effect: Effect, first: text, second: text, m: Machine): Machine {
    match effect
    case Keep => m
    case PushBlank => Push(m, [])
    case PushText => Push(m, first)
    case PushQuoted => Push(m, Unquote(first))
    case PushMark => Push(m, MARK)
    case PopOne => if m.stack == [] then m else m.(stack := m.stack[..|m.stack| - 1])
    case PopToMark => m.(stack := DropToMark(m.stack))
    case PopPair => TakePair(m)
    case Import => AddGlobal(m, first, second)
    case Instance => Push(m.(globals := m.globals + [Reference(first, second, true)]), INST)
    case Reduce => CallBelowTop(m)
  }

  // ----- One scan, and several -----

  datatype Scanned = Scanned(globals: seq<Reference>, left: seq<byte>) | Panicked

  /** The scan of a file of `n` bytes stops at STOP, at an opcode it does not know, at a broken argument, at the end or at
      the limit; a fault ends the program and loses everything. */
  function Scan(rest: seq<byte>, n: nat, m: Machine, limit: nat): (s: Scanned)
    ensures s.Scanned? ==> |s.left| <= |rest| && (limit > 0 && rest != [] ==> |s.left| < |rest|)
    decreases |rest|
  {
    if limit == 0 || rest == [] then Scanned(m.globals, rest)
    else
      var shape := ShapeOf(rest[0]);
      if shape == Halt || shape == Unsupported then Scanned(m.globals, rest[1..])
      else
        match ArgumentsOf(shape, n, rest[1..])
        case Crash => Panicked
        case Broken(left) => Scanned(m.globals, left)
        case Read(first, second, left) => Scan(left, n, Perform(EffectOf(rest[0]), first, second, m), limit - 1)
  }

  /** The references of all streams, or none at all after a fault. */
  datatype Outcome = References(all: seq<Reference>) | Died

  function ScanStreams(rest: seq<byte>, streams: nat, limit: nat): Outcome
    decreases |rest|, streams
  {
    if streams == 0 || rest == [] then References([])
    else
      match Scan(rest, |rest|, EMPTY, limit)
      case Panicked => Died
      case Scanned(globals, left) => Then(globals, ScanStreams(left, streams - 1, limit))
  }

  function Then(globals: seq<Reference>, more: Outcome): Outcome {
    match more
    case Died => Died
    case References(all) => References(globals + all)
  }
}

/** The disassembler as the program runs it: one shared position, one stack and one list, updated in place. */
module PickleScanner {
  import opened Bytes
  import opened Pickle

  class Scanner {
    const data: seq<byte>
    var i: nat
    var stack: seq<Slot>
    var globals: seq<Reference>

    constructor (data: seq<byte>)
      requires |data| < TWO63
      ensures Valid() && this.data == data && i == 0 && Tracked() == EMPTY
    {
      this.data := data;
      i, stack, globals := 0, [], [];
    }

    predicate Valid()
      reads this
    {
      i <= |data| < TWO63
    }

    function Left(): seq<byte>
      requires Valid()
      reads this
    {
      data[i..]
    }

    function Tracked(): Machine
      reads this
    {
      Machine(stack, globals)
    }

    method ReadLine() returns (line: text, ok: bool)
      requires Valid()
      modifies this`i
      ensures Valid() && Left() == TakeLine(old(Left())).left
      ensures ok == TakeLine(old(Left())).Got?
      ensures ok ==> line == TakeLine(old(Left())).value
    {
      var start := i;
      while i < |data| && data[i] != 0x0A
        invariant start <= i <= |data|
        invariant LineEnd(data[start..]) == i - start + LineEnd(data[i..])
      {
        assert data[i..][1..] == data[i + 1..];
        i := i + 1;
      }
      var k := i - start;
      assert LineEnd(data[start..]) == k;
      if i >= |data| {
        return [], false;
      }
      line, ok := data[start..i], true;
      assert data[start..][..k] == line && data[start..][k + 1..] == data[i + 1..];
      i := i + 1;
    }

    /** The sum of position and count wraps like any 64-bit sum, and a slice that would end before it starts faults. */
    method ReadN(count: int64) returns (t: Taken)
      requires Valid()
      modifies this`i
      ensures Valid() && t == TakeN(old(Left()), |data|, count)
      ensures !t.Fault? ==> Left() == t.left
    {
      var end := Wrap64(i + count);
      if count < 0 || end > |data| {
        return Lost(data[i..]);
      }
      if end < i {
        return Fault;
      }
      t := Got(data[i..end], data[end..]);
      assert data[i..][..count] == data[i..end] && data[i..][count..] == data[end..];
      i := end;
    }

    method ReadPrefixed(width: nat) returns (t: Taken)
      requires Valid() && width < TWO63
      modifies this`i
      ensures Valid() && t == TakePrefixed(old(Left()), |data|, width)
      ensures !t.Fault? ==> Left() == t.left
    {
      hide Little, Wrap64;
      t := ReadN(width);
      if t.Got? {
        t := ReadN(Wrap64(Little(t.value)));
      }
    }

    /** Everything between an opcode and the next. */
    method ReadArguments(op: byte) returns (a: Arguments)
      requires Valid()
      modifies this`i
      ensures Valid() && a == ArgumentsOf(ShapeOf(op), |data|, old(Left()))
      ensures !a.Crash? ==> Left() == a.left
    {
      hide TakeLine, TakeN, TakePrefixed, ShapeOf;
      ShortWidths(op);
      match ShapeOf(op) {
        case Line =>
          var line, ok := ReadLine();
          a := if ok then Read(line, [], data[i..]) else Broken(data[i..]);
        case Width(w) =>
          var t := ReadN(w);
          a := AsArguments(t);
        case Prefixed(w) =>
          var t := ReadPrefixed(w);
          a := AsArguments(t);
        case TwoLines =>
          var first, ok1 := ReadLine();
          var second, ok2 := ReadLine();
          a := if ok1 && ok2 then Read(first, second, data[i..]) else Broken(data[i..]);
        case _ =>
          a := Read([], [], data[i..]);
      }
    }

    method PopToMark()
      modifies this`stack
      ensures stack == DropToMark(old(stack))
    {
      while |stack| > 0
        invariant DropToMark(stack) == DropToMark(old(stack))
      {
        var top := stack[|stack| - 1];
        stack := stack[..|stack| - 1];
        if top.value == MARK {
          return;
        }
      }
    }

    method Push(value: text)
      modifies this`stack
      ensures Tracked() == Pickle.Push(old(Tracked()), value)
    {
      stack := stack + [Slot(value, false, -1)];
    }

    method StackGlobal()
      modifies this`stack, this`globals
      ensures Tracked() == TakePair(old(Tracked()))
    {
      if |stack| < 2 {
        Push(GLOBAL);
        return;
      }
      var a, b := stack[|stack| - 2], stack[|stack| - 1];
      stack := stack[..|stack| - 2];
      if !IsMarkOrEmpty(a.value) && !IsMarkOrEmpty(b.value) {
        globals := globals + [Reference(a.value, b.value, false)];
        stack := stack + [Slot(GLOBAL, true, |globals| - 1)];
      } else {
        Push(GLOBAL);
      }
    }

    method Invoke()
      modifies this`stack, this`globals
      ensures Tracked() == CallBelowTop(old(Tracked()))
    {
      if |stack| >= 2 {
        var callable := stack[|stack| - 2];
        if callable.global && 0 <= callable.gi < |globals| {
          globals := globals[callable.gi := globals[callable.gi].(reduced := true)];
        }
      }
      if |stack| >= 2 {
        stack := stack[..|stack| - 2];
      }
      Push([]);
    }

    method Act(effect: Effect, first: text, second: text)
      modifies this`stack, this`globals
      ensures Tracked() == Perform(effect, first, second, old(Tracked()))
    {
      hide TakePair, CallBelowTop, DropToMark, Unquote;
      match effect {
        case Keep =>
        case PushBlank => Push([]);
        case PushText => Push(first);
        case PushQuoted => Push(Unquote(first));
        case PushMark => Push(MARK);
        case PopOne =>
          if |stack| > 0 {
            stack := stack[..|stack| - 1];
          }
        case PopToMark => PopToMark();
        case PopPair => StackGlobal();
        case Import =>
          globals := globals + [Reference(first, second, false)];
          stack := stack + [Slot(GLOBAL, true, |globals| - 1)];
        case Instance =>
          globals := globals + [Reference(first, second, true)];
          Push(INST);
        case Reduce => Invoke();
      }
    }

    /** `scanPickleOpcodesOnce`; the result is whether it lived to the end. */
    method Run() returns (lived: bool)
      requires Valid()
      modifies this
      ensures Valid()
      ensures ((if lived then Scanned(globals, Left()) else Panicked)
            == Scan(old(Left()), |data|, old(Tracked()), MAX_OPCODES))
    {
      hide ShapeOf, EffectOf, ArgumentsOf, Perform;
      var opIndex := 0;
      while opIndex < MAX_OPCODES && i < |data|
        invariant Valid() && opIndex <= MAX_OPCODES
        invariant (Scan(Left(), |data|, Tracked(), MAX_OPCODES - opIndex)
                == Scan(old(Left()), |data|, old(Tracked()), MAX_OPCODES))
        decreases MAX_OPCODES - opIndex
      {
        ghost var before := Left();
        var op := data[i];
        i := i + 1;
        assert Left() == before[1..];
        var shape := ShapeOf(op);
        if shape == Halt || shape == Unsupported {
          return true;
        }
        var arguments := ReadArguments(op);
        if arguments.Crash? {
          return false;
        }
        if arguments.Broken? {
          return true;
        }
        Act(EffectOf(op), arguments.first, arguments.second);
        opIndex := opIndex + 1;
      }
      return true;
    }
  }

  lemma ShortWidths(op: byte)
    ensures ShapeOf(op).Width? ==> ShapeOf(op).bytes <= 8
    ensures ShapeOf(op).Prefixed? ==> ShapeOf(op).width <= 8
  {
  }

  method ScanPickleOpcodesOnce(data: seq<byte>) returns (globals: seq<Reference>, consumed: nat, lived: bool)
    requires |data| < TWO63
    ensures consumed <= |data|
    ensures (if lived then Scanned(globals, data[consumed..]) else Panicked) == Scan(data, |data|, EMPTY, MAX_OPCODES)
  {
    hide Scan;
    var scanner := new Scanner(data);
    assert data[0..] == data;
    lived := scanner.Run();
    return scanner.globals, scanner.i, lived;
  }

  method ScanPickleOpcodes(data: seq<byte>) returns (all: seq<Reference>, lived: bool)
    requires |data| < TWO63
    ensures (if lived then References(all) else Died) == ScanStreams(data, 64, 200_000)
  {
    hide Scan;
    all := [];
    var offset, stream := 0, 0;
    assert data[0..] == data;
    while stream < MAX_STREAMS && offset < |data|
      invariant stream <= MAX_STREAMS && offset <= |data|
      invariant (Then(all, ScanStreams(data[offset..], MAX_STREAMS - stream, MAX_OPCODES))
              == ScanStreams(data, MAX_STREAMS, MAX_OPCODES))
      decreases MAX_STREAMS - stream
    {
      ghost var rest := data[offset..];
      var globals, consumed, alive := ScanPickleOpcodesOnce(data[offset..]);
      if !alive {
        return all, false;
      }
      assert |rest[consumed..]| < |rest|;
      assert rest[consumed..] == data[offset + consumed..];
      ThenThen(all, globals, ScanStreams(rest[consumed..], MAX_STREAMS - stream - 1, MAX_OPCODES));
      all := all + globals;
      if consumed <= 0 {
        break;
      }
      offset := offset + consumed;
      stream := stream + 1;
    }
    return all, true;
  }

  lemma ThenThen(a: seq<Reference>, b: seq<Reference>, more: Outcome)
    ensures Then(a, Then(b, more)) == Then(a + b, more)
  {
    if more.References? {
      assert a + (b + more.all) == a + b + more.all;
    }
  }
}
