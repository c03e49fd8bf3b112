/** An assembler for pickle instructions, and what disassembling its output recovers. */
module PickleFacts {
  import opened Bytes
  import opened Pickle

  // ----- Assembling -----

  /** One instruction: an opcode with the arguments its shape calls for. */
  datatype Instr = Instr(op: byte, first: text, second: text)

  lemma Associative(a: seq<byte>, b: seq<byte>, c: seq<byte>)
    ensures (a + b) + c == a + (b + c)
  {
  }

  function LittleBytes(n: nat, width: nat): (b: seq<byte>)
    ensures |b| == width
  {
    if width == 0 then [] else [n % 256] + LittleBytes(n / 256, width - 1)
  }

  function Power256(width: nat): (p: nat)
    ensures p > 0
  {
    if width == 0 then 1 else 256 * Power256(width - 1)
  }

  /** The instruction can be written: it is supported, lines have no newline and lengths fit their prefix. */
  predicate WellFormed(x: Instr) {
    match ShapeOf(x.op)
    case Halt => false
    case Unsupported => false
    case Bare => x.first == [] && x.second == []
    case Line => 0x0A !in x.first && x.second == []
    case TwoLines => 0x0A !in x.first && 0x0A !in x.second
    case Width(n) => |x.first| == n && x.second == []
    case Prefixed(w) => |x.first| < Power256(w) && x.second == []
  }

  predicate AllWellFormed(code: seq<Instr>) {
    forall k :: 0 <= k < |code| ==> WellFormed(code[k])
  }

  function AssembleOne(x: Instr): (b: seq<byte>)
    ensures |b| >= 1 && b[0] == x.op
  {
    [x.op] + (match ShapeOf(x.op)
              case Line => x.first + [0x0A]
              case TwoLines => x.first + [0x0A] + x.second + [0x0A]
              case Width(_) => x.first
              case Prefixed(w) => LittleBytes(|x.first|, w) + x.first
              case _ => [])
  }

  function Assemble(code: seq<Instr>): seq<byte> {
    if code == [] then [] else AssembleOne(code[0]) + Assemble(code[1..])
  }

  // ----- Reading back one instruction -----

  lemma {:induction false} LineEndOfLine(line: text, tail: seq<byte>)
    requires 0x0A !in line
    ensures LineEnd(line + [0x0A] + tail) == |line|
  {
    if line != [] {
      LineEndOfLine(line[1..], tail);
      assert (line + [0x0A] + tail)[1..] == line[1..] + [0x0A] + tail;
    }
  }

  lemma TakeLineOfLine(line: text, tail: seq<byte>)
    requires 0x0A !in line
    ensures TakeLine(line + [0x0A] + tail) == Got(line, tail)
  {
    LineEndOfLine(line, tail);
    var rest := line + [0x0A] + tail;
    assert rest[..|line|] == line && rest[|line| + 1..] == tail;
  }

  lemma {:induction false} LittleOfBytes(n: nat, width: nat)
    requires n < Power256(width)
    ensures Little(LittleBytes(n, width)) == n
  {
    if width > 0 {
      LittleOfBytes(n / 256, width - 1);
      assert LittleBytes(n, width)[1..] == LittleBytes(n / 256, width - 1);
    }
  }

  /** What is behind the position can always be asked for: no sum overflows. */
  lemma TakeNWithin(b: seq<byte>, tail: seq<byte>, n: nat)
    requires |b + tail| <= n < TWO63
    ensures TakeN(b + tail, n, |b|) == Got(b, tail)
  {
    assert (b + tail)[..|b|] == b && (b + tail)[|b|..] == tail;
  }

  lemma TakePrefixedOfPayload(payload: text, width: nat, tail: seq<byte>, n: nat)
    requires |payload| < Power256(width) && |LittleBytes(|payload|, width) + payload + tail| <= n < TWO63
    ensures TakePrefixed(LittleBytes(|payload|, width) + payload + tail, n, width) == Got(payload, tail)
  {
    hide Little, LittleBytes, Power256, Wrap64, TakeN;
    LittleOfBytes(|payload|, width);
    var prefix := LittleBytes(|payload|, width);
    assert prefix + payload + tail == prefix + (payload + tail);
    TakeNWithin(prefix, payload + tail, n);
    TakeNWithin(payload, tail, n);
  }

  /** Reading an assembled instruction's arguments gives them back and leaves exactly what follows. */
  lemma ArgumentsOfAssembled(x: Instr, tail: seq<byte>, n: nat)
    requires WellFormed(x) && |AssembleOne(x) + tail| <= n < TWO63
    ensures ShapeOf(x.op) != Halt && ShapeOf(x.op) != Unsupported
    ensures ArgumentsOf(ShapeOf(x.op), n, (AssembleOne(x) + tail)[1..]) == Read(x.first, x.second, tail)
  {
    hide ShapeOf, TakeLine, TakeN, TakePrefixed, LittleBytes, Power256;
    var rest := (AssembleOne(x) + tail)[1..];
    match ShapeOf(x.op)
    case Line =>
      assert rest == x.first + [0x0A] + tail;
      TakeLineOfLine(x.first, tail);
    case TwoLines =>
      assert rest == x.first + [0x0A] + (x.second + [0x0A] + tail);
      TakeLineOfLine(x.first, x.second + [0x0A] + tail);
      TakeLineOfLine(x.second, tail);
    case Width(w) =>
      assert rest == x.first + tail;
      TakeNWithin(x.first, tail, n);
    case Prefixed(w) =>
      assert rest == LittleBytes(|x.first|, w) + x.first + tail;
      TakePrefixedOfPayload(x.first, w, tail, n);
    case Bare =>
      assert rest == tail;
    case _ =>
  }

  // ----- Running a list of instructions -----

  function Step(x: Instr, m: Machine): Machine {
    Perform(EffectOf(x.op), x.first, x.second, m)
  }

  function Execute(code: seq<Instr>, m: Machine): Machine {
    if code == [] then m else Execute(code[1..], Step(code[0], m))
  }

  /** The scanner stays on instruction boundaries: after `n` assembled instructions it is exactly behind them. */
  lemma {:induction false} ScanFollowsAssembly(code: seq<Instr>, tail: seq<byte>, n: nat, m: Machine, limit: nat)
    requires AllWellFormed(code) && |code| <= limit && |Assemble(code) + tail| <= n < TWO63
    ensures Scan(Assemble(code) + tail, n, m, limit) == Scan(tail, n, Execute(code, m), limit - |code|)
    decreases |code|
  {
    hide ShapeOf, EffectOf, Perform, ArgumentsOf, AssembleOne, WellFormed;
    if code == [] {
      assert Assemble(code) + tail == tail;
    } else {
      var x, after := code[0], Assemble(code[1..]) + tail;
      var rest := Assemble(code) + tail;
      Associative(AssembleOne(x), Assemble(code[1..]), tail);
      ArgumentsOfAssembled(x, after, n);
      assert Scan(rest, n, m, limit) == Scan(after, n, Step(x, m), limit - 1);
      ScanFollowsAssembly(code[1..], tail, n, Step(x, m), limit - 1);
    }
  }

  /** A stream is a body closed by STOP. */
  function Stream(body: seq<Instr>): seq<byte> {
    Assemble(body) + [0x2E]
  }

  /** A stream within the opcode limit is read to its STOP and no further, whatever follows. */
  lemma ScanOfStream(body: seq<Instr>, tail: seq<byte>, n: nat, limit: nat)
    requires AllWellFormed(body) && |body| < limit && |Stream(body) + tail| <= n < TWO63
    ensures Scan(Stream(body) + tail, n, EMPTY, limit) == Scanned(Execute(body, EMPTY).globals, tail)
  {
    hide Assemble, Execute, WellFormed;
    Associative(Assemble(body), [0x2E], tail);
    ScanFollowsAssembly(body, [0x2E] + tail, n, EMPTY, limit);
    assert ([0x2E] + tail)[1..] == tail;
  }

  lemma {:induction false} AssembleSplit(a: seq<Instr>, b: seq<Instr>)
    ensures Assemble(a + b) == Assemble(a) + Assemble(b)
  {
    hide AssembleOne;
    if a == [] {
      assert a + b == b;
    } else {
      AssembleSplit(a[1..], b);
      assert (a + b)[0] == a[0] && (a + b)[1..] == a[1..] + b;
      Associative(AssembleOne(a[0]), Assemble(a[1..]), Assemble(b));
    }
  }

  /** Past the opcode limit the scanner still stops between two instructions. */
  lemma ScanOfLongStream(body: seq<Instr>, tail: seq<byte>, n: nat, limit: nat)
    requires AllWellFormed(body) && |body| >= limit && |Stream(body) + tail| <= n < TWO63
    ensures (Scan(Stream(body) + tail, n, EMPTY, limit)
          == Scanned(Execute(body[..limit], EMPTY).globals, Stream(body[limit..]) + tail))
  {
    hide Assemble, Execute, AssembleOne, WellFormed;
    var head, last := body[..limit], body[limit..];
    AssembleSplit(head, last);
    assert body == head + last;
    Associative(Assemble(head), Assemble(last), [0x2E]);
    Associative(Assemble(head), Stream(last), tail);
    ScanFollowsAssembly(head, Stream(last) + tail, n, EMPTY, limit);
    assert Scan(Stream(last) + tail, n, Execute(head, EMPTY), 0) == Scanned(Execute(head, EMPTY).globals, Stream(last) + tail);
  }

  // ----- What is recovered -----

  /** The (module, name) pairs alone: the reduced flag is a heuristic. */
  function Names(globals: seq<Reference>): (ns: seq<(text, text)>)
    ensures |ns| == |globals|
  {
    seq(|globals|, k requires 0 <= k < |globals| => (globals[k].moduleName, globals[k].name))
  }

  function Recovered(code: seq<Instr>): seq<(text, text)> {
    Names(Execute(code, EMPTY).globals)
  }

  lemma {:induction false} ExecuteSplit(a: seq<Instr>, b: seq<Instr>, m: Machine)
    ensures Execute(a + b, m) == Execute(b, Execute(a, m))
    decreases |a|
  {
    hide Step;
    if a == [] {
      assert a + b == b;
    } else {
      ExecuteSplit(a[1..], b, Step(a[0], m));
      assert (a + b)[1..] == a[1..] + b;
    }
  }

  lemma ExecuteNext(code: seq<Instr>, k: nat, m: Machine)
    requires k < |code|
    ensures Execute(code[..k + 1], m) == Step(code[k], Execute(code[..k], m))
  {
    hide Step;
    ExecuteSplit(code[..k], [code[k]], m);
    assert code[..k + 1] == code[..k] + [code[k]];
    assert Execute([code[k]], Execute(code[..k], m)) == Execute([], Step(code[k], Execute(code[..k], m)));
  }

  /** Stores into the memo, and the protocol and frame headers: they leave every value where it is. */
  predicate Transparent(op: byte) {
    op as char in {'p', 'q', 'r'} || op in {0x94, 0x80, 0x95}
  }

  /** The instruction pushes this string. */
  predicate Pushes(x: Instr, s: text) {
    (EffectOf(x.op) == PushText && s == x.first) || (EffectOf(x.op) == PushQuoted && s == Unquote(x.first))
  }

  /** The last two values before instruction `k` are these strings, with only transparent opcodes in between. */
  ghost predicate JustPushed(code: seq<Instr>, k: nat, a: text, b: text)
    requires k <= |code|
  {
    exists p, q :: 0 <= p < q < k && Pushes(code[p], a) && Pushes(code[q], b)
      && (forall j :: p < j < k && j != q ==> Transparent(code[j].op))
  }

  /** The stack, and hence everything, is untouched from one index to the next over transparent opcodes. */
  lemma {:induction false} TransparentRun(code: seq<Instr>, from: nat, to: nat)
    requires from <= to <= |code| && forall j :: from <= j < to ==> Transparent(code[j].op)
    ensures Execute(code[..to], EMPTY) == Execute(code[..from], EMPTY)
  {
    hide Execute, EffectOf, Transparent;
    if from < to {
      TransparentRun(code, from, to - 1);
      ExecuteNext(code, to - 1, EMPTY);
      TransparentKeeps(code[to - 1].op);
    }
  }

  lemma TransparentKeeps(op: byte)
    requires Transparent(op)
    ensures EffectOf(op) == Keep
  {
  }

  lemma PushedIsOnTop(code: seq<Instr>, k: nat, a: text, b: text)
    requires k <= |code| && JustPushed(code, k, a, b)
    ensures var stack := Execute(code[..k], EMPTY).stack;
            |stack| >= 2 && stack[|stack| - 2].value == a && stack[|stack| - 1].value == b
  {
    hide Execute, EffectOf, Transparent, Unquote;
    var p, q :| 0 <= p < q < k && Pushes(code[p], a) && Pushes(code[q], b)
             && (forall j :: p < j < k && j != q ==> Transparent(code[j].op));
    ExecuteNext(code, p, EMPTY);
    TransparentRun(code, p + 1, q);
    ExecuteNext(code, q, EMPTY);
    TransparentRun(code, q + 1, k);
  }

  predicate IsReal(s: text) {
    !IsMarkOrEmpty(s)
  }

  predicate NamesReference(op: byte) {
    EffectOf(op) == PopPair || EffectOf(op) == Import || EffectOf(op) == Instance
  }

  /** What each instruction adds to the recovered list: GLOBAL and INST their pair; STACK_GLOBAL the two strings just
      pushed; every other instruction nothing.  Nothing is ever dropped or reordered. */
  lemma RecoveredStepByStep(code: seq<Instr>, k: nat)
    requires k < |code|
    ensures Recovered(code[..k]) <= Recovered(code[..k + 1])
    ensures |Recovered(code[..k + 1])| <= |Recovered(code[..k])| + 1
    ensures !NamesReference(code[k].op) ==> Recovered(code[..k + 1]) == Recovered(code[..k])
    ensures (EffectOf(code[k].op) == Import || EffectOf(code[k].op) == Instance
             ==> Recovered(code[..k + 1]) == Recovered(code[..k]) + [(code[k].first, code[k].second)])
    ensures forall a, b :: (EffectOf(code[k].op) == PopPair && JustPushed(code, k, a, b) && IsReal(a) && IsReal(b)
                            ==> Recovered(code[..k + 1]) == Recovered(code[..k]) + [(a, b)])
  {
    hide Execute, EffectOf, JustPushed, IsMarkOrEmpty;
    ExecuteNext(code, k, EMPTY);
    var m := Execute(code[..k], EMPTY);
    NamesAfterStep(code[k], m);
    forall a, b | EffectOf(code[k].op) == PopPair && JustPushed(code, k, a, b) && IsReal(a) && IsReal(b)
      ensures Recovered(code[..k + 1]) == Recovered(code[..k]) + [(a, b)]
    {
      PushedIsOnTop(code, k, a, b);
    }
  }

  /** The names a single instruction adds. */
  lemma NamesAfterStep(x: Instr, m: Machine)
    ensures var before, after, n := Names(m.globals), Names(Step(x, m).globals), |m.stack|;
            if EffectOf(x.op) == Import || EffectOf(x.op) == Instance then after == before + [(x.first, x.second)]
            else if EffectOf(x.op) == PopPair && n >= 2 && IsReal(m.stack[n - 2].value) && IsReal(m.stack[n - 1].value)
            then after == before + [(m.stack[n - 2].value, m.stack[n - 1].value)]
            else after == before
  {
    hide EffectOf, IsMarkOrEmpty, DropToMark, Unquote;
  }

  /** GLOBAL, INST and the opcode tested by name: the table's entries for them. */
  lemma NamingOpcodes(op: byte)
    ensures EffectOf(op) == Import <==> op as char == 'c'
    ensures EffectOf(op) == Instance <==> op as char == 'i'
    ensures EffectOf(op) == PopPair <==> op == 0x93
  {
  }

  // ----- Damage -----

  /** A count read at this position takes the position past the largest integer. */
  predicate CountOverflows(shape: Shape, n: nat, rest: seq<byte>) {
    match shape
    case Width(w) => n - |rest| + w >= TWO63
    case Prefixed(w) =>
      n - |rest| + w >= TWO63
      || (w <= |rest| && Wrap64(Little(rest[..w])) >= 0 && n - |rest| + w + Wrap64(Little(rest[..w])) >= TWO63)
    case _ => false
  }

  /** Some count among the instructions the scan gets to does. */
  predicate Overflows(rest: seq<byte>, n: nat, limit: nat)
    decreases |rest|
  {
    limit > 0 && rest != [] &&
    var shape, after := ShapeOf(rest[0]), rest[1..];
    shape != Halt && shape != Unsupported &&
    (CountOverflows(shape, n, after)
     || (var a := ArgumentsOf(shape, n, after); a.Read? && Overflows(a.left, n, limit - 1)))
  }

  lemma CrashIsOverflow(shape: Shape, n: nat, rest: seq<byte>)
    requires |rest| <= n
    ensures ArgumentsOf(shape, n, rest).Crash? <==> CountOverflows(shape, n, rest)
  {
    hide Little, TakeLine, Wrap64;
  }

  /** Whatever bytes come next: the scan panics exactly if a count it reads overflows, and otherwise a name once recovered
      stays. */
  lemma {:induction false} ScanKeepsNames(rest: seq<byte>, n: nat, m: Machine, limit: nat)
    requires |rest| <= n
    ensures Scan(rest, n, m, limit).Panicked? <==> Overflows(rest, n, limit)
    ensures Scan(rest, n, m, limit).Scanned? ==> Names(m.globals) <= Names(Scan(rest, n, m, limit).globals)
    decreases |rest|
  {
    hide ShapeOf, EffectOf, Perform, ArgumentsOf, CountOverflows, IsMarkOrEmpty;
    if limit > 0 && rest != [] && ShapeOf(rest[0]) != Halt && ShapeOf(rest[0]) != Unsupported {
      CrashIsOverflow(ShapeOf(rest[0]), n, rest[1..]);
      var read := ArgumentsOf(ShapeOf(rest[0]), n, rest[1..]);
      if read.Read? {
        var x := Instr(rest[0], read.first, read.second);
        NamesAfterStep(x, m);
        ScanKeepsNames(read.left, n, Step(x, m), limit - 1);
      }
    }
  }

  /** The names the scan of a whole file gives to its caller; none after a panic. */
  function Reported(data: seq<byte>, limit: nat): seq<(text, text)> {
    match Scan(data, |data|, EMPTY, limit)
    case Panicked => []
    case Scanned(globals, _) => Names(globals)
  }

  /** Truncation, damage or an unknown opcode further on hides what the instructions before it named if and only if they
      named something and a count read in the damaged part takes the position past the largest integer. */
  lemma DamageHidesExactly(code: seq<Instr>, damaged: seq<byte>, limit: nat)
    requires AllWellFormed(code) && |code| <= limit && |Assemble(code) + damaged| < TWO63
    ensures var data := Assemble(code) + damaged;
            (Recovered(code) <= Reported(data, limit)
             <==> Recovered(code) == [] || !Overflows(damaged, |data|, limit - |code|))
  {
    hide Scan, Execute, Assemble, WellFormed, Overflows;
    var n := |Assemble(code) + damaged|;
    ScanFollowsAssembly(code, damaged, n, EMPTY, limit);
    ScanKeepsNames(damaged, n, Execute(code, EMPTY), limit - |code|);
  }

  /** BINUNICODE8 with the largest length. */
  const HUGE: seq<byte> := [0x8D, 0xFF, 0xFF, 0xFF, 0xFF, 0xFF, 0xFF, 0xFF, 0x7F]

  /** Behind any program this loses everything the program named. */
  lemma HugeLengthLosesAll(code: seq<Instr>, limit: nat)
    requires AllWellFormed(code) && |code| < limit && |Assemble(code) + HUGE| < TWO63
    ensures Scan(Assemble(code) + HUGE, |Assemble(code) + HUGE|, EMPTY, limit) == Panicked
    ensures Overflows(HUGE, |Assemble(code) + HUGE|, limit - |code|)
  {
    hide Execute, Assemble, WellFormed, Scan;
    var n := |Assemble(code) + HUGE|;
    HugeLength();
    assert CountOverflows(Prefixed(8), n, HUGE[1..]);
    ScanFollowsAssembly(code, HUGE, n, EMPTY, limit);
    ScanKeepsNames(HUGE, n, Execute(code, EMPTY), limit - |code|);
  }

  lemma HugeLength()
    ensures ShapeOf(HUGE[0]) == Prefixed(8) && |HUGE[1..]| == 8 && HUGE[1..][..8] == HUGE[1..]
    ensures Wrap64(Little(HUGE[1..][..8])) == TWO63 - 1
  {
    var b := HUGE[1..];
    assert b == [0xFF, 0xFF, 0xFF, 0xFF, 0xFF, 0xFF, 0xFF, 0x7F];
    assert b[..8] == b;
    assert Little(b[7..]) == 0x7F by { assert b[7..] == [0x7F] && [0x7F][1..] == []; }
    assert Little(b[6..]) == 0xFF + 256 * Little(b[7..]) by { assert b[6..][1..] == b[7..]; }
    assert Little(b[5..]) == 0xFF + 256 * Little(b[6..]) by { assert b[5..][1..] == b[6..]; }
    assert Little(b[4..]) == 0xFF + 256 * Little(b[5..]) by { assert b[4..][1..] == b[5..]; }
    assert Little(b[3..]) == 0xFF + 256 * Little(b[4..]) by { assert b[3..][1..] == b[4..]; }
    assert Little(b[2..]) == 0xFF + 256 * Little(b[3..]) by { assert b[2..][1..] == b[3..]; }
    assert Little(b[1..]) == 0xFF + 256 * Little(b[2..]) by { assert b[1..][1..] == b[2..]; }
    assert Little(b) == 0xFF + 256 * Little(b[1..]);
  }

  // ----- Several streams -----

  predicate WithinLimit(body: seq<Instr>, limit: nat) {
    AllWellFormed(body) && |body| < limit
  }

  function Concatenated(streams: seq<seq<Instr>>): seq<byte> {
    if streams == [] then [] else Stream(streams[0]) + Concatenated(streams[1..])
  }

  /** The references of the first `n` streams, each disassembled on its own. */
  function Separately(streams: seq<seq<Instr>>, n: nat): seq<Reference> {
    if n == 0 || streams == [] then [] else Execute(streams[0], EMPTY).globals + Separately(streams[1..], n - 1)
  }

  /** Concatenated streams give the concatenation of their separate results, for as many streams as are allowed. */
  lemma {:induction false} StreamsConcatenate(streams: seq<seq<Instr>>, n: nat, limit: nat)
    requires forall k :: 0 <= k < |streams| ==> WithinLimit(streams[k], limit)
    requires |Concatenated(streams)| < TWO63
    ensures ScanStreams(Concatenated(streams), n, limit) == References(Separately(streams, n))
    decreases n
  {
    hide Scan, Execute, AllWellFormed;
    if n > 0 && streams != [] {
      var rest := Concatenated(streams);
      assert WithinLimit(streams[0], limit);
      ScanOfStream(streams[0], Concatenated(streams[1..]), |rest|, limit);
      StreamsConcatenate(streams[1..], n - 1, limit);
    }
  }
}
