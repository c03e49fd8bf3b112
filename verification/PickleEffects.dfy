/** What each pickle opcode does to the shadow stack and to the list of references, opcode by opcode, and when a
    reference ends up flagged as called. */
module PickleEffects {
  import opened Bytes
  import opened Pickle
  import opened PickleFacts
  import opened PickleOpcodes

  // ----- Values on the stack -----

  function Chars(s: string): text
    requires forall i :: 0 <= i < |s| ==> s[i] < '\U{0080}'
  {
    seq(|s|, i requires 0 <= i < |s| => s[i] as int)
  }

  /** The values the tracker itself pushes start with a zero byte; no other value but the empty one is refused. */
  lemma RealMeaning(s: text)
    ensures IsReal(s) <==> s != [] && s != [0] + Chars("mark") && s != [0] + Chars("global") && s != [0] + Chars("inst")
  {
    assert [0] + Chars("mark") == MARK && [0] + Chars("global") == GLOBAL && [0] + Chars("inst") == INST;
  }

  /** The value between a pair of equal quotes. */
  predicate InQuotes(s: text, t: text) {
    s == Chars("'") + t + Chars("'") || s == Chars("\"") + t + Chars("\"")
  }

  /** Quotes go, once, when they are a pair; any other line is taken as it is. */
  lemma UnquoteMeaning(s: text)
    ensures forall t :: InQuotes(s, t) ==> Unquote(s) == t
    ensures (forall t :: !InQuotes(s, t)) ==> Unquote(s) == s
  {
    forall t | InQuotes(s, t) ensures Unquote(s) == t {
      assert s[1..|s| - 1] == t;
    }
    if Unquote(s) != s {
      assert s == [s[0]] + s[1..|s| - 1] + [s[0]];
      assert InQuotes(s, s[1..|s| - 1]);
    }
  }

  // ----- One opcode -----

  /** The opcode leaves one value without a string on the stack, whatever it takes from the real one. */
  predicate PushesBlank(op: Opcode) {
    op.BinBytes? || op.ShortBinBytes? || op.BinBytes8? || op.ByteArray8?
    || op.Int? || op.Long? || op.Float? || op.BinInt? || op.BinInt1? || op.BinInt2? || op.BinFloat? || op.Long1? || op.Long4?
    || op.Get? || op.BinGet? || op.LongBinGet? || op.PersId? || op.BinPersId? || op.Ext1? || op.Ext2? || op.Ext4?
    || op.NoneObject? || op.NewTrue? || op.NewFalse? || op.EmptyTuple? || op.EmptyList? || op.EmptyDict? || op.EmptySet?
    || op.Tuple? || op.Tuple1? || op.Tuple2? || op.Tuple3? || op.List? || op.Dict? || op.FrozenSet? || op.Obj? || op.NewObj?
    || op.NewObjEx? || op.Appends? || op.AddItems? || op.NextBuffer? || op.ReadonlyBuffer?
  }

  /** The opcode pushes a string of its own. */
  predicate PushesText(op: Opcode) {
    op.String? || op.Unicode? || op.BinString? || op.ShortBinString? || op.BinUnicode? || op.ShortBinUnicode? || op.BinUnicode8?
  }

  /** The opcode leaves the tracked stack alone, though the real machine may not. */
  predicate Leaves(op: Opcode) {
    Neutral(op) || op.Append? || op.Build? || op.SetItem? || op.SetItems? || op.Dup?
  }

  function Plain(value: text): Slot {
    Slot(value, false, -1)
  }

  lemma LeavingCode(op: Opcode)
    requires Leaves(op)
    ensures EffectOf(Coded(op).op) == Keep
  {
    if Neutral(op) {
      hide EffectOf, CodeOf, Neutral, Transparent;
      NeutralIsTransparent(op);
      TransparentKeeps(Coded(op).op);
    }
  }

  /** The opcode bytes with an effect other than pushing a blank. */
  predicate HasEffect(b: byte) {
    b == 0x28 || b == 0x31 || b == 0x30 || b == 0x52 || b == 0x63 || b == 0x69 || b == 0x93 || b == 0x53
    || b == 0x56 || b == 0x54 || b == 0x55 || b == 0x58 || b == 0x8C || b == 0x8D
    || b == 0x61 || b == 0x62 || b == 0x73 || b == 0x75 || b == 0x32 || b == 0x70 || b == 0x71 || b == 0x72
    || b == 0x94 || b == 0x80 || b == 0x95
  }

  lemma OtherBytes(b: byte)
    requires !HasEffect(b)
    ensures EffectOf(b) == PushBlank
  {
  }

  lemma BlankBytes(op: Opcode)
    requires PushesBlank(op)
    ensures !HasEffect(CodeOf(op))
  {
  }

  lemma BlankCode(op: Opcode)
    requires PushesBlank(op)
    ensures EffectOf(Coded(op).op) == PushBlank
  {
    hide CodeOf, EffectOf, HasEffect, PushesBlank;
    BlankBytes(op);
    OtherBytes(CodeOf(op));
  }

  lemma OwnCode(op: Opcode)
    requires !Leaves(op) && !PushesBlank(op) && !PushesText(op)
    ensures EffectOf(Coded(op).op) ==
            match op
            case Global(_, _) => Import
            case Inst(_, _) => Instance
            case StackGlobal => PopPair
            case Reduce => Effect.Reduce
            case Mark => PushMark
            case PopMark => PopToMark
            case _ => PopOne
    ensures op.Global? || op.Inst? || op.StackGlobal? || op.Reduce? || op.Mark? || op.PopMark? || op.Pop?
  {
  }

  /** Opcodes of a kind do what the kind says. */
  lemma KindMeaning(op: Opcode, m: Machine)
    ensures Leaves(op) ==> Step(Coded(op), m) == m
    ensures PushesBlank(op) ==> Step(Coded(op), m) == Machine(m.stack + [Plain([])], m.globals)
    ensures forall s :: PushesString(op, s) ==> Step(Coded(op), m) == Machine(m.stack + [Plain(s)], m.globals)
  {
    hide Leaves, PushesBlank, EffectOf, CodeOf, PushesString, FirstArgument, Unquote;
    if Leaves(op) {
      LeavingCode(op);
    }
    if PushesBlank(op) {
      BlankCode(op);
    }
    forall s | PushesString(op, s) ensures Step(Coded(op), m) == Machine(m.stack + [Plain(s)], m.globals) {
      StringsArePushed(op, s);
    }
  }

  /** What an entry standing for the next reference looks like. */
  function Standing(m: Machine): Slot {
    Slot([0] + Chars("global"), true, |m.globals|)
  }

  function Nameless(): Slot {
    Plain([0] + Chars("global"))
  }

  predicate IsMark(s: Slot) {
    s.value == [0] + Chars("mark")
  }

  /** The stack is cut at its topmost mark, or emptied when it has none. */
  ghost predicate CutAtMark(stack: seq<Slot>, left: seq<Slot>) {
    left <= stack && (forall k :: |left| < k < |stack| ==> !IsMark(stack[k]))
    && if stack == [] then left == [] else |left| < |stack| && (IsMark(stack[|left|]) || left == [])
  }

  /** The other opcodes: GLOBAL pushes an entry that stands for its reference, INST one that does not, and its reference
      counts as called; STACK_GLOBAL takes two values and names a reference when both are strings; REDUCE takes two values
      and marks the reference the lower one stands for as called. */
  lemma NamedMeaning(op: Opcode, m: Machine)
    requires !Leaves(op) && !PushesBlank(op) && !PushesText(op)
    ensures var m', n := Step(Coded(op), m), |m.stack|;
            match op
            case Global(a, b) => m' == Machine(m.stack + [Standing(m)], m.globals + [Reference(a, b, false)])
            case Inst(a, b) => m' == Machine(m.stack + [Plain([0] + Chars("inst"))], m.globals + [Reference(a, b, true)])
            case StackGlobal =>
              if n < 2 then m' == Machine(m.stack + [Nameless()], m.globals)
              else
                var a, b := m.stack[n - 2].value, m.stack[n - 1].value;
                if IsReal(a) && IsReal(b)
                then m' == Machine(m.stack[..n - 2] + [Standing(m)], m.globals + [Reference(a, b, false)])
                else m' == Machine(m.stack[..n - 2] + [Nameless()], m.globals)
            case Reduce =>
              if n < 2 then m' == Machine(m.stack + [Plain([])], m.globals)
              else
                var callable := m.stack[n - 2];
                m'.stack == m.stack[..n - 2] + [Plain([])] && |m'.globals| == |m.globals|
                && forall r :: 0 <= r < |m.globals| ==>
                     m'.globals[r] == m.globals[r].(reduced := m.globals[r].reduced || (callable.global && callable.gi == r))
            case Mark => m' == Machine(m.stack + [Plain([0] + Chars("mark"))], m.globals)
            case PopMark => m'.globals == m.globals && CutAtMark(m.stack, m'.stack)
            case _ => m'.globals == m.globals && m'.stack == if n == 0 then [] else m.stack[..n - 1]
  {
    hide EffectOf, CodeOf, Leaves, PushesBlank, PushesText, IsMarkOrEmpty, Unquote;
    OwnCode(op);
    assert [0] + Chars("mark") == MARK && [0] + Chars("global") == GLOBAL && [0] + Chars("inst") == INST;
  }

  // ----- Whole programs -----

  function After(ops: seq<Opcode>): Machine {
    Execute(Program(ops), EMPTY)
  }

  lemma AfterNext(ops: seq<Opcode>, k: nat)
    requires k < |ops|
    ensures After(ops[..k + 1]) == Step(Coded(ops[k]), After(ops[..k]))
  {
    hide Step, Coded, Execute;
    var code := Program(ops);
    assert Program(ops[..k]) == code[..k] && Program(ops[..k + 1]) == code[..k + 1];
    ExecuteNext(code, k, EMPTY);
  }

  /** Entries that stand for a reference stand for one that is there; the others stand for none. */
  ghost predicate Tidy(m: Machine) {
    forall s :: s in m.stack ==> if s.global then s.value == [0] + Chars("global") && 0 <= s.gi < |m.globals| else s.gi == -1
  }

  lemma SomeText(op: Opcode) returns (s: text)
    requires PushesText(op)
    ensures PushesString(op, s)
  {
    s := if op.String? then Unquote(op.line) else FirstArgument(op);
  }

  lemma NamedIsTidy(op: Opcode, m: Machine)
    requires Tidy(m) && !Leaves(op) && !PushesBlank(op) && !PushesText(op)
    ensures Tidy(Step(Coded(op), m)) && |Step(Coded(op), m).globals| >= |m.globals|
  {
    hide Step, Coded, Leaves, PushesBlank, PushesText, PushesString, IsReal, IsMark, Chars;
    NamedMeaning(op, m);
    OwnKinds(op);
    var m', n := Step(Coded(op), m), |m.stack|;
    forall s | s in m'.stack && s in m.stack ensures if s.global then s.value == [0] + Chars("global") && 0 <= s.gi < |m'.globals| else s.gi == -1 {
    }
  }

  lemma OwnKinds(op: Opcode)
    requires !Leaves(op) && !PushesBlank(op) && !PushesText(op)
    ensures op.Global? || op.Inst? || op.StackGlobal? || op.Reduce? || op.Mark? || op.PopMark? || op.Pop?
  {
  }

  lemma StepIsTidy(op: Opcode, m: Machine)
    requires Tidy(m)
    ensures Tidy(Step(Coded(op), m)) && |Step(Coded(op), m).globals| >= |m.globals|
  {
    hide Step, Coded, Leaves, PushesBlank, PushesText, PushesString, Chars;
    KindMeaning(op, m);
    if PushesText(op) {
      var s := SomeText(op);
    } else if !Leaves(op) && !PushesBlank(op) {
      NamedIsTidy(op, m);
    }
  }

  lemma {:induction false} AfterIsTidy(ops: seq<Opcode>)
    ensures Tidy(After(ops))
  {
    hide Step, Coded, Execute, Program;
    if ops == [] {
      NothingYet();
    } else {
      var n := |ops| - 1;
      assert ops[..n + 1] == ops;
      AfterIsTidy(ops[..n]);
      AfterNext(ops, n);
      StepIsTidy(ops[n], After(ops[..n]));
    }
  }

  lemma NothingYet()
    ensures After([]) == EMPTY && Tidy(EMPTY)
  {
  }

  /** The entry under the topmost one when opcode `k` runs stands for reference `r`. */
  predicate StandsBelowTop(m: Machine, r: nat) {
    |m.stack| >= 2 && m.stack[|m.stack| - 2].global && m.stack[|m.stack| - 2].gi == r
  }

  /** Opcode `k` marks reference `r` as called: it is the INST that names it, or a REDUCE of the entry standing for it. */
  predicate Calls(ops: seq<Opcode>, k: nat, r: nat)
    requires k < |ops|
  {
    var m := After(ops[..k]);
    (ops[k].Inst? && r == |m.globals|) || (ops[k].Reduce? && StandsBelowTop(m, r))
  }

  ghost predicate EverCalled(ops: seq<Opcode>, r: nat) {
    exists k :: 0 <= k < |ops| && Calls(ops, k, r)
  }

  /** One opcode's part in the flags. */
  lemma FlagStep(op: Opcode, m: Machine, r: nat)
    requires Tidy(m) && r < |Step(Coded(op), m).globals|
    ensures var flag := Step(Coded(op), m).globals[r].reduced;
            flag <==> (r < |m.globals| && m.globals[r].reduced) || (op.Inst? && r == |m.globals|) || (op.Reduce? && StandsBelowTop(m, r))
  {
    hide Step, Coded, Leaves, PushesBlank, PushesText, PushesString, IsReal, CutAtMark, Chars;
    KindMeaning(op, m);
    KindsApart(op);
    if PushesText(op) {
      var s := SomeText(op);
    } else if !Leaves(op) && !PushesBlank(op) {
      NamedMeaning(op, m);
      if StandsBelowTop(m, r) {
        BelowTop(m, r);
      }
    }
  }

  lemma KindsApart(op: Opcode)
    ensures op.Inst? || op.Reduce? || op.Global? || op.StackGlobal? ==> !Leaves(op) && !PushesBlank(op) && !PushesText(op)
  {
  }

  lemma BelowTop(m: Machine, r: nat)
    requires Tidy(m) && StandsBelowTop(m, r)
    ensures r < |m.globals|
  {
    assert m.stack[|m.stack| - 2] in m.stack;
  }

  lemma CallsEarlier(ops: seq<Opcode>, n: nat, k: nat, r: nat)
    requires k < n <= |ops|
    ensures Calls(ops[..n], k, r) <==> Calls(ops, k, r)
  {
    hide After, StandsBelowTop;
    assert ops[..n][..k] == ops[..k];
  }

  lemma EverCalledNext(ops: seq<Opcode>, r: nat)
    requires ops != []
    ensures EverCalled(ops, r) <==> EverCalled(ops[..|ops| - 1], r) || Calls(ops, |ops| - 1, r)
  {
    hide Calls;
    var n := |ops| - 1;
    forall k | 0 <= k < n ensures Calls(ops[..n], k, r) <==> Calls(ops, k, r) {
      CallsEarlier(ops, n, k, r);
    }
  }

  /** A reference is marked as called exactly when an INST named it, or a REDUCE ran while the entry standing for it was
      under the topmost one. */
  lemma {:induction false} FlaggedExactly(ops: seq<Opcode>, r: nat)
    requires r < |After(ops).globals|
    ensures After(ops).globals[r].reduced <==> EverCalled(ops, r)
  {
    hide After, EverCalled, Tidy, Step, Coded, StandsBelowTop;
    if ops == [] {
      NothingYet();
    } else {
      var n := |ops| - 1;
      var m := After(ops[..n]);
      assert ops[..n + 1] == ops;
      AfterNext(ops, n);
      AfterIsTidy(ops[..n]);
      FlagStep(ops[n], m, r);
      EverCalledNext(ops, r);
      if r < |m.globals| {
        FlaggedExactly(ops[..n], r);
      } else {
        NotYetCalled(ops[..n], r);
      }
    }
  }

  /** What is not named yet is not called. */
  lemma NotYetCalled(ops: seq<Opcode>, r: nat)
    requires r >= |After(ops).globals|
    ensures !EverCalled(ops, r)
  {
    hide After, Tidy, Step, Coded;
    forall k | 0 <= k < |ops| ensures !Calls(ops, k, r) {
      ReferencesStay(ops, k, |ops|);
      ReferencesStay(ops, k + 1, |ops|);
      assert ops[..|ops|] == ops;
      AfterNext(ops, k);
      AfterIsTidy(ops[..k]);
      if Calls(ops, k, r) {
        NewReference(ops[k], After(ops[..k]), r);
      }
    }
  }

  /** A reference an opcode calls is there afterwards. */
  lemma NewReference(op: Opcode, m: Machine, r: nat)
    requires Tidy(m) && ((op.Inst? && r == |m.globals|) || StandsBelowTop(m, r))
    ensures r < |Step(Coded(op), m).globals|
  {
    hide Step, Coded;
    StepIsTidy(op, m);
    if StandsBelowTop(m, r) {
      BelowTop(m, r);
    } else {
      KindsApart(op);
      NamedMeaning(op, m);
    }
  }

  lemma {:induction false} ReferencesStay(ops: seq<Opcode>, j: nat, k: nat)
    requires j <= k <= |ops|
    ensures |After(ops[..j]).globals| <= |After(ops[..k]).globals|
  {
    hide After, Tidy, Step, Coded;
    if j < k {
      ReferencesStay(ops, j, k - 1);
      AfterIsTidy(ops[..k - 1]);
      AfterNext(ops, k - 1);
      StepIsTidy(ops[k - 1], After(ops[..k - 1]));
    }
  }

  /** Over opcodes that leave the stack alone nothing changes. */
  lemma {:induction false} NothingHappens(ops: seq<Opcode>, from: nat, to: nat)
    requires from <= to <= |ops| && forall j :: from <= j < to ==> Leaves(ops[j])
    ensures After(ops[..to]) == After(ops[..from])
  {
    hide After, Leaves, Step, Coded;
    if from < to {
      NothingHappens(ops, from, to - 1);
      AfterNext(ops, to - 1);
      KindMeaning(ops[to - 1], After(ops[..to - 1]));
    }
  }

  /** A GLOBAL, one opcode that builds the arguments, and a REDUCE, with nothing but opcodes in between that leave the stack
      alone: the reference is marked as called. */
  lemma CallIsSeen(ops: seq<Opcode>, p: nat, q: nat, k: nat)
    requires p < q < k < |ops| && ops[p].Global? && PushesBlank(ops[q]) && ops[k].Reduce?
    requires forall j :: p < j < k && j != q ==> Leaves(ops[j])
    ensures var r := |After(ops[..p]).globals|;
            r < |After(ops).globals| && After(ops).globals[r].reduced
  {
    hide After, Leaves, PushesBlank, Step, Coded, EverCalled, Chars;
    var m := After(ops[..p]);
    var r := |m.globals|;
    AfterNext(ops, p);
    KindsApart(ops[p]);
    NamedMeaning(ops[p], m);
    NothingHappens(ops, p + 1, q);
    AfterNext(ops, q);
    KindMeaning(ops[q], After(ops[..q]));
    NothingHappens(ops, q + 1, k);
    assert StandsBelowTop(After(ops[..k]), r);
    assert Calls(ops, k, r);
    ReferencesStay(ops, p + 1, |ops|);
    assert ops[..|ops|] == ops;
    SomeCall(ops, k, r);
    FlaggedExactly(ops, r);
  }

  lemma SomeCall(ops: seq<Opcode>, k: nat, r: nat)
    requires k < |ops| && Calls(ops, k, r)
    ensures EverCalled(ops, r)
  {
  }

  /** The whole report of a program's bytes closed by STOP, flags included, whatever follows the STOP. */
  lemma ReportOfProgram(ops: seq<Opcode>, tail: seq<byte>, limit: nat)
    requires AllWritable(ops) && |ops| < limit && |WriteAll(ops) + [0x2E] + tail| < TWO63
    ensures var data := WriteAll(ops) + [0x2E] + tail;
            Scan(data, |data|, EMPTY, limit) == Scanned(After(ops).globals, tail)
  {
    hide Scan, Execute, Assemble, WellFormed, WriteAll, AllWritable;
    WriteAllIsAssembly(ops);
    ScanOfStream(Program(ops), tail, |WriteAll(ops) + [0x2E] + tail|, limit);
  }

  // ----- No other opcode is known -----

  lemma LowBareOpcode(b: byte) returns (op: Opcode)
    requires ShapeOf(b) == Bare && b < 0x65
    ensures CodeOf(op) == b && Writable(op)
  {
    op :=
      if b == 0x28 then Mark
      else if b == 0x29 then EmptyTuple
      else if b == 0x30 then Pop
      else if b == 0x31 then PopMark
      else if b == 0x32 then Dup
      else if b == 0x4E then NoneObject
      else if b == 0x51 then BinPersId
      else if b == 0x52 then Opcode.Reduce
      else if b == 0x5D then EmptyList
      else if b == 0x61 then Append
      else if b == 0x62 then Build
      else Dict;
  }

  lemma MiddleBareOpcode(b: byte) returns (op: Opcode)
    requires ShapeOf(b) == Bare && 0x65 <= b < 0x88
    ensures CodeOf(op) == b && Writable(op)
  {
    op :=
      if b == 0x65 then Appends
      else if b == 0x6C then List
      else if b == 0x6F then Obj
      else if b == 0x73 then SetItem
      else if b == 0x74 then Tuple
      else if b == 0x75 then SetItems
      else if b == 0x7D then EmptyDict
      else if b == 0x81 then NewObj
      else if b == 0x85 then Tuple1
      else if b == 0x86 then Tuple2
      else Tuple3;
  }

  lemma HighBareOpcode(b: byte) returns (op: Opcode)
    requires ShapeOf(b) == Bare && b >= 0x88
    ensures CodeOf(op) == b && Writable(op)
  {
    op :=
      if b == 0x88 then NewTrue
      else if b == 0x89 then NewFalse
      else if b == 0x8F then EmptySet
      else if b == 0x90 then AddItems
      else if b == 0x91 then FrozenSet
      else if b == 0x92 then NewObjEx
      else if b == 0x93 then StackGlobal
      else if b == 0x94 then Memoize
      else if b == 0x97 then NextBuffer
      else ReadonlyBuffer;
  }

  lemma LineOpcode(b: byte) returns (op: Opcode)
    requires ShapeOf(b) == Line || ShapeOf(b) == TwoLines
    ensures CodeOf(op) == b && Writable(op)
  {
    op :=
      if b == 0x53 then String([])
      else if b == 0x56 then Unicode([])
      else if b == 0x49 then Int([])
      else if b == 0x4C then Long([])
      else if b == 0x46 then Float([])
      else if b == 0x70 then Put([])
      else if b == 0x67 then Get([])
      else if b == 0x50 then PersId([])
      else if b == 0x63 then Global([], [])
      else Inst([], []);
  }

  lemma FixedOpcode(b: byte) returns (op: Opcode)
    requires ShapeOf(b).Width?
    ensures CodeOf(op) == b && Writable(op)
  {
    op :=
      if b == 0x4D then BinInt2([0, 0])
      else if b == 0x83 then Ext2([0, 0])
      else if b == 0x4A then BinInt([0, 0, 0, 0])
      else if b == 0x84 then Ext4([0, 0, 0, 0])
      else if b == 0x72 then LongBinPut([0, 0, 0, 0])
      else if b == 0x6A then LongBinGet([0, 0, 0, 0])
      else if b == 0x47 then BinFloat([0, 0, 0, 0, 0, 0, 0, 0])
      else if b == 0x95 then Frame([0, 0, 0, 0, 0, 0, 0, 0])
      else if b == 0x4B then BinInt1(0)
      else if b == 0x71 then BinPut(0)
      else if b == 0x68 then BinGet(0)
      else if b == 0x80 then Proto(0)
      else Ext1(0);
  }

  lemma CountedOpcode(b: byte) returns (op: Opcode)
    requires ShapeOf(b).Prefixed?
    ensures CodeOf(op) == b && Writable(op)
  {
    op :=
      if b == 0x42 then BinBytes([])
      else if b == 0x43 then ShortBinBytes([])
      else if b == 0x8E then BinBytes8([])
      else if b == 0x96 then ByteArray8([])
      else if b == 0x8A then Long1([])
      else if b == 0x8B then Long4([])
      else if b == 0x54 then BinString([])
      else if b == 0x55 then ShortBinString([])
      else if b == 0x58 then BinUnicode([])
      else if b == 0x8C then ShortBinUnicode([])
      else BinUnicode8([]);
  }

  /** A byte the scan goes on from is one of the named opcodes; it stops at every other one. */
  lemma KnownExactly(b: byte)
    ensures ShapeOf(b) == Halt <==> b == 0x2E
    ensures ShapeOf(b) != Halt && ShapeOf(b) != Unsupported <==> exists op :: Writable(op) && CodeOf(op) == b
  {
    HaltByte(b);
    hide ShapeOf, CodeOf, Writable, WellFormed, AssembleOne;
    if ShapeOf(b) != Halt && ShapeOf(b) != Unsupported {
      var op;
      match ShapeOf(b) {
        case Bare =>
          if b < 0x65 {
            op := LowBareOpcode(b);
          } else if b < 0x88 {
            op := MiddleBareOpcode(b);
          } else {
            op := HighBareOpcode(b);
          }
        case Width(_) => op := FixedOpcode(b);
        case Prefixed(_) => op := CountedOpcode(b);
        case _ => op := LineOpcode(b);
      }
    } else {
      forall op | Writable(op) ensures CodeOf(op) != b {
        WrittenIsAssembled(op);
        WellFormedIsKnown(Coded(op));
      }
    }
  }

  lemma HaltByte(b: byte)
    ensures ShapeOf(b) == Halt <==> b == 0x2E
  {
  }

  lemma WellFormedIsKnown(x: Instr)
    requires WellFormed(x)
    ensures ShapeOf(x.op) != Halt && ShapeOf(x.op) != Unsupported
  {
    hide ShapeOf;
  }

  // ----- Arguments cut short -----

  /** Without a newline a line takes everything and is broken; without enough bytes a field takes nothing. */
  lemma BrokenFields(rest: seq<byte>, n: nat, width: nat)
    requires |rest| <= n
    ensures 0x0A !in rest ==> ArgumentsOf(Line, n, rest) == Broken([]) && ArgumentsOf(TwoLines, n, rest) == Broken([])
    ensures |rest| < width && n - |rest| + width < TWO63 ==> ArgumentsOf(Width(width), n, rest) == Broken(rest)
  {
  }

  /** A second line without its newline takes what is left. */
  lemma BrokenSecondLine(first: text, rest: seq<byte>, n: nat)
    requires 0x0A !in first && 0x0A !in rest
    ensures ArgumentsOf(TwoLines, n, first + [0x0A] + rest) == Broken([])
  {
    TakeLineOfLine(first, rest);
    BrokenFields(rest, |rest|, 0);
  }

  /** A count with more bytes than there are, or with more than the largest integer, is taken and nothing behind it. */
  lemma BrokenCount(count: nat, width: nat, rest: seq<byte>, n: nat)
    requires count < Power256(width) && width <= 8 && |LittleBytes(count, width) + rest| <= n < TWO63
    requires (|rest| < count && n - |rest| + count < TWO63) || TWO63 <= count < TWO64
    ensures ArgumentsOf(Prefixed(width), n, LittleBytes(count, width) + rest) == Broken(rest)
  {
    hide Little, LittleBytes, Power256, TakeN;
    LittleOfBytes(count, width);
    TakeNWithin(LittleBytes(count, width), rest, n);
    TooFew(rest, n, Wrap64(count));
  }

  lemma TooFew(rest: seq<byte>, n: nat, count: int)
    requires count < 0 || (|rest| < count && n - |rest| + count < TWO63)
    ensures TakeN(rest, n, count) == Lost(rest)
  {
  }
}
