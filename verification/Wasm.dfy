/** WebAssembly binaries: unsigned LEB128 numbers (section 5.2.2 of the WebAssembly Core Specification) and the walk
    over a module's sections (section 5.5.2) that looks for imports. */
module Wasm {
  import opened Bytes

  const MAX_ULEB_BYTES: nat := 10
  const IMPORT_SECTION: byte := 2
  const HEADER: seq<byte> := [0x00, 0x61, 0x73, 0x6D, 0x01, 0x00, 0x00, 0x00]

  // ----- Numbers -----

  /** Seven bits a byte, lowest first. */
  function Value(b: seq<byte>): nat {
    if b == [] then 0 else b[0] % 128 + 128 * Value(b[1..])
  }

  /** A number's encoding: every byte but the last has the continuation bit.  Padding with zero groups is allowed. */
  predicate IsUleb(b: seq<byte>, n: nat) {
    1 <= |b| <= MAX_ULEB_BYTES && Value(b) == n && b[|b| - 1] < 128 && forall i :: 0 <= i < |b| - 1 ==> b[i] >= 128
  }

  /** The shortest encoding. */
  function Uleb(n: nat): (b: seq<byte>)
    ensures b != []
  {
    if n < 128 then [n] else [128 + n % 128] + Uleb(n / 128)
  }

  function Power128(k: nat): (p: nat)
    ensures p > 0
  {
    if k == 0 then 1 else 128 * Power128(k - 1)
  }

  /** Numbers below 128 to the tenth, and so every number below 2 to the 63rd, fit in ten bytes. */
  lemma {:induction false} UlebFits(n: nat, k: nat)
    requires n < Power128(k) && k > 0
    ensures |Uleb(n)| <= k && Value(Uleb(n)) == n
    ensures Uleb(n)[|Uleb(n)| - 1] < 128 && forall i :: 0 <= i < |Uleb(n)| - 1 ==> Uleb(n)[i] >= 128
    decreases k
  {
    if n >= 128 {
      assert n / 128 < Power128(k - 1);
      assert k == 1 ==> Power128(k) == 128 by { assert Power128(0) == 1; }
      UlebFits(n / 128, k - 1);
      var rest := Uleb(n / 128);
      assert Uleb(n)[1..] == rest;
      assert Uleb(n)[|Uleb(n)| - 1] == rest[|rest| - 1];
      forall i | 0 < i < |Uleb(n)| - 1 ensures Uleb(n)[i] >= 128 {
        assert Uleb(n)[i] == rest[i - 1];
      }
    }
  }

  lemma {:induction false} ValueAppend(b: seq<byte>, x: byte)
    ensures Value(b + [x]) == Value(b) + Power128(|b|) * (x % 128)
  {
    if b == [] {
      assert [x][1..] == [];
    } else {
      ValueAppend(b[1..], x);
      assert (b + [x])[1..] == b[1..] + [x];
      Distribute(Power128(|b| - 1), x % 128);
    }
  }

  lemma Distribute(p: nat, x: nat)
    ensures 128 * (p * x) == (128 * p) * x
  {
  }

  /** Reads up to ten bytes.  A result of no bytes means that none of the prefixes is an encoding; otherwise the result
      is the encoded number as far as a 64-bit integer holds it. */
  method DecodeUleb128(data: seq<byte>) returns (result: int64, n: nat)
    ensures n <= |data| && (n > 0 ==> IsUleb(data[..n], Value(data[..n])) && result == Wrap64(Value(data[..n])))
    ensures n == 0 ==> result == 0 && forall k, v :: 0 <= k <= |data| ==> !IsUleb(data[..k], v)
  {
    result, n := 0, 0;
    var scale: nat := 1;
    var i := 0;
    while i < |data| && i < MAX_ULEB_BYTES
      invariant i <= |data| && i <= MAX_ULEB_BYTES
      invariant forall j :: 0 <= j < i ==> data[j] >= 128
      invariant result == Wrap64(Value(data[..i])) && scale == Power128(i)
    {
      var b := data[i];
      ValueAppend(data[..i], b);
      assert data[..i + 1] == data[..i] + [b];
      WrapSum(Value(data[..i]), scale * (b % 128));
      result := Wrap64(result + scale * (b % 128));
      if b < 128 {
        return result, i + 1;
      }
      scale := 128 * scale;
      i := i + 1;
    }
    NoneEncodes(data, i);
    return 0, 0;
  }

  lemma NoneEncodes(data: seq<byte>, i: nat)
    requires i <= |data| && (i == |data| || i == MAX_ULEB_BYTES) && forall j :: 0 <= j < i ==> data[j] >= 128
    ensures forall k, v :: 0 <= k <= |data| ==> !IsUleb(data[..k], v)
  {
    forall k, v | 0 <= k <= |data| ensures !IsUleb(data[..k], v) {
      if 1 <= k <= MAX_ULEB_BYTES {
        assert data[..k][k - 1] == data[k - 1];
      }
    }
  }

  /** No encoding is the beginning of another. */
  lemma UlebPrefixFree(data: seq<byte>, j: nat, k: nat, u: nat, v: nat)
    requires j <= |data| && k <= |data| && IsUleb(data[..j], u) && IsUleb(data[..k], v)
    ensures j == k && u == v
  {
    hide IsUleb;
    UlebEnd(data, j, u);
    UlebEnd(data, k, v);
    assert Value(data[..j]) == u && Value(data[..k]) == v;
  }

  lemma UlebEnd(data: seq<byte>, k: nat, v: nat)
    requires k <= |data| && IsUleb(data[..k], v)
    ensures k >= 1 && data[k - 1] < 128 && Value(data[..k]) == v && forall i :: 0 <= i < k - 1 ==> data[i] >= 128
  {
    var b := data[..k];
    assert b[k - 1] == data[k - 1];
    forall i | 0 <= i < k - 1 ensures data[i] >= 128 {
      assert b[i] == data[i];
    }
  }

  // ----- Modules -----

  datatype Section = Section(id: byte, size: seq<byte>, payload: seq<byte>)

  /** The size field is an encoding, padded or not, of the payload's length. */
  predicate WellFormed(s: Section) {
    IsUleb(s.size, |s.payload|)
  }

  predicate AllWellFormed(sections: seq<Section>) {
    forall i :: 0 <= i < |sections| ==> WellFormed(sections[i])
  }

  function SectionBytes(s: Section): seq<byte> {
    [s.id] + s.size + s.payload
  }

  function Body(sections: seq<Section>): seq<byte> {
    if sections == [] then [] else SectionBytes(sections[0]) + Body(sections[1..])
  }

  predicate Imports(sections: seq<Section>) {
    exists i :: 0 <= i < |sections| && sections[i].id == IMPORT_SECTION
  }

  predicate LooksLikeWasm(data: seq<byte>) {
    |data| >= 8 && data[..4] == HEADER[..4] && data[4..8] == HEADER[4..]
  }

  /** What stands at the front of some bytes: an encoding of `n` bytes, and the size it encodes. */
  ghost predicate SizeAt(rest: seq<byte>, n: nat, size: nat) {
    n <= |rest| && IsUleb(rest[..n], size)
  }

  // ----- The walk, one section at a time -----

  /** How many bytes the encoding at the front has; none if there is none. */
  function FrontBytes(rest: seq<byte>, k: nat): (n: nat)
    requires k <= |rest| && k <= MAX_ULEB_BYTES && forall j :: 0 <= j < k ==> rest[j] >= 128
    ensures n <= |rest| && (n > 0 ==> IsUleb(rest[..n], Value(rest[..n])))
    ensures n == 0 ==> forall m, v :: 0 <= m <= |rest| ==> !IsUleb(rest[..m], v)
    decreases |rest| - k
  {
    if k == |rest| || k == MAX_ULEB_BYTES then NoneEncodes(rest, k); 0
    else if rest[k] < 128 then k + 1
    else FrontBytes(rest, k + 1)
  }

  /** Where one turn of the loop leads: to an answer, or to another position, which may be a negative one. */
  datatype Turn = Answer(imports: bool) | Jump(position: int64)

  function TurnAt(data: seq<byte>, i: nat): Turn
    requires i < |data|
  {
    var rest := data[i + 1..];
    var n := FrontBytes(rest, 0);
    if n == 0 then Answer(false)
    else if data[i] == IMPORT_SECTION then Answer(true)
    else Jump(Wrap64(i + 1 + n + Wrap64(Value(rest[..n]))))
  }

  /** The state of a run after some turns.  Reading at a negative position is a fault. */
  datatype Run = Answered(imports: bool) | Faulted | At(position: nat)

  function Settle(data: seq<byte>, position: int): Run {
    if position >= |data| then Answered(false) else if position < 0 then Faulted else At(position)
  }

  /** The run from a position, `turns` turns of the loop later. */
  function RunFrom(data: seq<byte>, position: int, turns: nat): Run
    decreases turns
  {
    var now := Settle(data, position);
    if turns == 0 || !now.At? then now
    else
      match TurnAt(data, now.position)
      case Answer(b) => Answered(b)
      case Jump(next) => RunFrom(data, next, turns - 1)
  }

  /** The program's run on a file. */
  function RunOf(data: seq<byte>, turns: nat): Run {
    if !LooksLikeWasm(data) then Answered(false) else RunFrom(data, 8, turns)
  }

  /** The loop as it is, watched for any number of turns: what it has come to by then, on any file. */
  method WasmHasImportSection(data: seq<byte>, turns: nat) returns (r: Run)
    requires |data| < TWO63
    ensures r == RunOf(data, turns)
  {
    hide IsUleb, Value, RunFrom, TurnAt, FrontBytes, LooksLikeWasm;
    if !LooksLikeWasm(data) {
      return Answered(false);
    }
    var i: int64 := 8;
    var turn := 0;
    while i < |data|
      invariant turn <= turns && RunFrom(data, 8, turns) == RunFrom(data, i, turns - turn)
      decreases turns - turn
    {
      RunStep(data, i, turns - turn);
      if i < 0 {
        return Faulted;
      }
      if turn == turns {
        return At(i);
      }
      ghost var start := i;
      var sectionId := data[i];
      i := i + 1;
      if i >= |data| {
        EndHasNoSize(data, start);
        return Answered(false);
      }
      var size, n := DecodeUleb128(data[i..]);
      FrontIsDecoded(data[i..], n);
      TurnWithSize(data, start, n);
      if n <= 0 {
        return Answered(false);
      }
      i := i + n;
      if sectionId == IMPORT_SECTION {
        return Answered(true);
      }
      i := Wrap64(i + size);
      turn := turn + 1;
    }
    RunStep(data, i, turns - turn);
    return Answered(false);
  }

  lemma RunStep(data: seq<byte>, position: int, turns: nat)
    ensures position >= |data| ==> RunFrom(data, position, turns) == Answered(false)
    ensures position < |data| && position < 0 ==> RunFrom(data, position, turns) == Faulted
    ensures 0 <= position < |data| && turns == 0 ==> RunFrom(data, position, turns) == At(position)
    ensures 0 <= position < |data| && turns > 0 ==>
      match TurnAt(data, position)
      case Answer(b) => RunFrom(data, position, turns) == Answered(b)
      case Jump(next) => RunFrom(data, position, turns) == RunFrom(data, next, turns - 1)
  {
    hide TurnAt;
  }

  lemma TurnWithSize(data: seq<byte>, i: nat, n: nat)
    requires i < |data| && n == FrontBytes(data[i + 1..], 0)
    ensures TurnAt(data, i) == if n == 0 then Answer(false)
                               else if data[i] == IMPORT_SECTION then Answer(true)
                               else Jump(Wrap64(i + 1 + n + Wrap64(Value(data[i + 1..][..n]))))
  {
  }

  lemma EndHasNoSize(data: seq<byte>, i: nat)
    requires i + 1 == |data|
    ensures TurnAt(data, i) == Answer(false)
  {
  }

  /** The bytes decoded are those at the front. */
  lemma FrontIsDecoded(rest: seq<byte>, n: nat)
    requires n <= |rest| && (n > 0 ==> IsUleb(rest[..n], Value(rest[..n])))
    requires n == 0 ==> forall k, v :: 0 <= k <= |rest| ==> !IsUleb(rest[..k], v)
    ensures n == FrontBytes(rest, 0)
  {
    hide IsUleb, Value;
    var m := FrontBytes(rest, 0);
    if n > 0 && m > 0 {
      UlebPrefixFree(rest, n, m, Value(rest[..n]), Value(rest[..m]));
    }
  }

  // ----- When the loop ends -----

  /** The run still goes on after this many turns, and stands here. */
  predicate Meets(data: seq<byte>, turns: nat, position: nat) {
    RunOf(data, turns) == At(position)
  }

  predicate Answers(data: seq<byte>, turns: nat) {
    RunOf(data, turns).Answered?
  }

  predicate Faults(data: seq<byte>, turns: nat) {
    RunOf(data, turns).Faulted?
  }

  lemma {:induction false} RunContinues(data: seq<byte>, position: int, a: nat, b: nat)
    ensures var r := RunFrom(data, position, a);
            RunFrom(data, position, a + b) == if r.At? then RunFrom(data, r.position, b) else r
    decreases a
  {
    hide TurnAt;
    var now := Settle(data, position);
    if a > 0 && now.At? {
      match TurnAt(data, now.position)
      case Answer(_) =>
      case Jump(next) => RunContinues(data, next, a - 1, b);
    }
  }

  /** A run that is over stays over, with the same outcome. */
  lemma RunIsFinal(data: seq<byte>, a: nat, b: nat)
    requires a <= b && !RunOf(data, a).At?
    ensures RunOf(data, b) == RunOf(data, a)
  {
    hide RunFrom;
    if LooksLikeWasm(data) {
      RunContinues(data, 8, a, b - a);
    }
  }

  /** A run that comes back to a position goes round for ever. */
  lemma {:induction false} RevisitLoops(data: seq<byte>, a: nat, b: nat, position: nat, turns: nat)
    requires a < b && Meets(data, a, position) && Meets(data, b, position)
    ensures RunOf(data, turns).At?
    decreases turns
  {
    hide RunFrom;
    if turns < b {
      if !RunOf(data, turns).At? {
        RunIsFinal(data, turns, b);
      }
    } else {
      RunContinues(data, 8, b, turns - b);
      RunContinues(data, 8, a, turns - b);
      RevisitLoops(data, a, b, position, turns - b + a);
    }
  }

  /** The run never stands twice at one position. */
  ghost predicate NeverRevisits(data: seq<byte>) {
    forall a, b, i: nat :: 0 <= a < b && Meets(data, a, i) ==> !Meets(data, b, i)
  }

  ghost predicate NeverFaults(data: seq<byte>) {
    forall k: nat :: !Faults(data, k)
  }

  /** The positions of the first turns. */
  function Positions(data: seq<byte>, turns: nat): (ps: set<nat>) {
    if turns == 0 then {}
    else
      var r := RunOf(data, turns - 1);
      Positions(data, turns - 1) + if r.At? then {r.position} else {}
  }

  /** While nothing repeats, each turn brings a new position, and there are no more than the file has bytes. */
  lemma {:induction false} NewPositions(data: seq<byte>, turns: nat)
    requires NeverRevisits(data) && (forall k: nat :: k < turns ==> RunOf(data, k).At?)
    ensures |Positions(data, turns)| == turns
    ensures forall i :: i in Positions(data, turns) ==> i < |data| && exists k: nat :: k < turns && Meets(data, k, i)
  {
    hide RunOf, NeverRevisits;
    if turns > 0 {
      NewPositions(data, turns - 1);
      var p := RunOf(data, turns - 1).position;
      assert Meets(data, turns - 1, p);
      PositionInFile(data, turns - 1, p);
      if p in Positions(data, turns - 1) {
        var k: nat :| k < turns - 1 && Meets(data, k, p);
        NotTwice(data, k, turns - 1, p);
      }
    }
  }

  lemma NotTwice(data: seq<byte>, a: nat, b: nat, i: nat)
    requires NeverRevisits(data) && a < b && Meets(data, a, i)
    ensures !Meets(data, b, i)
  {
  }

  lemma {:induction false} RunStaysInFile(data: seq<byte>, position: int, turns: nat)
    ensures RunFrom(data, position, turns).At? ==> RunFrom(data, position, turns).position < |data|
    decreases turns
  {
    hide TurnAt;
    var now := Settle(data, position);
    if turns > 0 && now.At? {
      match TurnAt(data, now.position)
      case Answer(_) =>
      case Jump(next) => RunStaysInFile(data, next, turns - 1);
    }
  }

  lemma PositionInFile(data: seq<byte>, turns: nat, i: nat)
    requires Meets(data, turns, i)
    ensures i < |data|
  {
    RunStaysInFile(data, 8, turns);
  }

  lemma {:induction false} Bounded(s: set<nat>, n: nat)
    requires forall i :: i in s ==> i < n
    ensures |s| <= n
  {
    if n == 0 {
      assert s == {};
    } else {
      Bounded(s - {n - 1}, n - 1);
    }
  }

  /** The loop ends with an answer if and only if it never reads at a negative position and never comes back to a
      position; which a caller can tell by watching it for as many turns as the file has bytes. */
  lemma AnswersExactly(data: seq<byte>)
    ensures (exists k: nat :: Answers(data, k)) <==> NeverFaults(data) && NeverRevisits(data)
    ensures (exists k: nat :: Answers(data, k)) <==> Answers(data, |data|)
  {
    hide RunOf, NeverRevisits, Positions;
    var end := |data|;
    if k: nat :| Answers(data, k) {
      AnsweredOnce(data, k);
    }
    if NeverFaults(data) && NeverRevisits(data) {
      if RunOf(data, end).At? {
        forall k: nat | k <= end ensures RunOf(data, k).At? {
          if !RunOf(data, k).At? {
            RunIsFinal(data, k, end);
          }
        }
        NewPositions(data, end + 1);
        Bounded(Positions(data, end + 1), |data|);
      }
      assert !Faults(data, end);
      assert Answers(data, end);
    }
  }

  lemma AnsweredOnce(data: seq<byte>, k: nat)
    requires Answers(data, k)
    ensures NeverFaults(data) && NeverRevisits(data)
  {
    hide RunOf;
    forall m: nat ensures !Faults(data, m) {
      if m <= k && Faults(data, m) {
        RunIsFinal(data, m, k);
      } else if m > k {
        RunIsFinal(data, k, m);
      }
    }
    forall a, b, i: nat | 0 <= a < b && Meets(data, a, i) ensures !Meets(data, b, i) {
      if Meets(data, b, i) {
        RevisitLoops(data, a, b, i, k);
      }
    }
  }

  // ----- Sizes that turn negative -----

  function Fill(b: byte, k: nat): (f: seq<byte>)
    ensures |f| == k && forall i :: 0 <= i < k ==> f[i] == b
  {
    if k == 0 then [] else [b] + Fill(b, k - 1)
  }

  lemma ValueCons(x: byte, rest: seq<byte>)
    ensures Value([x] + rest) == x % 128 + 128 * Value(rest)
  {
    assert ([x] + rest)[1..] == rest;
  }

  /** Groups of seven ones, or of seven zeros, before a value. */
  lemma {:induction false} ValueOfFill(b: byte, k: nat, rest: seq<byte>)
    requires b == 0xFF || b == 0x80
    ensures Value(Fill(b, k) + rest) == if b == 0xFF then Power128(k) * (Value(rest) + 1) - 1 else Power128(k) * Value(rest)
  {
    if k == 0 {
      assert Fill(b, 0) + rest == rest;
    } else {
      hide Value;
      ValueOfFill(b, k - 1, rest);
      ValueCons(b, Fill(b, k - 1) + rest);
      assert Fill(b, k) + rest == [b] + (Fill(b, k - 1) + rest);
      if b == 0xFF {
        Distribute(Power128(k - 1), Value(rest) + 1);
      } else {
        Distribute(Power128(k - 1), Value(rest));
      }
    }
  }

  lemma LargePowers()
    ensures Power128(8) == 72057594037927936 && Power128(9) == TWO63
  {
    assert Power128(2) == 16384;
    assert Power128(4) == 268435456;
    assert Power128(6) == 4398046511104;
    assert Power128(8) == 72057594037927936;
  }

  /** One section with id 0, this ten-byte size and nothing else. */
  function OneSizeFile(size: seq<byte>): seq<byte> {
    HEADER + [0] + size
  }

  lemma OneSizeTurn(size: seq<byte>)
    requires |size| == 10 && IsUleb(size, Value(size))
    ensures var data := OneSizeFile(size);
            LooksLikeWasm(data) && |data| == 19 && TurnAt(data, 8) == Jump(Wrap64(19 + Wrap64(Value(size))))
  {
    hide IsUleb, Value;
    var data := OneSizeFile(size);
    assert data[..4] == HEADER[..4] && data[4..8] == HEADER[4..] && data[8] == 0;
    var rest := data[9..];
    assert rest == size && rest[..10] == size;
    FrontIsAny(rest, 10);
  }

  /** A size that decodes to -11 takes the loop back to where it was: on this file it never ends. */
  lemma {:induction false} BackwardsForEver(turns: nat)
    ensures RunOf(OneSizeFile([0xF5] + Fill(0xFF, 8) + [0x01]), turns) == At(8)
    decreases turns
  {
    hide Value, TurnAt, LooksLikeWasm;
    var size := [0xF5] + Fill(0xFF, 8) + [0x01];
    var data := OneSizeFile(size);
    LargePowers();
    OneIsOne();
    ValueOfFill(0xFF, 8, [0x01]);
    ValueCons(0xF5, Fill(0xFF, 8) + [0x01]);
    assert size == [0xF5] + (Fill(0xFF, 8) + [0x01]);
    assert Value(size) == TWO64 - 11;
    OneSizeTurn(size);
    assert TurnAt(data, 8) == Jump(8);
    RunStep(data, 8, turns);
    if turns > 0 {
      BackwardsForEver(turns - 1);
    }
  }

  lemma OneIsOne()
    ensures Value([0x01]) == 1
  {
    assert [0x01][1..] == [];
  }

  /** A size that decodes to the lowest integer takes the loop to a negative position, where it reads out of range. */
  lemma BackwardsOutOfRange()
    ensures RunOf(OneSizeFile(Fill(0x80, 9) + [0x01]), 1) == Faulted
  {
    hide Value, TurnAt, LooksLikeWasm;
    var size := Fill(0x80, 9) + [0x01];
    var data := OneSizeFile(size);
    LargePowers();
    OneIsOne();
    ValueOfFill(0x80, 9, [0x01]);
    assert Value(size) == TWO63;
    OneSizeTurn(size);
    assert TurnAt(data, 8) == Jump(19 - TWO63);
    RunStep(data, 8, 1);
    RunStep(data, 19 - TWO63, 0);
  }

  // ----- Orderly files -----

  /** The answer for the bytes behind the header, without saying how they are read: an id and a size, then either an
      import section or the answer behind the payload. */
  ghost predicate ImportsFrom(rest: seq<byte>)
    decreases |rest|, 1
  {
    rest != [] && exists n, size :: SizeAt(rest[1..], n, size) && ImportsWith(rest, n, size)
  }

  ghost predicate ImportsWith(rest: seq<byte>, n: nat, size: nat)
    requires rest != []
    decreases |rest|, 0
  {
    rest[0] == IMPORT_SECTION || (1 + n + size <= |rest| && ImportsFrom(rest[1 + n + size..]))
  }

  /** The size at the front is the only one there. */
  lemma OneSection(rest: seq<byte>, n: nat, size: nat)
    requires rest != [] && SizeAt(rest[1..], n, size)
    ensures ImportsFrom(rest) <==> ImportsWith(rest, n, size)
  {
    hide ImportsWith, IsUleb, SizeAt;
    if ImportsFrom(rest) {
      var m, s :| SizeAt(rest[1..], m, s) && ImportsWith(rest, m, s);
      OneSize(rest[1..], n, m, size, s);
    }
  }

  lemma OneSize(rest: seq<byte>, n: nat, m: nat, size: nat, s: nat)
    requires SizeAt(rest, n, size) && SizeAt(rest, m, s)
    ensures n == m && size == s
  {
    UlebPrefixFree(rest, n, m, size, s);
  }

  /** A well-formed section in front is skipped whole, or is the import section. */
  lemma SectionInFront(s: Section, tail: seq<byte>)
    requires WellFormed(s)
    ensures ImportsFrom(SectionBytes(s) + tail) <==> s.id == IMPORT_SECTION || ImportsFrom(tail)
  {
    hide IsUleb, ImportsFrom;
    var rest := SectionBytes(s) + tail;
    var n, size := |s.size|, |s.payload|;
    assert rest[1..][..n] == s.size;
    OneSection(rest, n, size);
    assert rest[1 + n + size..] == tail;
  }

  lemma {:induction false} BodyImports(sections: seq<Section>, tail: seq<byte>)
    requires AllWellFormed(sections)
    ensures ImportsFrom(Body(sections) + tail) <==> Imports(sections) || ImportsFrom(tail)
  {
    hide IsUleb, ImportsFrom, SectionBytes;
    if sections == [] {
      assert Body(sections) + tail == tail;
    } else {
      var s, more := sections[0], sections[1..];
      assert WellFormed(s);
      BodyImports(more, tail);
      SectionInFront(s, Body(more) + tail);
      assert Body(sections) + tail == SectionBytes(s) + (Body(more) + tail);
      if Imports(more) {
        var i :| 0 <= i < |more| && more[i].id == IMPORT_SECTION;
        assert sections[i + 1].id == IMPORT_SECTION;
      }
      if Imports(sections) && s.id != IMPORT_SECTION {
        var i :| 0 <= i < |sections| && sections[i].id == IMPORT_SECTION;
        assert more[i - 1].id == IMPORT_SECTION;
      }
    }
  }

  /** The size met at this position, if one decides where the run goes, is below 2 to the 63rd and so is the position
      behind the payload. */
  predicate OrderlyTurn(data: seq<byte>, i: nat)
    requires i < |data|
  {
    var rest := data[i + 1..];
    var n := FrontBytes(rest, 0);
    n == 0 || data[i] == IMPORT_SECTION || i + 1 + n + Value(rest[..n]) < TWO63
  }

  ghost predicate OrderlyFrom(data: seq<byte>, position: int) {
    forall turns: nat :: var r := RunFrom(data, position, turns); r.At? && r.position < |data| ==> OrderlyTurn(data, r.position)
  }

  /** When every size met is orderly, the run ends, and with the answer of the declarative reading. */
  lemma {:induction false} OrderlyAnswers(data: seq<byte>, i: nat, turns: nat)
    requires OrderlyFrom(data, i) && turns + i >= |data|
    ensures RunFrom(data, i, turns) == Answered(i < |data| && ImportsFrom(data[i..]))
    decreases turns
  {
    hide IsUleb, Value, ImportsWith, FrontBytes;
    if i < |data| {
      assert RunFrom(data, i, 0) == At(i);
      assert OrderlyTurn(data, i);
      var rest := data[i..];
      assert rest[1..] == data[i + 1..];
      var n := FrontBytes(data[i + 1..], 0);
      if n == 0 {
        NoSizeInFront(rest);
      } else {
        var size := Value(data[i + 1..][..n]);
        OneSection(rest, n, size);
        if data[i] == IMPORT_SECTION {
          ImportAnswers(rest, n, size);
        } else {
          var j := i + 1 + n + size;
          JumpsTo(data, i, n);
          OrderlyLater(data, i, j);
          OrderlyAnswers(data, j, turns - 1);
          PayloadSkipped(data, i, n, size);
        }
      }
    }
  }

  lemma NoSizeInFront(rest: seq<byte>)
    requires rest != [] && FrontBytes(rest[1..], 0) == 0
    ensures !ImportsFrom(rest)
  {
  }

  lemma ImportAnswers(rest: seq<byte>, n: nat, size: nat)
    requires rest != [] && rest[0] == IMPORT_SECTION
    ensures ImportsWith(rest, n, size)
  {
  }

  lemma JumpsTo(data: seq<byte>, i: nat, n: nat)
    requires i < |data| && data[i] != IMPORT_SECTION && n == FrontBytes(data[i + 1..], 0) > 0
    requires i + 1 + n + Value(data[i + 1..][..n]) < TWO63
    ensures TurnAt(data, i) == Jump(i + 1 + n + Value(data[i + 1..][..n]))
  {
  }

  lemma OrderlyLater(data: seq<byte>, i: nat, j: int64)
    requires j >= 0 && OrderlyFrom(data, i) && i < |data| && TurnAt(data, i) == Jump(j)
    ensures OrderlyFrom(data, j)
  {
    hide OrderlyTurn, TurnAt;
    forall turns: nat | RunFrom(data, j, turns).At? && RunFrom(data, j, turns).position < |data|
      ensures OrderlyTurn(data, RunFrom(data, j, turns).position)
    {
      assert RunFrom(data, i, turns + 1) == RunFrom(data, j, turns);
    }
  }

  lemma PayloadSkipped(data: seq<byte>, i: nat, n: nat, size: nat)
    requires i < |data| && data[i] != IMPORT_SECTION
    ensures var j := i + 1 + n + size; ImportsWith(data[i..], n, size) <==> j < |data| && ImportsFrom(data[j..])
  {
    var j := i + 1 + n + size;
    if j <= |data| {
      assert data[i..][1 + n + size..] == data[j..];
    }
    if j == |data| {
      EmptyImportsNothing();
    }
  }

  // ----- Well-formed modules, as the loop sees them -----

  /** A well-formed section takes one turn. */
  lemma SectionTurn(data: seq<byte>, i: nat, s: Section, tail: seq<byte>)
    requires |data| < TWO63 && i < |data| && data[i..] == SectionBytes(s) + tail && WellFormed(s)
    ensures TurnAt(data, i) == if s.id == IMPORT_SECTION then Answer(true) else Jump(|data| - |tail|)
  {
    hide IsUleb, Value;
    var rest, n := data[i + 1..], |s.size|;
    assert data[i..][0] == s.id && rest == data[i..][1..];
    assert rest == s.size + (s.payload + tail);
    assert rest[..n] == s.size;
    SizeIsValue(s);
    FrontIsAny(rest, n);
    assert |data| - |tail| == i + 1 + n + |s.payload|;
  }

  lemma SizeIsValue(s: Section)
    requires WellFormed(s)
    ensures Value(s.size) == |s.payload| && |s.size| > 0 && IsUleb(s.size, Value(s.size))
  {
  }

  lemma FrontIsAny(rest: seq<byte>, n: nat)
    requires 0 < n <= |rest| && IsUleb(rest[..n], Value(rest[..n]))
    ensures FrontBytes(rest, 0) == n
  {
    hide IsUleb, Value;
    FrontIsDecoded(rest, n);
  }

  lemma {:induction false} SectionsAreSkipped(data: seq<byte>, i: nat, sections: seq<Section>, turns: nat)
    requires |data| < TWO63 && i <= |data| && data[i..] == Body(sections) && AllWellFormed(sections) && turns >= |sections|
    ensures RunFrom(data, i, turns) == Answered(Imports(sections))
    decreases |sections|
  {
    hide WellFormed, TurnAt, SectionBytes;
    if sections != [] {
      var s, more := sections[0], sections[1..];
      assert |SectionBytes(s)| > 0 by { SectionHasBytes(s); }
      SectionTurn(data, i, s, Body(more));
      if s.id != IMPORT_SECTION {
        var j := |data| - |Body(more)|;
        assert data[j..] == data[i..][|SectionBytes(s)|..] == Body(more);
        SectionsAreSkipped(data, j, more, turns - 1);
        ImportsLater(sections);
      }
    }
  }

  lemma SectionHasBytes(s: Section)
    ensures |SectionBytes(s)| > 0
  {
  }

  lemma ImportsLater(sections: seq<Section>)
    requires sections != [] && sections[0].id != IMPORT_SECTION
    ensures Imports(sections) <==> Imports(sections[1..])
  {
    var more := sections[1..];
    if Imports(more) {
      var i :| 0 <= i < |more| && more[i].id == IMPORT_SECTION;
      assert sections[i + 1].id == IMPORT_SECTION;
    }
    if Imports(sections) {
      var i :| 0 <= i < |sections| && sections[i].id == IMPORT_SECTION;
      assert more[i - 1].id == IMPORT_SECTION;
    }
  }

  lemma {:induction false} BodyIsLonger(sections: seq<Section>)
    ensures |Body(sections)| >= |sections|
  {
    if sections != [] {
      BodyIsLonger(sections[1..]);
    }
  }

  /** On a well-formed module the answer is whether some section is an import section. */
  lemma ModuleImports(sections: seq<Section>)
    requires AllWellFormed(sections) && 8 + |Body(sections)| < TWO63
    ensures var data := [0x00, 0x61, 0x73, 0x6D, 0x01, 0x00, 0x00, 0x00] + Body(sections);
            RunOf(data, |data|) == Answered(exists k :: 0 <= k < |sections| && sections[k].id == 2)
  {
    hide Body, RunFrom;
    var data := HEADER + Body(sections);
    assert Imports(sections) <==> exists k :: 0 <= k < |sections| && sections[k].id == 2;
    assert data[8..] == Body(sections);
    assert data[..4] == HEADER[..4] && data[4..8] == HEADER[4..];
    BodyIsLonger(sections);
    SectionsAreSkipped(data, 8, sections, |data|);
  }

  /** A file without the eight bytes of a module's header has no imports, whatever it says. */
  lemma OtherFilesImportNothing(data: seq<byte>, turns: nat)
    requires !([0x00, 0x61, 0x73, 0x6D, 0x01, 0x00, 0x00, 0x00] <= data)
    ensures RunOf(data, turns) == Answered(false)
  {
  }

  /** A size of more than ten bytes is none: the file is given up there. */
  lemma LongSizeGivesUp(data: seq<byte>, i: nat)
    requires i + 10 < |data| && forall j :: i < j <= i + 10 ==> data[j] >= 128
    ensures TurnAt(data, i) == Answer(false)
  {
    hide Value;
    var rest := data[i + 1..];
    forall j | 0 <= j < 10 ensures rest[j] >= 128 {
      assert rest[j] == data[i + 1 + j];
    }
    NoneEncodes(rest, 10);
  }

  lemma EmptyImportsNothing()
    ensures !ImportsFrom([])
  {
  }

  /** Decoding undoes the shortest encoding of every number below 2 to the 63rd, whatever follows it. */
  lemma UlebRoundTrip(n: nat, tail: seq<byte>)
    requires n < 0x8000_0000_0000_0000
    ensures SizeAt(Uleb(n) + tail, |Uleb(n)|, n)
    ensures forall k, v :: SizeAt(Uleb(n) + tail, k, v) ==> k == |Uleb(n)| && v == n
  {
    hide Uleb, Value;
    assert Power128(10) == 1180591620717411303424 by { TenGroups(); }
    UlebFits(n, 10);
    var data := Uleb(n) + tail;
    assert data[..|Uleb(n)|] == Uleb(n);
    forall k, v | SizeAt(data, k, v) ensures k == |Uleb(n)| && v == n {
      UlebPrefixFree(data, k, |Uleb(n)|, v, n);
    }
  }

  lemma TenGroups()
    ensures Power128(10) == 1180591620717411303424
  {
    assert Power128(2) == 16384;
    assert Power128(4) == 268435456;
    assert Power128(6) == 4398046511104;
    assert Power128(8) == 72057594037927936;
  }
}
