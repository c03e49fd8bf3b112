/** Charset canonicalization: UTF-8 with a byte-order mark and UTF-16 become plain UTF-8, everything else is left alone. */
module Encoding {
  import opened Bytes
  import opened Unicode

  // ----- Code units and bytes -----

  function UnitAt(data: seq<byte>, bigEndian: bool, i: nat): unit
    requires 2 * i + 1 < |data|
  {
    if bigEndian then 256 * data[2 * i] as int + data[2 * i + 1] as int
    else 256 * data[2 * i + 1] as int + data[2 * i] as int
  }

  function Units(data: seq<byte>, bigEndian: bool): (us: seq<unit>)
    requires |data| % 2 == 0
    ensures |us| == |data| / 2
  {
    seq(|data| / 2, i requires 0 <= i < |data| / 2 => UnitAt(data, bigEndian, i))
  }

  function UnitBytes(u: unit, bigEndian: bool): (b: seq<byte>)
    ensures |b| == 2
  {
    if bigEndian then [u / 256, u % 256] else [u % 256, u / 256]
  }

  /** A text's code units, written out. */
  function UnitsToBytes(us: seq<unit>, bigEndian: bool): (b: seq<byte>)
    ensures |b| == 2 * |us|
  {
    if us == [] then [] else UnitBytes(us[0], bigEndian) + UnitsToBytes(us[1..], bigEndian)
  }

  lemma {:induction false} BytesAt(us: seq<unit>, bigEndian: bool, i: nat)
    requires i < |us|
    ensures UnitsToBytes(us, bigEndian)[2 * i] == UnitBytes(us[i], bigEndian)[0]
    ensures UnitsToBytes(us, bigEndian)[2 * i + 1] == UnitBytes(us[i], bigEndian)[1]
  {
    hide UnitBytes;
    if i > 0 {
      BytesAt(us[1..], bigEndian, i - 1);
    }
  }

  lemma UnitsOfBytes(us: seq<unit>, bigEndian: bool)
    ensures Units(UnitsToBytes(us, bigEndian), bigEndian) == us
  {
    var data := UnitsToBytes(us, bigEndian);
    forall i | 0 <= i < |us| ensures Units(data, bigEndian)[i] == us[i] {
      BytesAt(us, bigEndian, i);
    }
  }

  lemma UnitBytesOfUnit(data: seq<byte>, bigEndian: bool, i: nat)
    requires 2 * i + 1 < |data|
    ensures UnitBytes(UnitAt(data, bigEndian, i), bigEndian) == [data[2 * i], data[2 * i + 1]]
  {
  }

  lemma BytesOfUnits(data: seq<byte>, bigEndian: bool)
    requires |data| % 2 == 0
    ensures UnitsToBytes(Units(data, bigEndian), bigEndian) == data
  {
    hide UnitBytes, UnitsToBytes, UnitAt;
    var us := Units(data, bigEndian);
    var back := UnitsToBytes(us, bigEndian);
    forall k | 0 <= k < |data| ensures back[k] == data[k] {
      var i := k / 2;
      BytesAt(us, bigEndian, i);
      UnitBytesOfUnit(data, bigEndian, i);
      assert k == 2 * i || k == 2 * i + 1;
    }
  }

  /** A text in UTF-16, without a byte-order mark. */
  function Utf16Bytes(rs: seq<int>, bigEndian: bool): seq<byte>
    requires IsText(rs)
  {
    UnitsToBytes(Utf16(rs), bigEndian)
  }

  // ----- decodeUTF16 -----

  datatype Text = Refused | Accepted(bytes: seq<byte>)

  function Decoding(data: seq<byte>, bigEndian: bool): Text {
    if |data| % 2 != 0 then Refused
    else
      var rs := Decode16(Units(data, bigEndian));
      if REPLACEMENT in rs then Refused
      else
        Utf16OfDecode16(Units(data, bigEndian));
        Accepted(Utf8(rs))
  }

  method DecodeUtf16(data: seq<byte>, bigEndian: bool) returns (t: Text)
    ensures t == Decoding(data, bigEndian)
  {
    if |data| % 2 != 0 {
      return Refused;
    }
    var units := new unit[|data| / 2];
    for i := 0 to units.Length
      invariant forall j :: 0 <= j < i ==> units[j] == UnitAt(data, bigEndian, j)
    {
      units[i] := UnitAt(data, bigEndian, i);
    }
    assert units[..] == Units(data, bigEndian);
    var runes := Decode16(units[..]);
    for i := 0 to |runes|
      invariant REPLACEMENT !in runes[..i]
    {
      assert runes[..i + 1] == runes[..i] + [runes[i]];
      if runes[i] == REPLACEMENT {
        assert REPLACEMENT in runes;
        return Refused;
      }
    }
    assert runes[..|runes|] == runes;
    Utf16OfDecode16(units[..]);
    return Accepted(Utf8(runes));
  }

  /** The texts `decodeUTF16` can deliver: any scalar values but U+FFFD. */
  predicate Deliverable(rs: seq<int>) {
    IsText(rs) && REPLACEMENT !in rs
  }

  /** Decoding the UTF-16 of a text gives the UTF-8 of that text. */
  lemma DecodingOfText(rs: seq<int>, bigEndian: bool)
    requires Deliverable(rs)
    ensures Decoding(Utf16Bytes(rs, bigEndian), bigEndian) == Accepted(Utf8(rs))
  {
    UnitsOfBytes(Utf16(rs), bigEndian);
    Decode16OfUtf16(rs);
  }

  /** Decoding succeeds exactly on the UTF-16 of a deliverable text, and gives that text in UTF-8. */
  lemma DecodingIsExact(data: seq<byte>, bigEndian: bool)
    ensures Decoding(data, bigEndian).Accepted? <==> exists rs :: Deliverable(rs) && Utf16Bytes(rs, bigEndian) == data
    ensures forall rs :: Deliverable(rs) && Utf16Bytes(rs, bigEndian) == data ==> Decoding(data, bigEndian) == Accepted(Utf8(rs))
  {
    if Decoding(data, bigEndian).Accepted? {
      var rs := Decode16(Units(data, bigEndian));
      Utf16OfDecode16(Units(data, bigEndian));
      BytesOfUnits(data, bigEndian);
      assert Deliverable(rs) && Utf16Bytes(rs, bigEndian) == data;
    }
    forall rs | Deliverable(rs) && Utf16Bytes(rs, bigEndian) == data ensures Decoding(data, bigEndian) == Accepted(Utf8(rs)) {
      DecodingOfText(rs, bigEndian);
    }
  }

  /** Two different files never decode to the same text in the same byte order. */
  lemma DecodingInjective(a: seq<byte>, b: seq<byte>, bigEndian: bool)
    requires Decoding(a, bigEndian).Accepted? && Decoding(a, bigEndian) == Decoding(b, bigEndian)
    ensures a == b
  {
    hide Decode16, Utf8, Utf16;
    var ra, rb := Decode16(Units(a, bigEndian)), Decode16(Units(b, bigEndian));
    Utf16OfDecode16(Units(a, bigEndian));
    Utf16OfDecode16(Units(b, bigEndian));
    Utf8Injective(ra, rb);
    BytesOfUnits(a, bigEndian);
    BytesOfUnits(b, bigEndian);
  }

  // ----- detectUnmarkedUTF16 -----

  /** How many of the first `n` units have a zero byte at this offset. */
  function ZeroesAt(data: seq<byte>, offset: nat, n: nat): (z: nat)
    requires offset < 2 && 2 * n <= |data|
    ensures z <= n
  {
    if n == 0 then 0 else ZeroesAt(data, offset, n - 1) + (if data[2 * (n - 1) + offset] == 0 then 1 else 0)
  }

  datatype Endianness = Unmarked | Little | Big

  /** A nine-tenths majority of zero high bytes on one side and none on the other. */
  function Guess(data: seq<byte>): Endianness {
    if |data| < 16 || |data| % 2 != 0 then Unmarked
    else
      var pairs := |data| / 2;
      var even, odd := ZeroesAt(data, 0, pairs), ZeroesAt(data, 1, pairs);
      if 10 * odd >= 9 * pairs && even == 0 then Little
      else if 10 * even >= 9 * pairs && odd == 0 then Big
      else Unmarked
  }

  /** The units whose byte at this offset is zero. */
  function ZeroUnits(data: seq<byte>, offset: nat): set<nat>
    requires offset < 2
  {
    set i | 0 <= i < |data| / 2 && data[2 * i + offset] == 0
  }

  /** The units before the `n`-th with a zero byte on this side. */
  function ZeroUnitsBefore(data: seq<byte>, offset: nat, n: nat): set<nat>
    requires offset < 2 && 2 * n <= |data|
  {
    set i: nat | i < n && data[2 * i + offset] == 0
  }

  lemma OneMoreUnit(data: seq<byte>, offset: nat, n: nat)
    requires offset < 2 && 2 * (n + 1) <= |data|
    ensures (ZeroUnitsBefore(data, offset, n + 1)
          == ZeroUnitsBefore(data, offset, n) + if data[2 * n + offset] == 0 then {n} else {})
    ensures n !in ZeroUnitsBefore(data, offset, n)
  {
  }

  lemma {:induction false} ZeroesAreUnits(data: seq<byte>, offset: nat, n: nat)
    requires offset < 2 && 2 * n <= |data|
    ensures ZeroesAt(data, offset, n) == |ZeroUnitsBefore(data, offset, n)|
  {
    if n == 0 {
      assert ZeroUnitsBefore(data, offset, 0) == {};
    } else {
      hide ZeroUnitsBefore;
      ZeroesAreUnits(data, offset, n - 1);
      OneMoreUnit(data, offset, n - 1);
    }
  }

  /** A file is taken for little-endian exactly if it has at least eight whole units, no unit with a zero low byte and at
      least nine tenths of them with a zero high byte; for big-endian the other way round.  Never for both. */
  lemma GuessMeaning(data: seq<byte>)
    ensures Guess(data) == Little <==> (
      |data| >= 16 && |data| % 2 == 0 && ZeroUnits(data, 0) == {} && 10 * |ZeroUnits(data, 1)| >= 9 * (|data| / 2))
    ensures Guess(data) == Big <==> (
      |data| >= 16 && |data| % 2 == 0 && ZeroUnits(data, 1) == {} && 10 * |ZeroUnits(data, 0)| >= 9 * (|data| / 2))
  {
    hide ZeroesAt;
    var pairs := |data| / 2;
    ZeroesAreUnits(data, 0, pairs);
    ZeroesAreUnits(data, 1, pairs);
    assert ZeroUnits(data, 0) == ZeroUnitsBefore(data, 0, pairs);
    assert ZeroUnits(data, 1) == ZeroUnitsBefore(data, 1, pairs);
  }

  method DetectUnmarkedUtf16(data: seq<byte>) returns (e: Endianness)
    ensures e == Guess(data)
  {
    if |data| < 16 || |data| % 2 != 0 {
      return Unmarked;
    }
    var pairs := |data| / 2;
    var even, odd := 0, 0;
    for i := 0 to pairs
      invariant even == ZeroesAt(data, 0, i) && odd == ZeroesAt(data, 1, i)
    {
      if data[2 * i] == 0 {
        even := even + 1;
      }
      if data[2 * i + 1] == 0 {
        odd := odd + 1;
      }
    }
    if 10 * odd >= 9 * pairs && even == 0 {
      return Little;
    }
    if 10 * even >= 9 * pairs && odd == 0 {
      return Big;
    }
    return Unmarked;
  }

  // ----- canonicalizeText -----

  datatype Label = Utf8Label | Utf8Bom | Utf16Le | Utf16Be | Binary

  datatype Canonical = Canonical(bytes: seq<byte>, encoding: Label)

  predicate StartsWith(data: seq<byte>, mark: seq<byte>) {
    mark <= data
  }

  /** The byte-order mark decides when what follows it decodes; a mark that misleads is ignored. */
  function Marked(data: seq<byte>): Canonical {
    if StartsWith(data, [0xEF, 0xBB, 0xBF]) then
      if ValidUtf8(data[3..]) then Canonical(data[3..], Utf8Bom) else Canonical([], Binary)
    else if StartsWith(data, [0xFF, 0xFE]) then
      var t := Decoding(data[2..], false);
      if t.Accepted? then Canonical(t.bytes, Utf16Le) else Canonical([], Binary)
    else if StartsWith(data, [0xFE, 0xFF]) then
      var t := Decoding(data[2..], true);
      if t.Accepted? then Canonical(t.bytes, Utf16Be) else Canonical([], Binary)
    else Canonical([], Binary)
  }

  function Canonicalized(data: seq<byte>): Canonical {
    if data == [] then Canonical(data, Utf8Label)
    else if Marked(data).encoding != Binary then Marked(data)
    else if ValidUtf8(data) && 0 !in data then Canonical(data, Utf8Label)
    else
      var e := Guess(data);
      var t := if e == Unmarked then Refused else Decoding(data, e == Big);
      if t.Accepted? then Canonical(t.bytes, if e == Big then Utf16Be else Utf16Le) else Canonical(data, Binary)
  }

  method CanonicalizeText(data: seq<byte>) returns (c: Canonical)
    ensures c == Canonicalized(data)
  {
    hide Decoding, Guess, ValidUtf8;
    if data == [] {
      return Canonical(data, Utf8Label);
    }
    if StartsWith(data, [0xEF, 0xBB, 0xBF]) {
      if ValidUtf8(data[3..]) {
        return Canonical(data[3..], Utf8Bom);
      }
    } else if StartsWith(data, [0xFF, 0xFE]) {
      var t := DecodeUtf16(data[2..], false);
      if t.Accepted? {
        return Canonical(t.bytes, Utf16Le);
      }
    } else if StartsWith(data, [0xFE, 0xFF]) {
      var t := DecodeUtf16(data[2..], true);
      if t.Accepted? {
        return Canonical(t.bytes, Utf16Be);
      }
    }
    if ValidUtf8(data) && 0 !in data {
      return Canonical(data, Utf8Label);
    }
    var e := DetectUnmarkedUtf16(data);
    if e != Unmarked {
      var t := DecodeUtf16(data, e == Big);
      if t.Accepted? {
        return Canonical(t.bytes, if e == Big then Utf16Be else Utf16Le);
      }
    }
    return Canonical(data, Binary);
  }

  lemma DecodingIsValid(data: seq<byte>, bigEndian: bool)
    requires Decoding(data, bigEndian).Accepted?
    ensures ValidUtf8(Decoding(data, bigEndian).bytes)
  {
    hide ValidUtf8;
    Utf16OfDecode16(Units(data, bigEndian));
    EncodedIsValid(Decode16(Units(data, bigEndian)));
  }

  /** Whatever is not called binary comes out as valid UTF-8, and whatever is comes out unchanged. */
  lemma CanonicalIsValid(data: seq<byte>)
    ensures Canonicalized(data).encoding != Binary ==> ValidUtf8(Canonicalized(data).bytes)
    ensures Canonicalized(data).encoding == Binary ==> Canonicalized(data).bytes == data
  {
    hide Decoding, Guess;
    forall d, bigEndian | Decoding(d, bigEndian).Accepted? ensures ValidUtf8(Decoding(d, bigEndian).bytes) {
      DecodingIsValid(d, bigEndian);
    }
  }

  /** A text saved as UTF-16 with a byte-order mark reaches the analyzers as the same text in UTF-8. */
  lemma MarkedTextIsSeen(rs: seq<int>, bigEndian: bool)
    requires Deliverable(rs)
    ensures Canonicalized((if bigEndian then [0xFE, 0xFF] else [0xFF, 0xFE]) + Utf16Bytes(rs, bigEndian))
         == Canonical(Utf8(rs), if bigEndian then Utf16Be else Utf16Le)
  {
    hide Decoding, Utf16Bytes, Utf8, Guess, ValidUtf8, Utf16, UnitsToBytes;
    var mark: seq<byte> := if bigEndian then [0xFE, 0xFF] else [0xFF, 0xFE];
    var data := mark + Utf16Bytes(rs, bigEndian);
    assert data[2..] == Utf16Bytes(rs, bigEndian);
    assert data[0] == mark[0] && data[1] == mark[1] && data[..2] == mark;
    assert !StartsWith(data, [0xEF, 0xBB, 0xBF]);
    assert StartsWith(data, mark);
    assert bigEndian ==> !StartsWith(data, [0xFF, 0xFE]);
    DecodingOfText(rs, bigEndian);
  }

  // ----- Text without a mark -----

  predicate Ascii(rs: seq<int>) {
    forall i :: 0 <= i < |rs| ==> 0 < rs[i] < 0x80
  }

  lemma AsciiIsText(rs: seq<int>)
    requires Ascii(rs)
    ensures Deliverable(rs)
  {
  }

  lemma {:induction false} AsciiUtf8(rs: seq<int>)
    requires Ascii(rs) && IsText(rs)
    ensures Utf8(rs) == rs
  {
    if rs != [] {
      AsciiUtf8(rs[1..]);
      assert rs == [rs[0]] + rs[1..];
    }
  }

  lemma {:induction false} AsciiUnits(rs: seq<int>)
    requires Ascii(rs) && IsText(rs)
    ensures |Utf16(rs)| == |rs| && forall i :: 0 <= i < |rs| ==> Utf16(rs)[i] == rs[i]
  {
    if rs != [] {
      AsciiUnits(rs[1..]);
      assert Utf16(rs) == [rs[0]] + Utf16(rs[1..]);
    }
  }

  lemma AsciiBytes(rs: seq<int>, bigEndian: bool)
    requires Ascii(rs) && IsText(rs)
    ensures var data := Utf16Bytes(rs, bigEndian);
            |data| == 2 * |rs| && forall i :: 0 <= i < |rs| ==>
              data[2 * i] == (if bigEndian then 0 else rs[i]) && data[2 * i + 1] == (if bigEndian then rs[i] else 0)
  {
    AsciiUnits(rs);
    forall i | 0 <= i < |rs|
      ensures Utf16Bytes(rs, bigEndian)[2 * i] == (if bigEndian then 0 else rs[i])
      ensures Utf16Bytes(rs, bigEndian)[2 * i + 1] == (if bigEndian then rs[i] else 0)
    {
      BytesAt(Utf16(rs), bigEndian, i);
    }
  }

  lemma {:induction false} CountZeroes(data: seq<byte>, offset: nat, n: nat, all: bool)
    requires offset < 2 && 2 * n <= |data|
    requires forall i :: 0 <= i < n ==> (data[2 * i + offset] == 0) == all
    ensures ZeroesAt(data, offset, n) == if all then n else 0
  {
    if n > 0 {
      CountZeroes(data, offset, n - 1, all);
    }
  }

  /** ASCII text of eight or more characters saved as UTF-16 without a mark, in either order, is recognised and
      reaches the analyzers as itself. */
  lemma UnmarkedAsciiIsSeen(rs: seq<int>, bigEndian: bool)
    requires Ascii(rs) && |rs| >= 8 && IsText(rs)
    ensures Canonicalized(Utf16Bytes(rs, bigEndian)) == Canonical(rs, if bigEndian then Utf16Be else Utf16Le)
  {
    hide Decoding, Utf16Bytes, Utf8, ValidUtf8, ZeroesAt;
    var data := Utf16Bytes(rs, bigEndian);
    AsciiIsText(rs);
    AsciiUtf8(rs);
    AsciiBytes(rs, bigEndian);
    DecodingOfText(rs, bigEndian);
    forall i | 0 <= i < |rs| ensures (data[2 * i + 0] == 0) == bigEndian && (data[2 * i + 1] == 0) == !bigEndian {
      assert data[2 * i] == (if bigEndian then 0 else rs[i]) && data[2 * i + 1] == (if bigEndian then rs[i] else 0);
    }
    CountZeroes(data, 0, |rs|, bigEndian);
    CountZeroes(data, 1, |rs|, !bigEndian);
    assert data[2 * 0] == (if bigEndian then 0 else rs[0]) && data[2 * 0 + 1] == (if bigEndian then rs[0] else 0);
    assert !StartsWith(data, [0xEF, 0xBB, 0xBF]) && !StartsWith(data, [0xFF, 0xFE]) && !StartsWith(data, [0xFE, 0xFF]);
    assert 0 in data;
  }
}
