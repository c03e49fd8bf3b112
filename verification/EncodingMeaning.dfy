/** What canonicalization does to each kind of file, told in terms of the texts the file may encode; and the two encodings
    by the equations of their standards. */
module EncodingMeaning {
  import opened Bytes
  import opened Unicode
  import opened Encoding

  // ----- The encodings -----

  /** Section 3 of RFC 3629: the number of bytes by range, the leading bits of each, and the value of the rest. */
  lemma Utf8Bits(r: int)
    requires IsScalar(r)
    ensures var b := Utf8One(r);
            && |b| == (if r < 0x80 then 1 else if r < 0x800 then 2 else if r < 0x10000 then 3 else 4)
            && (forall i :: 0 < i < |b| ==> 0x80 <= b[i] < 0xC0)
            && (|b| == 1 ==> b[0] == r)
            && (|b| == 2 ==> 0xC0 <= b[0] < 0xE0 && r == 64 * (b[0] as int - 0xC0) + (b[1] as int - 0x80))
            && (|b| == 3 ==> 0xE0 <= b[0] < 0xF0
                             && r == 4096 * (b[0] as int - 0xE0) + 64 * (b[1] as int - 0x80) + (b[2] as int - 0x80))
            && (|b| == 4 ==> 0xF0 <= b[0] < 0xF8
                             && (r == 262144 * (b[0] as int - 0xF0) + 4096 * (b[1] as int - 0x80)
                                      + 64 * (b[2] as int - 0x80) + (b[3] as int - 0x80)))
  {
    if 0x80 <= r < 0x800 {
      TwoBytes(r);
    } else if 0x800 <= r < 0x10000 {
      ThreeBytes(r);
    } else if r >= 0x10000 {
      FourBytes(r);
    }
  }

  lemma {:induction false} Utf8Concat(a: seq<int>, b: seq<int>)
    requires IsText(a) && IsText(b)
    ensures IsText(a + b) && Utf8(a + b) == Utf8(a) + Utf8(b)
  {
    assert forall r :: r in a + b ==> r in a || r in b;
    if a == [] {
      assert a + b == b;
    } else {
      Utf8Concat(a[1..], b);
      assert (a + b)[1..] == a[1..] + b;
      assert Utf8One(a[0]) + (Utf8(a[1..]) + Utf8(b)) == Utf8One(a[0]) + Utf8(a[1..]) + Utf8(b);
    }
  }

  /** Section 2.1 of RFC 2781: a character in the basic plane is its own unit, any other a high and a low surrogate. */
  lemma Utf16Bits(r: int)
    requires IsScalar(r)
    ensures var u := Utf16One(r);
            if r < 0x10000 then u == [r]
            else |u| == 2 && 0xD800 <= u[0] < 0xDC00 && 0xDC00 <= u[1] < 0xE000
                 && r - 0x10000 == 0x400 * (u[0] as int - 0xD800) + (u[1] as int - 0xDC00)
  {
  }

  /** The high byte comes first exactly in big-endian files. */
  lemma BytesOfUnit(u: unit, bigEndian: bool)
    ensures var b := UnitBytes(u, bigEndian); u == if bigEndian then 256 * b[0] as int + b[1] as int else b[0] as int + 256 * b[1] as int
    ensures UnitAt(UnitBytes(u, bigEndian), bigEndian, 0) == u
  {
  }

  // ----- UTF-8 files -----

  const MARK8: seq<byte> := [0xEF, 0xBB, 0xBF]

  /** A text saved as UTF-8 with a byte-order mark comes out as the same text without it. */
  lemma MarkedUtf8IsSeen(rs: seq<int>)
    requires IsText(rs)
    ensures Canonicalized(MARK8 + Utf8(rs)) == Canonical(Utf8(rs), Utf8Bom)
  {
    hide Utf8, ValidUtf8, Decoding, Guess;
    EncodedIsValid(rs);
    assert (MARK8 + Utf8(rs))[3..] == Utf8(rs);
    assert MARK8 <= MARK8 + Utf8(rs);
  }

  lemma FirstBytes(rs: seq<int>)
    requires IsText(rs) && rs != []
    ensures Utf8(rs) != [] && FirstRune(Utf8(rs)) == Rune(rs[0], |Utf8One(rs[0])|) && Utf8(rs)[0] < 0xF8
  {
    assert rs[0] in rs;
    FirstRuneOfEncoded(rs[0], Utf8(rs[1..]));
  }

  lemma {:induction false} NoZeroByte(rs: seq<int>)
    requires IsText(rs)
    ensures 0 in Utf8(rs) <==> 0 in rs
  {
    if rs != [] {
      assert rs[0] in rs;
      NoZeroByte(rs[1..]);
      Utf8Bits(rs[0]);
      assert rs == [rs[0]] + rs[1..];
      ZeroOnlyAlone(rs[0]);
    }
  }

  lemma ZeroOnlyAlone(r: int)
    requires IsScalar(r)
    ensures 0 in Utf8One(r) <==> r == 0
  {
    Utf8Bits(r);
    if r == 0 {
      assert Utf8One(r)[0] == 0;
    }
  }

  lemma MarkIsFeff(rs: seq<int>)
    requires IsText(rs) && rs != [] && MARK8 <= Utf8(rs)
    ensures rs[0] == 0xFEFF
  {
    FirstBytes(rs);
    var d := Utf8(rs);
    assert d[..3] == MARK8 && d[0] == 0xEF && d[1] == 0xBB && d[2] == 0xBF;
    assert FirstRune(d) == Checked(0xFEFF, 0x800, 3);
  }

  /** A plain text without NUL that does not start with the mark's character comes out unchanged. */
  lemma PlainTextIsSeen(rs: seq<int>)
    requires IsText(rs) && 0 !in rs && (rs != [] ==> rs[0] != 0xFEFF)
    ensures Canonicalized(Utf8(rs)) == Canonical(Utf8(rs), Utf8Label)
  {
    hide Utf8, ValidUtf8, Decoding, Guess;
    if rs != [] {
      EncodedIsValid(rs);
      NoZeroByte(rs);
      FirstBytes(rs);
      var data := Utf8(rs);
      if MARK8 <= data {
        MarkIsFeff(rs);
      }
      assert !([0xFF, 0xFE] <= data) && !([0xFE, 0xFF] <= data);
    } else {
      assert Utf8(rs) == [] by { NoText(); }
    }
  }

  lemma NoText()
    ensures Utf8([]) == []
  {
  }

  // ----- Every file -----

  ghost predicate IsUtf8(data: seq<byte>) {
    exists rs :: IsText(rs) && Utf8(rs) == data
  }

  ghost predicate IsUtf16(data: seq<byte>, bigEndian: bool) {
    exists rs :: Deliverable(rs) && Utf16Bytes(rs, bigEndian) == data
  }

  /** The file starts with the mark, and some text saved in that encoding follows it. */
  ghost predicate HasMark8(data: seq<byte>) {
    MARK8 <= data && IsUtf8(data[3..])
  }

  function Mark16(bigEndian: bool): seq<byte> {
    if bigEndian then [0xFE, 0xFF] else [0xFF, 0xFE]
  }

  ghost predicate HasMark16(data: seq<byte>, bigEndian: bool) {
    Mark16(bigEndian) <= data && IsUtf16(data[2..], bigEndian)
  }

  /** Neither mark applies. */
  ghost predicate NoMark(data: seq<byte>) {
    !HasMark8(data) && !HasMark16(data, false) && !HasMark16(data, true)
  }

  /** No mark, no plain text, but text in the order the zero bytes suggest. */
  ghost predicate Guessed(data: seq<byte>, bigEndian: bool) {
    NoMark(data) && !(IsUtf8(data) && 0 !in data) && Guess(data) == (if bigEndian then Big else Little) && IsUtf16(data, bigEndian)
  }

  lemma ValidMeaning(data: seq<byte>)
    ensures ValidUtf8(data) <==> IsUtf8(data)
  {
    hide ValidUtf8, Utf8;
    if ValidUtf8(data) {
      var rs := ValidIsEncoded(data);
    }
    if rs :| IsText(rs) && Utf8(rs) == data {
      EncodedIsValid(rs);
    }
  }

  /** Which files get which label: a mark counts when what follows it is text, then NUL-free UTF-8, then the guess when
      the file is text in it; all others are binary. */
  lemma LabelMeaning(data: seq<byte>)
    ensures var kind := Canonicalized(data).encoding;
            && (kind == Utf8Bom <==> HasMark8(data))
            && (kind == Utf8Label <==> NoMark(data) && IsUtf8(data) && 0 !in data)
            && (kind == Utf16Le <==> HasMark16(data, false) || Guessed(data, false))
            && (kind == Utf16Be <==> HasMark16(data, true) || Guessed(data, true))
  {
    hide Decoding, Guess, ValidUtf8, IsUtf8, IsUtf16;
    ValidMeaning(data);
    DecodesMeaning(data, false);
    DecodesMeaning(data, true);
    MarksExclude(data);
    if MARK8 <= data {
      ValidMeaning(data[3..]);
    }
    if |data| >= 2 {
      DecodesMeaning(data[2..], false);
      DecodesMeaning(data[2..], true);
    }
    if data == [] {
      EmptyIsUtf8();
    }
  }

  lemma EmptyIsUtf8()
    ensures IsUtf8([])
  {
    assert IsText([]) && Utf8([]) == [];
  }

  lemma DecodesMeaning(data: seq<byte>, bigEndian: bool)
    ensures Decoding(data, bigEndian).Accepted? <==> IsUtf16(data, bigEndian)
  {
    hide Decoding, Utf16Bytes;
    DecodingIsExact(data, bigEndian);
  }

  lemma MarksExclude(data: seq<byte>)
    ensures MARK8 <= data ==> !(Mark16(false) <= data) && !(Mark16(true) <= data)
    ensures !(Mark16(false) <= data && Mark16(true) <= data)
  {
    assert MARK8 <= data ==> data[0] == MARK8[0];
    assert forall b :: Mark16(b) <= data ==> data[0] == Mark16(b)[0];
  }

  ghost predicate IsTextOf(rs: seq<int>, data: seq<byte>, bigEndian: bool) {
    Deliverable(rs) && Utf16Bytes(rs, bigEndian) == data
  }

  /** And which bytes come out: the text after a mark or in the guessed order, in UTF-8, and otherwise the file itself. */
  lemma BytesMeaning(data: seq<byte>, rs: seq<int>)
    ensures var c := Canonicalized(data);
            && (c.encoding == Utf8Bom ==> |data| >= 3 && c.bytes == data[3..])
            && (c.encoding == Utf8Label || c.encoding == Binary ==> c.bytes == data)
            && (forall bigEndian :: HasMark16(data, bigEndian) && IsTextOf(rs, data[2..], bigEndian) ==> c.bytes == Utf8(rs))
            && (forall bigEndian :: Guessed(data, bigEndian) && IsTextOf(rs, data, bigEndian) ==> c.bytes == Utf8(rs))
  {
    hide Decoding, Guess, ValidUtf8, IsUtf8, IsUtf16, Utf16Bytes, Utf8;
    LabelMeaning(data);
    MarksExclude(data);
    forall bigEndian ensures Deliverable(rs) && Utf16Bytes(rs, bigEndian) == data ==> Decoding(data, bigEndian) == Accepted(Utf8(rs)) {
      DecodingIsExact(data, bigEndian);
    }
    if |data| >= 2 {
      forall bigEndian
        ensures Deliverable(rs) && Utf16Bytes(rs, bigEndian) == data[2..] ==> Decoding(data[2..], bigEndian) == Accepted(Utf8(rs))
      {
        DecodingIsExact(data[2..], bigEndian);
      }
      DecodesMeaning(data[2..], false);
      DecodesMeaning(data[2..], true);
    }
    if MARK8 <= data {
      ValidMeaning(data[3..]);
    }
  }
}
