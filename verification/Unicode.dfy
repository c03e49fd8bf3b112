/** UTF-8 (section 3 of RFC 3629) and UTF-16 (section 2 of RFC 2781) as sequences of integers. */
module Unicode {
  import opened Bytes

  type unit = u: int | 0 <= u < 0x10000

  const REPLACEMENT: int := 0xFFFD

  predicate IsScalar(r: int) {
    0 <= r < 0xD800 || 0xE000 <= r < 0x110000
  }

  /** A text: scalar values only. */
  predicate IsText(rs: seq<int>) {
    forall r :: r in rs ==> IsScalar(r)
  }

  // ----- UTF-8 -----

  function Utf8One(r: int): (b: seq<byte>)
    requires IsScalar(r)
    ensures 1 <= |b| <= 4
  {
    if r < 0x80 then [r]
    else if r < 0x800 then [0xC0 + r / 64, 0x80 + r % 64]
    else if r < 0x10000 then [0xE0 + r / 4096, 0x80 + r / 64 % 64, 0x80 + r % 64]
    else [0xF0 + r / 262144, 0x80 + r / 4096 % 64, 0x80 + r / 64 % 64, 0x80 + r % 64]
  }

  function Utf8(rs: seq<int>): seq<byte>
    requires IsText(rs)
  {
    if rs == [] then [] else Utf8One(rs[0]) + Utf8(rs[1..])
  }

  datatype Decoded = Malformed | Rune(r: int, size: nat)

  predicate IsTail(b: byte) { 0x80 <= b < 0xC0 }

  /** The first character of a byte string, refusing overlong forms, surrogates and values out of range. */
  function FirstRune(d: seq<byte>): Decoded {
    if d == [] then Malformed
    else if d[0] < 0x80 then Rune(d[0], 1)
    else if 0xC0 <= d[0] < 0xE0 && |d| >= 2 && IsTail(d[1]) then
      Checked(64 * (d[0] as int - 0xC0) + (d[1] as int - 0x80), 0x80, 2)
    else if 0xE0 <= d[0] < 0xF0 && |d| >= 3 && IsTail(d[1]) && IsTail(d[2]) then
      Checked(4096 * (d[0] as int - 0xE0) + 64 * (d[1] as int - 0x80) + (d[2] as int - 0x80), 0x800, 3)
    else if 0xF0 <= d[0] < 0xF8 && |d| >= 4 && IsTail(d[1]) && IsTail(d[2]) && IsTail(d[3]) then
      Checked(262144 * (d[0] as int - 0xF0) + 4096 * (d[1] as int - 0x80) + 64 * (d[2] as int - 0x80) + (d[3] as int - 0x80), 0x10000, 4)
    else Malformed
  }

  function Checked(r: int, least: int, size: nat): Decoded {
    if r >= least && IsScalar(r) then Rune(r, size) else Malformed
  }

  /** `utf8.Valid`. */
  predicate ValidUtf8(d: seq<byte>)
    decreases |d|
  {
    d == [] || (var f := FirstRune(d); f.Rune? && f.size > 0 && f.size <= |d| && ValidUtf8(d[f.size..]))
  }

  lemma TwoBytes(r: int)
    requires 0x80 <= r < 0x800
    ensures 64 * (r / 64) + r % 64 == r
  {
  }

  lemma ThreeBytes(r: int)
    requires 0 <= r < 0x10000
    ensures 4096 * (r / 4096) + 64 * (r / 64 % 64) + r % 64 == r
  {
    assert r / 64 == 64 * (r / 4096) + r / 64 % 64;
  }

  lemma FourBytes(r: int)
    requires 0 <= r < 0x110000
    ensures 262144 * (r / 262144) + 4096 * (r / 4096 % 64) + 64 * (r / 64 % 64) + r % 64 == r
  {
    assert r / 4096 == 64 * (r / 262144) + r / 4096 % 64;
    assert r / 64 == 64 * (r / 4096) + r / 64 % 64;
  }

  /** The first character of an encoded text is the text's first character. */
  lemma FirstRuneOfEncoded(r: int, tail: seq<byte>)
    requires IsScalar(r)
    ensures FirstRune(Utf8One(r) + tail) == Rune(r, |Utf8One(r)|)
  {
    var d := Utf8One(r) + tail;
    if r < 0x80 {
    } else if r < 0x800 {
      TwoBytes(r);
      assert d[0] == 0xC0 + r / 64 && d[1] == 0x80 + r % 64;
    } else if r < 0x10000 {
      ThreeBytes(r);
      assert d[0] == 0xE0 + r / 4096 && d[1] == 0x80 + r / 64 % 64 && d[2] == 0x80 + r % 64;
    } else {
      FourBytes(r);
      assert d[0] == 0xF0 + r / 262144 && d[1] == 0x80 + r / 4096 % 64 && d[2] == 0x80 + r / 64 % 64 && d[3] == 0x80 + r % 64;
    }
  }

  /** What decodes is an encoding. */
  lemma FirstRuneIsEncoded(d: seq<byte>)
    requires FirstRune(d).Rune?
    ensures var f := FirstRune(d);
            IsScalar(f.r) && f.size == |Utf8One(f.r)| && f.size <= |d| && d[..f.size] == Utf8One(f.r)
  {
    var f := FirstRune(d);
    if f.size == 2 {
      EncodeTwo(d[0] as int - 0xC0, d[1] as int - 0x80);
    } else if f.size == 3 {
      EncodeThree(d[0] as int - 0xE0, d[1] as int - 0x80, d[2] as int - 0x80);
    } else if f.size == 4 {
      EncodeFour(d[0] as int - 0xF0, d[1] as int - 0x80, d[2] as int - 0x80, d[3] as int - 0x80);
    }
  }

  lemma EncodeTwo(a: int, b: int)
    requires 0 <= a < 32 && 0 <= b < 64
    ensures (64 * a + b) / 64 == a && (64 * a + b) % 64 == b
  {
  }

  lemma EncodeThree(a: int, b: int, c: int)
    requires 0 <= a < 16 && 0 <= b < 64 && 0 <= c < 64
    ensures var r := 4096 * a + 64 * b + c; r / 4096 == a && r / 64 % 64 == b && r % 64 == c
  {
    assert (4096 * a + 64 * b + c) / 64 == 64 * a + b;
  }

  lemma EncodeFour(a: int, b: int, c: int, d: int)
    requires 0 <= a < 8 && 0 <= b < 64 && 0 <= c < 64 && 0 <= d < 64
    ensures var r := 262144 * a + 4096 * b + 64 * c + d;
            r / 262144 == a && r / 4096 % 64 == b && r / 64 % 64 == c && r % 64 == d
  {
    var r := 262144 * a + 4096 * b + 64 * c + d;
    assert r / 64 == 4096 * a + 64 * b + c;
    assert r / 4096 == 64 * a + b;
  }

  lemma {:induction false} EncodedIsValid(rs: seq<int>)
    requires IsText(rs)
    ensures ValidUtf8(Utf8(rs))
  {
    hide FirstRune, Utf8One;
    if rs != [] {
      EncodedIsValid(rs[1..]);
      assert rs[0] in rs;
      FirstRuneOfEncoded(rs[0], Utf8(rs[1..]));
      assert (Utf8One(rs[0]) + Utf8(rs[1..]))[|Utf8One(rs[0])|..] == Utf8(rs[1..]);
    }
  }

  /** Valid UTF-8 is the encoding of a text. */
  lemma {:induction false} ValidIsEncoded(d: seq<byte>) returns (rs: seq<int>)
    requires ValidUtf8(d)
    ensures IsText(rs) && Utf8(rs) == d
    decreases |d|
  {
    hide FirstRune, Utf8One;
    if d == [] {
      rs := [];
    } else {
      var f := FirstRune(d);
      FirstRuneIsEncoded(d);
      var rest := ValidIsEncoded(d[f.size..]);
      rs := [f.r] + rest;
      assert rs[1..] == rest;
      assert d == d[..f.size] + d[f.size..];
    }
  }

  lemma {:induction false} Utf8Injective(a: seq<int>, b: seq<int>)
    requires IsText(a) && IsText(b) && Utf8(a) == Utf8(b)
    ensures a == b
  {
    hide FirstRune, Utf8One;
    assert forall i :: 0 <= i < |a| ==> a[i] in a;
    assert forall i :: 0 <= i < |b| ==> b[i] in b;
    if a != [] && b != [] {
      FirstRuneOfEncoded(a[0], Utf8(a[1..]));
      FirstRuneOfEncoded(b[0], Utf8(b[1..]));
      var n := |Utf8One(a[0])|;
      assert Utf8(a)[n..] == Utf8(a[1..]) && Utf8(b)[n..] == Utf8(b[1..]);
      Utf8Injective(a[1..], b[1..]);
      assert a == [a[0]] + a[1..] && b == [b[0]] + b[1..];
    }
  }

  // ----- UTF-16 -----

  function Utf16One(r: int): (u: seq<unit>)
    requires IsScalar(r)
    ensures 1 <= |u| <= 2
  {
    if r < 0x10000 then [r] else [0xD800 + (r - 0x10000) / 1024, 0xDC00 + (r - 0x10000) % 1024]
  }

  function Utf16(rs: seq<int>): seq<unit>
    requires IsText(rs)
  {
    if rs == [] then [] else Utf16One(rs[0]) + Utf16(rs[1..])
  }

  predicate IsHigh(u: unit) { 0xD800 <= u < 0xDC00 }
  predicate IsLow(u: unit) { 0xDC00 <= u < 0xE000 }

  /** `utf16.Decode`: an unpaired surrogate becomes U+FFFD. */
  function Decode16(us: seq<unit>): seq<int> {
    if us == [] then []
    else if !IsHigh(us[0]) && !IsLow(us[0]) then [us[0]] + Decode16(us[1..])
    else if IsHigh(us[0]) && |us| > 1 && IsLow(us[1]) then
      [0x10000 + 1024 * (us[0] as int - 0xD800) + (us[1] as int - 0xDC00)] + Decode16(us[2..])
    else [REPLACEMENT] + Decode16(us[1..])
  }

  lemma {:induction false} Decode16OfUtf16(rs: seq<int>)
    requires IsText(rs)
    ensures Decode16(Utf16(rs)) == rs
  {
    if rs != [] {
      assert rs[0] in rs;
      Decode16OfUtf16(rs[1..]);
      var us, rest := Utf16(rs), Utf16(rs[1..]);
      if rs[0] < 0x10000 {
        assert us[1..] == rest;
      } else {
        assert us[0] == 0xD800 + (rs[0] - 0x10000) / 1024 && us[1] == 0xDC00 + (rs[0] - 0x10000) % 1024;
        assert us[2..] == rest;
      }
      assert rs == [rs[0]] + rs[1..];
    }
  }

  /** Decoding without a replacement loses nothing. */
  lemma {:induction false} Utf16OfDecode16(us: seq<unit>)
    requires REPLACEMENT !in Decode16(us)
    ensures IsText(Decode16(us)) && Utf16(Decode16(us)) == us
  {
    if us != [] {
      var rs := Decode16(us);
      var n := if IsHigh(us[0]) then 2 else 1;
      assert rs[0] in rs;
      assert rs == [rs[0]] + Decode16(us[n..]);
      Utf16OfDecode16(us[n..]);
      assert rs[1..] == Decode16(us[n..]);
      assert us == us[..n] + us[n..];
      assert Utf16One(rs[0]) == us[..n];
    }
  }
}
