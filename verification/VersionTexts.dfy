/** Prerelease identifiers as texts: which of them the program reads as section 11 of Semantic Versioning 2.0.0 does. */
module VersionTexts {
  import opened Bytes
  import opened Versions
  import opened VersionOrder

  predicate IsDigits(s: string) {
    s != [] && forall i :: 0 <= i < |s| ==> '0' <= s[i] <= '9'
  }

  /** Decimal digits, the last one lowest. */
  function Numeral(s: string): nat
    requires forall i :: 0 <= i < |s| ==> '0' <= s[i] <= '9'
  {
    if s == [] then 0 else 10 * Numeral(s[..|s| - 1]) + (s[|s| - 1] as int - '0' as int)
  }

  predicate IsNegative(s: string) {
    s != [] && s[0] == '-' && IsDigits(s[1..])
  }

  /** A text that is a 64-bit integer in decimal is a number, one with a leading hyphen included. */
  function Parsed(s: string): Identifier {
    if IsDigits(s) && Numeral(s) < TWO63 then Numeric(Numeral(s))
    else if IsNegative(s) && Numeral(s[1..]) <= TWO63 then var n: int := Numeral(s[1..]); Numeric(-n)
    else Text(s)
  }

  /** Section 11, rule 4: digits alone are a number, of any length; everything else is a text. */
  ghost predicate BelowAsTexts(p: string, q: string) {
    if IsDigits(p) then IsDigits(q) ==> Numeral(p) < Numeral(q) else !IsDigits(q) && TextBelow(p, q)
  }

  ghost predicate ReadAlike(p: string, q: string) {
    && (CompareIdentifier(Parsed(p), Parsed(q)) < 0 <==> BelowAsTexts(p, q))
    && (CompareIdentifier(Parsed(q), Parsed(p)) < 0 <==> BelowAsTexts(q, p))
  }

  /** A hyphen before a number that fits, or a number that does not. */
  predicate Misread(s: string) {
    (IsNegative(s) && Numeral(s[1..]) <= TWO63) || (IsDigits(s) && Numeral(s) >= TWO63)
  }

  lemma PairReadAlike(p: string, q: string)
    requires !Misread(p) && !Misread(q)
    ensures ReadAlike(p, q)
  {
    hide Numeral, TextBelow, CompareIdentifier;
    IdentifierMeaning(Parsed(p), Parsed(q));
    IdentifierMeaning(Parsed(q), Parsed(p));
  }

  /** "-5" is a number to the program, below "1"; to section 11 it is a text, above every number. */
  lemma HyphenIsMisread(s: string)
    requires IsNegative(s) && Numeral(s[1..]) <= TWO63
    ensures !Misread("1") && !ReadAlike(s, "1")
  {
    OneIsOne();
    assert !IsDigits(s) by { assert s[0] == '-'; }
  }

  lemma OneIsOne()
    ensures IsDigits("1") && Numeral("1") == 1 && !Misread("1")
  {
    assert "1"[..0] == "";
  }

  /** A number past the largest 64-bit integer is a text to the program, above "-". */
  lemma LargeIsMisread(s: string)
    requires IsDigits(s) && Numeral(s) >= TWO63
    ensures !Misread("-") && !ReadAlike(s, "-")
  {
    hide Numeral;
    assert "-"[1..] == "";
    assert "-"[0] == '-' && !IsDigits("-");
    assert Parsed("-") == Text("-");
    assert !IsNegative(s) by { assert s[0] != '-'; }
    IdentifierMeaning(Parsed(s), Text("-"));
    assert !TextBelow(s, "-");
  }

  /** An identifier is compared as section 11 has it with all that are not misread themselves, if and only if it is neither
      a hyphen before a number that fits 64 bits nor a number that does not. */
  lemma ReadRightExactly(p: string)
    ensures (forall q :: !Misread(q) ==> ReadAlike(p, q)) <==> !Misread(p)
  {
    hide ReadAlike, Numeral;
    if !Misread(p) {
      forall q | !Misread(q) ensures ReadAlike(p, q) {
        PairReadAlike(p, q);
      }
    } else if IsDigits(p) && Numeral(p) >= TWO63 {
      LargeIsMisread(p);
    } else {
      HyphenIsMisread(p);
    }
  }
}
