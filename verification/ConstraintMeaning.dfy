/** Finalizing and comparing authorization constraints, told over their fields. */
module ConstraintMeaning {
  import opened Constraints

  // ----- Trimming -----

  /** The characters with the White_Space property of Unicode. */
  lemma SpaceMeaning(c: char)
    ensures IsSpace(c) <==>
      c as int in {0x09, 0x0A, 0x0B, 0x0C, 0x0D, 0x20, 0x85, 0xA0, 0x1680, 0x2000, 0x2001, 0x2002, 0x2003, 0x2004, 0x2005,
                   0x2006, 0x2007, 0x2008, 0x2009, 0x200A, 0x2028, 0x2029, 0x202F, 0x205F, 0x3000}
  {
  }

  predicate Blank(s: string) {
    forall i :: 0 <= i < |s| ==> IsSpace(s[i])
  }

  lemma {:induction false} LeftMeaning(s: string) returns (a: string)
    ensures s == a + TrimLeft(s) && Blank(a)
  {
    hide IsSpace;
    if s != [] && IsSpace(s[0]) {
      var rest := LeftMeaning(s[1..]);
      a := [s[0]] + rest;
      assert s == [s[0]] + s[1..];
    } else {
      a := [];
    }
  }

  lemma {:induction false} RightMeaning(s: string) returns (b: string)
    ensures s == TrimRight(s) + b && Blank(b)
  {
    hide IsSpace;
    if s != [] && IsSpace(s[|s| - 1]) {
      var rest := RightMeaning(s[..|s| - 1]);
      b := rest + [s[|s| - 1]];
      assert s == s[..|s| - 1] + [s[|s| - 1]];
    } else {
      b := [];
    }
  }

  /** Trimming takes away blanks at both ends, all of them and nothing else. */
  lemma TrimMeaning(s: string) returns (a: string, b: string)
    ensures s == a + Trim(s) + b && Blank(a) && Blank(b)
    ensures Trim(s) == [] || (!IsSpace(Trim(s)[0]) && !IsSpace(Trim(s)[|Trim(s)| - 1]))
    ensures Trim(s) == "" <==> Blank(s)
  {
    hide IsSpace;
    a := LeftMeaning(s);
    b := RightMeaning(TrimLeft(s));
    TrimTrims(s);
    assert s == a + (Trim(s) + b);
    if Trim(s) != [] {
      assert s[|a|] == Trim(s)[0];
    }
  }

  // ----- Finalizing -----

  /** A constraint can be finalized exactly when none of its four parts is blank and its effect is a known one; what
      comes out has the trimmed parts, and everything else but the digest and a missing id as it was. */
  lemma FinalizeMeaning(c: Constraint, hashes: Hashes)
    ensures Finalize(c, hashes).Ok? <==>
      !Blank(c.principal) && !Blank(c.action) && !Blank(c.resource) && !Blank(c.scope) && (c.effect == Allow || c.effect == Deny)
    ensures Finalize(c, hashes).Ok? ==>
      var r := Finalize(c, hashes).value;
      && r.principal == Trim(c.principal) && r.action == Trim(c.action) && r.resource == Trim(c.resource) && r.scope == Trim(c.scope)
      && r.effect == c.effect && r.requiresConfirmation == c.requiresConfirmation && r.provenance == c.provenance
      && (c.id != "" ==> r.id == c.id)
  {
    hide Trim, Blank;
    var a, b := TrimMeaning(c.principal);
    a, b := TrimMeaning(c.action);
    a, b := TrimMeaning(c.resource);
    a, b := TrimMeaning(c.scope);
  }

  /** Two finalized constraints have one digest exactly when all they state is the same. */
  lemma DigestMeaning(c: Constraint, d: Constraint, hashes: Hashes)
    requires Finalize(c, hashes).Ok? && Finalize(d, hashes).Ok? && CollisionFree(hashes.full)
    ensures Finalize(c, hashes).value.digest == Finalize(d, hashes).value.digest <==>
      && Trim(c.principal) == Trim(d.principal) && Trim(c.action) == Trim(d.action) && Trim(c.resource) == Trim(d.resource)
      && Trim(c.scope) == Trim(d.scope) && c.effect == d.effect && c.requiresConfirmation == d.requiresConfirmation
      && c.provenance == d.provenance
  {
    hide Trim;
    FinalizeBindsDigest(c, d, hashes);
  }

  // ----- Comparing -----

  /** Two constraints speak of one authority. */
  predicate SameAuthority(d: Constraint, e: Constraint) {
    d.action == e.action && d.resource == e.resource && d.scope == e.scope
  }

  /** The positions of the constraints that speak of the authority of `d`. */
  ghost function Speaking(d: Constraint, effective: seq<Constraint>): set<nat> {
    set i: nat | i < |effective| && SameAuthority(d, effective[i])
  }

  lemma {:induction false} MatchesMeaning(d: Constraint, effective: seq<Constraint>)
    ensures |Matches(effective, KeyOf(d))| == |Speaking(d, effective)|
    ensures forall e :: e in Matches(effective, KeyOf(d)) <==> e in effective && SameAuthority(d, e)
  {
    if effective == [] {
      assert Speaking(d, effective) == {};
    } else {
      var n := |effective| - 1;
      var init, last := effective[..n], effective[n];
      assert effective == init + [last];
      MatchesMeaning(d, init);
      MatchesSnoc(init, last, KeyOf(d));
      SpeakingSnoc(d, init, last);
    }
  }

  lemma SpeakingSnoc(d: Constraint, effective: seq<Constraint>, e: Constraint)
    ensures |Speaking(d, effective + [e])| == |Speaking(d, effective)| + if SameAuthority(d, e) then 1 else 0
  {
    hide SameAuthority;
    var n, more := |effective|, effective + [e];
    assert forall i :: 0 <= i < n ==> more[i] == effective[i];
    assert Speaking(d, more) == Speaking(d, effective) + if SameAuthority(d, e) then {n} else {};
  }

  /** Nothing speaks of the authority any more. */
  ghost predicate Unspoken(d: Constraint, effective: seq<Constraint>) {
    forall e :: e in effective ==> !SameAuthority(d, e)
  }

  /** `e` alone speaks of it. */
  ghost predicate SpeaksAlone(d: Constraint, effective: seq<Constraint>, e: Constraint) {
    e in effective && SameAuthority(d, e) && |Speaking(d, effective)| == 1
  }

  /** The drift of a declared constraint, case by case: gone; answered by one constraint; or by several. */
  lemma DriftMeaning(d: Constraint, effective: seq<Constraint>, boundary: string)
    ensures var r := DriftOf(d, effective, boundary);
            && r.constraintId == d.id && r.boundary == boundary && r.declared == d
            && (Unspoken(d, effective) ==>
                  r.state == Lost && r.reason == "declared constraint absent after boundary" && r.effective == NoConstraint)
            && (|Speaking(d, effective)| > 1 ==>
                  r.state == Conflicting && r.reason == "multiple effective constraints match the same authority"
                  && r.effective == NoConstraint)
            && (forall e :: SpeaksAlone(d, effective, e) ==>
                  && r.effective == One(e)
                  && (r.state == Preserved <==> d.effect == e.effect && (d.requiresConfirmation ==> e.requiresConfirmation))
                  && (r.state == Weakened <==> d.effect == Allow && e.effect == Allow && d.requiresConfirmation && !e.requiresConfirmation)
                  && (r.state == Lost <==> d.effect == Deny && e.effect == Allow))
    ensures Unspoken(d, effective) || |Speaking(d, effective)| > 1 || exists e :: SpeaksAlone(d, effective, e)
  {
    hide Speaking, KeyOf, Matches;
    MatchesMeaning(d, effective);
    var matches := Matches(effective, KeyOf(d));
    if |matches| >= 1 {
      assert matches[0] in matches;
    }
    if |matches| == 1 {
      assert SpeaksAlone(d, effective, matches[0]);
      forall e | SpeaksAlone(d, effective, e) ensures e == matches[0] {
        assert e in matches;
      }
    }
  }

  /** The reason says which case it is. */
  lemma ReasonMeaning(d: Constraint, effective: seq<Constraint>, boundary: string, e: Constraint)
    requires SpeaksAlone(d, effective, e)
    ensures var r := DriftOf(d, effective, boundary);
            r.reason == (match r.state
                         case Preserved => "constraint preserved or strengthened"
                         case Weakened => "confirmation requirement removed"
                         case Lost => "deny became allow"
                         case Conflicting => "effective constraint conflicts with declaration")
  {
    hide Speaking, KeyOf, Matches;
    MatchesMeaning(d, effective);
  }

  function Sentence(d: Drift): string {
    "authority " + (if d.state == Lost then "lost" else if d.state == Weakened then "weakened" else "conflicting")
    + " at " + d.boundary + ": " + d.reason
  }

  /** Every drift but a preserved constraint leaves one sentence behind, and nothing else does. */
  lemma {:induction false} ComplaintsMeaning(drifts: seq<Drift>, x: string)
    ensures x in Complaints(drifts) <==> exists d :: d in drifts && d.state != Preserved && x == Sentence(d)
  {
    hide Complaint, Sentence;
    if drifts != [] {
      ComplaintsMeaning(drifts[1..], x);
      ComplaintText(drifts[0]);
      assert drifts == [drifts[0]] + drifts[1..];
    }
  }

  lemma ComplaintText(d: Drift)
    ensures d.state != Preserved ==> Complaint(d) == Sentence(d)
  {
  }
}
