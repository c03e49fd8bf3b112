/** When the answer for a rule is range membership, for every rule and every version, prereleases included. */
module RuleRange {
  import opened Versions
  import opened RuleEffect

  // ----- Between two versions -----

  /** An identifier below the `k`-th one of a prerelease, or any when there is none. */
  function Below(pre: seq<Identifier>, k: nat): Identifier {
    if k < |pre| && pre[k].Numeric? then Numeric(pre[k].n - 1) else Numeric(0)
  }

  lemma {:induction false} LongerIsGreater(p: seq<Identifier>, x: Identifier)
    ensures ComparePre(p, p + [x]) < 0
  {
    if p != [] {
      assert (p + [x])[1..] == p[1..] + [x];
      IdentifierOrder(p[0], p[0], p[0]);
      LongerIsGreater(p[1..], x);
    }
  }

  /** A prerelease that extends `p` and stays below `q`. */
  lemma {:induction false} ExtendsBelow(p: seq<Identifier>, q: seq<Identifier>)
    requires ComparePre(p, q) < 0
    ensures ComparePre(p + [Below(q, |p|)], q) < 0
  {
    var x := p + [Below(q, |p|)];
    if p != [] {
      assert x[1..] == p[1..] + [Below(q, |p|)] && x[0] == p[0];
      if CompareIdentifier(p[0], q[0]) == 0 {
        ExtendsBelow(p[1..], q[1..]);
        assert Below(q[1..], |p[1..]|) == Below(q, |p|);
      }
    }
  }

  /** A version right above `v` and below `w`. */
  function Between(v: Version, w: Version): Version {
    if CompareTriple(v, w) == 0 then v.(pre := v.pre + [Below(w.pre, |v.pre|)]) else Lower(w)
  }

  /** A prerelease below a version. */
  function Lower(w: Version): Version {
    w.(pre := [Below(w.pre, 0)])
  }

  lemma LowerIsBelow(w: Version)
    ensures Compare(Lower(w), w) < 0
  {
    if w.pre != [] {
      ExtendsBelow([], w.pre);
      assert [] + [Below(w.pre, 0)] == [Below(w.pre, 0)];
    }
  }

  lemma SomethingBetween(v: Version, w: Version)
    requires Compare(v, w) < 0
    ensures Compare(v, Between(v, w)) < 0 && Compare(Between(v, w), w) < 0
  {
    if CompareTriple(v, w) == 0 {
      assert v.pre != [];
      LongerIsGreater(v.pre, Below(w.pre, |v.pre|));
      if w.pre != [] {
        ExtendsBelow(v.pre, w.pre);
      }
    } else {
      LowerIsBelow(w);
    }
  }

  /** Between these two there is no release. */
  predicate Adjacent(v: Version, w: Version) {
    CompareTriple(v, w) == 0 || (IsRelease(v) && CompareTriple(NextPatch(v), w) == 0)
  }

  lemma NoReleaseBetween(v: Version, w: Version, r: Version)
    requires Adjacent(v, w) && IsRelease(r) && Compare(v, r) < 0
    ensures Compare(r, w) >= 0
  {
    hide ComparePre;
    PreEmpty(v.pre, r.pre);
    PreEmpty(r.pre, w.pre);
    if w.pre == [] {
      assert CompareTriple(r, w) == 0 ==> r == w;
      CompareAntisymmetric(r, w);
    }
  }

  /** Otherwise a probe on account of one of them is a release between them. */
  lemma ProbeBetween(v: Version, w: Version) returns (x: Version)
    requires Compare(v, w) < 0 && !Adjacent(v, w)
    ensures x in ProbesOf(v) || x in ProbesOf(w)
    ensures Compare(v, x) < 0 && Compare(x, w) < 0
  {
    hide ComparePre;
    if CompareTriple(NextPatch(v), w) < 0 {
      x := NextPatch(v);
    } else {
      x := PrevPatch(w);
    }
  }

  // ----- The bounds of a range -----

  predicate IsCap(c: Clause) { c.op.Lt? || c.op.Le? }

  ghost predicate HighestFloorOf(clauses: seq<Clause>, g: Clause) {
    g in clauses && IsFloor(g) && forall c :: c in clauses && IsFloor(c) ==> Compare(c.version, g.version) <= 0
  }

  ghost predicate TightestCapOf(clauses: seq<Clause>, t: Clause) {
    t in clauses && IsCap(t) && forall c :: c in clauses && IsCap(c) ==> Compare(t.version, c.version) <= 0
  }

  /** The highest floor and the tightest cap are strict and adjacent, and nothing is asked to be equal. */
  ghost predicate Gap(clauses: seq<Clause>) {
    (forall c :: c in clauses ==> !c.op.Eq?)
    && exists g, t :: HighestFloorOf(clauses, g) && TightestCapOf(clauses, t) && StrictlyAdjacent(g, t)
  }

  predicate StrictlyAdjacent(g: Clause, t: Clause) {
    g.op.Gt? && t.op.Lt? && Compare(g.version, t.version) < 0 && Adjacent(g.version, t.version)
  }

  lemma {:induction false} SomeHighestFloor(clauses: seq<Clause>) returns (g: Clause)
    requires HasFloor(clauses)
    ensures HighestFloorOf(clauses, g)
  {
    hide Compare;
    var n := |clauses| - 1;
    var last, init := clauses[n], clauses[..n];
    assert clauses == init + [last];
    CompareAntisymmetric(last.version, last.version);
    if !HasFloor(init) {
      g := last;
    } else {
      g := SomeHighestFloor(init);
      if IsFloor(last) && Compare(last.version, g.version) > 0 {
        CompareAntisymmetric(g.version, last.version);
        forall c | c in clauses && IsFloor(c) ensures Compare(c.version, last.version) <= 0 {
          if c in init {
            CompareTransitive(c.version, g.version, last.version);
          }
        }
        g := last;
      }
    }
  }

  lemma {:induction false} SomeTightestCap(clauses: seq<Clause>) returns (t: Clause)
    requires exists c :: c in clauses && IsCap(c)
    ensures TightestCapOf(clauses, t)
  {
    hide Compare;
    var n := |clauses| - 1;
    var last, init := clauses[n], clauses[..n];
    assert clauses == init + [last];
    CompareAntisymmetric(last.version, last.version);
    if !exists c :: c in init && IsCap(c) {
      t := last;
    } else {
      t := SomeTightestCap(init);
      if IsCap(last) && Compare(t.version, last.version) > 0 {
        CompareAntisymmetric(t.version, last.version);
        forall c | c in clauses && IsCap(c) ensures Compare(last.version, c.version) <= 0 {
          if c in init {
            CompareTransitive(last.version, t.version, c.version);
          }
        }
        t := last;
      }
    }
  }

  // ----- A gap is called contradictory, and is not -----

  lemma BetweenBounds(clauses: seq<Clause>, g: Clause, t: Clause, x: Version)
    requires forall c :: c in clauses ==> !c.op.Eq?
    requires HighestFloorOf(clauses, g) && TightestCapOf(clauses, t)
    requires Compare(g.version, x) < 0 && Compare(x, t.version) < 0
    ensures Satisfies(clauses, x)
  {
    hide Compare;
    forall c | c in clauses ensures Holds(c, x) {
      CompareAntisymmetric(c.version, x);
      CompareAntisymmetric(g.version, x);
      CompareAntisymmetric(x, t.version);
      if IsFloor(c) {
        CompareTransitive(c.version, g.version, x);
      } else {
        CompareTransitive(x, t.version, c.version);
      }
    }
  }

  /** For example `>1.0.0-alpha,<1.0.0-beta`, and `>1.0.0,<1.0.1`. */
  lemma GapIsCalledContradictory(clauses: seq<Clause>)
    requires Gap(clauses)
    ensures Contradictory(clauses) && exists w :: Satisfies(clauses, w)
  {
    hide Compare, Satisfies, ProbesOf, Adjacent;
    var g, t :| HighestFloorOf(clauses, g) && TightestCapOf(clauses, t) && StrictlyAdjacent(g, t);
    SomethingBetween(g.version, t.version);
    BetweenBounds(clauses, g, t, Between(g.version, t.version));
    forall x | x in Probes(clauses) ensures !Satisfies(clauses, x) {
      var d :| d in clauses && x in ProbesOf(d.version);
      ProbeMisses(clauses, g, t, d, x);
    }
  }

  lemma ProbeMisses(clauses: seq<Clause>, g: Clause, t: Clause, d: Clause, x: Version)
    requires HighestFloorOf(clauses, g) && TightestCapOf(clauses, t) && StrictlyAdjacent(g, t)
    requires d in clauses && x in ProbesOf(d.version)
    ensures !Satisfies(clauses, x)
  {
    hide Compare, Adjacent;
    if Holds(g, x) && Holds(t, x) {
      CompareAntisymmetric(g.version, x);
      CompareAntisymmetric(x, t.version);
      if x == d.version {
        CompareAntisymmetric(d.version, g.version);
        CompareAntisymmetric(d.version, t.version);
      } else {
        NoReleaseBetween(g.version, t.version, x);
      }
      assert false;
    }
  }

  // ----- Nothing else with a floor is -----

  /** If some version is in range and the highest floor's own is not, the highest floor is strict. */
  lemma FloorIsStrict(clauses: seq<Clause>, g: Clause, w: Version) returns (h: Clause)
    requires HighestFloorOf(clauses, g) && Satisfies(clauses, w) && !Satisfies(clauses, g.version)
    requires forall c :: c in clauses ==> !c.op.Eq?
    ensures HighestFloorOf(clauses, h) && h.op.Gt? && Compare(h.version, w) < 0
  {
    hide Compare;
    h :| h in clauses && !Holds(h, g.version);
    assert Holds(h, w) && Holds(g, w);
    CompareAntisymmetric(g.version, w);
    CompareAntisymmetric(h.version, w);
    CompareAntisymmetric(h.version, g.version);
    if IsCap(h) {
      CompareTransitive(g.version, w, h.version);
      assert false;
    } else {
      assert h.version == g.version;
    }
  }

  lemma CapIsStrict(clauses: seq<Clause>, t: Clause, w: Version) returns (u: Clause)
    requires TightestCapOf(clauses, t) && Satisfies(clauses, w) && !Satisfies(clauses, t.version)
    requires forall c :: c in clauses ==> !c.op.Eq?
    ensures TightestCapOf(clauses, u) && u.op.Lt? && Compare(w, u.version) < 0
  {
    hide Compare;
    u :| u in clauses && !Holds(u, t.version);
    assert Holds(u, w) && Holds(t, w);
    CompareAntisymmetric(t.version, w);
    CompareAntisymmetric(u.version, w);
    CompareAntisymmetric(u.version, t.version);
    if IsFloor(u) {
      CompareTransitive(u.version, w, t.version);
      assert false;
    } else {
      assert u.version == t.version;
    }
  }

  lemma ProbeOfClause(clauses: seq<Clause>, c: Clause, x: Version)
    requires c in clauses && x in ProbesOf(c.version) && Satisfies(clauses, x)
    ensures !Contradictory(clauses)
  {
    hide Satisfies, ProbesOf;
    assert x in Probes(clauses);
  }

  lemma OwnProbe(clauses: seq<Clause>, c: Clause)
    requires c in clauses && Satisfies(clauses, c.version)
    ensures !Contradictory(clauses)
  {
    hide Satisfies;
    ProbeOfClause(clauses, c, c.version);
  }

  /** Above the highest floor, where there is no cap. */
  lemma OnlyFloors(clauses: seq<Clause>, g: Clause)
    requires HighestFloorOf(clauses, g) && forall c :: c in clauses ==> !c.op.Eq? && !IsCap(c)
    ensures !Contradictory(clauses)
  {
    hide Compare;
    var x := NextPatch(g.version);
    NextIsAbove(g.version);
    forall c | c in clauses ensures Holds(c, x) {
      CompareAntisymmetric(c.version, x);
      CompareTransitive(c.version, g.version, x);
      CompareAntisymmetric(g.version, x);
    }
    ProbeOfClause(clauses, g, x);
  }

  lemma NextIsAbove(v: Version)
    ensures Compare(v, NextPatch(v)) < 0
  {
  }

  /** With a floor, the test is wrong exactly at a gap. */
  lemma WronglyContradictory(clauses: seq<Clause>, w: Version)
    requires HasFloor(clauses) && Satisfies(clauses, w) && Contradictory(clauses)
    ensures Gap(clauses)
  {
    hide Compare, Satisfies, Contradictory, ProbesOf, Adjacent;
    NoEquality(clauses, w);
    var g0 := SomeHighestFloor(clauses);
    if Satisfies(clauses, g0.version) {
      OwnProbe(clauses, g0);
    }
    var g := FloorIsStrict(clauses, g0, w);
    if !exists c :: c in clauses && IsCap(c) {
      OnlyFloors(clauses, g);
    }
    var t0 := SomeTightestCap(clauses);
    if Satisfies(clauses, t0.version) {
      OwnProbe(clauses, t0);
    }
    var t := CapIsStrict(clauses, t0, w);
    CompareTransitive(g.version, w, t.version);
    CompareAntisymmetric(g.version, t.version);
    if !Adjacent(g.version, t.version) {
      var x := ProbeBetween(g.version, t.version);
      BetweenBounds(clauses, g, t, x);
      ProbeOfClause(clauses, if x in ProbesOf(g.version) then g else t, x);
    }
    assert StrictlyAdjacent(g, t);
  }

  lemma NoEquality(clauses: seq<Clause>, w: Version)
    requires Satisfies(clauses, w) && Contradictory(clauses)
    ensures forall c :: c in clauses ==> !c.op.Eq?
  {
    hide Compare, Contradictory;
    forall c | c in clauses ensures !c.op.Eq? {
      if c.op.Eq? {
        assert Holds(c, w);
        CompareAntisymmetric(w, c.version);
        OwnProbe(clauses, c);
      }
    }
  }

  // ----- The answer -----

  /** With caps alone, versions far enough below are in range, so the answer is membership if and only if the tightest
      cap is not a strict one at patch zero. */
  lemma CapsAnswerIsMembership(c: Constraint)
    requires c.supported && c.issues == 0 && c.clauses != [] && !HasFloor(c.clauses)
    ensures IsMembership(c) <==> !CappedAtMinor(c.clauses)
  {
    hide Compare, Satisfies, ProbesOf, Contradictory, CappedAtMinor;
    ContradictoryWithoutFloor(c.clauses);
    if CappedAtMinor(c.clauses) {
      var t := TightestCap(c.clauses);
      LowerIsBelow(t.version);
      BelowTightest(c.clauses, t, Lower(t.version));
      assert Answer(c, Lower(t.version)) != Vulnerable;
    }
  }

  /** Of every version the rule says VULNERABLE exactly when it is in range. */
  ghost predicate IsMembership(c: Constraint) {
    forall v :: Answer(c, v) == Vulnerable <==> Satisfies(c.clauses, v)
  }

  /** For every well-formed rule, whatever versions its clauses name, the answer is range membership for all versions if
      and only if, with a floor, the range is no gap, and, without one, the tightest cap is no strict one at patch zero. */
  lemma AnswerExactly(c: Constraint)
    requires c.supported && c.issues == 0 && c.clauses != []
    ensures IsMembership(c) <==> if HasFloor(c.clauses) then !Gap(c.clauses) else !CappedAtMinor(c.clauses)
  {
    hide Satisfies, Gap, CappedAtMinor, Contradictory;
    if !HasFloor(c.clauses) {
      CapsAnswerIsMembership(c);
    } else if Gap(c.clauses) {
      GapIsCalledContradictory(c.clauses);
      var w :| Satisfies(c.clauses, w);
      assert Answer(c, w) != Vulnerable;
    } else {
      forall v ensures Answer(c, v) == Vulnerable <==> Satisfies(c.clauses, v) {
        if Contradictory(c.clauses) && Satisfies(c.clauses, v) {
          WronglyContradictory(c.clauses, v);
        }
      }
    }
  }

  /** Any two versions of one release, such as `>1.0.0-alpha,<1.0.0-beta`, bound a gap: versions lie in it, and the rule
      says of none that it is vulnerable. */
  lemma PrereleaseGap(c: Constraint, v: Version, w: Version)
    requires c.supported && c.issues == 0 && c.clauses == [Clause(Gt, v), Clause(Lt, w)]
    requires CompareTriple(v, w) == 0 && Compare(v, w) < 0
    ensures Satisfies(c.clauses, Between(v, w)) && forall u :: Answer(c, u) == Unevaluated
  {
    hide Compare, CompareTriple, Satisfies, Contradictory;
    var g, t := Clause(Gt, v), Clause(Lt, w);
    CompareAntisymmetric(v, v);
    CompareAntisymmetric(w, w);
    assert HighestFloorOf(c.clauses, g) && TightestCapOf(c.clauses, t) && StrictlyAdjacent(g, t);
    GapIsCalledContradictory(c.clauses);
    SomethingBetween(v, w);
    BetweenBounds(c.clauses, g, t, Between(v, w));
  }

  /** For release clauses, a gap is a range that only prereleases lie in. */
  lemma ReleaseGap(clauses: seq<Clause>)
    requires Releases(clauses) && HasFloor(clauses)
    ensures Gap(clauses) <==> PrereleasesOnly(clauses)
  {
    hide Gap, PrereleasesOnly, Contradictory, Satisfies;
    var c := Constraint(true, clauses, 0);
    AnswerExactly(c);
    AnswerIsMembership(c);
  }
}
