/** Version-range advisory rules: evaluation, the emptiness test and the effectiveness levels. */
module RuleEffect {
  import opened Versions

  datatype Op = Lt | Le | Gt | Ge | Eq

  datatype Clause = Clause(op: Op, version: Version)

  datatype VulnState = Vulnerable | NotVulnerable | Unevaluated

  predicate Holds(c: Clause, v: Version) {
    var cmp := Compare(v, c.version);
    match c.op
    case Lt => cmp < 0
    case Le => cmp <= 0
    case Gt => cmp > 0
    case Ge => cmp >= 0
    case Eq => cmp == 0
  }

  predicate Satisfies(clauses: seq<Clause>, v: Version) {
    forall c :: c in clauses ==> Holds(c, v)
  }

  method EvaluateClauses(clauses: seq<Clause>, v: Version) returns (s: VulnState)
    ensures s == if Satisfies(clauses, v) then Vulnerable else NotVulnerable
  {
    for n := 0 to |clauses|
      invariant forall j :: 0 <= j < n ==> Holds(clauses[j], v)
    {
      if !Holds(clauses[n], v) {
        assert clauses[n] in clauses;
        return NotVulnerable;
      }
    }
    return Vulnerable;
  }

  // ----- Probes -----

  function NextPatch(v: Version): Version { Version(v.major, v.minor, v.patch + 1, []) }

  function PrevPatch(v: Version): Version
    requires v.patch > 0
  {
    Version(v.major, v.minor, v.patch - 1, [])
  }

  function NextMinor(v: Version): Version { Version(v.major, v.minor + 1, 0, []) }

  /** The versions tried on account of one clause: its own, and its neighbours. */
  function ProbesOf(v: Version): set<Version> {
    {v, NextPatch(v), NextMinor(v)} + if v.patch > 0 then {PrevPatch(v)} else {}
  }

  function Probes(clauses: seq<Clause>): set<Version> {
    set c, v | c in clauses && v in ProbesOf(c.version) :: v
  }

  predicate Contradictory(clauses: seq<Clause>) {
    forall v :: v in Probes(clauses) ==> !Satisfies(clauses, v)
  }

  /** Try every probe; the order of a map's keys is open. */
  method IsContradictory(clauses: seq<Clause>) returns (b: bool)
    ensures b == Contradictory(clauses)
  {
    hide Satisfies, ProbesOf;
    var probe: set<Version> := {};
    for n := 0 to |clauses|
      invariant probe == Probes(clauses[..n])
    {
      ProbesSnoc(clauses, n);
      probe := probe + ProbesOf(clauses[n].version);
    }
    assert clauses[..|clauses|] == clauses;
    var todo := probe;
    while todo != {}
      invariant todo <= probe
      invariant forall v :: v in probe - todo ==> !Satisfies(clauses, v)
      decreases todo
    {
      var v :| v in todo;
      var s := EvaluateClauses(clauses, v);
      if s == Vulnerable {
        return false;
      }
      todo := todo - {v};
    }
    return true;
  }

  lemma ProbesSnoc(clauses: seq<Clause>, n: nat)
    requires n < |clauses|
    ensures Probes(clauses[..n + 1]) == Probes(clauses[..n]) + ProbesOf(clauses[n].version)
  {
    assert clauses[..n + 1] == clauses[..n] + [clauses[n]];
  }

  // ----- The small-model theorem -----

  predicate Releases(clauses: seq<Clause>) {
    forall c :: c in clauses ==> IsRelease(c.version)
  }

  /** A clause that bounds the range from below. */
  predicate IsFloor(c: Clause) { c.op.Gt? || c.op.Ge? || c.op.Eq? }

  predicate HasFloor(clauses: seq<Clause>) {
    exists c :: c in clauses && IsFloor(c)
  }

  ghost predicate SomeRelease(clauses: seq<Clause>) {
    exists v :: IsRelease(v) && Satisfies(clauses, v)
  }

  /** The least release a floor admits; it is one of the clause's probes. */
  function Least(c: Clause): Version
    requires IsFloor(c)
  {
    if c.op.Gt? then NextPatch(c.version) else c.version
  }

  lemma LeastIsLeast(c: Clause, v: Version)
    requires IsFloor(c) && IsRelease(c.version) && IsRelease(v)
    ensures Holds(c, v) ==> Compare(Least(c), v) <= 0
    ensures !c.op.Eq? && Compare(Least(c), v) <= 0 ==> Holds(c, v)
  {
    CompareAntisymmetric(c.version, v);
  }

  /** The floor with the highest least release. */
  lemma {:induction false} HighestFloor(clauses: seq<Clause>) returns (h: Clause)
    requires HasFloor(clauses)
    ensures h in clauses && IsFloor(h)
    ensures forall c :: c in clauses && IsFloor(c) ==> Compare(Least(c), Least(h)) <= 0
  {
    hide Compare;
    var n := |clauses| - 1;
    var last, init := clauses[n], clauses[..n];
    assert clauses == init + [last];
    if IsFloor(last) {
      CompareAntisymmetric(Least(last), Least(last));
    }
    if !HasFloor(init) {
      h := last;
    } else {
      h := HighestFloor(init);
      if IsFloor(last) {
        CompareAntisymmetric(Least(last), Least(h));
        if Compare(Least(last), Least(h)) > 0 {
          forall c | c in clauses && IsFloor(c) ensures Compare(Least(c), Least(last)) <= 0 {
            if c in init {
              CompareTransitive(Least(c), Least(h), Least(last));
            }
          }
          h := last;
        }
      }
    }
  }

  /** If any release satisfies the clauses, the highest floor's least release does. */
  lemma LowestReleaseSatisfies(clauses: seq<Clause>, h: Clause, w: Version)
    requires Releases(clauses) && h in clauses && IsFloor(h)
    requires forall c :: c in clauses && IsFloor(c) ==> Compare(Least(c), Least(h)) <= 0
    requires IsRelease(w) && Satisfies(clauses, w)
    ensures Satisfies(clauses, Least(h))
  {
    hide Compare;
    var m := Least(h);
    LeastIsLeast(h, w);
    forall c | c in clauses ensures Holds(c, m) {
      if c.op.Gt? || c.op.Ge? {
        LeastIsLeast(c, m);
      } else if c.op.Eq? {
        LeastIsLeast(c, w);
        CompareAntisymmetric(w, c.version);
        CompareAntisymmetric(m, c.version);
      } else {
        CompareTransitive(m, w, c.version);
      }
    }
  }

  /** Small model: with release versions and a clause that bounds the range from below, the test answers exactly
      whether some release is in range. */
  lemma ContradictoryIsExact(clauses: seq<Clause>)
    requires Releases(clauses) && HasFloor(clauses)
    ensures Contradictory(clauses) <==> !SomeRelease(clauses)
  {
    hide Satisfies, Compare;
    if SomeRelease(clauses) {
      var w :| IsRelease(w) && Satisfies(clauses, w);
      var h := HighestFloor(clauses);
      LowestReleaseSatisfies(clauses, h, w);
      assert Least(h) in ProbesOf(h.version);
      assert Least(h) in Probes(clauses);
    }
    forall v | v in Probes(clauses) ensures IsRelease(v) {
      var c :| c in clauses && v in ProbesOf(c.version);
    }
  }

  // ----- Without a floor -----

  /** The tightest cap is `< a.b.0`: no probe lies below it. */
  ghost predicate CappedAtMinor(clauses: seq<Clause>) {
    exists c :: c in clauses && c.op.Lt? && c.version.patch == 0 && IsTightest(clauses, c)
  }

  ghost predicate IsTightest(clauses: seq<Clause>, c: Clause) {
    forall d :: d in clauses ==> Compare(c.version, d.version) <= 0
  }

  lemma ProbesNotBelow(c: Version, d: Version, v: Version)
    requires c.patch == 0 && Compare(c, d) <= 0 && v in ProbesOf(d)
    ensures Compare(v, c) >= 0
  {
    hide ComparePre;
    CompareAntisymmetric(c, d);
    PreEmpty(v.pre, c.pre);
  }

  lemma {:induction false} TightestCap(clauses: seq<Clause>) returns (t: Clause)
    requires clauses != []
    ensures t in clauses && IsTightest(clauses, t)
  {
    hide Compare;
    var n := |clauses| - 1;
    var last, init := clauses[n], clauses[..n];
    assert clauses == init + [last];
    CompareAntisymmetric(last.version, last.version);
    if init == [] {
      t := last;
    } else {
      t := TightestCap(init);
      CompareAntisymmetric(t.version, last.version);
      if Compare(t.version, last.version) > 0 {
        forall d | d in clauses ensures Compare(last.version, d.version) <= 0 {
          if d in init {
            CompareTransitive(last.version, t.version, d.version);
          }
        }
        t := last;
      }
    }
  }

  /** A release strictly below the tightest cap, or the cap itself when nothing excludes it, satisfies every clause. */
  lemma BelowTightest(clauses: seq<Clause>, t: Clause, v: Version)
    requires !HasFloor(clauses) && t in clauses && IsTightest(clauses, t)
    requires Compare(v, t.version) < 0 || (v == t.version && forall c :: c in clauses && c.op.Lt? ==> c.version != v)
    ensures Satisfies(clauses, v)
  {
    hide Compare;
    CompareAntisymmetric(v, t.version);
    forall c | c in clauses ensures Holds(c, v) {
      assert !IsFloor(c);
      CompareTransitive(v, t.version, c.version);
      CompareAntisymmetric(v, c.version);
    }
  }

  /** Clauses that only bound from above are called contradictory exactly when the tightest of them is `< a.b.0`. */
  lemma ContradictoryWithoutFloor(clauses: seq<Clause>)
    requires clauses != [] && !HasFloor(clauses)
    ensures Contradictory(clauses) <==> CappedAtMinor(clauses)
  {
    hide Satisfies, Compare, ProbesOf;
    if CappedAtMinor(clauses) {
      var c :| c in clauses && c.op.Lt? && c.version.patch == 0 && IsTightest(clauses, c);
      forall v | v in Probes(clauses) ensures !Satisfies(clauses, v) {
        var d :| d in clauses && v in ProbesOf(d.version);
        ProbesNotBelow(c.version, d.version, v);
        FailsCap(clauses, c, v);
      }
    } else {
      var t := TightestCap(clauses);
      OwnProbes(clauses, t);
      if c :| c in clauses && c.op.Lt? && c.version == t.version {
        assert IsTightest(clauses, c);
        PrevIsBelow(t.version);
        BelowTightest(clauses, t, PrevPatch(t.version));
        assert PrevPatch(t.version) in Probes(clauses);
      } else {
        BelowTightest(clauses, t, t.version);
        assert t.version in Probes(clauses);
      }
    }
  }

  lemma OwnProbes(clauses: seq<Clause>, t: Clause)
    requires t in clauses
    ensures t.version in Probes(clauses) && (t.version.patch > 0 ==> PrevPatch(t.version) in Probes(clauses))
  {
    assert t.version in ProbesOf(t.version);
    assert t.version.patch > 0 ==> PrevPatch(t.version) in ProbesOf(t.version);
  }

  lemma PrevIsBelow(v: Version)
    requires v.patch > 0
    ensures Compare(PrevPatch(v), v) < 0
  {
  }

  lemma FailsCap(clauses: seq<Clause>, c: Clause, v: Version)
    requires c in clauses && c.op.Lt? && Compare(v, c.version) >= 0
    ensures !Satisfies(clauses, v)
  {
    assert !Holds(c, v);
  }

  /** For example `<2.0.0`, which plenty of versions satisfy, is called contradictory. */
  lemma LoneCapIsCalledContradictory(major: nat)
    requires major > 0
    ensures var clauses := [Clause(Lt, Version(major, 0, 0, []))];
            Contradictory(clauses) && Satisfies(clauses, Version(major - 1, 0, 0, []))
  {
    var c := Clause(Lt, Version(major, 0, 0, []));
    var clauses := [c];
    CompareAntisymmetric(c.version, c.version);
    assert IsTightest(clauses, c);
    ContradictoryWithoutFloor(clauses);
  }

  // ----- Prereleases -----

  /** The range lies strictly between a release and the next patch: only prereleases of that patch are in it. */
  ghost predicate PrereleasesOnly(clauses: seq<Clause>) {
    exists g :: g in clauses && g.op.Gt? && Clause(Lt, NextPatch(g.version)) in clauses
      && Satisfies(clauses, Candidate(g.version))
  }

  /** A prerelease of the next patch. */
  function Candidate(v: Version): Version { NextPatch(v).(pre := [Numeric(0)]) }

  /** Against releases, a prerelease compares like the cut just below its release. */
  lemma PrereleaseAgainstRelease(w: Version, r: Version)
    requires !IsRelease(w) && IsRelease(r)
    ensures Compare(w, r) < 0 <==> Compare(w.(pre := []), r) <= 0
    ensures Compare(w, r) != 0
  {
    CompareAntisymmetric(w.(pre := []), r);
  }

  lemma SamePrereleaseVerdict(clauses: seq<Clause>, w: Version, x: Version)
    requires Releases(clauses) && !IsRelease(w) && !IsRelease(x) && w.(pre := []) == x.(pre := [])
    requires Satisfies(clauses, w)
    ensures Satisfies(clauses, x)
  {
    hide Compare;
    forall c | c in clauses ensures Holds(c, x) {
      assert Holds(c, w);
      PrereleaseAgainstRelease(w, c.version);
      PrereleaseAgainstRelease(x, c.version);
    }
  }

  /** If a prerelease satisfies the clauses and its release does not, some clause is `<` that release. */
  lemma CapAtRelease(clauses: seq<Clause>, w: Version)
    requires Releases(clauses) && !IsRelease(w) && Satisfies(clauses, w) && !Satisfies(clauses, w.(pre := []))
    ensures Clause(Lt, w.(pre := [])) in clauses
  {
    hide Compare;
    var r := w.(pre := []);
    var c :| c in clauses && !Holds(c, r);
    assert Holds(c, w);
    PrereleaseAgainstRelease(w, c.version);
    CompareAntisymmetric(r, c.version);
    assert c == Clause(Lt, r);
  }

  /** With no release in range, the least release above the highest floor is the patch a prerelease in range belongs to. */
  lemma OnlyPrereleaseIsGap(clauses: seq<Clause>, w: Version)
    requires Releases(clauses) && HasFloor(clauses) && !SomeRelease(clauses) && Satisfies(clauses, w)
    ensures PrereleasesOnly(clauses)
  {
    hide Compare, Satisfies;
    assert !IsRelease(w);
    var r := w.(pre := []);
    CapAtRelease(clauses, w);
    var h := HighestFloor(clauses);
    FloorBelowPrerelease(clauses, h, w);
    if Compare(Least(h), r) < 0 {
      LeastSatisfiesBelow(clauses, h, w);
    }
    CompareAntisymmetric(Least(h), r);
    GapAtHighestFloor(clauses, h, w);
    SamePrereleaseVerdict(clauses, w, Candidate(h.version));
  }

  lemma FloorBelowPrerelease(clauses: seq<Clause>, h: Clause, w: Version)
    requires Releases(clauses) && h in clauses && IsFloor(h) && !IsRelease(w) && Satisfies(clauses, w)
    ensures Compare(Least(h), w.(pre := [])) <= 0 && !h.op.Eq?
    ensures Compare(Least(h), w.(pre := [])) == 0 ==> h.op.Gt?
  {
    assert Holds(h, w);
  }

  /** A release between the floors and the prerelease would satisfy every clause. */
  lemma LeastSatisfiesBelow(clauses: seq<Clause>, h: Clause, w: Version)
    requires Releases(clauses) && h in clauses && IsFloor(h) && !IsRelease(w) && Satisfies(clauses, w)
    requires forall c :: c in clauses && IsFloor(c) ==> Compare(Least(c), Least(h)) <= 0
    requires Compare(Least(h), w.(pre := [])) < 0
    ensures SomeRelease(clauses)
  {
    hide Compare;
    var m := Least(h);
    PrereleaseAgainstRelease(w, m);
    CompareAntisymmetric(m, w);
    CompareAntisymmetric(m, w.(pre := []));
    forall c | c in clauses ensures Holds(c, m) {
      assert Holds(c, w);
      PrereleaseAgainstRelease(w, c.version);
      if IsFloor(c) {
        LeastIsLeast(c, m);
      } else {
        CompareTransitive(m, w, c.version);
        CompareAntisymmetric(w, c.version);
      }
    }
    assert Satisfies(clauses, m);
  }

  lemma GapAtHighestFloor(clauses: seq<Clause>, h: Clause, w: Version)
    requires h in clauses && IsFloor(h) && Least(h) == w.(pre := []) && Clause(Lt, w.(pre := [])) in clauses
    requires Releases(clauses) && Satisfies(clauses, w) && !IsRelease(w)
    ensures h.op.Gt? && Clause(Lt, NextPatch(h.version)) in clauses
    ensures Candidate(h.version).(pre := []) == w.(pre := [])
  {
    hide Satisfies;
    FloorBelowPrerelease(clauses, h, w);
    CompareAntisymmetric(Least(h), w.(pre := []));
  }

  lemma GapHasNoRelease(clauses: seq<Clause>)
    requires Releases(clauses) && PrereleasesOnly(clauses)
    ensures !SomeRelease(clauses) && HasFloor(clauses)
  {
    var g :| g in clauses && g.op.Gt? && Clause(Lt, NextPatch(g.version)) in clauses && Satisfies(clauses, Candidate(g.version));
    forall v | IsRelease(v) ensures !Satisfies(clauses, v) {
      if Holds(g, v) && Holds(Clause(Lt, NextPatch(g.version)), v) {
        NothingBetween(g.version, v);
      }
    }
  }

  lemma NothingBetween(r: Version, v: Version)
    requires IsRelease(r) && IsRelease(v)
    ensures !(Compare(v, r) > 0 && Compare(v, NextPatch(r)) < 0)
  {
  }

  // ----- Evaluation -----

  /** A rule after parsing: `supported` ecosystem, well-formed clauses, and the issues of the malformed ones. */
  datatype Constraint = Constraint(supported: bool, clauses: seq<Clause>, issues: nat)

  datatype MaybeVersion = NotAVersion | Parsed(version: Version)

  predicate Evaluable(c: Constraint) {
    c.supported && c.issues == 0 && c.clauses != [] && !Contradictory(c.clauses)
  }

  /** What `EvaluateVersion` answers for a version. */
  function Answer(c: Constraint, v: Version): VulnState {
    if !Evaluable(c) then Unevaluated else if Satisfies(c.clauses, v) then Vulnerable else NotVulnerable
  }

  method EvaluateVersion(c: Constraint, v: MaybeVersion) returns (s: VulnState)
    ensures s == Unevaluated <==> !Evaluable(c) || v.NotAVersion?
    ensures s == Vulnerable ==> Satisfies(c.clauses, v.version)
    ensures s == NotVulnerable ==> !Satisfies(c.clauses, v.version)
    ensures v.Parsed? ==> s == Answer(c, v.version)
  {
    if !c.supported || c.issues > 0 || c.clauses == [] || v.NotAVersion? {
      return Unevaluated;
    }
    var empty := IsContradictory(c.clauses);
    if empty {
      return Unevaluated;
    }
    s := EvaluateClauses(c.clauses, v.version);
  }

  /** A version is called vulnerable exactly when it is in range: for every version, when the clauses are releases with
      a floor, if and only if the range is not one that only prereleases lie in. */
  lemma AnswerIsMembership(c: Constraint)
    requires c.supported && c.issues == 0 && Releases(c.clauses) && HasFloor(c.clauses)
    ensures (forall v :: Answer(c, v) == Vulnerable <==> Satisfies(c.clauses, v)) <==> !PrereleasesOnly(c.clauses)
  {
    hide Compare, Satisfies, ProbesOf, Contradictory;
    ContradictoryIsExact(c.clauses);
    if PrereleasesOnly(c.clauses) {
      GapHasNoRelease(c.clauses);
      var g :| g in c.clauses && g.op.Gt? && Satisfies(c.clauses, Candidate(g.version));
      assert Answer(c, Candidate(g.version)) != Vulnerable;
    } else {
      forall v ensures Answer(c, v) == Vulnerable <==> Satisfies(c.clauses, v) {
        if !SomeRelease(c.clauses) && Satisfies(c.clauses, v) {
          OnlyPrereleaseIsGap(c.clauses, v);
        }
      }
    }
  }

  /** Vulnerable versions form an interval. */
  lemma VulnerableIsConvex(c: Constraint, u: Version, v: Version, w: Version)
    requires Answer(c, u) == Vulnerable && Answer(c, w) == Vulnerable
    requires Compare(u, v) <= 0 && Compare(v, w) <= 0
    ensures Answer(c, v) == Vulnerable
  {
    hide Compare, Contradictory;
    forall d | d in c.clauses ensures Holds(d, v) {
      assert Holds(d, u) && Holds(d, w);
      CompareAntisymmetric(v, d.version);
      CompareAntisymmetric(u, d.version);
      CompareAntisymmetric(w, d.version);
      if Compare(v, d.version) >= 0 {
        CompareTransitive(d.version, v, w);
      }
      if Compare(v, d.version) <= 0 {
        CompareTransitive(u, v, d.version);
      }
    }
  }

  // ----- Effectiveness -----

  datatype Rule = Rule(id: string, blankMatcher: bool, constraint: Constraint, dependsOn: seq<string>,
                       positive: seq<MaybeVersion>, negative: seq<MaybeVersion>)

  datatype Effectiveness = Effectiveness(loaded: bool, syntactic: bool, semantic: bool, executable: bool, behaviour: bool)

  predicate Effective(e: Effectiveness) {
    e.loaded && e.syntactic && e.semantic && e.executable && e.behaviour
  }

  /** All five levels; each implies the ones below it, and the top one that the fixtures separate. */
  method ValidateRule(rule: Rule, known: set<string>) returns (e: Effectiveness)
    ensures (e.behaviour ==> e.executable) && (e.executable <==> e.semantic) && (e.semantic ==> e.syntactic) && (e.syntactic ==> e.loaded)
    ensures e.semantic <==> rule.id != "" && !rule.blankMatcher && Evaluable(rule.constraint) && forall d :: d in rule.dependsOn ==> d in known
    ensures Effective(e) <==> e.behaviour
    ensures e.behaviour <==> (
      && e.semantic && rule.positive != [] && rule.negative != []
      && (forall v :: v in rule.positive ==> v.Parsed? && Satisfies(rule.constraint.clauses, v.version))
      && (forall v :: v in rule.negative ==> v.Parsed? && !Satisfies(rule.constraint.clauses, v.version)))
  {
    hide Satisfies, Contradictory;
    if rule.id == "" {
      return Effectiveness(false, false, false, false, false);
    }
    var c := rule.constraint;
    var syntactic := !rule.blankMatcher && c.issues == 0 && c.clauses != [];
    var contradiction := false;
    if syntactic && c.supported {
      contradiction := IsContradictory(c.clauses);
    }
    var missing := false;
    for n := 0 to |rule.dependsOn|
      invariant missing <==> exists j :: 0 <= j < n && rule.dependsOn[j] !in known
    {
      if rule.dependsOn[n] !in known {
        missing := true;
      }
    }
    var semantic := syntactic && c.supported && !contradiction && !missing;
    var behaviour := false;
    if semantic {
      behaviour := |rule.positive| > 0 && |rule.negative| > 0;
      var all := AllAnswer(c, rule.positive, Vulnerable);
      var none := AllAnswer(c, rule.negative, NotVulnerable);
      behaviour := behaviour && all && none;
    }
    e := Effectiveness(true, syntactic, semantic, semantic, behaviour);
  }

  method AllAnswer(c: Constraint, fixtures: seq<MaybeVersion>, want: VulnState) returns (ok: bool)
    requires Evaluable(c) && want != Unevaluated
    ensures ok <==> forall v :: v in fixtures ==> v.Parsed? && (Satisfies(c.clauses, v.version) <==> want == Vulnerable)
  {
    hide Satisfies, Contradictory;
    ok := true;
    for n := 0 to |fixtures|
      invariant ok <==> forall j :: 0 <= j < n ==> fixtures[j].Parsed? && (Satisfies(c.clauses, fixtures[j].version) <==> want == Vulnerable)
    {
      var s := EvaluateVersion(c, fixtures[n]);
      if s != want {
        ok := false;
      }
    }
  }
}
