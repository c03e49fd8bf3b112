/** The precedence of versions as section 11 of Semantic Versioning 2.0.0 words it, and the proof that the comparison
    computes it.  Nothing here is stated through the comparison. */
module VersionOrder {
  import opened Orders
  import opened Versions
  import opened RuleEffect

  // ----- Section 11, rules 2 to 4 -----

  /** The first difference among major, minor and patch, in this order, decides. */
  ghost predicate TripleBelow(v: Version, w: Version) {
    || v.major < w.major
    || (v.major == w.major && v.minor < w.minor)
    || (v.major == w.major && v.minor == w.minor && v.patch < w.patch)
  }

  ghost predicate SameTriple(v: Version, w: Version) {
    v.major == w.major && v.minor == w.minor && v.patch == w.patch
  }

  /** Numbers are compared by value, texts by the first character that differs or else by length, and a number is below
      any text. */
  ghost predicate IdentifierBelow(p: Identifier, q: Identifier) {
    match p
    case Numeric(m) => q.Numeric? ==> m < q.n
    case Text(s) => q.Text? && TextBelow(s, q.s)
  }

  ghost predicate TextBelow(s: string, t: string) {
    s < t || exists i: nat :: i < |s| && i < |t| && s[..i] == t[..i] && s[i] < t[i]
  }

  /** The first identifier that differs decides; if there is none, the longer list is the greater. */
  ghost predicate PreBelow(p: seq<Identifier>, q: seq<Identifier>) {
    p < q || exists i: nat :: DecidedAt(p, q, i)
  }

  ghost predicate DecidedAt(p: seq<Identifier>, q: seq<Identifier>, i: nat) {
    i < |p| && i < |q| && p[..i] == q[..i] && IdentifierBelow(p[i], q[i])
  }

  /** Of one triple, a prerelease is below its release, and two prereleases are compared by their identifiers. */
  ghost predicate Precedes(v: Version, w: Version) {
    || TripleBelow(v, w)
    || (SameTriple(v, w) && v.pre != [] && (w.pre == [] || PreBelow(v.pre, w.pre)))
  }

  // ----- The comparison is this -----

  lemma TextMeaning(s: string, t: string)
    ensures CompareText(s, t) < 0 <==> TextBelow(s, t)
  {
    LeqMeaning(s, t);
    if s == t {
      forall i: nat | i < |s| ensures !(s[i] < t[i]) {}
    } else if s <= t {
      assert s < t;
    }
    if i: nat :| i < |s| && i < |t| && s[..i] == t[..i] && s[i] < t[i] {
      assert LowerAt(s, t, i);
    }
    if i: nat :| LowerAt(s, t, i) {
      assert s[..i] == t[..i] && s[i] < t[i];
    }
  }

  lemma IdentifierMeaning(p: Identifier, q: Identifier)
    ensures CompareIdentifier(p, q) < 0 <==> IdentifierBelow(p, q)
  {
    if p.Text? && q.Text? {
      TextMeaning(p.s, q.s);
    }
  }

  lemma {:induction false} PreMeaning(p: seq<Identifier>, q: seq<Identifier>)
    ensures ComparePre(p, q) < 0 <==> PreBelow(p, q)
  {
    hide CompareIdentifier, IdentifierBelow;
    if p == [] || q == [] {
      assert p < q <==> |p| < |q|;
    } else {
      IdentifierMeaning(p[0], q[0]);
      IdentifierOrder(p[0], q[0], q[0]);
      IdentifierOrder(q[0], q[0], q[0]);
      if p[0] == q[0] {
        PreMeaning(p[1..], q[1..]);
        TailDecides(p, q);
      } else {
        HeadDecides(p, q);
      }
    }
  }

  lemma TailDecides(p: seq<Identifier>, q: seq<Identifier>)
    requires p != [] && q != [] && p[0] == q[0] && !IdentifierBelow(p[0], q[0])
    ensures PreBelow(p, q) <==> PreBelow(p[1..], q[1..])
  {
    hide IdentifierBelow;
    assert p == [p[0]] + p[1..] && q == [q[0]] + q[1..];
    if i: nat :| DecidedAt(p, q, i) {
      assert i > 0 && p[1..][..i - 1] == p[..i][1..] && q[1..][..i - 1] == q[..i][1..];
      assert DecidedAt(p[1..], q[1..], i - 1);
    }
    if i: nat :| DecidedAt(p[1..], q[1..], i) {
      assert p[..i + 1] == [p[0]] + p[1..][..i] && q[..i + 1] == [q[0]] + q[1..][..i];
      assert DecidedAt(p, q, i + 1);
    }
  }

  lemma HeadDecides(p: seq<Identifier>, q: seq<Identifier>)
    requires p != [] && q != [] && p[0] != q[0]
    ensures PreBelow(p, q) <==> IdentifierBelow(p[0], q[0])
  {
    hide IdentifierBelow;
    forall i: nat ensures i > 0 ==> !DecidedAt(p, q, i) {
      if i > 0 && i <= |p| && i <= |q| {
        assert p[..i][0] == p[0] && q[..i][0] == q[0];
      }
    }
    if IdentifierBelow(p[0], q[0]) {
      assert DecidedAt(p, q, 0);
    }
  }

  /** The comparison is the precedence of section 11, for all versions. */
  lemma CompareMeaning(v: Version, w: Version)
    ensures Compare(v, w) < 0 <==> Precedes(v, w)
    ensures Compare(v, w) > 0 <==> Precedes(w, v)
    ensures Compare(v, w) == 0 <==> v == w
  {
    hide ComparePre, PreBelow;
    CompareAntisymmetric(v, w);
    PreMeaning(v.pre, w.pre);
    PreMeaning(w.pre, v.pre);
    PreEmpty(v.pre, w.pre);
  }

  /** What a clause says of a version. */
  lemma ClauseMeaning(c: Clause, v: Version)
    ensures Holds(c, v) <==>
      match c.op
      case Lt => Precedes(v, c.version)
      case Le => !Precedes(c.version, v)
      case Gt => Precedes(c.version, v)
      case Ge => !Precedes(v, c.version)
      case Eq => v == c.version
  {
    hide Compare, Precedes;
    CompareMeaning(v, c.version);
  }

  /** A rule that can be evaluated answers VULNERABLE of exactly the versions that lie on the right side of every bound. */
  lemma AnswerMeaning(c: Constraint, v: Version)
    requires Evaluable(c)
    ensures Answer(c, v) == Vulnerable <==>
      forall d :: d in c.clauses ==>
        && (d.op == Lt ==> Precedes(v, d.version)) && (d.op == Le ==> !Precedes(d.version, v))
        && (d.op == Gt ==> Precedes(d.version, v)) && (d.op == Ge ==> !Precedes(v, d.version))
        && (d.op == Eq ==> v == d.version)
    ensures Answer(c, v) != Unevaluated
  {
    hide Precedes, Holds, Contradictory;
    forall d | d in c.clauses {
      ClauseMeaning(d, v);
    }
  }
}
