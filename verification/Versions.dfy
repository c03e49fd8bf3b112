/** Semantic versions and their precedence (section 11 of Semantic Versioning 2.0.0). */
module Versions {
  import opened Orders

  /** One dot-separated identifier of a prerelease: an integer where the text parses as one, the text otherwise. */
  datatype Identifier = Numeric(n: int) | Text(s: string)

  /** A version; an empty prerelease makes it a release. */
  datatype Version = Version(major: nat, minor: nat, patch: nat, pre: seq<Identifier>)

  predicate IsRelease(v: Version) { v.pre == [] }

  function CompareInt(a: int, b: int): int {
    if a < b then -1 else if a > b then 1 else 0
  }

  function CompareText(a: string, b: string): int {
    if a == b then 0 else if Leq(a, b) then -1 else 1
  }

  /** Numeric identifiers come before the others. */
  function CompareIdentifier(p: Identifier, q: Identifier): int {
    if p.Numeric? && q.Numeric? then CompareInt(p.n, q.n)
    else if p.Numeric? then -1
    else if q.Numeric? then 1
    else CompareText(p.s, q.s)
  }

  /** Identifier by identifier; when all agree, the longer list is greater. */
  function ComparePre(p: seq<Identifier>, q: seq<Identifier>): int {
    if p == [] || q == [] then CompareInt(|p|, |q|)
    else
      var c := CompareIdentifier(p[0], q[0]);
      if c != 0 then c else ComparePre(p[1..], q[1..])
  }

  function CompareTriple(v: Version, w: Version): int {
    if v.major != w.major then CompareInt(v.major, w.major)
    else if v.minor != w.minor then CompareInt(v.minor, w.minor)
    else CompareInt(v.patch, w.patch)
  }

  /** `CompareEcosystemVersions` on the semver-ordered ecosystems. */
  function Compare(v: Version, w: Version): int {
    var c := CompareTriple(v, w);
    if c != 0 then c
    else if v.pre == [] && w.pre != [] then 1
    else if v.pre != [] && w.pre == [] then -1
    else ComparePre(v.pre, w.pre)
  }

  // ----- A total order -----

  lemma TextOrder(a: string, b: string, c: string)
    ensures CompareText(a, b) == -CompareText(b, a)
    ensures CompareText(a, b) <= 0 && CompareText(b, c) <= 0 ==>
      CompareText(a, c) <= 0 && (CompareText(a, c) == 0 ==> CompareText(a, b) == 0 && CompareText(b, c) == 0)
  {
    LeqTotal(a, b);
    if Leq(a, b) && Leq(b, a) { LeqAntisymmetric(a, b); }
    if Leq(a, b) && Leq(b, c) {
      LeqTransitive(a, b, c);
      if a == c { LeqAntisymmetric(a, b); }
    }
  }

  lemma IdentifierOrder(p: Identifier, q: Identifier, r: Identifier)
    ensures CompareIdentifier(p, q) == -CompareIdentifier(q, p)
    ensures CompareIdentifier(p, q) == 0 <==> p == q
    ensures CompareIdentifier(p, q) <= 0 && CompareIdentifier(q, r) <= 0 ==>
      CompareIdentifier(p, r) <= 0 && (CompareIdentifier(p, r) == 0 ==> CompareIdentifier(p, q) == 0 && CompareIdentifier(q, r) == 0)
  {
    if p.Text? && q.Text? {
      TextOrder(p.s, q.s, if r.Text? then r.s else "");
    }
  }

  lemma {:induction false} PreAntisymmetric(p: seq<Identifier>, q: seq<Identifier>)
    ensures ComparePre(p, q) == -ComparePre(q, p)
    ensures ComparePre(p, q) == 0 <==> p == q
  {
    if p != [] && q != [] {
      IdentifierOrder(p[0], q[0], q[0]);
      PreAntisymmetric(p[1..], q[1..]);
      assert p == [p[0]] + p[1..] && q == [q[0]] + q[1..];
    }
  }

  lemma {:induction false} PreTransitive(p: seq<Identifier>, q: seq<Identifier>, r: seq<Identifier>)
    requires ComparePre(p, q) <= 0 && ComparePre(q, r) <= 0
    ensures ComparePre(p, r) <= 0
  {
    hide CompareIdentifier;
    if p != [] && q != [] && r != [] {
      IdentifierOrder(p[0], q[0], r[0]);
      if CompareIdentifier(p[0], q[0]) == 0 && CompareIdentifier(q[0], r[0]) == 0 {
        PreTransitive(p[1..], q[1..], r[1..]);
      }
    }
  }

  /** Precedence is a total order on versions. */
  lemma CompareAntisymmetric(v: Version, w: Version)
    ensures Compare(v, w) == -Compare(w, v)
    ensures Compare(v, w) == 0 <==> v == w
  {
    PreAntisymmetric(v.pre, w.pre);
  }

  lemma CompareTransitive(u: Version, v: Version, w: Version)
    requires Compare(u, v) <= 0 && Compare(v, w) <= 0
    ensures Compare(u, w) <= 0
    ensures Compare(u, w) == 0 ==> u == v == w
  {
    hide ComparePre;
    if CompareTriple(u, v) == 0 && CompareTriple(v, w) == 0 && u.pre != [] && v.pre != [] && w.pre != [] {
      PreTransitive(u.pre, v.pre, w.pre);
    }
    PreEmpty(u.pre, v.pre);
    PreEmpty(v.pre, w.pre);
    PreEmpty(u.pre, w.pre);
    if Compare(u, w) == 0 {
      CompareAntisymmetric(u, w);
      CompareAntisymmetric(u, v);
    }
  }

  lemma PreEmpty(p: seq<Identifier>, q: seq<Identifier>)
    ensures p == [] && q == [] ==> ComparePre(p, q) == 0
  {
  }

  /** A prerelease comes right before its release: between the two there is no other release. */
  lemma PrereleaseJustBelow(v: Version, r: Version)
    requires !IsRelease(v) && IsRelease(r)
    ensures Compare(v, r) < 0 <==> CompareTriple(v, r) <= 0
    ensures Compare(v, r) != 0
  {
  }
}
