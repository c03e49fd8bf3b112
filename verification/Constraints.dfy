/** Authorization constraints carried across delegation boundaries. */
module Constraints {
  import opened Orders

  datatype Effect = Allow | Deny | OtherEffect(name: string)

  datatype EvidenceRef = EvidenceRef(id: string, artifact: string, location: string)

  datatype Constraint = Constraint(
    id: string, principal: string, action: string, resource: string, scope: string,
    effect: Effect, requiresConfirmation: bool, provenance: EvidenceRef, digest: string)

  /** What a constraint's digest is computed from. */
  datatype Payload = Payload(
    principal: string, action: string, resource: string, scope: string,
    effect: Effect, requiresConfirmation: bool, provenance: EvidenceRef)

  /** The full digest and its shortened form, as text; collision-freedom is assumed only where it is stated. */
  datatype Hashes = Hashes(full: Payload -> string, brief: Payload -> string)

  // ----- Trimming -----

  /** `unicode.IsSpace`. */
  predicate IsSpace(c: char) {
    || '\U{0009}' <= c <= '\U{000D}' || c == ' ' || c == '\U{0085}' || c == '\U{00A0}' || c == '\U{1680}'
    || '\U{2000}' <= c <= '\U{200A}' || c == '\U{2028}' || c == '\U{2029}' || c == '\U{202F}' || c == '\U{205F}'
    || c == '\U{3000}'
  }

  function TrimLeft(s: string): string {
    if s != [] && IsSpace(s[0]) then TrimLeft(s[1..]) else s
  }

  function TrimRight(s: string): string {
    if s != [] && IsSpace(s[|s| - 1]) then TrimRight(s[..|s| - 1]) else s
  }

  function Trim(s: string): string { TrimRight(TrimLeft(s)) }

  predicate IsTrimmed(s: string) {
    s == [] || (!IsSpace(s[0]) && !IsSpace(s[|s| - 1]))
  }

  lemma {:induction false} TrimRightKeepsStart(s: string)
    requires s == [] || !IsSpace(s[0])
    ensures IsTrimmed(TrimRight(s))
  {
    if s != [] && IsSpace(s[|s| - 1]) {
      TrimRightKeepsStart(s[..|s| - 1]);
    }
  }

  lemma {:induction false} TrimLeftStart(s: string)
    ensures TrimLeft(s) == [] || !IsSpace(TrimLeft(s)[0])
  {
    if s != [] && IsSpace(s[0]) {
      TrimLeftStart(s[1..]);
    }
  }

  lemma TrimTrims(s: string)
    ensures IsTrimmed(Trim(s)) && (IsTrimmed(s) ==> Trim(s) == s)
  {
    TrimLeftStart(s);
    TrimRightKeepsStart(TrimLeft(s));
  }

  // ----- Finalizing -----

  /** Continuity is matched on action, resource and scope: the principal may differ across a delegation. */
  datatype AuthorityKey = AuthorityKey(action: string, resource: string, scope: string)

  function KeyOf(c: Constraint): AuthorityKey {
    AuthorityKey(c.action, c.resource, c.scope)
  }

  function Trimmed(c: Constraint): Constraint {
    c.(principal := Trim(c.principal), action := Trim(c.action), resource := Trim(c.resource), scope := Trim(c.scope))
  }

  function PayloadOf(c: Constraint): Payload {
    Payload(c.principal, c.action, c.resource, c.scope, c.effect, c.requiresConfirmation, c.provenance)
  }

  predicate Complete(c: Constraint) {
    && Trim(c.principal) != "" && Trim(c.action) != "" && Trim(c.resource) != "" && Trim(c.scope) != ""
    && (c.effect.Allow? || c.effect.Deny?)
  }

  datatype Result<+V> = Error | Ok(value: V)

  function Finalize(c: Constraint, hashes: Hashes): Result<Constraint> {
    if !Complete(c) then Error
    else
      var t := Trimmed(c);
      var digest := hashes.full(PayloadOf(t));
      Ok(t.(digest := digest, id := if t.id == "" then hashes.brief(PayloadOf(t)) else t.id))
  }

  ghost predicate CollisionFree(hash: Payload -> string) {
    forall p, q :: hash(p) == hash(q) ==> p == q
  }

  lemma TrimmedTwice(c: Constraint)
    ensures Trimmed(Trimmed(c)) == Trimmed(c)
  {
    hide Trim, IsTrimmed;
    TrimTrims(c.principal);
    TrimTrims(c.action);
    TrimTrims(c.resource);
    TrimTrims(c.scope);
    TrimTrims(Trim(c.principal));
    TrimTrims(Trim(c.action));
    TrimTrims(Trim(c.resource));
    TrimTrims(Trim(c.scope));
  }

  lemma FinalizeTwice(c: Constraint, hashes: Hashes)
    requires Finalize(c, hashes).Ok?
    ensures Finalize(Finalize(c, hashes).value, hashes) == Finalize(c, hashes)
  {
    hide Trim;
    TrimmedTwice(c);
    var t := Trimmed(c);
    assert Trimmed(t).principal == t.principal && Trimmed(t).action == t.action;
    assert Trimmed(t).resource == t.resource && Trimmed(t).scope == t.scope;
  }

  /** A stale digest cannot be passed off: whatever digest comes in, finalizing the result again changes nothing, and
      two finalized constraints have the same digest exactly when they state the same authority. */
  lemma FinalizeBindsDigest(c: Constraint, d: Constraint, hashes: Hashes)
    requires Complete(c) && Complete(d) && CollisionFree(hashes.full)
    ensures Finalize(Finalize(c, hashes).value, hashes) == Finalize(c, hashes)
    ensures forall stale :: Finalize(c.(digest := stale), hashes) == Finalize(c, hashes)
    ensures Finalize(c, hashes).value.digest == Finalize(d, hashes).value.digest
        <==> PayloadOf(Trimmed(c)) == PayloadOf(Trimmed(d))
  {
    hide Trim;
    FinalizeTwice(c, hashes);
  }

  // ----- Comparing across a boundary -----

  datatype Integrity = Preserved | Weakened | Lost | Conflicting

  datatype Drift = Drift(constraintId: string, boundary: string, state: Integrity, reason: string,
                         declared: Constraint, effective: MaybeConstraint)

  datatype MaybeConstraint = NoConstraint | One(value: Constraint)

  /** The constraints with key `k`, in order. */
  function Matches(effective: seq<Constraint>, k: AuthorityKey): seq<Constraint> {
    if effective == [] then []
    else (if KeyOf(effective[0]) == k then [effective[0]] else []) + Matches(effective[1..], k)
  }

  /** How `d` fared when these are the effective constraints for the same authority. */
  function Judge(d: Constraint, matches: seq<Constraint>): Integrity {
    if |matches| == 0 then Lost
    else if |matches| > 1 then Conflicting
    else
      var e := matches[0];
      if d.effect.Deny? && e.effect.Allow? then Lost
      else if d.effect.Allow? && e.effect.Allow? && d.requiresConfirmation && !e.requiresConfirmation then Weakened
      else if d.effect == e.effect && (!d.requiresConfirmation || e.requiresConfirmation) then Preserved
      else Conflicting
  }

  function ReasonFor(d: Constraint, matches: seq<Constraint>): string {
    match Judge(d, matches)
    case Preserved => "constraint preserved or strengthened"
    case Weakened => "confirmation requirement removed"
    case Lost => if |matches| == 0 then "declared constraint absent after boundary" else "deny became allow"
    case Conflicting =>
      if |matches| > 1 then "multiple effective constraints match the same authority"
      else "effective constraint conflicts with declaration"
  }

  function DriftAmong(d: Constraint, matches: seq<Constraint>, boundary: string): Drift {
    Drift(d.id, boundary, Judge(d, matches), ReasonFor(d, matches), d, if |matches| == 1 then One(matches[0]) else NoConstraint)
  }

  function DriftOf(d: Constraint, effective: seq<Constraint>, boundary: string): Drift {
    DriftAmong(d, Matches(effective, KeyOf(d)), boundary)
  }

  function DriftsOf(declared: seq<Constraint>, effective: seq<Constraint>, boundary: string): seq<Drift> {
    seq(|declared|, i requires 0 <= i < |declared| => DriftOf(declared[i], effective, boundary))
  }

  ghost predicate AllPreserved(declared: seq<Constraint>, effective: seq<Constraint>) {
    forall d :: d in declared ==> Judge(d, Matches(effective, KeyOf(d))) == Preserved
  }

  function DriftKey(d: Drift): Key { [d.constraintId] }

  type Groups = map<AuthorityKey, seq<Constraint>>

  function Group(byKey: Groups, k: AuthorityKey): seq<Constraint> {
    if k in byKey then byKey[k] else []
  }

  method GroupByKey(effective: seq<Constraint>) returns (byKey: Groups)
    ensures forall k :: Group(byKey, k) == Matches(effective, k)
  {
    byKey := map[];
    for n := 0 to |effective|
      invariant forall k :: Group(byKey, k) == Matches(effective[..n], k)
    {
      var c := effective[n];
      assert effective[..n + 1] == effective[..n] + [c];
      ghost var before := byKey;
      byKey := byKey[KeyOf(c) := Group(byKey, KeyOf(c)) + [c]];
      forall k ensures Group(byKey, k) == Matches(effective[..n + 1], k) {
        MatchesSnoc(effective[..n], c, k);
        assert Group(before, k) == Matches(effective[..n], k);
      }
    }
    assert effective[..|effective|] == effective;
  }

  method CompareConstraints(declared: seq<Constraint>, effective: seq<Constraint>,
                            boundary: string) returns (out: seq<Drift>)
    ensures IsSortOf(DriftKey, DriftsOf(declared, effective, boundary), out)
    ensures (forall d :: d in out ==> d.state == Preserved) <==> AllPreserved(declared, effective)
  {
    hide Judge, Matches, AllPreserved, Ordered;
    var byKey := GroupByKey(effective);
    var drifts := [];
    for n := 0 to |declared|
      invariant drifts == DriftsOf(declared, effective, boundary)[..n]
    {
      var d := declared[n];
      drifts := drifts + [DriftAmong(d, Group(byKey, KeyOf(d)), boundary)];
    }
    assert drifts == DriftsOf(declared, effective, boundary);
    out := Sort(DriftKey, drifts);
    DriftsSayPreserved(declared, effective, boundary, out);
  }

  lemma {:induction false} MatchesSnoc(s: seq<Constraint>, c: Constraint, k: AuthorityKey)
    ensures Matches(s + [c], k) == Matches(s, k) + (if KeyOf(c) == k then [c] else [])
  {
    if s == [] {
      assert s + [c] == [c] && [c][1..] == [];
    } else {
      assert (s + [c])[1..] == s[1..] + [c];
      MatchesSnoc(s[1..], c, k);
    }
  }

  lemma DriftsSayPreserved(declared: seq<Constraint>, effective: seq<Constraint>, boundary: string, out: seq<Drift>)
    requires multiset(out) == multiset(DriftsOf(declared, effective, boundary))
    ensures (forall d :: d in out ==> d.state == Preserved) <==> AllPreserved(declared, effective)
  {
    var drifts := DriftsOf(declared, effective, boundary);
    SameElements(out, drifts);
    forall i | 0 <= i < |declared| ensures drifts[i] in out && drifts[i].state == Judge(declared[i], Matches(effective, KeyOf(declared[i]))) {
      assert drifts[i] in drifts;
    }
    forall d | d in out ensures exists i :: 0 <= i < |declared| && drifts[i] == d {
      assert d in drifts;
    }
  }

  /** The one effective constraint a preserved declaration is matched with. */
  lemma PreservedMatch(d: Constraint, effective: seq<Constraint>) returns (e: Constraint)
    requires Judge(d, Matches(effective, KeyOf(d))) == Preserved
    ensures Matches(effective, KeyOf(d)) == [e] && e in effective && KeyOf(e) == KeyOf(d)
    ensures e.effect == d.effect && (d.requiresConfirmation ==> e.requiresConfirmation)
  {
    e := Matches(effective, KeyOf(d))[0];
    MatchesMember(effective, KeyOf(d), e);
  }

  lemma {:induction false} MatchesMember(s: seq<Constraint>, k: AuthorityKey, c: Constraint)
    ensures c in Matches(s, k) <==> c in s && KeyOf(c) == k
  {
    if s != [] {
      MatchesMember(s[1..], k, c);
    }
  }

  // ----- Chains of boundaries -----

  lemma PreservationComposes(a: seq<Constraint>, b: seq<Constraint>, c: seq<Constraint>)
    requires AllPreserved(a, b) && AllPreserved(b, c)
    ensures AllPreserved(a, c)
  {
    forall d | d in a ensures Judge(d, Matches(c, KeyOf(d))) == Preserved {
      var e := PreservedMatch(d, b);
      var f := PreservedMatch(e, c);
    }
  }

  /** If every boundary of a chain preserves its constraints, so does the whole chain. */
  lemma {:induction false} PreservedAlongChain(chain: seq<seq<Constraint>>)
    requires |chain| >= 2
    requires forall i :: 0 <= i < |chain| - 1 ==> AllPreserved(chain[i], chain[i + 1])
    ensures AllPreserved(chain[0], chain[|chain| - 1])
  {
    if |chain| > 2 {
      var init := chain[..|chain| - 1];
      PreservedAlongChain(init);
      var i := |chain| - 2;
      assert AllPreserved(chain[i], chain[i + 1]);
      PreservationComposes(chain[0], init[|init| - 1], chain[|chain| - 1]);
    }
  }

  /** A DENY at the head of a preserved chain is still the only word on its authority at the end, and a confirmation
      required at the head is required at the end. */
  lemma DenySurvivesChain(chain: seq<seq<Constraint>>, d: Constraint, e: Constraint)
    requires |chain| >= 2
    requires forall i :: 0 <= i < |chain| - 1 ==> AllPreserved(chain[i], chain[i + 1])
    requires d in chain[0] && e in chain[|chain| - 1] && KeyOf(e) == KeyOf(d)
    ensures e.effect == d.effect && (d.requiresConfirmation ==> e.requiresConfirmation)
    ensures exists x :: x in chain[|chain| - 1] && KeyOf(x) == KeyOf(d)
  {
    PreservedAlongChain(chain);
    var f := PreservedMatch(d, chain[|chain| - 1]);
    MatchesMember(chain[|chain| - 1], KeyOf(d), e);
  }

  // ----- Deriving a child context -----

  datatype MaybeConstraints = Unchanged | Replaced(list: seq<Constraint>)

  /** The child holds the constraint under its own name, to be digested again. */
  function Inherit(c: Constraint, principal: string): Constraint {
    c.(principal := principal, digest := "")
  }

  function InheritAll(list: seq<Constraint>, principal: string): seq<Constraint> {
    seq(|list|, i requires 0 <= i < |list| => Inherit(list[i], principal))
  }

  /** The child's effective authority before it is finalized. */
  function EffectiveIn(effective: seq<Constraint>, principal: string, replacement: MaybeConstraints): seq<Constraint> {
    InheritAll(if replacement.Replaced? then replacement.list else effective, principal)
  }

  function StateName(state: Integrity): string {
    match state
    case Preserved => "preserved"
    case Weakened => "weakened"
    case Lost => "lost"
    case Conflicting => "conflicting"
  }

  function Complaint(d: Drift): string {
    "authority " + StateName(d.state) + " at " + d.boundary + ": " + d.reason
  }

  function Complaints(drifts: seq<Drift>): seq<string> {
    if drifts == [] then []
    else (if drifts[0].state != Preserved then [Complaint(drifts[0])] else []) + Complaints(drifts[1..])
  }

  function FinalizeAll(list: seq<Constraint>, hashes: Hashes): Result<seq<Constraint>> {
    if list == [] then Ok([])
    else
      var first, rest := Finalize(list[0], hashes), FinalizeAll(list[1..], hashes);
      if first.Error? || rest.Error? then Error else Ok([first.value] + rest.value)
  }

  function DigestKey(c: Constraint): Key { [c.digest] }

  /** A finalized list: every constraint finalized, in digest order. */
  ghost predicate FinalizedFrom(list: seq<Constraint>, hashes: Hashes, out: seq<Constraint>) {
    FinalizeAll(list, hashes).Ok? && IsSortOf(DigestKey, FinalizeAll(list, hashes).value, out)
  }

  // ----- What the drift report says about the child that comes out -----

  ghost predicate KeysTrimmed(list: seq<Constraint>) {
    forall c :: c in list ==> KeyOf(Trimmed(c)) == KeyOf(c)
  }

  lemma {:induction false} MatchesOfMultiset(a: seq<Constraint>, k: AuthorityKey, x: Constraint)
    ensures multiset(Matches(a, k))[x] == if KeyOf(x) == k then multiset(a)[x] else 0
  {
    if a != [] {
      assert a == [a[0]] + a[1..];
      MatchesOfMultiset(a[1..], k, x);
    }
  }

  lemma MatchesPermuted(a: seq<Constraint>, b: seq<Constraint>, k: AuthorityKey)
    requires multiset(a) == multiset(b)
    ensures multiset(Matches(a, k)) == multiset(Matches(b, k))
  {
    forall x ensures multiset(Matches(a, k))[x] == multiset(Matches(b, k))[x] {
      MatchesOfMultiset(a, k, x);
      MatchesOfMultiset(b, k, x);
    }
  }

  lemma JudgePermuted(d: Constraint, a: seq<Constraint>, b: seq<Constraint>)
    requires multiset(a) == multiset(b)
    ensures Judge(d, a) == Judge(d, b)
  {
    SameElements(a, b);
    if |a| == 1 {
      assert a[0] in b;
    }
  }

  lemma AllPreservedPermuted(declared: seq<Constraint>, a: seq<Constraint>, b: seq<Constraint>)
    requires multiset(a) == multiset(b)
    ensures AllPreserved(declared, a) <==> AllPreserved(declared, b)
  {
    forall d | d in declared ensures Judge(d, Matches(a, KeyOf(d))) == Judge(d, Matches(b, KeyOf(d))) {
      MatchesPermuted(a, b, KeyOf(d));
      JudgePermuted(d, Matches(a, KeyOf(d)), Matches(b, KeyOf(d)));
    }
  }

  /** `e` names the authority of `d` only once trimmed. */
  predicate NearMiss(d: Constraint, e: Constraint) {
    KeyOf(Trimmed(e)) == KeyOf(d) && KeyOf(e) != KeyOf(d)
  }

  lemma FinalizeKeepsTerms(c: Constraint, hashes: Hashes)
    requires Finalize(c, hashes).Ok?
    ensures var f := Finalize(c, hashes).value;
            KeyOf(f) == KeyOf(Trimmed(c)) && f.effect == c.effect && f.requiresConfirmation == c.requiresConfirmation
  {
  }

  lemma SameKeySameTrim(d: Constraint, e: Constraint)
    requires KeyOf(e) == KeyOf(d) && KeyOf(Trimmed(d)) == KeyOf(d)
    ensures KeyOf(Trimmed(e)) == KeyOf(d)
  {
  }

  lemma NotNearMiss(d: Constraint, e: Constraint)
    requires !NearMiss(d, e) && KeyOf(e) != KeyOf(d)
    ensures KeyOf(Trimmed(e)) != KeyOf(d)
  {
  }

  /** Without near misses, finalizing and matching commute. */
  lemma {:induction false} MatchesFinalized(list: seq<Constraint>, hashes: Hashes, d: Constraint)
    requires FinalizeAll(list, hashes).Ok? && KeyOf(Trimmed(d)) == KeyOf(d)
    requires forall e :: e in list ==> !NearMiss(d, e)
    ensures FinalizeAll(Matches(list, KeyOf(d)), hashes) == Ok(Matches(FinalizeAll(list, hashes).value, KeyOf(d)))
  {
    hide Finalize, KeyOf, Trimmed;
    if list != [] {
      var k, head, rest := KeyOf(d), Finalize(list[0], hashes).value, FinalizeAll(list[1..], hashes).value;
      MatchesFinalized(list[1..], hashes, d);
      FinalizeKeepsTerms(list[0], hashes);
      assert list[0] in list && !NearMiss(d, list[0]);
      MatchesCons(list[0], list[1..], k);
      MatchesCons(head, rest, k);
      assert list == [list[0]] + list[1..] && FinalizeAll(list, hashes).value == [head] + rest;
      if KeyOf(list[0]) == k {
        SameKeySameTrim(d, list[0]);
        FinalizeAllCons(list[0], Matches(list[1..], k), hashes);
      } else {
        NotNearMiss(d, list[0]);
        assert [] + Matches(list[1..], k) == Matches(list[1..], k) && [] + Matches(rest, k) == Matches(rest, k);
      }
    }
  }

  lemma MatchesCons(c: Constraint, rest: seq<Constraint>, k: AuthorityKey)
    ensures Matches([c] + rest, k) == (if KeyOf(c) == k then [c] else []) + Matches(rest, k)
  {
    assert ([c] + rest)[1..] == rest;
  }

  lemma FinalizeAllCons(c: Constraint, rest: seq<Constraint>, hashes: Hashes)
    requires Finalize(c, hashes).Ok? && FinalizeAll(rest, hashes).Ok?
    ensures FinalizeAll([c] + rest, hashes) == Ok([Finalize(c, hashes).value] + FinalizeAll(rest, hashes).value)
  {
    assert ([c] + rest)[1..] == rest;
  }

  /** A near miss adds a match that was not there before. */
  lemma {:induction false} NearMissAddsMatch(list: seq<Constraint>, hashes: Hashes, d: Constraint)
    requires FinalizeAll(list, hashes).Ok? && KeyOf(Trimmed(d)) == KeyOf(d)
    ensures |Matches(FinalizeAll(list, hashes).value, KeyOf(d))| >= |Matches(list, KeyOf(d))|
    ensures (exists e :: e in list && NearMiss(d, e)) ==>
              |Matches(FinalizeAll(list, hashes).value, KeyOf(d))| > |Matches(list, KeyOf(d))|
  {
    hide Finalize, KeyOf, Trimmed;
    if list != [] {
      var k, head, rest := KeyOf(d), Finalize(list[0], hashes).value, FinalizeAll(list[1..], hashes).value;
      NearMissAddsMatch(list[1..], hashes, d);
      FinalizeKeepsTerms(list[0], hashes);
      MatchesCons(list[0], list[1..], k);
      MatchesCons(head, rest, k);
      assert list == [list[0]] + list[1..] && FinalizeAll(list, hashes).value == [head] + rest;
      if KeyOf(list[0]) == k {
        SameKeySameTrim(d, list[0]);
      }
      forall e | e in list && NearMiss(d, e) ensures e == list[0] || e in list[1..] {
      }
    }
  }

  lemma FinalizedJudgedAlike(d: Constraint, matches: seq<Constraint>, hashes: Hashes)
    requires FinalizeAll(matches, hashes).Ok?
    ensures Judge(d, FinalizeAll(matches, hashes).value) == Judge(d, matches)
  {
    FinalizeAllLength(matches, hashes);
    if |matches| == 1 {
      FinalizeKeepsTerms(matches[0], hashes);
    }
  }

  lemma {:induction false} FinalizeAllLength(list: seq<Constraint>, hashes: Hashes)
    requires FinalizeAll(list, hashes).Ok?
    ensures |FinalizeAll(list, hashes).value| == |list|
  {
    if list != [] {
      FinalizeAllLength(list[1..], hashes);
    }
  }

  /** The drift report is computed before the child's constraints are trimmed.  When it reports every constraint
      preserved, the child that comes out preserves them all exactly when no constraint of the child is a near miss
      for one of the parent's authorities. */
  lemma PreservedAfterFinalize(parent: seq<Constraint>, before: seq<Constraint>, hashes: Hashes, after: seq<Constraint>)
    requires KeysTrimmed(parent) && AllPreserved(parent, before) && FinalizedFrom(before, hashes, after)
    ensures AllPreserved(parent, after) <==> forall d, e :: d in parent && e in before ==> !NearMiss(d, e)
  {
    hide NearMiss, Finalize, KeyOf, Trimmed, Judge, Ordered;
    var out := FinalizeAll(before, hashes).value;
    AllPreservedPermuted(parent, after, out);
    if forall d, e :: d in parent && e in before ==> !NearMiss(d, e) {
      forall d | d in parent ensures Judge(d, Matches(out, KeyOf(d))) == Preserved {
        MatchesFinalized(before, hashes, d);
        FinalizedJudgedAlike(d, Matches(before, KeyOf(d)), hashes);
      }
    } else {
      var d, e :| d in parent && e in before && NearMiss(d, e);
      NearMissAddsMatch(before, hashes, d);
      OneMatch(d, Matches(before, KeyOf(d)));
      OneMatch(d, Matches(out, KeyOf(d)));
    }
  }

  lemma OneMatch(d: Constraint, matches: seq<Constraint>)
    ensures Judge(d, matches) == Preserved ==> |matches| == 1
  {
  }

  lemma FinalizeTrims(c: Constraint, hashes: Hashes)
    requires Finalize(c, hashes).Ok?
    ensures KeyOf(Trimmed(Finalize(c, hashes).value)) == KeyOf(Finalize(c, hashes).value)
  {
    TrimTrims(c.action);
    TrimTrims(c.resource);
    TrimTrims(c.scope);
    TrimTrims(Trim(c.action));
    TrimTrims(Trim(c.resource));
    TrimTrims(Trim(c.scope));
  }

  lemma {:induction false} FinalizedKeysTrimmed(list: seq<Constraint>, hashes: Hashes)
    requires FinalizeAll(list, hashes).Ok?
    ensures KeysTrimmed(FinalizeAll(list, hashes).value)
  {
    hide Finalize, KeyOf, Trimmed;
    if list != [] {
      FinalizeTrims(list[0], hashes);
      FinalizedKeysTrimmed(list[1..], hashes);
    }
  }

  /** One delegation: the parent's authority, the child's before and after it is finalized, with a clean drift report
      and no near miss. */
  ghost predicate CleanStep(parent: seq<Constraint>, before: seq<Constraint>, hashes: Hashes, after: seq<Constraint>) {
    && AllPreserved(parent, before) && FinalizedFrom(before, hashes, after)
    && forall d, e :: d in parent && e in before ==> !NearMiss(d, e)
  }

  /** Delegations of any length: clean reports and no near misses at every step preserve the first agent's authority
      in the last agent's finalized context. */
  lemma {:induction false} DelegationsPreserve(held: seq<seq<Constraint>>, before: seq<seq<Constraint>>, hashes: Hashes)
    requires |held| >= 2 && |before| == |held| - 1 && KeysTrimmed(held[0])
    requires forall i :: 0 <= i < |before| ==> CleanStep(held[i], before[i], hashes, held[i + 1])
    ensures AllPreserved(held[0], held[|held| - 1])
  {
    hide NearMiss, Finalize, KeyOf, Trimmed, Judge, Ordered;
    forall i | 0 <= i < |held| - 1 ensures AllPreserved(held[i], held[i + 1]) {
      assert CleanStep(held[i], before[i], hashes, held[i + 1]);
      if i > 0 {
        assert CleanStep(held[i - 1], before[i - 1], hashes, held[i - 1 + 1]);
        FinalizedKeysTrimmed(before[i - 1], hashes);
        SameElements(held[i], FinalizeAll(before[i - 1], hashes).value);
      }
      PreservedAfterFinalize(held[i], before[i], hashes, held[i + 1]);
    }
    PreservedAlongChain(held);
  }

  function Blanked(d: Constraint): Constraint {
    d.(action := " " + d.action, effect := Allow)
  }

  /** A delegation whose drift report is clean can still confuse an authority: beside any finalized DENY the child may
      hold an ALLOW whose action differs by a blank. */
  lemma CleanReportCanHideAnAllow(d: Constraint)
    requires d.effect.Deny? && IsTrimmed(d.action) && d.action != "" && KeyOf(Trimmed(d)) == KeyOf(d)
    ensures AllPreserved([d], [d, Blanked(d)]) && NearMiss(d, Blanked(d))
  {
    LeadingBlank(d.action);
    assert (" " + d.action)[1..] == d.action;
    MatchesBeside(d, Blanked(d));
  }

  lemma MatchesBeside(d: Constraint, e: Constraint)
    requires KeyOf(e) != KeyOf(d)
    ensures Matches([d, e], KeyOf(d)) == [d]
  {
    MatchesCons(d, [e], KeyOf(d));
    MatchesCons(e, [], KeyOf(d));
    assert [d] + [e] == [d, e] && [e] + [] == [e];
  }

  lemma LeadingBlank(s: string)
    requires s != [] && IsTrimmed(s)
    ensures Trim(" " + s) == s
  {
    assert (" " + s)[1..] == s;
    TrimTrims(s);
  }
}
