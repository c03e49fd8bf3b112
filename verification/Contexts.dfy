/** Assurance contexts and the derivation of a child, which works on storage the child shares with its parent. */
module Contexts {
  import opened Orders
  import opened Constraints

  /** What a context shows, and what its digest is taken of.  `settings` stands for the model, provider, skills,
      endpoints, hooks, permissions, capabilities and policy, which a delta replaces field by field. */
  datatype Record<Settings> = Record(
    principal: string, parentPrincipal: string, workspace: string, session: string, settings: Settings,
    constraints: seq<Constraint>, effective: seq<Constraint>,
    parentClosureDigest: string, closureDigest: string, verified: bool, limitations: seq<string>)

  /** A context.  Copying it copies neither list: two contexts can hold the same storage. */
  datatype Context<Settings> = Context(
    principal: string, parentPrincipal: string, workspace: string, session: string, settings: Settings,
    constraints: array<Constraint>, effective: array<Constraint>,
    parentClosureDigest: string, closureDigest: string, verified: bool, limitations: seq<string>)
  {
    function Shown(): Record<Settings>
      reads constraints, effective
    {
      Record(principal, parentPrincipal, workspace, session, settings, constraints[..], effective[..],
             parentClosureDigest, closureDigest, verified, limitations)
    }
  }

  datatype Delta<!Settings> = Delta(settings: Settings -> Settings, constraints: MaybeConstraints)

  // ----- In place -----

  /** Every constraint becomes the principal's own, to be digested again. */
  method Rename(a: array<Constraint>, principal: string)
    modifies a
    ensures a[..] == InheritAll(old(a[..]), principal)
  {
    for i := 0 to a.Length
      invariant forall j :: 0 <= j < i ==> a[j] == Inherit(old(a[j]), principal)
      invariant forall j :: i <= j < a.Length ==> a[j] == old(a[j])
    {
      a[i] := Inherit(a[i], principal);
    }
  }

  /** The list when finalizing it one by one stops at the first that cannot be. */
  function FinalizedSoFar(list: seq<Constraint>, hashes: Hashes): (r: seq<Constraint>)
    ensures |r| == |list|
  {
    if list == [] || Finalize(list[0], hashes).Error? then list
    else [Finalize(list[0], hashes).value] + FinalizedSoFar(list[1..], hashes)
  }

  lemma {:induction false} AllFinalized(list: seq<Constraint>, hashes: Hashes)
    requires FinalizeAll(list, hashes).Ok?
    ensures FinalizedSoFar(list, hashes) == FinalizeAll(list, hashes).value
  {
    hide Finalize;
    if list != [] {
      AllFinalized(list[1..], hashes);
    }
  }

  lemma OneFinalized(list: seq<Constraint>, hashes: Hashes)
    requires list != []
    ensures Finalize(list[0], hashes).Error? ==>
              FinalizedSoFar(list, hashes) == list && FinalizeAll(list, hashes).Error?
    ensures Finalize(list[0], hashes).Ok? ==>
              FinalizedSoFar(list, hashes) == [Finalize(list[0], hashes).value] + FinalizedSoFar(list[1..], hashes)
              && (FinalizeAll(list, hashes).Ok? <==> FinalizeAll(list[1..], hashes).Ok?)
  {
    hide Finalize;
  }

  /** What is done before the `i`-th, and how the whole ends. */
  ghost predicate DoneUpTo(was: seq<Constraint>, hashes: Hashes, i: nat, done: seq<Constraint>) {
    i <= |was| && |done| == i
    && FinalizedSoFar(was, hashes) == done + FinalizedSoFar(was[i..], hashes)
    && (FinalizeAll(was, hashes).Ok? <==> FinalizeAll(was[i..], hashes).Ok?)
  }

  lemma NothingDone(was: seq<Constraint>, hashes: Hashes)
    ensures DoneUpTo(was, hashes, 0, [])
  {
    assert was[0..] == was && [] + FinalizedSoFar(was, hashes) == FinalizedSoFar(was, hashes);
  }

  lemma DoOne(was: seq<Constraint>, hashes: Hashes, i: nat, done: seq<Constraint>)
    requires DoneUpTo(was, hashes, i, done) && i < |was|
    ensures Finalize(was[i], hashes).Ok? ==> DoneUpTo(was, hashes, i + 1, done + [Finalize(was[i], hashes).value])
    ensures Finalize(was[i], hashes).Error? ==>
              FinalizedSoFar(was, hashes) == done + was[i..] && FinalizeAll(was, hashes).Error?
  {
    hide Finalize, FinalizeAll, FinalizedSoFar;
    var rest := was[i..];
    assert rest[0] == was[i] && rest[1..] == was[i + 1..];
    OneFinalized(rest, hashes);
    if Finalize(was[i], hashes).Ok? {
      var v := Finalize(was[i], hashes).value;
      assert done + ([v] + FinalizedSoFar(rest[1..], hashes)) == (done + [v]) + FinalizedSoFar(rest[1..], hashes);
    }
  }

  lemma AllDone(was: seq<Constraint>, hashes: Hashes, done: seq<Constraint>)
    requires DoneUpTo(was, hashes, |was|, done)
    ensures FinalizedSoFar(was, hashes) == done && FinalizeAll(was, hashes).Ok?
  {
    assert was[|was|..] == [] && done + [] == done;
  }

  method FinalizeEach(a: array<Constraint>, hashes: Hashes) returns (ok: bool)
    modifies a
    ensures ok <==> FinalizeAll(old(a[..]), hashes).Ok?
    ensures a[..] == FinalizedSoFar(old(a[..]), hashes)
  {
    hide Finalize, FinalizeAll, FinalizedSoFar, DoneUpTo;
    ghost var was := a[..];
    NothingDone(was, hashes);
    assert a[..0] == [];
    for i := 0 to a.Length
      invariant a[i..] == was[i..] && DoneUpTo(was, hashes, i, a[..i])
    {
      assert a[i] == a[i..][0] == was[i];
      DoOne(was, hashes, i, a[..i]);
      var v := Finalize(a[i], hashes);
      if v.Error? {
        assert a[..] == a[..i] + a[i..];
        return false;
      }
      ghost var done := a[..i];
      a[i] := v.value;
      assert a[..i + 1] == done + [v.value];
    }
    assert a[..a.Length] == a[..];
    AllDone(was, hashes, a[..]);
    return true;
  }

  method SortByDigest(a: array<Constraint>)
    modifies a
    ensures IsSortOf(DigestKey, old(a[..]), a[..])
  {
    hide IsSortOf;
    var sorted := Sort(DigestKey, a[..]);
    SortLength(a[..], sorted);
    for i := 0 to a.Length
      invariant forall j :: 0 <= j < i ==> a[j] == sorted[j]
    {
      a[i] := sorted[i];
    }
    assert a[..] == sorted;
  }

  lemma SortLength(a: seq<Constraint>, b: seq<Constraint>)
    requires IsSortOf(DigestKey, a, b)
    ensures |b| == |a|
  {
    SameElements(a, b);
  }

  // ----- Finalizing a context -----

  lemma {:induction false} FinalizeAllTwice(list: seq<Constraint>, hashes: Hashes)
    requires FinalizeAll(list, hashes).Ok?
    ensures FinalizeAll(FinalizeAll(list, hashes).value, hashes) == FinalizeAll(list, hashes)
  {
    hide Finalize;
    if list != [] {
      FinalizeTwice(list[0], hashes);
      FinalizeAllTwice(list[1..], hashes);
    }
  }

  lemma SortedAgain(list: seq<Constraint>, once: seq<Constraint>, twice: seq<Constraint>)
    requires IsSortOf(DigestKey, list, once) && IsSortOf(DigestKey, once, twice)
    ensures IsSortOf(DigestKey, list, twice)
  {
    hide Ordered;
  }

  /** Both lists are finalized and sorted in place, also when they are one. */
  method FinalizeLists(constraints: array<Constraint>, effective: array<Constraint>, hashes: Hashes) returns (ok: bool)
    modifies constraints, effective
    ensures ok <==> FinalizeAll(old(constraints[..]), hashes).Ok? && FinalizeAll(old(effective[..]), hashes).Ok?
    ensures ok ==> FinalizedFrom(old(constraints[..]), hashes, constraints[..])
                   && FinalizedFrom(old(effective[..]), hashes, effective[..])
    ensures !ok && constraints != effective ==>
      constraints[..] == FinalizedSoFar(old(constraints[..]), hashes)
      && (effective[..] == if FinalizeAll(old(constraints[..]), hashes).Ok? then FinalizedSoFar(old(effective[..]), hashes)
                           else old(effective[..]))
    ensures !ok && constraints == effective ==> constraints[..] == FinalizedSoFar(old(constraints[..]), hashes)
  {
    hide FinalizeAll, FinalizedSoFar, IsSortOf;
    ghost var own, held := constraints[..], effective[..];
    ok := FinalizeEach(constraints, hashes);
    if !ok {
      return;
    }
    AllFinalized(own, hashes);
    FinalizeAllTwice(own, hashes);
    ok := FinalizeEach(effective, hashes);
    if !ok {
      return;
    }
    AllFinalized(held, hashes);
    if constraints == effective {
      AllFinalized(FinalizeAll(own, hashes).value, hashes);
    }
    SortByDigest(constraints);
    ghost var once := constraints[..];
    SortByDigest(effective);
    if constraints == effective {
      SortedAgain(FinalizeAll(own, hashes).value, once, constraints[..]);
    }
  }

  /** A context becomes complete and gets its digest; nothing is digested without the three identities. */
  method FinalizeContext<Settings>(c: Context<Settings>, hashes: Hashes, digest: Record<Settings> -> string)
      returns (r: Result<Context<Settings>>)
    modifies c.constraints, c.effective
    ensures r.Ok? <==>
      c.principal != "" && c.workspace != "" && c.session != ""
      && FinalizeAll(old(c.constraints[..]), hashes).Ok? && FinalizeAll(old(c.effective[..]), hashes).Ok?
    ensures r.Ok? ==>
      FinalizedFrom(old(c.constraints[..]), hashes, c.constraints[..])
      && FinalizedFrom(old(c.effective[..]), hashes, c.effective[..])
      && r.value == c.(limitations := SortedUnique(c.limitations), closureDigest := r.value.closureDigest)
      && r.value.closureDigest == digest(r.value.Shown().(closureDigest := "", verified := false))
    ensures c.principal == "" || c.workspace == "" || c.session == "" ==>
      c.constraints[..] == old(c.constraints[..]) && c.effective[..] == old(c.effective[..])
  {
    hide FinalizeAll, FinalizedFrom;
    if c.principal == "" || c.workspace == "" || c.session == "" {
      return Error;
    }
    var ok := FinalizeLists(c.constraints, c.effective, hashes);
    if !ok {
      return Error;
    }
    var done := c.(limitations := SortedUnique(c.limitations));
    var shown := Record(done.principal, done.parentPrincipal, done.workspace, done.session, done.settings, done.constraints[..],
                        done.effective[..], done.parentClosureDigest, "", false, done.limitations);
    r := Ok(done.(closureDigest := digest(shown)));
  }

  // ----- Deriving a child -----

  lemma InheritTwice(list: seq<Constraint>, principal: string)
    ensures InheritAll(InheritAll(list, principal), principal) == InheritAll(list, principal)
  {
  }

  /** Renaming changes neither authority nor effect, so it changes no verdict. */
  lemma RenamedIsPreservedAlike(declared: seq<Constraint>, effective: seq<Constraint>, principal: string)
    ensures AllPreserved(InheritAll(declared, principal), effective) <==> AllPreserved(declared, effective)
  {
    hide Matches;
    var renamed := InheritAll(declared, principal);
    forall i | 0 <= i < |declared|
      ensures Judge(renamed[i], Matches(effective, KeyOf(renamed[i]))) == Judge(declared[i], Matches(effective, KeyOf(declared[i])))
    {
    }
    if AllPreserved(renamed, effective) {
      forall d | d in declared ensures Judge(d, Matches(effective, KeyOf(d))) == Preserved {
        var i :| 0 <= i < |declared| && declared[i] == d;
        assert renamed[i] in renamed;
      }
    }
    if AllPreserved(declared, effective) {
      forall d | d in renamed ensures Judge(d, Matches(effective, KeyOf(d))) == Preserved {
        var i :| 0 <= i < |renamed| && renamed[i] == d;
        assert declared[i] in declared;
      }
    }
  }

  /** The child's effective list: the parent's own storage, or new storage for a replacement. */
  method EffectiveList(held: array<Constraint>, principal: string, replacement: MaybeConstraints) returns (list: array<Constraint>)
    ensures replacement.Unchanged? ==> list == held
    ensures replacement.Replaced? ==> fresh(list) && list[..] == InheritAll(replacement.list, principal)
  {
    if replacement.Unchanged? {
      return held;
    }
    list := new Constraint[|replacement.list|](i requires 0 <= i < |replacement.list| => replacement.list[i]);
    assert list[..] == replacement.list;
    Rename(list, principal);
  }

  /** Derive a child.  Verification is never inherited, and a boundary that loses, weakens or confuses a constraint
      leaves a limitation behind.  The child's constraints are the parent's storage, and so is its effective authority
      unless the delta replaces it: the parent's constraints are renamed, finalized and sorted with the child's. */
  method DeriveChild<Settings>(parent: Context<Settings>, principal: string, session: string, boundary: string,
                               delta: Delta<Settings>, hashes: Hashes, digest: Record<Settings> -> string)
      returns (r: Result<Context<Settings>>, drifts: seq<Drift>)
    modifies parent.constraints, parent.effective
    ensures r.Ok? ==>
      var own := InheritAll(old(parent.constraints[..]), principal);
      var held := InheritAll(old(parent.effective[..]), principal);
      var before := EffectiveIn(old(parent.effective[..]), principal, delta.constraints);
      var child := r.value.Shown();
      && principal != "" && session != "" && parent.workspace != ""
      && child.principal == principal && child.parentPrincipal == parent.principal && child.session == session
      && child.workspace == parent.workspace && child.settings == delta.settings(parent.settings) && !child.verified
      && child.parentClosureDigest == parent.closureDigest
      && FinalizedFrom(own, hashes, child.constraints) && FinalizedFrom(before, hashes, child.effective)
      && IsSortOf(DriftKey, DriftsOf(held, before, boundary), drifts)
      && ((forall d :: d in drifts ==> d.state == Preserved) <==> AllPreserved(old(parent.effective[..]), before))
      && child.limitations == SortedUnique(parent.limitations + Complaints(drifts))
      && child.closureDigest == digest(child.(closureDigest := "", verified := false))
    ensures r.Ok? ==>
      r.value.constraints == parent.constraints
      && (if delta.constraints.Unchanged? then r.value.effective == parent.effective else fresh(r.value.effective))
      && (delta.constraints.Replaced? && parent.effective != parent.constraints ==>
            parent.effective[..] == InheritAll(old(parent.effective[..]), principal))
    ensures r.Error? <==>
      || principal == "" || session == "" || parent.workspace == ""
      || FinalizeAll(InheritAll(old(parent.constraints[..]), principal), hashes).Error?
      || FinalizeAll(EffectiveIn(old(parent.effective[..]), principal, delta.constraints), hashes).Error?
    ensures principal == "" || session == "" ==>
      parent.constraints[..] == old(parent.constraints[..]) && parent.effective[..] == old(parent.effective[..])
  {
    hide IsSortOf, AllPreserved, FinalizeAll, FinalizedFrom, InheritAll, DriftsOf, Complaints;
    drifts := [];
    if principal == "" || session == "" {
      return Error, drifts;
    }
    ghost var own, held := parent.constraints[..], parent.effective[..];
    InheritTwice(held, principal);
    Rename(parent.constraints, principal);
    Rename(parent.effective, principal);
    assert parent.constraints[..] == InheritAll(own, principal) && parent.effective[..] == InheritAll(held, principal);
    var effective := EffectiveList(parent.effective, principal, delta.constraints);
    drifts := CompareConstraints(parent.effective[..], effective[..], boundary);
    RenamedIsPreservedAlike(held, effective[..], principal);
    var child := Context(principal, parent.principal, parent.workspace, session, delta.settings(parent.settings),
                         parent.constraints, effective, parent.closureDigest, "", false, parent.limitations + Complaints(drifts));
    r := FinalizeContext(child, hashes, digest);
  }

  // ----- What is left of the parent -----

  /** When constraints are compared, each stands under the child's name and without a digest, and is otherwise what the
      parent held, or the replacement where there is one. */
  lemma HeldUnderTheChildsName(list: seq<Constraint>, principal: string, replacement: MaybeConstraints, i: nat)
    requires i < |EffectiveIn(list, principal, replacement)|
    ensures var before, c := if replacement.Replaced? then replacement.list else list, EffectiveIn(list, principal, replacement)[i];
            && |EffectiveIn(list, principal, replacement)| == |before|
            && c.principal == principal && c.digest == "" && c.id == before[i].id
            && KeyOf(c) == KeyOf(before[i]) && c.effect == before[i].effect
            && c.requiresConfirmation == before[i].requiresConfirmation && c.provenance == before[i].provenance
  {
  }

  lemma {:induction false} FinalizedFieldwise(list: seq<Constraint>, hashes: Hashes, i: nat)
    requires FinalizeAll(list, hashes).Ok? && i < |list|
    ensures |FinalizeAll(list, hashes).value| == |list|
    ensures Finalize(list[i], hashes) == Ok(FinalizeAll(list, hashes).value[i])
  {
    hide Finalize;
    FinalizeAllLength(list, hashes);
    if i > 0 {
      FinalizedFieldwise(list[1..], hashes, i - 1);
    }
  }

  /** Every constraint now belongs to the child's principal. */
  lemma BelongToChild(list: seq<Constraint>, principal: string, hashes: Hashes, out: seq<Constraint>)
    requires FinalizedFrom(InheritAll(list, principal), hashes, out)
    ensures forall c :: c in out ==> c.principal == Trim(principal)
  {
    hide FinalizeAll, Ordered, Trim;
    var values := FinalizeAll(InheritAll(list, principal), hashes).value;
    SameElements(out, values);
    FinalizeAllLength(InheritAll(list, principal), hashes);
    forall c | c in out ensures c.principal == Trim(principal) {
      var i :| 0 <= i < |values| && values[i] == c;
      FinalizedFieldwise(InheritAll(list, principal), hashes, i);
    }
  }

  /** A parent whose constraints are finalized keeps them, up to order, if and only if each of them already belongs to the
      child's principal. */
  lemma ParentKeepsItsOwnExactly(list: seq<Constraint>, principal: string, hashes: Hashes, out: seq<Constraint>)
    requires forall c :: c in list ==> Finalize(c, hashes) == Ok(c)
    requires FinalizedFrom(InheritAll(list, principal), hashes, out)
    ensures multiset(out) == multiset(list) <==> forall c :: c in list ==> c.principal == Trim(principal)
  {
    hide FinalizeAll, Ordered, Trim, Finalize;
    var renamed := InheritAll(list, principal);
    var values := FinalizeAll(renamed, hashes).value;
    BelongToChild(list, principal, hashes, out);
    if multiset(out) == multiset(list) {
      SameElements(out, list);
    }
    if forall c :: c in list ==> c.principal == Trim(principal) {
      FinalizeAllLength(renamed, hashes);
      forall i | 0 <= i < |list| ensures values[i] == list[i] {
        FinalizedFieldwise(renamed, hashes, i);
        assert list[i] in list;
        RenamedToItself(list[i], principal, hashes);
      }
      assert values == list;
    }
  }

  lemma RenamedToItself(c: Constraint, principal: string, hashes: Hashes)
    requires Finalize(c, hashes) == Ok(c) && c.principal == Trim(principal)
    ensures Finalize(Inherit(c, principal), hashes) == Ok(c)
  {
    hide Trim;
    assert Trim(c.principal) == c.principal;
  }

  /** Two children of one parent hold the same constraints: deriving the second leaves the first with constraints of the
      second's principal and the digest of those it had. */
  method DeriveSiblings<Settings>(parent: Context<Settings>, first: string, second: string, session: string, boundary: string,
                                  delta: Delta<Settings>, hashes: Hashes, digest: Record<Settings> -> string)
      returns (a: Result<Context<Settings>>, b: Result<Context<Settings>>, ghost digested: seq<Constraint>)
    modifies parent.constraints, parent.effective
    ensures a.Ok? && b.Ok? ==>
      a.value.constraints == b.value.constraints && a.value.principal == first
      && (forall c :: c in a.value.constraints[..] ==> c.principal == Trim(second))
      && (forall c :: c in digested ==> c.principal == Trim(first))
      && exists shown: Record<Settings> :: shown.constraints == digested && a.value.closureDigest == digest(shown)
  {
    hide FinalizedFrom, DriftsOf, InheritAll, IsSortOf, AllPreserved, FinalizeAll, Complaints, Trim;
    ghost var list := parent.constraints[..];
    var drifts;
    a, drifts := DeriveChild(parent, first, session, boundary, delta, hashes, digest);
    digested := parent.constraints[..];
    if a.Ok? {
      BelongToChild(list, first, hashes, digested);
      assert a.value.Shown().(closureDigest := "", verified := false).constraints == digested;
    }
    ghost var renamed := parent.constraints[..];
    b, drifts := DeriveChild(parent, second, session, boundary, delta, hashes, digest);
    if a.Ok? && b.Ok? {
      BelongToChild(renamed, second, hashes, b.value.constraints[..]);
    }
  }
}
