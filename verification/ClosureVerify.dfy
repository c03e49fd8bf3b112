/** Reviewed-versus-current comparison of two closures. */
module ClosureVerify {
  import opened Orders
  import opened Closures
  import opened ClosureState
  import opened ClosureFacts

  datatype Violation = Violation(node: string, edge: string, reason: string, expected: string, actual: string)

  datatype Status = Verified | Failed | StillUnresolved

  datatype VerificationResult = VerificationResult(status: Status, expectedDigest: string, actualDigest: string, violations: seq<Violation>)

  // ----- Drift, item by item -----

  function Show(b: bool): string { if b then "true" else "false" }

  function EdgeTexts(edges: seq<Edge>): set<string> {
    set e | e in edges :: EdgeText(e)
  }

  function RootDrift(e: Closure, a: Closure): seq<Violation> {
    if e.rootDigest == a.rootDigest then [] else [Violation("root", "", "root_digest_mismatch", e.rootDigest, a.rootDigest)]
  }

  /** What changed about an expected node. */
  function NodeDrift(expected: map<string, Node>, actual: map<string, Node>, id: string): seq<Violation>
    requires id in expected
  {
    var want := expected[id];
    if id !in actual then
      if want.required then [Violation(id, "", "required_node_missing", want.digest, "")] else []
    else
      var got := actual[id];
      (if want.digest != got.digest then [Violation(id, "", "digest_mismatch", want.digest, got.digest)] else [])
      + (if want.required != got.required then [Violation(id, "", "required_state_changed", Show(want.required), Show(got.required))] else [])
      + (if got.required && (!got.resolved || !got.analyzed || got.digest == "")
         then [Violation(id, "", "required_node_unresolved", "", got.analysisStatus)] else [])
  }

  function NewNode(expected: map<string, Node>, actual: map<string, Node>, id: string): seq<Violation>
    requires id in actual
  {
    if id !in expected && actual[id].required then [Violation(id, "", "unexpected_required_node", "", actual[id].digest)] else []
  }

  function EdgeDrift(here: string, there: set<string>, reason: string): seq<Violation> {
    if here in there then [] else [Violation("", here, reason, "", "")]
  }

  /** `v` is one of the itemised differences between two finalized closures. */
  ghost predicate Drifted(e: Closure, a: Closure, v: Violation) {
    var en, an, ee, ae := Latest(e.nodes), Latest(a.nodes), EdgeTexts(e.edges), EdgeTexts(a.edges);
    || v in RootDrift(e, a)
    || (exists id :: id in en && v in NodeDrift(en, an, id))
    || (exists id :: id in an && v in NewNode(en, an, id))
    || (exists t :: t in ee && v in EdgeDrift(t, ae, "required_edge_missing"))
    || (exists t :: t in ae && v in EdgeDrift(t, ee, "unexpected_edge"))
  }

  ghost predicate NoDrift(e: Closure, a: Closure) {
    forall v :: !Drifted(e, a, v)
  }

  function DigestDrift(e: Closure, a: Closure): Violation {
    Violation("", "", "closure_digest_mismatch", e.digest, a.digest)
  }

  function StateName(s: State): string {
    match s case Safe => "SAFE" case Unsafe => "UNSAFE" case Unknown => "UNKNOWN"
  }

  function Incomplete(a: Closure): Violation {
    Violation("", "", "closure_incomplete", "", StateName(a.state))
  }

  /** The report on two finalized closures. */
  ghost predicate Reports(e: Closure, a: Closure, r: VerificationResult) {
    && r.expectedDigest == e.digest && r.actualDigest == a.digest
    && (r.status == Failed <==> !NoDrift(e, a) || e.digest != a.digest)
    && (r.status == StillUnresolved <==> NoDrift(e, a) && e.digest == a.digest && !a.complete)
    && (forall v :: v in r.violations <==>
          || Drifted(e, a, v)
          || (NoDrift(e, a) && e.digest != a.digest && v == DigestDrift(e, a))
          || (NoDrift(e, a) && e.digest == a.digest && !a.complete && v == Incomplete(a)))
  }

  // ----- The comparison -----

  /** Everything `drift` says about the members of `ids`; the order of a map's keys is open. */
  method Gather(ids: set<string>, drift: string --> seq<Violation>) returns (out: seq<Violation>)
    requires forall id :: id in ids ==> drift.requires(id)
    ensures forall v :: v in out <==> exists id :: id in ids && v in drift(id)
  {
    out := [];
    var todo := ids;
    while todo != {}
      invariant todo <= ids
      invariant forall v :: v in out <==> exists id :: id in ids - todo && v in drift(id)
      decreases todo
    {
      var id :| id in todo;
      ghost var before := out;
      ghost var done := ids - todo;
      out := out + drift(id);
      todo := todo - {id};
      assert ids - todo == done + {id};
      forall v ensures v in out <==> exists x :: x in ids - todo && v in drift(x) {
        if v in before {
          var x :| x in done && v in drift(x);
          assert x in ids - todo;
        }
        assert v in before <==> exists x :: x in done && v in drift(x);
      }
    }
    assert ids - todo == ids;
  }

  function ViolationKey(v: Violation): Key {
    [v.node + [0 as char] + v.edge + [0 as char] + v.reason]
  }

  /** The itemised differences. */
  method Differences(e: Closure, a: Closure) returns (out: seq<Violation>)
    ensures forall v :: v in out <==> Drifted(e, a, v)
  {
    hide NodeDrift, NewNode, EdgeDrift, RootDrift;
    var en, an, ee, ae := Latest(e.nodes), Latest(a.nodes), EdgeTexts(e.edges), EdgeTexts(a.edges);
    var nodes := Gather(en.Keys, id requires id in en => NodeDrift(en, an, id));
    var newNodes := Gather(an.Keys, id requires id in an => NewNode(en, an, id));
    var missing := Gather(ee, t => EdgeDrift(t, ae, "required_edge_missing"));
    var extra := Gather(ae, t => EdgeDrift(t, ee, "unexpected_edge"));
    out := RootDrift(e, a) + nodes + newNodes + missing + extra;
  }

  method Compare(e: Closure, a: Closure) returns (r: VerificationResult)
    ensures Reports(e, a, r) && Ordered(ViolationKey, r.violations)
  {
    hide Drifted, ViolationKey, Ordered, KeyLeq;
    var violations := Differences(e, a);
    var status := if violations == [] then Verified else Failed;
    if violations == [] {
      if e.digest != a.digest {
        status, violations := Failed, [DigestDrift(e, a)];
      } else if !a.complete {
        status, violations := StillUnresolved, [Incomplete(a)];
      }
    } else {
      assert violations[0] in violations;
      assert !NoDrift(e, a);
    }
    var sorted := Sort(ViolationKey, violations);
    SameElements(violations, sorted);
    r := VerificationResult(status, e.digest, a.digest, sorted);
  }

  method Verify(expected: Closure, actual: Closure, hash: Hash) returns (r: VerificationResult, ghost e: Closure,
                ghost a: Closure)
    ensures Finalizes(expected, hash, e) && Finalizes(actual, hash, a)
    ensures Reports(e, a, r) && Ordered(ViolationKey, r.violations)
    ensures r.status == Verified ==> r.expectedDigest == r.actualDigest
  {
    var left := Finalize(expected, hash);
    var right := Finalize(actual, hash);
    r := Compare(left, right);
    e, a := left, right;
  }

  // ----- Exactness -----

  lemma SelfDrift(e: Closure, a: Closure)
    requires e.rootDigest == a.rootDigest && e.nodes == a.nodes && e.edges == a.edges && AllResolved(a.nodes)
    ensures NoDrift(e, a)
  {
    hide Unresolved;
    LatestIsLast(a.nodes);
    forall v ensures !Drifted(e, a, v) {
      var nodes := Latest(a.nodes);
      forall id | id in nodes ensures NodeDrift(nodes, nodes, id) == [] {
        ResolvedHasNoDrift(nodes[id]);
      }
    }
  }

  lemma ResolvedHasNoDrift(n: Node)
    requires n.required ==> !Unresolved(n)
    ensures !(n.required && (!n.resolved || !n.analyzed || n.digest == ""))
  {
  }

  /** Without assuming anything about ties, a successful verification still means equal digests of a complete closure. */
  lemma VerifiedMeansSameDigest(e: Closure, a: Closure, r: VerificationResult)
    requires Reports(e, a, r)
    ensures r.status == Verified <==> NoDrift(e, a) && e.digest == a.digest && a.complete
    ensures r.status == Verified ==> r.violations == []
  {
    if r.violations != [] {
      assert r.violations[0] in r.violations;
    }
  }
}
