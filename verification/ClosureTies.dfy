/** Exactly when finalizing is a function of the content, idempotent and digest-exact: when no two different nodes, and
    for order independence no two different edges, share a sort key. */
module ClosureTies {
  import opened Orders
  import opened Closures
  import opened ClosureState
  import opened ClosureFacts
  import opened ClosureVerify

  // ----- A tie gives two canonical forms -----

  /** Two different nodes with one key can change places in any canonical form. */
  lemma TiedNodesHaveTwoForms(nodes: seq<Node>, out: seq<Node>) returns (other: seq<Node>)
    requires CanonicalNodes(nodes, out) && !TieFree(NodeKey, TidyAll(nodes))
    ensures CanonicalNodes(nodes, other) && other != out
  {
    hide NodeKey, KeyLeq, TidyAll;
    var x, y :| x in TidyAll(nodes) && y in TidyAll(nodes) && NodeKey(x) == NodeKey(y) && x != y;
    SameElements(TidyAll(nodes), out);
    var i :| 0 <= i < |out| && out[i] == x;
    var j :| 0 <= j < |out| && out[j] == y;
    other := Swapped(out, i, j);
    SwapKeepsSort(NodeKey, TidyAll(nodes), out, i, j);
    assert other[j] == x;
  }

  /** Deduplication keeps the first edge of every run. */
  lemma {:induction false} FirstIsKept(s: seq<Edge>, k: nat)
    requires Ordered(EdgeKey, s) && k < |s| && forall i :: 0 <= i < k ==> EdgeText(s[i]) != EdgeText(s[k])
    ensures s[k] in DedupEdges(s)
    decreases |s|
  {
    hide KeyLeq, EdgeText;
    if |s| >= 2 && k > 0 {
      if EdgeText(s[0]) == EdgeText(s[1]) {
        var t := [s[0]] + s[2..];
        DropSecondOrdered(s);
        assert k > 1 && t[k - 1] == s[k];
        forall i | 0 <= i < k - 1 ensures EdgeText(t[i]) != EdgeText(t[k - 1]) {
          assert t[i] == if i == 0 then s[0] else s[i + 1];
        }
        FirstIsKept(t, k - 1);
      } else {
        TailIsOrdered(s);
        assert s[1..][k - 1] == s[k];
        FirstIsKept(s[1..], k - 1);
      }
    } else if |s| >= 2 {
      DedupEdgesKeeps(s);
    }
  }

  /** The first position with the text of the edge at `k`. */
  lemma RunStart(s: seq<Edge>, k: nat) returns (h: nat)
    requires k < |s|
    ensures h <= k && EdgeText(s[h]) == EdgeText(s[k]) && forall i :: 0 <= i < h ==> EdgeText(s[i]) != EdgeText(s[k])
  {
    hide EdgeText;
    h := k;
    var n := k;
    while n > 0
      invariant 0 <= n <= h <= k
      invariant EdgeText(s[h]) == EdgeText(s[k])
      invariant forall i :: n <= i < h ==> EdgeText(s[i]) != EdgeText(s[k])
    {
      n := n - 1;
      if EdgeText(s[n]) == EdgeText(s[k]) {
        h := n;
      }
    }
  }

  /** Somewhere in the sorted edges a run starts that goes on with a different edge. */
  lemma MixedRun(edges: seq<Edge>) returns (s: seq<Edge>, h: nat, k: nat)
    requires !TieFree(EdgeKey, edges)
    ensures IsSortOf(EdgeKey, edges, s) && h < k < |s| && s[h] != s[k] && EdgeText(s[h]) == EdgeText(s[k])
    ensures forall i :: 0 <= i < h ==> EdgeText(s[i]) != EdgeText(s[h])
  {
    hide KeyLeq, EdgeText, EdgeKey, TieFree, Ordered, Sorted;
    var x, y := TiedPair(edges);
    s := Sorted(EdgeKey, edges);
    SortedIsSort(EdgeKey, edges);
    SameElements(edges, s);
    var i :| 0 <= i < |s| && s[i] == x;
    h := RunStart(s, i);
    var z := if s[h] == x then y else x;
    k :| 0 <= k < |s| && s[k] == z;
  }

  lemma TiedPair(edges: seq<Edge>) returns (x: Edge, y: Edge)
    requires !TieFree(EdgeKey, edges)
    ensures x in edges && y in edges && EdgeText(x) == EdgeText(y) && x != y
  {
    hide EdgeText;
    x, y :| x in edges && y in edges && EdgeKey(x) == EdgeKey(y) && x != y;
    assert EdgeKey(x)[0] == EdgeKey(y)[0];
  }

  /** Two different edges with one text can each come first in their run, and then different ones are kept. */
  lemma TiedEdgesHaveTwoForms(edges: seq<Edge>) returns (out: seq<Edge>, other: seq<Edge>)
    requires !TieFree(EdgeKey, edges)
    ensures CanonicalEdges(edges, out) && CanonicalEdges(edges, other) && other != out
  {
    hide KeyLeq, EdgeText, DedupEdges, TieFree;
    var s, h, k := MixedRun(edges);
    var t := Swapped(s, h, k);
    SwapKeepsSort(EdgeKey, edges, s, h, k);
    out, other := DedupEdges(s), DedupEdges(t);
    FirstIsKept(s, h);
    FirstIsKept(t, h);
    KeptOnce(s, s[h], s[k]);
  }

  /** Of two different edges with one text at most one is kept. */
  lemma KeptOnce(s: seq<Edge>, x: Edge, y: Edge)
    requires Ordered(EdgeKey, s) && EdgeText(x) == EdgeText(y) && x != y && x in DedupEdges(s)
    ensures y !in DedupEdges(s)
  {
    hide KeyLeq, EdgeText, DedupEdges;
    DedupEdgesKeeps(s);
  }

  // ----- Every choice of canonical forms is a finalization -----

  /** A finalization with these nodes and edges, whose digest was taken over those. */
  lemma FinalizationWith(c: Closure, hash: Hash, nodes: seq<Node>, edges: seq<Edge>, hashed: seq<Node>) returns (r: Closure)
    requires CanonicalNodes(c.nodes, nodes) && CanonicalEdges(c.edges, edges) && CanonicalNodes(nodes, hashed)
    ensures Finalizes(c, hash, r) && r.nodes == nodes && r.edges == edges
    ensures r.digest == hash(Content(r.rootDigest, hashed, edges, r.limitations))
  {
    hide CanonicalNodes, CanonicalEdges, SortedUnique, TallyOf;
    var v := Assess(c.rootDigest, nodes, c.complete, SortedUnique(c.limitations));
    var again := EdgesAgain(c.edges, edges);
    SortedUniqueIdempotent(SortedUnique(c.limitations) + v.tally.conflicts);
    var digest := hash(Content(c.rootDigest, hashed, edges, v.limitations));
    r := Closure(c.rootDigest, nodes, edges, v.tally.maximumSeverity, v.complete, v.limitations, digest, v.state, v.verified,
                 v.tally.required, v.tally.unresolved, v.tally.blocking, v.tally.maxDepth);
    assert DigestOf(r, hash, digest);
  }

  lemma EdgesAgain(edges: seq<Edge>, out: seq<Edge>) returns (again: seq<Edge>)
    requires CanonicalEdges(edges, out)
    ensures CanonicalEdges(out, out) && again == out
  {
    hide KeyLeq, EdgeText, DedupEdges;
    CanonicalEdgesAreStrict(edges, out);
    DedupOfStrict(out);
    assert IsSortOf(EdgeKey, out, out);
    again := out;
  }

  lemma NodesAgain(nodes: seq<Node>, out: seq<Node>)
    requires CanonicalNodes(nodes, out)
    ensures CanonicalNodes(out, out)
  {
    hide NodeKey, KeyLeq;
    CanonicalNodesAreTidy(nodes, out);
  }

  lemma SomeForms(c: Closure) returns (nodes: seq<Node>, edges: seq<Edge>)
    ensures CanonicalNodes(c.nodes, nodes) && CanonicalEdges(c.edges, edges) && CanonicalNodes(nodes, nodes)
  {
    hide NodeKey, KeyLeq, EdgeText, DedupEdges, TidyAll;
    SortedIsSort(NodeKey, TidyAll(c.nodes));
    SortedIsSort(EdgeKey, c.edges);
    nodes, edges := Sorted(NodeKey, TidyAll(c.nodes)), DedupEdges(Sorted(EdgeKey, c.edges));
    NodesAgain(c.nodes, nodes);
  }

  // ----- The exact conditions -----

  /** Every closure with this content finalizes to the same closure, however it is listed and however ties are ordered. */
  ghost predicate OrderIndependent(c: Closure, hash: Hash) {
    forall b, r, s :: SameContent(c, b) && Finalizes(c, hash, r) && Finalizes(b, hash, s) ==> r == s
  }

  lemma OrderIndependentExactly(c: Closure, hash: Hash)
    ensures OrderIndependent(c, hash) <==> Untied(c)
  {
    hide CanonicalNodes, CanonicalEdges, TieFree, Finalizes, SameContent;
    if Untied(c) {
      forall b, r, s | SameContent(c, b) && Finalizes(c, hash, r) && Finalizes(b, hash, s) ensures r == s {
        FinalizeOrderIndependent(c, b, hash, r, s);
      }
    } else {
      SameAsItself(c);
      var nodes, edges := SomeForms(c);
      var r := FinalizationWith(c, hash, nodes, edges, nodes);
      if !NodesUntied(c) {
        var other := TiedNodesHaveTwoForms(c.nodes, nodes);
        NodesAgain(c.nodes, other);
        var s := FinalizationWith(c, hash, other, edges, other);
        assert r != s;
      } else {
        var left, right := TiedEdgesHaveTwoForms(c.edges);
        var s := FinalizationWith(c, hash, nodes, left, nodes);
        var t := FinalizationWith(c, hash, nodes, right, nodes);
        assert s != t;
      }
    }
  }

  lemma SameAsItself(c: Closure)
    ensures SameContent(c, c)
  {
  }

  /** Finalizing again never changes a finalization of this closure. */
  ghost predicate Idempotent(c: Closure, hash: Hash) {
    forall r, s :: Finalizes(c, hash, r) && Finalizes(r, hash, s) ==> s == r
  }

  lemma IdempotentExactly(c: Closure, hash: Hash)
    ensures Idempotent(c, hash) <==> NodesUntied(c)
  {
    hide CanonicalNodes, CanonicalEdges, TieFree, Finalizes;
    if NodesUntied(c) {
      forall r, s | Finalizes(c, hash, r) && Finalizes(r, hash, s) ensures s == r {
        FinalizeIdempotent(c, hash, r, s);
      }
    } else {
      var nodes, edges := SomeForms(c);
      var r := FinalizationWith(c, hash, nodes, edges, nodes);
      var other := FormOfForm(c, nodes);
      NodesAgain(c.nodes, other);
      var again := EdgesAgain(c.edges, edges);
      var s := FinalizationWith(r, hash, other, edges, other);
      assert s != r;
    }
  }

  /** With a tie, another form of the closure is also another form of its canonical form. */
  lemma FormOfForm(c: Closure, nodes: seq<Node>) returns (other: seq<Node>)
    requires CanonicalNodes(c.nodes, nodes) && !NodesUntied(c)
    ensures CanonicalNodes(c.nodes, other) && CanonicalNodes(nodes, other) && other != nodes
  {
    hide NodeKey, KeyLeq, TidyAll, TieFree;
    other := TiedNodesHaveTwoForms(c.nodes, nodes);
    CanonicalNodesAreTidy(c.nodes, nodes);
  }

  /** The digest of every finalization is the hash of what it shows. */
  ghost predicate DigestExact(c: Closure, hash: Hash) {
    forall r :: Finalizes(c, hash, r) ==> r.digest == hash(Content(r.rootDigest, r.nodes, r.edges, r.limitations))
  }

  lemma DigestExactly(c: Closure, hash: Hash)
    requires CollisionFree(hash)
    ensures DigestExact(c, hash) <==> NodesUntied(c)
  {
    hide CanonicalNodes, CanonicalEdges, TieFree, Finalizes;
    if NodesUntied(c) {
      forall r | Finalizes(c, hash, r) ensures r.digest == hash(Content(r.rootDigest, r.nodes, r.edges, r.limitations)) {
        DigestIsOfContent(c, hash, r);
      }
    } else {
      var nodes, edges := SomeForms(c);
      var other := FormOfForm(c, nodes);
      var r := FinalizationWith(c, hash, nodes, edges, other);
      assert Content(r.rootDigest, other, edges, r.limitations) != Content(r.rootDigest, nodes, edges, r.limitations);
    }
  }

  // ----- Verification -----

  /** The closure would finalize as complete. */
  ghost predicate Completes(c: Closure) {
    Identified(c) && NoConflict(TidyAll(c.nodes)) && AllResolved(TidyAll(c.nodes)) && c.limitations == [] && c.complete
  }

  lemma CompletesAsFinalized(c: Closure, hash: Hash, r: Closure)
    requires Finalizes(c, hash, r)
    ensures r.complete <==> Completes(c)
  {
    hide Finalizes, NodeKey, KeyLeq, TidyAll, Unresolved;
    FinalizeMeaning(c, hash, r);
    FinalizedParts(c, hash, r);
    SameElements(TidyAll(c.nodes), r.nodes);
  }

  ghost predicate SameFinalized(e: Closure, a: Closure) {
    e.rootDigest == a.rootDigest && e.nodes == a.nodes && e.edges == a.edges && e.limitations == a.limitations && a.complete
  }

  /** Against every reviewed closure, this one is VERIFIED exactly when the two finalize alike and it is complete. */
  ghost predicate VerifiesExactly(actual: Closure, hash: Hash) {
    forall expected, e, a, r :: Finalizes(expected, hash, e) && Finalizes(actual, hash, a) && Reports(e, a, r)
      ==> (r.status == Verified <==> SameFinalized(e, a))
  }

  /** Tied nodes in the current closure are the only thing that makes verification inexact, and only in one that would
      be complete. */
  lemma VerifyExactly(actual: Closure, hash: Hash)
    requires CollisionFree(hash)
    ensures VerifiesExactly(actual, hash) <==> NodesUntied(actual) || !Completes(actual)
  {
    hide CanonicalNodes, CanonicalEdges, TieFree, Finalizes, Reports, Completes, SameFinalized;
    if NodesUntied(actual) || !Completes(actual) {
      forall expected, e, a, r | Finalizes(expected, hash, e) && Finalizes(actual, hash, a) && Reports(e, a, r)
        ensures r.status == Verified <==> SameFinalized(e, a)
      {
        CompletesAsFinalized(actual, hash, a);
        VerifyIsExact(expected, actual, hash, e, a, r);
      }
    } else {
      var nodes, edges := SomeForms(actual);
      var other := FormOfForm(actual, nodes);
      var e := FinalizationWith(actual, hash, nodes, edges, nodes);
      var a := FinalizationWith(actual, hash, nodes, edges, other);
      CompletesAsFinalized(actual, hash, a);
      CompletesAsFinalized(actual, hash, e);
      FinalizeMeaning(actual, hash, a);
      BothComplete(actual, hash, e, a);
      var r := DigestsDiffer(e, a);
    }
  }

  lemma BothComplete(c: Closure, hash: Hash, e: Closure, a: Closure)
    requires Finalizes(c, hash, e) && Finalizes(c, hash, a) && e.complete && a.complete
    requires e.nodes == a.nodes && e.edges == a.edges
    ensures SameFinalized(e, a)
  {
    hide Finalizes;
    FinalizeMeaning(c, hash, e);
    FinalizeMeaning(c, hash, a);
    FinalizedParts(c, hash, e);
    FinalizedParts(c, hash, a);
  }

  lemma DigestsDiffer(e: Closure, a: Closure) returns (r: VerificationResult)
    requires SameFinalized(e, a) && AllResolved(a.nodes) && e.digest != a.digest
    ensures Reports(e, a, r) && r.status != Verified
  {
    hide Drifted, AllResolved;
    SelfDrift(e, a);
    r := VerificationResult(Failed, e.digest, a.digest, [DigestDrift(e, a)]);
  }

  /** Verification succeeds exactly when the two closures, finalized, have the same root, nodes, edges and limitations
      and the current one is complete: whatever ties the reviewed closure has, and whatever edges share a text. */
  lemma VerifyIsExact(expected: Closure, actual: Closure, hash: Hash, e: Closure, a: Closure, r: VerificationResult)
    requires CollisionFree(hash) && Finalizes(expected, hash, e) && Finalizes(actual, hash, a) && Reports(e, a, r)
    requires NodesUntied(actual) || !a.complete
    ensures r.status == Verified <==> SameFinalized(e, a)
  {
    hide Finalizes, CanonicalNodes, CanonicalEdges, TieFree, Drifted, AllResolved, NoConflict, NodesUntied, Reports;
    VerifiedMeansSameDigest(e, a, r);
    if a.complete {
      DigestIsOfContent(actual, hash, a);
      var hashed := HashedNodes(expected, hash, e);
      if e.digest == a.digest {
        assert hashed == a.nodes && e.rootDigest == a.rootDigest && e.edges == a.edges && e.limitations == a.limitations;
      }
      if SameFinalized(e, a) || e.digest == a.digest {
        UntiedForms(actual, hash, a, e.nodes, hashed);
      }
      if SameFinalized(e, a) {
        FinalizeMeaning(actual, hash, a);
        SelfDrift(e, a);
      }
    }
  }

  /** The form of the nodes over which a finalization's digest was taken. */
  lemma HashedNodes(c: Closure, hash: Hash, r: Closure) returns (hashed: seq<Node>)
    requires Finalizes(c, hash, r)
    ensures CanonicalNodes(r.nodes, hashed) && TidyAll(r.nodes) == r.nodes && Ordered(NodeKey, r.nodes)
    ensures r.digest == hash(Content(r.rootDigest, hashed, r.edges, r.limitations))
  {
    hide Assess, CanonicalNodes, CanonicalEdges, NodeKey, EdgeKey, SortedUnique;
    var nodes, edges :| CanonicalNodes(r.nodes, nodes) && CanonicalEdges(r.edges, edges)
      && r.digest == hash(Content(r.rootDigest, nodes, edges, SortedUnique(r.limitations)));
    CanonicalEdgesStable(c.edges, r.edges, edges);
    LimitationsStable(c, hash, r);
    CanonicalNodesAreTidy(c.nodes, r.nodes);
    FormIsOrdered(c.nodes, r.nodes);
    hashed := nodes;
  }

  lemma FormIsOrdered(nodes: seq<Node>, out: seq<Node>)
    requires CanonicalNodes(nodes, out)
    ensures Ordered(NodeKey, out)
  {
  }

  /** If either of a list of canonical nodes and its form is that of an untied closure, they are the same. */
  lemma UntiedForms(c: Closure, hash: Hash, a: Closure, nodes: seq<Node>, hashed: seq<Node>)
    requires Finalizes(c, hash, a) && NodesUntied(c)
    requires TidyAll(nodes) == nodes && CanonicalNodes(nodes, hashed) && Ordered(NodeKey, nodes)
    requires nodes == a.nodes || hashed == a.nodes
    ensures nodes == hashed
  {
    hide Assess, NodeKey, KeyLeq, TidyAll, TieFree, CanonicalEdges, DigestOf;
    SameElements(TidyAll(c.nodes), a.nodes);
    SameElements(nodes, hashed);
    TieFreeElsewhere(NodeKey, TidyAll(c.nodes), nodes);
    SortUnique(NodeKey, nodes, hashed);
  }
}
