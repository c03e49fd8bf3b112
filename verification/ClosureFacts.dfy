/** What a finalized closure says: exact conditions for SAFE, UNSAFE, complete and verified, and the two promises of
    `Finalize`: it does not depend on traversal order, and doing it again changes nothing. */
module ClosureFacts {
  import opened Orders
  import opened Closures
  import opened ClosureState

  // ----- The tally, declaratively -----

  /** Nodes with the same identity are the same node. */
  ghost predicate NoConflict(nodes: seq<Node>) {
    forall m, n :: m in nodes && n in nodes && m.id == n.id ==> m == n
  }

  ghost predicate AllResolved(nodes: seq<Node>) {
    forall n :: n in nodes && n.required ==> !Unresolved(n)
  }

  ghost predicate NoneBlocking(nodes: seq<Node>) {
    forall n :: n in nodes && n.required ==> !Blocking(n)
  }

  ghost predicate AllVetted(nodes: seq<Node>) {
    forall n :: n in nodes && n.required ==> Vetted(n)
  }

  lemma {:induction false} LatestIsLast(nodes: seq<Node>)
    ensures forall n :: n in nodes ==> n.id in Latest(nodes)
    ensures forall id :: id in Latest(nodes) ==> Latest(nodes)[id] in nodes && Latest(nodes)[id].id == id
  {
    if nodes != [] {
      LatestIsLast(nodes[..|nodes| - 1]);
      assert nodes == nodes[..|nodes| - 1] + [nodes[|nodes| - 1]];
    }
  }

  lemma NoConflictSnoc(nodes: seq<Node>, n: Node)
    ensures NoConflict(nodes + [n]) <==> NoConflict(nodes) && !Clashes(Latest(nodes), n)
  {
    LatestIsLast(nodes);
    if NoConflict(nodes + [n]) {
      assert forall m :: m in nodes ==> m in nodes + [n];
      if n.id in Latest(nodes) {
        assert Latest(nodes)[n.id] in nodes + [n] && n in nodes + [n];
      }
    }
  }

  lemma StepMeaning(t: Tally, seen: map<string, Node>, n: Node)
    ensures var u := Step(t, seen, n);
            && (u.conflicts == [] <==> t.conflicts == [] && !Clashes(seen, n))
            && (u.resolved <==> t.resolved && !Clashes(seen, n) && (n.required ==> !Unresolved(n)))
            && (u.vetted <==> t.vetted && (n.required ==> Vetted(n)))
            && (u.state == Unsafe <==> (n.required && Blocking(n)) || (t.state == Unsafe && !Clashes(seen, n)))
            && (u.state == Safe <==> t.state == Safe && !Clashes(seen, n) && (n.required ==> !Unresolved(n) && !Blocking(n)))
  {
    hide Unresolved, Blocking, Vetted, SeverityRank, ConflictText, Clashes;
  }

  /** What the loop has established after `nodes`, when it started from SAFE or UNKNOWN. */
  lemma {:induction false} TallyMeaning(nodes: seq<Node>, start: State)
    requires start != Unsafe
    ensures var t := TallyOf(nodes, start);
            && (t.conflicts == [] <==> NoConflict(nodes))
            && (t.resolved <==> NoConflict(nodes) && AllResolved(nodes))
            && (t.vetted <==> AllVetted(nodes))
            && (t.state == Safe <==> start == Safe && NoConflict(nodes) && AllResolved(nodes) && NoneBlocking(nodes))
  {
    hide Unresolved, Blocking, Vetted, NoConflict, Clashes, Latest, Step;
    if nodes == [] {
      EmptyHasNoConflict();
    } else {
      var k := |nodes| - 1;
      TallyMeaning(nodes[..k], start);
      NoConflictSnoc(nodes[..k], nodes[k]);
      StepMeaning(TallyOf(nodes[..k], start), Latest(nodes[..k]), nodes[k]);
      assert nodes == nodes[..k] + [nodes[k]];
    }
  }

  lemma EmptyHasNoConflict()
    ensures NoConflict([])
  {
  }

  /** The node at `j` contradicts the latest earlier node with its identity. */
  ghost predicate ClashAt(nodes: seq<Node>, j: nat)
    requires j < |nodes|
  {
    Clashes(Latest(nodes[..j]), nodes[j])
  }

  ghost predicate BlocksAt(nodes: seq<Node>, k: nat)
    requires k < |nodes|
  {
    nodes[k].required && Blocking(nodes[k])
  }

  /** Some required node blocks, and no conflict comes after it in canonical order. */
  ghost predicate BlocksForGood(nodes: seq<Node>) {
    exists k :: 0 <= k < |nodes| && BlocksAt(nodes, k) && forall j :: k < j < |nodes| ==> !ClashAt(nodes, j)
  }

  lemma BlocksForGoodSnoc(nodes: seq<Node>, n: Node)
    ensures BlocksForGood(nodes + [n]) <==>
      (n.required && Blocking(n)) || (BlocksForGood(nodes) && !Clashes(Latest(nodes), n))
  {
    var more := nodes + [n];
    forall j | 0 <= j < |nodes| ensures ClashAt(more, j) == ClashAt(nodes, j) && BlocksAt(more, j) == BlocksAt(nodes, j) {
      assert more[..j] == nodes[..j];
    }
    assert more[..|nodes|] == nodes;
    assert ClashAt(more, |nodes|) == Clashes(Latest(nodes), n);
    assert BlocksAt(more, |nodes|) == (n.required && Blocking(n));
    if BlocksForGood(nodes) && !Clashes(Latest(nodes), n) {
      var k :| 0 <= k < |nodes| && BlocksAt(nodes, k) && forall j :: k < j < |nodes| ==> !ClashAt(nodes, j);
      assert BlocksAt(more, k);
    }
    if BlocksForGood(more) && !(n.required && Blocking(n)) {
      var k :| 0 <= k < |more| && BlocksAt(more, k) && forall j :: k < j < |more| ==> !ClashAt(more, j);
      assert k < |nodes| && BlocksAt(nodes, k);
    }
  }

  /** UNSAFE exactly when a required node blocks and no later conflict overwrites the verdict with UNKNOWN. */
  lemma {:induction false} UnsafeMeaning(nodes: seq<Node>, start: State)
    requires start != Unsafe
    ensures TallyOf(nodes, start).state == Unsafe <==> BlocksForGood(nodes)
  {
    hide Unresolved, Blocking, Vetted, Clashes, Latest, BlocksForGood, Step;
    if nodes == [] {
      NothingBlocks();
    } else {
      var k := |nodes| - 1;
      UnsafeMeaning(nodes[..k], start);
      BlocksForGoodSnoc(nodes[..k], nodes[k]);
      StepMeaning(TallyOf(nodes[..k], start), Latest(nodes[..k]), nodes[k]);
      assert nodes == nodes[..k] + [nodes[k]];
    }
  }

  lemma NothingBlocks()
    ensures !BlocksForGood([])
  {
  }

  // ----- What a finalized closure says -----

  ghost predicate Identified(c: Closure) {
    c.nodes != [] && c.rootDigest != ""
  }

  lemma FinalizedParts(c: Closure, hash: Hash, r: Closure)
    requires Finalizes(c, hash, r)
    ensures r.rootDigest == c.rootDigest && CanonicalNodes(c.nodes, r.nodes) && CanonicalEdges(c.edges, r.edges)
    ensures |r.nodes| == |c.nodes|
    ensures var v := Assess(c.rootDigest, r.nodes, c.complete, SortedUnique(c.limitations));
            r.state == v.state && r.complete == v.complete && r.verified == v.verified && r.limitations == v.limitations
  {
    hide Assess, NodeKey, KeyLeq, CanonicalEdges, DigestOf;
    SameElements(TidyAll(c.nodes), r.nodes);
  }

  /** SAFE, complete and verified, each exactly. */
  lemma FinalizeMeaning(c: Closure, hash: Hash, r: Closure)
    requires Finalizes(c, hash, r)
    ensures r.state == Safe <==>
      Identified(c) && NoConflict(r.nodes) && AllResolved(r.nodes) && NoneBlocking(r.nodes) && c.limitations == []
    ensures r.complete <==>
      Identified(c) && NoConflict(r.nodes) && AllResolved(r.nodes) && c.limitations == [] && c.complete
    ensures r.verified <==> r.state == Safe && r.complete && AllVetted(r.nodes)
    ensures r.complete || r.state == Safe ==> r.limitations == []
  {
    hide NoConflict, AllResolved, NoneBlocking, AllVetted, TallyOf, CanonicalNodes, CanonicalEdges, Finalizes, SortedUnique;
    FinalizedParts(c, hash, r);
    TallyMeaning(r.nodes, StartState(c.rootDigest, r.nodes));
    NoLimitations(c.limitations);
    NoLimitations(SortedUnique(c.limitations) + TallyOf(r.nodes, StartState(c.rootDigest, r.nodes)).conflicts);
  }

  lemma NoLimitations(s: seq<string>)
    ensures SortedUnique(s) == [] <==> s == []
  {
    SortedUniqueFacts(s);
    if s != [] {
      assert s[0] in SortedUnique(s);
    }
  }

  lemma FinalizeUnsafe(c: Closure, hash: Hash, r: Closure)
    requires Finalizes(c, hash, r)
    ensures r.state == Unsafe <==> BlocksForGood(r.nodes)
  {
    hide TallyOf, BlocksForGood, CanonicalNodes, CanonicalEdges, Finalizes, SortedUnique;
    FinalizedParts(c, hash, r);
    UnsafeMeaning(r.nodes, StartState(c.rootDigest, r.nodes));
  }

  /** A conflicting duplicate that sorts after a blocking node turns UNSAFE into UNKNOWN: whatever the order in which a
      closure lists a required blocking node and two later ones with one identity, it finalizes as UNKNOWN. */
  lemma ConflictMasksUnsafe(c: Closure, hash: Hash, r: Closure, blocking: Node, first: Node, second: Node)
    requires blocking.required && Blocking(blocking) && !first.required && !second.required
    requires first.id == second.id && first != second && blocking.id != first.id
    requires multiset(TidyAll(c.nodes)) == multiset{blocking, first, second}
    requires !KeyLeq(NodeKey(first), NodeKey(blocking)) && !KeyLeq(NodeKey(second), NodeKey(blocking))
    requires Finalizes(c, hash, r)
    ensures r.state == Unknown
  {
    hide Blocking, NoConflict, Clashes, Latest, Finalizes, NodeKey, KeyLeq, TidyAll, BlocksForGood;
    FinalizedParts(c, hash, r);
    FinalizeMeaning(c, hash, r);
    FinalizeUnsafe(c, hash, r);
    var x, y := BlockingFirst(TidyAll(c.nodes), r.nodes, blocking, first, second);
    LastClashes(blocking, x, y);
    assert r.nodes[..2] == [blocking, x];
    ClashUnblocks(r.nodes, y);
    ConflictingPair(r.nodes, x, y);
  }

  lemma BlockingFirst(nodes: seq<Node>, out: seq<Node>, blocking: Node, first: Node, second: Node) returns (x: Node, y: Node)
    requires IsSortOf(NodeKey, nodes, out) && multiset(nodes) == multiset{blocking, first, second}
    requires !KeyLeq(NodeKey(first), NodeKey(blocking)) && !KeyLeq(NodeKey(second), NodeKey(blocking))
    requires blocking.id != first.id && first.id == second.id && first != second
    ensures out == [blocking, x, y] && ((x == first && y == second) || (x == second && y == first))
  {
    hide NodeKey, KeyLeq;
    assert |multiset(out)| == 3 && |out| == 3;
    assert out == [out[0], out[1], out[2]];
    assert multiset(out) == multiset{out[0], out[1], out[2]};
    assert blocking in multiset(out) && first in multiset(out) && second in multiset(out);
    assert out[0] in multiset(out) && out[1] in multiset(out) && out[2] in multiset(out);
    x, y := out[1], out[2];
  }

  lemma LastClashes(a: Node, b: Node, c: Node)
    requires b.id == c.id && b != c
    ensures Clashes(Latest([a, b]), c)
  {
    assert [a, b][..1] == [a];
  }

  lemma ClashUnblocks(nodes: seq<Node>, last: Node)
    requires |nodes| == 3 && nodes[2] == last && !last.required && Clashes(Latest(nodes[..2]), last)
    ensures !BlocksForGood(nodes)
  {
    hide Latest, Clashes;
    assert ClashAt(nodes, 2);
    assert !BlocksAt(nodes, 2);
  }

  lemma ConflictingPair(nodes: seq<Node>, first: Node, second: Node)
    requires first in nodes && second in nodes && first.id == second.id && first != second
    ensures !NoConflict(nodes)
  {
  }

  // ----- Order independence and idempotence -----

  /** Nodes with the same sort key are the same node. */
  ghost predicate NodesUntied(c: Closure) {
    TieFree(NodeKey, TidyAll(c.nodes))
  }

  /** and edges with the same text the same edge. */
  ghost predicate Untied(c: Closure) {
    NodesUntied(c) && TieFree(EdgeKey, c.edges)
  }

  /** The same content in another order: nodes permuted and their findings listed otherwise, edges and limitations
      reordered or repeated. */
  ghost predicate SameContent(a: Closure, b: Closure) {
    && a.rootDigest == b.rootDigest && a.complete == b.complete
    && multiset(TidyAll(a.nodes)) == multiset(TidyAll(b.nodes))
    && SameElementsAs(a.edges, b.edges) && SameElementsAs(a.limitations, b.limitations)
  }

  lemma TieFreeElsewhere<T(!new)>(key: T -> Key, a: seq<T>, b: seq<T>)
    requires TieFree(key, a) && forall x :: x in b ==> x in a
    ensures TieFree(key, b)
  {
  }

  /** A canonical form is its own canonical form. */
  lemma CanonicalNodesStable(nodes: seq<Node>, out: seq<Node>, again: seq<Node>)
    requires CanonicalNodes(nodes, out) && TieFree(NodeKey, TidyAll(nodes)) && CanonicalNodes(out, again)
    ensures again == out
  {
    hide NodeKey, KeyLeq, TidyAll, SortedUnique;
    CanonicalNodesAreTidy(nodes, out);
    SameElements(TidyAll(nodes), out);
    TieFreeElsewhere(NodeKey, TidyAll(nodes), out);
    SortUnique(NodeKey, out, again);
  }

  /** The digest of a finalized closure is the hash of exactly what it shows. */
  lemma DigestIsOfContent(c: Closure, hash: Hash, r: Closure)
    requires Finalizes(c, hash, r) && NodesUntied(c)
    ensures r.digest == hash(Content(r.rootDigest, r.nodes, r.edges, r.limitations))
  {
    hide Assess, CanonicalNodes, CanonicalEdges, NodeKey, EdgeKey, SortedUnique, TieFree;
    var nodes, edges :| CanonicalNodes(r.nodes, nodes) && CanonicalEdges(r.edges, edges)
      && r.digest == hash(Content(r.rootDigest, nodes, edges, SortedUnique(r.limitations)));
    CanonicalNodesStable(c.nodes, r.nodes, nodes);
    CanonicalEdgesStable(c.edges, r.edges, edges);
    LimitationsStable(c, hash, r);
  }

  lemma LimitationsStable(c: Closure, hash: Hash, r: Closure)
    requires Finalizes(c, hash, r)
    ensures SortedUnique(r.limitations) == r.limitations
  {
    hide TallyOf, CanonicalNodes, CanonicalEdges, Finalizes, SortedUnique;
    FinalizedParts(c, hash, r);
    SortedUniqueIdempotent(SortedUnique(c.limitations) + TallyOf(r.nodes, StartState(c.rootDigest, r.nodes)).conflicts);
  }

  /** Everything in a finalized closure is determined by its nodes, its edges and the incoming root, limitations and
      completeness. */
  lemma FinalizeDetermined(a: Closure, b: Closure, hash: Hash, r: Closure, s: Closure)
    requires Finalizes(a, hash, r) && Finalizes(b, hash, s) && NodesUntied(a) && NodesUntied(b)
    requires a.rootDigest == b.rootDigest && r.nodes == s.nodes && r.edges == s.edges
    requires Assess(a.rootDigest, r.nodes, a.complete, SortedUnique(a.limitations))
          == Assess(b.rootDigest, s.nodes, b.complete, SortedUnique(b.limitations))
    ensures r == s
  {
    hide Assess, CanonicalNodes, CanonicalEdges, NodeKey, EdgeKey, SortedUnique, NodesUntied, DigestOf;
    DigestIsOfContent(a, hash, r);
    DigestIsOfContent(b, hash, s);
  }

  /** Two closures with the same content finalize to the same closure, digest included, in whatever order a builder
      lists them. */
  lemma FinalizeOrderIndependent(a: Closure, b: Closure, hash: Hash, r: Closure, s: Closure)
    requires SameContent(a, b) && Untied(a)
    requires Finalizes(a, hash, r) && Finalizes(b, hash, s)
    ensures r == s
  {
    hide Assess, CanonicalNodes, CanonicalEdges, NodeKey, EdgeKey, SortedUnique, DigestOf, TieFree, TidyAll;
    CanonicalNodesUnique(a.nodes, r.nodes, b.nodes, s.nodes);
    CanonicalEdgesUnique(a.edges, r.edges, b.edges, s.edges);
    SameElements(TidyAll(a.nodes), TidyAll(b.nodes));
    TieFreeElsewhere(NodeKey, TidyAll(a.nodes), TidyAll(b.nodes));
    SortedUniqueCanonical(a.limitations, b.limitations);
    FinalizeDetermined(a, b, hash, r, s);
  }

  lemma AssessStable(root: string, nodes: seq<Node>, complete: bool, limitations: seq<string>)
    requires SortedUnique(limitations) == limitations
    ensures var v := Assess(root, nodes, complete, limitations);
            Assess(root, nodes, v.complete, v.limitations) == v
  {
    hide SortedUnique, TallyOf;
    var t := TallyOf(nodes, StartState(root, nodes));
    var first := limitations + t.conflicts;
    var second := SortedUnique(first) + t.conflicts;
    SortedUniqueFacts(first);
    SortedUniqueCanonical(first, second);
    NoLimitations(first);
    NoLimitations(second);
  }

  lemma FinalizedIsUntied(c: Closure, hash: Hash, r: Closure)
    requires Finalizes(c, hash, r) && NodesUntied(c)
    ensures Untied(r)
  {
    hide Assess, NodeKey, EdgeKey, SortedUnique, DigestOf, TieFree, TidyAll, CanonicalEdges, KeyLeq, StrictEdges;
    CanonicalNodesAreTidy(c.nodes, r.nodes);
    CanonicalEdgesAreStrict(c.edges, r.edges);
    StrictTieFree(r.edges);
    SameElements(TidyAll(c.nodes), r.nodes);
    TieFreeElsewhere(NodeKey, TidyAll(c.nodes), r.nodes);
  }

  /** Finalizing a finalized closure changes nothing. */
  lemma FinalizeIdempotent(c: Closure, hash: Hash, r: Closure, s: Closure)
    requires NodesUntied(c) && Finalizes(c, hash, r) && Finalizes(r, hash, s)
    ensures s == r
  {
    hide Assess, CanonicalNodes, CanonicalEdges, NodeKey, EdgeKey, SortedUnique, DigestOf, TieFree, TidyAll;
    CanonicalNodesStable(c.nodes, r.nodes, s.nodes);
    CanonicalEdgesStable(c.edges, r.edges, s.edges);
    FinalizedIsUntied(c, hash, r);
    SortedUniqueIdempotent(c.limitations);
    AssessStable(c.rootDigest, r.nodes, c.complete, SortedUnique(c.limitations));
    LimitationsStable(c, hash, r);
    FinalizeDetermined(c, r, hash, r, s);
  }

  /** Two different edges can share a text, and deduplication then keeps only one of them. */
  lemma EdgesCanShareText()
    ensures var a, b := Edge("a", "c", "r--> b --s"), Edge("a --r--> b", "c", "s");
            a != b && EdgeText(a) == EdgeText(b) && DedupEdges([a, b]) == [a]
  {
    var a, b := Edge("a", "c", "r--> b --s"), Edge("a --r--> b", "c", "s");
    assert EdgeText(a) == "a --r--> b --s--> c" == EdgeText(b);
    assert [a, b][2..] == [] && [a] + [] == [a];
  }
}
