/** What a linked attack path shows in the graph, spelled out: ids, kinds, direction, state and texts of every node and
    edge. */
module EvidenceGraphMeaning {
  import opened Orders
  import opened EvidenceGraphs
  import opened EvidenceGraphFacts

  /** Verified outcomes, either way, are verified; support and tests are observations; anything else is inferred. */
  predicate IsState(c: Confidence, s: EvidenceState) {
    && (s == Verified <==> c == VerifiedExploitable || c == VerifiedBlocked)
    && (s == Observed <==> c == StaticallySupported || c == DynamicallyTested)
  }

  /** The graph's node for an entity of the path. */
  predicate ShowsEntity(w: World, path: Path, p: PathNode, n: Node) {
    n.id == "attack-entity:" + p.id && n.kind == w.lower(p.kind) && n.refId == p.id && n.detail == p.title
    && IsState(path.confidence, n.state)
  }

  predicate ShowsEvidence(w: World, path: Path, v: Evidence, n: Node) {
    n.id == "attack-verification:" + v.evidenceId && n.kind == "attack-verification" && n.refId == v.scenarioId
    && n.detail == w.confidenceText(path.confidence) + " (" + v.evidenceDigest + ")" && IsState(path.confidence, n.state)
  }

  /** The graph's edge for an edge of the path, in the path's direction. */
  predicate ShowsEdge(w: World, path: Path, p: PathEdge, e: Edge) {
    e.source == "attack-entity:" + p.source && e.target == "attack-entity:" + p.target && e.relation == w.lower(p.kind)
    && e.rationale == "attack path " + path.pathId + " (" + w.confidenceText(path.confidence) + ")"
    && IsState(path.confidence, e.state)
  }

  /** The edge from the evidence to the last entity of the path. */
  predicate ShowsVerification(path: Path, v: Evidence, e: Edge) {
    path.nodes != [] && e.source == "attack-verification:" + v.evidenceId
    && e.target == "attack-entity:" + path.nodes[|path.nodes| - 1].id && e.relation == "verifies-attack-path"
    && e.rationale == path.confidenceReason && IsState(path.confidence, e.state)
  }

  lemma NodesMeaning(w: World, path: Path)
    ensures var ns, k := NewNodes(w, path), |path.nodes|;
            |ns| == k + (if path.evidence.Some? then 1 else 0)
            && (forall i :: 0 <= i < k ==> ShowsEntity(w, path, path.nodes[i], ns[i]))
            && (path.evidence.Some? ==> ShowsEvidence(w, path, path.evidence.value, ns[k]))
  {
  }

  lemma EdgesMeaning(w: World, path: Path)
    ensures var es, k := NewEdges(w, path), |path.edges|;
            |es| == k + (if path.evidence.Some? && path.nodes != [] then 1 else 0)
            && (forall i :: 0 <= i < k ==> ShowsEdge(w, path, path.edges[i], es[i]))
            && (path.evidence.Some? && path.nodes != [] ==> ShowsVerification(path, path.evidence.value, es[k]))
  {
  }

  // ----- Nodes -----

  /** The last entity of the path with its id. */
  predicate LastEntity(path: Path, i: nat) {
    i < |path.nodes| && forall j :: i < j < |path.nodes| ==> path.nodes[j].id != path.nodes[i].id
  }

  lemma EntityIsNoEvidence(a: string, b: string)
    ensures "attack-entity:" + a != "attack-verification:" + b
  {
    assert ("attack-entity:" + a)[7] == 'e' && ("attack-verification:" + b)[7] == 'v';
  }

  lemma EntityIds(a: string, b: string)
    ensures "attack-entity:" + a == "attack-entity:" + b <==> a == b
  {
    assert ("attack-entity:" + a)[14..] == a && ("attack-entity:" + b)[14..] == b;
  }

  lemma LastAmongNew(w: World, path: Path, i: nat)
    requires i < |path.nodes|
    ensures var ns := NewNodes(w, path);
            (forall j :: i < j < |ns| ==> ns[j].id != ns[i].id) <==> LastEntity(path, i)
  {
    hide ShowsEntity, ShowsEvidence, NewNodes;
    NodesMeaning(w, path);
    var ns, k := NewNodes(w, path), |path.nodes|;
    forall j | i <= j < k ensures ns[j].id == ns[i].id <==> path.nodes[j].id == path.nodes[i].id {
      EntityHasId(w, path, path.nodes[i], ns[i]);
      EntityHasId(w, path, path.nodes[j], ns[j]);
      EntityIds(path.nodes[i].id, path.nodes[j].id);
    }
    if path.evidence.Some? {
      EntityHasId(w, path, path.nodes[i], ns[i]);
      EvidenceHasId(w, path, path.evidence.value, ns[k]);
      EntityIsNoEvidence(path.nodes[i].id, path.evidence.value.evidenceId);
    }
  }

  lemma NewAtIsShown(w: World, path: Path, n: Node, i: nat)
    ensures var ns, k := NewNodes(w, path), |path.nodes|;
            && (i < k ==> (ns[i] == n <==> ShowsEntity(w, path, path.nodes[i], n)))
            && (path.evidence.Some? ==> (ns[k] == n <==> ShowsEvidence(w, path, path.evidence.value, n)))
  {
    hide ShowsEntity, ShowsEvidence, NewNodes;
    NodesMeaning(w, path);
    var ns, k := NewNodes(w, path), |path.nodes|;
    if i < k && ShowsEntity(w, path, path.nodes[i], n) {
      OneEntityNode(w, path, path.nodes[i], n, ns[i]);
    }
    if path.evidence.Some? && ShowsEvidence(w, path, path.evidence.value, n) {
      OneEvidenceNode(w, path, path.evidence.value, n, ns[k]);
    }
  }

  lemma LastIsShown(w: World, path: Path, n: Node)
    requires IsLast(NewNodes(w, path), n)
    ensures (exists i: nat :: LastEntity(path, i) && ShowsEntity(w, path, path.nodes[i], n))
            || (path.evidence.Some? && ShowsEvidence(w, path, path.evidence.value, n))
  {
    hide ShowsEntity, ShowsEvidence, NewNodes;
    NodesMeaning(w, path);
    var ns, k := NewNodes(w, path), |path.nodes|;
    var i: nat :| i < |ns| && ns[i] == n && forall j :: i < j < |ns| ==> ns[j].id != n.id;
    NewAtIsShown(w, path, n, i);
    if i < k {
      LastAmongNew(w, path, i);
    }
  }

  lemma EntityIsLast(w: World, path: Path, n: Node, i: nat)
    requires LastEntity(path, i) && ShowsEntity(w, path, path.nodes[i], n)
    ensures IsLast(NewNodes(w, path), n)
  {
    hide ShowsEntity, ShowsEvidence, NewNodes;
    NodesMeaning(w, path);
    NewAtIsShown(w, path, n, i);
    LastAmongNew(w, path, i);
  }

  lemma EvidenceIsLast(w: World, path: Path, n: Node)
    requires path.evidence.Some? && ShowsEvidence(w, path, path.evidence.value, n)
    ensures IsLast(NewNodes(w, path), n)
  {
    hide ShowsEntity, ShowsEvidence, NewNodes;
    NodesMeaning(w, path);
    NewAtIsShown(w, path, n, 0);
    assert NewNodes(w, path)[|path.nodes|] == n;
  }

  /** Which new nodes are the last with their ids. */
  lemma LastNewNodes(w: World, path: Path, n: Node)
    ensures IsLast(NewNodes(w, path), n) <==>
      || (exists i: nat :: LastEntity(path, i) && ShowsEntity(w, path, path.nodes[i], n))
      || (path.evidence.Some? && ShowsEvidence(w, path, path.evidence.value, n))
  {
    hide ShowsEntity, ShowsEvidence, NewNodes, IsLast;
    if IsLast(NewNodes(w, path), n) {
      LastIsShown(w, path, n);
    }
    if i: nat :| LastEntity(path, i) && ShowsEntity(w, path, path.nodes[i], n) {
      EntityIsLast(w, path, n, i);
    }
    if path.evidence.Some? && ShowsEvidence(w, path, path.evidence.value, n) {
      EvidenceIsLast(w, path, n);
    }
  }

  lemma EntityHasId(w: World, path: Path, p: PathNode, n: Node)
    requires ShowsEntity(w, path, p, n)
    ensures n.id == "attack-entity:" + p.id
  {
  }

  lemma EvidenceHasId(w: World, path: Path, v: Evidence, n: Node)
    requires ShowsEvidence(w, path, v, n)
    ensures n.id == "attack-verification:" + v.evidenceId
  {
  }

  lemma OneEntityNode(w: World, path: Path, p: PathNode, m: Node, n: Node)
    requires ShowsEntity(w, path, p, m) && ShowsEntity(w, path, p, n)
    ensures m == n
  {
  }

  lemma OneEvidenceNode(w: World, path: Path, v: Evidence, m: Node, n: Node)
    requires ShowsEvidence(w, path, v, m) && ShowsEvidence(w, path, v, n)
    ensures m == n
  {
  }

  /** The nodes after linking are those of the path's entities, of each id the last, that of its evidence, and the earlier
      ones with other ids. */
  lemma NodesShown(w: World, path: Path, nodes: seq<Node>, edges: seq<Edge>, nodes': seq<Node>, edges': seq<Edge>, n: Node)
    requires Linked(w, path, nodes, edges, nodes', edges') && DistinctIds(nodes) && DistinctKeys(edges)
    ensures n in nodes' <==>
      || (exists i: nat :: LastEntity(path, i) && ShowsEntity(w, path, path.nodes[i], n))
      || (path.evidence.Some? && ShowsEvidence(w, path, path.evidence.value, n))
      || (n in nodes && (forall i :: 0 <= i < |path.nodes| ==> n.id != "attack-entity:" + path.nodes[i].id)
          && (path.evidence.Some? ==> n.id != "attack-verification:" + path.evidence.value.evidenceId))
  {
    hide Linked, NewNodes, ShowsEntity, ShowsEvidence, LastEntity, DistinctIds, DistinctKeys;
    LinkingKeeps(w, path, nodes, edges, nodes', edges');
    LastNewNodes(w, path, n);
    NewIds(w, path, n.id);
  }

  lemma NewIds(w: World, path: Path, id: string)
    ensures HasId(NewNodes(w, path), id) <==>
      || (exists i :: 0 <= i < |path.nodes| && id == "attack-entity:" + path.nodes[i].id)
      || (path.evidence.Some? && id == "attack-verification:" + path.evidence.value.evidenceId)
  {
    hide NewNodes;
    NodesMeaning(w, path);
    var ns, k := NewNodes(w, path), |path.nodes|;
    if i :| 0 <= i < k && id == "attack-entity:" + path.nodes[i].id {
      assert ns[i].id == id;
    }
    if path.evidence.Some? && id == "attack-verification:" + path.evidence.value.evidenceId {
      assert ns[k].id == id;
    }
  }

  // ----- Edges -----

  predicate SameEnds(a: Edge, b: Edge) {
    a.source == b.source && a.target == b.target && a.relation == b.relation
  }

  predicate NulFree(e: Edge) {
    '\0' !in e.source && '\0' !in e.target
  }

  lemma KeysTellEdgesApart(a: Edge, b: Edge)
    requires NulFree(a) && NulFree(b)
    ensures EdgeKey(a) == EdgeKey(b) <==> SameEnds(a, b)
  {
    if EdgeKey(a) == EdgeKey(b) {
      assert EdgeKey(a) == a.source + "\0" + (a.target + "\0" + a.relation);
      assert EdgeKey(b) == b.source + "\0" + (b.target + "\0" + b.relation);
      NulJoinInjective(a.source, b.source, a.target + "\0" + a.relation, b.target + "\0" + b.relation);
      NulJoinInjective(a.target, b.target, a.relation, b.relation);
    }
  }

  /** An edge the path asks for. */
  predicate Asked(w: World, path: Path, e: Edge) {
    || (exists i :: 0 <= i < |path.edges| && ShowsEdge(w, path, path.edges[i], e))
    || (path.evidence.Some? && ShowsVerification(path, path.evidence.value, e))
  }

  lemma AskedIsNew(w: World, path: Path, e: Edge)
    ensures e in NewEdges(w, path) <==> Asked(w, path, e)
  {
    hide NewEdges, ShowsEdge, ShowsVerification;
    EdgesMeaning(w, path);
    var es, k := NewEdges(w, path), |path.edges|;
    if e in es {
      var i :| 0 <= i < |es| && es[i] == e;
      if i == k {
        NonEmptyWhenVerified(w, path);
      }
    }
    if i :| 0 <= i < k && ShowsEdge(w, path, path.edges[i], e) {
      OneEdge(w, path, path.edges[i], e, es[i]);
      assert es[i] in es;
    }
    if path.evidence.Some? && ShowsVerification(path, path.evidence.value, e) {
      OneVerification(path, path.evidence.value, e);
      OneVerificationEdge(path, path.evidence.value, e, es[k]);
      assert es[k] in es;
    }
  }

  lemma NonEmptyWhenVerified(w: World, path: Path)
    ensures |NewEdges(w, path)| > |path.edges| ==> path.evidence.Some? && path.nodes != []
  {
  }

  lemma OneVerification(path: Path, v: Evidence, e: Edge)
    requires ShowsVerification(path, v, e)
    ensures path.nodes != []
  {
  }

  lemma OneEdge(w: World, path: Path, p: PathEdge, a: Edge, b: Edge)
    requires ShowsEdge(w, path, p, a) && ShowsEdge(w, path, p, b)
    ensures a == b
  {
  }

  lemma OneVerificationEdge(path: Path, v: Evidence, a: Edge, b: Edge)
    requires ShowsVerification(path, v, a) && ShowsVerification(path, v, b)
    ensures a == b
  {
  }

  /** After linking, every edge was there before or is one the path asks for; nothing that was there is gone; and whatever
      the path asks for is there, at least between the same ends with the same relation. */
  lemma EdgesShown(w: World, path: Path, nodes: seq<Node>, edges: seq<Edge>, nodes': seq<Node>, edges': seq<Edge>, e: Edge)
    requires Linked(w, path, nodes, edges, nodes', edges') && DistinctIds(nodes) && DistinctKeys(edges)
    requires (forall x :: x in edges ==> NulFree(x)) && forall x :: Asked(w, path, x) ==> NulFree(x)
    ensures e in edges ==> e in edges'
    ensures e in edges' ==> e in edges || Asked(w, path, e)
    ensures Asked(w, path, e) ==> exists x :: x in edges' && SameEnds(x, e)
    ensures e in edges' && e !in edges ==> forall x :: x in edges ==> !SameEnds(x, e)
  {
    hide Linked, NewEdges, NewNodes, Asked, DistinctIds, DistinctKeys, SameEnds, NulFree, EdgeKey, HasId;
    LinkingKeeps(w, path, nodes, edges, nodes', edges');
    forall x ensures x in NewEdges(w, path) <==> Asked(w, path, x) {
      AskedIsNew(w, path, x);
    }
    if e in edges' && e !in edges {
      NewIsFirst(edges, NewEdges(w, path), e);
      forall x | x in edges ensures !SameEnds(x, e) {
        KeysTellEdgesApart(x, e);
        KeyOfMember(edges, x);
      }
    }
    if Asked(w, path, e) {
      AskedIsThere(w, path, nodes, edges, nodes', edges', e);
    }
  }

  lemma KeyOfMember(edges: seq<Edge>, x: Edge)
    requires x in edges
    ensures HasKey(edges, EdgeKey(x))
  {
    hide EdgeKey;
    var i :| 0 <= i < |edges| && edges[i] == x;
    assert EdgeKey(edges[i]) == EdgeKey(x);
  }

  lemma NewIsFirst(edges: seq<Edge>, more: seq<Edge>, e: Edge)
    requires IsFirst(more, e) && !HasKey(edges, EdgeKey(e))
    ensures e in more
  {
  }

  lemma AskedIsThere(w: World, path: Path, nodes: seq<Node>, edges: seq<Edge>, nodes': seq<Node>, edges': seq<Edge>, e: Edge)
    requires Linked(w, path, nodes, edges, nodes', edges') && DistinctIds(nodes) && DistinctKeys(edges)
    requires (forall x :: x in edges ==> NulFree(x)) && (forall x :: x in NewEdges(w, path) ==> NulFree(x)) && e in NewEdges(w, path)
    ensures exists x :: x in edges' && SameEnds(x, e)
  {
    hide NewEdges, NewNodes, SameEnds, NulFree, EdgeKey, UpsertAll, AddAll;
    var news := NewEdges(w, path);
    AddAllMembers(edges, news);
    SameElements(edges', AddAll(edges, news));
    KeyOfMember(news, e);
    var all := AddAll(edges, news);
    assert HasKey(all, EdgeKey(e));
    var i :| 0 <= i < |all| && EdgeKey(all[i]) == EdgeKey(e);
    assert all[i] in all;
    FirstIsMember(news, all[i]);
    KeysTellEdgesApart(all[i], e);
  }

  lemma FirstIsMember(more: seq<Edge>, e: Edge)
    ensures IsFirst(more, e) ==> e in more
  {
  }
}
