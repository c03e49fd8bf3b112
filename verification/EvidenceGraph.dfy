/** Projecting an attack path into an evidence graph: nodes are inserted or overwritten by id, edges are added once by
    key, and both lists are sorted in place. */
module EvidenceGraphs {
  import opened Orders

  datatype Option<+T> = None | Some(value: T)

  datatype EvidenceState = Inferred | Observed | Verified

  datatype Node = Node(id: string, kind: string, refId: string, state: EvidenceState, detail: string)

  datatype Edge = Edge(source: string, target: string, relation: string, state: EvidenceState, rationale: string)

  datatype Confidence =
    | Hypothetical | StaticallySupported | DynamicallyTested | VerifiedExploitable | VerifiedBlocked | Inconclusive

  datatype PathNode = PathNode(id: string, kind: string, title: string)
  datatype PathEdge = PathEdge(source: string, target: string, kind: string)
  datatype Evidence = Evidence(evidenceId: string, scenarioId: string, evidenceDigest: string)

  datatype Path = Path(pathId: string, nodes: seq<PathNode>, edges: seq<PathEdge>, evidence: Option<Evidence>,
                       confidence: Confidence, confidenceReason: string)

  /** Lower-casing, the text of a confidence, and the digest of a graph. */
  datatype World = World(lower: string -> string, confidenceText: Confidence -> string, digest: (seq<Node>, seq<Edge>) -> string)

  function StateOf(c: Confidence): EvidenceState {
    match c
    case VerifiedExploitable => Verified
    case VerifiedBlocked => Verified
    case StaticallySupported => Observed
    case DynamicallyTested => Observed
    case _ => Inferred
  }

  // ----- What a path contributes -----

  function EntityId(id: string): string {
    "attack-entity:" + id
  }

  function EntityNode(w: World, path: Path, n: PathNode): Node {
    Node(EntityId(n.id), w.lower(n.kind), n.id, StateOf(path.confidence), n.title)
  }

  function EntityEdge(w: World, path: Path, e: PathEdge): Edge {
    Edge(EntityId(e.source), EntityId(e.target), w.lower(e.kind), StateOf(path.confidence),
         "attack path " + path.pathId + " (" + w.confidenceText(path.confidence) + ")")
  }

  function EvidenceNode(w: World, path: Path, v: Evidence): Node {
    Node("attack-verification:" + v.evidenceId, "attack-verification", v.scenarioId, StateOf(path.confidence),
         w.confidenceText(path.confidence) + " (" + v.evidenceDigest + ")")
  }

  function EvidenceEdge(path: Path, v: Evidence, last: PathNode): Edge {
    Edge("attack-verification:" + v.evidenceId, EntityId(last.id), "verifies-attack-path", StateOf(path.confidence),
         path.confidenceReason)
  }

  /** The nodes a path asks for, in the order in which they are inserted. */
  function NewNodes(w: World, path: Path): seq<Node> {
    seq(|path.nodes|, i requires 0 <= i < |path.nodes| => EntityNode(w, path, path.nodes[i]))
    + if path.evidence.Some? then [EvidenceNode(w, path, path.evidence.value)] else []
  }

  function NewEdges(w: World, path: Path): seq<Edge> {
    seq(|path.edges|, i requires 0 <= i < |path.edges| => EntityEdge(w, path, path.edges[i]))
    + if path.evidence.Some? && path.nodes != [] then [EvidenceEdge(path, path.evidence.value, path.nodes[|path.nodes| - 1])] else []
  }

  // ----- Inserting -----

  predicate HasId(nodes: seq<Node>, id: string) {
    exists i :: 0 <= i < |nodes| && nodes[i].id == id
  }

  /** Overwrites the last node with this id, or appends. */
  function Upsert(nodes: seq<Node>, n: Node): seq<Node> {
    if nodes == [] then [n]
    else
      var k := |nodes| - 1;
      if nodes[k].id == n.id then nodes[..k] + [n]
      else if HasId(nodes[..k], n.id) then Upsert(nodes[..k], n) + [nodes[k]]
      else nodes + [n]
  }

  function UpsertAll(nodes: seq<Node>, more: seq<Node>): seq<Node> {
    if more == [] then nodes else Upsert(UpsertAll(nodes, more[..|more| - 1]), more[|more| - 1])
  }

  function EdgeKey(e: Edge): string {
    e.source + "\0" + e.target + "\0" + e.relation
  }

  predicate HasKey(edges: seq<Edge>, key: string) {
    exists i :: 0 <= i < |edges| && EdgeKey(edges[i]) == key
  }

  function WithEdge(edges: seq<Edge>, e: Edge): seq<Edge> {
    if HasKey(edges, EdgeKey(e)) then edges else edges + [e]
  }

  function AddAll(edges: seq<Edge>, more: seq<Edge>): seq<Edge> {
    if more == [] then edges else WithEdge(AddAll(edges, more[..|more| - 1]), more[|more| - 1])
  }

  function NodeOrder(n: Node): Key { [n.id] }

  function EdgeOrder(e: Edge): Key { [e.source, e.target, e.relation] }

  /** What linking does to the two lists. */
  ghost predicate Linked(w: World, path: Path, nodes: seq<Node>, edges: seq<Edge>, nodes': seq<Node>,
                         edges': seq<Edge>) {
    IsSortOf(NodeOrder, UpsertAll(nodes, NewNodes(w, path)), nodes') && IsSortOf(EdgeOrder, AddAll(edges, NewEdges(w, path)), edges')
  }

  // ----- The index -----

  /** The id-to-index map points every id at its last node and knows no other id. */
  ghost predicate IndexAgrees(nodes: seq<Node>, index: map<string, nat>) {
    (forall i :: 0 <= i < |nodes| ==> nodes[i].id in index && i <= index[nodes[i].id])
    && (forall id :: id in index ==> index[id] < |nodes| && nodes[index[id]].id == id)
  }

  lemma {:induction false} UpsertByIndex(nodes: seq<Node>, index: map<string, nat>, n: Node)
    requires IndexAgrees(nodes, index)
    ensures n.id in index ==> Upsert(nodes, n) == nodes[index[n.id] := n] && IndexAgrees(Upsert(nodes, n), index)
    ensures n.id !in index ==> Upsert(nodes, n) == nodes + [n] && IndexAgrees(Upsert(nodes, n), index[n.id := |nodes|])
  {
    if n.id in index {
      UpsertAt(nodes, n, index[n.id]);
    } else {
      UpsertNew(nodes, n);
    }
  }

  lemma {:induction false} UpsertAt(nodes: seq<Node>, n: Node, k: nat)
    requires k < |nodes| && nodes[k].id == n.id && forall i :: k < i < |nodes| ==> nodes[i].id != n.id
    ensures Upsert(nodes, n) == nodes[k := n]
  {
    var last := |nodes| - 1;
    if k < last {
      UpsertAt(nodes[..last], n, k);
      assert nodes[..last][k].id == n.id;
    }
  }

  lemma UpsertNew(nodes: seq<Node>, n: Node)
    requires !HasId(nodes, n.id)
    ensures Upsert(nodes, n) == nodes + [n]
  {
    if nodes != [] {
      var last := |nodes| - 1;
      assert forall i :: 0 <= i < last ==> nodes[..last][i] == nodes[i];
    }
  }

  // ----- The graph object -----

  class EvidenceGraph {
    var nodes: seq<Node>
    var edges: seq<Edge>
    var digest: string

    constructor ()
      ensures nodes == [] && edges == []
    {
      nodes, edges, digest := [], [], "";
    }

    method UpsertNode(n: Node, seenNodes: map<string, nat>) returns (seenNodes': map<string, nat>)
      requires IndexAgrees(nodes, seenNodes)
      modifies this`nodes
      ensures nodes == Upsert(old(nodes), n) && IndexAgrees(nodes, seenNodes')
    {
      UpsertByIndex(nodes, seenNodes, n);
      if n.id in seenNodes {
        nodes := nodes[seenNodes[n.id] := n];
        seenNodes' := seenNodes;
      } else {
        seenNodes' := seenNodes[n.id := |nodes|];
        nodes := nodes + [n];
      }
    }

    method AddEdge(e: Edge, seenEdges: set<string>) returns (seenEdges': set<string>)
      requires forall k :: k in seenEdges <==> HasKey(edges, k)
      modifies this`edges
      ensures edges == WithEdge(old(edges), e) && forall k :: k in seenEdges' <==> HasKey(edges, k)
    {
      seenEdges' := seenEdges;
      var key := EdgeKey(e);
      if key !in seenEdges {
        seenEdges' := seenEdges + {key};
        KeysAfterAppend(edges, e);
        edges := edges + [e];
      }
    }
  }

  lemma KeysAfterAppend(edges: seq<Edge>, e: Edge)
    ensures forall k :: HasKey(edges + [e], k) <==> HasKey(edges, k) || k == EdgeKey(e)
  {
    hide EdgeKey;
    var all := edges + [e];
    forall k ensures HasKey(all, k) <==> HasKey(edges, k) || k == EdgeKey(e) {
      if HasKey(edges, k) {
        var i :| 0 <= i < |edges| && EdgeKey(edges[i]) == k;
        assert EdgeKey(all[i]) == k;
      }
      assert EdgeKey(all[|edges|]) == EdgeKey(e);
    }
  }

  method LinkAttackPathToEvidenceGraph(w: World, graph: EvidenceGraph?, path: Path) returns (g: EvidenceGraph)
    modifies graph
    ensures graph != null ==> g == graph
    ensures graph == null ==> fresh(g)
    ensures Linked(w, path, if graph == null then [] else old(graph.nodes), if graph == null then [] else old(graph.edges), g.nodes, g.edges)
    ensures g.digest == w.digest(g.nodes, g.edges)
  {
    hide Upsert, HasId, HasKey, EdgeKey, KeyLeq, IndexAgrees;
    if graph == null {
      g := new EvidenceGraph();
    } else {
      g := graph;
    }
    ghost var nodes0, edges0 := g.nodes, g.edges;
    var seenNodes := IndexOf(g.nodes);
    for i := 0 to |path.nodes|
      invariant IndexAgrees(g.nodes, seenNodes) && g.edges == edges0
      invariant g.nodes == UpsertAll(nodes0, NewNodes(w, path)[..i])
    {
      assert NewNodes(w, path)[..i + 1][..i] == NewNodes(w, path)[..i];
      seenNodes := g.UpsertNode(EntityNode(w, path, path.nodes[i]), seenNodes);
    }
    var seenEdges := KeysOf(g.edges);
    for i := 0 to |path.edges|
      invariant forall k :: k in seenEdges <==> HasKey(g.edges, k)
      invariant IndexAgrees(g.nodes, seenNodes) && g.nodes == UpsertAll(nodes0, NewNodes(w, path)[..|path.nodes|])
      invariant g.edges == AddAll(edges0, NewEdges(w, path)[..i])
    {
      assert NewEdges(w, path)[..i + 1][..i] == NewEdges(w, path)[..i];
      seenEdges := g.AddEdge(EntityEdge(w, path, path.edges[i]), seenEdges);
    }
    if path.evidence.Some? {
      seenNodes := g.UpsertNode(EvidenceNode(w, path, path.evidence.value), seenNodes);
      if path.nodes != [] {
        seenEdges := g.AddEdge(EvidenceEdge(path, path.evidence.value, path.nodes[|path.nodes| - 1]), seenEdges);
      }
    }
    NewSplit(w, path);
    assert g.nodes == UpsertAll(nodes0, NewNodes(w, path));
    assert g.edges == AddAll(edges0, NewEdges(w, path));
    g.nodes := Sort(NodeOrder, g.nodes);
    g.edges := Sort(EdgeOrder, g.edges);
    g.digest := w.digest(g.nodes, g.edges);
  }

  lemma NewSplit(w: World, path: Path)
    ensures var ns, k := NewNodes(w, path), |path.nodes|;
            if path.evidence.Some? then |ns| == k + 1 && ns[k] == EvidenceNode(w, path, path.evidence.value) else |ns| == k
    ensures var es, k := NewEdges(w, path), |path.edges|;
            if path.evidence.Some? && path.nodes != []
            then |es| == k + 1 && es[k] == EvidenceEdge(path, path.evidence.value, path.nodes[|path.nodes| - 1]) else |es| == k
    ensures NewNodes(w, path)[..|NewNodes(w, path)|] == NewNodes(w, path) && NewEdges(w, path)[..|NewEdges(w, path)|] == NewEdges(w, path)
  {
  }

  method IndexOf(nodes: seq<Node>) returns (index: map<string, nat>)
    ensures IndexAgrees(nodes, index)
  {
    index := map[];
    for i := 0 to |nodes|
      invariant IndexAgrees(nodes[..i], index)
    {
      index := index[nodes[i].id := i];
    }
    assert nodes[..|nodes|] == nodes;
  }

  method KeysOf(edges: seq<Edge>) returns (keys: set<string>)
    ensures forall k :: k in keys <==> HasKey(edges, k)
  {
    keys := {};
    for i := 0 to |edges|
      invariant forall k :: k in keys <==> HasKey(edges[..i], k)
    {
      KeysAfterAppend(edges[..i], edges[i]);
      assert edges[..i + 1] == edges[..i] + [edges[i]];
      keys := keys + {EdgeKey(edges[i])};
    }
    assert edges[..|edges|] == edges;
  }
}
