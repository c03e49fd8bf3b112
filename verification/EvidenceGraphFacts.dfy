/** What linking keeps: distinct sorted ids and keys, every earlier edge, every earlier id; and linking twice is linking
    once. */
module EvidenceGraphFacts {
  import opened Orders
  import opened EvidenceGraphs

  ghost predicate DistinctIds(nodes: seq<Node>) {
    forall i, j :: 0 <= i < j < |nodes| ==> nodes[i].id != nodes[j].id
  }

  ghost predicate DistinctKeys(edges: seq<Edge>) {
    forall i, j :: 0 <= i < j < |edges| ==> EdgeKey(edges[i]) != EdgeKey(edges[j])
  }

  /** The last node with its id. */
  ghost predicate IsLast(nodes: seq<Node>, n: Node) {
    exists i :: 0 <= i < |nodes| && nodes[i] == n && forall j :: i < j < |nodes| ==> nodes[j].id != n.id
  }

  /** The first edge with its key. */
  ghost predicate IsFirst(edges: seq<Edge>, e: Edge) {
    exists i :: 0 <= i < |edges| && edges[i] == e && forall j :: 0 <= j < i ==> EdgeKey(edges[j]) != EdgeKey(e)
  }

  // ----- Nodes -----

  lemma HasIdMember(nodes: seq<Node>, id: string)
    ensures HasId(nodes, id) <==> exists n :: n in nodes && n.id == id
  {
    if HasId(nodes, id) {
      var i :| 0 <= i < |nodes| && nodes[i].id == id;
      assert nodes[i] in nodes;
    }
    if n :| n in nodes && n.id == id {
      var i :| 0 <= i < |nodes| && nodes[i] == n;
    }
  }

  lemma IndexFor(nodes: seq<Node>) returns (index: map<string, nat>)
    requires DistinctIds(nodes)
    ensures IndexAgrees(nodes, index)
  {
    index := map[];
    for i := 0 to |nodes|
      invariant IndexAgrees(nodes[..i], index)
    {
      index := index[nodes[i].id := i];
    }
    assert nodes[..|nodes|] == nodes;
  }

  lemma UpsertMembers(nodes: seq<Node>, n: Node)
    requires DistinctIds(nodes)
    ensures DistinctIds(Upsert(nodes, n))
    ensures forall x :: x in Upsert(nodes, n) <==> x == n || (x in nodes && x.id != n.id)
  {
    hide Upsert;
    var index := IndexFor(nodes);
    UpsertByIndex(nodes, index, n);
    var after := Upsert(nodes, n);
    forall x ensures x in after <==> x == n || (x in nodes && x.id != n.id) {
      if x in after {
        var i :| 0 <= i < |after| && after[i] == x;
      }
      if x in nodes && x.id != n.id {
        var i :| 0 <= i < |nodes| && nodes[i] == x;
        assert after[i] == x;
      }
      if n.id in index {
        assert after[index[n.id]] == n;
      } else {
        assert after[|nodes|] == n;
      }
    }
  }

  /** After inserting, a node is there exactly if it is the last one asked for under its id, or an old one that was not
      asked for at all. */
  lemma {:induction false} UpsertAllMembers(nodes: seq<Node>, more: seq<Node>)
    requires DistinctIds(nodes)
    ensures DistinctIds(UpsertAll(nodes, more))
    ensures forall x :: x in UpsertAll(nodes, more) <==> IsLast(more, x) || (x in nodes && !HasId(more, x.id))
    decreases |more|
  {
    hide Upsert, DistinctIds, HasId, IsLast;
    if more == [] {
      forall x ensures !IsLast(more, x) && !HasId(more, x.id) {
        LastOfNone(x);
      }
    } else {
      var k := |more| - 1;
      UpsertAllMembers(nodes, more[..k]);
      UpsertMembers(UpsertAll(nodes, more[..k]), more[k]);
      forall x ensures IsLast(more, x) <==> x == more[k] || (IsLast(more[..k], x) && x.id != more[k].id) {
        LastExtend(more, x);
      }
      forall x: Node ensures HasId(more, x.id) <==> HasId(more[..k], x.id) || x.id == more[k].id {
        HasIdExtend(more, x.id);
      }
    }
  }

  lemma LastOfNone(x: Node)
    ensures !IsLast([], x) && !HasId([], x.id)
  {
  }

  lemma LastExtend(more: seq<Node>, x: Node)
    requires more != []
    ensures var k := |more| - 1; IsLast(more, x) <==> x == more[k] || (IsLast(more[..k], x) && x.id != more[k].id)
  {
    var k := |more| - 1;
    var head := more[..k];
    if x == more[k] {
      assert IsLast(more, x);
    }
    if IsLast(more, x) && x != more[k] {
      var i :| 0 <= i < |more| && more[i] == x && forall j :: i < j < |more| ==> more[j].id != x.id;
      assert head[i] == x && forall j :: i < j < k ==> head[j].id != x.id;
    }
    if IsLast(head, x) && x.id != more[k].id {
      var i :| 0 <= i < |head| && head[i] == x && forall j :: i < j < |head| ==> head[j].id != x.id;
      forall j | i < j < |more| ensures more[j].id != x.id {
        if j < k {
          assert more[j] == head[j];
        }
      }
      assert more[i] == x;
    }
  }

  lemma HasIdExtend(more: seq<Node>, id: string)
    requires more != []
    ensures var k := |more| - 1; HasId(more, id) <==> HasId(more[..k], id) || id == more[k].id
  {
    var k := |more| - 1;
    if HasId(more, id) && id != more[k].id {
      var i :| 0 <= i < |more| && more[i].id == id;
      assert more[..k][i].id == id;
    }
    if HasId(more[..k], id) {
      var i :| 0 <= i < k && more[..k][i].id == id;
      assert more[i].id == id;
    }
  }

  // ----- Edges -----

  lemma WithEdgeMembers(edges: seq<Edge>, e: Edge)
    ensures DistinctKeys(edges) ==> DistinctKeys(WithEdge(edges, e))
    ensures forall x :: x in WithEdge(edges, e) <==> x in edges || (x == e && !HasKey(edges, EdgeKey(e)))
    ensures forall k :: HasKey(WithEdge(edges, e), k) <==> HasKey(edges, k) || k == EdgeKey(e)
  {
    hide EdgeKey;
    KeysAfterAppend(edges, e);
    if DistinctKeys(edges) && !HasKey(edges, EdgeKey(e)) {
      assert forall i :: 0 <= i < |edges| ==> EdgeKey(edges[i]) != EdgeKey(e);
    }
  }

  /** After adding, an edge is there exactly if it was there before, or is the first one asked for under a new key. */
  lemma {:induction false} AddAllMembers(edges: seq<Edge>, more: seq<Edge>)
    ensures DistinctKeys(edges) ==> DistinctKeys(AddAll(edges, more))
    ensures forall x :: x in AddAll(edges, more) <==> x in edges || (IsFirst(more, x) && !HasKey(edges, EdgeKey(x)))
    ensures forall k :: HasKey(AddAll(edges, more), k) <==> HasKey(edges, k) || HasKey(more, k)
    decreases |more|
  {
    hide WithEdge, EdgeKey, HasKey, IsFirst, DistinctKeys;
    if more == [] {
      forall x: Edge ensures !IsFirst(more, x) {
        FirstOfNone(x);
      }
      forall k ensures !HasKey(more, k) {
        NoKeys(k);
      }
    } else {
      var n := |more| - 1;
      AddAllMembers(edges, more[..n]);
      WithEdgeMembers(AddAll(edges, more[..n]), more[n]);
      assert more == more[..n] + [more[n]];
      KeysAfterAppend(more[..n], more[n]);
      forall x ensures IsFirst(more, x) <==> IsFirst(more[..n], x) || (x == more[n] && !HasKey(more[..n], EdgeKey(x))) {
        FirstExtend(more, x);
      }
    }
  }

  lemma FirstOfNone(x: Edge)
    ensures !IsFirst([], x)
  {
  }

  lemma NoKeys(k: string)
    ensures !HasKey([], k)
  {
  }

  lemma FirstExtend(more: seq<Edge>, x: Edge)
    requires more != []
    ensures var n := |more| - 1; IsFirst(more, x) <==> IsFirst(more[..n], x) || (x == more[n] && !HasKey(more[..n], EdgeKey(x)))
  {
    hide EdgeKey;
    var n := |more| - 1;
    var head := more[..n];
    if IsFirst(more, x) {
      var i :| 0 <= i < |more| && more[i] == x && forall j :: 0 <= j < i ==> EdgeKey(more[j]) != EdgeKey(x);
      if i < n {
        assert head[i] == x && forall j :: 0 <= j < i ==> EdgeKey(head[j]) != EdgeKey(x);
      } else {
        assert forall j :: 0 <= j < n ==> EdgeKey(head[j]) != EdgeKey(x);
      }
    }
    if IsFirst(head, x) {
      var i :| 0 <= i < |head| && head[i] == x && forall j :: 0 <= j < i ==> EdgeKey(head[j]) != EdgeKey(x);
      assert more[i] == x && forall j :: 0 <= j < i ==> EdgeKey(more[j]) != EdgeKey(x);
    }
    if x == more[n] && !HasKey(head, EdgeKey(x)) {
      assert forall j :: 0 <= j < n ==> EdgeKey(more[j]) == EdgeKey(head[j]);
    }
  }

  lemma {:induction false} AddAllKnown(edges: seq<Edge>, more: seq<Edge>)
    requires forall i :: 0 <= i < |more| ==> HasKey(edges, EdgeKey(more[i]))
    ensures AddAll(edges, more) == edges
    decreases |more|
  {
    hide EdgeKey, HasKey;
    if more != [] {
      AddAllKnown(edges, more[..|more| - 1]);
    }
  }

  // ----- Sorted lists -----

  lemma IdsPermuted(a: seq<Node>, b: seq<Node>)
    requires DistinctIds(a) && multiset(a) == multiset(b)
    ensures DistinctIds(b)
  {
    assert Distinct(a);
    DistinctPermuted(a, b);
    SameElements(a, b);
    forall i, j | 0 <= i < j < |b| ensures b[i].id != b[j].id {
      assert b[i] in a && b[j] in a && b[i] != b[j];
    }
  }

  lemma KeysPermuted(a: seq<Edge>, b: seq<Edge>)
    requires DistinctKeys(a) && multiset(a) == multiset(b)
    ensures DistinctKeys(b)
  {
    hide EdgeKey;
    assert Distinct(a);
    DistinctPermuted(a, b);
    SameElements(a, b);
    forall i, j | 0 <= i < j < |b| ensures EdgeKey(b[i]) != EdgeKey(b[j]) {
      assert b[i] in a && b[j] in a && b[i] != b[j];
    }
  }

  lemma NodesTieFree(nodes: seq<Node>)
    requires DistinctIds(nodes)
    ensures TieFree(NodeOrder, nodes) && Distinct(nodes)
  {
    forall x, y | x in nodes && y in nodes && NodeOrder(x) == NodeOrder(y) ensures x == y {
      assert NodeOrder(x)[0] == NodeOrder(y)[0];
    }
  }

  lemma EdgesTieFree(edges: seq<Edge>)
    requires DistinctKeys(edges)
    ensures TieFree(EdgeOrder, edges)
  {
    forall x, y | x in edges && y in edges && EdgeOrder(x) == EdgeOrder(y) ensures x == y {
      var a, b := EdgeOrder(x), EdgeOrder(y);
      assert a[0] == b[0] && a[1] == b[1] && a[2] == b[2];
      assert EdgeKey(x) == EdgeKey(y);
    }
  }

  // ----- Linking -----

  /** Distinct ids and keys, both lists in order. */
  ghost predicate WellKept(nodes: seq<Node>, edges: seq<Edge>) {
    DistinctIds(nodes) && DistinctKeys(edges) && Ordered(NodeOrder, nodes) && Ordered(EdgeOrder, edges)
  }

  /** Linking keeps ids and keys distinct and sorts them; keeps every earlier edge as it was and every earlier id;
      changes no node the path does not name; and adds what the path asks for, the last node per id and the first edge
      per new key. */
  lemma LinkingKeeps(w: World, path: Path, nodes: seq<Node>, edges: seq<Edge>, nodes': seq<Node>, edges': seq<Edge>)
    requires Linked(w, path, nodes, edges, nodes', edges') && DistinctIds(nodes) && DistinctKeys(edges)
    ensures WellKept(nodes', edges')
    ensures forall e :: e in edges ==> e in edges'
    ensures forall n :: n in nodes ==> HasId(nodes', n.id)
    ensures forall n :: n in nodes && !HasId(NewNodes(w, path), n.id) ==> n in nodes'
    ensures forall n :: n in nodes' <==> IsLast(NewNodes(w, path), n) || (n in nodes && !HasId(NewNodes(w, path), n.id))
    ensures forall e :: e in edges' <==> e in edges || (IsFirst(NewEdges(w, path), e) && !HasKey(edges, EdgeKey(e)))
  {
    hide Upsert, HasKey, EdgeKey, KeyLeq, HasId, IsLast, IsFirst, DistinctIds, DistinctKeys, NewNodes, NewEdges, Ordered, UpsertAll, AddAll;
    var ns, es := NewNodes(w, path), NewEdges(w, path);
    UpsertAllMembers(nodes, ns);
    AddAllMembers(edges, es);
    IdsPermuted(UpsertAll(nodes, ns), nodes');
    KeysPermuted(AddAll(edges, es), edges');
    SameElements(UpsertAll(nodes, ns), nodes');
    SameElements(AddAll(edges, es), edges');
    forall n | n in nodes ensures HasId(nodes', n.id) {
      HasIdMember(nodes', n.id);
      if HasId(ns, n.id) {
        var last := LastWithId(ns, n.id);
      }
    }
  }

  lemma {:induction false} LastWithId(nodes: seq<Node>, id: string) returns (n: Node)
    requires HasId(nodes, id)
    ensures IsLast(nodes, n) && n.id == id
  {
    hide IsLast, HasId;
    HasIdMember(nodes, id);
    assert nodes != [];
    var k := |nodes| - 1;
    if nodes[k].id == id {
      n := nodes[k];
    } else {
      HasIdExtend(nodes, id);
      n := LastWithId(nodes[..k], id);
    }
    LastExtend(nodes, n);
  }

  /** Linking the same path again changes nothing, and so neither does it change the digest. */
  lemma LinkingTwiceIsLinkingOnce(w: World, path: Path, nodes: seq<Node>, edges: seq<Edge>, nodes': seq<Node>,
                                  edges': seq<Edge>,
                                  nodes'': seq<Node>, edges'': seq<Edge>)
    requires DistinctIds(nodes) && DistinctKeys(edges)
    requires Linked(w, path, nodes, edges, nodes', edges') && Linked(w, path, nodes', edges', nodes'', edges'')
    ensures nodes'' == nodes' && edges'' == edges'
  {
    hide Upsert, HasKey, EdgeKey, KeyLeq, HasId, IsLast, IsFirst, DistinctIds, DistinctKeys, NewNodes, NewEdges, Ordered, UpsertAll, AddAll;
    LinkingKeeps(w, path, nodes, edges, nodes', edges');
    LinkingKeeps(w, path, nodes', edges', nodes'', edges'');
    SameNodes(w, path, nodes, nodes', nodes'');
    SameEdges(w, path, edges, edges', edges'');
  }

  lemma SameNodes(w: World, path: Path, nodes: seq<Node>, nodes': seq<Node>, nodes'': seq<Node>)
    requires DistinctIds(nodes') && DistinctIds(nodes'') && Ordered(NodeOrder, nodes') && Ordered(NodeOrder, nodes'')
    requires forall n :: n in nodes' <==> IsLast(NewNodes(w, path), n) || (n in nodes && !HasId(NewNodes(w, path), n.id))
    requires forall n :: n in nodes'' <==> IsLast(NewNodes(w, path), n) || (n in nodes' && !HasId(NewNodes(w, path), n.id))
    ensures nodes'' == nodes'
  {
    hide IsLast, HasId, NewNodes, Ordered, DistinctIds;
    var news := NewNodes(w, path);
    forall n | IsLast(news, n) ensures HasId(news, n.id) {
      LastHasId(news, n);
    }
    NodesTieFree(nodes');
    NodesTieFree(nodes'');
    DistinctSameElements(nodes', nodes'');
    SortUnique(NodeOrder, nodes', nodes'');
  }

  lemma LastHasId(nodes: seq<Node>, n: Node)
    requires IsLast(nodes, n)
    ensures HasId(nodes, n.id)
  {
  }

  lemma SameEdges(w: World, path: Path, edges: seq<Edge>, edges': seq<Edge>, edges'': seq<Edge>)
    requires DistinctKeys(edges') && Ordered(EdgeOrder, edges')
    requires IsSortOf(EdgeOrder, AddAll(edges, NewEdges(w, path)), edges') && IsSortOf(EdgeOrder, AddAll(edges', NewEdges(w, path)), edges'')
    ensures edges'' == edges'
  {
    hide AddAll, NewEdges, Ordered, EdgeKey, HasKey, DistinctKeys;
    var news, all := NewEdges(w, path), AddAll(edges, NewEdges(w, path));
    AddAllMembers(edges, news);
    SameElements(all, edges');
    forall i | 0 <= i < |news| ensures HasKey(edges', EdgeKey(news[i])) {
      KeyIn(news, i);
      SameKeys(all, edges', EdgeKey(news[i]));
    }
    AddAllKnown(edges', news);
    EdgesTieFree(edges');
    SortUnique(EdgeOrder, edges', edges'');
  }

  lemma KeyIn(edges: seq<Edge>, i: nat)
    requires i < |edges|
    ensures HasKey(edges, EdgeKey(edges[i]))
  {
  }

  lemma SameKeys(a: seq<Edge>, b: seq<Edge>, key: string)
    requires HasKey(a, key) && forall e :: e in a <==> e in b
    ensures HasKey(b, key)
  {
    hide EdgeKey;
    var i :| 0 <= i < |a| && EdgeKey(a[i]) == key;
    assert a[i] in b;
    var j :| 0 <= j < |b| && b[j] == a[i];
  }

  // ----- Every run -----

  datatype Snapshot = Snapshot(nodes: seq<Node>, edges: seq<Edge>)

  /** A graph that started empty and had these paths linked into it, one after the other. */
  ghost predicate Run(w: World, paths: seq<Path>, states: seq<Snapshot>) {
    |states| == |paths| + 1 && states[0] == Snapshot([], [])
    && forall k :: 0 <= k < |paths| ==> Linked(w, paths[k], states[k].nodes, states[k].edges, states[k + 1].nodes, states[k + 1].edges)
  }

  /** A graph built by linking is well kept at every moment, and an edge once in it stays unchanged to the end. */
  lemma {:induction false} EveryRunIsWellKept(w: World, paths: seq<Path>, states: seq<Snapshot>, i: nat, j: nat)
    requires Run(w, paths, states) && i <= j < |states|
    ensures WellKept(states[j].nodes, states[j].edges)
    ensures forall e :: e in states[i].edges ==> e in states[j].edges
    ensures forall n :: n in states[i].nodes ==> HasId(states[j].nodes, n.id)
    decreases j
  {
    hide Linked, HasId, DistinctIds, DistinctKeys, Ordered;
    if j == 0 {
      EmptyIsWellKept();
    } else {
      var k := j - 1;
      EveryRunIsWellKept(w, paths, states, if i < j then i else k, k);
      LinkingKeeps(w, paths[k], states[k].nodes, states[k].edges, states[j].nodes, states[j].edges);
    }
    if i == j {
      forall n | n in states[i].nodes ensures HasId(states[j].nodes, n.id) {
        HasIdMember(states[j].nodes, n.id);
      }
    } else {
      forall n | n in states[i].nodes ensures HasId(states[j].nodes, n.id) {
        HasIdMember(states[j - 1].nodes, n.id);
        var m :| m in states[j - 1].nodes && m.id == n.id;
      }
    }
  }

  lemma EmptyIsWellKept()
    ensures WellKept([], [])
  {
  }
}
