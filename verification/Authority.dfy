/** Transitive capability escalation over the authority graph: a breadth-first search bounded in depth. */
module Authority {
  import opened Orders

  datatype Relation =
    | DelegatesTo | CanInvoke | AuthorizedFor | DeniedFor | Executes | Controls | Calls | OtherRelation(name: string)

  datatype EvidenceRef = EvidenceRef(id: string, artifact: string, location: string)

  datatype Edge = Edge(from: string, to: string, relation: Relation, capability: string, evidence: EvidenceRef)

  datatype AuthorityGraph = AuthorityGraph(principals: nat, edges: seq<Edge>, maxNodes: int, maxEdges: int, maxDepth: int)

  datatype Escalation = Escalation(principal: string, capability: string, path: seq<string>, evidence: seq<EvidenceRef>)

  datatype Result<+V> = BudgetExhausted | Reports(value: V)

  function OrDefault(limit: int, default: nat): nat {
    if limit <= 0 then default else limit
  }

  /** An edge the search may follow: evidence-backed and of a kind that passes authority on. */
  predicate Traverses(e: Edge) {
    && e.evidence.id != ""
    && (e.relation.DelegatesTo? || e.relation.CanInvoke? || e.relation.Calls? || e.relation.Controls? || e.relation.Executes?)
  }

  /** An evidence-backed authorization of a denied capability. */
  predicate Grants(e: Edge, denied: set<string>) {
    e.evidence.id != "" && e.relation.AuthorizedFor? && e.capability in denied
  }

  function Elements(denied: seq<string>): set<string> { set c | c in denied }

  // ----- Walks -----

  ghost predicate Hop(edges: seq<Edge>, from: string, to: string, evidence: EvidenceRef) {
    exists e :: e in edges && Traverses(e) && e.from == from && e.to == to && e.evidence == evidence
  }

  /** `path` follows traversable edges, backed hop by hop by `evidence`. */
  ghost predicate IsWalk(edges: seq<Edge>, path: seq<string>, evidence: seq<EvidenceRef>) {
    && |path| == |evidence| + 1
    && forall i :: 0 <= i < |evidence| ==> Hop(edges, path[i], path[i + 1], evidence[i])
  }

  /** `id` can be reached from `root` in exactly `n` traversable edges. */
  ghost predicate ReachIn(edges: seq<Edge>, root: string, id: string, n: nat) {
    exists path, evidence :: IsWalk(edges, path, evidence) && |evidence| == n && path[0] == root && path[n] == id
  }

  /** `r` reports edge `e`: a walk from the root to the edge's source, as short as any, and then the edge itself. */
  ghost predicate Explains(edges: seq<Edge>, root: string, e: Edge, r: Escalation) {
    && r.principal == root && r.capability == e.capability
    && |r.path| >= 2 && |r.evidence| == |r.path| - 1
    && r.path[|r.path| - 2..] == [e.from, e.to] && r.evidence[|r.evidence| - 1] == e.evidence
    && r.path[0] == root
    && IsWalk(edges, r.path[..|r.path| - 1], r.evidence[..|r.evidence| - 1])
    && forall n :: ReachIn(edges, root, e.from, n) ==> |r.path| - 2 <= n
  }

  lemma WalkSnoc(edges: seq<Edge>, path: seq<string>, evidence: seq<EvidenceRef>, e: Edge)
    requires IsWalk(edges, path, evidence) && e in edges && Traverses(e) && path[|path| - 1] == e.from
    ensures IsWalk(edges, path + [e.to], evidence + [e.evidence])
  {
    var p, v := path + [e.to], evidence + [e.evidence];
    forall i | 0 <= i < |v| ensures Hop(edges, p[i], p[i + 1], v[i]) {
      if i < |evidence| {
        assert Hop(edges, path[i], path[i + 1], evidence[i]);
      }
    }
  }

  // ----- The search -----

  datatype State = State(id: string, path: seq<string>, evidence: seq<EvidenceRef>, depth: nat)

  datatype Found = Found(edge: nat, report: Escalation)

  function Report(root: string, s: State, e: Edge): Escalation {
    Escalation(root, e.capability, s.path + [e.to], s.evidence + [e.evidence])
  }

  ghost predicate GoodState(edges: seq<Edge>, root: string, s: State) {
    && IsWalk(edges, s.path, s.evidence) && s.path[0] == root && s.path[|s.path| - 1] == s.id
    && s.depth == |s.evidence|
  }

  ghost predicate HasId(all: seq<State>, id: string) {
    exists i :: 0 <= i < |all| && all[i].id == id
  }

  /** The depths recorded are those of the states enqueued. */
  ghost predicate SeenMatches(all: seq<State>, seen: map<string, nat>) {
    && (forall i :: 0 <= i < |all| ==> all[i].id in seen && seen[all[i].id] == all[i].depth)
    && (forall x :: x in seen ==> HasId(all, x))
  }

  /** No node twice, depths never falling and never more than one above the depth of the state at `h`. */
  ghost predicate InOrder(all: seq<State>, h: nat) {
    && (forall i, j :: 0 <= i < j < |all| ==> all[i].id != all[j].id && all[i].depth <= all[j].depth)
    && (h < |all| ==> all[|all| - 1].depth <= all[h].depth + 1)
  }

  /** The states enqueued so far: a walk each, starting from the root. */
  ghost predicate Enqueued(edges: seq<Edge>, root: string, all: seq<State>, h: nat, seen: map<string, nat>) {
    && all != [] && all[0].id == root && all[0].depth == 0
    && (forall i :: 0 <= i < |all| ==> GoodState(edges, root, all[i]))
    && SeenMatches(all, seen) && InOrder(all, h)
  }

  /** Every edge that can be followed from `s` leads to a node seen no deeper than one below it. */
  ghost predicate Expanded(edges: seq<Edge>, s: State, seen: map<string, nat>) {
    forall e :: e in edges && Traverses(e) && e.from == s.id ==> e.to in seen && seen[e.to] <= s.depth + 1
  }

  /** `f` was found while `s` was expanded. */
  ghost predicate FoundAt(edges: seq<Edge>, root: string, denied: set<string>, s: State, f: Found) {
    && f.edge < |edges| && Grants(edges[f.edge], denied) && edges[f.edge].from == s.id
    && f.report == Report(root, s, edges[f.edge])
  }

  ghost predicate FoundBefore(edges: seq<Edge>, root: string, denied: set<string>, maxDepth: nat, all: seq<State>,
                              h: nat, f: Found)
    requires h <= |all|
  {
    exists i :: 0 <= i < h && all[i].depth < maxDepth && FoundAt(edges, root, denied, all[i], f)
  }

  ghost predicate FoundEdge(found: seq<Found>, k: nat) {
    exists m :: 0 <= m < |found| && found[m].edge == k
  }

  /** `found` is what expanding `all[..h]` within the depth bound reports: each granting edge once. */
  ghost predicate Collected(edges: seq<Edge>, root: string, denied: set<string>, maxDepth: nat, all: seq<State>,
                            h: nat, found: seq<Found>)
    requires h <= |all|
  {
    && (forall m :: 0 <= m < |found| ==>
          FoundBefore(edges, root, denied, maxDepth, all, h, found[m]))
    && (forall m, n :: 0 <= m < n < |found| ==> found[m].edge != found[n].edge)
    && (forall i, k :: 0 <= i < h && all[i].depth < maxDepth && 0 <= k < |edges| && Grants(edges[k], denied) && edges[k].from == all[i].id
          ==> FoundEdge(found, k))
  }

  /** A node reached in few enough edges has been seen, no deeper than that. */
  lemma {:induction false} SearchIsExhaustive(edges: seq<Edge>, root: string, maxDepth: nat, all: seq<State>,
                                              seen: map<string, nat>, id: string, n: nat)
    requires Enqueued(edges, root, all, |all|, seen)
    requires forall i :: 0 <= i < |all| && all[i].depth < maxDepth ==> Expanded(edges, all[i], seen)
    requires ReachIn(edges, root, id, n) && n <= maxDepth
    ensures id in seen && seen[id] <= n
    decreases n
  {
    var path, evidence :| IsWalk(edges, path, evidence) && |evidence| == n && path[0] == root && path[n] == id;
    if n > 0 {
      assert IsWalk(edges, path[..n], evidence[..n - 1]) by {
        forall i | 0 <= i < n - 1 ensures Hop(edges, path[..n][i], path[..n][i + 1], evidence[..n - 1][i]) {
          assert Hop(edges, path[i], path[i + 1], evidence[i]);
        }
      }
      assert ReachIn(edges, root, path[n - 1], n - 1);
      SearchIsExhaustive(edges, root, maxDepth, all, seen, path[n - 1], n - 1);
      assert Hop(edges, path[n - 1], path[n - 1 + 1], evidence[n - 1]);
      assert HasId(all, path[n - 1]);
      var i :| 0 <= i < |all| && all[i].id == path[n - 1];
      assert Expanded(edges, all[i], seen);
    }
  }

  /** The edges at positions `ks` leaving the state `s`: those granting a denied capability, each once. */
  ghost predicate Granted(edges: seq<Edge>, root: string, denied: set<string>, s: State, ks: seq<nat>,
                          found: seq<Found>) {
    && (forall m :: 0 <= m < |found| ==> FoundAt(edges, root, denied, s, found[m]) && found[m].edge in ks)
    && (forall m, n :: 0 <= m < n < |found| ==> found[m].edge != found[n].edge)
    && (forall k :: k in ks && k < |edges| && Grants(edges[k], denied) ==> FoundEdge(found, k))
  }

  lemma GrantedSnoc(edges: seq<Edge>, root: string, denied: set<string>, s: State, ks: seq<nat>, j: nat,
                    found: seq<Found>)
    requires j < |ks| && ks[j] < |edges| && LeavesOf(edges, s.id, ks)
    requires Granted(edges, root, denied, s, ks[..j], found)
    ensures Granted(edges, root, denied, s, ks[..j + 1],
              if Grants(edges[ks[j]], denied) then found + [Found(ks[j], Report(root, s, edges[ks[j]]))] else found)
  {
    var k := ks[j];
    assert k in ks && k !in ks[..j] && ks[..j + 1] == ks[..j] + [k];
    var more := if Grants(edges[k], denied) then found + [Found(k, Report(root, s, edges[k]))] else found;
    forall x | x in ks[..j + 1] && x < |edges| && Grants(edges[x], denied) ensures FoundEdge(more, x) {
      if x in ks[..j] {
        var m :| 0 <= m < |found| && found[m].edge == x;
        assert more[m].edge == x;
      } else {
        assert more[|found|].edge == x;
      }
    }
  }

  /** The positions of the edges leaving `id`, in order. */
  ghost predicate LeavesOf(edges: seq<Edge>, id: string, ks: seq<nat>) {
    && (forall k :: k in ks <==> 0 <= k < |edges| && edges[k].from == id)
    && Distinct(ks)
  }

  lemma CollectedThen(edges: seq<Edge>, root: string, denied: set<string>, maxDepth: nat, all: seq<State>, h: nat,
                      found: seq<Found>, ks: seq<nat>, more: seq<Found>)
    requires h < |all| && all[h].depth < maxDepth
    requires forall i, j :: 0 <= i < j < |all| ==> all[i].id != all[j].id
    requires Collected(edges, root, denied, maxDepth, all, h, found)
    requires LeavesOf(edges, all[h].id, ks) && Granted(edges, root, denied, all[h], ks, more)
    ensures Collected(edges, root, denied, maxDepth, all, h + 1, found + more)
  {
    var f := found + more;
    forall m | 0 <= m < |f| ensures FoundBefore(edges, root, denied, maxDepth, all, h + 1, f[m]) {
      if m < |found| {
        assert FoundBefore(edges, root, denied, maxDepth, all, h, found[m]);
      } else {
        assert FoundAt(edges, root, denied, all[h], more[m - |found|]);
      }
    }
    forall m, n | 0 <= m < n < |f| ensures f[m].edge != f[n].edge {
      if m < |found| && |found| <= n {
        assert FoundBefore(edges, root, denied, maxDepth, all, h, found[m]);
        assert FoundAt(edges, root, denied, all[h], more[n - |found|]);
      }
    }
    forall i, k | 0 <= i < h + 1 && all[i].depth < maxDepth && 0 <= k < |edges| && Grants(edges[k], denied) && edges[k].from == all[i].id
      ensures FoundEdge(f, k)
    {
      if i < h {
        var m :| 0 <= m < |found| && found[m].edge == k;
        assert f[m].edge == k;
      } else {
        assert FoundEdge(more, k);
        var m :| 0 <= m < |more| && more[m].edge == k;
        assert f[|found| + m].edge == k;
      }
    }
  }

  method EdgesByOrigin(edges: seq<Edge>) returns (adj: map<string, seq<nat>>)
    ensures forall id :: LeavesOf(edges, id, if id in adj then adj[id] else [])
  {
    adj := map[];
    for k := 0 to |edges|
      invariant forall id :: LeavesOf(edges[..k], id, if id in adj then adj[id] else [])
    {
      var from := edges[k].from;
      ghost var before := adj;
      adj := adj[from := (if from in adj then adj[from] else []) + [k]];
      forall id ensures LeavesOf(edges[..k + 1], id, if id in adj then adj[id] else []) {
        LeavesSnoc(edges, k, id, if id in before then before[id] else []);
      }
    }
    assert edges[..|edges|] == edges;
  }

  lemma LeavesSnoc(edges: seq<Edge>, k: nat, id: string, ks: seq<nat>)
    requires k < |edges| && LeavesOf(edges[..k], id, ks)
    ensures LeavesOf(edges[..k + 1], id, if edges[k].from == id then ks + [k] else ks)
  {
    forall x: nat ensures x in ks <==> x < k && edges[x].from == id {
      assert x in ks <==> 0 <= x < |edges[..k]| && edges[..k][x].from == id;
    }
  }

  /** The search's memory: every state ever enqueued, oldest first (the queue is the part from its head on), and
      the depth each node was first seen at. */
  datatype Frontier = Frontier(all: seq<State>, seen: map<string, nat>)

  ghost predicate GoodFrontier(edges: seq<Edge>, root: string, h: nat, f: Frontier) {
    h < |f.all| && Enqueued(edges, root, f.all, h, f.seen)
  }

  ghost predicate Extends(f: Frontier, f': Frontier) {
    f.all <= f'.all && forall x :: x in f.seen ==> x in f'.seen && f'.seen[x] == f.seen[x]
  }

  lemma ExtendsSelf(f: Frontier)
    ensures Extends(f, f)
  {
  }

  lemma ExtendsThen(f: Frontier, g: Frontier, k: Frontier)
    requires Extends(f, g) && Extends(g, k)
    ensures Extends(f, k)
  {
  }

  ghost predicate Followed(e: Edge, cur: State, seen: map<string, nat>) {
    e.to in seen && seen[e.to] <= cur.depth + 1
  }

  /** Nothing already seen lies more than one level below the state being expanded: no node is enqueued again. */
  lemma SeenIsShallow(edges: seq<Edge>, root: string, h: nat, f: Frontier, e: Edge)
    requires GoodFrontier(edges, root, h, f)
    ensures e.to in f.seen ==> Followed(e, f.all[h], f.seen) && !(f.all[h].depth + 1 < f.seen[e.to])
  {
    if e.to in f.seen {
      assert HasId(f.all, e.to);
      var i :| 0 <= i < |f.all| && f.all[i].id == e.to;
      assert f.all[i].depth <= f.all[|f.all| - 1].depth;
    }
  }

  function Successor(cur: State, e: Edge): State {
    State(e.to, cur.path + [e.to], cur.evidence + [e.evidence], cur.depth + 1)
  }

  function Enqueue(f: Frontier, s: State): Frontier {
    Frontier(f.all + [s], f.seen[s.id := s.depth])
  }

  lemma EnqueueKeepsAll(edges: seq<Edge>, root: string, h: nat, f: Frontier, e: Edge)
    requires GoodFrontier(edges, root, h, f)
    requires e in edges && Traverses(e) && e.from == f.all[h].id && e.to !in f.seen
    ensures var f' := Enqueue(f, Successor(f.all[h], e));
            GoodFrontier(edges, root, h, f') && Extends(f, f') && Followed(e, f.all[h], f'.seen)
  {
    var s := Successor(f.all[h], e);
    WalkSnoc(edges, f.all[h].path, f.all[h].evidence, e);
    assert GoodState(edges, root, s);
    SeenMatchesSnoc(f.all, f.seen, s);
    InOrderSnoc(f.all, f.seen, h, s);
  }

  lemma SeenMatchesSnoc(all: seq<State>, seen: map<string, nat>, s: State)
    requires SeenMatches(all, seen) && s.id !in seen
    ensures SeenMatches(all + [s], seen[s.id := s.depth])
  {
    forall x | x in seen[s.id := s.depth] ensures HasId(all + [s], x) {
      if x in seen {
        var i :| 0 <= i < |all| && all[i].id == x;
        assert (all + [s])[i].id == x;
      } else {
        assert (all + [s])[|all|].id == x;
      }
    }
  }

  lemma InOrderSnoc(all: seq<State>, seen: map<string, nat>, h: nat, s: State)
    requires InOrder(all, h) && SeenMatches(all, seen)
    requires h < |all| && s.depth == all[h].depth + 1 && s.id !in seen
    ensures InOrder(all + [s], h)
  {
    forall i | 0 <= i < |all| ensures all[i].id != s.id && all[i].depth <= s.depth {
      assert all[i].depth <= all[|all| - 1].depth;
    }
  }

  lemma FollowedStays(e: Edge, cur: State, f: Frontier, f': Frontier)
    requires Followed(e, cur, f.seen) && Extends(f, f')
    ensures Followed(e, cur, f'.seen)
  {
  }

  /** Follow one edge: enqueue its target unless it has been seen. */
  method Follow(edges: seq<Edge>, e: Edge, root: string, cur: State, ghost h: nat, f: Frontier) returns (f': Frontier)
    requires h < |f.all| && cur == f.all[h] && GoodFrontier(edges, root, h, f)
    requires e in edges && Traverses(e) && e.from == cur.id
    ensures h < |f'.all| && f'.all[h] == cur && GoodFrontier(edges, root, h, f') && Extends(f, f')
    ensures Followed(e, cur, f'.seen)
    ensures f' == if e.to in f.seen then f else Enqueue(f, Successor(cur, e))
  {
    hide *;
    f' := f;
    ExtendsSelf(f);
    SeenIsShallow(edges, root, h, f, e);
    if e.to !in f.seen || cur.depth + 1 < f.seen[e.to] {
      EnqueueKeepsAll(edges, root, h, f, e);
      f' := Enqueue(f, Successor(cur, e));
      ExtendsKeeps(f, f', h);
    }
  }

  lemma ExtendsKeeps(f: Frontier, f': Frontier, h: nat)
    requires Extends(f, f') && h < |f.all|
    ensures h < |f'.all| && f'.all[h] == f.all[h]
  {
  }

  /** Inspect every edge leaving the state just dequeued. */
  method Expand(edges: seq<Edge>, ks: seq<nat>, root: string, denied: set<string>, cur: State, ghost h: nat,
                f: Frontier)
      returns (f': Frontier, found: seq<Found>)
    requires h < |f.all| && cur == f.all[h] && GoodFrontier(edges, root, h, f)
    requires LeavesOf(edges, cur.id, ks)
    requires forall i :: 0 <= i < |ks| ==> ks[i] < |edges| && edges[ks[i]].from == cur.id
    ensures GoodFrontier(edges, root, h, f') && Extends(f, f')
    ensures Expanded(edges, cur, f'.seen)
    ensures Granted(edges, root, denied, cur, ks, found)
  {
    hide *;
    f', found := f, [];
    ExtendsSelf(f);
    GrantedNone(edges, root, denied, cur);
    for j := 0 to |ks|
      invariant h < |f'.all| && f'.all[h] == cur && GoodFrontier(edges, root, h, f') && Extends(f, f')
      invariant forall i :: 0 <= i < j && Traverses(edges[ks[i]]) ==> Followed(edges[ks[i]], cur, f'.seen)
      invariant Granted(edges, root, denied, cur, ks[..j], found)
    {
      var k := ks[j];
      var e := edges[k];
      assert e in edges;
      GrantedSnoc(edges, root, denied, cur, ks, j, found);
      if Grants(e, denied) {
        found := found + [Found(k, Report(root, cur, e))];
      }
      if Traverses(e) {
        ghost var before := f';
        f' := Follow(edges, e, root, cur, h, f');
        ExtendsThen(f, before, f');
        forall i | 0 <= i < j && Traverses(edges[ks[i]]) ensures Followed(edges[ks[i]], cur, f'.seen) {
          FollowedStays(edges[ks[i]], cur, before, f');
        }
      }
    }
    assert ks[..|ks|] == ks;
    AllFollowed(edges, ks, cur, f'.seen);
  }

  lemma GrantedNone(edges: seq<Edge>, root: string, denied: set<string>, s: State)
    ensures Granted(edges, root, denied, s, [], [])
  {
  }

  lemma AllFollowed(edges: seq<Edge>, ks: seq<nat>, cur: State, seen: map<string, nat>)
    requires LeavesOf(edges, cur.id, ks)
    requires forall i :: 0 <= i < |ks| ==> ks[i] < |edges|
    requires forall i :: 0 <= i < |ks| && Traverses(edges[ks[i]]) ==> Followed(edges[ks[i]], cur, seen)
    ensures Expanded(edges, cur, seen)
  {
    forall e | e in edges && Traverses(e) && e.from == cur.id ensures e.to in seen && seen[e.to] <= cur.depth + 1 {
      var k :| 0 <= k < |edges| && edges[k] == e;
      assert k in ks;
      var i :| 0 <= i < |ks| && ks[i] == k;
      assert Followed(edges[ks[i]], cur, seen);
    }
  }

  /** Every state enqueued before `h` has been expanded, unless it was too deep to be. */
  ghost predicate Searched(edges: seq<Edge>, maxDepth: nat, all: seq<State>, h: nat, seen: map<string, nat>)
    requires h <= |all|
  {
    forall i :: 0 <= i < h && all[i].depth < maxDepth ==> Expanded(edges, all[i], seen)
  }

  /** Where the search stands between two states: `h` of the states enqueued have been dealt with. */
  ghost predicate Standing(edges: seq<Edge>, root: string, denied: set<string>, maxDepth: nat, h: nat, f: Frontier,
                           found: seq<Found>) {
    && h <= |f.all| && Enqueued(edges, root, f.all, h, f.seen)
    && Searched(edges, maxDepth, f.all, h, f.seen)
    && Collected(edges, root, denied, maxDepth, f.all, h, found)
  }

  lemma Start(edges: seq<Edge>, root: string, denied: set<string>, maxDepth: nat)
    ensures Standing(edges, root, denied, maxDepth, 0, Frontier([State(root, [root], [], 0)], map[root := 0]), [])
  {
    var f := Frontier([State(root, [root], [], 0)], map[root := 0]);
    assert f.all[0].id == root;
    assert HasId(f.all, root);
  }

  lemma TooDeep(edges: seq<Edge>, root: string, denied: set<string>, maxDepth: nat, h: nat, f: Frontier,
                found: seq<Found>)
    requires Standing(edges, root, denied, maxDepth, h, f, found) && h < |f.all| && f.all[h].depth >= maxDepth
    ensures Standing(edges, root, denied, maxDepth, h + 1, f, found)
  {
    NextInOrder(edges, root, h, f);
    forall m | 0 <= m < |found| ensures FoundBefore(edges, root, denied, maxDepth, f.all, h + 1, found[m]) {
      assert FoundBefore(edges, root, denied, maxDepth, f.all, h, found[m]);
    }
  }

  lemma NextInOrder(edges: seq<Edge>, root: string, h: nat, f: Frontier)
    requires h < |f.all| && Enqueued(edges, root, f.all, h, f.seen)
    ensures Enqueued(edges, root, f.all, h + 1, f.seen)
  {
    if h + 1 < |f.all| {
      assert f.all[h].depth <= f.all[h + 1].depth;
    }
  }

  lemma Advance(edges: seq<Edge>, root: string, denied: set<string>, maxDepth: nat, h: nat, f: Frontier,
                found: seq<Found>, f': Frontier,
                ks: seq<nat>, more: seq<Found>)
    requires Standing(edges, root, denied, maxDepth, h, f, found) && h < |f.all| && f.all[h].depth < maxDepth
    requires GoodFrontier(edges, root, h, f') && Extends(f, f')
    requires LeavesOf(edges, f.all[h].id, ks)
    requires Expanded(edges, f.all[h], f'.seen) && Granted(edges, root, denied, f.all[h], ks, more)
    ensures Standing(edges, root, denied, maxDepth, h + 1, f', found + more)
  {
    hide GoodState, Grants, LeavesOf, Granted, FoundAt, Report, Traverses, SeenMatches;
    NextInOrder(edges, root, h, f');
    SearchedGrows(edges, maxDepth, h, f, f');
    CollectedGrows(edges, root, denied, maxDepth, f.all, f'.all, h, found);
    CollectedThen(edges, root, denied, maxDepth, f'.all, h, found, ks, more);
  }

  lemma SearchedGrows(edges: seq<Edge>, maxDepth: nat, h: nat, f: Frontier, f': Frontier)
    requires h < |f.all| && Extends(f, f') && Searched(edges, maxDepth, f.all, h, f.seen)
    requires Expanded(edges, f.all[h], f'.seen)
    ensures Searched(edges, maxDepth, f'.all, h + 1, f'.seen)
  {
    forall i | 0 <= i < h + 1 && f'.all[i].depth < maxDepth ensures Expanded(edges, f'.all[i], f'.seen) {
      assert f'.all[i] == f.all[i];
      if i < h {
        assert Expanded(edges, f.all[i], f.seen);
      }
    }
  }

  lemma CollectedGrows(edges: seq<Edge>, root: string, denied: set<string>, maxDepth: nat, all: seq<State>,
                       all': seq<State>, h: nat, found: seq<Found>)
    requires h <= |all| && all <= all' && Collected(edges, root, denied, maxDepth, all, h, found)
    ensures Collected(edges, root, denied, maxDepth, all', h, found)
  {
    forall m | 0 <= m < |found| ensures FoundBefore(edges, root, denied, maxDepth, all', h, found[m]) {
      assert FoundBefore(edges, root, denied, maxDepth, all, h, found[m]);
      var i :| 0 <= i < h && all[i].depth < maxDepth && FoundAt(edges, root, denied, all[i], found[m]);
      assert all'[i] == all[i];
    }
    forall i, k | 0 <= i < h && all'[i].depth < maxDepth && 0 <= k < |edges| && Grants(edges[k], denied) && edges[k].from == all'[i].id
      ensures FoundEdge(found, k)
    {
      assert all'[i] == all[i];
    }
  }

  // ----- What the finished search reports -----

  /** The edges to report: evidence-backed authorizations of denied capabilities whose source is reached from the
      root in fewer than `maxDepth` edges. */
  ghost predicate Escalates(edges: seq<Edge>, root: string, denied: set<string>, maxDepth: nat, k: nat) {
    && k < |edges| && Grants(edges[k], denied)
    && exists n :: 0 <= n < maxDepth && ReachIn(edges, root, edges[k].from, n)
  }

  ghost predicate GoodReport(edges: seq<Edge>, root: string, denied: set<string>, maxDepth: nat, f: Found) {
    Escalates(edges, root, denied, maxDepth, f.edge) && Explains(edges, root, edges[f.edge], f.report)
  }

  /** Exactly the escalating edges, each once, each with a valid and shortest path. */
  ghost predicate Exact(edges: seq<Edge>, root: string, denied: set<string>, maxDepth: nat, found: seq<Found>) {
    && (forall m :: 0 <= m < |found| ==> GoodReport(edges, root, denied, maxDepth, found[m]))
    && (forall m, n :: 0 <= m < n < |found| ==> found[m].edge != found[n].edge)
    && (forall k :: Escalates(edges, root, denied, maxDepth, k) ==> FoundEdge(found, k))
  }

  lemma StateIsShortest(edges: seq<Edge>, root: string, maxDepth: nat, f: Frontier, i: nat, n: nat)
    requires i < |f.all| && Enqueued(edges, root, f.all, |f.all|, f.seen)
    requires Searched(edges, maxDepth, f.all, |f.all|, f.seen)
    requires f.all[i].depth < maxDepth && ReachIn(edges, root, f.all[i].id, n)
    ensures f.all[i].depth <= n
  {
    if n <= maxDepth {
      SearchIsExhaustive(edges, root, maxDepth, f.all, f.seen, f.all[i].id, n);
    }
  }

  /** A state's report of an edge is valid when no walk to the state is shorter than its own. */
  lemma ReportExplains(edges: seq<Edge>, root: string, denied: set<string>, maxDepth: nat, s: State, f: Found)
    requires GoodState(edges, root, s) && s.depth < maxDepth && FoundAt(edges, root, denied, s, f)
    requires forall n :: ReachIn(edges, root, s.id, n) ==> s.depth <= n
    ensures GoodReport(edges, root, denied, maxDepth, f)
  {
    hide IsWalk, Grants;
    var e, r := edges[f.edge], f.report;
    WalkLength(edges, s);
    assert IsWalk(edges, s.path, s.evidence) && s.path[s.depth] == e.from;
    assert ReachIn(edges, root, e.from, s.depth);
    assert r.path[..|r.path| - 1] == s.path && r.evidence[..|r.evidence| - 1] == s.evidence;
    assert r.path[|r.path| - 2..] == [e.from, e.to];
  }

  lemma WalkLength(edges: seq<Edge>, s: State)
    requires IsWalk(edges, s.path, s.evidence)
    ensures |s.path| == |s.evidence| + 1
  {
  }

  lemma FoundIsExact(edges: seq<Edge>, root: string, denied: set<string>, maxDepth: nat, f: Frontier,
                     found: seq<Found>, m: nat)
    requires Standing(edges, root, denied, maxDepth, |f.all|, f, found) && m < |found|
    ensures GoodReport(edges, root, denied, maxDepth, found[m])
  {
    hide GoodState, GoodReport, FoundAt, InOrder, SeenMatches, Expanded, ReachIn;
    assert FoundBefore(edges, root, denied, maxDepth, f.all, |f.all|, found[m]);
    var i :| 0 <= i < |f.all| && f.all[i].depth < maxDepth && FoundAt(edges, root, denied, f.all[i], found[m]);
    forall n | ReachIn(edges, root, f.all[i].id, n) ensures f.all[i].depth <= n {
      StateIsShortest(edges, root, maxDepth, f, i, n);
    }
    ReportExplains(edges, root, denied, maxDepth, f.all[i], found[m]);
  }

  lemma FinishedIsExact(edges: seq<Edge>, root: string, denied: set<string>, maxDepth: nat, f: Frontier,
                        found: seq<Found>)
    requires Standing(edges, root, denied, maxDepth, |f.all|, f, found)
    ensures Exact(edges, root, denied, maxDepth, found)
  {
    hide GoodReport, GoodState, Escalates, InOrder, SeenMatches, FoundBefore;
    forall m | 0 <= m < |found| ensures GoodReport(edges, root, denied, maxDepth, found[m]) {
      FoundIsExact(edges, root, denied, maxDepth, f, found, m);
    }
    forall k | Escalates(edges, root, denied, maxDepth, k) ensures FoundEdge(found, k) {
      EscalationIsFound(edges, root, denied, maxDepth, f, found, k);
    }
  }

  lemma EscalationIsFound(edges: seq<Edge>, root: string, denied: set<string>, maxDepth: nat, f: Frontier,
                          found: seq<Found>, k: nat)
    requires Standing(edges, root, denied, maxDepth, |f.all|, f, found) && Escalates(edges, root, denied, maxDepth, k)
    ensures FoundEdge(found, k)
  {
    var n :| 0 <= n < maxDepth && ReachIn(edges, root, edges[k].from, n);
    SearchIsExhaustive(edges, root, maxDepth, f.all, f.seen, edges[k].from, n);
    assert HasId(f.all, edges[k].from);
    var i :| 0 <= i < |f.all| && f.all[i].id == edges[k].from;
  }

  // ----- Output -----

  /** Reports are ordered by capability and then by path. */
  function ReportKey(f: Found): Key {
    [f.report.capability, Join(f.report.path, 0 as char)]
  }

  function ReportsOf(found: seq<Found>): seq<Escalation> {
    seq(|found|, i requires 0 <= i < |found| => found[i].report)
  }

  ghost function EdgesOf(found: seq<Found>): seq<nat> {
    seq(|found|, i requires 0 <= i < |found| => found[i].edge)
  }

  /** `sources[i]` is the position of the edge `out[i]` reports: the escalating edges, each once, with valid and
      shortest paths. */
  ghost predicate ExactReports(edges: seq<Edge>, root: string, denied: set<string>, maxDepth: nat,
                               out: seq<Escalation>, sources: seq<nat>) {
    && |sources| == |out| && Distinct(sources)
    && (forall i :: 0 <= i < |out| ==> sources[i] < |edges| && Explains(edges, root, edges[sources[i]], out[i]))
    && (forall k :: k in sources <==> Escalates(edges, root, denied, maxDepth, k))
  }

  lemma ExactPermuted(edges: seq<Edge>, root: string, denied: set<string>, maxDepth: nat, found: seq<Found>,
                      sorted: seq<Found>)
    requires Exact(edges, root, denied, maxDepth, found) && multiset(found) == multiset(sorted)
    ensures Exact(edges, root, denied, maxDepth, sorted)
  {
    hide GoodReport, Escalates;
    SameElements(found, sorted);
    forall m | 0 <= m < |sorted| ensures GoodReport(edges, root, denied, maxDepth, sorted[m]) {
      assert sorted[m] in found;
    }
    forall k | Escalates(edges, root, denied, maxDepth, k) ensures FoundEdge(sorted, k) {
      assert FoundEdge(found, k);
      var m :| 0 <= m < |found| && found[m].edge == k;
      assert found[m] in sorted;
    }
    assert Distinct(found);
    DistinctPermuted(found, sorted);
    forall m, n | 0 <= m < n < |sorted| ensures sorted[m].edge != sorted[n].edge {
      assert sorted[m] in found && sorted[n] in found;
    }
  }

  lemma ExactToReports(edges: seq<Edge>, root: string, denied: set<string>, maxDepth: nat, found: seq<Found>)
    requires Exact(edges, root, denied, maxDepth, found)
    ensures ExactReports(edges, root, denied, maxDepth, ReportsOf(found), EdgesOf(found))
  {
    hide Escalates, Explains;
    var out, sources := ReportsOf(found), EdgesOf(found);
    forall i | 0 <= i < |out|
      ensures Escalates(edges, root, denied, maxDepth, sources[i]) && sources[i] < |edges| && Explains(edges, root, edges[sources[i]], out[i])
    {
      assert GoodReport(edges, root, denied, maxDepth, found[i]);
      EscalatesInRange(edges, root, denied, maxDepth, found[i].edge);
    }
    forall k | Escalates(edges, root, denied, maxDepth, k) ensures k in sources {
      assert FoundEdge(found, k);
      var m :| 0 <= m < |found| && found[m].edge == k;
      assert sources[m] == k;
    }
  }

  lemma EscalatesInRange(edges: seq<Edge>, root: string, denied: set<string>, maxDepth: nat, k: nat)
    requires Escalates(edges, root, denied, maxDepth, k)
    ensures k < |edges|
  {
  }

  /** The nodes the search can enqueue. */
  ghost function Universe(edges: seq<Edge>, root: string): set<string> {
    {root} + set i | 0 <= i < |edges| :: edges[i].to
  }

  ghost function Done(all: seq<State>, h: nat): set<string>
    requires h <= |all|
  {
    set i | 0 <= i < h :: all[i].id
  }

  /** Dequeuing settles a node of the universe not settled before: the search ends even on cyclic graphs. */
  lemma Progresses(edges: seq<Edge>, root: string, h: nat, f: Frontier, f': Frontier)
    requires h < |f.all| && Enqueued(edges, root, f.all, h, f.seen) && f.all <= f'.all
    ensures Universe(edges, root) - Done(f'.all, h + 1) < Universe(edges, root) - Done(f.all, h)
  {
    var s := f.all[h];
    assert GoodState(edges, root, s);
    assert s.id in Universe(edges, root) by {
      if s.evidence != [] {
        var i := |s.evidence| - 1;
        assert Hop(edges, s.path[i], s.path[i + 1], s.evidence[i]);
      }
    }
    assert s.id !in Done(f.all, h);
    assert Done(f'.all, h + 1) == Done(f.all, h) + {s.id} by {
      forall x ensures x in Done(f'.all, h + 1) <==> x in Done(f.all, h) + {s.id} {
        if x in Done(f.all, h) {
          var i :| 0 <= i < h && f.all[i].id == x;
          assert f'.all[i].id == x;
        }
        assert f'.all[h] == s;
      }
    }
  }

  method Search(edges: seq<Edge>, root: string, denied: set<string>, maxDepth: nat) returns (found: seq<Found>)
    ensures Exact(edges, root, denied, maxDepth, found)
  {
    hide *;
    var adj := EdgesByOrigin(edges);
    var f := Frontier([State(root, [root], [], 0)], map[root := 0]);
    var h := 0;
    found := [];
    Start(edges, root, denied, maxDepth);
    while h < |f.all|
      invariant h <= |f.all| && Standing(edges, root, denied, maxDepth, h, f, found)
      decreases Universe(edges, root) - Done(f.all, h)
    {
      var cur := f.all[h];
      StandingParts(edges, root, denied, maxDepth, h, f, found);
      if cur.depth >= maxDepth {
        Progresses(edges, root, h, f, f);
        TooDeep(edges, root, denied, maxDepth, h, f, found);
      } else {
        var ks := if cur.id in adj then adj[cur.id] else [];
        LeavesInRange(edges, cur.id, ks);
        var f', more := Expand(edges, ks, root, denied, cur, h, f);
        Progressed(edges, root, h, f, f');
        Advance(edges, root, denied, maxDepth, h, f, found, f', ks, more);
        f, found := f', found + more;
      }
      h := h + 1;
    }
    FinishedIsExact(edges, root, denied, maxDepth, f, found);
  }

  lemma StandingParts(edges: seq<Edge>, root: string, denied: set<string>, maxDepth: nat, h: nat, f: Frontier,
                      found: seq<Found>)
    requires h < |f.all| && Standing(edges, root, denied, maxDepth, h, f, found)
    ensures Enqueued(edges, root, f.all, h, f.seen) && GoodFrontier(edges, root, h, f)
  {
  }

  lemma LeavesInRange(edges: seq<Edge>, id: string, ks: seq<nat>)
    requires LeavesOf(edges, id, ks)
    ensures forall i :: 0 <= i < |ks| ==> ks[i] < |edges| && edges[ks[i]].from == id
  {
    forall i | 0 <= i < |ks| ensures ks[i] < |edges| && edges[ks[i]].from == id {
      assert ks[i] in ks;
    }
  }

  lemma Progressed(edges: seq<Edge>, root: string, h: nat, f: Frontier, f': Frontier)
    requires h < |f.all| && GoodFrontier(edges, root, h, f) && Extends(f, f')
    ensures h + 1 <= |f'.all|
    ensures Universe(edges, root) - Done(f'.all, h + 1) < Universe(edges, root) - Done(f.all, h)
  {
    Progresses(edges, root, h, f, f');
  }

  /** Transitive escalations: refused when the graph exceeds its budget, and otherwise exactly the evidence-backed
      authorizations of denied capabilities in reach, each once, ordered by capability and path. */
  method TransitiveEscalations(g: AuthorityGraph, root: string, denied: seq<string>)
      returns (r: Result<seq<Escalation>>, ghost sources: seq<nat>)
    ensures (r.BudgetExhausted? <==>
      g.principals > (if g.maxNodes > 0 then g.maxNodes else 1024) || |g.edges| > (if g.maxEdges > 0 then g.maxEdges else 4096))
    ensures r.Reports? ==>
      ExactReports(g.edges, root, Elements(denied), if g.maxDepth > 0 then g.maxDepth else 16, r.value, sources)
    ensures r.Reports? ==> forall i, j :: 0 <= i < j < |r.value| ==>
      KeyLeq([r.value[i].capability, Join(r.value[i].path, 0 as char)], [r.value[j].capability, Join(r.value[j].path, 0 as char)])
  {
    hide ExactReports, Exact, KeyLeq, Join;
    sources := [];
    if g.principals > OrDefault(g.maxNodes, 1024) || |g.edges| > OrDefault(g.maxEdges, 4096) {
      return BudgetExhausted, sources;
    }
    var deny := Elements(denied);
    var maxDepth := OrDefault(g.maxDepth, 16);
    var found := Search(g.edges, root, deny, maxDepth);
    var sorted := Sort(ReportKey, found);
    ExactPermuted(g.edges, root, deny, maxDepth, found, sorted);
    ExactToReports(g.edges, root, deny, maxDepth, sorted);
    r, sources := Reports(ReportsOf(sorted)), EdgesOf(sorted);
  }
}
