/** Which authorizations are escalations, told over the edges of the graph alone. */
module AuthorityTrails {
  import opened Authority

  /** Delegation, invocation, calling, controlling and executing pass authority on, when there is evidence for it. */
  predicate PassesAuthority(e: Edge) {
    e.evidence.id != ""
    && match e.relation
       case DelegatesTo => true
       case CanInvoke => true
       case Calls => true
       case Controls => true
       case Executes => true
       case AuthorizedFor => false
       case DeniedFor => false
       case OtherRelation(_) => false
  }

  /** Edges that pass authority on, head to tail, from `root` to `id`. */
  ghost predicate IsTrail(edges: seq<Edge>, es: seq<Edge>, root: string, id: string) {
    && (forall i :: 0 <= i < |es| ==> es[i] in edges && PassesAuthority(es[i]))
    && (forall i :: 0 <= i < |es| - 1 ==> es[i].to == es[i + 1].from)
    && (if es == [] then root == id else es[0].from == root && es[|es| - 1].to == id)
  }

  lemma TraversesMeaning(e: Edge)
    ensures Traverses(e) <==> PassesAuthority(e)
  {
  }

  lemma {:induction false} TrailOfWalk(edges: seq<Edge>, path: seq<string>, evidence: seq<EvidenceRef>) returns (es: seq<Edge>)
    requires IsWalk(edges, path, evidence)
    ensures |es| == |evidence| && IsTrail(edges, es, path[0], path[|path| - 1])
  {
    es := [];
    if evidence != [] {
      var n := |evidence| - 1;
      assert Hop(edges, path[n], path[n + 1], evidence[n]);
      var e :| e in edges && Traverses(e) && e.from == path[n] && e.to == path[n + 1] && e.evidence == evidence[n];
      TraversesMeaning(e);
      var shorter, before := path[..n + 1], evidence[..n];
      forall i | 0 <= i < n ensures Hop(edges, shorter[i], shorter[i + 1], before[i]) {
        assert Hop(edges, path[i], path[i + 1], evidence[i]);
      }
      var init := TrailOfWalk(edges, shorter, before);
      es := init + [e];
    }
  }

  lemma {:induction false} WalkOfTrail(edges: seq<Edge>, es: seq<Edge>, root: string, id: string)
      returns (path: seq<string>, evidence: seq<EvidenceRef>)
    requires IsTrail(edges, es, root, id)
    ensures IsWalk(edges, path, evidence) && |evidence| == |es| && path[0] == root && path[|es|] == id
  {
    if es == [] {
      path, evidence := [root], [];
    } else {
      var n := |es| - 1;
      var e := es[n];
      TraversesMeaning(e);
      assert n > 0 ==> es[n - 1].to == es[n - 1 + 1].from;
      var p, v := WalkOfTrail(edges, es[..n], root, e.from);
      path, evidence := p + [id], v + [e.evidence];
      assert Hop(edges, path[n], path[n + 1], evidence[n]);
      forall i | 0 <= i < |evidence| ensures Hop(edges, path[i], path[i + 1], evidence[i]) {
        if i < n {
          assert Hop(edges, p[i], p[i + 1], v[i]);
        }
      }
    }
  }

  lemma ReachMeaning(edges: seq<Edge>, root: string, id: string, n: nat)
    ensures ReachIn(edges, root, id, n) <==> exists es :: IsTrail(edges, es, root, id) && |es| == n
  {
    hide IsTrail;
    if ReachIn(edges, root, id, n) {
      var path, evidence :| IsWalk(edges, path, evidence) && |evidence| == n && path[0] == root && path[n] == id;
      var es := TrailOfWalk(edges, path, evidence);
    }
    if es :| IsTrail(edges, es, root, id) && |es| == n {
      var path, evidence := WalkOfTrail(edges, es, root, id);
    }
  }

  /** An edge is reported exactly when it is an evidence-backed authorization of a denied capability and a trail of fewer
      edges than the depth limit leads from the root to its source. */
  lemma EscalationMeaning(edges: seq<Edge>, root: string, denied: seq<string>, maxDepth: nat, k: nat)
    ensures Escalates(edges, root, Elements(denied), maxDepth, k) <==>
      && k < |edges| && edges[k].relation == AuthorizedFor && edges[k].evidence.id != "" && edges[k].capability in denied
      && exists es :: IsTrail(edges, es, root, edges[k].from) && |es| < maxDepth
  {
    hide ReachIn, IsTrail;
    if k < |edges| {
      forall n: nat ensures ReachIn(edges, root, edges[k].from, n) <==> exists es :: IsTrail(edges, es, root, edges[k].from) && |es| == n {
        ReachMeaning(edges, root, edges[k].from, n);
      }
      if es :| IsTrail(edges, es, root, edges[k].from) && |es| < maxDepth {
        assert ReachIn(edges, root, edges[k].from, |es|);
      }
    }
  }

  /** What is reported of each escalation: the root, the capability, a trail to the edge as short as any with its evidence,
      and then the edge itself. */
  lemma ReportMeaning(edges: seq<Edge>, root: string, e: Edge, r: Escalation)
    requires Explains(edges, root, e, r)
    ensures r.principal == root && r.capability == e.capability && |r.path| >= 2 && |r.evidence| == |r.path| - 1
    ensures r.path[0] == root && r.path[|r.path| - 2] == e.from && r.path[|r.path| - 1] == e.to
    ensures r.evidence[|r.evidence| - 1] == e.evidence
    ensures forall es :: IsTrail(edges, es, root, e.from) ==> |r.path| - 2 <= |es|
    ensures exists es :: IsTrail(edges, es, root, e.from) && |es| == |r.path| - 2
  {
    hide IsTrail;
    assert r.path[|r.path| - 2..][0] == e.from && r.path[|r.path| - 2..][1] == e.to;
    var path, evidence := r.path[..|r.path| - 1], r.evidence[..|r.evidence| - 1];
    var es := TrailOfWalk(edges, path, evidence);
    forall es | IsTrail(edges, es, root, e.from) ensures |r.path| - 2 <= |es| {
      ReachMeaning(edges, root, e.from, |es|);
    }
  }
}
