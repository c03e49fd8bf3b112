/** Sort keys and violations of closures, by the fields of nodes and edges. */
module ClosureDrift {
  import opened Orders
  import opened Closures
  import opened ClosureState
  import opened ClosureFacts
  import opened ClosureVerify

  // ----- Sort keys -----

  lemma {:induction false} DigitsAreDigits(n: nat)
    ensures Digits(n) != [] && forall i :: 0 <= i < |Digits(n)| ==> '0' <= Digits(n)[i] <= '9'
  {
    if n >= 10 { DigitsAreDigits(n / 10); }
  }

  function ValueOf(s: string): nat {
    if s == [] then 0
    else
      var d := s[|s| - 1] as int - '0' as int;
      10 * ValueOf(s[..|s| - 1]) + if d < 0 then 0 else d
  }

  lemma {:induction false} DigitsValue(n: nat)
    ensures ValueOf(Digits(n)) == n
  {
    if n >= 10 {
      DigitsValue(n / 10);
      assert Digits(n)[..|Digits(n)| - 1] == Digits(n / 10);
    }
  }

  lemma {:induction false} ZerosValue(k: int, s: string)
    ensures ValueOf(Zeros(k) + s) == ValueOf(s)
    decreases |s| + if k > 0 then k else 0
  {
    if s != [] {
      ZerosValue(k, s[..|s| - 1]);
      assert (Zeros(k) + s)[..|Zeros(k) + s| - 1] == Zeros(k) + s[..|s| - 1];
    } else if k > 0 {
      ZerosAtEnd(k);
      ZerosValue(k - 1, []);
      assert Zeros(k) + [] == Zeros(k) && Zeros(k - 1) + [] == Zeros(k - 1);
      assert Zeros(k)[..|Zeros(k)| - 1] == Zeros(k - 1);
    } else {
      assert Zeros(k) + [] == [];
    }
  }

  lemma {:induction false} ZerosAtEnd(k: int)
    requires k > 0
    ensures Zeros(k) == Zeros(k - 1) + "0"
  {
    if k > 1 {
      ZerosAtEnd(k - 1);
      assert "0" + (Zeros(k - 2) + "0") == "0" + Zeros(k - 2) + "0";
    } else {
      assert Zeros(0) == [] && "0" + [] == [] + "0";
    }
  }

  lemma {:induction false} ZerosAreZeros(k: int)
    ensures forall i :: 0 <= i < |Zeros(k)| ==> Zeros(k)[i] == '0'
  {
    if k > 0 { ZerosAreZeros(k - 1); }
  }

  lemma PaddedSign(n: int)
    ensures Pad9(n) != [] && (Pad9(n)[0] == '-' <==> n < 0)
  {
    if n >= 0 {
      DigitsAreDigits(n);
      ZerosAreZeros(9 - |Digits(n)|);
    }
  }

  lemma PaddedValue(n: int)
    ensures if n >= 0 then ValueOf(Pad9(n)) == n else Pad9(n) != [] && ValueOf(Pad9(n)[1..]) == -n
  {
    hide Digits, Zeros, ValueOf;
    if n >= 0 {
      ZerosValue(9 - |Digits(n)|, Digits(n));
      DigitsValue(n);
    } else {
      assert Pad9(n)[1..] == Zeros(8 - |Digits(-n)|) + Digits(-n);
      ZerosValue(8 - |Digits(-n)|, Digits(-n));
      DigitsValue(-n);
    }
  }

  /** Padded numbers are different for different numbers. */
  lemma PaddedInjective(m: int, n: int)
    requires Pad9(m) == Pad9(n)
    ensures m == n
  {
    hide Pad9, ValueOf;
    PaddedSign(m);
    PaddedSign(n);
    PaddedValue(m);
    PaddedValue(n);
  }

  predicate NulFree(n: Node) {
    '\0' !in n.id && '\0' !in n.kind && '\0' !in n.digest
  }

  /** Two nodes tie exactly when identity, kind, digest and depth agree. */
  lemma TiesByFields(a: Node, b: Node)
    requires NulFree(a) && NulFree(b)
    ensures NodeKey(a) == NodeKey(b) <==> a.id == b.id && a.kind == b.kind && a.digest == b.digest && a.depth == b.depth
  {
    hide Pad9;
    if NodeKey(a) == NodeKey(b) {
      KeyParts(a);
      KeyParts(b);
      NulJoinInjective(a.id, b.id, Rest(a), Rest(b));
      NulJoinInjective(a.kind, b.kind, a.digest + "\0" + Pad9(a.depth), b.digest + "\0" + Pad9(b.depth));
      NulJoinInjective(a.digest, b.digest, Pad9(a.depth), Pad9(b.depth));
      PaddedInjective(a.depth, b.depth);
    }
  }

  function Rest(n: Node): string {
    n.kind + "\0" + (n.digest + "\0" + Pad9(n.depth))
  }

  lemma KeyParts(n: Node)
    ensures NodeKey(n) == [n.id + "\0" + Rest(n)]
  {
    hide Pad9;
    assert n.id + "\0" + n.kind + "\0" + n.digest + "\0" + Pad9(n.depth) == n.id + "\0" + Rest(n);
  }

  /** Nodes come in the order of their identities, and those of one identity in the order of their kinds, then of their
      digests. */
  lemma NodeOrder(a: Node, b: Node)
    requires NulFree(a) && NulFree(b)
    ensures a.id != b.id ==> (KeyLeq(NodeKey(a), NodeKey(b)) <==> Leq(a.id, b.id))
    ensures a.id == b.id && a.kind != b.kind ==> (KeyLeq(NodeKey(a), NodeKey(b)) <==> Leq(a.kind, b.kind))
    ensures a.id == b.id && a.kind == b.kind && a.digest != b.digest ==>
      (KeyLeq(NodeKey(a), NodeKey(b)) <==> Leq(a.digest, b.digest))
  {
    hide Pad9, Leq;
    KeyParts(a);
    KeyParts(b);
    SingleKeys(a.id + "\0" + Rest(a), b.id + "\0" + Rest(b));
    NulJoinOrder(a.id, b.id, Rest(a), Rest(b));
    NulJoinOrder(a.kind, b.kind, a.digest + "\0" + Pad9(a.depth), b.digest + "\0" + Pad9(b.depth));
    NulJoinOrder(a.digest, b.digest, Pad9(a.depth), Pad9(b.depth));
  }

  lemma SingleKeys(x: string, y: string)
    ensures KeyLeq([x], [y]) <==> Leq(x, y)
  {
    assert [x][1..] == [] && [y][1..] == [];
  }

  predicate DashFree(e: Edge) {
    '-' !in e.from && '-' !in e.relation
  }

  /** Edges without dashes in their source and relation share a text only when they are the same. */
  lemma TextsTellEdgesApart(a: Edge, b: Edge)
    requires DashFree(a) && DashFree(b) && EdgeText(a) == EdgeText(b)
    ensures a == b
  {
    var s, t := EdgeText(a), EdgeText(b);
    DashAt(a);
    DashAt(b);
    assert |a.from| == |b.from|;
    assert s[..|a.from|] == a.from && t[..|b.from|] == b.from;
    var u, v := s[|a.from| + 3..], t[|b.from| + 3..];
    assert u == a.relation + ("--> " + a.to) && v == b.relation + ("--> " + b.to);
    assert u[|a.relation|] == '-' && v[|b.relation|] == '-';
    assert forall i :: 0 <= i < |a.relation| ==> u[i] == a.relation[i] && a.relation[i] in a.relation;
    assert forall i :: 0 <= i < |b.relation| ==> v[i] == b.relation[i] && b.relation[i] in b.relation;
    assert |a.relation| == |b.relation|;
    assert u[..|a.relation|] == a.relation && v[..|b.relation|] == b.relation;
    assert u[|a.relation| + 4..] == a.to && v[|b.relation| + 4..] == b.to;
  }

  lemma DashAt(e: Edge)
    requires DashFree(e)
    ensures |EdgeText(e)| > |e.from| + 1 && EdgeText(e)[|e.from| + 1] == '-'
    ensures forall i :: 0 <= i < |e.from| + 1 ==> EdgeText(e)[i] != '-'
  {
    forall i | 0 <= i < |e.from| ensures EdgeText(e)[i] != '-' {
      assert EdgeText(e)[i] == e.from[i] && e.from[i] in e.from;
    }
  }

  // ----- Violations -----

  /** The last node with its identity. */
  ghost predicate IsLast(nodes: seq<Node>, n: Node) {
    exists i: nat :: LastAt(nodes, n, i)
  }

  ghost predicate Has(nodes: seq<Node>, id: string) {
    exists n :: n in nodes && n.id == id
  }

  lemma {:induction false} LatestMeaning(nodes: seq<Node>, n: Node)
    ensures n.id in Latest(nodes) && Latest(nodes)[n.id] == n <==> IsLast(nodes, n)
    ensures n.id in Latest(nodes) <==> Has(nodes, n.id)
  {
    LatestIsLast(nodes);
    if nodes != [] {
      var k := |nodes| - 1;
      LatestMeaning(nodes[..k], n);
      LastSnoc(nodes, n);
    }
  }

  ghost predicate LastAt(nodes: seq<Node>, n: Node, i: nat) {
    i < |nodes| && nodes[i] == n && forall j :: i < j < |nodes| ==> nodes[j].id != n.id
  }

  lemma LastSnoc(nodes: seq<Node>, n: Node)
    requires nodes != []
    ensures var k := |nodes| - 1; IsLast(nodes, n) <==> nodes[k] == n || (nodes[k].id != n.id && IsLast(nodes[..k], n))
  {
    hide LastAt;
    var k := |nodes| - 1;
    forall i: nat | i < k ensures LastAt(nodes, n, i) <==> nodes[k].id != n.id && LastAt(nodes[..k], n, i) {
      LastEarlier(nodes, n, i);
    }
    assert LastAt(nodes, n, k) <==> nodes[k] == n by { LastHere(nodes, n); }
    LastBound(nodes, n);
    LastBound(nodes[..k], n);
  }

  lemma LastEarlier(nodes: seq<Node>, n: Node, i: nat)
    requires i < |nodes| - 1
    ensures LastAt(nodes, n, i) <==> nodes[|nodes| - 1].id != n.id && LastAt(nodes[..|nodes| - 1], n, i)
  {
    var before := nodes[..|nodes| - 1];
    assert forall j :: 0 <= j < |before| ==> before[j] == nodes[j];
  }

  lemma LastHere(nodes: seq<Node>, n: Node)
    requires nodes != []
    ensures LastAt(nodes, n, |nodes| - 1) <==> nodes[|nodes| - 1] == n
  {
  }

  lemma LastBound(nodes: seq<Node>, n: Node)
    ensures forall i: nat :: LastAt(nodes, n, i) ==> i < |nodes|
  {
  }

  function YesNo(b: bool): string { if b then "true" else "false" }

  /** What is said of an expected node that is still there. */
  ghost predicate Changed(want: Node, got: Node, v: Violation) {
    || (want.digest != got.digest && v == Violation(want.id, "", "digest_mismatch", want.digest, got.digest))
    || (want.required != got.required
        && v == Violation(want.id, "", "required_state_changed", YesNo(want.required), YesNo(got.required)))
    || (got.required && !(got.resolved && got.analyzed && got.digest != "")
        && v == Violation(want.id, "", "required_node_unresolved", "", got.analysisStatus))
  }

  /** A required node that is gone. */
  ghost predicate Missing(e: seq<Node>, a: seq<Node>, v: Violation) {
    exists want :: IsLast(e, want) && !Has(a, want.id) && want.required
      && v == Violation(want.id, "", "required_node_missing", want.digest, "")
  }

  ghost predicate Altered(e: seq<Node>, a: seq<Node>, v: Violation) {
    exists want, got :: IsLast(e, want) && IsLast(a, got) && got.id == want.id && Changed(want, got, v)
  }

  /** Of each identity the last node counts.  The root digest, every expected node, every required new node and every edge
      text on one side only has its violation. */
  ghost predicate Difference(e: Closure, a: Closure, v: Violation) {
    || (e.rootDigest != a.rootDigest && v == Violation("root", "", "root_digest_mismatch", e.rootDigest, a.rootDigest))
    || Missing(e.nodes, a.nodes, v) || Altered(e.nodes, a.nodes, v)
    || NewlyRequired(e.nodes, a.nodes, v)
    || OneSided(e.edges, a.edges, "required_edge_missing", v)
    || OneSided(a.edges, e.edges, "unexpected_edge", v)
  }

  /** A required node that was not there before. */
  ghost predicate NewlyRequired(e: seq<Node>, a: seq<Node>, v: Violation) {
    exists got :: IsLast(a, got) && !Has(e, got.id) && got.required
      && v == Violation(got.id, "", "unexpected_required_node", "", got.digest)
  }

  /** An edge text on one side only. */
  ghost predicate OneSided(here: seq<Edge>, there: seq<Edge>, reason: string, v: Violation) {
    exists x :: x in here && EdgeText(x) !in EdgeTexts(there) && v == Violation("", EdgeText(x), reason, "", "")
  }

  lemma AllLatest(nodes: seq<Node>)
    ensures forall n: Node :: n.id in Latest(nodes) && Latest(nodes)[n.id] == n <==> IsLast(nodes, n)
    ensures forall n: Node :: n.id in Latest(nodes) <==> Has(nodes, n.id)
    ensures forall id :: id in Latest(nodes) ==> Latest(nodes)[id].id == id && IsLast(nodes, Latest(nodes)[id])
  {
    hide Latest, IsLast, Has;
    LatestIsLast(nodes);
    forall n: Node
      ensures n.id in Latest(nodes) && Latest(nodes)[n.id] == n <==> IsLast(nodes, n)
      ensures n.id in Latest(nodes) <==> Has(nodes, n.id)
    {
      LatestMeaning(nodes, n);
    }
  }

  lemma ItemisedNode(e: seq<Node>, a: seq<Node>, id: string, v: Violation)
    requires id in Latest(e) && v in NodeDrift(Latest(e), Latest(a), id)
    ensures Missing(e, a, v) || Altered(e, a, v)
  {
    hide Latest, IsLast, Has, Changed, NodeDrift;
    AllLatest(e);
    AllLatest(a);
    OneNodeDrift(Latest(e), Latest(a), id, v);
    var want := Latest(e)[id];
    if id in Latest(a) {
      var got := Latest(a)[id];
      assert IsLast(e, want) && IsLast(a, got) && got.id == want.id && Changed(want, got, v);
    } else {
      assert !Has(a, want.id);
    }
  }

  lemma NodeItemised(e: seq<Node>, a: seq<Node>, v: Violation)
    requires Missing(e, a, v) || Altered(e, a, v)
    ensures exists id :: id in Latest(e) && v in NodeDrift(Latest(e), Latest(a), id)
  {
    hide Latest, IsLast, Has, Changed, NodeDrift;
    AllLatest(e);
    AllLatest(a);
    if Missing(e, a, v) {
      var want :| IsLast(e, want) && !Has(a, want.id) && want.required
        && v == Violation(want.id, "", "required_node_missing", want.digest, "");
      OneNodeDrift(Latest(e), Latest(a), want.id, v);
      assert want.id in Latest(e) && v in NodeDrift(Latest(e), Latest(a), want.id);
    } else {
      var want, got :| IsLast(e, want) && IsLast(a, got) && got.id == want.id && Changed(want, got, v);
      OneNodeDrift(Latest(e), Latest(a), want.id, v);
      assert got.id in Latest(a) && Latest(a)[got.id] == got;
      assert want.id in Latest(e) && v in NodeDrift(Latest(e), Latest(a), want.id);
    }
  }

  lemma NodeDriftMeaning(e: seq<Node>, a: seq<Node>, v: Violation)
    ensures (exists id :: id in Latest(e) && v in NodeDrift(Latest(e), Latest(a), id)) <==> Missing(e, a, v) || Altered(e, a, v)
  {
    hide Latest, Missing, Altered, NodeDrift;
    if id :| id in Latest(e) && v in NodeDrift(Latest(e), Latest(a), id) {
      ItemisedNode(e, a, id, v);
    }
    if Missing(e, a, v) || Altered(e, a, v) {
      NodeItemised(e, a, v);
    }
  }

  lemma OneNodeDrift(e: map<string, Node>, a: map<string, Node>, id: string, v: Violation)
    requires id in e && e[id].id == id
    ensures v in NodeDrift(e, a, id) <==>
      if id in a then Changed(e[id], a[id], v)
      else e[id].required && v == Violation(id, "", "required_node_missing", e[id].digest, "")
  {
  }

  lemma NewNodeMeaning(e: seq<Node>, a: seq<Node>, v: Violation)
    ensures (exists id :: id in Latest(a) && v in NewNode(Latest(e), Latest(a), id)) <==> NewlyRequired(e, a, v)
  {
    hide Latest, IsLast, Has;
    LatestIsLast(a);
    forall n: Node ensures n.id in Latest(e) <==> Has(e, n.id) {
      LatestMeaning(e, n);
    }
    forall n: Node ensures n.id in Latest(a) && Latest(a)[n.id] == n <==> IsLast(a, n) {
      LatestMeaning(a, n);
    }
    if id :| id in Latest(a) && v in NewNode(Latest(e), Latest(a), id) {
      assert IsLast(a, Latest(a)[id]);
    }
    if got :| IsLast(a, got) && !Has(e, got.id) && got.required && v == Violation(got.id, "", "unexpected_required_node", "", got.digest) {
      assert v in NewNode(Latest(e), Latest(a), got.id);
    }
  }

  lemma EdgeDriftMeaning(here: seq<Edge>, there: seq<Edge>, reason: string, v: Violation)
    ensures (exists t :: t in EdgeTexts(here) && v in EdgeDrift(t, EdgeTexts(there), reason)) <==> OneSided(here, there, reason, v)
  {
    hide EdgeText;
    if t :| t in EdgeTexts(here) && v in EdgeDrift(t, EdgeTexts(there), reason) {
      var x :| x in here && EdgeText(x) == t;
      assert EdgeText(x) !in EdgeTexts(there);
    }
    if x :| x in here && EdgeText(x) !in EdgeTexts(there) && v == Violation("", EdgeText(x), reason, "", "") {
      assert v in EdgeDrift(EdgeText(x), EdgeTexts(there), reason);
    }
  }

  lemma RootDriftMeaning(e: Closure, a: Closure, v: Violation)
    ensures v in RootDrift(e, a) <==>
      e.rootDigest != a.rootDigest && v == Violation("root", "", "root_digest_mismatch", e.rootDigest, a.rootDigest)
  {
  }

  /** The itemised differences are these, with these values. */
  lemma DriftMeaning(e: Closure, a: Closure, v: Violation)
    ensures Drifted(e, a, v) <==> Difference(e, a, v)
  {
    hide Latest, Missing, Altered, NewlyRequired, OneSided, NodeDrift, NewNode, EdgeDrift, EdgeTexts, RootDrift;
    RootDriftMeaning(e, a, v);
    NodeDriftMeaning(e.nodes, a.nodes, v);
    NewNodeMeaning(e.nodes, a.nodes, v);
    EdgeDriftMeaning(e.edges, a.edges, "required_edge_missing", v);
    EdgeDriftMeaning(a.edges, e.edges, "unexpected_edge", v);
    var en, an, ee, ae := Latest(e.nodes), Latest(a.nodes), EdgeTexts(e.edges), EdgeTexts(a.edges);
    assert (exists id :: id in en && v in NodeDrift(en, an, id)) <==> Missing(e.nodes, a.nodes, v) || Altered(e.nodes, a.nodes, v);
    assert (exists id :: id in an && v in NewNode(en, an, id)) <==> NewlyRequired(e.nodes, a.nodes, v);
    assert (exists t :: t in ee && v in EdgeDrift(t, ae, "required_edge_missing"))
      <==> OneSided(e.edges, a.edges, "required_edge_missing", v);
    assert (exists t :: t in ae && v in EdgeDrift(t, ee, "unexpected_edge")) <==> OneSided(a.edges, e.edges, "unexpected_edge", v);
  }

  predicate NulFreeViolation(v: Violation) {
    '\0' !in v.node && '\0' !in v.edge
  }

  /** Violations come in the order of their nodes, then of their edges, then of their reasons. */
  lemma ViolationOrder(u: Violation, v: Violation)
    requires NulFreeViolation(u) && NulFreeViolation(v)
    ensures (KeyLeq(ViolationKey(u), ViolationKey(v)) <==>
      if u.node != v.node then Leq(u.node, v.node) else if u.edge != v.edge then Leq(u.edge, v.edge) else Leq(u.reason, v.reason))
  {
    hide Leq;
    var x, y := u.edge + "\0" + u.reason, v.edge + "\0" + v.reason;
    assert "\0" == [0 as char];
    assert u.node + "\0" + u.edge + "\0" + u.reason == u.node + "\0" + x;
    assert v.node + "\0" + v.edge + "\0" + v.reason == v.node + "\0" + y;
    assert ViolationKey(u) == [u.node + "\0" + x] && ViolationKey(v) == [v.node + "\0" + y];
    SingleKeys(u.node + "\0" + x, v.node + "\0" + y);
    NulJoinOrder(u.node, v.node, x, y);
    NulJoinOrder(u.edge, v.edge, u.reason, v.reason);
  }
}
