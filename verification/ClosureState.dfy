/** The security state `Finalize` derives from a canonical closure, and what it means. */
module ClosureState {
  import opened Orders
  import opened Closures

  // ----- One node -----

  function SeverityRank(severity: string): nat {
    if severity == "CRITICAL" then 4 else if severity == "HIGH" then 3 else if severity == "MEDIUM" then 2
    else if severity == "LOW" then 1 else if severity == "INFO" || severity == "" then 0 else 3
  }

  /** Simple case folding, as far as it can reach a Latin letter. */
  function Fold(c: char): char {
    if 'A' <= c <= 'Z' then (c as int + 32) as char
    else if c == '\U{212A}' then 'k' else if c == '\U{017F}' then 's' else c
  }

  predicate EqualFold(s: string, t: string) {
    |s| == |t| && forall i :: 0 <= i < |s| ==> Fold(s[i]) == Fold(t[i])
  }

  predicate Unresolved(n: Node) {
    || n.digest == "" || !n.resolved || !n.analyzed
    || n.analysisStatus in ["incomplete", "failed", "not_run"] || n.verification == "unresolved"
  }

  predicate Blocking(n: Node) {
    || n.verification == "failed" || EqualFold(n.verdict, "BLOCK") || EqualFold(n.scanStatus, "FAIL")
    || SeverityRank(n.maximumSeverity) >= SeverityRank("HIGH")
  }

  predicate Vetted(n: Node) {
    n.verification == "verified" || n.verification == "not_required"
  }

  function ConflictText(id: string): string {
    "conflicting duplicate closure identity: " + id
  }

  // ----- The loop over the nodes -----

  datatype Tally = Tally(
    state: State, resolved: bool, vetted: bool, required: nat, unresolved: nat, blocking: nat,
    maxDepth: int, maximumSeverity: string, conflicts: seq<string>)

  function MaxNat(a: nat, b: nat): nat { if a < b then b else a }

  /** The last node seen for each identity. */
  function Latest(nodes: seq<Node>): map<string, Node> {
    if nodes == [] then map[]
    else
      var n := |nodes| - 1;
      Latest(nodes[..n])[nodes[n].id := nodes[n]]
  }

  predicate Clashes(seen: map<string, Node>, n: Node) {
    n.id in seen && seen[n.id] != n
  }

  function Noted(t: Tally, n: Node): Tally {
    t.(maxDepth := if n.depth > t.maxDepth then n.depth else t.maxDepth,
       maximumSeverity := if SeverityRank(n.maximumSeverity) > SeverityRank(t.maximumSeverity) then n.maximumSeverity
                          else t.maximumSeverity)
  }

  function Clashed(t: Tally, seen: map<string, Node>, n: Node): Tally {
    if !Clashes(seen, n) then t
    else t.(resolved := false, state := Unknown, conflicts := t.conflicts + [ConflictText(n.id)])
  }

  function Demanded(t: Tally, n: Node): Tally {
    if !n.required then t
    else
      var a := t.(required := t.required + 1);
      var b := if !Unresolved(n) then a
               else a.(unresolved := a.unresolved + 1, resolved := false, state := if a.state == Unsafe then Unsafe else Unknown);
      var c := if Vetted(n) then b else b.(vetted := false);
      if !Blocking(n) then c else c.(state := Unsafe, blocking := c.blocking + MaxNat(1, |n.findings|))
  }

  function Step(t: Tally, seen: map<string, Node>, n: Node): Tally {
    Demanded(Clashed(Noted(t, n), seen, n), n)
  }

  function TallyOf(nodes: seq<Node>, start: State): Tally {
    if nodes == [] then Tally(start, true, true, 0, 0, 0, 0, "INFO", [])
    else
      var n := |nodes| - 1;
      Step(TallyOf(nodes[..n], start), Latest(nodes[..n]), nodes[n])
  }

  // ----- Finalize -----

  datatype Verdict = Verdict(tally: Tally, state: State, complete: bool, verified: bool, limitations: seq<string>)

  function StartState(root: string, nodes: seq<Node>): State {
    if nodes == [] || root == "" then Unknown else Safe
  }

  function Assess(root: string, nodes: seq<Node>, complete: bool, limitations: seq<string>): Verdict {
    var t := TallyOf(nodes, StartState(root, nodes));
    var limits := limitations + t.conflicts;
    var done := complete && StartState(root, nodes) == Safe && t.resolved && limits == [];
    var state := if limits != [] && t.state != Unsafe then Unknown else t.state;
    Verdict(t, state, done, t.vetted && done && state == Safe, SortedUnique(limits))
  }

  /** `r` is a finalization of `c`.  The digest is computed over the nodes and edges made canonical once more. */
  ghost predicate Finalizes(c: Closure, hash: Hash, r: Closure) {
    var v := Assess(c.rootDigest, r.nodes, c.complete, SortedUnique(c.limitations));
    && CanonicalNodes(c.nodes, r.nodes) && CanonicalEdges(c.edges, r.edges)
    && r.rootDigest == c.rootDigest && r.limitations == v.limitations
    && r.state == v.state && r.complete == v.complete && r.verified == v.verified
    && r.requiredNodes == v.tally.required && r.unresolvedNodes == v.tally.unresolved
    && r.blockingFindings == v.tally.blocking && r.maxDepth == v.tally.maxDepth && r.maximumSeverity == v.tally.maximumSeverity
    && DigestOf(r, hash, r.digest)
  }

  ghost predicate DigestOf(c: Closure, hash: Hash, digest: string) {
    exists nodes, edges :: CanonicalNodes(c.nodes, nodes) && CanonicalEdges(c.edges, edges)
      && digest == hash(Content(c.rootDigest, nodes, edges, SortedUnique(c.limitations)))
  }

  method ComputeDigest(c: Closure, hash: Hash) returns (digest: string)
    ensures DigestOf(c, hash, digest)
  {
    var nodes := CanonicalizeNodes(c.nodes);
    var edges := CanonicalizeEdges(c.edges);
    digest := hash(Content(c.rootDigest, nodes, edges, SortedUnique(c.limitations)));
  }

  /** What one node adds to the counters and the state. */
  method TallyNode(before: Tally, seen: map<string, Node>, node: Node) returns (t: Tally)
    ensures t == Step(before, seen, node)
  {
    hide Unresolved, Blocking, Vetted, SeverityRank, ConflictText;
    t := before;
    if node.depth > t.maxDepth {
      t := t.(maxDepth := node.depth);
    }
    if SeverityRank(node.maximumSeverity) > SeverityRank(t.maximumSeverity) {
      t := t.(maximumSeverity := node.maximumSeverity);
    }
    if node.id in seen && seen[node.id] != node {
      t := t.(resolved := false, state := Unknown, conflicts := t.conflicts + [ConflictText(node.id)]);
    }
    assert t == Clashed(Noted(before, node), seen, node);
    if node.required {
      t := TallyRequired(t, node);
    }
  }

  method TallyRequired(before: Tally, node: Node) returns (t: Tally)
    requires node.required
    ensures t == Demanded(before, node)
  {
    hide Unresolved, Blocking, Vetted;
    t := before.(required := before.required + 1);
    if Unresolved(node) {
      t := t.(unresolved := t.unresolved + 1, resolved := false);
      if t.state != Unsafe {
        t := t.(state := Unknown);
      }
    }
    if !Vetted(node) {
      t := t.(vetted := false);
    }
    if Blocking(node) {
      t := t.(state := Unsafe, blocking := t.blocking + MaxNat(1, |node.findings|));
    }
  }

  method TallyNodes(nodes: seq<Node>, start: State) returns (t: Tally)
    ensures t == TallyOf(nodes, start)
  {
    hide Step;
    t := Tally(start, true, true, 0, 0, 0, 0, "INFO", []);
    var seen: map<string, Node> := map[];
    for n := 0 to |nodes|
      invariant t == TallyOf(nodes[..n], start) && seen == Latest(nodes[..n])
    {
      assert nodes[..n + 1][..n] == nodes[..n];
      t := TallyNode(t, seen, nodes[n]);
      seen := seen[nodes[n].id := nodes[n]];
    }
    assert nodes[..|nodes|] == nodes;
  }

  method Finalize(c: Closure, hash: Hash) returns (r: Closure)
    ensures Finalizes(c, hash, r)
  {
    hide TallyOf, CanonicalNodes, CanonicalEdges, SortedUnique, DigestOf;
    var nodes := CanonicalizeNodes(c.nodes);
    var edges := CanonicalizeEdges(c.edges);
    var limitations := SortedUnique(c.limitations);
    var complete, state := c.complete, Safe;
    if |nodes| == 0 || c.rootDigest == "" {
      complete, state := false, Unknown;
    }
    var t := TallyNodes(nodes, state);
    limitations := limitations + t.conflicts;
    complete := complete && t.resolved;
    state := t.state;
    if |limitations| > 0 {
      complete := false;
      if state != Unsafe {
        state := Unknown;
      }
    }
    var verified := t.vetted && complete && state == Safe;
    r := Closure(c.rootDigest, nodes, edges, t.maximumSeverity, complete, SortedUnique(limitations), "", state, verified,
                 t.required, t.unresolved, t.blocking, t.maxDepth);
    var digest := ComputeDigest(r, hash);
    DigestIgnoresDigest(r, hash, digest);
    r := r.(digest := digest);
  }

  lemma DigestIgnoresDigest(c: Closure, hash: Hash, digest: string)
    requires DigestOf(c, hash, digest)
    ensures DigestOf(c.(digest := digest), hash, digest)
  {
  }
}
