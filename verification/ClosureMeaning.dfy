/** What finalizing and comparing closures says of the fields of their nodes: which nodes make a closure safe or complete,
    what each counter counts, which limitations there are, and which violations are reported for which differences. */
module ClosureMeaning {
  import opened Orders
  import opened Closures
  import opened ClosureState
  import opened ClosureFacts

  // ----- One node -----

  /** The text is the upper-case word in letters of either case; the long s and the Kelvin sign count as s and k. */
  predicate Reads(s: string, word: string) {
    |s| == |word| && forall i :: 0 <= i < |word| ==> IsLetter(s[i], word[i])
  }

  predicate IsLetter(c: char, upper: char) {
    c == upper || ('A' <= upper <= 'Z' && c as int == upper as int + 32)
    || (upper == 'K' && c == '\U{212A}') || (upper == 'S' && c == '\U{017F}')
  }

  /** Everything needed to judge the node is there. */
  predicate Settled(n: Node) {
    && n.digest != "" && n.resolved && n.analyzed && n.verification != "unresolved"
    && n.analysisStatus != "incomplete" && n.analysisStatus != "failed" && n.analysisStatus != "not_run"
  }

  /** Nothing speaks against the node: a severity that is not one of the four harmless words counts as high. */
  predicate Harmless(n: Node) {
    && n.verification != "failed" && !Reads(n.verdict, "BLOCK") && !Reads(n.scanStatus, "FAIL")
    && (n.maximumSeverity == "" || n.maximumSeverity == "INFO" || n.maximumSeverity == "LOW" || n.maximumSeverity == "MEDIUM")
  }

  lemma FoldMeaning(c: char, upper: char)
    requires 'A' <= upper <= 'Z'
    ensures Fold(c) == Fold(upper) <==> IsLetter(c, upper)
  {
  }

  lemma EqualFoldMeaning(s: string, word: string)
    requires forall i :: 0 <= i < |word| ==> 'A' <= word[i] <= 'Z'
    ensures EqualFold(s, word) <==> Reads(s, word)
  {
    hide Fold, IsLetter;
    if |s| == |word| {
      forall i | 0 <= i < |word| ensures Fold(s[i]) == Fold(word[i]) <==> IsLetter(s[i], word[i]) {
        FoldMeaning(s[i], word[i]);
      }
    }
  }

  lemma NodeMeaning(n: Node)
    ensures Unresolved(n) <==> !Settled(n)
    ensures Blocking(n) <==> !Harmless(n)
    ensures Vetted(n) <==> n.verification == "verified" || n.verification == "not_required"
  {
    hide EqualFold, Reads;
    EqualFoldMeaning(n.verdict, "BLOCK");
    EqualFoldMeaning(n.scanStatus, "FAIL");
  }

  /** The severities in order; an unknown one ranks with HIGH. */
  lemma SeverityOrder(s: string)
    ensures SeverityRank("CRITICAL") > SeverityRank("HIGH") > SeverityRank("MEDIUM") > SeverityRank("LOW") > SeverityRank("INFO")
    ensures SeverityRank("") == SeverityRank("INFO")
    ensures s !in {"CRITICAL", "HIGH", "MEDIUM", "LOW", "INFO", ""} ==> SeverityRank(s) == SeverityRank("HIGH")
  {
  }

  // ----- A finalized closure -----

  /** SAFE, complete and verified, by the fields of the required nodes. */
  lemma StateByFields(c: Closure, hash: Hash, r: Closure)
    requires Finalizes(c, hash, r)
    ensures var sound := c.nodes != [] && c.rootDigest != "" && c.limitations == [] && OneNodePerId(r.nodes);
            && (r.state == Safe <==> sound && forall n :: n in r.nodes && n.required ==> Settled(n) && Harmless(n))
            && (r.complete <==> sound && c.complete && forall n :: n in r.nodes && n.required ==> Settled(n))
            && (r.verified <==> r.state == Safe && r.complete && forall n :: n in r.nodes && n.required ==>
                                n.verification == "verified" || n.verification == "not_required")
  {
    hide Finalizes, Unresolved, Blocking, Vetted, Settled, Harmless, NoConflict;
    FinalizeMeaning(c, hash, r);
    forall n | n in r.nodes ensures (Unresolved(n) <==> !Settled(n)) && (Blocking(n) <==> !Harmless(n)) {
      NodeMeaning(n);
    }
    forall n | n in r.nodes ensures Vetted(n) <==> n.verification == "verified" || n.verification == "not_required" {
      NodeMeaning(n);
    }
    assert NoConflict(r.nodes) <==> OneNodePerId(r.nodes) by { NoConflictIsOneNode(r.nodes); }
  }

  ghost predicate OneNodePerId(nodes: seq<Node>) {
    forall i, j :: 0 <= i < j < |nodes| && nodes[i].id == nodes[j].id ==> nodes[i] == nodes[j]
  }

  lemma NoConflictIsOneNode(nodes: seq<Node>)
    ensures NoConflict(nodes) <==> OneNodePerId(nodes)
  {
    if OneNodePerId(nodes) {
      forall m, n | m in nodes && n in nodes && m.id == n.id ensures m == n {
        var i :| 0 <= i < |nodes| && nodes[i] == m;
        var j :| 0 <= j < |nodes| && nodes[j] == n;
      }
    }
    if NoConflict(nodes) {
      forall i, j | 0 <= i < j < |nodes| && nodes[i].id == nodes[j].id ensures nodes[i] == nodes[j] {
        assert nodes[i] in nodes && nodes[j] in nodes;
      }
    }
  }

  // ----- Counters -----

  /** The positions of the required nodes, and of those among them that are not settled, and not harmless. */
  ghost function Required(nodes: seq<Node>): set<nat> {
    set i: nat | i < |nodes| && nodes[i].required
  }

  ghost function Unsettled(nodes: seq<Node>): set<nat> {
    set i: nat | i < |nodes| && nodes[i].required && !Settled(nodes[i])
  }

  /** The findings of the required nodes that are not harmless, at least one for each. */
  function Findings(nodes: seq<Node>): nat {
    if nodes == [] then 0
    else Findings(nodes[1..]) + if nodes[0].required && !Harmless(nodes[0])
                                then (if nodes[0].findings == [] then 1 else |nodes[0].findings|) else 0
  }

  lemma {:induction false} FindingsSnoc(nodes: seq<Node>, n: Node)
    ensures Findings(nodes + [n]) == Findings(nodes) + if n.required && !Harmless(n)
                                                       then (if n.findings == [] then 1 else |n.findings|) else 0
  {
    hide Harmless;
    if nodes == [] {
      assert [n][1..] == [] && [] + [n] == [n];
    } else {
      assert (nodes + [n])[1..] == nodes[1..] + [n];
      FindingsSnoc(nodes[1..], n);
    }
  }

  lemma RequiredSnoc(nodes: seq<Node>, n: Node)
    ensures |Required(nodes + [n])| == |Required(nodes)| + if n.required then 1 else 0
  {
    var k, more := |nodes|, nodes + [n];
    assert forall i :: 0 <= i < k ==> more[i] == nodes[i];
    assert Required(more) == Required(nodes) + if n.required then {k} else {};
  }

  lemma UnsettledSnoc(nodes: seq<Node>, n: Node)
    ensures |Unsettled(nodes + [n])| == |Unsettled(nodes)| + if n.required && !Settled(n) then 1 else 0
  {
    hide Settled;
    var k, more := |nodes|, nodes + [n];
    assert forall i :: 0 <= i < k ==> more[i] == nodes[i];
    assert Unsettled(more) == Unsettled(nodes) + if n.required && !Settled(n) then {k} else {};
  }

  /** The greatest depth, or 0, and a severity that no node exceeds, of some node or INFO. */
  ghost predicate Extremes(nodes: seq<Node>, depth: int, severity: string) {
    && depth >= 0 && (forall n :: n in nodes ==> n.depth <= depth) && (depth == 0 || exists n :: n in nodes && n.depth == depth)
    && (forall n :: n in nodes ==> SeverityRank(n.maximumSeverity) <= SeverityRank(severity))
    && (severity == "INFO" || exists n :: n in nodes && n.maximumSeverity == severity)
  }

  lemma {:induction false} TallyCounts(nodes: seq<Node>, start: State)
    ensures var t := TallyOf(nodes, start);
            && t.required == |Required(nodes)| && t.unresolved == |Unsettled(nodes)| && t.blocking == Findings(nodes)
            && Extremes(nodes, t.maxDepth, t.maximumSeverity)
  {
    hide Unresolved, Blocking, Vetted, Settled, Harmless, SeverityRank, Step, Clashes;
    if nodes == [] {
      assert Required(nodes) == {} && Unsettled(nodes) == {};
    } else {
      var k := |nodes| - 1;
      var init, n := nodes[..k], nodes[k];
      assert nodes == init + [n];
      TallyCounts(init, start);
      RequiredSnoc(init, n);
      UnsettledSnoc(init, n);
      FindingsSnoc(init, n);
      NodeMeaning(n);
      StepCounts(TallyOf(init, start), Latest(init), n);
      ExtremesSnoc(init, n, TallyOf(init, start).maxDepth, TallyOf(init, start).maximumSeverity);
    }
  }

  lemma StepCounts(t: Tally, seen: map<string, Node>, n: Node)
    ensures var u := Step(t, seen, n);
            && u.required == t.required + (if n.required then 1 else 0)
            && u.unresolved == t.unresolved + (if n.required && Unresolved(n) then 1 else 0)
            && u.blocking == t.blocking + (if n.required && Blocking(n) then (if n.findings == [] then 1 else |n.findings|) else 0)
            && u.maxDepth == (if n.depth > t.maxDepth then n.depth else t.maxDepth)
            && (u.maximumSeverity == if SeverityRank(n.maximumSeverity) > SeverityRank(t.maximumSeverity) then n.maximumSeverity
                                     else t.maximumSeverity)
  {
    hide Unresolved, Blocking, Vetted, SeverityRank, Clashes, ConflictText;
  }

  lemma ExtremesSnoc(nodes: seq<Node>, n: Node, depth: int, severity: string)
    requires Extremes(nodes, depth, severity)
    ensures Extremes(nodes + [n], if n.depth > depth then n.depth else depth,
                     if SeverityRank(n.maximumSeverity) > SeverityRank(severity) then n.maximumSeverity else severity)
  {
    hide SeverityRank;
    var more := nodes + [n];
    assert more[|nodes|] == n && n in more;
    assert forall m :: m in more <==> m in nodes || m == n;
  }

  /** What each counter of a finalized closure counts. */
  lemma CountersMeaning(c: Closure, hash: Hash, r: Closure)
    requires Finalizes(c, hash, r)
    ensures r.requiredNodes == |Required(r.nodes)| && r.unresolvedNodes == |Unsettled(r.nodes)|
    ensures r.blockingFindings == Findings(r.nodes) && Extremes(r.nodes, r.maxDepth, r.maximumSeverity)
  {
    hide TallyOf, CanonicalNodes, CanonicalEdges, SortedUnique, DigestOf;
    TallyCounts(r.nodes, StartState(c.rootDigest, r.nodes));
  }

  // ----- Limitations -----

  /** Two different nodes of one identity are noted. */
  ghost predicate NotesConflict(nodes: seq<Node>, x: string) {
    exists m, n :: m in nodes && n in nodes && m != n && m.id == n.id && x == "conflicting duplicate closure identity: " + m.id
  }

  lemma NotesSnoc(nodes: seq<Node>, n: Node, x: string)
    ensures NotesConflict(nodes + [n], x) <==>
      NotesConflict(nodes, x) || (Clashes(Latest(nodes), n) && x == ConflictText(n.id))
  {
    var more := nodes + [n];
    LatestIsLast(nodes);
    assert forall m :: m in more <==> m in nodes || m == n;
    if NotesConflict(more, x) {
      var a, b :| a in more && b in more && a != b && a.id == b.id && x == "conflicting duplicate closure identity: " + a.id;
      var last := if a in nodes then Latest(nodes)[a.id] else Latest(nodes)[b.id];
      if a in nodes && b in nodes {
        assert NotesConflict(nodes, x);
      } else {
        assert last in nodes && Clashes(Latest(nodes), n);
      }
    }
    if Clashes(Latest(nodes), n) && x == ConflictText(n.id) {
      assert Latest(nodes)[n.id] in more && n in more && NotesConflict(more, x);
    }
    if NotesConflict(nodes, x) {
      var a, b :| a in nodes && b in nodes && a != b && a.id == b.id && x == "conflicting duplicate closure identity: " + a.id;
      assert a in more && b in more;
    }
  }

  lemma {:induction false} ConflictsMeaning(nodes: seq<Node>, start: State, x: string)
    ensures x in TallyOf(nodes, start).conflicts <==> NotesConflict(nodes, x)
  {
    hide Unresolved, Blocking, Vetted, SeverityRank, Clashes, Latest, NotesConflict, Noted, Demanded, ConflictText;
    if nodes == [] {
      assert !NotesConflict(nodes, x) by { NoneNoted(x); }
    } else {
      var k := |nodes| - 1;
      assert nodes == nodes[..k] + [nodes[k]];
      ConflictsMeaning(nodes[..k], start, x);
      NotesSnoc(nodes[..k], nodes[k], x);
      ConflictsStep(TallyOf(nodes[..k], start), Latest(nodes[..k]), nodes[k]);
    }
  }

  lemma NoneNoted(x: string)
    ensures !NotesConflict([], x)
  {
  }

  lemma ConflictsStep(t: Tally, seen: map<string, Node>, n: Node)
    ensures Step(t, seen, n).conflicts == t.conflicts + if Clashes(seen, n) then [ConflictText(n.id)] else []
  {
    hide Unresolved, Blocking, Vetted, SeverityRank, Clashes, ConflictText;
  }

  /** The limitations are the closure's own and one for each identity that different nodes share. */
  lemma LimitationsMeaning(c: Closure, hash: Hash, r: Closure, x: string)
    requires Finalizes(c, hash, r)
    ensures x in r.limitations <==> x in c.limitations || NotesConflict(r.nodes, x)
    ensures Ascending(r.limitations) && Distinct(r.limitations)
  {
    hide TallyOf, CanonicalNodes, CanonicalEdges, SortedUnique, DigestOf, NotesConflict;
    var start := StartState(c.rootDigest, r.nodes);
    ConflictsMeaning(r.nodes, start, x);
    SortedUniqueFacts(c.limitations);
    SortedUniqueFacts(SortedUnique(c.limitations) + TallyOf(r.nodes, start).conflicts);
  }
}
