/** Assurance closures: canonical form, derived security state, digest and reviewed-versus-current comparison. */
module Closures {
  import opened Orders

  datatype Node = Node(
    id: string, kind: string, source: string, digest: string, parentDigest: string, depth: int, scanStatus: string,
    maximumSeverity: string, verdict: string, required: bool, resolved: bool, analyzed: bool, findings: seq<string>,
    analysisStatus: string, verification: string)

  datatype Edge = Edge(from: string, to: string, relation: string)

  datatype State = Safe | Unsafe | Unknown

  datatype Closure = Closure(
    rootDigest: string, nodes: seq<Node>, edges: seq<Edge>, maximumSeverity: string, complete: bool, limitations: seq<string>,
    digest: string, state: State, verified: bool, requiredNodes: nat, unresolvedNodes: nat, blockingFindings: nat, maxDepth: int)

  /** What the digest is computed from. */
  datatype Content = Content(root: string, nodes: seq<Node>, edges: seq<Edge>, limitations: seq<string>)

  type Hash = Content -> string

  ghost predicate CollisionFree(hash: Hash) {
    forall a, b :: hash(a) == hash(b) ==> a == b
  }

  // ----- Keys -----

  function Digits(n: nat): string {
    if n < 10 then [n as char + '0'] else Digits(n / 10) + [(n % 10) as char + '0']
  }

  function Zeros(n: int): string {
    if n <= 0 then [] else "0" + Zeros(n - 1)
  }

  /** `%09d`. */
  function Pad9(n: int): string {
    if n >= 0 then Zeros(9 - |Digits(n)|) + Digits(n) else "-" + Zeros(8 - |Digits(-n)|) + Digits(-n)
  }

  function NodeKey(n: Node): Key {
    var nul := [0 as char];
    [n.id + nul + n.kind + nul + n.digest + nul + Pad9(n.depth)]
  }

  function EdgeText(e: Edge): string {
    e.from + " --" + e.relation + "--> " + e.to
  }

  function EdgeKey(e: Edge): Key { [EdgeText(e)] }

  // ----- Canonical form -----

  function Tidy(n: Node): Node {
    n.(findings := SortedUnique(n.findings))
  }

  function TidyAll(nodes: seq<Node>): seq<Node> {
    seq(|nodes|, i requires 0 <= i < |nodes| => Tidy(nodes[i]))
  }

  function DedupEdges(s: seq<Edge>): seq<Edge>
    decreases |s|
  {
    if |s| < 2 then s
    else if EdgeText(s[0]) == EdgeText(s[1]) then DedupEdges([s[0]] + s[2..])
    else [s[0]] + DedupEdges(s[1..])
  }

  /** `out` is a canonical form of `nodes`; `sort.Slice` leaves the order of ties open. */
  ghost predicate CanonicalNodes(nodes: seq<Node>, out: seq<Node>) {
    IsSortOf(NodeKey, TidyAll(nodes), out)
  }

  ghost predicate CanonicalEdges(edges: seq<Edge>, out: seq<Edge>) {
    exists sorted :: IsSortOf(EdgeKey, edges, sorted) && out == DedupEdges(sorted)
  }

  method CanonicalizeNodes(nodes: seq<Node>) returns (out: seq<Node>)
    ensures CanonicalNodes(nodes, out)
  {
    out := Sort(NodeKey, TidyAll(nodes));
  }

  /** Keep the first edge of every run with the same text. */
  method CanonicalizeEdges(edges: seq<Edge>) returns (out: seq<Edge>)
    ensures CanonicalEdges(edges, out)
  {
    hide DedupEdges, EdgeText, KeyLeq, Ordered;
    var sorted := Sort(EdgeKey, edges);
    out := KeepFirsts(sorted);
  }

  method KeepFirsts(sorted: seq<Edge>) returns (out: seq<Edge>)
    ensures out == DedupEdges(sorted)
  {
    hide DedupEdges, EdgeText;
    if |sorted| < 2 {
      DedupShort(sorted);
      return sorted;
    }
    out := [sorted[0]];
    assert sorted == [sorted[0]] + sorted[1..];
    ghost var kept := [];
    for n := 1 to |sorted|
      invariant out != [] && kept == out[..|out| - 1]
      invariant DedupEdges(sorted) == kept + DedupEdges([out[|out| - 1]] + sorted[n..])
    {
      var last, next := out[|out| - 1], sorted[n];
      assert sorted[n..] == [next] + sorted[n + 1..];
      DedupStep(last, next, sorted[n + 1..]);
      if EdgeText(next) != EdgeText(last) {
        AppendAssoc(kept, last, DedupEdges([next] + sorted[n + 1..]));
        kept := kept + [last];
        out := out + [next];
      }
    }
    DedupShort([out[|out| - 1]]);
    assert [out[|out| - 1]] + sorted[|sorted|..] == [out[|out| - 1]];
  }

  lemma AppendAssoc(a: seq<Edge>, x: Edge, b: seq<Edge>)
    ensures a + ([x] + b) == (a + [x]) + b
  {
  }

  lemma DedupShort(s: seq<Edge>)
    requires |s| < 2
    ensures DedupEdges(s) == s
  {
  }

  lemma DedupStep(last: Edge, next: Edge, rest: seq<Edge>)
    ensures DedupEdges([last] + ([next] + rest))
         == if EdgeText(next) != EdgeText(last) then [last] + DedupEdges([next] + rest) else DedupEdges([last] + rest)
  {
    var s := [last] + ([next] + rest);
    assert s[1..] == [next] + rest && s[2..] == rest;
  }

  // ----- Canonical form depends only on the content -----

  ghost predicate SameElementsAs<T(!new)>(a: seq<T>, b: seq<T>) {
    forall x :: x in a <==> x in b
  }

  /** Strictly ordered by edge text, hence without repetition. */
  ghost predicate StrictEdges(s: seq<Edge>) {
    Ordered(EdgeKey, s) && forall i, j :: 0 <= i < j < |s| ==> EdgeText(s[i]) != EdgeText(s[j])
  }

  /** Some edge of `s` has the text of `x`. */
  ghost predicate Represented(s: seq<Edge>, x: Edge) {
    exists y :: y in s && EdgeText(y) == EdgeText(x)
  }

  lemma {:induction false} DedupEdgesKeeps(s: seq<Edge>)
    requires Ordered(EdgeKey, s)
    ensures StrictEdges(DedupEdges(s))
    ensures forall x :: x in DedupEdges(s) ==> x in s
    ensures forall x :: x in s ==> Represented(DedupEdges(s), x)
    ensures s != [] ==> DedupEdges(s) != [] && DedupEdges(s)[0] == s[0]
    decreases |s|
  {
    if |s| < 2 {
      forall x | x in s ensures Represented(DedupEdges(s), x) {
        assert x in DedupEdges(s);
      }
    } else {
      if EdgeText(s[0]) == EdgeText(s[1]) {
        DedupTie(s);
      } else {
        DedupStrict(s);
      }
    }
  }

  lemma {:induction false} DedupTie(s: seq<Edge>)
    requires Ordered(EdgeKey, s) && |s| >= 2 && EdgeText(s[0]) == EdgeText(s[1])
    ensures StrictEdges(DedupEdges(s)) && DedupEdges(s) != [] && DedupEdges(s)[0] == s[0]
    ensures forall x :: x in DedupEdges(s) ==> x in s
    ensures forall x :: x in s ==> Represented(DedupEdges(s), x)
    decreases |s|, 0
  {
    hide KeyLeq, EdgeText, StrictEdges;
    var t := [s[0]] + s[2..];
    DropSecondOrdered(s);
    DedupEdgesKeeps(t);
    assert s == [s[0], s[1]] + s[2..];
    forall x | x in s ensures Represented(DedupEdges(s), x) {
      if x == s[1] {
        assert Represented(DedupEdges(t), s[0]) by { assert s[0] in t; }
        var y :| y in DedupEdges(t) && EdgeText(y) == EdgeText(s[0]);
        assert y in DedupEdges(s);
      } else {
        assert x in t;
      }
    }
  }

  lemma DropSecondOrdered(s: seq<Edge>)
    requires Ordered(EdgeKey, s) && |s| >= 2
    ensures Ordered(EdgeKey, [s[0]] + s[2..])
  {
    hide KeyLeq, EdgeText;
    var t := [s[0]] + s[2..];
    forall i, j | 0 <= i < j < |t| ensures KeyLeq(EdgeKey(t[i]), EdgeKey(t[j])) {
      assert t[j] == s[j + 1];
      if i > 0 { assert t[i] == s[i + 1]; }
    }
  }

  lemma {:induction false} DedupStrict(s: seq<Edge>)
    requires Ordered(EdgeKey, s) && |s| >= 2 && EdgeText(s[0]) != EdgeText(s[1])
    ensures StrictEdges(DedupEdges(s)) && DedupEdges(s) != [] && DedupEdges(s)[0] == s[0]
    ensures forall x :: x in DedupEdges(s) ==> x in s
    ensures forall x :: x in s ==> Represented(DedupEdges(s), x)
    decreases |s|, 0
  {
    hide KeyLeq, EdgeText, StrictEdges, Represented;
    TailIsOrdered(s);
    DedupEdgesKeeps(s[1..]);
    var d := DedupEdges(s[1..]);
    assert s == [s[0]] + s[1..] && DedupEdges(s) == [s[0]] + d;
    forall i | 0 <= i < |d| ensures KeyLeq(EdgeKey(s[0]), EdgeKey(d[i])) && EdgeText(s[0]) != EdgeText(d[i]) {
      assert d[i] in s[1..];
      BelowLater(s, d[i]);
    }
    StrictCons(s[0], d);
    forall x | x in s ensures Represented(DedupEdges(s), x) {
      RepresentedCons(s[0], d, x);
    }
  }

  lemma TailIsOrdered(s: seq<Edge>)
    requires Ordered(EdgeKey, s) && s != []
    ensures Ordered(EdgeKey, s[1..])
  {
  }

  lemma BelowLater(s: seq<Edge>, x: Edge)
    requires Ordered(EdgeKey, s) && |s| >= 2 && EdgeText(s[0]) != EdgeText(s[1]) && x in s[1..]
    ensures KeyLeq(EdgeKey(s[0]), EdgeKey(x)) && EdgeText(s[0]) != EdgeText(x)
  {
    hide KeyLeq, EdgeText;
    var j :| 0 <= j < |s[1..]| && s[1..][j] == x;
    assert s[j + 1] == x;
    if j > 0 {
      assert KeyLeq(EdgeKey(s[1]), EdgeKey(s[j + 1]));
    }
    NoTieAcross(s[0], s[1], x);
  }

  lemma StrictCons(a: Edge, d: seq<Edge>)
    requires StrictEdges(d)
    requires forall i :: 0 <= i < |d| ==> KeyLeq(EdgeKey(a), EdgeKey(d[i])) && EdgeText(a) != EdgeText(d[i])
    ensures StrictEdges([a] + d)
  {
  }

  lemma RepresentedCons(a: Edge, d: seq<Edge>, x: Edge)
    requires x == a || Represented(d, x)
    ensures Represented([a] + d, x)
  {
    if x == a {
      assert a in [a] + d;
    } else {
      var y :| y in d && EdgeText(y) == EdgeText(x);
      assert y in [a] + d;
    }
  }

  lemma NoTieAcross(a: Edge, b: Edge, c: Edge)
    requires KeyLeq(EdgeKey(a), EdgeKey(b)) && EdgeText(a) != EdgeText(b)
    requires c == b || KeyLeq(EdgeKey(b), EdgeKey(c))
    ensures EdgeText(a) != EdgeText(c)
  {
    if EdgeText(a) == EdgeText(c) && c != b {
      KeyLeqAntisymmetric(EdgeKey(a), EdgeKey(b));
    }
  }

  lemma StrictUnique(a: seq<Edge>, b: seq<Edge>)
    requires StrictEdges(a) && StrictEdges(b) && SameElementsAs(a, b)
    ensures a == b
  {
    hide KeyLeq, EdgeText;
    assert Distinct(a) && Distinct(b);
    DistinctSameElements(a, b);
    StrictTieFree(a);
    SortUnique(EdgeKey, a, b);
  }

  /** Deduplicating what has no two edges of one text changes nothing. */
  lemma {:induction false} DedupOfStrict(s: seq<Edge>)
    requires StrictEdges(s)
    ensures DedupEdges(s) == s
    decreases |s|
  {
    hide KeyLeq, EdgeText;
    if |s| >= 2 {
      assert StrictEdges(s[1..]);
      DedupOfStrict(s[1..]);
      assert s == [s[0]] + s[1..];
    }
  }

  /** Canonical edges are strictly ordered, whatever ties there were. */
  lemma CanonicalEdgesAreStrict(edges: seq<Edge>, out: seq<Edge>)
    requires CanonicalEdges(edges, out)
    ensures StrictEdges(out)
  {
    hide KeyLeq, EdgeText, DedupEdges, StrictEdges;
    var sorted :| IsSortOf(EdgeKey, edges, sorted) && out == DedupEdges(sorted);
    DedupEdgesKeeps(sorted);
  }

  /** and so they are their own only canonical form. */
  lemma CanonicalEdgesStable(edges: seq<Edge>, out: seq<Edge>, again: seq<Edge>)
    requires CanonicalEdges(edges, out) && CanonicalEdges(out, again)
    ensures again == out
  {
    hide KeyLeq, EdgeText, DedupEdges;
    CanonicalEdgesAreStrict(edges, out);
    var sorted :| IsSortOf(EdgeKey, out, sorted) && again == DedupEdges(sorted);
    StrictTieFree(out);
    SortUnique(EdgeKey, out, sorted);
    DedupOfStrict(out);
  }

  lemma StrictTieFree(a: seq<Edge>)
    requires StrictEdges(a)
    ensures TieFree(EdgeKey, a)
  {
  }

  /** Without ties, deduplication loses nothing but repetitions. */
  lemma CanonicalEdgesElements(edges: seq<Edge>, out: seq<Edge>)
    requires CanonicalEdges(edges, out) && TieFree(EdgeKey, edges)
    ensures StrictEdges(out) && SameElementsAs(edges, out)
  {
    hide KeyLeq, EdgeText;
    var sorted :| IsSortOf(EdgeKey, edges, sorted) && out == DedupEdges(sorted);
    SameElements(sorted, edges);
    DedupEdgesKeeps(sorted);
    forall x | x in edges ensures x in out {
      assert x in sorted;
      assert Represented(out, x);
      var y :| y in out && EdgeText(y) == EdgeText(x);
      assert y in edges && EdgeKey(y) == EdgeKey(x);
    }
  }

  /** The canonical edges depend only on which edges there are. */
  lemma CanonicalEdgesUnique(a: seq<Edge>, x: seq<Edge>, b: seq<Edge>, y: seq<Edge>)
    requires CanonicalEdges(a, x) && CanonicalEdges(b, y) && TieFree(EdgeKey, a) && SameElementsAs(a, b)
    ensures x == y
  {
    assert TieFree(EdgeKey, b);
    CanonicalEdgesElements(a, x);
    CanonicalEdgesElements(b, y);
    StrictUnique(x, y);
  }

  /** The canonical nodes depend only on the nodes with their findings tidied. */
  lemma CanonicalNodesUnique(a: seq<Node>, x: seq<Node>, b: seq<Node>, y: seq<Node>)
    requires CanonicalNodes(a, x) && CanonicalNodes(b, y)
    requires TieFree(NodeKey, TidyAll(a)) && multiset(TidyAll(a)) == multiset(TidyAll(b))
    ensures x == y
  {
    hide NodeKey, KeyLeq;
    SameElements(TidyAll(a), x);
    SortUnique(NodeKey, x, y);
  }

  lemma TidyIsTidy(n: Node)
    ensures Tidy(Tidy(n)) == Tidy(n)
  {
    SortedUniqueIdempotent(n.findings);
  }

  lemma CanonicalNodesAreTidy(nodes: seq<Node>, out: seq<Node>)
    requires CanonicalNodes(nodes, out)
    ensures TidyAll(out) == out
  {
    hide NodeKey, KeyLeq, SortedUnique;
    SameElements(TidyAll(nodes), out);
    forall i | 0 <= i < |out| ensures Tidy(out[i]) == out[i] {
      assert out[i] in TidyAll(nodes);
      var j :| 0 <= j < |nodes| && Tidy(nodes[j]) == out[i];
      TidyIsTidy(nodes[j]);
    }
  }
}
