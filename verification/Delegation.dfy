/** Agent delegation graphs: circular delegation and widened scopes. */
module Delegation {
  import opened Orders

  datatype Agent = Agent(id: string, delegatesTo: seq<string>, scope: seq<string>)

  type Graph = map<string, seq<string>>

  /** Whom each agent delegates to; a later entry for the same agent replaces an earlier one. */
  function Adjacency(agents: seq<Agent>): Graph {
    if agents == [] then map[]
    else
      var n := |agents| - 1;
      Adjacency(agents[..n])[agents[n].id := agents[n].delegatesTo]
  }

  predicate Delegates(g: Graph, u: string, v: string) {
    u in g && v in g[u]
  }

  /** The index after `i`, going round. */
  function Next(i: nat, n: nat): nat requires i < n { if i + 1 == n then 0 else i + 1 }

  ghost predicate IsCycle(g: Graph, c: seq<string>) {
    c != [] && forall i :: 0 <= i < |c| ==> Delegates(g, c[i], c[Next(i, |c|)])
  }

  ghost predicate IsPath(g: Graph, p: seq<string>) {
    forall i :: 0 <= i < |p| - 1 ==> Delegates(g, p[i], p[i + 1])
  }

  ghost predicate Acyclic(g: Graph) {
    forall c :: !IsCycle(g, c)
  }

  /** What the detector remembers a cycle by. */
  function CycleKey(c: seq<string>): string {
    Join(SortStrings(c), ',')
  }

  ghost predicate SameAgents(c: seq<string>, d: seq<string>) {
    forall x :: x in c <==> x in d
  }

  lemma SameAgentsSameKey(c: seq<string>, d: seq<string>)
    requires Distinct(c) && Distinct(d) && SameAgents(c, d)
    ensures CycleKey(c) == CycleKey(d)
  {
    DistinctSameElements(c, d);
    SortStringsCanonical(c, d);
  }

  ghost predicate CommaFree(c: seq<string>) {
    forall x :: x in c ==> ',' !in x
  }

  /** Without commas in the identifiers, the key says exactly which agents a cycle has. */
  lemma SameKeySameAgents(c: seq<string>, d: seq<string>)
    requires c != [] && d != [] && CommaFree(c) && CommaFree(d)
    requires CycleKey(c) == CycleKey(d)
    ensures SameAgents(c, d)
  {
    SortStringsMember(c);
    SortStringsMember(d);
    JoinInjective(SortStrings(c), SortStrings(d), ',');
  }

  // ----- The order in which agents are entered -----

  ghost predicate Before(order: seq<string>, x: string, y: string) {
    exists a, b :: 0 <= a < b < |order| && order[a] == x && order[b] == y
  }

  /** The list follows the order. */
  ghost predicate Follows(order: seq<string>, c: seq<string>) {
    (forall i :: 0 <= i < |c| ==> c[i] in order) && forall i, j :: 0 <= i < j < |c| ==> Before(order, c[i], c[j])
  }

  lemma BeforeGrows(order: seq<string>, more: seq<string>, x: string, y: string)
    requires order <= more && Before(order, x, y)
    ensures Before(more, x, y)
  {
    var a, b :| 0 <= a < b < |order| && order[a] == x && order[b] == y;
    assert more[a] == x && more[b] == y;
  }

  lemma FollowsGrows(order: seq<string>, more: seq<string>, c: seq<string>)
    requires order <= more && Follows(order, c)
    ensures Follows(more, c)
  {
    hide Before;
    forall i | 0 <= i < |c| ensures c[i] in more {
      var a :| 0 <= a < |order| && order[a] == c[i];
      assert more[a] == c[i];
    }
    forall i, j | 0 <= i < j < |c| ensures Before(more, c[i], c[j]) {
      BeforeGrows(order, more, c[i], c[j]);
    }
  }

  lemma FollowsSnoc(order: seq<string>, c: seq<string>, x: string)
    requires Follows(order, c)
    ensures Follows(order + [x], c + [x])
  {
    var more := order + [x];
    FollowsGrows(order, more, c);
    assert more[|order|] == x;
    forall i | 0 <= i < |c| ensures Before(more, c[i], x) {
      var a :| 0 <= a < |order| && order[a] == c[i];
      assert more[a] == c[i] && more[|order|] == x;
    }
  }

  lemma FollowsSuffix(order: seq<string>, c: seq<string>, start: nat)
    requires Follows(order, c) && start <= |c|
    ensures Follows(order, c[start..])
  {
    hide Before;
    var d := c[start..];
    assert forall i :: 0 <= i < |d| ==> d[i] == c[start + i];
  }

  lemma NotBothBefore(order: seq<string>, x: string, y: string)
    requires Distinct(order) && Before(order, x, y)
    ensures !Before(order, y, x) && x != y
  {
  }

  /** Lists that follow one order and have the same agents are the same list. */
  lemma {:induction false} OneListPerAgents(order: seq<string>, c: seq<string>, d: seq<string>)
    requires Distinct(order) && Follows(order, c) && Follows(order, d) && SameAgents(c, d)
    ensures c == d
    decreases |c|
  {
    hide Before;
    assert d != [] ==> d[0] in d;
    if c != [] {
      assert c[0] in d;
      var m, n := |c| - 1, |d| - 1;
      LastIsLast(order, c, d);
      var c', d' := c[..m], d[..n];
      forall x ensures x in c' <==> x in d' {
        WithoutLast(order, c, x);
        WithoutLast(order, d, x);
      }
      OneListPerAgents(order, c', d');
      assert c == c' + [c[m]] && d == d' + [d[n]];
    }
  }

  lemma LastIsLast(order: seq<string>, c: seq<string>, d: seq<string>)
    requires Distinct(order) && Follows(order, c) && Follows(order, d) && SameAgents(c, d) && c != [] && d != []
    ensures c[|c| - 1] == d[|d| - 1]
  {
    hide Before;
    var x, y := c[|c| - 1], d[|d| - 1];
    if x != y {
      assert x in d && y in c;
      var i :| 0 <= i < |d| && d[i] == x;
      var j :| 0 <= j < |c| && c[j] == y;
      assert Before(order, d[i], d[|d| - 1]) && Before(order, c[j], c[|c| - 1]);
      NotBothBefore(order, x, y);
    }
  }

  lemma WithoutLast(order: seq<string>, c: seq<string>, x: string)
    requires Distinct(order) && Follows(order, c) && c != []
    ensures x in c[..|c| - 1] <==> x in c && x != c[|c| - 1]
  {
    hide Before;
    var m := |c| - 1;
    forall i | 0 <= i < m ensures c[i] != c[m] {
      NotBothBefore(order, c[i], c[m]);
    }
  }

  // ----- What the search keeps -----

  /** A simple cycle closes on the edge from `u` to `v`, follows the order of entry, and its key is among `keys`. */
  ghost predicate Recorded(g: Graph, order: seq<string>, u: string, v: string, keys: set<string>) {
    exists c :: ClosesOn(g, order, c, u, v) && CycleKey(c) in keys
  }

  ghost predicate ClosesOn(g: Graph, order: seq<string>, c: seq<string>, u: string, v: string) {
    IsCycle(g, c) && Distinct(c) && Follows(order, c) && c[0] == v && c[|c| - 1] == u
  }

  /** Every cycle found is a simple directed cycle, and no two have the same key; `keys` are their keys. */
  ghost predicate GoodCycles(g: Graph, order: seq<string>, cycles: seq<seq<string>>, keys: set<string>) {
    && (forall i :: 0 <= i < |cycles| ==> IsCycle(g, cycles[i]) && Distinct(cycles[i]) && Follows(order, cycles[i]) && CycleKey(cycles[i]) in keys)
    && (forall i, j :: 0 <= i < j < |cycles| ==> CycleKey(cycles[i]) != CycleKey(cycles[j]))
    && (forall k :: k in keys ==> exists i :: 0 <= i < |cycles| && CycleKey(cycles[i]) == k)
  }

  /** Each finished agent delegates only to agents finished before it, or along an edge that closes a recorded cycle. */
  ghost predicate Settled(g: Graph, order: seq<string>, finished: seq<string>, keys: set<string>) {
    forall k, v :: 0 <= k < |finished| && Delegates(g, finished[k], v) ==>
      v in finished[..k] || Recorded(g, order, finished[k], v, keys)
  }

  lemma RecordedGrows(g: Graph, order: seq<string>, order': seq<string>, u: string, v: string, keys: set<string>,
                      more: set<string>)
    requires Recorded(g, order, u, v, keys) && keys <= more && order <= order'
    ensures Recorded(g, order', u, v, more)
  {
    hide Follows;
    var c :| ClosesOn(g, order, c, u, v) && CycleKey(c) in keys;
    FollowsGrows(order, order', c);
    assert ClosesOn(g, order', c, u, v);
  }

  lemma SettledGrows(g: Graph, order: seq<string>, order': seq<string>, finished: seq<string>, keys: set<string>,
                     more: set<string>)
    requires Settled(g, order, finished, keys) && keys <= more && order <= order'
    ensures Settled(g, order', finished, more)
  {
    hide Recorded;
    forall k, v | 0 <= k < |finished| && Delegates(g, finished[k], v)
      ensures v in finished[..k] || Recorded(g, order', finished[k], v, more)
    {
      if v !in finished[..k] {
        RecordedGrows(g, order, order', finished[k], v, keys, more);
      }
    }
  }

  lemma GoodCyclesLater(g: Graph, order: seq<string>, order': seq<string>, cycles: seq<seq<string>>, keys: set<string>)
    requires GoodCycles(g, order, cycles, keys) && order <= order'
    ensures GoodCycles(g, order', cycles, keys)
  {
    hide Follows, CycleKey, IsCycle;
    forall i | 0 <= i < |cycles| ensures Follows(order', cycles[i]) {
      FollowsGrows(order, order', cycles[i]);
    }
  }

  lemma SettledAppend(g: Graph, order: seq<string>, finished: seq<string>, u: string, keys: set<string>)
    requires Settled(g, order, finished, keys)
    requires forall v :: Delegates(g, u, v) ==> v in finished || Recorded(g, order, u, v, keys)
    ensures Settled(g, order, finished + [u], keys)
  {
    var f := finished + [u];
    forall k, v | 0 <= k < |f| && Delegates(g, f[k], v)
      ensures v in f[..k] || Recorded(g, order, f[k], v, keys)
    {
      if k < |finished| {
        assert f[..k] == finished[..k];
      } else {
        assert f[..k] == finished;
      }
    }
  }

  lemma GoodCyclesAppend(g: Graph, order: seq<string>, cycles: seq<seq<string>>, keys: set<string>, c: seq<string>)
    requires GoodCycles(g, order, cycles, keys) && IsCycle(g, c) && Distinct(c) && Follows(order, c) && CycleKey(c) !in keys
    ensures GoodCycles(g, order, cycles + [c], keys + {CycleKey(c)})
  {
    var more := cycles + [c];
    forall k | k in keys + {CycleKey(c)} ensures exists i :: 0 <= i < |more| && CycleKey(more[i]) == k {
      if k in keys {
        var i :| 0 <= i < |cycles| && CycleKey(cycles[i]) == k;
        assert CycleKey(more[i]) == k;
      } else {
        assert CycleKey(more[|cycles|]) == k;
      }
    }
  }

  class CycleDetector {
    const adjacency: Graph
    ghost const universe: set<string>
    var visited: set<string>
    var onStack: set<string>
    var stack: seq<string>
    var cycles: seq<seq<string>>
    var seenCycle: set<string>
    ghost var finished: seq<string>
    ghost var entered: seq<string>

    constructor (g: Graph)
      ensures Valid() && adjacency == g && stack == [] && cycles == [] && visited == {} && g.Keys <= universe
    {
      adjacency := g;
      universe := g.Keys + set u, v | u in g && v in g[u] :: v;
      visited, onStack, stack := {}, {}, [];
      cycles, seenCycle := [], {};
      finished, entered := [], [];
    }

    /** The stack is a simple path, and every visited agent is either on it or finished. */
    ghost predicate Stacked()
      reads this
    {
      && (forall x :: x in onStack <==> x in stack)
      && Distinct(stack) && IsPath(adjacency, stack) && Follows(entered, stack) && Distinct(entered)
      && (forall x :: x in entered <==> x in visited)
      && onStack <= visited <= universe
      && (forall x :: x in finished <==> x in visited && x !in onStack)
    }

    ghost predicate Valid()
      reads this
    {
      && Stacked()
      && (forall u, v :: Delegates(adjacency, u, v) ==> v in universe)
      && GoodCycles(adjacency, entered, cycles, seenCycle)
      && Settled(adjacency, entered, finished, seenCycle)
    }

    /** What a step of the search leaves alone: the stack stays, everything else only grows. */
    twostate predicate Advanced()
      reads this
    {
      && stack == old(stack) && onStack == old(onStack)
      && old(visited) <= visited && old(seenCycle) <= seenCycle && old(cycles) <= cycles
      && (forall x :: x in old(finished) ==> x in finished) && old(entered) <= entered
    }

    /** The edge from the top of the stack back to `child` closes a cycle: the stack from `child` upwards is reported,
        unless its key was seen. */
    method Report(child: string)
      requires Valid() && child in onStack && Delegates(adjacency, stack[|stack| - 1], child)
      modifies this`cycles, this`seenCycle
      ensures Valid() && Advanced()
      ensures Recorded(adjacency, entered, stack[|stack| - 1], child, seenCycle)
      ensures exists start :: 0 <= start < |stack| && stack[start] == child && Reported(start)
    {
      hide Settled, GoodCycles, Recorded, IsCycle, Follows, CycleKey, Distinct, IsPath;
      var start := IndexOf(stack, child);
      var cycle := stack[start..];
      StackCycle(adjacency, stack, start);
      FollowsSuffix(entered, stack, start);
      var key := CycleKey(cycle);
      if key !in seenCycle {
        seenCycle := seenCycle + {key};
        cycles := cycles + [cycle];
        SettledGrows(adjacency, entered, entered, finished, old(seenCycle), seenCycle);
        GoodCyclesAppend(adjacency, entered, old(cycles), old(seenCycle), cycle);
      }
      ClosesHere(adjacency, entered, cycle, stack[|stack| - 1], child, seenCycle);
    }

    /** The stack from here upwards is added to the cycles exactly if its key is new. */
    twostate predicate Reported(start: nat)
      requires start < |stack|
      reads this
    {
      var cycle := stack[start..];
      cycles == (if CycleKey(cycle) in old(seenCycle) then old(cycles) else old(cycles) + [cycle])
      && seenCycle == old(seenCycle) + {CycleKey(cycle)}
    }

    method Enter(node: string)
      requires Valid() && node in universe && node !in visited
      requires stack != [] ==> Delegates(adjacency, stack[|stack| - 1], node)
      modifies this`visited, this`onStack, this`stack, this`entered
      ensures Valid() && stack == old(stack) + [node] && entered == old(entered) + [node]
      ensures visited == old(visited) + {node} && onStack == old(onStack) + {node} && node !in old(onStack)
    {
      hide Settled, GoodCycles, Follows;
      visited := visited + {node};
      onStack := onStack + {node};
      FollowsSnoc(entered, stack, node);
      stack := stack + [node];
      entered := entered + [node];
      SettledGrows(adjacency, old(entered), entered, finished, seenCycle, seenCycle);
      GoodCyclesLater(adjacency, old(entered), entered, cycles, seenCycle);
    }

    method Leave(node: string)
      requires Valid() && stack != [] && node == stack[|stack| - 1]
      requires Handled(adjacency, entered, node, Children(adjacency, node), finished, seenCycle)
      modifies this`onStack, this`stack, this`finished
      ensures Valid() && stack == old(stack)[..|old(stack)| - 1] && onStack == old(onStack) - {node}
      ensures finished == old(finished) + [node]
    {
      hide Settled, GoodCycles, Recorded, Follows;
      SettledAppend(adjacency, entered, finished, node, seenCycle);
      FollowsPrefix(entered, stack);
      stack := stack[..|stack| - 1];
      onStack := onStack - {node};
      finished := finished + [node];
    }

    /** One child of the agent on top of the stack. */
    method Follow(node: string, child: string)
      requires Valid() && stack != [] && node == stack[|stack| - 1] && Delegates(adjacency, node, child)
      modifies this
      ensures Valid() && Advanced()
      ensures child in finished || Recorded(adjacency, entered, node, child, seenCycle)
      decreases universe - visited, 1
    {
      hide GoodCycles, Settled, Recorded, IsPath, Distinct, Follows, Reported;
      if child in onStack {
        Report(child);
      } else if child !in visited {
        Dfs(child);
      } else {
        assert child in finished;
      }
    }

    method Dfs(node: string)
      requires Valid() && node in universe && node !in visited
      requires stack != [] ==> Delegates(adjacency, stack[|stack| - 1], node)
      modifies this
      ensures Valid() && Advanced() && node in finished
      decreases universe - visited, 0
    {
      hide Valid, Stacked, GoodCycles, Settled, Recorded, Delegates;
      Enter(node);
      var children := Children(adjacency, node);
      var i := 0;
      while i < |children|
        invariant 0 <= i <= |children|
        invariant Valid() && stack == old(stack) + [node] && onStack == old(onStack) + {node}
        invariant old(visited) + {node} <= visited && old(seenCycle) <= seenCycle && old(cycles) <= cycles
        invariant (forall x :: x in old(finished) ==> x in finished) && old(entered) <= entered
        invariant Handled(adjacency, entered, node, children[..i], finished, seenCycle)
      {
        ghost var before, keys, order := finished, seenCycle, entered;
        Follow(node, children[i]);
        HandledGrows(adjacency, order, entered, node, children[..i], before, finished, keys, seenCycle);
        assert children[..i + 1] == children[..i] + [children[i]];
        i := i + 1;
      }
      assert children[..i] == children;
      Leave(node);
    }
  }

  /** An agent's delegates in sorted order. */
  function Children(g: Graph, node: string): (c: seq<string>)
    ensures forall v :: v in c <==> Delegates(g, node, v)
    ensures Ascending(c)
  {
    var listed := if node in g then g[node] else [];
    SortStringsMember(listed);
    SortStringsAscending(listed);
    SortStrings(listed)
  }

  ghost predicate Handled(g: Graph, order: seq<string>, node: string, children: seq<string>, finished: seq<string>, keys: set<string>) {
    forall v :: v in children ==> v in finished || Recorded(g, order, node, v, keys)
  }

  lemma HandledGrows(g: Graph, order: seq<string>, order': seq<string>, node: string, children: seq<string>, f: seq<string>,
                     f': seq<string>, keys: set<string>, keys': set<string>)
    requires Handled(g, order, node, children, f, keys) && keys <= keys' && order <= order'
    requires forall x :: x in f ==> x in f'
    ensures Handled(g, order', node, children, f', keys')
  {
    hide Recorded;
    forall v | v in children && v !in f' ensures Recorded(g, order', node, v, keys') {
      RecordedGrows(g, order, order', node, v, keys, keys');
    }
  }

  lemma ClosesHere(g: Graph, order: seq<string>, c: seq<string>, u: string, v: string, keys: set<string>)
    requires ClosesOn(g, order, c, u, v) && CycleKey(c) in keys
    ensures Recorded(g, order, u, v, keys)
  {
  }

  lemma FollowsPrefix(order: seq<string>, c: seq<string>)
    requires Follows(order, c) && c != []
    ensures Follows(order, c[..|c| - 1])
  {
    hide Before;
  }

  method IndexOf(items: seq<string>, target: string) returns (i: nat)
    requires target in items
    ensures i < |items| && items[i] == target
  {
    i := 0;
    while items[i] != target
      invariant i < |items| && target !in items[..i]
      decreases |items| - i
    {
      assert items[..i + 1] == items[..i] + [items[i]];
      assert items == items[..i + 1] + items[i + 1..];
      i := i + 1;
    }
  }

  lemma StackCycle(g: Graph, stack: seq<string>, start: nat)
    requires start < |stack| && Distinct(stack) && IsPath(g, stack)
    requires Delegates(g, stack[|stack| - 1], stack[start])
    ensures IsCycle(g, stack[start..]) && Distinct(stack[start..])
  {
    var c := stack[start..];
    forall i | 0 <= i < |c| ensures Delegates(g, c[i], c[Next(i, |c|)]) {
      assert c[i] == stack[start + i];
      if i + 1 < |c| {
        assert Delegates(g, stack[start + i], stack[start + i + 1]);
      }
    }
  }

  // ----- Whole runs -----

  function Ids(agents: seq<Agent>): seq<string> {
    seq(|agents|, i requires 0 <= i < |agents| => agents[i].id)
  }

  /** The entry is this agent's, and the agent has none behind it. */
  ghost predicate IsLastOf(agents: seq<Agent>, u: string, i: nat) {
    i < |agents| && agents[i].id == u && forall j :: i < j < |agents| ==> agents[j].id != u
  }

  /** Where the last entry of an agent is, one entry further. */
  lemma LastOfNext(agents: seq<Agent>, u: string, i: nat)
    requires agents != []
    ensures var n := |agents| - 1;
            IsLastOf(agents, u, i) <==> if agents[n].id == u then i == n else i < n && IsLastOf(agents[..n], u, i)
  {
    var n := |agents| - 1;
    assert forall j :: 0 <= j < n ==> agents[..n][j] == agents[j];
  }

  /** An agent delegates to another exactly when its last entry lists it. */
  lemma {:induction false} DelegatesMeaning(agents: seq<Agent>, u: string, v: string)
    ensures Delegates(Adjacency(agents), u, v) <==>
      exists i: nat :: IsLastOf(agents, u, i) && v in agents[i].delegatesTo
  {
    if agents != [] {
      hide IsLastOf;
      var n := |agents| - 1;
      DelegatesMeaning(agents[..n], u, v);
      forall i: nat ensures IsLastOf(agents, u, i) <==> if agents[n].id == u then i == n else i < n && IsLastOf(agents[..n], u, i) {
        LastOfNext(agents, u, i);
      }
      assert forall j :: 0 <= j < n ==> agents[..n][j] == agents[j];
      assert agents[n].id == u ==> IsLastOf(agents, u, n);
    }
  }

  /** The entry kept for an agent is its last. */
  lemma {:induction false} ByIdMeaning(agents: seq<Agent>, a: Agent)
    ensures a.id in ById(agents) && ById(agents)[a.id] == a <==> exists i: nat :: IsLastOf(agents, a.id, i) && agents[i] == a
  {
    if agents != [] {
      hide IsLastOf;
      var n := |agents| - 1;
      ByIdMeaning(agents[..n], a);
      forall i: nat ensures IsLastOf(agents, a.id, i)
                            <==> if agents[n].id == a.id then i == n else i < n && IsLastOf(agents[..n], a.id, i) {
        LastOfNext(agents, a.id, i);
      }
      assert forall j :: 0 <= j < n ==> agents[..n][j] == agents[j];
      assert agents[n].id == a.id ==> IsLastOf(agents, a.id, n);
    }
  }

  lemma {:induction false} AdjacencyKeys(agents: seq<Agent>)
    ensures forall u :: u in Adjacency(agents) <==> u in Ids(agents)
  {
    if agents != [] {
      var n := |agents| - 1;
      AdjacencyKeys(agents[..n]);
      assert Ids(agents) == Ids(agents[..n]) + [agents[n].id];
    }
  }

  function Keys(cycles: seq<seq<string>>): set<string> {
    set i | 0 <= i < |cycles| :: CycleKey(cycles[i])
  }

  /** Every directed cycle runs along some edge that closes a simple cycle whose key is among `keys`. */
  ghost predicate CoversEveryCycle(g: Graph, order: seq<string>, keys: set<string>) {
    forall c :: ClosesOnRecorded(g, order, c, keys)
  }

  /** Every directed cycle has an edge on which some simple cycle with a reported key closes. */
  ghost predicate ClosesEveryCycle(g: Graph, keys: set<string>) {
    forall c :: IsCycle(g, c) ==> exists i :: 0 <= i < |c| && ClosesWithKey(g, c[i], c[Next(i, |c|)], keys)
  }

  ghost predicate ClosesWithKey(g: Graph, u: string, v: string, keys: set<string>) {
    exists d :: IsCycle(g, d) && Distinct(d) && d[0] == v && d[|d| - 1] == u && CycleKey(d) in keys
  }

  lemma CoveringCloses(g: Graph, order: seq<string>, keys: set<string>)
    requires CoversEveryCycle(g, order, keys)
    ensures ClosesEveryCycle(g, keys)
  {
    hide Follows, CycleKey, Distinct;
    forall c | IsCycle(g, c) ensures exists i :: 0 <= i < |c| && ClosesWithKey(g, c[i], c[Next(i, |c|)], keys) {
      assert ClosesOnRecorded(g, order, c, keys);
      var i :| 0 <= i < |c| && Recorded(g, order, c[i], c[Next(i, |c|)], keys);
      var d :| ClosesOn(g, order, d, c[i], c[Next(i, |c|)]) && CycleKey(d) in keys;
      assert ClosesWithKey(g, c[i], c[Next(i, |c|)], keys);
    }
  }

  ghost predicate ClosesOnRecorded(g: Graph, order: seq<string>, c: seq<string>, keys: set<string>) {
    IsCycle(g, c) ==> exists i :: 0 <= i < |c| && Recorded(g, order, c[i], c[Next(i, |c|)], keys)
  }

  /** Along a cycle with no recorded edge, each agent finished before the one that delegates to it: impossible. */
  lemma {:induction false} DescendForever(g: Graph, order: seq<string>, finished: seq<string>, keys: set<string>, c: seq<string>, k: nat,
                                          i: nat)
    requires Settled(g, order, finished, keys) && IsCycle(g, c)
    requires forall j :: 0 <= j < |c| ==> !Recorded(g, order, c[j], c[Next(j, |c|)], keys)
    requires k < |finished| && i < |c| && finished[k] == c[i]
    ensures false
    decreases k
  {
    var j := Next(i, |c|);
    assert Delegates(g, finished[k], c[j]);
    assert c[j] in finished[..k];
    var k' :| 0 <= k' < k && finished[k'] == c[j];
    DescendForever(g, order, finished, keys, c, k', j);
  }

  lemma SettledCoversEveryCycle(g: Graph, order: seq<string>, finished: seq<string>, keys: set<string>)
    requires Settled(g, order, finished, keys)
    requires forall u :: u in g ==> u in finished
    ensures CoversEveryCycle(g, order, keys)
  {
    forall c ensures ClosesOnRecorded(g, order, c, keys) {
      if IsCycle(g, c) && forall j :: 0 <= j < |c| ==> !Recorded(g, order, c[j], c[Next(j, |c|)], keys) {
        assert Delegates(g, c[0], c[Next(0, |c|)]);
        var k :| 0 <= k < |finished| && finished[k] == c[0];
        DescendForever(g, order, finished, keys, c, k, 0);
      }
    }
  }

  lemma NoCyclesIffAcyclic(g: Graph, order: seq<string>, cycles: seq<seq<string>>, keys: set<string>)
    requires GoodCycles(g, order, cycles, keys) && CoversEveryCycle(g, order, keys)
    ensures cycles == [] <==> Acyclic(g)
  {
    if cycles == [] {
      forall c ensures !IsCycle(g, c) {
        assert ClosesOnRecorded(g, order, c, keys);
      }
    } else {
      assert IsCycle(g, cycles[0]);
    }
  }

  lemma DistinctKeysDistinctAgents(g: Graph, order: seq<string>, cycles: seq<seq<string>>, keys: set<string>)
    requires GoodCycles(g, order, cycles, keys)
    ensures forall i, j :: 0 <= i < j < |cycles| ==> !SameAgents(cycles[i], cycles[j])
  {
    forall i, j | 0 <= i < j < |cycles| ensures !SameAgents(cycles[i], cycles[j]) {
      if SameAgents(cycles[i], cycles[j]) {
        SameAgentsSameKey(cycles[i], cycles[j]);
      }
    }
  }

  /** Every directed cycle has an edge that closes a reported cycle: the report starts where the edge ends and ends where
      it starts. */
  ghost predicate ReportsEveryCycle(g: Graph, cycles: seq<seq<string>>) {
    forall c :: IsCycle(g, c) ==> exists i :: 0 <= i < |c| && ReportsEdge(cycles, c[i], c[Next(i, |c|)])
  }

  ghost predicate ReportsEdge(cycles: seq<seq<string>>, u: string, v: string) {
    exists r :: 0 <= r < |cycles| && cycles[r] != [] && cycles[r][0] == v && cycles[r][|cycles[r]| - 1] == u
  }

  /** Simple cycles with one key have the same agents. */
  ghost predicate KeysTellCyclesApart(g: Graph) {
    forall c, d :: SharesKey(g, c, d) ==> SameAgents(c, d)
  }

  /** Two simple cycles that the report remembers by one key. */
  ghost predicate SharesKey(g: Graph, c: seq<string>, d: seq<string>) {
    IsCycle(g, c) && IsCycle(g, d) && Distinct(c) && Distinct(d) && CycleKey(c) == CycleKey(d)
  }

  /** The report with the key of a stack segment has its agents, when keys tell cycles apart, and so it is that segment. */
  lemma RecordedIsReported(g: Graph, order: seq<string>, cycles: seq<seq<string>>, keys: set<string>, u: string, v: string)
    requires Distinct(order) && GoodCycles(g, order, cycles, keys) && Recorded(g, order, u, v, keys)
    requires KeysTellCyclesApart(g)
    ensures ReportsEdge(cycles, u, v)
  {
    hide Follows, CycleKey, Distinct;
    var c :| ClosesOn(g, order, c, u, v) && CycleKey(c) in keys;
    var r :| 0 <= r < |cycles| && CycleKey(cycles[r]) == CycleKey(c);
    assert SharesKey(g, c, cycles[r]);
    OneListPerAgents(order, c, cycles[r]);
  }

  /** Without commas in the identifiers they do. */
  lemma CommaFreeKeys(g: Graph)
    requires forall x :: x in g ==> ',' !in x
    ensures KeysTellCyclesApart(g)
  {
    hide CycleKey, Distinct, SameAgents;
    forall c, d | SharesKey(g, c, d) ensures SameAgents(c, d) {
      CycleAgentsDelegate(g, c);
      CycleAgentsDelegate(g, d);
      SameKeySameAgents(c, d);
    }
  }

  lemma CycleAgentsDelegate(g: Graph, c: seq<string>)
    requires IsCycle(g, c)
    ensures forall x :: x in c ==> x in g
  {
    forall x | x in c ensures x in g {
      var i :| 0 <= i < |c| && c[i] == x;
      assert Delegates(g, c[i], c[Next(i, |c|)]);
    }
  }

  lemma EveryCycleIsReported(g: Graph, order: seq<string>, cycles: seq<seq<string>>, keys: set<string>)
    requires Distinct(order) && GoodCycles(g, order, cycles, keys) && CoversEveryCycle(g, order, keys)
    requires KeysTellCyclesApart(g)
    ensures ReportsEveryCycle(g, cycles)
  {
    forall c | IsCycle(g, c) ensures exists i :: 0 <= i < |c| && ReportsEdge(cycles, c[i], c[Next(i, |c|)]) {
      assert ClosesOnRecorded(g, order, c, keys);
      var i :| 0 <= i < |c| && Recorded(g, order, c[i], c[Next(i, |c|)], keys);
      RecordedIsReported(g, order, cycles, keys, c[i], c[Next(i, |c|)]);
    }
  }

  /** Circular delegation.  Everything reported is a simple directed cycle, nothing is reported twice, nothing is
      reported exactly when there is no cycle, and every cycle runs along an edge that closes a reported one, up to
      the keys cycles are remembered by, and without exception when those tell cycles apart. */
  method DetectDelegationCycles(agents: seq<Agent>) returns (cycles: seq<seq<string>>)
    ensures forall c :: c in cycles ==> IsCycle(Adjacency(agents), c) && Distinct(c)
    ensures forall i, j :: 0 <= i < j < |cycles| ==> !SameAgents(cycles[i], cycles[j]) && CycleKey(cycles[i]) != CycleKey(cycles[j])
    ensures cycles == [] <==> Acyclic(Adjacency(agents))
    ensures ClosesEveryCycle(Adjacency(agents), Keys(cycles))
    ensures KeysTellCyclesApart(Adjacency(agents)) ==> ReportsEveryCycle(Adjacency(agents), cycles)
  {
    hide GoodCycles, Settled, Follows, CycleKey, IsCycle, Distinct, SameAgents, ClosesEveryCycle, ReportsEveryCycle, Acyclic;
    hide Adjacency, SortStrings, Keys, IsPath, Delegates;
    var g := Adjacency(agents);
    var ids := SortStrings(Ids(agents));
    SortStringsMember(Ids(agents));
    AdjacencyKeys(agents);
    var d := new CycleDetector(g);
    for n := 0 to |ids|
      invariant d.Valid() && d.stack == [] && d.adjacency == g
      invariant forall j :: 0 <= j < n ==> ids[j] in d.finished
    {
      assert ids[n] in g;
      if ids[n] !in d.visited {
        d.Dfs(ids[n]);
      }
    }
    cycles := d.cycles;
    RunSummary(agents, d.entered, cycles, d.seenCycle, d.finished);
  }

  lemma CyclesAreReal(g: Graph, order: seq<string>, cycles: seq<seq<string>>, keys: set<string>)
    requires GoodCycles(g, order, cycles, keys)
    ensures forall c :: c in cycles ==> IsCycle(g, c) && Distinct(c)
    ensures forall i, j :: 0 <= i < j < |cycles| ==> CycleKey(cycles[i]) != CycleKey(cycles[j])
  {
    hide IsCycle, Distinct, CycleKey, Follows;
  }

  lemma RunSummary(agents: seq<Agent>, order: seq<string>, cycles: seq<seq<string>>, keys: set<string>, finished: seq<string>)
    requires GoodCycles(Adjacency(agents), order, cycles, keys) && Settled(Adjacency(agents), order, finished, keys) && Distinct(order)
    requires forall u :: u in Adjacency(agents) ==> u in finished
    ensures forall c :: c in cycles ==> IsCycle(Adjacency(agents), c) && Distinct(c)
    ensures forall i, j :: 0 <= i < j < |cycles| ==> !SameAgents(cycles[i], cycles[j]) && CycleKey(cycles[i]) != CycleKey(cycles[j])
    ensures cycles == [] <==> Acyclic(Adjacency(agents))
    ensures ClosesEveryCycle(Adjacency(agents), Keys(cycles))
    ensures KeysTellCyclesApart(Adjacency(agents)) ==> ReportsEveryCycle(Adjacency(agents), cycles)
  {
    hide GoodCycles, Settled, Follows, CycleKey, IsCycle, Distinct, SameAgents, CoversEveryCycle, ClosesEveryCycle, ReportsEveryCycle;
    hide Acyclic, Adjacency, Keys;
    var g := Adjacency(agents);
    CyclesAreReal(g, order, cycles, keys);
    SettledCoversEveryCycle(g, order, finished, keys);
    KeysAreSeen(g, order, cycles, keys);
    CoveringCloses(g, order, keys);
    NoCyclesIffAcyclic(g, order, cycles, keys);
    DistinctKeysDistinctAgents(g, order, cycles, keys);
    if KeysTellCyclesApart(g) {
      EveryCycleIsReported(g, order, cycles, keys);
    }
  }

  /** Agents without a comma in their identifiers have cycles that keys tell apart. */
  lemma CommaFreeAgents(agents: seq<Agent>)
    requires forall a :: a in agents ==> ',' !in a.id
    ensures KeysTellCyclesApart(Adjacency(agents))
  {
    hide KeysTellCyclesApart, Adjacency;
    AdjacencyKeys(agents);
    forall x | x in Adjacency(agents) ensures ',' !in x {
      var i :| 0 <= i < |agents| && Ids(agents)[i] == x;
      assert agents[i] in agents;
    }
    CommaFreeKeys(Adjacency(agents));
  }

  lemma KeysAreSeen(g: Graph, order: seq<string>, cycles: seq<seq<string>>, keys: set<string>)
    requires GoodCycles(g, order, cycles, keys)
    ensures Keys(cycles) == keys
  {
  }

  lemma AdjacencySnoc(agents: seq<Agent>, a: Agent)
    ensures Adjacency(agents + [a]) == Adjacency(agents)[a.id := a.delegatesTo]
  {
    assert (agents + [a])[..|agents|] == agents;
  }

  lemma TwoCycle(g: Graph, x: string, y: string)
    requires x in g && y in g && g[x] == [y] && g[y] == [x]
    ensures IsCycle(g, [x, y])
  {
  }

  /** What is always promised of a report: real, simple cycles, no two with one key. */
  ghost predicate MeetsReport(agents: seq<Agent>, cycles: seq<seq<string>>) {
    (forall c :: c in cycles ==> IsCycle(Adjacency(agents), c) && Distinct(c))
    && forall i, j :: 0 <= i < j < |cycles| ==> CycleKey(cycles[i]) != CycleKey(cycles[j])
  }

  /** A cycle with just these agents is reported, wherever it starts. */
  ghost predicate HasAgents(cycles: seq<seq<string>>, c: seq<string>) {
    exists r :: 0 <= r < |cycles| && SameAgents(cycles[r], c)
  }

  /** Of any two simple cycles with different agents that share a key, no report has both. */
  lemma SharedKeyHidesACycle(agents: seq<Agent>, cycles: seq<seq<string>>, first: seq<string>, second: seq<string>)
    requires MeetsReport(agents, cycles) && SharesKey(Adjacency(agents), first, second) && !SameAgents(first, second)
    ensures !(HasAgents(cycles, first) && HasAgents(cycles, second))
  {
    hide CycleKey, Distinct;
    if HasAgents(cycles, first) && HasAgents(cycles, second) {
      var i :| 0 <= i < |cycles| && SameAgents(cycles[i], first);
      var j :| 0 <= j < |cycles| && SameAgents(cycles[j], second);
      assert cycles[i] in cycles && cycles[j] in cycles;
      assert i != j;
      SameAgentsSameKey(cycles[i], first);
      SameAgentsSameKey(cycles[j], second);
    }
  }

  /** The cycle is the only one through each of its edges. */
  ghost predicate Isolated(g: Graph, c: seq<string>) {
    forall d, i :: IsCycle(g, d) && Distinct(d) && 0 <= i < |c| && d[0] == c[Next(i, |c|)] && d[|d| - 1] == c[i] ==> SameAgents(d, c)
  }

  /** When no other cycle runs along the edges of either, no report closes every cycle. */
  lemma SharedKeyFailsTheReport(agents: seq<Agent>, cycles: seq<seq<string>>, first: seq<string>, second: seq<string>)
    requires MeetsReport(agents, cycles) && SharesKey(Adjacency(agents), first, second) && !SameAgents(first, second)
    requires Isolated(Adjacency(agents), first) && Isolated(Adjacency(agents), second)
    ensures !ReportsEveryCycle(Adjacency(agents), cycles)
  {
    hide CycleKey, Distinct, SameAgents, IsCycle;
    if ReportsEveryCycle(Adjacency(agents), cycles) {
      IsolatedIsReported(agents, cycles, first);
      IsolatedIsReported(agents, cycles, second);
      SharedKeyHidesACycle(agents, cycles, first, second);
    }
  }

  lemma IsolatedIsReported(agents: seq<Agent>, cycles: seq<seq<string>>, c: seq<string>)
    requires MeetsReport(agents, cycles) && ReportsEveryCycle(Adjacency(agents), cycles)
    requires IsCycle(Adjacency(agents), c) && Isolated(Adjacency(agents), c)
    ensures HasAgents(cycles, c)
  {
    hide CycleKey, Distinct, SameAgents, IsCycle;
    var i :| 0 <= i < |c| && ReportsEdge(cycles, c[i], c[Next(i, |c|)]);
    var r :| 0 <= r < |cycles| && cycles[r] != [] && cycles[r][0] == c[Next(i, |c|)] && cycles[r][|cycles[r]| - 1] == c[i];
    assert cycles[r] in cycles;
  }

  lemma TwoCycleIsolated(g: Graph, x: string, y: string)
    requires x != y && x in g && y in g && g[x] == [y] && g[y] == [x]
    ensures Isolated(g, [x, y])
  {
    var c := [x, y];
    forall d, i | IsCycle(g, d) && Distinct(d) && 0 <= i < |c| && d[0] == c[Next(i, |c|)] && d[|d| - 1] == c[i]
      ensures SameAgents(d, c)
    {
      assert Delegates(g, d[0], d[Next(0, |d|)]);
      assert d == [d[0], d[1]];
    }
  }

  /** With commas in the identifiers there can be such a pair, and no report of this graph closes every cycle. */
  lemma CommasShareAKey()
    ensures var agents := [] + [Agent("a,b", ["c"], [])] + [Agent("c", ["a,b"], [])] + [Agent("a", ["b,c"], [])] + [Agent("b,c", ["a"], [])];
            var first, second := ["a,b", "c"], ["a", "b,c"];
            && SharesKey(Adjacency(agents), first, second) && (forall x :: x in first ==> x !in second)
            && !KeysTellCyclesApart(Adjacency(agents))
            && forall cycles :: MeetsReport(agents, cycles) ==> !ReportsEveryCycle(Adjacency(agents), cycles)
  {
    hide ReportsEveryCycle, MeetsReport, CycleKey;
    var one := [] + [Agent("a,b", ["c"], [])];
    var two := one + [Agent("c", ["a,b"], [])];
    var three := two + [Agent("a", ["b,c"], [])];
    AdjacencySnoc([], Agent("a,b", ["c"], []));
    AdjacencySnoc(one, Agent("c", ["a,b"], []));
    AdjacencySnoc(two, Agent("a", ["b,c"], []));
    AdjacencySnoc(three, Agent("b,c", ["a"], []));
    var g := Adjacency(three + [Agent("b,c", ["a"], [])]);
    TwoCycle(g, "a,b", "c");
    TwoCycle(g, "a", "b,c");
    SameCommaKey();
    var first, second := ["a,b", "c"], ["a", "b,c"];
    assert SharesKey(g, first, second);
    assert first[0] in first && !SameAgents(first, second);
    TwoCycleIsolated(g, "a,b", "c");
    TwoCycleIsolated(g, "a", "b,c");
    var agents := three + [Agent("b,c", ["a"], [])];
    forall cycles | MeetsReport(agents, cycles) ensures !ReportsEveryCycle(g, cycles) {
      SharedKeyFailsTheReport(agents, cycles, first, second);
    }
  }

  lemma SameCommaKey()
    ensures CycleKey(["a,b", "c"]) == CycleKey(["a", "b,c"])
  {
    SortedPair("a,b", "c");
    SortedPair("a", "b,c");
    assert "a,b" + "," + "c" == "a" + "," + "b,c";
  }

  lemma SortedPair(x: string, y: string)
    requires Leq(x, y)
    ensures CycleKey([x, y]) == x + "," + y
  {
    SortOne(y);
    assert [x, y][1..] == [y];
    assert InsertString(x, [y]) == [x] + [y];
    assert SortStrings([x, y]) == [x, y];
    JoinTwo(x, y);
  }

  lemma SortOne(y: string)
    ensures SortStrings([y]) == [y]
  {
    assert [y][1..] == [];
    assert InsertString(y, []) == [y] + [];
  }

  lemma JoinTwo(x: string, y: string)
    ensures Join([x, y], ',') == x + "," + y
  {
    assert [x, y][1..] == [y];
    assert Join([y], ',') == y;
  }

  // ----- Scopes -----

  /** The entry that counts for an agent: the last one listed. */
  function ById(agents: seq<Agent>): map<string, Agent> {
    if agents == [] then map[]
    else
      var n := |agents| - 1;
      ById(agents[..n])[agents[n].id := agents[n]]
  }

  datatype Escalation = Escalation(parent: string, child: string, extra: seq<string>)

  /** `child` is a delegate of `parent`, both declare scopes, and the child's scope is not within the parent's. */
  ghost predicate Widens(byId: map<string, Agent>, parent: string, child: string) {
    && parent in byId && child in byId && child in byId[parent].delegatesTo
    && byId[parent].scope != [] && exists s :: s in byId[child].scope && s !in byId[parent].scope
  }

  /** The escalation names exactly the child's scopes the parent does not have. */
  ghost predicate Justified(byId: map<string, Agent>, e: Escalation) {
    && Widens(byId, e.parent, e.child)
    && forall s :: s in e.extra <==> s in byId[e.child].scope && s !in byId[e.parent].scope
  }

  function Extra(scope: seq<string>, allowed: seq<string>): (r: seq<string>)
    ensures forall s :: s in r <==> s in scope && s !in allowed
  {
    if scope == [] then []
    else (if scope[0] in allowed then [] else [scope[0]]) + Extra(scope[1..], allowed)
  }

  lemma {:induction false} ByIdKeys(agents: seq<Agent>)
    ensures forall u :: u in ById(agents) <==> u in Ids(agents)
  {
    if agents != [] {
      var n := |agents| - 1;
      ByIdKeys(agents[..n]);
      assert Ids(agents) == Ids(agents[..n]) + [agents[n].id];
    }
  }

  /** Reports come in the order of the children. */
  ghost predicate InChildOrder(out: seq<Escalation>) {
    forall i, j :: 0 <= i < j < |out| ==> Leq(out[i].child, out[j].child)
  }

  /** No report is about a child behind the `n`-th. */
  ghost predicate UpToChild(out: seq<Escalation>, children: seq<string>, n: nat) {
    forall i, j :: 0 <= i < |out| && n <= j < |children| ==> Leq(out[i].child, children[j])
  }

  lemma OneMore(out: seq<Escalation>, e: Escalation, children: seq<string>, n: nat)
    requires InChildOrder(out) && UpToChild(out, children, n) && Ascending(children) && n < |children| && e.child == children[n]
    ensures InChildOrder(out + [e]) && UpToChild(out + [e], children, n + 1)
  {
  }

  lemma NextChild(out: seq<Escalation>, children: seq<string>, n: nat)
    ensures UpToChild(out, children, n) ==> UpToChild(out, children, n + 1)
  {
  }


  /** The escalations of one parent over its sorted delegates. */
  method ParentEscalations(byId: map<string, Agent>, parent: string) returns (out: seq<Escalation>)
    requires parent in byId
    ensures forall e :: e in out ==> e.parent == parent && Justified(byId, e)
    ensures forall child :: Widens(byId, parent, child) ==> exists e :: e in out && e.child == child
    ensures InChildOrder(out) && forall e :: e in out ==> Ascending(e.extra)
  {
    hide Ascending;
    out := [];
    var p := byId[parent];
    if p.scope == [] {
      return;
    }
    var children := SortStrings(p.delegatesTo);
    SortStringsMember(p.delegatesTo);
    SortStringsAscending(p.delegatesTo);
    for n := 0 to |children|
      invariant forall e :: e in out ==> e.parent == parent && Justified(byId, e)
      invariant forall j :: 0 <= j < n && Widens(byId, parent, children[j]) ==> exists e :: e in out && e.child == children[j]
      invariant InChildOrder(out) && UpToChild(out, children, n) && forall e :: e in out ==> Ascending(e.extra)
    {
      var child := children[n];
      ghost var before := out;
      if child in byId && byId[child].scope != [] {
        var extra := Extra(byId[child].scope, p.scope);
        if extra != [] {
          SortStringsMember(extra);
          SortStringsAscending(extra);
          var e := Escalation(parent, child, SortStrings(extra));
          assert extra[0] in extra;
          assert Justified(byId, e);
          OneMore(out, e, children, n);
          out := out + [e];
          assert e in out;
        }
      }
      NextChild(out, children, n);
      forall j | 0 <= j <= n && Widens(byId, parent, children[j]) ensures exists e :: e in out && e.child == children[j] {
        if j < n {
          var e :| e in before && e.child == children[j];
          assert e in out;
        }
      }
    }
  }

  /** Reports come in the order of the parents. */
  ghost predicate InParentOrder(out: seq<Escalation>) {
    forall i, j :: 0 <= i < j < |out| ==> Leq(out[i].parent, out[j].parent)
  }

  ghost predicate UpToParent(out: seq<Escalation>, ids: seq<string>, n: nat) {
    forall i, j :: 0 <= i < |out| && n <= j < |ids| ==> Leq(out[i].parent, ids[j])
  }

  lemma ParentDone(out: seq<Escalation>, more: seq<Escalation>, ids: seq<string>, n: nat)
    requires InParentOrder(out) && UpToParent(out, ids, n) && Ascending(ids) && n < |ids|
    requires forall e :: e in more ==> e.parent == ids[n]
    ensures InParentOrder(out + more) && UpToParent(out + more, ids, n + 1)
  {
    LeqTotal(ids[n], ids[n]);
    var all := out + more;
    forall i | |out| <= i < |all| ensures all[i].parent == ids[n] {
      assert all[i] in more;
    }
  }


  /** Delegated authority escalation: one report at least for every widening delegation, and none else. */
  method DetectScopeEscalations(agents: seq<Agent>) returns (out: seq<Escalation>)
    ensures forall e :: e in out ==> Justified(ById(agents), e)
    ensures forall parent, child :: Widens(ById(agents), parent, child) ==> exists e :: e in out && e.parent == parent && e.child == child
    ensures out == [] ==> NeverWidens(ById(agents))
    ensures InParentOrder(out)
    ensures forall e :: e in out ==> Ascending(e.extra)
  {
    hide Ascending;
    var byId := ById(agents);
    var ids := SortStrings(Ids(agents));
    SortStringsMember(Ids(agents));
    SortStringsAscending(Ids(agents));
    ByIdKeys(agents);
    out := [];
    for n := 0 to |ids|
      invariant forall e :: e in out ==> Justified(byId, e)
      invariant forall j, child :: 0 <= j < n && Widens(byId, ids[j], child) ==> exists e :: e in out && e.parent == ids[j] && e.child == child
      invariant InParentOrder(out) && UpToParent(out, ids, n) && forall e :: e in out ==> Ascending(e.extra)
    {
      ghost var before := out;
      assert ids[n] in byId;
      var more := ParentEscalations(byId, ids[n]);
      ParentDone(out, more, ids, n);
      out := out + more;
      forall j, child | 0 <= j <= n && Widens(byId, ids[j], child)
        ensures exists e :: e in out && e.parent == ids[j] && e.child == child
      {
        if j < n {
          var e :| e in before && e.parent == ids[j] && e.child == child;
          assert e in out;
        } else {
          var e :| e in more && e.child == child;
          assert e in out;
        }
      }
    }
  }

  ghost predicate NeverWidens(byId: map<string, Agent>) {
    forall parent, child :: !Widens(byId, parent, child)
  }

  /** A chain of delegations between agents that all declare a scope. */
  ghost predicate DeclaredChain(byId: map<string, Agent>, p: seq<string>) {
    && p != [] && (forall i :: 0 <= i < |p| ==> p[i] in byId && byId[p[i]].scope != [])
    && (forall i :: 0 <= i < |p| - 1 ==> p[i + 1] in byId[p[i]].delegatesTo)
  }

  /** Containment is transitive: with no escalation reported, nobody down a chain of declared scopes holds a scope
      the first agent does not hold. */
  lemma {:induction false} NoEscalationContainsChains(byId: map<string, Agent>, p: seq<string>, s: string)
    requires NeverWidens(byId) && DeclaredChain(byId, p) && s in byId[p[|p| - 1]].scope
    ensures s in byId[p[0]].scope
  {
    if |p| > 1 {
      var q := p[..|p| - 1];
      assert p[|q| - 1 + 1] in byId[p[|q| - 1]].delegatesTo;
      assert !Widens(byId, p[|q| - 1], p[|q|]);
      NoEscalationContainsChains(byId, q, s);
    }
  }
}
