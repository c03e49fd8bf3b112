/** Taint propagation through assignments, to a fixed point. */
module Taint {
  /** A target name and whether it is one of the privileged-context names. */
  datatype Target = Target(name: string, privileged: bool)

  /** An assignment, reduced to what the propagation looks at: whether its value is sanitised, the source its value
      names outright ("" if none) and whether that source is a summarised function, and the identifiers it reads. */
  datatype Assignment = Assignment(
    targets: seq<Target>, scope: string, sanitised: bool, source: string, summarised: bool, mentions: seq<string>)

  function VarKey(scope: string, name: string): string {
    scope + "::" + name
  }

  function KeysOf(a: Assignment): set<string> {
    set t | t in a.targets :: VarKey(a.scope, t.name)
  }

  /** Every key assigned anywhere: a name assigned in a function scope shadows the module's. */
  function Defined(all: seq<Assignment>): set<string> {
    set a, k | a in all && k in KeysOf(a) :: k
  }

  function Lookup(tainted: map<string, string>, defined: set<string>, scope: string, name: string): string {
    var key := VarKey(scope, name);
    if key in tainted && tainted[key] != "" then tainted[key]
    else if scope != "" && key in defined then ""
    else if scope != "" && VarKey("", name) in tainted then tainted[VarKey("", name)]
    else ""
  }

  // ----- What a flow is -----

  /** Reading `name` in `scope` can see the variable with key `k`. */
  ghost predicate Sees(defined: set<string>, scope: string, name: string, k: string) {
    k == VarKey(scope, name) || (scope != "" && VarKey(scope, name) !in defined && k == VarKey("", name))
  }

  predicate Begins(a: Assignment) {
    a.source != "" || exists t :: t in a.targets && t.privileged
  }

  /** `b` reads a variable that `a` assigns. */
  ghost predicate Feeds(defined: set<string>, a: Assignment, b: Assignment) {
    exists k, r :: k in KeysOf(a) && r in b.mentions && Sees(defined, b.scope, r, k)
  }

  /** A chain of unsanitised assignments, the first from a source, each reading a variable the one before assigns. */
  ghost predicate IsFlow(all: seq<Assignment>, chain: seq<Assignment>) {
    && chain != [] && Begins(chain[0])
    && (forall i :: 0 <= i < |chain| ==> chain[i] in all && !chain[i].sanitised)
    && (forall i :: 0 <= i < |chain| - 1 ==> Feeds(Defined(all), chain[i], chain[i + 1]))
  }

  /** Some flow ends in an assignment to the variable with key `k`. */
  ghost predicate Flows(all: seq<Assignment>, k: string) {
    exists chain :: IsFlow(all, chain) && k in KeysOf(chain[|chain| - 1])
  }

  // ----- Fixed points -----

  ghost predicate Hot(defined: set<string>, tainted: set<string>, scope: string, name: string) {
    exists k :: k in tainted && Sees(defined, scope, name, k)
  }

  /** The assignment passes taint on when these keys are tainted. */
  ghost predicate Fires(defined: set<string>, tainted: set<string>, a: Assignment) {
    !a.sanitised && (Begins(a) || exists r :: r in a.mentions && Hot(defined, tainted, a.scope, r))
  }

  ghost predicate Closed(all: seq<Assignment>, tainted: set<string>) {
    forall a :: a in all && Fires(Defined(all), tainted, a) ==> KeysOf(a) <= tainted
  }

  /** Flows reach only keys that every closed set has. */
  lemma {:induction false} FlowStaysInClosed(all: seq<Assignment>, tainted: set<string>, chain: seq<Assignment>)
    requires Closed(all, tainted) && IsFlow(all, chain)
    ensures KeysOf(chain[|chain| - 1]) <= tainted
  {
    var a := chain[|chain| - 1];
    if |chain| > 1 {
      var init := chain[..|chain| - 1];
      FlowStaysInClosed(all, tainted, init);
      assert Feeds(Defined(all), chain[|chain| - 2], chain[|chain| - 2 + 1]);
      var k, r :| k in KeysOf(chain[|chain| - 2]) && r in a.mentions && Sees(Defined(all), a.scope, r, k);
      assert Hot(Defined(all), tainted, a.scope, r);
    }
    assert Fires(Defined(all), tainted, a);
  }

  lemma FlowBegins(all: seq<Assignment>, a: Assignment, k: string)
    requires a in all && !a.sanitised && Begins(a) && k in KeysOf(a)
    ensures Flows(all, k)
  {
    assert IsFlow(all, [a]) && [a][|[a]| - 1] == a;
  }

  lemma FlowContinues(all: seq<Assignment>, a: Assignment, r: string, k': string, k: string)
    requires a in all && !a.sanitised && r in a.mentions && Sees(Defined(all), a.scope, r, k') && Flows(all, k')
    requires k in KeysOf(a)
    ensures Flows(all, k)
  {
    var chain :| IsFlow(all, chain) && k' in KeysOf(chain[|chain| - 1]);
    var more := chain + [a];
    forall i | 0 <= i < |more| - 1 ensures Feeds(Defined(all), more[i], more[i + 1]) {
      if i < |chain| - 1 {
        assert Feeds(Defined(all), chain[i], chain[i + 1]);
      }
    }
    assert IsFlow(all, more) && more[|more| - 1] == a;
  }

  ghost predicate AllFlow(all: seq<Assignment>, keys: set<string>) {
    forall k :: k in keys ==> Flows(all, k)
  }

  lemma FiringFlows(all: seq<Assignment>, tainted: set<string>, a: Assignment)
    requires a in all && AllFlow(all, tainted) && Fires(Defined(all), tainted, a)
    ensures AllFlow(all, KeysOf(a))
  {
    forall k | k in KeysOf(a) ensures Flows(all, k) {
      if Begins(a) {
        FlowBegins(all, a, k);
      } else {
        var r :| r in a.mentions && Hot(Defined(all), tainted, a.scope, r);
        var k' :| k' in tainted && Sees(Defined(all), a.scope, r, k');
        FlowContinues(all, a, r, k', k);
      }
    }
  }

  /** A closed set of keys that all lie on flows holds exactly the keys on flows, and is within every closed set. */
  lemma ClosedFlowsAreLeast(all: seq<Assignment>, tainted: set<string>)
    requires Closed(all, tainted) && AllFlow(all, tainted)
    ensures forall k :: k in tainted <==> Flows(all, k)
    ensures forall s :: Closed(all, s) ==> tainted <= s
  {
    forall k | Flows(all, k) ensures k in tainted {
      var chain :| IsFlow(all, chain) && k in KeysOf(chain[|chain| - 1]);
      FlowStaysInClosed(all, tainted, chain);
    }
    forall s, k | Closed(all, s) && k in tainted ensures k in s {
      var chain :| IsFlow(all, chain) && k in KeysOf(chain[|chain| - 1]);
      FlowStaysInClosed(all, s, chain);
    }
  }

  lemma FlowElsewhere(all: seq<Assignment>, other: seq<Assignment>, k: string)
    requires Flows(all, k) && forall a :: a in all <==> a in other
    ensures Flows(other, k)
  {
    assert Defined(all) == Defined(other);
    var chain :| IsFlow(all, chain) && k in KeysOf(chain[|chain| - 1]);
    assert IsFlow(other, chain);
  }

  /** Neither the order nor the repetition of assignments changes what flows. */
  lemma FlowsIgnoreOrder(all: seq<Assignment>, other: seq<Assignment>, k: string)
    requires forall a :: a in all <==> a in other
    ensures Flows(all, k) <==> Flows(other, k)
  {
    if Flows(all, k) {
      FlowElsewhere(all, other, k);
    }
    if Flows(other, k) {
      FlowElsewhere(other, all, k);
    }
  }

  // ----- Flows between variables, without keys -----

  datatype Variable = Variable(scope: string, name: string)

  ghost predicate Assigns(a: Assignment, v: Variable) {
    v.scope == a.scope && exists t :: t in a.targets && t.name == v.name
  }

  /** Reading `name` in an assignment of `b` sees its own scope's variable, or the module's when no assignment of its scope
      has that target. */
  ghost predicate SeesVariable(all: seq<Assignment>, b: Assignment, name: string, v: Variable) {
    v == Variable(b.scope, name)
    || (v == Variable("", name) && forall a :: a in all ==> !Assigns(a, Variable(b.scope, name)))
  }

  /** `b` reads a variable that `a` assigns. */
  ghost predicate Passes(all: seq<Assignment>, a: Assignment, b: Assignment) {
    exists v, r :: Assigns(a, v) && r in b.mentions && SeesVariable(all, b, r, v)
  }

  /** A chain of unsanitised assignments that starts at a source or a privileged name, each reading what the one before
      assigns. */
  ghost predicate IsVariableFlow(all: seq<Assignment>, chain: seq<Assignment>) {
    && chain != [] && (chain[0].source != "" || exists t :: t in chain[0].targets && t.privileged)
    && (forall i :: 0 <= i < |chain| ==> chain[i] in all && !chain[i].sanitised)
    && (forall i :: 0 <= i < |chain| - 1 ==> Passes(all, chain[i], chain[i + 1]))
  }

  ghost predicate FlowsTo(all: seq<Assignment>, v: Variable) {
    exists chain :: IsVariableFlow(all, chain) && Assigns(chain[|chain| - 1], v)
  }

  predicate ColonFree(all: seq<Assignment>) {
    forall a :: a in all ==> (forall t :: t in a.targets ==> ':' !in t.name) && forall r :: r in a.mentions ==> ':' !in r
  }

  /** Keys tell variables apart when names have no colon. */
  lemma KeysTellVariablesApart(scope: string, name: string, scope': string, name': string)
    requires ':' !in name && ':' !in name' && VarKey(scope, name) == VarKey(scope', name')
    ensures scope == scope' && name == name'
  {
    var k := VarKey(scope, name);
    var i, j := |scope| + 1, |scope'| + 1;
    assert k[i] == ':' && k[j] == ':';
    assert k[i + 1..] == name && k[j + 1..] == name';
    assert i == j;
    assert k[..|scope|] == scope && k[..|scope'|] == scope';
  }

  lemma KeyIsAssigned(a: Assignment, v: Variable)
    requires ':' !in v.name && forall t :: t in a.targets ==> ':' !in t.name
    ensures VarKey(v.scope, v.name) in KeysOf(a) <==> Assigns(a, v)
  {
    hide VarKey;
    forall t | t in a.targets && VarKey(a.scope, t.name) == VarKey(v.scope, v.name) ensures Assigns(a, v) {
      KeysTellVariablesApart(a.scope, t.name, v.scope, v.name);
    }
  }

  lemma DefinedMeaning(all: seq<Assignment>, v: Variable)
    requires ColonFree(all) && ':' !in v.name
    ensures VarKey(v.scope, v.name) in Defined(all) <==> exists a :: a in all && Assigns(a, v)
  {
    hide VarKey, KeysOf, Assigns;
    var k := VarKey(v.scope, v.name);
    forall a | a in all ensures k in KeysOf(a) <==> Assigns(a, v) {
      KeyIsAssigned(a, v);
    }
  }

  lemma SeesMeaning(all: seq<Assignment>, b: Assignment, name: string, v: Variable)
    requires ColonFree(all) && ':' !in v.name && ':' !in name
    ensures Sees(Defined(all), b.scope, name, VarKey(v.scope, v.name)) <==> SeesVariable(all, b, name, v)
  {
    hide VarKey, Defined, Assigns;
    DefinedMeaning(all, Variable(b.scope, name));
    if VarKey(v.scope, v.name) == VarKey(b.scope, name) {
      KeysTellVariablesApart(v.scope, v.name, b.scope, name);
    }
    if VarKey(v.scope, v.name) == VarKey("", name) {
      KeysTellVariablesApart(v.scope, v.name, "", name);
    }
  }

  lemma FeedsMeaning(all: seq<Assignment>, a: Assignment, b: Assignment)
    requires ColonFree(all) && a in all && b in all
    ensures Feeds(Defined(all), a, b) <==> Passes(all, a, b)
  {
    hide VarKey, Defined, Sees, SeesVariable;
    if Feeds(Defined(all), a, b) {
      var k, r :| k in KeysOf(a) && r in b.mentions && Sees(Defined(all), b.scope, r, k);
      var t :| t in a.targets && VarKey(a.scope, t.name) == k;
      var v := Variable(a.scope, t.name);
      SeesMeaning(all, b, r, v);
      assert Assigns(a, v);
    }
    if Passes(all, a, b) {
      var v, r :| Assigns(a, v) && r in b.mentions && SeesVariable(all, b, r, v);
      SeesMeaning(all, b, r, v);
      KeyIsAssigned(a, v);
    }
  }

  lemma ChainMeaning(all: seq<Assignment>, chain: seq<Assignment>)
    requires ColonFree(all)
    ensures IsFlow(all, chain) <==> IsVariableFlow(all, chain)
  {
    hide Feeds, Passes, ColonFree;
    if forall i :: 0 <= i < |chain| ==> chain[i] in all {
      forall i | 0 <= i < |chain| - 1 ensures Feeds(Defined(all), chain[i], chain[i + 1]) <==> Passes(all, chain[i], chain[i + 1]) {
        FeedsMeaning(all, chain[i], chain[i + 1]);
      }
    }
  }

  /** Flows to a key are flows to the variable. */
  lemma FlowsMeaning(all: seq<Assignment>, v: Variable)
    requires ColonFree(all) && ':' !in v.name
    ensures Flows(all, VarKey(v.scope, v.name)) <==> FlowsTo(all, v)
  {
    hide Feeds, Passes, VarKey, KeysOf, Assigns;
    var k := VarKey(v.scope, v.name);
    forall chain ensures IsFlow(all, chain) <==> IsVariableFlow(all, chain) {
      ChainMeaning(all, chain);
    }
    forall a | a in all ensures k in KeysOf(a) <==> Assigns(a, v) {
      KeyIsAssigned(a, v);
    }
    if chain :| IsFlow(all, chain) && k in KeysOf(chain[|chain| - 1]) {
      LastIsMember(all, chain);
      assert Assigns(chain[|chain| - 1], v);
    }
    if chain :| IsVariableFlow(all, chain) && Assigns(chain[|chain| - 1], v) {
      LastIsMember(all, chain);
      assert k in KeysOf(chain[|chain| - 1]);
    }
  }

  lemma LastIsMember(all: seq<Assignment>, chain: seq<Assignment>)
    requires IsVariableFlow(all, chain)
    ensures chain != [] && chain[|chain| - 1] in all
  {
  }

  /** A flow into a scope runs through assignments of the module and of that scope only. */
  lemma {:induction false} FlowStaysInScope(all: seq<Assignment>, chain: seq<Assignment>, i: nat)
    requires IsVariableFlow(all, chain) && i < |chain|
    ensures chain[i].scope == "" || chain[i].scope == chain[|chain| - 1].scope
    decreases |chain| - i
  {
    if i + 1 < |chain| {
      assert Passes(all, chain[i], chain[i + 1]);
      FlowStaysInScope(all, chain, i + 1);
    }
  }

  /** No variable of a scope is tainted when no unsanitised assignment of the scope or of the module begins a flow. */
  lemma CleanScopeIsUntainted(all: seq<Assignment>, v: Variable)
    requires forall a :: a in all && (a.scope == "" || a.scope == v.scope) && !a.sanitised ==>
               a.source == "" && forall t :: t in a.targets ==> !t.privileged
    ensures !FlowsTo(all, v)
  {
    if chain :| IsVariableFlow(all, chain) && Assigns(chain[|chain| - 1], v) {
      FlowStaysInScope(all, chain, 0);
    }
  }

  // ----- The propagation loop -----

  ghost predicate Named(tainted: map<string, string>) {
    forall k :: k in tainted ==> tainted[k] != ""
  }

  lemma LookupIsHot(tainted: map<string, string>, defined: set<string>, scope: string, name: string)
    requires Named(tainted)
    ensures Lookup(tainted, defined, scope, name) != "" <==> Hot(defined, tainted.Keys, scope, name)
  {
    var key := VarKey(scope, name);
    if key in tainted {
      assert Sees(defined, scope, name, key);
    } else if scope != "" && key !in defined && VarKey("", name) in tainted {
      assert Sees(defined, scope, name, VarKey("", name));
    }
  }

  function Marked(origin: string, summarised: bool): string {
    if summarised && !("function-summary:" <= origin) then "function-summary:" + origin else origin
  }

  predicate AssignsPrivileged(a: Assignment) {
    exists t :: t in a.targets && t.privileged
  }

  /** The origin recorded for what an assignment taints by itself. */
  function FirstOrigin(a: Assignment): string {
    Marked(if AssignsPrivileged(a) then "privileged_context" else a.source, a.source != "" && a.summarised)
  }

  /** A flow whose first assignment has this origin, and whose others take theirs from the one before. */
  ghost predicate Carries(all: seq<Assignment>, chain: seq<Assignment>, origin: string) {
    IsFlow(all, chain) && origin == FirstOrigin(chain[0]) && forall i :: 0 < i < |chain| ==> !Begins(chain[i])
  }

  /** Some flow to the variable with key `k` carries this origin. */
  ghost predicate ComesFrom(all: seq<Assignment>, k: string, origin: string) {
    exists chain :: Carries(all, chain, origin) && k in KeysOf(chain[|chain| - 1])
  }

  lemma MarkedMeaning(origin: string, summarised: bool)
    ensures Marked(origin, summarised) == origin || Marked(origin, summarised) == "function-summary:" + origin
    ensures "function-summary:" <= Marked(origin, summarised) <==> summarised || "function-summary:" <= origin
    ensures Marked(Marked(origin, true), true) == Marked(origin, true)
  {
  }

  /** The origin names the source or the privileged name at which some flow to the variable begins, and says whether it
      came through a summarised function. */
  lemma OriginIsNamed(all: seq<Assignment>, k: string, origin: string) returns (a: Assignment, name: string)
    requires ComesFrom(all, k, origin)
    ensures a in all && !a.sanitised && (a.source != "" || exists t :: t in a.targets && t.privileged)
    ensures name == if exists t :: t in a.targets && t.privileged then "privileged_context" else a.source
    ensures origin == name || origin == "function-summary:" + name
    ensures "function-summary:" <= origin <==> (a.source != "" && a.summarised) || "function-summary:" <= name
  {
    hide Marked, KeysOf;
    var chain :| Carries(all, chain, origin) && k in KeysOf(chain[|chain| - 1]);
    a := chain[0];
    name := if AssignsPrivileged(a) then "privileged_context" else a.source;
    MarkedMeaning(name, a.source != "" && a.summarised);
  }

  ghost predicate Explained(all: seq<Assignment>, tainted: map<string, string>) {
    forall k :: k in tainted ==> ComesFrom(all, k, tainted[k])
  }

  /** The origin is the assignment's own, or that of a variable it reads. */
  ghost predicate Draws(tainted: map<string, string>, defined: set<string>, a: Assignment, origin: string) {
    if Begins(a) then Marked(origin, a.source != "" && a.summarised) == FirstOrigin(a)
    else exists r, k :: r in a.mentions && k in tainted && Sees(defined, a.scope, r, k) && tainted[k] == origin
  }

  lemma OriginBegins(all: seq<Assignment>, a: Assignment, k: string)
    requires a in all && !a.sanitised && Begins(a) && k in KeysOf(a)
    ensures ComesFrom(all, k, FirstOrigin(a))
  {
    hide FirstOrigin;
    assert Carries(all, [a], FirstOrigin(a)) && [a][|[a]| - 1] == a;
  }

  lemma OriginContinues(all: seq<Assignment>, a: Assignment, r: string, k': string, k: string, origin: string)
    requires a in all && !a.sanitised && !Begins(a) && r in a.mentions && Sees(Defined(all), a.scope, r, k')
    requires ComesFrom(all, k', origin) && k in KeysOf(a)
    ensures ComesFrom(all, k, origin)
  {
    hide FirstOrigin, Begins, Sees;
    var chain :| Carries(all, chain, origin) && k' in KeysOf(chain[|chain| - 1]);
    var more := chain + [a];
    assert Feeds(Defined(all), chain[|chain| - 1], a);
    forall i | 0 <= i < |more| - 1 ensures Feeds(Defined(all), more[i], more[i + 1]) {
      if i < |chain| - 1 {
        assert Feeds(Defined(all), chain[i], chain[i + 1]);
      }
    }
    assert IsFlow(all, more) && more[|more| - 1] == a;
    assert Carries(all, more, origin);
  }

  /** What an assignment taints is explained when what it draws from is. */
  lemma DrawnIsExplained(all: seq<Assignment>, tainted: map<string, string>, a: Assignment, origin: string, k: string)
    requires a in all && !a.sanitised && Explained(all, tainted) && Draws(tainted, Defined(all), a, origin) && k in KeysOf(a)
    ensures ComesFrom(all, k, Marked(origin, a.source != "" && a.summarised))
  {
    hide ComesFrom, KeysOf, Sees, FirstOrigin, Defined;
    if Begins(a) {
      OriginBegins(all, a, k);
    } else {
      var r, k' :| r in a.mentions && k' in tainted && Sees(Defined(all), a.scope, r, k') && tainted[k'] == origin;
      OriginContinues(all, a, r, k', k, origin);
    }
  }

  /** The first origin an assignment draws its taint from, "" if none. */
  method Origin(tainted: map<string, string>, all: seq<Assignment>, a: Assignment) returns (origin: string)
    requires Named(tainted) && !a.sanitised
    ensures origin != "" <==> Fires(Defined(all), tainted.Keys, a)
    ensures origin != "" ==> Draws(tainted, Defined(all), a, origin)
  {
    var defined := Defined(all);
    origin := a.source;
    if origin == "" {
      for n := 0 to |a.mentions|
        invariant forall j :: 0 <= j < n ==> !Hot(defined, tainted.Keys, a.scope, a.mentions[j])
        invariant origin == ""
      {
        LookupIsHot(tainted, defined, a.scope, a.mentions[n]);
        var found := Lookup(tainted, defined, a.scope, a.mentions[n]);
        if found != "" {
          origin := found;
          assert a.mentions[n] in a.mentions;
          break;
        }
      }
    }
    for n := 0 to |a.targets|
      invariant forall j :: 0 <= j < n ==> !a.targets[j].privileged
    {
      if a.targets[n].privileged {
        return "privileged_context";
      }
    }
  }

  lemma MarkedIsSomething(origin: string, summarised: bool)
    requires origin != ""
    ensures Marked(origin, summarised) != ""
  {
  }

  /** Taint the targets that are not tainted yet. */
  method TaintTargets(tainted: map<string, string>, a: Assignment,
                      origin: string) returns (tainted': map<string, string>, changed: bool)
    requires Named(tainted) && origin != ""
    ensures Named(tainted') && tainted'.Keys == tainted.Keys + KeysOf(a)
    ensures changed <==> tainted'.Keys != tainted.Keys
    ensures forall k :: k in tainted ==> tainted'[k] == tainted[k]
    ensures forall k :: k in tainted' && k !in tainted ==> tainted'[k] == Marked(origin, a.source != "" && a.summarised)
  {
    hide Marked, VarKey;
    tainted', changed := tainted, false;
    MarkedIsSomething(origin, a.source != "" && a.summarised);
    for n := 0 to |a.targets|
      invariant Named(tainted') && tainted.Keys <= tainted'.Keys
      invariant tainted'.Keys == tainted.Keys + set j | 0 <= j < n :: VarKey(a.scope, a.targets[j].name)
      invariant changed <==> tainted'.Keys != tainted.Keys
      invariant forall k :: k in tainted ==> tainted'[k] == tainted[k]
      invariant forall k :: k in tainted' && k !in tainted ==> tainted'[k] == Marked(origin, a.source != "" && a.summarised)
    {
      var key := VarKey(a.scope, a.targets[n].name);
      if key !in tainted' {
        tainted', changed := tainted'[key := Marked(origin, a.source != "" && a.summarised)], true;
      }
    }
    assert KeysOf(a) == set j | 0 <= j < |a.targets| :: VarKey(a.scope, a.targets[j].name);
  }

  /** The assignments at the positions `fired` have all their targets tainted. */
  ghost predicate FiredIn(all: seq<Assignment>, fired: set<nat>, tainted: set<string>) {
    forall i :: i in fired ==> i < |all| && KeysOf(all[i]) <= tainted
  }

  lemma {:induction false} FiredBound(n: nat, fired: set<nat>)
    requires forall i :: i in fired ==> i < n
    ensures |fired| <= n
  {
    if n > 0 {
      FiredBound(n - 1, fired - {n - 1});
    }
  }

  /** One pass over the assignments.  A pass that taints anything taints the targets of an assignment that had
      untainted ones, so it fires an assignment that had not fired before. */
  method Pass(all: seq<Assignment>, tainted: map<string, string>, ghost fired: set<nat>)
      returns (tainted': map<string, string>, changed: bool, ghost fired': set<nat>)
    requires Named(tainted) && AllFlow(all, tainted.Keys) && Explained(all, tainted) && FiredIn(all, fired, tainted.Keys)
    ensures Named(tainted') && AllFlow(all, tainted'.Keys) && Explained(all, tainted') && FiredIn(all, fired', tainted'.Keys)
    ensures changed ==> fired < fired'
    ensures !changed ==> fired' >= fired && Closed(all, tainted'.Keys)
  {
    hide Fires, Flows, KeysOf, Defined, ComesFrom, Draws, Marked;
    tainted', changed, fired' := tainted, false, fired;
    for n := 0 to |all|
      invariant Named(tainted') && AllFlow(all, tainted'.Keys) && Explained(all, tainted')
      invariant FiredIn(all, fired', tainted'.Keys)
      invariant if changed then fired < fired' else fired <= fired' && tainted'.Keys == tainted.Keys
      invariant !changed ==> forall j :: 0 <= j < n && Fires(Defined(all), tainted'.Keys, all[j]) ==> KeysOf(all[j]) <= tainted'.Keys
    {
      var a := all[n];
      SanitisedNeverFires(Defined(all), tainted'.Keys, a);
      if !a.sanitised {
        var origin := Origin(tainted', all, a);
        if origin != "" {
          ghost var before := tainted'.Keys;
          var more;
          FiringFlows(all, before, a);
          forall k | k in KeysOf(a) ensures ComesFrom(all, k, Marked(origin, a.source != "" && a.summarised)) {
            DrawnIsExplained(all, tainted', a, origin, k);
          }
          tainted', more := TaintTargets(tainted', a, origin);
          changed := changed || more;
          fired' := fired' + {n};
        }
      }
    }
  }

  lemma SanitisedNeverFires(defined: set<string>, tainted: set<string>, a: Assignment)
    ensures a.sanitised ==> !Fires(defined, tainted, a)
  {
  }

  /** The propagation always stops because a pass changed nothing, at the latest in pass `|all| + 1`, and then the
      tainted variables are exactly those some flow reaches: the least set closed under the assignments. */
  method Propagate(all: seq<Assignment>) returns (tainted: map<string, string>, settled: bool, passes: nat)
    ensures settled && passes <= |all| + 1
    ensures forall k :: k in tainted <==> Flows(all, k)
    ensures ColonFree(all) ==> forall v: Variable :: ':' !in v.name ==> (VarKey(v.scope, v.name) in tainted <==> FlowsTo(all, v))
    ensures forall k :: k in tainted ==> tainted[k] != "" && ComesFrom(all, k, tainted[k])
    ensures Closed(all, tainted.Keys) && forall s :: Closed(all, s) ==> tainted.Keys <= s
  {
    hide Flows, Fires, KeysOf, ComesFrom, FlowsTo, VarKey, ColonFree;
    tainted, settled := map[], false;
    ghost var fired: set<nat> := {};
    passes := 0;
    while passes <= |all|
      invariant passes <= |all| + 1 && passes <= |fired|
      invariant Named(tainted) && AllFlow(all, tainted.Keys) && Explained(all, tainted) && FiredIn(all, fired, tainted.Keys)
      invariant settled ==> Closed(all, tainted.Keys)
    {
      ghost var before := fired;
      var changed;
      tainted, changed, fired := Pass(all, tainted, fired);
      passes := passes + 1;
      if !changed {
        settled := true;
        break;
      }
      MoreFired(before, fired);
    }
    FiredBound(|all|, fired);
    ClosedFlowsAreLeast(all, tainted.Keys);
    if ColonFree(all) {
      forall v: Variable | ':' !in v.name ensures VarKey(v.scope, v.name) in tainted <==> FlowsTo(all, v) {
        FlowsMeaning(all, v);
      }
    }
  }

  lemma MoreFired(fired: set<nat>, more: set<nat>)
    requires fired < more
    ensures |fired| < |more|
  {
    var x :| x in more - fired;
    assert more == fired + (more - fired);
  }
}
