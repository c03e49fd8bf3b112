/** The ledger of analyzer prerequisites, as a state machine over the operations that concurrent analyzers perform under
    its mutex, and the downgrade of a report by it. */
module Prerequisites {
  datatype State = Expected | Loaded | Rejected | Unavailable

  datatype Prerequisite = Prerequisite(analyzer: string, kind: string, name: string, digest: string, state: State, reason: string)

  function KeyOf(analyzer: string, kind: string, name: string): string {
    analyzer + "\0" + kind + "\0" + name
  }

  function KeyText(p: Prerequisite): string {
    KeyOf(p.analyzer, p.kind, p.name)
  }

  /** One call under the mutex. */
  datatype Op =
    | Expect(analyzer: string, kind: string, name: string)
    | Settle(analyzer: string, kind: string, name: string, digest: string, reason: string, state: State)
  {
    function Key(): string {
      KeyOf(analyzer, kind, name)
    }
  }

  datatype Contents = Contents(items: map<string, Prerequisite>, stray: seq<string>)

  function StateText(s: State): string {
    match s
    case Expected => "EXPECTED"
    case Loaded => "LOADED"
    case Rejected => "REJECTED"
    case Unavailable => "UNAVAILABLE"
  }

  function StrayText(op: Op): string
    requires op.Settle?
  {
    op.analyzer + "/" + op.kind + "/" + op.name + " settled as " + StateText(op.state) + " without being expected"
  }

  predicate Failing(s: State) {
    s == Rejected || s == Unavailable
  }

  /** What one call does. */
  function After(c: Contents, op: Op): Contents {
    var key := op.Key();
    match op
    case Expect(analyzer, kind, name) =>
      if key in c.items then c else c.(items := c.items[key := Prerequisite(analyzer, kind, name, "", Expected, "")])
    case Settle(_, _, _, digest, reason, state) =>
      if key !in c.items then c.(stray := c.stray + [StrayText(op)])
      else if Failing(c.items[key].state) then c
      else c.(items := c.items[key := c.items[key].(state := state, digest := digest, reason := reason)])
  }

  /** The ledger after a whole history of calls, in the order in which they held the mutex. */
  function Replay(h: seq<Op>): Contents {
    if h == [] then Contents(map[], []) else After(Replay(h[..|h| - 1]), h[|h| - 1])
  }

  /** `Loaded`, `Rejected` and `Unavailable` are the only callers of `settle`. */
  predicate IsCall(op: Op) {
    op.Settle? ==> op.state != Expected
  }

  predicate AllCalls(h: seq<Op>) {
    forall i :: 0 <= i < |h| ==> IsCall(h[i])
  }

  // ----- What a history means, without replaying it -----

  predicate Expects(op: Op, key: string) {
    op.Expect? && op.Key() == key
  }

  predicate SettlesAs(op: Op, key: string, state: State) {
    op.Settle? && op.Key() == key && op.state == state
  }

  predicate Fails(op: Op, key: string) {
    op.Settle? && op.Key() == key && Failing(op.state)
  }

  predicate ExpectedBefore(h: seq<Op>, i: nat, key: string)
    requires i <= |h|
  {
    exists j :: 0 <= j < i && Expects(h[j], key)
  }

  predicate NoStray(h: seq<Op>) {
    forall i :: 0 <= i < |h| && h[i].Settle? ==> ExpectedBefore(h, i, h[i].Key())
  }

  predicate LoadedOnly(h: seq<Op>, key: string) {
    (exists i :: 0 <= i < |h| && SettlesAs(h[i], key, Loaded)) && (forall i :: 0 <= i < |h| ==> !Fails(h[i], key))
  }

  /** Something was expected, nothing was settled before being expected, and every expected key was loaded and never
      rejected or unavailable. */
  predicate CompleteHistory(h: seq<Op>) {
    (exists i :: 0 <= i < |h| && h[i].Expect?)
    && NoStray(h)
    && forall i :: 0 <= i < |h| && h[i].Expect? ==> LoadedOnly(h, h[i].Key())
  }

  predicate IsComplete(c: Contents) {
    c.items != map[] && c.stray == [] && forall k :: k in c.items ==> c.items[k].state == Loaded
  }

  /** The state a history leaves a key in, once it is expected and nothing strayed. */
  predicate StateAgrees(h: seq<Op>, key: string, state: State) {
    (Failing(state) <==> exists i :: 0 <= i < |h| && Fails(h[i], key))
    && (state == Loaded <==> LoadedOnly(h, key))
  }

  lemma {:induction false} KeysAreExpected(h: seq<Op>)
    ensures forall k :: k in Replay(h).items <==> ExpectedBefore(h, |h|, k)
    ensures forall k :: k in Replay(h).items ==> KeyText(Replay(h).items[k]) == k
  {
    hide KeyOf;
    if h != [] {
      var n := |h| - 1;
      var before := h[..n];
      KeysAreExpected(before);
      forall k ensures ExpectedBefore(h, |h|, k) <==> ExpectedBefore(before, n, k) || Expects(h[n], k) {
        if ExpectedBefore(before, n, k) {
          var j :| 0 <= j < n && Expects(before[j], k);
          assert Expects(h[j], k);
        }
        if ExpectedBefore(h, |h|, k) {
          var j :| 0 <= j < |h| && Expects(h[j], k);
          if j < n {
            assert Expects(before[j], k);
          }
        }
      }
    }
  }

  lemma NoStrayPrefix(h: seq<Op>)
    requires h != []
    ensures var n := |h| - 1;
            NoStray(h) <==> NoStray(h[..n]) && (h[n].Settle? ==> ExpectedBefore(h[..n], n, h[n].Key()))
  {
    hide KeyOf;
    var n := |h| - 1;
    var before := h[..n];
    forall i, key | 0 <= i <= n ensures ExpectedBefore(h, i, key) <==> ExpectedBefore(before, i, key) {
      if ExpectedBefore(h, i, key) {
        var j :| 0 <= j < i && Expects(h[j], key);
        assert Expects(before[j], key);
      }
      if ExpectedBefore(before, i, key) {
        var j :| 0 <= j < i && Expects(before[j], key);
        assert Expects(h[j], key);
      }
    }
    assert forall i :: 0 <= i < n ==> before[i] == h[i];
  }

  lemma {:induction false} StrayMeaning(h: seq<Op>)
    ensures Replay(h).stray == [] <==> NoStray(h)
  {
    hide KeyOf, StrayText, NoStray;
    if h == [] {
      assert NoStray([]) by { NothingStrays(); }
    } else {
      var n := |h| - 1;
      StrayMeaning(h[..n]);
      NoStrayPrefix(h);
      KeysAreExpected(h[..n]);
    }
  }

  lemma NothingStrays()
    ensures NoStray([])
  {
  }

  lemma FailsExtend(h: seq<Op>, key: string)
    requires h != []
    ensures var n := |h| - 1;
            (exists i :: 0 <= i < |h| && Fails(h[i], key)) <==> (exists i :: 0 <= i < n && Fails(h[..n][i], key)) || Fails(h[n], key)
  {
    hide Fails;
    var n := |h| - 1;
    if i :| 0 <= i < |h| && Fails(h[i], key) {
      if i < n {
        assert Fails(h[..n][i], key);
      }
    }
    if i :| 0 <= i < n && Fails(h[..n][i], key) {
      assert Fails(h[i], key);
    }
  }

  lemma LoadsExtend(h: seq<Op>, key: string)
    requires h != []
    ensures var n := |h| - 1;
            (exists i :: 0 <= i < |h| && SettlesAs(h[i], key, Loaded))
            <==> (exists i :: 0 <= i < n && SettlesAs(h[..n][i], key, Loaded)) || SettlesAs(h[n], key, Loaded)
  {
    hide SettlesAs;
    var n := |h| - 1;
    if i :| 0 <= i < |h| && SettlesAs(h[i], key, Loaded) {
      if i < n {
        assert SettlesAs(h[..n][i], key, Loaded);
      }
    }
    if i :| 0 <= i < n && SettlesAs(h[..n][i], key, Loaded) {
      assert SettlesAs(h[i], key, Loaded);
    }
  }

  lemma SettledWasExpected(h: seq<Op>, i: int)
    requires NoStray(h) && 0 <= i < |h| && h[i].Settle?
    ensures ExpectedBefore(h, |h|, h[i].Key())
  {
    var j :| 0 <= j < i && Expects(h[j], h[i].Key());
  }

  /** Nothing settled a key that no call ever expected. */
  lemma UnexpectedIsUnsettled(h: seq<Op>, key: string)
    requires NoStray(h) && !ExpectedBefore(h, |h|, key)
    ensures forall i :: 0 <= i < |h| ==> !Fails(h[i], key) && !SettlesAs(h[i], key, Loaded)
  {
    forall i | 0 <= i < |h| ensures !Fails(h[i], key) && !SettlesAs(h[i], key, Loaded) {
      if h[i].Settle? && h[i].Key() == key {
        SettledWasExpected(h, i);
      }
    }
  }

  /** Without strays, the state of a key is a matter of which settlements there were, not of their order. */
  lemma {:induction false} StateMeaning(h: seq<Op>, key: string)
    requires AllCalls(h) && NoStray(h) && key in Replay(h).items
    ensures StateAgrees(h, key, Replay(h).items[key].state)
    decreases |h|
  {
    hide KeyOf, NoStray, StrayText, ExpectedBefore;
    var n := |h| - 1;
    var before, op := h[..n], h[n];
    NoStrayPrefix(h);
    assert IsCall(op);
    FailsExtend(h, key);
    LoadsExtend(h, key);
    KeysAreExpected(before);
    if key in Replay(before).items {
      StateMeaning(before, key);
    } else {
      UnexpectedIsUnsettled(before, key);
    }
  }

  /** `Complete` says exactly what its history says. */
  lemma CompleteMeaning(h: seq<Op>)
    requires AllCalls(h)
    ensures IsComplete(Replay(h)) <==> CompleteHistory(h)
  {
    hide KeyOf, Replay, StrayText, NoStray, LoadedOnly;
    StrayMeaning(h);
    KeysAreExpected(h);
    var c := Replay(h);
    if NoStray(h) {
      forall k | k in c.items ensures StateAgrees(h, k, c.items[k].state) {
        StateMeaning(h, k);
      }
      forall i | 0 <= i < |h| && h[i].Expect? ensures h[i].Key() in c.items {
        assert Expects(h[i], h[i].Key());
      }
      if CompleteHistory(h) {
        var i :| 0 <= i < |h| && h[i].Expect?;
        assert h[i].Key() in c.items;
        forall k | k in c.items ensures c.items[k].state == Loaded {
          var j :| 0 <= j < |h| && Expects(h[j], k);
          assert LoadedOnly(h, k);
        }
      }
      if IsComplete(c) {
        SomethingExpected(h, c);
      }
    }
  }

  lemma SomethingExpected(h: seq<Op>, c: Contents)
    requires c.items != map[] && forall k :: k in c.items <==> ExpectedBefore(h, |h|, k)
    ensures exists i :: 0 <= i < |h| && h[i].Expect?
  {
    var k :| k in c.items;
    var j :| 0 <= j < |h| && Expects(h[j], k);
  }

  /** Histories of the same calls, whatever their order and repetition, agree on completeness as long as neither
      settles anything before it is expected. */
  lemma OrderIndependent(g: seq<Op>, h: seq<Op>)
    requires (forall op :: op in g <==> op in h) && NoStray(g) && NoStray(h)
    ensures CompleteHistory(g) <==> CompleteHistory(h)
  {
    hide NoStray;
    if CompleteHistory(g) {
      CompleteCarriesOver(g, h);
    }
    if CompleteHistory(h) {
      CompleteCarriesOver(h, g);
    }
  }

  lemma CompleteCarriesOver(g: seq<Op>, h: seq<Op>)
    requires (forall op :: op in g <==> op in h) && NoStray(h) && CompleteHistory(g)
    ensures CompleteHistory(h)
  {
    hide NoStray, Fails, SettlesAs;
    var i :| 0 <= i < |g| && g[i].Expect?;
    assert g[i] in h;
    forall i | 0 <= i < |h| && h[i].Expect? ensures LoadedOnly(h, h[i].Key()) {
      var key := h[i].Key();
      assert h[i] in g;
      assert LoadedOnly(g, key);
      var j :| 0 <= j < |g| && SettlesAs(g[j], key, Loaded);
      assert g[j] in h;
      forall l | 0 <= l < |h| ensures !Fails(h[l], key) {
        assert h[l] in g;
      }
    }
  }

  // ----- Concurrent analyzers -----

  /** A call and the analyzer run that makes it. */
  datatype Turn = Turn(thread: nat, op: Op)

  /** The history a schedule produces. */
  function Ops(schedule: seq<Turn>): (h: seq<Op>)
    ensures |h| == |schedule|
  {
    if schedule == [] then [] else Ops(schedule[..|schedule| - 1]) + [schedule[|schedule| - 1].op]
  }

  /** The calls of one run, in its own order. */
  function Thread(schedule: seq<Turn>, t: nat): seq<Op> {
    if schedule == [] then []
    else
      var n := |schedule| - 1;
      if schedule[n].thread == t then Thread(schedule[..n], t) + [schedule[n].op] else Thread(schedule[..n], t)
  }

  ghost predicate InSomeThread(schedule: seq<Turn>, op: Op) {
    exists t :: op in Thread(schedule, t)
  }

  lemma {:induction false} OpsAreThreads(schedule: seq<Turn>, op: Op)
    ensures op in Ops(schedule) <==> InSomeThread(schedule, op)
  {
    if schedule != [] {
      var n := |schedule| - 1;
      var before := schedule[..n];
      OpsAreThreads(before, op);
      if op in Ops(before) {
        var t :| op in Thread(before, t);
        assert op in Thread(schedule, t);
      }
      if op == schedule[n].op {
        assert op in Thread(schedule, schedule[n].thread);
      }
      if InSomeThread(schedule, op) && op != schedule[n].op {
        var t :| op in Thread(schedule, t);
        assert op in Thread(before, t);
      }
    }
  }

  /** If every run expects its prerequisites before it settles them, no interleaving of the runs strays. */
  lemma {:induction false} InterleavingsDoNotStray(schedule: seq<Turn>)
    requires forall t :: NoStray(Thread(schedule, t))
    ensures NoStray(Ops(schedule))
  {
    hide KeyOf, NoStray, ExpectedBefore;
    if schedule == [] {
      NothingStrays();
    } else {
      var n := |schedule| - 1;
      var before, last := schedule[..n], schedule[n];
      forall t ensures NoStray(Thread(before, t)) {
        assert NoStray(Thread(schedule, t));
        if t == last.thread {
          ThreadGrew(schedule);
          NoStrayPrefix(Thread(schedule, t));
        }
      }
      InterleavingsDoNotStray(before);
      ThreadGrew(schedule);
      NoStrayPrefix(Thread(schedule, last.thread));
      NoStrayPrefix(Ops(schedule));
      assert Ops(schedule)[..n] == Ops(before);
      if last.op.Settle? {
        ExpectedSomewhere(before, last.thread, last.op.Key());
      }
    }
  }

  lemma ThreadGrew(schedule: seq<Turn>)
    requires schedule != []
    ensures var n := |schedule| - 1; var whole, part := Thread(schedule, schedule[n].thread), Thread(schedule[..n], schedule[n].thread);
            whole != [] && whole[..|whole| - 1] == part && whole[|whole| - 1] == schedule[n].op
  {
  }

  lemma ExpectedSomewhere(schedule: seq<Turn>, t: nat, key: string)
    requires ExpectedBefore(Thread(schedule, t), |Thread(schedule, t)|, key)
    ensures ExpectedBefore(Ops(schedule), |Ops(schedule)|, key)
  {
    var mine, all := Thread(schedule, t), Ops(schedule);
    var j :| 0 <= j < |mine| && Expects(mine[j], key);
    assert mine[j] in Thread(schedule, t);
    OpsAreThreads(schedule, mine[j]);
    assert mine[j] in all;
    var i :| 0 <= i < |all| && all[i] == mine[j];
    assert Expects(all[i], key);
  }

  lemma SameThreads(g: seq<Turn>, h: seq<Turn>, op: Op)
    requires forall t :: Thread(g, t) == Thread(h, t)
    ensures InSomeThread(g, op) <==> InSomeThread(h, op)
  {
    if t :| op in Thread(g, t) {
      assert op in Thread(h, t);
    }
    if t :| op in Thread(h, t) {
      assert op in Thread(g, t);
    }
  }

  /** Completeness does not depend on how the runs were scheduled. */
  lemma ScheduleIndependent(g: seq<Turn>, h: seq<Turn>)
    requires forall t :: Thread(g, t) == Thread(h, t)
    requires forall t :: NoStray(Thread(g, t))
    ensures CompleteHistory(Ops(g)) <==> CompleteHistory(Ops(h))
  {
    hide NoStray, CompleteHistory, Ops;
    InterleavingsDoNotStray(g);
    InterleavingsDoNotStray(h);
    forall op ensures op in Ops(g) <==> op in Ops(h) {
      OpsAreThreads(g, op);
      OpsAreThreads(h, op);
      SameThreads(g, h, op);
    }
    OrderIndependent(Ops(g), Ops(h));
  }

  /** Settling an unexpected key, rejecting or missing one is final: no continuation is complete. */
  lemma FailureIsFinal(h: seq<Op>, more: seq<Op>)
    requires AllCalls(h) && AllCalls(more)
    requires Replay(h).stray != [] || exists k :: k in Replay(h).items && Failing(Replay(h).items[k].state)
    ensures !IsComplete(Replay(h + more))
  {
    hide KeyOf, StrayText;
    FailureStays(h, more);
  }

  /** A rejection or unavailability keeps its state, digest and reason whatever is reported later. */
  lemma {:induction false} FailureStays(h: seq<Op>, more: seq<Op>)
    ensures Replay(h).stray <= Replay(h + more).stray
    ensures forall k :: k in Replay(h).items ==> k in Replay(h + more).items
    ensures (forall k :: k in Replay(h).items && Failing(Replay(h).items[k].state)
                         ==> Replay(h + more).items[k] == Replay(h).items[k])
    decreases |more|
  {
    hide KeyOf, StrayText;
    if more == [] {
      assert h + more == h;
    } else {
      var n := |more| - 1;
      FailureStays(h, more[..n]);
      assert (h + more)[..|h + more| - 1] == h + more[..n];
    }
  }
}

/** The ledger object, and the report downgrade that reads it twice while other runs may call it in between. */
module PrerequisiteLedgers {
  import opened Orders
  import opened Prerequisites
  import opened PrerequisiteNeeds

  function SortKey(p: Prerequisite): Orders.Key {
    [KeyText(p)]
  }

  /** A copy of the ledger's entries in key order, each once. */
  ghost predicate IsSnapshot(c: Contents, out: seq<Prerequisite>) {
    (forall p :: p in out <==> exists k :: k in c.items && c.items[k] == p)
    && Ordered(SortKey, out) && Distinct(out)
  }

  class PrerequisiteLedger {
    var items: map<string, Prerequisite>
    var stray: seq<string>
    ghost var history: seq<Op>

    ghost predicate Valid()
      reads this
    {
      AllCalls(history) && Contents(items, stray) == Replay(history)
    }

    constructor ()
      ensures Valid() && history == []
    {
      items, stray, history := map[], [], [];
    }

    method Expect(analyzer: string, kind: string, name: string)
      requires Valid()
      modifies this
      ensures Valid() && history == old(history) + [Op.Expect(analyzer, kind, name)]
    {
      hide KeyOf;
      var key := KeyOf(analyzer, kind, name);
      if key !in items {
        items := items[key := Prerequisite(analyzer, kind, name, "", Expected, "")];
      }
      history := history + [Op.Expect(analyzer, kind, name)];
      assert history[..|history| - 1] == old(history);
    }

    method Settle(analyzer: string, kind: string, name: string, digest: string, reason: string, state: State)
      requires Valid() && state != Expected
      modifies this
      ensures Valid() && history == old(history) + [Op.Settle(analyzer, kind, name, digest, reason, state)]
    {
      hide KeyOf, StateText;
      var op := Op.Settle(analyzer, kind, name, digest, reason, state);
      var key := KeyOf(analyzer, kind, name);
      history := history + [op];
      assert history[..|history| - 1] == old(history);
      if key !in items {
        stray := stray + [StrayText(op)];
        return;
      }
      var p := items[key];
      if p.state == Rejected || p.state == Unavailable {
        return;
      }
      items := items[key := p.(state := state, digest := digest, reason := reason)];
    }

    method Snapshot() returns (out: seq<Prerequisite>)
      requires Valid()
      ensures IsSnapshot(Replay(history), out)
    {
      hide KeyOf, Replay, KeyLeq;
      KeysAreExpected(history);
      out := [];
      var left := items.Keys;
      while left != {}
        invariant left <= items.Keys && Distinct(out)
        invariant forall p :: p in out <==> exists k :: k in items && k !in left && items[k] == p
        decreases |left|
      {
        var k :| k in left;
        assert KeyText(items[k]) == k;
        assert items[k] !in out;
        left := left - {k};
        out := out + [items[k]];
      }
      var sorted := Sort(SortKey, out);
      SameElements(out, sorted);
      DistinctPermuted(out, sorted);
      out := sorted;
    }

    method Complete() returns (b: bool)
      requires Valid()
      ensures b <==> CompleteHistory(history)
      ensures NulFree(history) ==> (b <==> CompleteByNeeds(history))
    {
      hide CompleteHistory, Replay, CompleteByNeeds, NulFree;
      CompleteMeaning(history);
      if NulFree(history) {
        CompleteMeansNeeds(history);
      }
      if |items| == 0 || |stray| > 0 {
        return false;
      }
      var left := items.Keys;
      while left != {}
        invariant left <= items.Keys
        invariant forall k :: k in items && k !in left ==> items[k].state == Loaded
        decreases |left|
      {
        var k :| k in left;
        if items[k].state != Loaded {
          return false;
        }
        left := left - {k};
      }
      return true;
    }

    /** What other runs do in the meantime. */
    method Meanwhile(ops: seq<Op>)
      requires Valid() && AllCalls(ops)
      modifies this
      ensures Valid() && history == old(history) + ops
    {
      for i := 0 to |ops|
        invariant Valid() && history == old(history) + ops[..i]
      {
        assert IsCall(ops[i]);
        match ops[i] {
          case Expect(analyzer, kind, name) => Expect(analyzer, kind, name);
          case Settle(analyzer, kind, name, digest, reason, state) => Settle(analyzer, kind, name, digest, reason, state);
        }
        assert ops[..i + 1] == ops[..i] + [ops[i]];
      }
      assert ops[..|ops|] == ops;
    }
  }

  // ----- The report -----

  datatype Outcome = COMPLETE | PARTIAL | FAILED

  datatype Cause = NotLoaded(kind: string, name: string, state: State, reason: string) | NoneDeclared

  datatype Limitation = Limitation(subject: string, cause: Cause, analyzer: string, evidence: seq<string>) | Other(text: string)

  datatype Report = Report(outcome: Outcome, limitations: seq<Limitation>, proofOutcome: Outcome, unresolved: seq<string>,
                           evidenceDigest: string)

  datatype Digests = Digests(one: Prerequisite -> string, bound: (string, seq<Prerequisite>) -> string)

  function LimitationOf(d: Digests, p: Prerequisite): Limitation {
    Limitation(p.name, NotLoaded(p.kind, p.name, p.state, p.reason), p.analyzer, [d.one(p)])
  }

  const NOTHING_DECLARED: Limitation := Limitation("prerequisites", NoneDeclared, "", [])
  const UNRESOLVED: string := "analyzer prerequisites are not all loaded"

  /** One limitation for each entry that is not loaded, in the entries' order. */
  function Limitations(d: Digests, items: seq<Prerequisite>): seq<Limitation> {
    if items == [] then []
    else
      var p := items[|items| - 1];
      Limitations(d, items[..|items| - 1]) + if p.state == Loaded then [] else [LimitationOf(d, p)]
  }

  predicate AllLoaded(items: seq<Prerequisite>) {
    forall i :: 0 <= i < |items| ==> items[i].state == Loaded
  }

  /** The outcome never rises, and COMPLETE survives exactly if every entry of the snapshot was loaded and the ledger is
      complete at the final check. */
  ghost predicate Downgraded(d: Digests, report: Report, items: seq<Prerequisite>, atCheck: seq<Op>, out: Report) {
    (out.outcome == report.outcome || (report.outcome == COMPLETE && out.outcome == PARTIAL))
    && (out.outcome == COMPLETE <==> report.outcome == COMPLETE && AllLoaded(items) && CompleteHistory(atCheck))
    && (out.limitations == report.limitations + Limitations(d, items)
                         + if items == [] && !CompleteHistory(atCheck) then [NOTHING_DECLARED] else [])
    && out.evidenceDigest == d.bound(report.evidenceDigest, items)
    && if out.outcome == report.outcome then out.proofOutcome == report.proofOutcome && out.unresolved == report.unresolved
       else out.proofOutcome == PARTIAL && out.unresolved == report.unresolved + [UNRESOLVED]
  }

  /** The downgrade, with whatever other runs do between the snapshot and the final check. */
  method ApplyPrerequisites(report: Option<Report>, ledger: PrerequisiteLedger?, d: Digests, between: seq<Op>)
    returns (out: Option<Report>, ghost items: seq<Prerequisite>)
    requires ledger != null ==> ledger.Valid()
    requires AllCalls(between)
    modifies ledger
    ensures report.None? || ledger == null ==> out == report
    ensures report.Some? && ledger != null ==>
              ledger.Valid() && ledger.history == old(ledger.history) + between
              && IsSnapshot(Replay(old(ledger.history)), items)
              && out.Some? && Downgraded(d, report.value, items, ledger.history, out.value)
  {
    hide *;
    items := [];
    if report.None? || ledger == null {
      return report, [];
    }
    var result;
    result, items := Downgrade(report.value, ledger, d, between);
    out := Some(result);
  }

  datatype Option<+T> = None | Some(value: T)

  method Downgrade(report: Report, ledger: PrerequisiteLedger, d: Digests, between: seq<Op>)
    returns (out: Report, ghost items: seq<Prerequisite>)
    requires ledger.Valid() && AllCalls(between)
    modifies ledger
    ensures ledger.Valid() && ledger.history == old(ledger.history) + between
    ensures IsSnapshot(Replay(old(ledger.history)), items)
    ensures Downgraded(d, report, items, ledger.history, out)
  {
    hide CompleteHistory, Replay, IsSnapshot, NulFree, CompleteByNeeds, Downgraded;
    out := report;
    var snapshot := ledger.Snapshot();
    items := snapshot;
    var failed := false;
    for i := 0 to |snapshot|
      invariant ledger.Valid() && ledger.history == old(ledger.history)
      invariant out == report.(limitations := report.limitations + Limitations(d, snapshot[..i]))
      invariant failed <==> !AllLoaded(snapshot[..i])
    {
      assert snapshot[..i + 1][..i] == snapshot[..i];
      assert snapshot[..i + 1][i] == snapshot[i];
      LoadedSoFar(snapshot, i);
      if snapshot[i].state != Loaded {
        failed := true;
        out := out.(limitations := out.limitations + [LimitationOf(d, snapshot[i])]);
      }
    }
    assert snapshot[..|snapshot|] == snapshot;
    ledger.Meanwhile(between);
    var complete := ledger.Complete();
    if !complete {
      failed := true;
      if |snapshot| == 0 {
        out := out.(limitations := out.limitations + [NOTHING_DECLARED]);
      }
    }
    if failed && out.outcome == COMPLETE {
      out := out.(outcome := PARTIAL, proofOutcome := PARTIAL, unresolved := out.unresolved + [UNRESOLVED]);
    }
    out := out.(evidenceDigest := d.bound(report.evidenceDigest, snapshot));
    LoweredIsDowngraded(d, report, snapshot, ledger.history, out);
  }

  lemma LoweredIsDowngraded(d: Digests, report: Report, items: seq<Prerequisite>, atCheck: seq<Op>, out: Report)
    requires var complete := CompleteHistory(atCheck);
             var limitations := report.limitations + Limitations(d, items)
                                + if items == [] && !complete then [NOTHING_DECLARED] else [];
             var before := report.(limitations := limitations, evidenceDigest := d.bound(report.evidenceDigest, items));
             out == if (AllLoaded(items) && complete) || report.outcome != COMPLETE then before
                    else before.(outcome := PARTIAL, proofOutcome := PARTIAL, unresolved := report.unresolved + [UNRESOLVED])
    ensures Downgraded(d, report, items, atCheck, out)
  {
    hide CompleteHistory, Limitations, AllLoaded;
  }

  lemma LoadedSoFar(items: seq<Prerequisite>, i: nat)
    requires i < |items|
    ensures AllLoaded(items[..i + 1]) <==> AllLoaded(items[..i]) && items[i].state == Loaded
  {
    var upTo, before := items[..i + 1], items[..i];
    assert forall j :: 0 <= j < i ==> upTo[j] == before[j];
    assert upTo[i] == items[i];
  }

  // ----- Lowered without a limitation -----

  lemma {:induction false} LimitationsNameUnloaded(d: Digests, items: seq<Prerequisite>)
    ensures Limitations(d, items) == [] <==> AllLoaded(items)
  {
    if items != [] {
      var n := |items| - 1;
      LimitationsNameUnloaded(d, items[..n]);
      assert items[..n + 1] == items;
      LoadedSoFar(items, n);
    }
  }

  predicate Names(d: Digests, l: Limitation, p: Prerequisite)
    requires l.Limitation?
  {
    l.subject == p.name && l.analyzer == p.analyzer && l.cause == NotLoaded(p.kind, p.name, p.state, p.reason)
    && l.evidence == [d.one(p)]
  }

  /** Each unloaded entry, and no other, has its limitation: its name, kind, state and reason, its analyzer and its digest. */
  lemma {:induction false} LimitationsMeaning(d: Digests, items: seq<Prerequisite>, l: Limitation)
    ensures l in Limitations(d, items) <==>
      l.Limitation? && exists p :: p in items && p.state != Loaded && Names(d, l, p)
    ensures |Limitations(d, items)| <= |items|
  {
    if items != [] {
      var n := |items| - 1;
      LimitationsMeaning(d, items[..n], l);
      assert items == items[..n] + [items[n]];
    }
  }

  /** The outcome is lowered and no limitation says why, if and only if everything in a snapshot that is not empty was
      loaded and the ledger is nevertheless incomplete at the final check. */
  lemma LoweredInSilenceExactly(d: Digests, report: Report, items: seq<Prerequisite>, atCheck: seq<Op>, out: Report)
    requires Downgraded(d, report, items, atCheck, out)
    ensures (out.outcome != report.outcome && out.limitations == report.limitations
         <==> report.outcome == COMPLETE && items != [] && AllLoaded(items) && !CompleteHistory(atCheck))
  {
    hide AllLoaded, CompleteHistory, Limitations;
    LimitationsNameUnloaded(d, items);
    var more := Limitations(d, items) + if items == [] && !CompleteHistory(atCheck) then [NOTHING_DECLARED] else [];
    assert out.limitations == report.limitations + more;
    assert |out.limitations| == |report.limitations| + |more|;
  }

  /** What happened before the snapshot: one prerequisite was expected and loaded. */
  const LOADED_ONE: seq<Op> := [Op.Expect("a", "k", "n"), Op.Settle("a", "k", "n", "", "", Loaded)]

  /** A call by another run after the snapshot: a settlement nobody expected, or a failure of what was loaded. */
  const STRAY: Op := Op.Settle("b", "k", "n", "", "", Loaded)
  const FAILURE: Op := Op.Settle("a", "k", "n", "", "", Rejected)

  /** Either of them lowers a complete report in silence. */
  lemma LateCallLowersInSilence(d: Digests, report: Report, late: Op, items: seq<Prerequisite>, out: Report)
    requires report.outcome == COMPLETE && late in {STRAY, FAILURE}
    requires IsSnapshot(Replay(LOADED_ONE), items) && Downgraded(d, report, items, LOADED_ONE + [late], out)
    ensures out.outcome == PARTIAL && out.limitations == report.limitations
  {
    hide Downgraded;
    OneIsLoaded(items);
    LateCallIsIncomplete(late);
    LoweredInSilenceExactly(d, report, items, LOADED_ONE + [late], out);
    OnlyOneStepDown(d, report, items, LOADED_ONE + [late], out);
  }

  lemma OnlyOneStepDown(d: Digests, report: Report, items: seq<Prerequisite>, atCheck: seq<Op>, out: Report)
    requires Downgraded(d, report, items, atCheck, out) && out.outcome != report.outcome
    ensures out.outcome == PARTIAL
  {
  }

  lemma OneIsLoaded(items: seq<Prerequisite>)
    requires IsSnapshot(Replay(LOADED_ONE), items)
    ensures items != [] && AllLoaded(items)
  {
    var expected := Op.Expect("a", "k", "n");
    assert LOADED_ONE[..1] == [expected] && [expected][..0] == [];
    var key := KeyOf("a", "k", "n");
    var one := Prerequisite("a", "k", "n", "", Loaded, "");
    assert Replay([expected]).items == map[key := Prerequisite("a", "k", "n", "", Expected, "")];
    assert Replay(LOADED_ONE).items == map[key := one];
    assert key in Replay(LOADED_ONE).items && one in items;
    forall i | 0 <= i < |items| ensures items[i].state == Loaded {
      assert items[i] in items;
    }
  }

  lemma LateCallIsIncomplete(late: Op)
    requires late in {STRAY, FAILURE}
    ensures !CompleteHistory(LOADED_ONE + [late])
  {
    var h := LOADED_ONE + [late];
    assert h[0] == Op.Expect("a", "k", "n") && h[2] == late;
    if late == STRAY {
      assert late.Key()[0] == 'b';
      assert forall j :: 0 <= j < 2 ==> h[j].Key()[0] == 'a';
      assert !ExpectedBefore(h, 2, late.Key());
    } else {
      assert Fails(h[2], h[0].Key());
      assert !LoadedOnly(h, h[0].Key());
    }
  }
}
