/** The ledger told over (analyzer, kind, name) and not over keys: when it is complete, and what each entry holds. */
module PrerequisiteNeeds {
  import opened Prerequisites

  predicate SameNeed(a: Op, b: Op) {
    a.analyzer == b.analyzer && a.kind == b.kind && a.name == b.name
  }

  /** Neither analyzers nor kinds contain the separator of keys. */
  predicate NulFree(h: seq<Op>) {
    forall i :: 0 <= i < |h| ==> '\0' !in h[i].analyzer && '\0' !in h[i].kind
  }

  // ----- Keys tell needs apart -----

  lemma FirstNul(a: string, b: string, x: string, y: string)
    requires '\0' !in a && '\0' !in b && a + "\0" + x == b + "\0" + y
    ensures a == b && x == y
  {
    var s, t := a + "\0" + x, b + "\0" + y;
    assert s[|a|] == '\0' && t[|b|] == '\0';
    assert forall i :: 0 <= i < |a| ==> s[i] == a[i] && a[i] in a;
    assert forall i :: 0 <= i < |b| ==> t[i] == b[i] && b[i] in b;
    assert |a| == |b|;
    assert s[..|a|] == a && t[..|b|] == b && s[|a| + 1..] == x && t[|b| + 1..] == y;
  }

  lemma KeysTellNeedsApart(a: Op, b: Op)
    requires '\0' !in a.analyzer && '\0' !in a.kind && '\0' !in b.analyzer && '\0' !in b.kind
    ensures a.Key() == b.Key() <==> SameNeed(a, b)
  {
    if a.Key() == b.Key() {
      assert a.Key() == a.analyzer + "\0" + (a.kind + "\0" + a.name);
      assert b.Key() == b.analyzer + "\0" + (b.kind + "\0" + b.name);
      FirstNul(a.analyzer, b.analyzer, a.kind + "\0" + a.name, b.kind + "\0" + b.name);
      FirstNul(a.kind, b.kind, a.name, b.name);
    }
  }

  // ----- Completeness -----

  /** Some call before the `i`-th expected the same need. */
  predicate WasExpected(h: seq<Op>, i: nat)
    requires i < |h|
  {
    exists j :: 0 <= j < i && h[j].Expect? && SameNeed(h[j], h[i])
  }

  /** The need was loaded at some time and never reported otherwise. */
  predicate LoadedAndNothingElse(h: seq<Op>, i: nat)
    requires i < |h|
  {
    (exists j :: 0 <= j < |h| && h[j].Settle? && SameNeed(h[j], h[i]) && h[j].state == Loaded)
    && forall j :: 0 <= j < |h| && h[j].Settle? && SameNeed(h[j], h[i]) ==> h[j].state == Loaded
  }

  /** Something was expected; every settlement follows an expectation of the same need; and every need expected was loaded
      and never rejected or unavailable. */
  predicate CompleteByNeeds(h: seq<Op>) {
    (exists i :: 0 <= i < |h| && h[i].Expect?)
    && (forall i :: 0 <= i < |h| && h[i].Settle? ==> WasExpected(h, i))
    && (forall i :: 0 <= i < |h| && h[i].Expect? ==> LoadedAndNothingElse(h, i))
  }

  lemma CompleteMeansNeeds(h: seq<Op>)
    requires AllCalls(h) && NulFree(h)
    ensures CompleteHistory(h) <==> CompleteByNeeds(h)
  {
    hide WasExpected, LoadedAndNothingElse, LoadedOnly, ExpectedBefore;
    forall i | 0 <= i < |h| ensures ExpectedBefore(h, i, h[i].Key()) <==> WasExpected(h, i) {
      ExpectedMeaning(h, i);
    }
    forall i | 0 <= i < |h| ensures LoadedOnly(h, h[i].Key()) <==> LoadedAndNothingElse(h, i) {
      LoadedMeaning(h, i);
    }
  }

  lemma ExpectedMeaning(h: seq<Op>, i: nat)
    requires NulFree(h) && i < |h|
    ensures ExpectedBefore(h, i, h[i].Key()) <==> WasExpected(h, i)
  {
    hide KeyOf, SameNeed;
    forall j | 0 <= j < i ensures h[j].Key() == h[i].Key() <==> SameNeed(h[j], h[i]) {
      KeysTellNeedsApart(h[j], h[i]);
    }
    if ExpectedBefore(h, i, h[i].Key()) {
      var j :| 0 <= j < i && Expects(h[j], h[i].Key());
      assert h[j].Expect? && SameNeed(h[j], h[i]);
    }
    if WasExpected(h, i) {
      var j :| 0 <= j < i && h[j].Expect? && SameNeed(h[j], h[i]);
      assert Expects(h[j], h[i].Key());
    }
  }

  lemma LoadedMeaning(h: seq<Op>, i: nat)
    requires AllCalls(h) && NulFree(h) && i < |h|
    ensures LoadedOnly(h, h[i].Key()) <==> LoadedAndNothingElse(h, i)
  {
    hide KeyOf, SameNeed;
    var key := h[i].Key();
    forall j | 0 <= j < |h|
      ensures SettlesAs(h[j], key, Loaded) <==> h[j].Settle? && SameNeed(h[j], h[i]) && h[j].state == Loaded
      ensures Fails(h[j], key) <==> h[j].Settle? && SameNeed(h[j], h[i]) && h[j].state != Loaded
    {
      KeysTellNeedsApart(h[j], h[i]);
      assert IsCall(h[j]);
    }
    if LoadedOnly(h, key) {
      var j :| 0 <= j < |h| && SettlesAs(h[j], key, Loaded);
      assert h[j].Settle? && SameNeed(h[j], h[i]) && h[j].state == Loaded;
      forall l | 0 <= l < |h| && h[l].Settle? && SameNeed(h[l], h[i]) ensures h[l].state == Loaded {
        assert !Fails(h[l], key);
      }
    }
    if LoadedAndNothingElse(h, i) {
      var j :| 0 <= j < |h| && h[j].Settle? && SameNeed(h[j], h[i]) && h[j].state == Loaded;
      assert SettlesAs(h[j], key, Loaded);
    }
  }

  // ----- What an entry holds -----

  /** A settlement of the key that came after the key was expected. */
  predicate Counts(h: seq<Op>, key: string, i: nat)
    requires i < |h|
  {
    h[i].Settle? && h[i].Key() == key && ExpectedBefore(h, i, key)
  }

  /** The settlement that decides: the first failure, or the last settlement when there is none. */
  ghost predicate Decides(h: seq<Op>, key: string, i: nat) {
    i < |h| && Counts(h, key, i)
    && h[i].Settle?
    && if h[i].state == Loaded then forall j :: 0 <= j < |h| && Counts(h, key, j) ==> j <= i && h[j].Settle? && h[j].state == Loaded
       else forall j :: 0 <= j < i && Counts(h, key, j) ==> h[j].Settle? && h[j].state == Loaded
  }

  ghost predicate Holds(h: seq<Op>, key: string, p: Prerequisite) {
    (exists j :: 0 <= j < |h| && h[j].Expect? && h[j].Key() == key
      && p.analyzer == h[j].analyzer && p.kind == h[j].kind && p.name == h[j].name)
    && if exists i :: 0 <= i < |h| && Counts(h, key, i) then
         exists i: nat :: Decides(h, key, i) && p.state == h[i].state && p.digest == h[i].digest && p.reason == h[i].reason
       else p.state == Expected && p.digest == "" && p.reason == ""
  }

  lemma CountsEarlier(h: seq<Op>, key: string, i: nat)
    requires h != [] && i < |h| - 1
    ensures Counts(h, key, i) <==> Counts(h[..|h| - 1], key, i)
  {
    hide KeyOf;
    var before := h[..|h| - 1];
    assert before[i] == h[i];
    if ExpectedBefore(h, i, key) {
      var j :| 0 <= j < i && Expects(h[j], key);
      assert Expects(before[j], key);
    }
    if ExpectedBefore(before, i, key) {
      var j :| 0 <= j < i && Expects(before[j], key);
      assert Expects(h[j], key);
    }
  }

  /** Each entry has the parts of a call that expected it and the state, digest and reason of the settlement that
      decides. */
  lemma {:induction false} EntryMeaning(h: seq<Op>, key: string)
    requires AllCalls(h) && key in Replay(h).items
    ensures Holds(h, key, Replay(h).items[key])
    decreases |h|
  {
    hide KeyOf, StrayText, Counts, ExpectedBefore, Holds;
    var n := |h| - 1;
    var before, op := h[..n], h[n];
    assert AllCalls(before);
    assert IsCall(op);
    KeysAreExpected(before);
    if key in Replay(before).items {
      EntryMeaning(before, key);
      EntryStep(h, key, Replay(before).items[key]);
    } else {
      FreshEntry(h, key);
    }
  }

  lemma ReplayLast(h: seq<Op>)
    requires h != []
    ensures Replay(h) == After(Replay(h[..|h| - 1]), h[|h| - 1])
  {
    hide After;
  }

  lemma EntryAfter(c: Contents, op: Op, key: string)
    requires key in c.items
    ensures var p, d := c.items[key], After(c, op);
            key in d.items && d.items[key] == if op.Settle? && op.Key() == key && !Failing(p.state)
                                              then p.(state := op.state, digest := op.digest, reason := op.reason) else p
  {
    hide KeyOf, StrayText;
  }

  lemma NewEntryAfter(c: Contents, op: Op, key: string)
    requires key !in c.items && key in After(c, op).items
    ensures op.Expect? && op.Key() == key
    ensures After(c, op).items[key] == Prerequisite(op.analyzer, op.kind, op.name, "", Expected, "")
  {
    hide KeyOf, StrayText;
  }

  lemma FreshEntry(h: seq<Op>, key: string)
    requires h != [] && key !in Replay(h[..|h| - 1]).items && key in Replay(h).items
    ensures Holds(h, key, Replay(h).items[key])
  {
    hide KeyOf, After, Replay;
    var n := |h| - 1;
    KeysAreExpected(h[..n]);
    ReplayLast(h);
    NewEntryAfter(Replay(h[..n]), h[n], key);
    forall i | 0 <= i < |h| ensures !Counts(h, key, i) {
      if i < n && Counts(h, key, i) {
        CountsEarlier(h, key, i);
      }
    }
  }

  lemma EntryStep(h: seq<Op>, key: string, p: Prerequisite)
    requires h != [] && AllCalls(h) && key in Replay(h[..|h| - 1]).items && p == Replay(h[..|h| - 1]).items[key]
    requires Holds(h[..|h| - 1], key, p)
    ensures Holds(h, key, Replay(h).items[key])
  {
    hide KeyOf, After, Replay, Counts, ExpectedBefore, Decides;
    var n := |h| - 1;
    var before, op := h[..n], h[n];
    KeysAreExpected(before);
    SameExpectation(h, key, p);
    ReplayLast(h);
    EntryAfter(Replay(before), op, key);
    var q := Replay(h).items[key];
    forall i | 0 <= i < n ensures Counts(h, key, i) <==> Counts(before, key, i) {
      CountsEarlier(h, key, i);
    }
    LastCounts(h, key);
    if Counts(h, key, n) {
      SettledNow(h, key, p, q);
    } else {
      StillDecided(h, key, p);
    }
  }

  lemma StillDecided(h: seq<Op>, key: string, p: Prerequisite)
    requires h != [] && !Counts(h, key, |h| - 1)
    requires forall i :: 0 <= i < |h| - 1 ==> (Counts(h, key, i) <==> Counts(h[..|h| - 1], key, i))
    ensures var before := h[..|h| - 1];
            (exists i: nat :: Decides(before, key, i) && p.state == before[i].state && p.digest == before[i].digest && p.reason == before[i].reason)
            ==> exists i: nat :: Decides(h, key, i) && p.state == h[i].state && p.digest == h[i].digest && p.reason == h[i].reason
  {
    hide Counts;
    var before := h[..|h| - 1];
    if i: nat :| Decides(before, key, i) && p.state == before[i].state && p.digest == before[i].digest && p.reason == before[i].reason {
      assert before[i] == h[i] && Decides(h, key, i);
    }
  }

  lemma SameExpectation(h: seq<Op>, key: string, p: Prerequisite)
    requires h != [] && Holds(h[..|h| - 1], key, p)
    ensures exists j :: 0 <= j < |h| && h[j].Expect? && h[j].Key() == key
              && p.analyzer == h[j].analyzer && p.kind == h[j].kind && p.name == h[j].name
  {
    hide KeyOf, Counts;
    var before := h[..|h| - 1];
    var j :| 0 <= j < |before| && before[j].Expect? && before[j].Key() == key
      && p.analyzer == before[j].analyzer && p.kind == before[j].kind && p.name == before[j].name;
    assert h[j] == before[j];
  }

  lemma LastCounts(h: seq<Op>, key: string)
    requires h != [] && ExpectedBefore(h[..|h| - 1], |h| - 1, key)
    ensures Counts(h, key, |h| - 1) <==> h[|h| - 1].Settle? && h[|h| - 1].Key() == key
  {
    hide KeyOf;
    var n := |h| - 1;
    var j :| 0 <= j < n && Expects(h[..n][j], key);
    assert Expects(h[j], key);
  }

  lemma SettledNow(h: seq<Op>, key: string, p: Prerequisite, q: Prerequisite)
    requires h != [] && AllCalls(h) && Counts(h, key, |h| - 1) && Holds(h[..|h| - 1], key, p)
    requires forall i :: 0 <= i < |h| - 1 ==> (Counts(h, key, i) <==> Counts(h[..|h| - 1], key, i))
    requires var op := h[|h| - 1];
             q == if Failing(p.state) then p else p.(state := op.state, digest := op.digest, reason := op.reason)
    ensures exists i: nat :: Decides(h, key, i) && q.state == h[i].state && q.digest == h[i].digest && q.reason == h[i].reason
  {
    hide Counts;
    var n := |h| - 1;
    var before := h[..n];
    assert IsCall(h[n]);
    CountsSettle(h, key, n);
    if Failing(p.state) {
      var i: nat :| Decides(before, key, i) && p.state == before[i].state && p.digest == before[i].digest && p.reason == before[i].reason;
      assert before[i] == h[i] && Decides(h, key, i);
    } else {
      forall j | 0 <= j < n && Counts(h, key, j) ensures h[j].Settle? && h[j].state == Loaded {
        CountsSettle(h, key, j);
        assert Counts(before, key, j);
        var i: nat :| Decides(before, key, i) && p.state == before[i].state;
        CountsSettle(before, key, i);
        assert IsCall(h[i]) && before[i] == h[i] && before[j] == h[j];
      }
      assert Decides(h, key, n);
    }
  }

  lemma CountsSettle(h: seq<Op>, key: string, i: nat)
    requires i < |h| && Counts(h, key, i)
    ensures h[i].Settle?
  {
  }

  // ----- Settled without being expected -----

  predicate Strays(h: seq<Op>, i: nat) {
    i < |h| && h[i].Settle? && !ExpectedBefore(h, i, h[i].Key())
  }

  /** What the ledger notes down of a stray settlement. */
  predicate NoteOf(op: Op, x: string)
    requires op.Settle?
  {
    var word := if op.state == Loaded then "LOADED" else if op.state == Rejected then "REJECTED"
                else if op.state == Unavailable then "UNAVAILABLE" else "EXPECTED";
    x == op.analyzer + "/" + op.kind + "/" + op.name + " settled as " + word + " without being expected"
  }

  lemma StraysEarlier(h: seq<Op>, i: nat)
    requires i < |h| - 1
    ensures Strays(h, i) <==> Strays(h[..|h| - 1], i)
  {
    hide KeyOf;
    var before := h[..|h| - 1];
    assert h[i] == before[i];
    if ExpectedBefore(h, i, h[i].Key()) {
      var j :| 0 <= j < i && Expects(h[j], h[i].Key());
      assert Expects(before[j], h[i].Key());
    }
    if ExpectedBefore(before, i, h[i].Key()) {
      var j :| 0 <= j < i && Expects(before[j], h[i].Key());
      assert Expects(h[j], h[i].Key());
    }
  }

  lemma StrayNow(h: seq<Op>)
    requires h != []
    ensures var n := |h| - 1;
            Replay(h).stray == Replay(h[..n]).stray + (if Strays(h, n) then [StrayText(h[n])] else [])
  {
    hide KeyOf, StrayText;
    var n := |h| - 1;
    var before, key := h[..n], h[n].Key();
    KeysAreExpected(before);
    if ExpectedBefore(before, n, key) {
      var j :| 0 <= j < n && Expects(before[j], key);
      assert Expects(h[j], key);
    }
    if ExpectedBefore(h, n, key) {
      var j :| 0 <= j < n && Expects(h[j], key);
      assert Expects(before[j], key);
    }
  }

  /** The ledger notes down exactly the settlements that nothing before them expected. */
  lemma {:induction false} StrayMeaning(h: seq<Op>, x: string)
    ensures x in Replay(h).stray <==> exists i: nat :: Strays(h, i) && NoteOf(h[i], x)
  {
    if h != [] {
      hide Replay, Strays, StrayText, NoteOf;
      var n := |h| - 1;
      StrayMeaning(h[..n], x);
      StrayNow(h);
      forall i: nat | i < n ensures Strays(h, i) <==> Strays(h[..n], i) {
        StraysEarlier(h, i);
      }
      StrayBounds(h);
      StrayBounds(h[..n]);
      NoteMeaning(h[n], x);
    }
  }

  lemma StrayBounds(h: seq<Op>)
    ensures forall i: nat :: Strays(h, i) ==> i < |h| && h[i].Settle?
  {
  }

  lemma NoteMeaning(op: Op, x: string)
    ensures op.Settle? ==> (NoteOf(op, x) <==> x == StrayText(op))
  {
  }
}
