/** What every run of the expander keeps, for every archive tree and every clock: conservation of the shared budget,
    provenance, depths, distinct siblings. */
module NestedFacts {
  import opened Encoding
  import opened Nested

  // ----- Provenance -----

  predicate MemberOf(w: World, container: File, e: Entry, m: Made) {
    Named(w, e) && SizesAcceptable(e) && m == Member(w, container, e)
  }

  ghost predicate From(w: World, container: File, m: Made) {
    w.zip(container.data).Some? && exists e :: e in w.zip(container.data).value && MemberOf(w, container, e, m)
  }

  predicate Known(container: File, roots: seq<File>, earlier: seq<Made>) {
    container in roots || exists k :: 0 <= k < |earlier| && earlier[k].file == container
  }

  ghost predicate HasContainer(w: World, roots: seq<File>, earlier: seq<Made>, m: Made) {
    exists container :: Known(container, roots, earlier) && container.depth + 1 == m.file.depth && From(w, container, m)
  }

  /** Every file is a member of a root or of a file produced before it. */
  ghost predicate Traced(w: World, roots: seq<File>, made: seq<Made>) {
    forall k :: 0 <= k < |made| ==> HasContainer(w, roots, made[..k], made[k])
  }

  function Total(made: seq<Made>): nat {
    if made == [] then 0 else Total(made[..|made| - 1]) + |made[|made| - 1].raw|
  }

  lemma {:induction false} TotalSplit(a: seq<Made>, b: seq<Made>)
    ensures Total(a + b) == Total(a) + Total(b)
  {
    if b == [] {
      assert a + b == a;
    } else {
      TotalSplit(a, b[..|b| - 1]);
      assert (a + b)[..|a + b| - 1] == a + b[..|b| - 1];
    }
  }

  lemma TotalOne(m: Made)
    ensures Total([m]) == |m.raw|
  {
    assert [m][..0] == [];
  }

  lemma HasContainerWiden(w: World, roots: seq<File>, earlier: seq<Made>, roots': seq<File>, earlier': seq<Made>, m: Made)
    requires HasContainer(w, roots, earlier, m)
    requires forall c :: Known(c, roots, earlier) ==> Known(c, roots', earlier')
    ensures HasContainer(w, roots', earlier', m)
  {
    hide From;
  }

  lemma KnownLater(c: File, roots: seq<File>, a: seq<Made>, b: seq<Made>)
    requires Known(c, roots, a)
    ensures Known(c, roots, a + b)
  {
    if c !in roots {
      var k :| 0 <= k < |a| && a[k].file == c;
      assert (a + b)[k].file == c;
    }
  }

  lemma KnownShifted(c: File, parents: seq<File>, roots: seq<File>, a: seq<Made>, b: seq<Made>)
    requires Known(c, parents, b) && forall p :: p in parents ==> Known(p, roots, a)
    ensures Known(c, roots, a + b)
  {
    if c in parents {
      KnownLater(c, roots, a, b);
    } else {
      var k :| 0 <= k < |b| && b[k].file == c;
      assert (a + b)[|a| + k].file == c;
    }
  }

  /** Files found below a file already listed extend the list. */
  lemma TracedAppend(w: World, roots: seq<File>, a: seq<Made>, parents: seq<File>, b: seq<Made>)
    requires Traced(w, roots, a) && Traced(w, parents, b) && forall p :: p in parents ==> Known(p, roots, a)
    ensures Traced(w, roots, a + b)
  {
    hide HasContainer, Known;
    var all := a + b;
    forall k | 0 <= k < |all| ensures HasContainer(w, roots, all[..k], all[k]) {
      if k < |a| {
        assert all[..k] == a[..k];
      } else {
        var j := k - |a|;
        assert all[..k] == a + b[..j];
        forall c | Known(c, parents, b[..j]) ensures Known(c, roots, all[..k]) {
          KnownShifted(c, parents, roots, a, b[..j]);
        }
        HasContainerWiden(w, parents, b[..j], roots, all[..k], b[j]);
      }
    }
  }

  // ----- Accounts -----

  predicate NeverNegative(p: Purse) {
    p.members >= 0 && p.bytes >= 0
  }

  /** One member each, and at least the bytes they were stored as: exactly those, unless the byte budget was given up. */
  predicate Charged(before: Purse, after: Purse, count: nat, bytes: nat) {
    NeverNegative(after)
    && after.members == before.members - count
    && bytes <= before.bytes - after.bytes
    && (after.bytes == 0 || bytes == before.bytes - after.bytes)
    && after.checks >= before.checks
  }

  predicate DepthsWithin(low: int, made: seq<Made>) {
    forall k :: 0 <= k < |made| ==> low <= made[k].file.depth <= MAX_CONTAINER_DEPTH
  }

  ghost predicate Accounted(w: World, roots: seq<File>, low: int, before: Purse, r: Result) {
    Charged(before, r.purse, |r.made|, Total(r.made)) && Traced(w, roots, r.made) && DepthsWithin(low, r.made)
  }

  lemma NothingMade(w: World, roots: seq<File>, low: int, before: Purse, warnings: seq<Diagnostic>, after: Purse)
    requires Charged(before, after, 0, 0)
    ensures Accounted(w, roots, low, before, Result([], warnings, after))
  {
  }

  /** Two accounts, one behind the other. */
  lemma AccountedThen(w: World, roots: seq<File>, low: int, before: Purse, a: Result, parents: seq<File>, low': int, b: Result)
    requires Accounted(w, roots, low, before, a) && Accounted(w, parents, low', a.purse, b) && low <= low'
    requires forall p :: p in parents ==> Known(p, roots, a.made)
    ensures Accounted(w, roots, low, before, Then(a, b))
  {
    hide Traced, Known, DepthsWithin;
    TotalSplit(a.made, b.made);
    TracedAppend(w, roots, a.made, parents, b.made);
    DepthsAppend(low, a.made, low', b.made);
  }

  lemma DepthsAppend(low: int, a: seq<Made>, low': int, b: seq<Made>)
    requires DepthsWithin(low, a) && DepthsWithin(low', b) && low <= low'
    ensures DepthsWithin(low, a + b)
  {
  }

  /** A check costs nothing. */
  lemma AccountedChecked(w: World, roots: seq<File>, low: int, before: Purse, r: Result)
    ensures Accounted(w, roots, low, Checked(before), r) ==> Accounted(w, roots, low, before, r)
    ensures Accounted(w, roots, low, before, r) ==> Accounted(w, roots, low, before, r.(purse := Checked(r.purse)))
  {
    hide Traced, DepthsWithin;
  }

  lemma KeptIsAccounted(w: World, container: File, e: Entry, seen: set<string>, p: Purse)
    requires w.zip(container.data).Some? && e in w.zip(container.data).value && container.depth < MAX_CONTAINER_DEPTH
    requires NeverNegative(p) && p.members > 0
    ensures var fate := FateOf(w, container, e, seen, p.bytes);
            if fate.Kept?
            then Accounted(w, [container], container.depth + 1, p, Result([fate.made], [], Spent(p, fate)))
                 && fate.made.file.depth == container.depth + 1 && LoweredPath(w, container, e) !in seen && Named(w, e)
                 && w.lower(fate.made.file.path) == LoweredPath(w, container, e)
            else Charged(p, Spent(p, fate), 0, 0)
  {
    hide Content, Canonicalized;
    FateMeaning(w, container, e, seen, p.bytes);
    var fate := FateOf(w, container, e, seen, p.bytes);
    if fate.Kept? {
      var m := fate.made;
      TotalOne(m);
      assert MemberOf(w, container, e, m) && From(w, container, m);
      assert Known(container, [container], []) && [m][..0] == [];
      assert HasContainer(w, [container], [m][..0], m);
    }
  }

  // ----- Siblings -----

  /** Members of one container never share a path, whatever the case. */
  predicate SiblingsDistinct(w: World, depth: int, made: seq<Made>) {
    forall j, k :: 0 <= j < k < |made| && made[j].file.depth == depth && made[k].file.depth == depth
      ==> w.lower(made[j].file.path) != w.lower(made[k].file.path)
  }

  /** The members at this depth come from these paths, and not from those. */
  predicate DirectPaths(w: World, depth: int, made: seq<Made>, paths: set<string>, others: set<string>) {
    forall k :: 0 <= k < |made| && made[k].file.depth == depth
      ==> w.lower(made[k].file.path) in paths && w.lower(made[k].file.path) !in others
  }

  lemma SiblingsThen(w: World, depth: int, a: seq<Made>, b: seq<Made>, paths: set<string>, more: set<string>, seen: set<string>)
    requires SiblingsDistinct(w, depth, a) && SiblingsDistinct(w, depth, b)
    requires DirectPaths(w, depth, a, paths, seen) && DirectPaths(w, depth, b, more, seen + paths)
    ensures SiblingsDistinct(w, depth, a + b) && DirectPaths(w, depth, a + b, paths + more, seen)
  {
    var all := a + b;
    forall k | |a| <= k < |all| ensures all[k] == b[k - |a|] {
    }
  }

  lemma DeeperAreNoSiblings(w: World, depth: int, made: seq<Made>, paths: set<string>, others: set<string>)
    requires DepthsWithin(depth + 1, made)
    ensures SiblingsDistinct(w, depth, made) && DirectPaths(w, depth, made, paths, others)
  {
  }

  // ----- Every run -----

  /** The lowered path of an entry, if it has one. */
  function PathOf(w: World, container: File, e: Entry): set<string> {
    if Named(w, e) then {LoweredPath(w, container, e)} else {}
  }

  ghost predicate EntryKeeps(w: World, container: File, e: Entry, seen: set<string>, p: Purse)
    requires container.depth < MAX_CONTAINER_DEPTH
  {
    var r, depth := EntryRun(w, container, e, seen, p), container.depth + 1;
    Accounted(w, [container], depth, p, r) && SiblingsDistinct(w, depth, r.made)
    && DirectPaths(w, depth, r.made, PathOf(w, container, e), seen)
  }

  lemma {:induction false} EntryIsAccounted(w: World, container: File, e: Entry, seen: set<string>, p: Purse)
    requires w.zip(container.data).Some? && e in w.zip(container.data).value && container.depth < MAX_CONTAINER_DEPTH
    requires NeverNegative(p) && p.members > 0
    ensures EntryKeeps(w, container, e, seen, p)
    decreases MAX_CONTAINER_DEPTH - container.depth, 0, 0
  {
    hide FateOf, LooksLikeZip, Accounted, ContainerRun, LoweredPath, Charged, NeverNegative;
    var depth := container.depth + 1;
    KeptIsAccounted(w, container, e, seen, p);
    var fate := FateOf(w, container, e, seen, p.bytes);
    var q := Spent(p, fate);
    match fate
    case PassedOver =>
      NothingMade(w, [container], depth, p, [], q);
    case Warned(d) =>
      NothingMade(w, [container], depth, p, [d], q);
    case Kept(m) =>
      var one := Result([m], [], q);
      AccountedChecked(w, [container], depth, p, one);
      AccountPurse(w, [container], depth, p, one);
      if LooksLikeZip(m.raw) && depth < MAX_CONTAINER_DEPTH && !Exhausted(w, q) {
        var deeper := ContainerRun(w, m.file, Checked(q));
        CheckedPurse(q);
        ContainerIsAccounted(w, m.file, Checked(q));
        AccountedChecked(w, [m.file], depth + 1, q, deeper);
        assert Known(m.file, [container], one.made) by { assert one.made[0].file == m.file; }
        AccountedThen(w, [container], depth, p, one, [m.file], depth + 1, deeper);
        AccountDepths(w, [m.file], depth + 1, q, deeper);
        DeeperAreNoSiblings(w, depth, deeper.made, {}, seen + PathOf(w, container, e));
        SiblingsThen(w, depth, [m], deeper.made, PathOf(w, container, e), {}, seen);
      }
  }

  lemma AccountPurse(w: World, roots: seq<File>, low: int, before: Purse, r: Result)
    requires Accounted(w, roots, low, before, r)
    ensures NeverNegative(r.purse)
  {
  }

  lemma CheckedPurse(p: Purse)
    ensures NeverNegative(p) ==> NeverNegative(Checked(p))
  {
  }

  lemma AccountDepths(w: World, roots: seq<File>, low: int, before: Purse, r: Result)
    requires Accounted(w, roots, low, before, r)
    ensures DepthsWithin(low, r.made)
  {
  }

  ghost predicate EntriesKeep(w: World, container: File, entries: seq<Entry>, i: nat, p: Purse)
    requires container.depth < MAX_CONTAINER_DEPTH && i <= |entries|
  {
    var r, depth := EntriesRun(w, container, entries, i, p), container.depth + 1;
    Accounted(w, [container], depth, p, r) && SiblingsDistinct(w, depth, r.made)
    && DirectPaths(w, depth, r.made, SeenIn(w, container, entries[i..]), SeenIn(w, container, entries[..i]))
  }

  lemma {:induction false} EntriesAreAccounted(w: World, container: File, entries: seq<Entry>, i: nat, p: Purse)
    requires w.zip(container.data) == Some(entries) && container.depth < MAX_CONTAINER_DEPTH
    requires i <= |entries| && NeverNegative(p)
    ensures EntriesKeep(w, container, entries, i, p)
    decreases MAX_CONTAINER_DEPTH - container.depth, 1, |entries| - i
  {
    hide Accounted, EntryRun, SeenIn, LoweredPath, SiblingsDistinct, DirectPaths, PathOf;
    var depth := container.depth + 1;
    if i == |entries| {
      NothingAtAll(w, container, p, p, [], SeenIn(w, container, entries[i..]), SeenIn(w, container, entries[..i]));
    } else if Exhausted(w, p) {
      NothingAtAll(w, container, p, Checked(p), [Diagnostic(container.path, BudgetGone)], SeenIn(w, container, entries[i..]),
                   SeenIn(w, container, entries[..i]));
    } else {
      var seen := SeenIn(w, container, entries[..i]);
      EntryIsAccounted(w, container, entries[i], seen, Checked(p));
      var first := EntryRun(w, container, entries[i], seen, Checked(p));
      AccountedChecked(w, [container], depth, p, first);
      AccountPurse(w, [container], depth, p, first);
      EntriesAreAccounted(w, container, entries, i + 1, first.purse);
      var rest := EntriesRun(w, container, entries, i + 1, first.purse);
      assert Known(container, [container], first.made);
      AccountedThen(w, [container], depth, p, first, [container], depth, rest);
      SeenSplit(w, container, entries, i);
      SiblingsThen(w, depth, first.made, rest.made, PathOf(w, container, entries[i]), SeenIn(w, container, entries[i + 1..]), seen);
    }
  }

  lemma NothingAtAll(w: World, container: File, before: Purse, after: Purse, warnings: seq<Diagnostic>, paths: set<string>,
                     others: set<string>)
    requires NeverNegative(before) && (after == before || after == Checked(before))
    ensures Accounted(w, [container], container.depth + 1, before, Result([], warnings, after))
    ensures SiblingsDistinct(w, container.depth + 1, []) && DirectPaths(w, container.depth + 1, [], paths, others)
  {
  }

  lemma SeenSplit(w: World, container: File, entries: seq<Entry>, i: nat)
    requires i < |entries|
    ensures SeenIn(w, container, entries[..i + 1]) == SeenIn(w, container, entries[..i]) + PathOf(w, container, entries[i])
    ensures SeenIn(w, container, entries[i..]) == PathOf(w, container, entries[i]) + SeenIn(w, container, entries[i + 1..])
  {
    hide Named, LoweredPath;
    assert entries[..i + 1] == entries[..i] + [entries[i]];
    assert entries[i..] == [entries[i]] + entries[i + 1..];
  }

  lemma {:induction false} ContainerIsAccounted(w: World, container: File, p: Purse)
    requires NeverNegative(p)
    ensures var r := ContainerRun(w, container, p);
            Accounted(w, [container], container.depth + 1, p, r) && SiblingsDistinct(w, container.depth + 1, r.made)
    decreases MAX_CONTAINER_DEPTH - container.depth, 2, 0
  {
    hide Accounted, EntriesRun, SiblingsDistinct, DirectPaths;
    var entries := w.zip(container.data);
    NothingAtAll(w, container, p, p, [], {}, {});
    NothingAtAll(w, container, p, p, [Diagnostic(container.path, TooDeep)], {}, {});
    NothingAtAll(w, container, p, p, [Diagnostic(container.path, TooManyMembers)], {}, {});
    if container.depth < MAX_CONTAINER_DEPTH && entries.Some? && |entries.value| <= p.members {
      EntriesAreAccounted(w, container, entries.value, 0, p);
    }
  }

  lemma {:induction false} RootsAreAccounted(w: World, files: seq<File>, low: int, i: nat, p: Purse)
    requires i <= |files| && NeverNegative(p) && forall f :: f in files ==> low <= f.depth
    ensures Accounted(w, files, low + 1, p, RootsRun(w, files, i, p))
    decreases |files| - i
  {
    hide Accounted, ContainerRun, LooksLikeZip, Exhausted;
    if i == |files| {
      NothingMade(w, files, low + 1, p, [], p);
    } else if !LooksLikeZip(files[i].data) {
      RootsAreAccounted(w, files, low, i + 1, p);
    } else if Exhausted(w, p) {
      var gone := Result([], [Diagnostic(files[i].path, BudgetGone)], Checked(p));
      NothingMade(w, files, low + 1, p, gone.warnings, Checked(p));
      RootsAreAccounted(w, files, low, i + 1, Checked(p));
      RootsKnown(files, []);
      AccountedThen(w, files, low + 1, p, gone, files, low + 1, RootsRun(w, files, i + 1, Checked(p)));
    } else {
      var first := ContainerRun(w, files[i], Checked(p));
      ContainerIsAccounted(w, files[i], Checked(p));
      AccountedChecked(w, [files[i]], files[i].depth + 1, p, first);
      FirstAmongRoots(w, files, low, i, p, first);
      AccountPurse(w, files, low + 1, p, first);
      RootsAreAccounted(w, files, low, i + 1, first.purse);
      RootsKnown(files, first.made);
      AccountedThen(w, files, low + 1, p, first, files, low + 1, RootsRun(w, files, i + 1, first.purse));
    }
  }

  lemma RootsKnown(files: seq<File>, made: seq<Made>)
    ensures forall f :: f in files ==> Known(f, files, made)
  {
  }

  lemma FirstAmongRoots(w: World, files: seq<File>, low: int, i: nat, p: Purse, r: Result)
    requires i < |files| && low <= files[i].depth && NeverNegative(p)
    requires Accounted(w, [files[i]], files[i].depth + 1, p, r)
    ensures Accounted(w, files, low + 1, p, r)
  {
    hide Traced, Known;
    NothingMade(w, files, low + 1, p, [], p);
    RootsKnown(files, []);
    assert files[i] in files;
    AccountedThen(w, files, low + 1, p, Result([], [], p), [files[i]], files[i].depth + 1, r);
    NothingFirst(p, r);
  }

  /** Conservation for every set of files and every clock: members produced are exactly the members charged, stored bytes
      never exceed the bytes charged and equal them unless the byte budget was given up, neither budget goes negative,
      every file is a member of a container that came before it and lies one deeper, and none is deeper than the limit. */
  lemma RunIsConserved(w: World, files: seq<File>, low: int)
    requires forall f :: f in files ==> low <= f.depth
    ensures var r := Run(w, files);
            NeverNegative(r.purse) && |r.made| == MAX_CONTAINER_MEMBERS - r.purse.members
            && Total(r.made) <= MAX_CONTAINER_EXPANDED_BYTES - r.purse.bytes
            && (r.purse.bytes > 0 ==> Total(r.made) == MAX_CONTAINER_EXPANDED_BYTES - r.purse.bytes)
            && Traced(w, files, r.made) && DepthsWithin(low + 1, r.made)
  {
    hide RootsRun, Traced, DepthsWithin;
    RootsAreAccounted(w, files, low, 0, FULL);
  }
}
