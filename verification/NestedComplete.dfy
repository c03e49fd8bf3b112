/** Exactly when a run without a warning expanded everything: nothing at the depth limit was itself a container with
    something in it, and the last file was not one that the budget or the clock cut off.  Both happen in silence. */
module NestedComplete {
  import opened Encoding
  import opened Nested
  import opened NestedFacts

  // ----- Everything there is, down to a depth -----

  /** The members of a container, a nested container's right behind it, down to depth `limit`, with no budget or clock. */
  function Expansion(w: World, container: File, limit: int): seq<Made>
    decreases limit - container.depth, 3, 0
  {
    if container.depth >= limit || w.zip(container.data).None? then []
    else EntriesExpansion(w, container, w.zip(container.data).value, 0, limit)
  }

  function EntriesExpansion(w: World, container: File, entries: seq<Entry>, i: nat, limit: int): seq<Made>
    requires container.depth < limit && i <= |entries|
    decreases limit - container.depth, 2, |entries| - i
  {
    if i == |entries| then []
    else EntryExpansion(w, container, entries[i], limit) + EntriesExpansion(w, container, entries, i + 1, limit)
  }

  function EntryExpansion(w: World, container: File, e: Entry, limit: int): seq<Made>
    requires container.depth < limit
    decreases limit - container.depth, 1, 0
  {
    if !Named(w, e) then [] else [Member(w, container, e)] + Inside(w, container, e, limit)
  }

  function Inside(w: World, container: File, e: Entry, limit: int): seq<Made>
    requires container.depth < limit && Named(w, e)
    decreases limit - container.depth, 0, 0
  {
    var m := Member(w, container, e);
    if LooksLikeZip(m.raw) then Expansion(w, m.file, limit) else []
  }

  function RootsExpansion(w: World, files: seq<File>, i: nat, limit: int): seq<Made>
    requires i <= |files|
    decreases |files| - i
  {
    if i == |files| then []
    else (if LooksLikeZip(files[i].data) then Expansion(w, files[i], limit) else []) + RootsExpansion(w, files, i + 1, limit)
  }

  /** A clock does not go back. */
  ghost predicate Forwards(w: World) {
    forall j: nat, k: nat :: j <= k && w.clock(j) ==> w.clock(k)
  }

  /** Nothing is left, or the latest check found the deadline passed. */
  predicate Gone(w: World, p: Purse) {
    p.members <= 0 || p.bytes <= 0 || (p.checks > 0 && w.clock(p.checks - 1))
  }

  /** What a run that ends like this has left out: the inside of its last file, if that came when all was gone. */
  function Lost(w: World, r: Result): seq<Made> {
    if r.made == [] || !Gone(w, r.purse) then []
    else
      var last := r.made[|r.made| - 1];
      if LooksLikeZip(last.raw) then Expansion(w, last.file, MAX_CONTAINER_DEPTH) else []
  }

  /** Without a warning, the run made everything but what it lost at its end. */
  ghost predicate Covers(w: World, r: Result, everything: seq<Made>) {
    r.warnings == [] ==> everything == r.made + Lost(w, r) && (r.made == [] ==> !Gone(w, r.purse))
  }

  lemma CheckPassed(w: World, p: Purse)
    requires Forwards(w) && !Exhausted(w, p)
    ensures !Gone(w, p) && !Gone(w, Checked(p))
  {
    assert p.checks > 0 && w.clock(p.checks - 1) ==> w.clock(p.checks);
  }

  lemma CheckFailed(w: World, p: Purse)
    requires Exhausted(w, p)
    ensures Gone(w, Checked(p))
  {
  }

  /** Once all is gone, a check fails. */
  lemma GoneStays(w: World, p: Purse)
    requires Forwards(w) && Gone(w, p)
    ensures Exhausted(w, p)
  {
  }

  /** One part of a run after another: what the first lost would have been noticed by the check before the second. */
  lemma CoversThen(w: World, a: Result, b: Result, x: seq<Made>, y: seq<Made>)
    requires Covers(w, a, x) && Covers(w, b, y) && (a.warnings == [] && b.warnings == [] ==> !Gone(w, a.purse))
    ensures Covers(w, Then(a, b), x + y)
  {
    hide Gone, Expansion;
    var r := Then(a, b);
    if r.warnings == [] {
      assert a.warnings == [] && b.warnings == [];
      assert x == a.made by { assert a.made + [] == a.made; }
      if b.made != [] {
        assert r.made[|r.made| - 1] == b.made[|b.made| - 1];
      }
      assert a.made + b.made + Lost(w, b) == a.made + (b.made + Lost(w, b));
    }
  }

  lemma {:induction false} EntryCovers(w: World, container: File, e: Entry, seen: set<string>, p: Purse)
    requires Forwards(w) && container.depth < MAX_CONTAINER_DEPTH && !Gone(w, p)
    ensures Covers(w, EntryRun(w, container, e, seen, p), EntryExpansion(w, container, e, MAX_CONTAINER_DEPTH))
    decreases MAX_CONTAINER_DEPTH - container.depth, 0, 0
  {
    hide FateOf, ContainerRun, Expansion, LooksLikeZip, Exhausted, Gone, Named, Member;
    FateIsMember(w, container, e, seen, p.bytes);
    var fate := FateOf(w, container, e, seen, p.bytes);
    var q := Spent(p, fate);
    if fate.Kept? {
      var m := fate.made;
      var everything := EntryExpansion(w, container, e, MAX_CONTAINER_DEPTH);
      EntryIs(w, container, e);
      if !LooksLikeZip(m.raw) {
        assert [m] + [] == [m];
      } else {
        if container.depth + 1 >= MAX_CONTAINER_DEPTH {
          AtLimit(w, m.file);
          assert [m] + [] == [m];
        } else if Exhausted(w, q) {
          CheckFailed(w, q);
        } else {
          CheckPassed(w, q);
          ContainerCovers(w, m.file, Checked(q));
          OneCovers(w, m, q);
          CoversThen(w, Result([m], [], q), ContainerRun(w, m.file, Checked(q)), [m], Expansion(w, m.file, MAX_CONTAINER_DEPTH));
        }
      }
    }
  }

  lemma EntryIs(w: World, container: File, e: Entry)
    requires Named(w, e) && container.depth < MAX_CONTAINER_DEPTH
    ensures var m := Member(w, container, e); var inside := Expansion(w, m.file, MAX_CONTAINER_DEPTH);
            EntryExpansion(w, container, e, MAX_CONTAINER_DEPTH) == if LooksLikeZip(m.raw) then [m] + inside else [m]
  {
    hide Content, Canonicalized;
    var m := Member(w, container, e);
    assert [m] + [] == [m];
  }

  lemma OneCovers(w: World, m: Made, q: Purse)
    requires !Gone(w, q)
    ensures Covers(w, Result([m], [], q), [m])
  {
    assert [m] + [] == [m];
  }

  lemma AtLimit(w: World, file: File)
    ensures file.depth >= MAX_CONTAINER_DEPTH ==> Expansion(w, file, MAX_CONTAINER_DEPTH) == []
  {
  }

  lemma FateIsMember(w: World, container: File, e: Entry, seen: set<string>, bytes: int)
    ensures var fate := FateOf(w, container, e, seen, bytes);
            (fate.Kept? ==> Named(w, e) && fate.made == Member(w, container, e) && fate.made.file.depth == container.depth + 1)
            && (fate.PassedOver? ==> !Named(w, e))
  {
    hide Content, Canonicalized;
    FateMeaning(w, container, e, seen, bytes);
  }

  /** A part of a run that starts with nothing left either warns or has nothing to do. */
  ghost predicate CoversFrom(w: World, p: Purse, r: Result, everything: seq<Made>) {
    if Gone(w, p) then r.warnings == [] ==> r == Result([], [], p) && everything == [] else Covers(w, r, everything)
  }

  lemma CoversThenFrom(w: World, a: Result, b: Result, x: seq<Made>, y: seq<Made>)
    requires Covers(w, a, x) && CoversFrom(w, a.purse, b, y)
    ensures Covers(w, Then(a, b), x + y)
  {
    hide Gone, Expansion, Lost;
    if Gone(w, a.purse) {
      if b.warnings == [] {
        NothingMore(a);
        assert x + y == x;
      }
    } else {
      CoversThen(w, a, b, x, y);
    }
  }

  lemma {:induction false} EntriesCover(w: World, container: File, entries: seq<Entry>, i: nat, p: Purse)
    requires Forwards(w) && container.depth < MAX_CONTAINER_DEPTH && i <= |entries|
    ensures CoversFrom(w, p, EntriesRun(w, container, entries, i, p),
                       EntriesExpansion(w, container, entries, i, MAX_CONTAINER_DEPTH))
    decreases MAX_CONTAINER_DEPTH - container.depth, 1, |entries| - i
  {
    hide EntryRun, EntryExpansion, Gone, Exhausted, SeenIn;
    if i < |entries| {
      if Gone(w, p) {
        GoneStays(w, p);
      } else if !Exhausted(w, p) {
        CheckPassed(w, p);
        var seen := SeenIn(w, container, entries[..i]);
        EntryCovers(w, container, entries[i], seen, Checked(p));
        var first := EntryRun(w, container, entries[i], seen, Checked(p));
        EntriesCover(w, container, entries, i + 1, first.purse);
        CoversThenFrom(w, first, EntriesRun(w, container, entries, i + 1, first.purse),
                       EntryExpansion(w, container, entries[i], MAX_CONTAINER_DEPTH),
                       EntriesExpansion(w, container, entries, i + 1, MAX_CONTAINER_DEPTH));
      }
    }
  }

  lemma {:induction false} ContainerCovers(w: World, container: File, p: Purse)
    requires Forwards(w) && !Gone(w, p)
    ensures Covers(w, ContainerRun(w, container, p), Expansion(w, container, MAX_CONTAINER_DEPTH))
    decreases MAX_CONTAINER_DEPTH - container.depth, 2, 0
  {
    hide EntriesRun, EntriesExpansion, Gone;
    var entries := w.zip(container.data);
    if container.depth < MAX_CONTAINER_DEPTH && entries.Some? && |entries.value| <= p.members {
      EntriesCover(w, container, entries.value, 0, p);
    }
  }

  lemma {:induction false} RootsCover(w: World, files: seq<File>, i: nat, p: Purse)
    requires Forwards(w) && i <= |files|
    ensures CoversFrom(w, p, RootsRun(w, files, i, p), RootsExpansion(w, files, i, MAX_CONTAINER_DEPTH))
    decreases |files| - i
  {
    hide ContainerRun, Expansion, LooksLikeZip, Gone, Exhausted;
    if i < |files| {
      var rest := RootsExpansion(w, files, i + 1, MAX_CONTAINER_DEPTH);
      if !LooksLikeZip(files[i].data) {
        RootsCover(w, files, i + 1, p);
        assert [] + rest == rest;
      } else if Gone(w, p) {
        GoneStays(w, p);
      } else if !Exhausted(w, p) {
        CheckPassed(w, p);
        ContainerCovers(w, files[i], Checked(p));
        var first := ContainerRun(w, files[i], Checked(p));
        RootsCover(w, files, i + 1, first.purse);
        CoversThenFrom(w, first, RootsRun(w, files, i + 1, first.purse), Expansion(w, files[i], MAX_CONTAINER_DEPTH), rest);
      }
    }
  }

  // ----- Below the depth limit -----

  /** A container with something in it. */
  ghost predicate Expandable(w: World, m: Made) {
    LooksLikeZip(m.raw) && HasMembers(w, m.file)
  }

  ghost predicate HasMembers(w: World, file: File) {
    w.zip(file.data).Some? && exists e :: e in w.zip(file.data).value && Named(w, e)
  }

  /** None of these files at this depth is a container with something in it. */
  ghost predicate FlatAt(w: World, depth: int, made: seq<Made>) {
    forall k :: 0 <= k < |made| && made[k].file.depth == depth ==> !Expandable(w, made[k])
  }

  lemma FlatAppend(w: World, depth: int, a: seq<Made>, b: seq<Made>)
    ensures FlatAt(w, depth, a + b) <==> FlatAt(w, depth, a) && FlatAt(w, depth, b)
  {
    var all := a + b;
    if FlatAt(w, depth, all) {
      forall k | 0 <= k < |a| && a[k].file.depth == depth ensures !Expandable(w, a[k]) {
        assert all[k] == a[k];
      }
      forall k | 0 <= k < |b| && b[k].file.depth == depth ensures !Expandable(w, b[k]) {
        assert all[|a| + k] == b[k];
      }
    }
  }

  lemma {:induction false} NoMembersNothingInside(w: World, container: File, entries: seq<Entry>, i: nat, limit: int)
    requires container.depth < limit && i <= |entries|
    ensures EntriesExpansion(w, container, entries, i, limit) == [] <==> forall k :: i <= k < |entries| ==> !Named(w, entries[k])
    decreases |entries| - i
  {
    hide Named, Member, Inside;
    if i < |entries| {
      NoMembersNothingInside(w, container, entries, i + 1, limit);
    }
  }

  /** There is something inside a container exactly if it has a named entry. */
  lemma InsideExactly(w: World, container: File, limit: int)
    requires container.depth < limit
    ensures Expansion(w, container, limit) == [] <==> !HasMembers(w, container)
  {
    hide Named, EntriesExpansion;
    if w.zip(container.data).Some? {
      var entries := w.zip(container.data).value;
      NoMembersNothingInside(w, container, entries, 0, limit);
      if HasMembers(w, container) {
        var e :| e in entries && Named(w, e);
        var k :| 0 <= k < |entries| && entries[k] == e;
      }
    }
  }

  /** How an expansion to one depth compares with one to a greater depth: it is no longer, and as long only if equal, which
      is when nothing at its depth has members. */
  ghost predicate Compares(w: World, limit: int, less: seq<Made>, more: seq<Made>) {
    |less| <= |more| && (|less| == |more| <==> FlatAt(w, limit, less)) && (|less| == |more| ==> less == more)
  }

  lemma ComparesAppend(w: World, limit: int, a: seq<Made>, a': seq<Made>, b: seq<Made>, b': seq<Made>)
    requires Compares(w, limit, a, a') && Compares(w, limit, b, b')
    ensures Compares(w, limit, a + b, a' + b')
  {
    hide FlatAt;
    FlatAppend(w, limit, a, b);
  }

  lemma ComparesSelf(w: World, limit: int, a: seq<Made>)
    requires FlatAt(w, limit, a)
    ensures Compares(w, limit, a, a)
  {
  }

  lemma {:induction false} EntryCompares(w: World, container: File, e: Entry, limit: int, deeper: int)
    requires container.depth < limit < deeper
    ensures Compares(w, limit, EntryExpansion(w, container, e, limit), EntryExpansion(w, container, e, deeper))
    decreases limit - container.depth, 0, 0
  {
    hide Named, Member, LooksLikeZip, Expansion, FlatAt, Compares;
    if Named(w, e) {
      var m := Member(w, container, e);
      MemberDepth(w, container, e);
      if !LooksLikeZip(m.raw) {
        OneIsFlat(w, limit, m);
        ComparesSelf(w, limit, [m]);
        assert [m] + [] == [m];
      } else if m.file.depth == limit {
        BelowLimit(w, m, limit, deeper);
      } else {
        ContainerCompares(w, m.file, limit, deeper);
        OneIsFlat(w, limit, m);
        ComparesSelf(w, limit, [m]);
        ComparesAppend(w, limit, [m], [m], Expansion(w, m.file, limit), Expansion(w, m.file, deeper));
      }
    } else {
      NothingCompares(w, limit);
    }
  }

  lemma NothingCompares(w: World, limit: int)
    ensures Compares(w, limit, [], [])
  {
  }

  lemma MemberDepth(w: World, container: File, e: Entry)
    requires Named(w, e)
    ensures Member(w, container, e).file.depth == container.depth + 1
  {
    hide Content, Canonicalized;
  }

  lemma OneIsFlat(w: World, limit: int, m: Made)
    requires m.file.depth != limit || !LooksLikeZip(m.raw)
    ensures FlatAt(w, limit, [m])
  {
  }

  lemma BelowLimit(w: World, m: Made, limit: int, deeper: int)
    requires m.file.depth == limit < deeper && LooksLikeZip(m.raw)
    ensures Compares(w, limit, [m] + Expansion(w, m.file, limit), [m] + Expansion(w, m.file, deeper))
  {
    hide LooksLikeZip;
    InsideExactly(w, m.file, deeper);
    assert Expansion(w, m.file, limit) == [] && [m] + [] == [m];
    assert [m][0] == m;
  }

  lemma {:induction false} EntriesCompare(w: World, container: File, entries: seq<Entry>, i: nat, limit: int, deeper: int)
    requires container.depth < limit < deeper && i <= |entries|
    ensures Compares(w, limit, EntriesExpansion(w, container, entries, i, limit), EntriesExpansion(w, container, entries, i, deeper))
    decreases limit - container.depth, 1, |entries| - i
  {
    hide EntryExpansion, Compares;
    if i == |entries| {
      NothingCompares(w, limit);
    } else {
      EntryCompares(w, container, entries[i], limit, deeper);
      EntriesCompare(w, container, entries, i + 1, limit, deeper);
      ComparesAppend(w, limit, EntryExpansion(w, container, entries[i], limit), EntryExpansion(w, container, entries[i], deeper),
                     EntriesExpansion(w, container, entries, i + 1, limit), EntriesExpansion(w, container, entries, i + 1, deeper));
    }
  }

  lemma {:induction false} ContainerCompares(w: World, container: File, limit: int, deeper: int)
    requires container.depth < limit < deeper
    ensures Compares(w, limit, Expansion(w, container, limit), Expansion(w, container, deeper))
    decreases limit - container.depth, 2, 0
  {
    hide EntriesExpansion, Compares;
    NothingCompares(w, limit);
    if w.zip(container.data).Some? {
      EntriesCompare(w, container, w.zip(container.data).value, 0, limit, deeper);
    }
  }

  /** The containers among the roots lie above the depth limit. */
  predicate RootsAbove(files: seq<File>, limit: int) {
    forall k :: 0 <= k < |files| && LooksLikeZip(files[k].data) ==> files[k].depth < limit
  }

  lemma {:induction false} RootsCompare(w: World, files: seq<File>, i: nat, limit: int, deeper: int)
    requires RootsAbove(files, limit) && limit < deeper && i <= |files|
    ensures Compares(w, limit, RootsExpansion(w, files, i, limit), RootsExpansion(w, files, i, deeper))
    decreases |files| - i
  {
    hide Expansion, Compares, LooksLikeZip;
    NothingCompares(w, limit);
    if i < |files| {
      RootsCompare(w, files, i + 1, limit, deeper);
      var rest, rest' := RootsExpansion(w, files, i + 1, limit), RootsExpansion(w, files, i + 1, deeper);
      if LooksLikeZip(files[i].data) {
        ContainerCompares(w, files[i], limit, deeper);
        ComparesAppend(w, limit, Expansion(w, files[i], limit), Expansion(w, files[i], deeper), rest, rest');
      } else {
        assert [] + rest == rest && [] + rest' == rest';
      }
    }
  }

  /** A root that already claims the greatest depth gets a warning. */
  lemma {:induction false} DeepRootsWarn(w: World, files: seq<File>, i: nat, p: Purse)
    requires i <= |files| && RootsRun(w, files, i, p).warnings == []
    ensures forall k :: i <= k < |files| && LooksLikeZip(files[k].data) ==> files[k].depth < MAX_CONTAINER_DEPTH
    decreases |files| - i
  {
    hide LooksLikeZip, EntriesRun;
    if i < |files| {
      if !LooksLikeZip(files[i].data) {
        DeepRootsWarn(w, files, i + 1, p);
      } else if !Exhausted(w, p) {
        DeepRootsWarn(w, files, i + 1, ContainerRun(w, files[i], Checked(p)).purse);
      }
    }
  }

  // ----- Exactly -----

  /** The run made everything there is, at whatever depth. */
  ghost predicate MadeEverything(w: World, files: seq<File>, r: Result) {
    forall limit: int :: limit >= MAX_CONTAINER_DEPTH ==> RootsExpansion(w, files, 0, limit) == r.made
  }

  /** The last file is a container with something in it, and all was gone when its turn came. */
  ghost predicate CutOffAtEnd(w: World, r: Result) {
    r.made != [] && Gone(w, r.purse) && Expandable(w, r.made[|r.made| - 1])
  }

  /** A run without a warning made everything if and only if no file at the depth limit is a container with something in
      it and the last file was not cut off. */
  lemma CompleteExactly(w: World, files: seq<File>)
    requires Forwards(w) && Run(w, files).warnings == []
    ensures var r := Run(w, files);
            MadeEverything(w, files, r) <==> FlatAt(w, MAX_CONTAINER_DEPTH, r.made) && !CutOffAtEnd(w, r)
  {
    hide RootsRun, RootsExpansion, Gone, LooksLikeZip, FlatAt, HasMembers, Expansion;
    var r, limit := Run(w, files), MAX_CONTAINER_DEPTH;
    RunCovers(w, files);
    DeepRootsWarn(w, files, 0, FULL);
    var all, more := RootsExpansion(w, files, 0, limit), RootsExpansion(w, files, 0, limit + 1);
    RootsCompare(w, files, 0, limit, limit + 1);
    NoneDeeper(w, files);
    LostExactly(w, r);
    if MadeEverything(w, files, r) {
      assert all == r.made && more == r.made;
      assert Lost(w, r) == [] by { assert |r.made + Lost(w, r)| == |r.made|; }
    }
    if FlatAt(w, limit, r.made) && !CutOffAtEnd(w, r) {
      assert r.made + [] == r.made;
      forall deeper: int | deeper >= limit ensures RootsExpansion(w, files, 0, deeper) == r.made {
        if deeper > limit {
          RootsCompare(w, files, 0, limit, deeper);
        }
      }
    }
  }

  lemma NoneDeeper(w: World, files: seq<File>)
    ensures forall k :: 0 <= k < |Run(w, files).made| ==> Run(w, files).made[k].file.depth <= MAX_CONTAINER_DEPTH
  {
    hide RootsRun;
    var low := Lowest(files);
    RunIsConserved(w, files, low);
  }

  lemma {:induction false} Lowest(files: seq<File>) returns (low: int)
    ensures forall f :: f in files ==> low <= f.depth
  {
    if files == [] {
      low := 0;
    } else {
      low := Lowest(files[1..]);
      low := if files[0].depth < low then files[0].depth else low;
    }
  }

  lemma RunCovers(w: World, files: seq<File>)
    requires Forwards(w)
    ensures Covers(w, Run(w, files), RootsExpansion(w, files, 0, MAX_CONTAINER_DEPTH))
  {
    hide RootsRun, RootsExpansion, Covers;
    if !Gone(w, FULL) {
      RootsCover(w, files, 0, FULL);
    }
  }

  /** Among files of which none at the depth limit has members, something was lost exactly if the last was cut off. */
  lemma LostExactly(w: World, r: Result)
    requires forall k :: 0 <= k < |r.made| ==> r.made[k].file.depth <= MAX_CONTAINER_DEPTH
    ensures FlatAt(w, MAX_CONTAINER_DEPTH, r.made) ==> (Lost(w, r) == [] <==> !CutOffAtEnd(w, r))
  {
    hide Gone, LooksLikeZip, HasMembers, Expansion;
    if r.made != [] && FlatAt(w, MAX_CONTAINER_DEPTH, r.made) {
      var last := r.made[|r.made| - 1];
      if last.file.depth < MAX_CONTAINER_DEPTH {
        InsideExactly(w, last.file, MAX_CONTAINER_DEPTH);
      } else {
        AtLimit(w, last.file);
      }
    }
  }
}
