/** What can be told of a run from the archives alone: when every entry is one the expander keeps, and the budget is ample
    for all of them, the run warns of nothing and makes all there is down to the depth limit. */
module NestedAmple {
  import opened Encoding
  import opened Nested
  import opened NestedComplete

  /** How many entries there are and how many bytes they hold. */
  datatype Need = Need(entries: nat, bytes: nat)

  function Plus(a: Need, b: Need): Need {
    Need(a.entries + b.entries, a.bytes + b.bytes)
  }

  predicate IsNested(container: File, m: Made) {
    LooksLikeZip(m.raw) && container.depth + 1 < MAX_CONTAINER_DEPTH
  }

  /** What a container needs, with the containers inside it. */
  function ContainerNeed(w: World, container: File): Need
    decreases MAX_CONTAINER_DEPTH - container.depth, 2, 0
  {
    if container.depth >= MAX_CONTAINER_DEPTH || w.zip(container.data).None? then Need(0, 0)
    else EntriesNeed(w, container, w.zip(container.data).value, 0)
  }

  function EntriesNeed(w: World, container: File, entries: seq<Entry>, i: nat): Need
    requires container.depth < MAX_CONTAINER_DEPTH && i <= |entries|
    decreases MAX_CONTAINER_DEPTH - container.depth, 1, |entries| - i
  {
    if i == |entries| then Need(0, 0)
    else Plus(EntryNeed(w, container, entries[i]), EntriesNeed(w, container, entries, i + 1))
  }

  function EntryNeed(w: World, container: File, e: Entry): Need
    requires container.depth < MAX_CONTAINER_DEPTH
    decreases MAX_CONTAINER_DEPTH - container.depth, 0, 0
  {
    if !Named(w, e) then Need(1, 0)
    else
      var m := Member(w, container, e);
      Plus(Need(1, |m.raw|), if IsNested(container, m) then ContainerNeed(w, m.file) else Need(0, 0))
  }

  /** Directories aside, every entry is a regular, safely named, acceptable member with a path of its own. */
  predicate ContainerIsClean(w: World, container: File)
    decreases MAX_CONTAINER_DEPTH - container.depth, 2, 0
  {
    container.depth < MAX_CONTAINER_DEPTH
    && (w.zip(container.data).Some? ==> EntriesAreClean(w, container, w.zip(container.data).value, 0))
  }

  predicate EntriesAreClean(w: World, container: File, entries: seq<Entry>, i: nat)
    requires container.depth < MAX_CONTAINER_DEPTH && i <= |entries|
    decreases MAX_CONTAINER_DEPTH - container.depth, 1, |entries| - i
  {
    i < |entries| ==>
      EntryIsClean(w, container, entries[i], SeenIn(w, container, entries[..i])) && EntriesAreClean(w, container, entries, i + 1)
  }

  predicate EntryIsClean(w: World, container: File, e: Entry, seen: set<string>)
    requires container.depth < MAX_CONTAINER_DEPTH
    decreases MAX_CONTAINER_DEPTH - container.depth, 0, 0
  {
    e.directory
    || (Named(w, e) && SizesAcceptable(e) && LoweredPath(w, container, e) !in seen
        && (IsNested(container, Member(w, container, e)) ==> ContainerIsClean(w, Member(w, container, e).file)))
  }

  /** The deadline never passes. */
  ghost predicate InTime(w: World) {
    forall k :: !w.clock(k)
  }

  /** More is left than is needed. */
  predicate Ample(p: Purse, n: Need) {
    p.members > n.entries && p.bytes > n.bytes
  }

  /** Nothing was warned of and no more than the need was spent. */
  predicate Served(p: Purse, n: Need, r: Result) {
    r.warnings == [] && r.purse.members >= p.members - n.entries && r.purse.bytes >= p.bytes - n.bytes
  }

  lemma ServedThen(p: Purse, m: Need, a: Result, n: Need, b: Result)
    requires Served(p, m, a) && Served(a.purse, n, b)
    ensures Served(p, Plus(m, n), Then(a, b))
  {
  }

  lemma NeverExhausted(w: World, p: Purse, n: Need)
    requires InTime(w) && Ample(p, n)
    ensures !Exhausted(w, p)
  {
  }

  lemma CleanFate(w: World, container: File, e: Entry, seen: set<string>, bytes: int)
    requires container.depth < MAX_CONTAINER_DEPTH && EntryIsClean(w, container, e, seen)
    requires Named(w, e) ==> |Member(w, container, e).raw| <= bytes
    ensures FateOf(w, container, e, seen, bytes) == if e.directory then PassedOver else Kept(Member(w, container, e))
    ensures e.directory ==> !Named(w, e)
  {
    hide Content, Canonicalized, ContainerIsClean;
    FateMeaning(w, container, e, seen, bytes);
  }

  lemma {:induction false} EntryIsServed(w: World, container: File, e: Entry, seen: set<string>, p: Purse)
    requires InTime(w) && container.depth < MAX_CONTAINER_DEPTH && EntryIsClean(w, container, e, seen)
    requires Ample(p, EntryNeed(w, container, e))
    ensures Served(p, EntryNeed(w, container, e), EntryRun(w, container, e, seen, p))
    decreases MAX_CONTAINER_DEPTH - container.depth, 0, 0
  {
    hide FateOf, ContainerRun, ContainerNeed, ContainerIsClean, Exhausted, Named, SizesAcceptable;
    CleanFate(w, container, e, seen, p.bytes);
    if !e.directory {
      var m := Member(w, container, e);
      var q := Spent(p, Kept(m));
      MemberDepth(w, container, e);
      if IsNested(container, m) {
        NeverExhausted(w, q, ContainerNeed(w, m.file));
        ContainerIsServed(w, m.file, Checked(q));
      }
    }
  }

  lemma {:induction false} EntriesAreServed(w: World, container: File, entries: seq<Entry>, i: nat, p: Purse)
    requires InTime(w) && container.depth < MAX_CONTAINER_DEPTH && i <= |entries| && EntriesAreClean(w, container, entries, i)
    requires Ample(p, EntriesNeed(w, container, entries, i))
    ensures Served(p, EntriesNeed(w, container, entries, i), EntriesRun(w, container, entries, i, p))
    decreases MAX_CONTAINER_DEPTH - container.depth, 1, |entries| - i
  {
    hide EntryRun, EntryNeed, EntryIsClean, Exhausted, SeenIn;
    if i < |entries| {
      var seen := SeenIn(w, container, entries[..i]);
      var own, rest := EntryNeed(w, container, entries[i]), EntriesNeed(w, container, entries, i + 1);
      NeverExhausted(w, p, own);
      EntryIsServed(w, container, entries[i], seen, Checked(p));
      var first := EntryRun(w, container, entries[i], seen, Checked(p));
      EntriesAreServed(w, container, entries, i + 1, first.purse);
      ServedThen(Checked(p), own, first, rest, EntriesRun(w, container, entries, i + 1, first.purse));
    }
  }

  lemma {:induction false} EntriesAreCounted(w: World, container: File, entries: seq<Entry>, i: nat)
    requires container.depth < MAX_CONTAINER_DEPTH && i <= |entries|
    ensures EntriesNeed(w, container, entries, i).entries >= |entries| - i
    decreases |entries| - i
  {
    hide ContainerNeed, Member, Named;
    if i < |entries| {
      EntriesAreCounted(w, container, entries, i + 1);
    }
  }

  lemma {:induction false} ContainerIsServed(w: World, container: File, p: Purse)
    requires InTime(w) && ContainerIsClean(w, container) && Ample(p, ContainerNeed(w, container))
    ensures Served(p, ContainerNeed(w, container), ContainerRun(w, container, p))
    decreases MAX_CONTAINER_DEPTH - container.depth, 2, 0
  {
    hide EntriesRun, EntriesNeed, EntriesAreClean;
    var entries := w.zip(container.data);
    if entries.Some? {
      EntriesAreCounted(w, container, entries.value, 0);
      EntriesAreServed(w, container, entries.value, 0, p);
    }
  }

  // ----- A whole run -----

  function RootsNeed(w: World, files: seq<File>, i: nat): Need
    requires i <= |files|
    decreases |files| - i
  {
    if i == |files| then Need(0, 0)
    else Plus(if LooksLikeZip(files[i].data) then ContainerNeed(w, files[i]) else Need(0, 0), RootsNeed(w, files, i + 1))
  }

  predicate RootsAreClean(w: World, files: seq<File>) {
    forall k :: 0 <= k < |files| && LooksLikeZip(files[k].data) ==> ContainerIsClean(w, files[k])
  }

  lemma {:induction false} RootsAreServed(w: World, files: seq<File>, i: nat, p: Purse)
    requires InTime(w) && i <= |files| && RootsAreClean(w, files) && Ample(p, RootsNeed(w, files, i))
    ensures Served(p, RootsNeed(w, files, i), RootsRun(w, files, i, p))
    decreases |files| - i
  {
    hide ContainerRun, ContainerNeed, ContainerIsClean, LooksLikeZip, Exhausted;
    if i < |files| {
      var rest := RootsNeed(w, files, i + 1);
      if !LooksLikeZip(files[i].data) {
        RootsAreServed(w, files, i + 1, p);
      } else {
        var own := ContainerNeed(w, files[i]);
        NeverExhausted(w, p, own);
        ContainerIsServed(w, files[i], Checked(p));
        var first := ContainerRun(w, files[i], Checked(p));
        RootsAreServed(w, files, i + 1, first.purse);
        ServedThen(Checked(p), own, first, rest, RootsRun(w, files, i + 1, first.purse));
      }
    }
  }

  /** Of clean archives that need less than the budget, opened in time, nothing is warned of and everything down to the
      depth limit is made; and that is everything there is if and only if no file at the limit is a container with
      something in it. */
  lemma AmpleRun(w: World, files: seq<File>)
    requires InTime(w) && RootsAreClean(w, files) && Ample(Purse(1000, 25 * 1024 * 1024, 0), RootsNeed(w, files, 0))
    ensures var r, down := Run(w, files), RootsExpansion(w, files, 0, 3);
            r.warnings == [] && r.made == down && (MadeEverything(w, files, r) <==> FlatAt(w, 3, down))
  {
    hide RootsRun, RootsExpansion, RootsNeed, MadeEverything, FlatAt, Expandable;
    RootsAreServed(w, files, 0, FULL);
    var r := Run(w, files);
    assert !Gone(w, r.purse);
    RunCovers(w, files);
    assert r.made + [] == r.made;
    CompleteExactly(w, files);
  }
}
