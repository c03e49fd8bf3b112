/** What a run of the expander amounts to, in terms of the archives alone: which rule an entry breaks, what the files made
    look like, and what is warned about. */
module NestedMeaning {
  import opened Bytes
  import opened Encoding
  import opened Nested
  import opened NestedFacts
  import NestedComplete

  // ----- Contents -----

  /** What reading delivers in pieces is the pieces one behind the other, however it is cut. */
  lemma {:induction false} ContentMeaning(a: seq<seq<byte>>, b: seq<seq<byte>>, data: seq<byte>)
    ensures Content([]) == [] && Content([data]) == data && Content(a + b) == Content(a) + Content(b)
    decreases |b|
  {
    assert [data][..0] == [] && [] + data == data;
    if b == [] {
      assert a + b == a && Content(a) + [] == Content(a);
    } else {
      var n := |b| - 1;
      ContentMeaning(a, b[..n], data);
      assert (a + b)[..|a + b| - 1] == a + b[..n];
      assert Content(a) + (Content(b[..n]) + b[n]) == Content(a) + Content(b[..n]) + b[n];
    }
  }

  /** A container is told by the letters P and K and the bytes 3 and 4 at its front. */
  lemma ZipMeaning(data: seq<byte>)
    ensures LooksLikeZip(data) <==> ['P' as int, 'K' as int, 3, 4] <= data
  {
  }

  // ----- The rules for an entry -----

  predicate HasName(w: World, e: Entry, name: string) {
    w.safePath(e.name) == Some(name)
  }

  /** What each rule forbids. */
  ghost predicate Breaks(w: World, container: File, e: Entry, seen: set<string>, bytes: int, rule: Reason) {
    match rule
    case Symlink => e.symlink
    case UnsafePath => forall name :: !HasName(w, e, name)
    case Duplicate => exists name :: HasName(w, e, name) && w.lower(container.path + "!/" + name) in seen
    case DeclaredTooLarge => e.uncompressed > 1_048_576
    case RatioTooHigh => e.compressed > 0 && e.uncompressed >= 101 * e.compressed
    case CannotOpen => !e.opens
    case ReadTooLarge => |Content(e.chunks)| > 1_048_576
    case OverByteBudget => |Content(e.chunks)| > bytes
    case _ => false
  }

  /** The order in which they are looked at. */
  const RULES: seq<Reason> :=
    [Symlink, UnsafePath, Duplicate, DeclaredTooLarge, RatioTooHigh, CannotOpen, ReadTooLarge, OverByteBudget]

  ghost predicate FirstBroken(w: World, container: File, e: Entry, seen: set<string>, bytes: int, k: nat) {
    k < 8 && Breaks(w, container, e, seen, bytes, RULES[k])
    && forall j :: 0 <= j < k ==> !Breaks(w, container, e, seen, bytes, RULES[j])
  }

  ghost predicate BreaksNone(w: World, container: File, e: Entry, seen: set<string>, bytes: int) {
    forall j :: 0 <= j < 8 ==> !Breaks(w, container, e, seen, bytes, RULES[j])
  }

  /** The first three rules are reported for the container, the others for the member. */
  ghost predicate Blamed(w: World, container: File, e: Entry, k: nat, path: string) {
    if k < 3 then path == container.path else exists name :: HasName(w, e, name) && path == container.path + "!/" + name
  }

  ghost predicate IsReported(w: World, container: File, e: Entry, seen: set<string>, bytes: int, d: Diagnostic) {
    exists k: nat :: FirstBroken(w, container, e, seen, bytes, k) && d.reason == RULES[k] && Blamed(w, container, e, k, d.path)
  }

  lemma RatioMeaning(u: nat, c: nat)
    requires c > 0
    ensures u / c > 100 <==> u >= 101 * c
  {
    var q := u / c;
    assert u == q * c + u % c;
    if q >= 101 {
      TimesGrows(101, q, c);
    } else {
      TimesGrows(q, 100, c);
    }
  }

  lemma TimesGrows(a: nat, b: nat, c: nat)
    requires a <= b
    ensures a * c <= b * c
  {
  }

  lemma BlameMeaning(w: World, container: File, e: Entry, k: nat)
    ensures k < 3 ==> Blamed(w, container, e, k, container.path)
    ensures k >= 3 && w.safePath(e.name).Some? ==> Blamed(w, container, e, k, MemberPath(container, w.safePath(e.name).value))
  {
    if w.safePath(e.name).Some? {
      assert HasName(w, e, w.safePath(e.name).value);
    }
  }

  lemma RuleTexts(w: World, container: File, e: Entry, seen: set<string>, bytes: int)
    ensures Breaks(w, container, e, seen, bytes, RatioTooHigh) <==> e.compressed > 0 && e.uncompressed / e.compressed > 100
    ensures Breaks(w, container, e, seen, bytes, UnsafePath) <==> w.safePath(e.name).None?
    ensures (Breaks(w, container, e, seen, bytes, Duplicate)
             <==> w.safePath(e.name).Some? && w.lower(MemberPath(container, w.safePath(e.name).value)) in seen)
  {
    hide Content;
    if e.compressed > 0 {
      RatioMeaning(e.uncompressed, e.compressed);
    }
    if w.safePath(e.name).Some? {
      assert HasName(w, e, w.safePath(e.name).value);
    }
  }

  /** Only a directory is passed over; any other entry is refused with the first rule it breaks, or kept. */
  lemma RulesDecide(w: World, container: File, e: Entry, seen: set<string>, bytes: int)
    ensures var fate := FateOf(w, container, e, seen, bytes);
            (fate.PassedOver? <==> e.directory)
            && (fate.Kept? <==> !e.directory && BreaksNone(w, container, e, seen, bytes))
            && (fate.Warned? ==> IsReported(w, container, e, seen, bytes, fate.warning))
  {
    hide Canonicalized, Content, Member, MemberPath, Blamed;
    RuleTexts(w, container, e, seen, bytes);
    var fate := FateOf(w, container, e, seen, bytes);
    if fate.Warned? {
      var k: nat := if e.symlink then 0 else if w.safePath(e.name).None? then 1 else if fate.warning.reason == Duplicate then 2
               else if fate.warning.reason == DeclaredTooLarge then 3 else if fate.warning.reason == RatioTooHigh then 4
               else if fate.warning.reason == CannotOpen then 5 else if fate.warning.reason == ReadTooLarge then 6 else 7;
      assert RULES[k] == fate.warning.reason;
      assert FirstBroken(w, container, e, seen, bytes, k);
      assert Blamed(w, container, e, k, fate.warning.path) by {
        BlameMeaning(w, container, e, k);
      }
    }
  }

  // ----- What a member becomes -----

  /** The file records where it came from and holds the canonical form of what was delivered; its digest is of what was
      delivered. */
  ghost predicate Describes(w: World, container: File, e: Entry, name: string, m: Made) {
    var canonical := Canonicalized(m.raw);
    m.raw == Content(e.chunks)
    && m.file.path == container.path + "!/" + name
    && m.file.sha256 == w.sha256(m.raw) && m.file.parentSha256 == container.sha256
    && m.file.data == canonical.bytes && m.file.encoding == canonical.encoding
    && m.file.executable == e.executable && m.file.depth == container.depth + 1
  }

  /** Nothing an entry must be is left out. */
  predicate Accepts(w: World, e: Entry, name: string) {
    !e.directory && !e.symlink && e.opens && HasName(w, e, name)
    && e.uncompressed <= 1_048_576 && |Content(e.chunks)| <= 1_048_576
    && (e.compressed > 0 ==> e.uncompressed < 101 * e.compressed)
  }

  ghost predicate MadeFrom(w: World, container: File, m: Made) {
    exists entries, e, name ::
      w.zip(container.data) == Some(entries) && e in entries && Accepts(w, e, name) && Describes(w, container, e, name, m)
  }

  lemma MemberIsDescribed(w: World, container: File, e: Entry, m: Made)
    requires MemberOf(w, container, e, m)
    ensures w.safePath(e.name).Some?
    ensures var name := w.safePath(e.name).value; Accepts(w, e, name) && Describes(w, container, e, name, m)
  {
    hide Canonicalized, Content;
    if e.compressed > 0 {
      RatioMeaning(e.uncompressed, e.compressed);
    }
  }

  /** Every file of a run is described by an acceptable entry of a root or of a file made before it.  There are at most
      1000, of at most 25 MiB together, and none is nested deeper than three containers. */
  lemma EveryFileMeaning(w: World, files: seq<File>, k: nat)
    requires k < |Run(w, files).made|
    ensures var made := Run(w, files).made;
            |made| <= 1000 && Total(made) <= 25 * 1024 * 1024 && made[k].file.depth <= 3
            && exists container :: MadeFrom(w, container, made[k])
                 && (container in files || exists j :: 0 <= j < k && made[j].file == container)
  {
    hide Run, MadeFrom, From, DepthsWithin;
    var made := Run(w, files).made;
    RunNumbers(w, files, k);
    assert HasContainer(w, files, made[..k], made[k]);
    var container :| Known(container, files, made[..k]) && container.depth + 1 == made[k].file.depth && From(w, container, made[k]);
    FromIsMadeFrom(w, container, made[k]);
    if container !in files {
      var j :| 0 <= j < |made[..k]| && made[..k][j].file == container;
      assert made[j].file == container;
    }
  }

  lemma RunNumbers(w: World, files: seq<File>, k: nat)
    requires k < |Run(w, files).made|
    ensures var made := Run(w, files).made;
            |made| <= 1000 && Total(made) <= 25 * 1024 * 1024 && made[k].file.depth <= 3 && Traced(w, files, made)
  {
    hide Run, Traced;
    var low := NestedComplete.Lowest(files);
    RunIsConserved(w, files, low);
  }

  lemma FromIsMadeFrom(w: World, container: File, m: Made)
    requires From(w, container, m)
    ensures MadeFrom(w, container, m)
  {
    hide MemberOf, Accepts, Describes;
    var e :| e in w.zip(container.data).value && MemberOf(w, container, e, m);
    MemberIsDescribed(w, container, e, m);
    SomeWitness(w, container, w.zip(container.data).value, e, w.safePath(e.name).value, m);
  }

  lemma SomeWitness(w: World, container: File, entries: seq<Entry>, e: Entry, name: string, m: Made)
    requires w.zip(container.data) == Some(entries) && e in entries && Accepts(w, e, name) && Describes(w, container, e, name, m)
    ensures MadeFrom(w, container, m)
  {
    hide Accepts, Describes;
  }

  // ----- Warnings -----

  /** A warning about a container, or about one of its entries. */
  ghost predicate Explains(w: World, container: File, d: Diagnostic) {
    match d.reason
    case BudgetGone => d.path == container.path
    case TooDeep => d.path == container.path && container.depth >= 3
    case TooManyMembers => d.path == container.path && w.zip(container.data).Some?
    case _ => w.zip(container.data).Some? && exists e, seen, bytes ::
                e in w.zip(container.data).value && IsReported(w, container, e, seen, bytes, d)
  }

  ghost predicate Explained(w: World, roots: seq<File>, made: seq<Made>, d: Diagnostic) {
    exists container :: Known(container, roots, made) && Explains(w, container, d)
  }

  ghost predicate AllExplained(w: World, roots: seq<File>, r: Result) {
    forall d :: d in r.warnings ==> Explained(w, roots, r.made, d)
  }

  lemma ExplainedWiden(w: World, roots: seq<File>, made: seq<Made>, roots': seq<File>, made': seq<Made>, d: Diagnostic)
    requires Explained(w, roots, made, d) && forall c :: Known(c, roots, made) ==> Known(c, roots', made')
    ensures Explained(w, roots', made', d)
  {
    hide Explains, Known;
  }

  lemma ExplainedThen(w: World, roots: seq<File>, a: Result, parents: seq<File>, b: Result)
    requires AllExplained(w, roots, a) && AllExplained(w, parents, b) && forall p :: p in parents ==> Known(p, roots, a.made)
    ensures AllExplained(w, roots, Then(a, b))
  {
    hide Explained, Known;
    var all := a.made + b.made;
    forall c | Known(c, roots, a.made) ensures Known(c, roots, all) {
      KnownLater(c, roots, a.made, b.made);
    }
    forall c | Known(c, parents, b.made) ensures Known(c, roots, all) {
      KnownShifted(c, parents, roots, a.made, b.made);
    }
    forall d | d in a.warnings + b.warnings ensures Explained(w, roots, all, d) {
      if d in a.warnings {
        ExplainedWiden(w, roots, a.made, roots, all, d);
      } else {
        ExplainedWiden(w, parents, b.made, roots, all, d);
      }
    }
  }

  lemma OneExplained(w: World, container: File, made: seq<Made>, d: Diagnostic, p: Purse)
    requires Explains(w, container, d)
    ensures AllExplained(w, [container], Result(made, [d], p))
  {
    hide Explains;
    assert Known(container, [container], made);
  }

  lemma NoneExplained(w: World, roots: seq<File>, made: seq<Made>, p: Purse)
    ensures AllExplained(w, roots, Result(made, [], p))
  {
  }

  lemma WarnedExplains(w: World, container: File, e: Entry, seen: set<string>, bytes: int)
    requires w.zip(container.data).Some? && e in w.zip(container.data).value
    ensures var fate := FateOf(w, container, e, seen, bytes); fate.Warned? ==> Explains(w, container, fate.warning)
  {
    hide FateOf, FirstBroken, Blamed;
    RulesDecide(w, container, e, seen, bytes);
    var fate := FateOf(w, container, e, seen, bytes);
    if fate.Warned? {
      ReportedReasons(w, container, e, seen, bytes, fate.warning);
    }
  }

  lemma ReportedReasons(w: World, container: File, e: Entry, seen: set<string>, bytes: int, d: Diagnostic)
    requires IsReported(w, container, e, seen, bytes, d)
    ensures d.reason !in {BudgetGone, TooDeep, TooManyMembers}
  {
    hide Breaks, Blamed;
  }

  lemma {:induction false} EntryExplained(w: World, container: File, e: Entry, seen: set<string>, p: Purse)
    requires w.zip(container.data).Some? && e in w.zip(container.data).value && container.depth < MAX_CONTAINER_DEPTH
    ensures AllExplained(w, [container], EntryRun(w, container, e, seen, p))
    decreases MAX_CONTAINER_DEPTH - container.depth, 0, 0
  {
    hide FateOf, LooksLikeZip, AllExplained, Explains, ContainerRun, Exhausted;
    var fate := FateOf(w, container, e, seen, p.bytes);
    var q := Spent(p, fate);
    match fate
    case PassedOver =>
      NoneExplained(w, [container], [], q);
    case Warned(d) =>
      WarnedExplains(w, container, e, seen, p.bytes);
      OneExplained(w, container, [], d, q);
    case Kept(m) =>
      NoneExplained(w, [container], [m], q);
      NoneExplained(w, [container], [m], Checked(q));
      NestedComplete.FateIsMember(w, container, e, seen, p.bytes);
      if LooksLikeZip(m.raw) && container.depth + 1 < MAX_CONTAINER_DEPTH && !Exhausted(w, q) {
        ContainerExplained(w, m.file, Checked(q));
        assert Known(m.file, [container], [m]) by { assert [m][0].file == m.file; }
        ExplainedThen(w, [container], Result([m], [], q), [m.file], ContainerRun(w, m.file, Checked(q)));
      }
  }

  lemma {:induction false} EntriesExplained(w: World, container: File, entries: seq<Entry>, i: nat, p: Purse)
    requires w.zip(container.data) == Some(entries) && container.depth < MAX_CONTAINER_DEPTH && i <= |entries|
    ensures AllExplained(w, [container], EntriesRun(w, container, entries, i, p))
    decreases MAX_CONTAINER_DEPTH - container.depth, 1, |entries| - i
  {
    hide EntryRun, AllExplained, SeenIn, Exhausted;
    NoneExplained(w, [container], [], p);
    OneExplained(w, container, [], Diagnostic(container.path, BudgetGone), Checked(p));
    if i < |entries| && !Exhausted(w, p) {
      var first := EntryRun(w, container, entries[i], SeenIn(w, container, entries[..i]), Checked(p));
      EntryExplained(w, container, entries[i], SeenIn(w, container, entries[..i]), Checked(p));
      EntriesExplained(w, container, entries, i + 1, first.purse);
      assert Known(container, [container], first.made);
      ExplainedThen(w, [container], first, [container], EntriesRun(w, container, entries, i + 1, first.purse));
    }
  }

  lemma {:induction false} ContainerExplained(w: World, container: File, p: Purse)
    ensures AllExplained(w, [container], ContainerRun(w, container, p))
    decreases MAX_CONTAINER_DEPTH - container.depth, 2, 0
  {
    hide AllExplained, EntriesRun;
    var entries := w.zip(container.data);
    NoneExplained(w, [container], [], p);
    if container.depth + 1 > MAX_CONTAINER_DEPTH {
      OneExplained(w, container, [], Diagnostic(container.path, TooDeep), p);
    } else if entries.Some? && |entries.value| > p.members {
      OneExplained(w, container, [], Diagnostic(container.path, TooManyMembers), p);
    } else if entries.Some? {
      EntriesExplained(w, container, entries.value, 0, p);
    }
  }

  lemma {:induction false} RootsExplained(w: World, files: seq<File>, i: nat, p: Purse)
    requires i <= |files|
    ensures AllExplained(w, files, RootsRun(w, files, i, p))
    decreases |files| - i
  {
    hide AllExplained, ContainerRun, LooksLikeZip, Exhausted, Explains;
    NoneExplained(w, files, [], p);
    if i < |files| {
      RootsKnown(files, []);
      if !LooksLikeZip(files[i].data) {
        RootsExplained(w, files, i + 1, p);
      } else {
        var first := if Exhausted(w, p) then Result([], [Diagnostic(files[i].path, BudgetGone)], Checked(p))
                     else ContainerRun(w, files[i], Checked(p));
        if Exhausted(w, p) {
          assert Explains(w, files[i], first.warnings[0]) by { GoneExplains(w, files[i]); }
          OneExplained(w, files[i], [], first.warnings[0], Checked(p));
        } else {
          ContainerExplained(w, files[i], Checked(p));
        }
        ExplainedThen(w, files, Result([], [], p), [files[i]], first);
        NothingFirst(p, first);
        RootsKnown(files, first.made);
        RootsExplained(w, files, i + 1, first.purse);
        ExplainedThen(w, files, first, files, RootsRun(w, files, i + 1, first.purse));
      }
    }
  }

  lemma GoneExplains(w: World, container: File)
    ensures Explains(w, container, Diagnostic(container.path, BudgetGone))
  {
  }

  /** Every warning of a run is about a root or a file made: its budget, its depth, its number of members, or the first
      rule that one of its entries breaks. */
  lemma EveryWarningMeaning(w: World, files: seq<File>)
    ensures var r := Run(w, files);
            forall d :: d in r.warnings ==> exists container :: Known(container, files, r.made) && Explains(w, container, d)
  {
    hide RootsRun, Known, Explains;
    RootsExplained(w, files, 0, FULL);
    var r := Run(w, files);
    forall d | d in r.warnings ensures exists container :: Known(container, files, r.made) && Explains(w, container, d) {
      assert Explained(w, files, r.made, d);
    }
  }

  /** A container is opened exactly if it lies above the depth limit, can be read and has no more entries than members are
      left; otherwise nothing comes out of it, and only the unreadable one is not warned about. */
  lemma OpeningMeaning(w: World, container: File, p: Purse)
    ensures var r, entries := ContainerRun(w, container, p), w.zip(container.data);
            if container.depth >= 3 then r == Result([], [Diagnostic(container.path, TooDeep)], p)
            else if entries.None? then r == Result([], [], p)
            else if |entries.value| > p.members then r == Result([], [Diagnostic(container.path, TooManyMembers)], p)
            else r == EntriesRun(w, container, entries.value, 0, p)
  {
    hide EntriesRun;
  }

  // ----- When the budget is gone -----

  predicate NothingLeft(p: Purse) {
    p.members <= 0 || p.bytes <= 0
  }

  /** With no member or no byte left, nothing more is made, and every further container is warned about. */
  lemma {:induction false} RootsAfterwards(w: World, files: seq<File>, i: nat, p: Purse)
    requires i <= |files| && NothingLeft(p)
    ensures var r := RootsRun(w, files, i, p);
            r.made == [] && r.purse.members == p.members && r.purse.bytes == p.bytes
            && (forall d :: d in r.warnings ==> d.reason == BudgetGone)
            && forall j :: i <= j < |files| && LooksLikeZip(files[j].data) ==> Diagnostic(files[j].path, BudgetGone) in r.warnings
    decreases |files| - i
  {
    if i < |files| {
      RootsAfterwards(w, files, i + 1, Checked(p));
      RootsAfterwards(w, files, i + 1, p);
      var d := Diagnostic(files[i].path, BudgetGone);
      assert ([d] + RootsRun(w, files, i + 1, Checked(p)).warnings)[0] == d;
    }
  }

  /** A member that does not fit the byte budget ends it: nothing more is made from its container, and the remaining members
      are warned about together. */
  lemma OverBudgetEnds(w: World, container: File, entries: seq<Entry>, i: nat, p: Purse, d: Diagnostic)
    requires container.depth < MAX_CONTAINER_DEPTH && i < |entries| && !Exhausted(w, p)
    requires FateOf(w, container, entries[i], SeenIn(w, container, entries[..i]), p.bytes) == Warned(d) && d.reason == OverByteBudget
    ensures var r := EntriesRun(w, container, entries, i, p);
            r.made == [] && r.purse.members == p.members && r.purse.bytes == 0
            && r.warnings == [d] + if i + 1 == |entries| then [] else [Diagnostic(container.path, BudgetGone)]
  {
    hide FateOf, SeenIn;
    var q := Checked(p).(bytes := 0);
    assert EntryRun(w, container, entries[i], SeenIn(w, container, entries[..i]), Checked(p)) == Result([], [d], q);
    assert EntriesRun(w, container, entries, i + 1, q)
        == if i + 1 == |entries| then Result([], [], q) else Result([], [Diagnostic(container.path, BudgetGone)], Checked(q));
  }
}
