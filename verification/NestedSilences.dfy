/** Two inputs on which the expander leaves something out without a warning. */
module NestedSilences {
  import opened Bytes
  import opened Encoding
  import opened Nested
  import opened NestedComplete

  /** A file that looks like a ZIP and is plain ASCII. */
  const ZIP: seq<byte> := [0x50, 0x4B, 0x03, 0x04]

  lemma ZipIsText()
    ensures Canonicalized(ZIP) == Canonical(ZIP, Utf8Label) && LooksLikeZip(ZIP)
  {
    hide Decoding, Guess;
    var text: seq<int> := [0x50, 0x4B, 0x03, 0x04];
    AsciiIsText(text);
    AsciiUtf8(text);
    Unicode.EncodedIsValid(text);
    assert ZIP == text;
    assert ZIP[..4] == ZIP;
  }

  lemma OneChunk(data: seq<byte>)
    ensures Content([data]) == data
  {
    assert [data][..0] == [];
    assert [] + data == data;
  }

  function Plain(name: string): Entry {
    Entry(name, false, false, false, 0, 0, true, [])
  }

  function Zipped(name: string): Entry {
    Entry(name, false, false, false, 4, 4, true, [ZIP])
  }

  /** A world with this reader and nothing else of interest: every path is safe and the clock stands still. */
  function Quiet(zip: seq<byte> -> Option<seq<Entry>>): World {
    World(zip, d => "digest", n => Some(n), s => s, k => false)
  }

  lemma QuietIsForwards(zip: seq<byte> -> Option<seq<Entry>>)
    ensures Forwards(Quiet(zip))
  {
  }

  lemma ZippedIsKept(w: World, container: File, name: string, seen: set<string>, bytes: int)
    requires w == Quiet(w.zip) && bytes >= 4 && MemberPath(container, name) !in seen
    ensures var fate := FateOf(w, container, Zipped(name), seen, bytes);
            fate.Kept? && fate.made.raw == ZIP && fate.made.file.data == ZIP && fate.made.file.depth == container.depth + 1
  {
    hide Canonicalized, LooksLikeZip;
    OneChunk(ZIP);
    ZipIsText();
  }

  // ----- At the depth limit -----

  /** An archive that holds itself. */
  function ItselfOnly(data: seq<byte>): Option<seq<Entry>> {
    if data == ZIP then Some([Zipped("again")]) else None
  }

  const SELF: World := Quiet(ItselfOnly)

  /** A container with a single entry is that entry's run. */
  lemma SingleEntryRun(w: World, file: File, e: Entry, p: Purse)
    requires file.depth < MAX_CONTAINER_DEPTH && w.zip(file.data) == Some([e]) && p.members >= 1 && !Exhausted(w, p)
    ensures ContainerRun(w, file, p) == EntryRun(w, file, e, {}, Checked(p))
  {
    hide EntryRun, Exhausted;
    var entries := [e];
    assert entries[..0] == [] && SeenIn(w, file, []) == {};
    var first := EntryRun(w, file, e, {}, Checked(p));
    assert EntriesRun(w, file, entries, 1, first.purse) == Result([], [], first.purse);
    NothingMore(first);
  }

  lemma {:induction false} SelfRun(file: File, p: Purse)
    requires file.data == ZIP && file.depth < MAX_CONTAINER_DEPTH
    requires p.members > MAX_CONTAINER_DEPTH - file.depth && p.bytes > 4 * (MAX_CONTAINER_DEPTH - file.depth)
    ensures var r := ContainerRun(SELF, file, p);
            r.warnings == [] && |r.made| == MAX_CONTAINER_DEPTH - file.depth && r.purse.members > 0 && r.purse.bytes > 0
            && var last := r.made[|r.made| - 1]; last.raw == ZIP && last.file.data == ZIP && last.file.depth == MAX_CONTAINER_DEPTH
    decreases MAX_CONTAINER_DEPTH - file.depth
  {
    hide FateOf, LooksLikeZip, ContainerRun;
    var e := Zipped("again");
    SelfReads(file);
    SingleEntryRun(SELF, file, e, p);
    ZippedIsKept(SELF, file, "again", {}, p.bytes);
    ZipIsText();
    var m := FateOf(SELF, file, e, {}, p.bytes).made;
    var q := Spent(Checked(p), Kept(m));
    assert !Exhausted(SELF, q);
    if m.file.depth < MAX_CONTAINER_DEPTH {
      SelfRun(m.file, Checked(q));
    }
  }

  lemma SelfReads(file: File)
    requires file.data == ZIP
    ensures SELF.zip(file.data) == Some([Zipped("again")]) && SELF == Quiet(SELF.zip) && forall k :: !SELF.clock(k)
  {
  }

  /** The archive that holds itself is opened three times.  The container found at depth 3 has a member like the others,
      which is left out, and nothing says so. */
  lemma SilentAtDepthLimit(path: string)
    ensures var root := File(path, ZIP, "digest", false, Utf8Label, 0, "");
            var r := Run(SELF, [root]);
            r.warnings == [] && |r.made| == 3 && r.made[2].file.depth == MAX_CONTAINER_DEPTH && Expandable(SELF, r.made[2])
            && !CutOffAtEnd(SELF, r) && !MadeEverything(SELF, [root], r)
  {
    hide ContainerRun, LooksLikeZip;
    var root := File(path, ZIP, "digest", false, Utf8Label, 0, "");
    ZipIsText();
    SelfRun(root, Checked(FULL));
    QuietIsForwards(ItselfOnly);
    var r := Run(SELF, [root]);
    var first := ContainerRun(SELF, root, Checked(FULL));
    assert RootsRun(SELF, [root], 1, first.purse) == Result([], [], first.purse);
    NothingMore(first);
    assert r == first;
    assert Named(SELF, Zipped("again")) && Zipped("again") in SELF.zip(ZIP).value;
    assert HasMembers(SELF, r.made[2].file);
    CompleteExactly(SELF, [root]);
    assert !FlatAt(SELF, MAX_CONTAINER_DEPTH, r.made);
  }

  // ----- At the end of the budget -----

  const OUTER: seq<byte> := ZIP + [0x01]

  function Name(i: nat): string { seq(i, _ => 'x') }

  /** `n` members with different names, empty but for the last, which is an archive of one empty file. */
  function Entries(n: nat): seq<Entry> {
    seq(n, i requires 0 <= i < n => if i + 1 < n then Plain(Name(i)) else Zipped(Name(i)))
  }

  function FullArchive(data: seq<byte>): Option<seq<Entry>> {
    if data == OUTER then Some(Entries(MAX_CONTAINER_MEMBERS)) else if data == ZIP then Some([Plain("inside")]) else None
  }

  const FULL_WORLD: World := Quiet(FullArchive)

  lemma NamesDiffer(container: File, n: nat, i: nat)
    requires i < n
    ensures MemberPath(container, Name(i)) !in SeenIn(FULL_WORLD, container, Entries(n)[..i])
  {
    var before := Entries(n)[..i];
    forall e | e in before && Named(FULL_WORLD, e)
      ensures LoweredPath(FULL_WORLD, container, e) != MemberPath(container, Name(i))
    {
      var j :| 0 <= j < |before| && before[j] == e;
      assert e.name == Name(j) && |Name(j)| == j && |Name(i)| == i;
      assert |MemberPath(container, Name(j))| == |container.path| + 2 + j;
      assert |MemberPath(container, Name(i))| == |container.path| + 2 + i;
    }
  }

  lemma PlainIsKept(container: File, name: string, seen: set<string>, bytes: int)
    requires bytes >= 0 && MemberPath(container, name) !in seen
    ensures var fate := FateOf(FULL_WORLD, container, Plain(name), seen, bytes);
            fate.Kept? && fate.made.raw == [] && !LooksLikeZip(fate.made.raw)
  {
    hide Canonicalized;
  }

  /** The last `n - i` entries, with members left for exactly as many. */
  lemma {:induction false} FullRun(container: File, n: nat, i: nat, p: Purse)
    requires container.depth == 0 && i < n && p.members == n - i && p.bytes > 4
    ensures var r := EntriesRun(FULL_WORLD, container, Entries(n), i, p);
            r.warnings == [] && |r.made| == n - i && r.purse.members == 0
            && var last := r.made[|r.made| - 1]; last.raw == ZIP && last.file.data == ZIP && last.file.depth == 1
    decreases n - i
  {
    hide FateOf, LooksLikeZip, SeenIn, ContainerRun;
    var entries := Entries(n);
    var seen := SeenIn(FULL_WORLD, container, entries[..i]);
    NamesDiffer(container, n, i);
    assert !Exhausted(FULL_WORLD, p);
    if i + 1 < n {
      PlainIsKept(container, Name(i), seen, p.bytes);
      var m := FateOf(FULL_WORLD, container, entries[i], seen, p.bytes).made;
      FullRun(container, n, i + 1, Spent(Checked(p), Kept(m)));
    } else {
      QuietFull();
      ZippedIsKept(FULL_WORLD, container, Name(i), seen, p.bytes);
      ZipIsText();
      var m := FateOf(FULL_WORLD, container, entries[i], seen, p.bytes).made;
      var q := Spent(Checked(p), Kept(m));
      assert Exhausted(FULL_WORLD, q);
      assert EntryRun(FULL_WORLD, container, entries[i], seen, Checked(p)) == Result([m], [], Checked(q));
      assert EntriesRun(FULL_WORLD, container, entries, n, Checked(q)) == Result([], [], Checked(q));
    }
  }

  lemma QuietFull()
    ensures FULL_WORLD == Quiet(FULL_WORLD.zip)
  {
  }

  /** Exactly as many members as the budget allows, the last of them an archive: its content is left out, and nothing
      says so. */
  lemma SilentAtBudgetEnd(path: string)
    ensures var root := File(path, OUTER, "digest", false, Utf8Label, 0, "");
            var r := Run(FULL_WORLD, [root]);
            r.warnings == [] && |r.made| == MAX_CONTAINER_MEMBERS && CutOffAtEnd(FULL_WORLD, r)
            && !MadeEverything(FULL_WORLD, [root], r)
  {
    hide EntriesRun, LooksLikeZip, Entries;
    var root := File(path, OUTER, "digest", false, Utf8Label, 0, "");
    var n := MAX_CONTAINER_MEMBERS;
    var entries := Entries(n);
    OuterReads();
    FullRun(root, n, 0, Checked(FULL));
    QuietIsForwards(FullArchive);
    var r := Run(FULL_WORLD, [root]);
    var first := ContainerRun(FULL_WORLD, root, Checked(FULL));
    assert first == EntriesRun(FULL_WORLD, root, entries, 0, Checked(FULL));
    assert RootsRun(FULL_WORLD, [root], 1, first.purse) == Result([], [], first.purse);
    NothingMore(first);
    assert r == first;
    ZipIsText();
    CompleteExactly(FULL_WORLD, [root]);
  }

  lemma OuterReads()
    ensures LooksLikeZip(OUTER) && FULL_WORLD.zip(OUTER) == Some(Entries(MAX_CONTAINER_MEMBERS))
    ensures |Entries(MAX_CONTAINER_MEMBERS)| == MAX_CONTAINER_MEMBERS
    ensures forall k :: !FULL_WORLD.clock(k)
    ensures forall file: File :: file.data == ZIP ==> HasMembers(FULL_WORLD, file)
  {
    hide Entries;
    assert OUTER[..4] == ZIP && |OUTER| == 5 && OUTER != ZIP;
    EntriesCount(MAX_CONTAINER_MEMBERS);
    assert FULL_WORLD.zip(ZIP) == Some([Plain("inside")]);
    assert Named(FULL_WORLD, Plain("inside")) && Plain("inside") in FULL_WORLD.zip(ZIP).value;
  }

  lemma EntriesCount(n: nat)
    ensures |Entries(n)| == n
  {
  }
}
