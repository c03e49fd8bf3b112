/** The expander as the program runs it: a budget shared by reference and decremented across the recursion, loops that
    append to the files and warnings. */
module NestedExpander {
  import opened Bytes
  import opened Encoding
  import opened Nested

  class ContainerBudget {
    var membersRemaining: int
    var expandedBytesRemaining: int
    var checks: nat

    constructor ()
      ensures Amount() == FULL
    {
      membersRemaining, expandedBytesRemaining, checks := MAX_CONTAINER_MEMBERS, MAX_CONTAINER_EXPANDED_BYTES, 0;
    }

    function Amount(): Purse
      reads this
    {
      Purse(membersRemaining, expandedBytesRemaining, checks)
    }

    method IsExhausted(w: World) returns (gone: bool)
      modifies this`checks
      ensures gone == Exhausted(w, old(Amount())) && Amount() == Checked(old(Amount()))
    {
      gone := membersRemaining <= 0 || expandedBytesRemaining <= 0 || w.clock(checks);
      checks := checks + 1;
    }
  }

  /** Reads a member up to a limit and gives nothing rather than a truncated piece. */
  method BoundedRead(chunks: seq<seq<byte>>, limit: nat) returns (data: Option<seq<byte>>)
    ensures data == if |Content(chunks)| <= limit then Some(Content(chunks)) else None
  {
    var buf: seq<byte> := [];
    var total := 0;
    for i := 0 to |chunks|
      invariant buf == Content(chunks[..i]) && total == |buf| <= limit
    {
      assert chunks[..i + 1][..i] == chunks[..i];
      assert Content(chunks[..i + 1]) == buf + chunks[i];
      total := total + |chunks[i]|;
      if total > limit {
        ContentGrows(chunks, i + 1);
        return None;
      }
      buf := buf + chunks[i];
    }
    assert chunks[..|chunks|] == chunks;
    return Some(buf);
  }

  lemma {:induction false} ContentGrows(chunks: seq<seq<byte>>, i: nat)
    requires i <= |chunks|
    ensures |Content(chunks[..i])| <= |Content(chunks)|
    decreases |chunks| - i
  {
    if i == |chunks| {
      assert chunks[..i] == chunks;
    } else {
      ContentGrows(chunks, i + 1);
      assert chunks[..i + 1][..i] == chunks[..i];
    }
  }

  /** One entry of a container, without what may be inside it. */
  method Materialize(w: World, container: File, e: Entry, seen: set<string>, budget: ContainerBudget)
    returns (fate: Fate, seen': set<string>)
    modifies budget
    ensures fate == FateOf(w, container, e, seen, old(budget.expandedBytesRemaining))
    ensures budget.Amount() == Spent(old(budget.Amount()), fate)
    ensures seen' == if Named(w, e) then seen + {LoweredPath(w, container, e)} else seen
  {
    hide Content, Canonicalized;
    seen' := seen;
    if e.directory {
      return PassedOver, seen;
    }
    if e.symlink {
      return Warned(Diagnostic(container.path, Symlink)), seen;
    }
    var name := w.safePath(e.name);
    if name.None? {
      return Warned(Diagnostic(container.path, UnsafePath)), seen;
    }
    var provenancePath := MemberPath(container, name.value);
    seen' := seen + {w.lower(provenancePath)};
    if w.lower(provenancePath) in seen {
      return Warned(Diagnostic(container.path, Duplicate)), seen';
    }
    if e.uncompressed > MAX_CONTAINER_MEMBER_BYTES {
      return Warned(Diagnostic(provenancePath, DeclaredTooLarge)), seen';
    }
    if e.compressed > 0 && e.uncompressed / e.compressed > MAX_CONTAINER_COMPRESSION_RATIO {
      return Warned(Diagnostic(provenancePath, RatioTooHigh)), seen';
    }
    if !e.opens {
      return Warned(Diagnostic(provenancePath, CannotOpen)), seen';
    }
    var limited := BoundedRead(e.chunks, MAX_CONTAINER_MEMBER_BYTES);
    if limited.None? {
      return Warned(Diagnostic(provenancePath, ReadTooLarge)), seen';
    }
    if |limited.value| > budget.expandedBytesRemaining {
      budget.expandedBytesRemaining := 0;
      return Warned(Diagnostic(provenancePath, OverByteBudget)), seen';
    }
    budget.expandedBytesRemaining := budget.expandedBytesRemaining - |limited.value|;
    budget.membersRemaining := budget.membersRemaining - 1;
    var canonical := CanonicalizeText(limited.value);
    var file := File(provenancePath, canonical.bytes, w.sha256(limited.value), e.executable, canonical.encoding,
                     container.depth + 1, container.sha256);
    fate := Kept(Made(file, limited.value));
  }

  method ExpandEntry(w: World, container: File, e: Entry, seen: set<string>, budget: ContainerBudget)
    returns (out: seq<Made>, diagnostics: seq<Diagnostic>, seen': set<string>)
    requires container.depth < MAX_CONTAINER_DEPTH
    modifies budget
    ensures Result(out, diagnostics, budget.Amount()) == EntryRun(w, container, e, seen, old(budget.Amount()))
    ensures seen' == if Named(w, e) then seen + {LoweredPath(w, container, e)} else seen
    decreases MAX_CONTAINER_DEPTH - container.depth, 0
  {
    hide FateOf, LooksLikeZip, ContainerRun, LoweredPath, Named;
    var fate;
    fate, seen' := Materialize(w, container, e, seen, budget);
    ghost var q := budget.Amount();
    KeptDeeper(w, container, e, seen, old(budget.expandedBytesRemaining));
    match fate {
      case PassedOver =>
        out, diagnostics := [], [];
      case Warned(d) =>
        out, diagnostics := [], [d];
      case Kept(m) =>
        out, diagnostics := [m], [];
        if LooksLikeZip(m.raw) && container.depth + 1 < MAX_CONTAINER_DEPTH {
          var gone := budget.IsExhausted(w);
          if !gone {
            var deeper, deeperDiagnostics := VirtualizeContainer(w, m.file, budget);
            out, diagnostics := out + deeper, diagnostics + deeperDiagnostics;
          }
        }
    }
  }

  lemma KeptDeeper(w: World, container: File, e: Entry, seen: set<string>, bytes: int)
    ensures var fate := FateOf(w, container, e, seen, bytes); fate.Kept? ==> fate.made.file.depth == container.depth + 1
  {
    hide Content, Canonicalized;
  }

  method VirtualizeContainer(w: World, container: File, budget: ContainerBudget)
    returns (out: seq<Made>, diagnostics: seq<Diagnostic>)
    modifies budget
    ensures Result(out, diagnostics, budget.Amount()) == ContainerRun(w, container, old(budget.Amount()))
    decreases MAX_CONTAINER_DEPTH - container.depth, 1
  {
    hide EntryRun, Named, LoweredPath;
    out, diagnostics := [], [];
    var depth := container.depth + 1;
    if depth > MAX_CONTAINER_DEPTH {
      diagnostics := [Diagnostic(container.path, TooDeep)];
      return;
    }
    var reader := w.zip(container.data);
    if reader.None? {
      return;
    }
    var entries := reader.value;
    if |entries| > budget.membersRemaining {
      diagnostics := [Diagnostic(container.path, TooManyMembers)];
      return;
    }
    var seen: set<string> := {};
    ghost var p := budget.Amount();
    NothingFirst(p, EntriesRun(w, container, entries, 0, p));
    for i := 0 to |entries|
      invariant seen == SeenIn(w, container, entries[..i])
      invariant (Then(Result(out, diagnostics, budget.Amount()), EntriesRun(w, container, entries, i, budget.Amount()))
              == EntriesRun(w, container, entries, 0, p))
    {
      ghost var before := Result(out, diagnostics, budget.Amount());
      var gone := budget.IsExhausted(w);
      if gone {
        diagnostics := diagnostics + [Diagnostic(container.path, BudgetGone)];
        assert out + [] == out;
        return;
      }
      var more, moreDiagnostics;
      more, moreDiagnostics, seen := ExpandEntry(w, container, entries[i], seen, budget);
      out, diagnostics := out + more, diagnostics + moreDiagnostics;
      SeenNext(w, container, entries, i);
      ghost var now := budget.Amount();
      ThenAssociates(before, Result(more, moreDiagnostics, now), EntriesRun(w, container, entries, i + 1, now));
    }
    NothingMore(Result(out, diagnostics, budget.Amount()));
  }

  lemma SeenNext(w: World, container: File, entries: seq<Entry>, i: nat)
    requires i < |entries|
    ensures (SeenIn(w, container, entries[..i + 1])
          == SeenIn(w, container, entries[..i]) + if Named(w, entries[i]) then {LoweredPath(w, container, entries[i])} else {})
  {
    hide Named, LoweredPath;
    assert entries[..i + 1] == entries[..i] + [entries[i]];
  }

  /** Every file is a root container's or a nested one's member; nothing happens to the roots themselves. */
  method VirtualizeNestedContainers(w: World, files: seq<File>)
    returns (virtual: seq<Made>, diagnostics: seq<Diagnostic>, left: Purse)
    ensures Result(virtual, diagnostics, left) == Run(w, files)
  {
    hide ContainerRun, LooksLikeZip;
    var budget := new ContainerBudget();
    virtual, diagnostics := [], [];
    NothingFirst(FULL, RootsRun(w, files, 0, FULL));
    for i := 0 to |files|
      invariant (Then(Result(virtual, diagnostics, budget.Amount()), RootsRun(w, files, i, budget.Amount()))
              == RootsRun(w, files, 0, FULL))
    {
      if LooksLikeZip(files[i].data) {
        ghost var before := Result(virtual, diagnostics, budget.Amount());
        var gone := budget.IsExhausted(w);
        ghost var step;
        if gone {
          diagnostics := diagnostics + [Diagnostic(files[i].path, BudgetGone)];
          step := Result([], [Diagnostic(files[i].path, BudgetGone)], budget.Amount());
          assert virtual + [] == virtual;
        } else {
          var nested, diags := VirtualizeContainer(w, files[i], budget);
          virtual, diagnostics := virtual + nested, diagnostics + diags;
          step := Result(nested, diags, budget.Amount());
        }
        ThenAssociates(before, step, RootsRun(w, files, i + 1, budget.Amount()));
      }
    }
    NothingMore(Result(virtual, diagnostics, budget.Amount()));
    left := budget.Amount();
  }
}
