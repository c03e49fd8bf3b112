/** Expansion of ZIP-compatible containers found inside an artifact: a recursion over archive trees drawing on one
    shared budget.  The archive reader, the digest, the path rules, case folding and the clock are arbitrary functions;
    what a run computes is given here as a function of them. */
module Nested {
  import opened Bytes
  import opened Encoding

  const MAX_CONTAINER_DEPTH: int := 3
  const MAX_CONTAINER_MEMBERS: int := 1_000
  const MAX_CONTAINER_EXPANDED_BYTES: int := 26_214_400
  const MAX_CONTAINER_MEMBER_BYTES: int := 1_048_576
  const MAX_CONTAINER_COMPRESSION_RATIO: int := 100

  datatype Option<+T> = None | Some(value: T)

  /** A central-directory entry.  The chunks are what reading the member delivers; `opens` is false when it cannot be
      opened. */
  datatype Entry = Entry(name: string, directory: bool, symlink: bool, executable: bool, uncompressed: nat, compressed: nat,
                         opens: bool, chunks: seq<seq<byte>>)

  datatype File = File(path: string, data: seq<byte>, sha256: string, executable: bool, encoding: Label, depth: int,
                       parentSha256: string)

  /** `clock(k)` tells whether the deadline has passed at the k-th check. */
  datatype World = World(zip: seq<byte> -> Option<seq<Entry>>, sha256: seq<byte> -> string,
                         safePath: string -> Option<string>, lower: string -> string, clock: nat -> bool)

  datatype Reason =
    | BudgetGone | TooDeep | TooManyMembers | Symlink | UnsafePath | Duplicate | DeclaredTooLarge | RatioTooHigh
    | CannotOpen | ReadTooLarge | OverByteBudget

  datatype Diagnostic = Diagnostic(path: string, reason: Reason)

  /** A file produced, and the bytes it was stored as. */
  datatype Made = Made(file: File, raw: seq<byte>)

  function Content(chunks: seq<seq<byte>>): seq<byte> {
    if chunks == [] then [] else Content(chunks[..|chunks| - 1]) + chunks[|chunks| - 1]
  }

  predicate LooksLikeZip(data: seq<byte>) {
    |data| >= 4 && data[..4] == [0x50, 0x4B, 0x03, 0x04]
  }

  // ----- Members -----

  function MemberPath(container: File, name: string): string {
    container.path + "!/" + name
  }

  /** The entry names a regular member with an acceptable path. */
  predicate Named(w: World, e: Entry) {
    !e.directory && !e.symlink && w.safePath(e.name).Some?
  }

  predicate SizesAcceptable(e: Entry) {
    e.uncompressed <= MAX_CONTAINER_MEMBER_BYTES
    && (e.compressed > 0 ==> e.uncompressed / e.compressed <= MAX_CONTAINER_COMPRESSION_RATIO)
    && e.opens && |Content(e.chunks)| <= MAX_CONTAINER_MEMBER_BYTES
  }

  function LoweredPath(w: World, container: File, e: Entry): string
    requires Named(w, e)
  {
    w.lower(MemberPath(container, w.safePath(e.name).value))
  }

  /** What an entry becomes. */
  function Member(w: World, container: File, e: Entry): Made
    requires Named(w, e)
  {
    var raw := Content(e.chunks);
    var canonical := Canonicalized(raw);
    Made(File(MemberPath(container, w.safePath(e.name).value), canonical.bytes, w.sha256(raw), e.executable, canonical.encoding,
              container.depth + 1, container.sha256), raw)
  }

  /** The lowered paths of these entries. */
  function SeenIn(w: World, container: File, entries: seq<Entry>): set<string> {
    set e | e in entries && Named(w, e) :: LoweredPath(w, container, e)
  }

  /** What happens to one entry when these paths were seen and this many bytes are left. */
  datatype Fate = PassedOver | Warned(warning: Diagnostic) | Kept(made: Made)

  function FateOf(w: World, container: File, e: Entry, seen: set<string>, bytes: int): Fate {
    if e.directory then PassedOver
    else if e.symlink then Warned(Diagnostic(container.path, Symlink))
    else if w.safePath(e.name).None? then Warned(Diagnostic(container.path, UnsafePath))
    else
      var path := MemberPath(container, w.safePath(e.name).value);
      if w.lower(path) in seen then Warned(Diagnostic(container.path, Duplicate))
      else if e.uncompressed > MAX_CONTAINER_MEMBER_BYTES then Warned(Diagnostic(path, DeclaredTooLarge))
      else if e.compressed > 0 && e.uncompressed / e.compressed > MAX_CONTAINER_COMPRESSION_RATIO
      then Warned(Diagnostic(path, RatioTooHigh))
      else if !e.opens then Warned(Diagnostic(path, CannotOpen))
      else if |Content(e.chunks)| > MAX_CONTAINER_MEMBER_BYTES then Warned(Diagnostic(path, ReadTooLarge))
      else if |Content(e.chunks)| > bytes then Warned(Diagnostic(path, OverByteBudget))
      else Kept(Member(w, container, e))
  }

  /** An entry becomes a file exactly if it is a regular, safely named, new, acceptable member that fits the byte budget;
      only a directory is passed over without a warning. */
  lemma FateMeaning(w: World, container: File, e: Entry, seen: set<string>, bytes: int)
    ensures var fate := FateOf(w, container, e, seen, bytes);
            (fate.Kept? <==> Named(w, e) && SizesAcceptable(e) && |Content(e.chunks)| <= bytes
                             && LoweredPath(w, container, e) !in seen)
            && (fate.PassedOver? <==> e.directory) && (fate.Kept? ==> fate.made == Member(w, container, e))
  {
    hide Content, Canonicalized;
  }

  // ----- The budget -----

  /** What is left, and how often it was checked. */
  datatype Purse = Purse(members: int, bytes: int, checks: nat)

  const FULL: Purse := Purse(MAX_CONTAINER_MEMBERS, MAX_CONTAINER_EXPANDED_BYTES, 0)

  predicate Exhausted(w: World, p: Purse) {
    p.members <= 0 || p.bytes <= 0 || w.clock(p.checks)
  }

  function Checked(p: Purse): Purse {
    p.(checks := p.checks + 1)
  }

  function Spent(p: Purse, fate: Fate): Purse {
    match fate
    case PassedOver => p
    case Warned(d) => if d.reason == OverByteBudget then p.(bytes := 0) else p
    case Kept(m) => p.(members := p.members - 1, bytes := p.bytes - |m.raw|)
  }

  // ----- A run -----

  datatype Result = Result(made: seq<Made>, warnings: seq<Diagnostic>, purse: Purse)

  /** One result, and then another that started from its purse. */
  function Then(a: Result, b: Result): Result {
    Result(a.made + b.made, a.warnings + b.warnings, b.purse)
  }

  /** One entry and, when it is itself a container within the depth limit and something is left, everything inside it. */
  function EntryRun(w: World, container: File, e: Entry, seen: set<string>, p: Purse): Result
    requires container.depth < MAX_CONTAINER_DEPTH
    decreases MAX_CONTAINER_DEPTH - container.depth, 0, 0
  {
    var fate := FateOf(w, container, e, seen, p.bytes);
    var q := Spent(p, fate);
    match fate
    case PassedOver => Result([], [], q)
    case Warned(d) => Result([], [d], q)
    case Kept(m) =>
      if !(LooksLikeZip(m.raw) && container.depth + 1 < MAX_CONTAINER_DEPTH) then Result([m], [], q)
      else if Exhausted(w, q) then Result([m], [], Checked(q))
      else Then(Result([m], [], q), ContainerRun(w, m.file, Checked(q)))
  }

  /** The entries from the `i`-th on. */
  function EntriesRun(w: World, container: File, entries: seq<Entry>, i: nat, p: Purse): Result
    requires container.depth < MAX_CONTAINER_DEPTH && i <= |entries|
    decreases MAX_CONTAINER_DEPTH - container.depth, 1, |entries| - i
  {
    if i == |entries| then Result([], [], p)
    else if Exhausted(w, p) then Result([], [Diagnostic(container.path, BudgetGone)], Checked(p))
    else
      var first := EntryRun(w, container, entries[i], SeenIn(w, container, entries[..i]), Checked(p));
      Then(first, EntriesRun(w, container, entries, i + 1, first.purse))
  }

  function ContainerRun(w: World, container: File, p: Purse): Result
    decreases MAX_CONTAINER_DEPTH - container.depth, 2, 0
  {
    var entries := w.zip(container.data);
    if container.depth + 1 > MAX_CONTAINER_DEPTH then Result([], [Diagnostic(container.path, TooDeep)], p)
    else if entries.None? then Result([], [], p)
    else if |entries.value| > p.members then Result([], [Diagnostic(container.path, TooManyMembers)], p)
    else EntriesRun(w, container, entries.value, 0, p)
  }

  /** The roots from the `i`-th on. */
  function RootsRun(w: World, files: seq<File>, i: nat, p: Purse): Result
    requires i <= |files|
    decreases |files| - i
  {
    if i == |files| then Result([], [], p)
    else if !LooksLikeZip(files[i].data) then RootsRun(w, files, i + 1, p)
    else if Exhausted(w, p) then
      Then(Result([], [Diagnostic(files[i].path, BudgetGone)], Checked(p)), RootsRun(w, files, i + 1, Checked(p)))
    else
      var first := ContainerRun(w, files[i], Checked(p));
      Then(first, RootsRun(w, files, i + 1, first.purse))
  }

  /** A whole run. */
  function Run(w: World, files: seq<File>): Result {
    RootsRun(w, files, 0, FULL)
  }

  lemma ThenAssociates(a: Result, b: Result, c: Result)
    ensures Then(Then(a, b), c) == Then(a, Then(b, c))
  {
    assert a.made + b.made + c.made == a.made + (b.made + c.made);
    assert a.warnings + b.warnings + c.warnings == a.warnings + (b.warnings + c.warnings);
  }

  lemma NothingFirst(p: Purse, r: Result)
    ensures Then(Result([], [], p), r) == r
  {
    assert [] + r.made == r.made && [] + r.warnings == r.warnings;
  }

  lemma NothingMore(r: Result)
    ensures Then(r, Result([], [], r.purse)) == r
  {
    assert r.made + [] == r.made && r.warnings + [] == r.warnings;
  }
}
