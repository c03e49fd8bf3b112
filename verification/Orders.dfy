/** The string order behind `sort.Strings` and `sort.Slice`, and the contract those library
    calls give their callers.  `sort.Slice` is not stable, so a caller may rely on the result
    being an ordered permutation of the input and on nothing else. */
module Orders {
  /** Lexicographic order on strings, character by character. */
  predicate Leq(a: string, b: string) {
    a == [] || (b != [] && (a[0] < b[0] || (a[0] == b[0] && Leq(a[1..], b[1..]))))
  }

  lemma LeqTotal(a: string, b: string)
    ensures Leq(a, b) || Leq(b, a)
  {
  }

  lemma LeqAntisymmetric(a: string, b: string)
    requires Leq(a, b) && Leq(b, a)
    ensures a == b
  {
    if a != [] {
      LeqAntisymmetric(a[1..], b[1..]);
      assert a == [a[0]] + a[1..];
      assert b == [b[0]] + b[1..];
    }
  }

  lemma LeqTransitive(a: string, b: string, c: string)
    requires Leq(a, b) && Leq(b, c)
    ensures Leq(a, c)
  {
  }

  /** Up to `i` the strings agree, and there `a` has the lower character. */
  ghost predicate LowerAt(a: string, b: string, i: nat) {
    i < |a| && i < |b| && a[..i] == b[..i] && a[i] < b[i]
  }

  /** The first difference decides, and where there is none the shorter string comes first. */
  lemma {:induction false} LeqMeaning(a: string, b: string)
    ensures Leq(a, b) <==> a <= b || exists i: nat :: LowerAt(a, b, i)
  {
    if a != [] && b != [] && a[0] == b[0] {
      LeqMeaning(a[1..], b[1..]);
      if i: nat :| LowerAt(a[1..], b[1..], i) {
        assert a[..i + 1] == [a[0]] + a[1..][..i] && b[..i + 1] == [b[0]] + b[1..][..i];
        assert LowerAt(a, b, i + 1);
      }
      if i: nat :| LowerAt(a, b, i) {
        assert i > 0 && a[1..][..i - 1] == a[..i][1..] && b[1..][..i - 1] == b[..i][1..];
        assert LowerAt(a[1..], b[1..], i - 1);
      }
    } else if a != [] && b != [] && a[0] < b[0] {
      assert LowerAt(a, b, 0);
    } else {
      forall i: nat ensures i > 0 ==> !LowerAt(a, b, i) {
        if i > 0 && i <= |a| && i <= |b| {
          assert a[..i][0] == a[0] && b[..i][0] == b[0];
        }
      }
    }
  }

  /** A sort key is a list of strings compared field by field. */
  type Key = seq<string>

  predicate KeyLeq(a: Key, b: Key) {
    a == [] || (b != [] && Leq(a[0], b[0]) && (a[0] == b[0] ==> KeyLeq(a[1..], b[1..])))
  }

  lemma KeyLeqTotal(a: Key, b: Key)
    ensures KeyLeq(a, b) || KeyLeq(b, a)
  {
    if a != [] && b != [] {
      LeqTotal(a[0], b[0]);
      KeyLeqTotal(a[1..], b[1..]);
    }
  }

  lemma KeyLeqAntisymmetric(a: Key, b: Key)
    requires KeyLeq(a, b) && KeyLeq(b, a)
    ensures a == b
  {
    if a != [] {
      LeqAntisymmetric(a[0], b[0]);
      KeyLeqAntisymmetric(a[1..], b[1..]);
      assert a == [a[0]] + a[1..];
      assert b == [b[0]] + b[1..];
    }
  }

  lemma KeyLeqTransitive(a: Key, b: Key, c: Key)
    requires KeyLeq(a, b) && KeyLeq(b, c)
    ensures KeyLeq(a, c)
  {
    if a != [] {
      LeqTransitive(a[0], b[0], c[0]);
      if a[0] == c[0] {
        LeqAntisymmetric(a[0], b[0]);
        KeyLeqTransitive(a[1..], b[1..], c[1..]);
      }
    }
  }

  /** The first field in which they differ decides. */
  ghost predicate LowerInField(a: Key, b: Key, i: nat) {
    i < |a| && i < |b| && a[..i] == b[..i] && a[i] != b[i] && Leq(a[i], b[i])
  }

  lemma {:induction false} KeyLeqMeaning(a: Key, b: Key)
    ensures KeyLeq(a, b) <==> a <= b || exists i: nat :: LowerInField(a, b, i)
  {
    hide Leq;
    if a != [] && b != [] && a[0] == b[0] {
      LeqTotal(a[0], b[0]);
      KeyLeqMeaning(a[1..], b[1..]);
      if i: nat :| LowerInField(a[1..], b[1..], i) {
        assert a[..i + 1] == [a[0]] + a[1..][..i] && b[..i + 1] == [b[0]] + b[1..][..i];
        assert LowerInField(a, b, i + 1);
      }
      if i: nat :| LowerInField(a, b, i) {
        assert i > 0 && a[1..][..i - 1] == a[..i][1..] && b[1..][..i - 1] == b[..i][1..];
        assert LowerInField(a[1..], b[1..], i - 1);
      }
    } else if a != [] && b != [] && Leq(a[0], b[0]) {
      assert LowerInField(a, b, 0);
    } else {
      forall i: nat ensures i > 0 ==> !LowerInField(a, b, i) {
        if i > 0 && i <= |a| && i <= |b| {
          assert a[..i][0] == a[0] && b[..i][0] == b[0];
        }
      }
    }
  }

  ghost predicate Ordered<T(!new)>(key: T -> Key, s: seq<T>) {
    forall i, j :: 0 <= i < j < |s| ==> KeyLeq(key(s[i]), key(s[j]))
  }

  /** What `sort.Slice` promises. */
  ghost predicate IsSortOf<T(!new)>(key: T -> Key, input: seq<T>, output: seq<T>) {
    multiset(output) == multiset(input) && Ordered(key, output)
  }

  /** Two elements tie when their keys agree; a tie-free list has no two different elements that tie. */
  ghost predicate TieFree<T(!new)>(key: T -> Key, s: seq<T>) {
    forall x, y :: x in s && y in s && key(x) == key(y) ==> x == y
  }

  ghost function Insert<T>(s: seq<T>, x: T, k: nat): seq<T>
    requires k <= |s|
  {
    s[..k] + [x] + s[k..]
  }

  lemma {:induction false} InsertKeepsOrder<T(!new)>(key: T -> Key, s: seq<T>, x: T, k: nat)
    requires Ordered(key, s) && k <= |s|
    requires k > 0 ==> KeyLeq(key(s[k - 1]), key(x))
    requires k < |s| ==> KeyLeq(key(x), key(s[k]))
    ensures Ordered(key, Insert(s, x, k))
  {
    var r := Insert(s, x, k);
    forall i, j | 0 <= i < j < |r| ensures KeyLeq(key(r[i]), key(r[j])) {
      if j == k && i < k - 1 {
        KeyLeqTransitive(key(r[i]), key(s[k - 1]), key(x));
      } else if i == k && k + 1 < j {
        KeyLeqTransitive(key(x), key(s[k]), key(r[j]));
      }
    }
  }

  lemma InsertMultiset<T>(s: seq<T>, x: T, k: nat)
    requires k <= |s|
    ensures multiset(Insert(s, x, k)) == multiset(s) + multiset{x}
  {
    assert s == s[..k] + s[k..];
  }

  /** Where insertion puts `x`: behind the last element that is not above it. */
  function Place<T>(key: T -> Key, s: seq<T>, x: T): (k: nat)
    ensures k <= |s|
  {
    if s == [] || KeyLeq(key(s[|s| - 1]), key(x)) then |s| else Place(key, s[..|s| - 1], x)
  }

  lemma {:induction false} PlaceKeepsOrder<T(!new)>(key: T -> Key, s: seq<T>, x: T)
    requires Ordered(key, s)
    ensures Ordered(key, Insert(s, x, Place(key, s, x)))
  {
    hide KeyLeq;
    var k := Place(key, s, x);
    PlaceNeighbours(key, s, x);
    InsertKeepsOrder(key, s, x, k);
  }

  lemma {:induction false} PlaceNeighbours<T(!new)>(key: T -> Key, s: seq<T>, x: T)
    ensures var k := Place(key, s, x);
            (k > 0 ==> KeyLeq(key(s[k - 1]), key(x))) && (k < |s| ==> KeyLeq(key(x), key(s[k])))
  {
    hide KeyLeq;
    if s != [] {
      var below := s[..|s| - 1];
      PlaceNeighbours(key, below, x);
      KeyLeqTotal(key(s[|s| - 1]), key(x));
    }
  }

  /** A sorted permutation of any list. */
  function Sorted<T>(key: T -> Key, s: seq<T>): seq<T> {
    if s == [] then []
    else
      var below, x := Sorted(key, s[..|s| - 1]), s[|s| - 1];
      var k := Place(key, below, x);
      below[..k] + [x] + below[k..]
  }

  lemma {:induction false} SortedIsSort<T(!new)>(key: T -> Key, s: seq<T>)
    ensures IsSortOf(key, s, Sorted(key, s))
  {
    hide KeyLeq, Place;
    if s != [] {
      var n := |s| - 1;
      SortedIsSort(key, s[..n]);
      var below := Sorted(key, s[..n]);
      PlaceKeepsOrder(key, below, s[n]);
      InsertMultiset(below, s[n], Place(key, below, s[n]));
      assert s == s[..n] + [s[n]];
    }
  }

  /** A sort with the library's contract. */
  method Sort<T(!new)>(key: T -> Key, s: seq<T>) returns (r: seq<T>)
    ensures IsSortOf(key, s, r)
  {
    SortedIsSort(key, s);
    r := Sorted(key, s);
  }

  ghost function Swapped<T>(s: seq<T>, i: nat, j: nat): seq<T>
    requires i < |s| && j < |s|
  {
    s[i := s[j]][j := s[i]]
  }

  /** Exchanging two elements with one key leaves a sorted list sorted. */
  lemma SwapKeepsSort<T(!new)>(key: T -> Key, input: seq<T>, s: seq<T>, i: nat, j: nat)
    requires IsSortOf(key, input, s) && i < |s| && j < |s| && key(s[i]) == key(s[j])
    ensures IsSortOf(key, input, Swapped(s, i, j))
  {
    hide KeyLeq;
    var t := Swapped(s, i, j);
    assert forall k :: 0 <= k < |s| ==> key(t[k]) == key(s[k]);
    assert multiset(t) == multiset(s);
  }

  lemma SameElements<T>(a: seq<T>, b: seq<T>)
    requires multiset(a) == multiset(b)
    ensures forall x :: x in a <==> x in b
    ensures |a| == |b|
  {
    forall x ensures x in a <==> x in b {
      assert x in a <==> x in multiset(a);
      assert x in b <==> x in multiset(b);
    }
    assert |multiset(a)| == |a| && |multiset(b)| == |b|;
  }

  lemma TailMultiset<T>(a: seq<T>)
    requires a != []
    ensures multiset(a[1..]) == multiset(a) - multiset{a[0]}
  {
    assert a == [a[0]] + a[1..];
  }

  lemma FirstIsLeast<T(!new)>(key: T -> Key, a: seq<T>, x: T)
    requires Ordered(key, a) && x in a
    ensures KeyLeq(key(a[0]), key(x))
  {
    KeyLeqTotal(key(x), key(x));
  }

  /** An ordered permutation is unique when no two different elements tie. */
  lemma {:induction false} SortUnique<T(!new)>(key: T -> Key, a: seq<T>, b: seq<T>)
    requires multiset(a) == multiset(b)
    requires Ordered(key, a) && Ordered(key, b)
    requires TieFree(key, a)
    ensures a == b
  {
    hide KeyLeq, Leq, Ordered, TieFree;
    SameElements(a, b);
    if a != [] {
      assert a[0] in b && b[0] in a;
      SameHead(key, a, b);
      TailMultiset(a);
      TailMultiset(b);
      TailOrdered(key, a);
      TailOrdered(key, b);
      SortUnique(key, a[1..], b[1..]);
      assert a == [a[0]] + a[1..] && b == [b[0]] + b[1..];
    }
  }

  lemma TailOrdered<T(!new)>(key: T -> Key, a: seq<T>)
    requires a != [] && Ordered(key, a)
    ensures Ordered(key, a[1..])
    ensures TieFree(key, a) ==> TieFree(key, a[1..])
  {
  }

  lemma SameHead<T(!new)>(key: T -> Key, a: seq<T>, b: seq<T>)
    requires a != [] && b != [] && a[0] in b && b[0] in a
    requires Ordered(key, a) && Ordered(key, b) && TieFree(key, a)
    ensures a[0] == b[0]
  {
    hide KeyLeq, Leq, Ordered;
    FirstIsLeast(key, a, b[0]);
    FirstIsLeast(key, b, a[0]);
    KeyLeqAntisymmetric(key(a[0]), key(b[0]));
  }

  // ----- Strings -----

  function Single(s: string): Key { [s] }

  function InsertString(x: string, s: seq<string>): seq<string> {
    if s == [] || Leq(x, s[0]) then [x] + s else [s[0]] + InsertString(x, s[1..])
  }

  /** `sort.Strings`; equal strings are indistinguishable, so the result is a function of the input. */
  function SortStrings(s: seq<string>): seq<string> {
    if s == [] then [] else InsertString(s[0], SortStrings(s[1..]))
  }

  lemma {:induction false} InsertStringMultiset(x: string, s: seq<string>)
    ensures multiset(InsertString(x, s)) == multiset{x} + multiset(s)
  {
    if s != [] && !Leq(x, s[0]) {
      InsertStringMultiset(x, s[1..]);
      assert s == [s[0]] + s[1..];
    }
  }

  lemma {:induction false} SortStringsMultiset(s: seq<string>)
    ensures multiset(SortStrings(s)) == multiset(s)
  {
    if s != [] {
      SortStringsMultiset(s[1..]);
      InsertStringMultiset(s[0], SortStrings(s[1..]));
      assert s == [s[0]] + s[1..];
    }
  }

  ghost predicate Ascending(s: seq<string>) {
    forall i, j :: 0 <= i < j < |s| ==> Leq(s[i], s[j])
  }

  lemma {:induction false} InsertStringAscending(x: string, s: seq<string>)
    requires Ascending(s)
    ensures Ascending(InsertString(x, s))
  {
    if s == [] {
    } else if Leq(x, s[0]) {
      forall i | 0 <= i < |s| ensures Leq(x, s[i]) {
        if i > 0 { LeqTransitive(x, s[0], s[i]); }
      }
    } else {
      LeqTotal(x, s[0]);
      InsertStringAscending(x, s[1..]);
      InsertStringMultiset(x, s[1..]);
      var r := InsertString(x, s[1..]);
      forall i | 0 <= i < |r| ensures Leq(s[0], r[i]) {
        assert r[i] in multiset(r);
        assert r[i] == x || r[i] in s[1..];
      }
    }
  }

  lemma {:induction false} SortStringsAscending(s: seq<string>)
    ensures Ascending(SortStrings(s))
  {
    if s != [] {
      SortStringsAscending(s[1..]);
      InsertStringAscending(s[0], SortStrings(s[1..]));
    }
  }

  lemma SortStringsMember(s: seq<string>)
    ensures |SortStrings(s)| == |s|
    ensures forall x :: x in SortStrings(s) <==> x in s
  {
    SortStringsMultiset(s);
    SameElements(SortStrings(s), s);
  }

  lemma AscendingIsOrdered(s: seq<string>)
    requires Ascending(s)
    ensures Ordered(Single, s)
  {
  }

  /** Lists with the same strings sort to the same list. */
  lemma SortStringsCanonical(a: seq<string>, b: seq<string>)
    requires multiset(a) == multiset(b)
    ensures SortStrings(a) == SortStrings(b)
  {
    hide KeyLeq, Leq, SortStrings, Ascending, Ordered;
    var x, y := SortStrings(a), SortStrings(b);
    SortStringsMultiset(a);
    SortStringsMultiset(b);
    SortStringsAscending(a);
    SortStringsAscending(b);
    AscendingIsOrdered(x);
    AscendingIsOrdered(y);
    SortUnique(Single, x, y);
  }

  ghost predicate Distinct<T>(s: seq<T>) {
    forall i, j :: 0 <= i < j < |s| ==> s[i] != s[j]
  }

  lemma {:induction false} DistinctMultiset<T>(s: seq<T>, x: T)
    requires Distinct(s)
    ensures multiset(s)[x] == if x in s then 1 else 0
  {
    if s != [] {
      assert s == [s[0]] + s[1..];
      DistinctMultiset(s[1..], x);
    }
  }

  /** Two lists without repetition and with the same elements are permutations of each other. */
  lemma DistinctSameElements<T>(a: seq<T>, b: seq<T>)
    requires Distinct(a) && Distinct(b)
    requires forall x :: x in a <==> x in b
    ensures multiset(a) == multiset(b)
  {
    forall x ensures multiset(a)[x] == multiset(b)[x] {
      DistinctMultiset(a, x);
      DistinctMultiset(b, x);
    }
  }

  lemma DistinctPermuted<T>(a: seq<T>, b: seq<T>)
    requires Distinct(a) && multiset(a) == multiset(b)
    ensures Distinct(b)
  {
    forall i, j | 0 <= i < j < |b| ensures b[i] != b[j] {
      if b[i] == b[j] {
        DistinctMultiset(a, b[i]);
        TwiceInMultiset(b, i, j);
      }
    }
  }

  lemma TwiceInMultiset<T>(s: seq<T>, i: nat, j: nat)
    requires i < j < |s| && s[i] == s[j]
    ensures multiset(s)[s[i]] >= 2
  {
    assert s == s[..j] + s[j..];
    assert s[i] in s[..j] && s[j] in s[j..];
    assert multiset(s) == multiset(s[..j]) + multiset(s[j..]);
    assert s[i] in multiset(s[..j]) && s[j] in multiset(s[j..]);
  }

  function Join(parts: seq<string>, separator: char): string {
    if parts == [] then ""
    else if |parts| == 1 then parts[0]
    else parts[0] + [separator] + Join(parts[1..], separator)
  }

  /** Joining can be undone when no part contains the separator. */
  lemma {:induction false} JoinInjective(a: seq<string>, b: seq<string>, separator: char)
    requires a != [] && b != []
    requires forall x :: x in a || x in b ==> separator !in x
    requires Join(a, separator) == Join(b, separator)
    ensures a == b
  {
    assert a[0] in a && b[0] in b;
    if |a| > 1 {
      JoinHasSeparator(a, separator);
    }
    if |b| > 1 {
      JoinHasSeparator(b, separator);
    }
    if |a| > 1 && |b| > 1 {
      JoinHead(a, b, separator);
      var tail := |a[0]| + 1;
      assert Join(a, separator)[tail..] == Join(a[1..], separator);
      assert Join(b, separator)[tail..] == Join(b[1..], separator);
      JoinInjective(a[1..], b[1..], separator);
      assert a == [a[0]] + a[1..] && b == [b[0]] + b[1..];
    }
  }

  lemma JoinHasSeparator(parts: seq<string>, separator: char)
    requires |parts| > 1
    ensures separator in Join(parts, separator)
  {
    assert Join(parts, separator)[|parts[0]|] == separator;
  }

  lemma JoinHead(a: seq<string>, b: seq<string>, separator: char)
    requires |a| > 1 && |b| > 1
    requires separator !in a[0] && separator !in b[0]
    requires Join(a, separator) == Join(b, separator)
    ensures a[0] == b[0]
  {
    var j := Join(a, separator);
    forall i | 0 <= i < |a[0]| ensures j[i] != separator {
      assert j[i] == a[0][i] && a[0][i] in a[0];
    }
    forall i | 0 <= i < |b[0]| ensures j[i] != separator {
      assert j[i] == b[0][i] && b[0][i] in b[0];
    }
    assert j[|a[0]|] == separator && j[|b[0]|] == separator;
    assert |a[0]| == |b[0]|;
    assert j[..|a[0]|] == a[0] && j[..|b[0]|] == b[0];
  }

  // ----- Sorted lists without repetition -----

  function Dedup(s: seq<string>): seq<string> {
    if |s| < 2 then s
    else if s[0] == s[1] then Dedup(s[1..])
    else [s[0]] + Dedup(s[1..])
  }

  function SortedUnique(s: seq<string>): seq<string> {
    Dedup(SortStrings(s))
  }

  lemma {:induction false} DedupKeeps(s: seq<string>)
    requires Ascending(s)
    ensures forall x :: x in Dedup(s) <==> x in s
    ensures Ascending(Dedup(s)) && Distinct(Dedup(s))
    ensures s != [] ==> Dedup(s) != [] && Dedup(s)[0] == s[0]
  {
    if |s| >= 2 {
      DedupKeeps(s[1..]);
      var d := Dedup(s[1..]);
      if s[0] != s[1] {
        forall i | 0 <= i < |d| ensures Leq(s[0], d[i]) && s[0] != d[i] {
          assert d[i] in s[1..];
          var j :| 0 <= j < |s[1..]| && s[1..][j] == d[i];
          assert Leq(s[0], s[j + 1]) && Leq(s[0], s[1]);
          if s[0] == d[i] {
            assert Leq(s[1], s[j + 1]) by { LeqTotal(s[1], s[1]); }
            LeqAntisymmetric(s[0], s[1]);
          }
        }
      }
    }
  }

  lemma SortedUniqueFacts(s: seq<string>)
    ensures forall x :: x in SortedUnique(s) <==> x in s
    ensures Ascending(SortedUnique(s)) && Distinct(SortedUnique(s))
  {
    SortStringsMember(s);
    SortStringsAscending(s);
    DedupKeeps(SortStrings(s));
  }

  /** Only which strings there are matters. */
  lemma SortedUniqueCanonical(a: seq<string>, b: seq<string>)
    requires forall x :: x in a <==> x in b
    ensures SortedUnique(a) == SortedUnique(b)
  {
    hide SortedUnique, Ascending, Distinct;
    SortedUniqueFacts(a);
    SortedUniqueFacts(b);
    AscendingUnique(SortedUnique(a), SortedUnique(b));
  }

  lemma AscendingUnique(x: seq<string>, y: seq<string>)
    requires Ascending(x) && Ascending(y) && Distinct(x) && Distinct(y)
    requires forall s :: s in x <==> s in y
    ensures x == y
  {
    hide Ascending, Distinct, Leq;
    DistinctSameElements(x, y);
    AscendingIsOrdered(x);
    AscendingIsOrdered(y);
    SingleTieFree(x);
    SortUnique(Single, x, y);
  }

  lemma SingleTieFree(x: seq<string>)
    ensures TieFree(Single, x)
  {
  }

  lemma SortedUniqueIdempotent(s: seq<string>)
    ensures SortedUnique(SortedUnique(s)) == SortedUnique(s)
  {
    SortedUniqueFacts(s);
    SortedUniqueCanonical(SortedUnique(s), s);
  }

  // ----- Fields joined by NUL -----

  lemma {:induction false} NulJoinInjective(a: string, b: string, x: string, y: string)
    requires '\0' !in a && '\0' !in b && a + "\0" + x == b + "\0" + y
    ensures a == b && x == y
  {
    var s, t := a + "\0" + x, b + "\0" + y;
    assert s[|a|] == '\0' && t[|b|] == '\0';
    assert forall i :: 0 <= i < |a| ==> s[i] == a[i] && a[i] in a;
    assert forall i :: 0 <= i < |b| ==> t[i] == b[i] && b[i] in b;
    assert |a| == |b|;
    assert s[..|a|] == a && t[..|b|] == b && s[|a| + 1..] == x && t[|b| + 1..] == y;
  }

  /** Joined by NUL, which is below every other character, strings are ordered by the first part and then by the rest. */
  lemma {:induction false} NulJoinOrder(a: string, b: string, x: string, y: string)
    requires '\0' !in a && '\0' !in b
    ensures Leq(a + "\0" + x, b + "\0" + y) <==> if a == b then Leq(x, y) else Leq(a, b)
  {
    var s, t := a + "\0" + x, b + "\0" + y;
    if a == [] || b == [] {
      if a == [] { assert s == ['\0'] + x && s[1..] == x; }
      if b == [] { assert t == ['\0'] + y && t[1..] == y; }
    } else {
      assert s == [a[0]] + (a[1..] + "\0" + x) && t == [b[0]] + (b[1..] + "\0" + y);
      assert a == [a[0]] + a[1..] && b == [b[0]] + b[1..];
      NulJoinOrder(a[1..], b[1..], x, y);
    }
  }
}
