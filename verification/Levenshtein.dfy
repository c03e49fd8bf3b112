/** Edit distance and the typosquat test built on it. */
module EditDistance {
  import Unicode

  // ----- Edits -----

  datatype Edit = Insert(at: nat, c: char) | Delete(at: nat) | Substitute(at: nat, c: char)

  /** `t` is `s` after one insertion, deletion or substitution. */
  ghost predicate Applies(e: Edit, s: string, t: string) {
    match e
    case Insert(at, c) => at <= |s| && t == s[..at] + [c] + s[at..]
    case Delete(at) => at < |s| && t == s[..at] + s[at + 1..]
    case Substitute(at, c) => at < |s| && t == s[..at] + [c] + s[at + 1..]
  }

  /** `edits`, applied one after the other, turn `s` into `t`. */
  ghost predicate Turns(edits: seq<Edit>, s: string, t: string) {
    if edits == [] then s == t
    else exists m :: Applies(edits[0], s, m) && Turns(edits[1..], m, t)
  }

  // ----- The recurrence -----

  function Min3(a: nat, b: nat, c: nat): nat {
    if a <= b && a <= c then a else if b <= c then b else c
  }

  /** 1 when the last characters differ, 0 when they agree. */
  function Cost(x: char, y: char): nat { if x == y then 0 else 1 }

  function Init(s: string): string requires s != [] { s[..|s| - 1] }
  function Last(s: string): char requires s != [] { s[|s| - 1] }

  function Distance(a: string, b: string): nat
    decreases |a| + |b|
  {
    if a == [] then |b|
    else if b == [] then |a|
    else Min3(Distance(Init(a), b) + 1, Distance(a, Init(b)) + 1, Distance(Init(a), Init(b)) + Cost(Last(a), Last(b)))
  }

  // ----- A metric -----

  lemma {:induction false} DistanceLength(a: string, b: string)
    ensures Distance(a, b) >= |a| - |b| && Distance(a, b) >= |b| - |a|
    decreases |a| + |b|
  {
    if a != [] && b != [] {
      DistanceLength(Init(a), b);
      DistanceLength(a, Init(b));
      DistanceLength(Init(a), Init(b));
    }
  }

  lemma {:induction false} DistanceSymmetric(a: string, b: string)
    ensures Distance(a, b) == Distance(b, a)
    decreases |a| + |b|
  {
    if a != [] && b != [] {
      DistanceSymmetric(Init(a), b);
      DistanceSymmetric(a, Init(b));
      DistanceSymmetric(Init(a), Init(b));
    }
  }

  lemma {:induction false} DistanceZero(a: string, b: string)
    ensures Distance(a, b) == 0 <==> a == b
    decreases |a| + |b|
  {
    if a != [] && b != [] {
      assert a == Init(a) + [Last(a)] && b == Init(b) + [Last(b)];
      DistanceZero(Init(a), Init(b));
    }
  }

  lemma {:induction false} Triangle(a: string, b: string, c: string)
    ensures Distance(a, c) <= Distance(a, b) + Distance(b, c)
    decreases |a| + |b| + |c|, 1
  {
    if a == [] {
      DistanceLength(b, c);
    } else if c == [] {
      DistanceLength(a, b);
    } else if b == [] {
      DistanceLength(a, c);
      DistanceAtMost(a, c);
    } else {
      TriangleStep(a, b, c);
    }
  }

  /** The last characters of `a`, `b` and `c` are aligned in one of nine ways; each drops at least one of them. */
  lemma {:induction false} TriangleStep(a: string, b: string, c: string)
    requires a != [] && b != [] && c != []
    ensures Distance(a, c) <= Distance(a, b) + Distance(b, c)
    decreases |a| + |b| + |c|, 0
  {
    if Distance(a, b) == Distance(Init(a), b) + 1 {
      Triangle(Init(a), b, c);
    } else if Distance(b, c) == Distance(b, Init(c)) + 1 {
      Triangle(a, b, Init(c));
    } else if Distance(a, b) == Distance(a, Init(b)) + 1 {
      if Distance(b, c) == Distance(Init(b), c) + 1 {
        Triangle(a, Init(b), c);
      } else {
        Triangle(a, Init(b), Init(c));
      }
    } else if Distance(b, c) == Distance(Init(b), c) + 1 {
      Triangle(Init(a), Init(b), c);
    } else {
      Triangle(Init(a), Init(b), Init(c));
    }
  }

  lemma {:induction false} DistanceAtMost(a: string, b: string)
    ensures Distance(a, b) <= |a| + |b|
    decreases |a| + |b|
  {
    if a != [] && b != [] {
      DistanceAtMost(Init(a), b);
    }
  }

  // ----- Lower bound: one edit changes the distance by at most one -----

  lemma {:induction false} CommonSuffix(x: string, y: string, s: string)
    ensures Distance(x + s, y + s) <= Distance(x, y)
  {
    if s == [] {
      assert x + s == x && y + s == y;
    } else {
      CommonSuffix(x, y, Init(s));
      assert Init(x + s) == x + Init(s) && Init(y + s) == y + Init(s);
    }
  }

  lemma {:induction false} OneEditIsOne(e: Edit, s: string, t: string)
    requires Applies(e, s, t)
    ensures Distance(s, t) <= 1
  {
    var p := s[..e.at];
    DistanceZero(p, p);
    match e
    case Insert(at, c) =>
      assert Init(p + [c]) == p;
      assert s == p + s[at..];
      CommonSuffix(p, p + [c], s[at..]);
    case Delete(at) =>
      assert Init(p + [s[at]]) == p;
      assert s == p + [s[at]] + s[at + 1..];
      CommonSuffix(p + [s[at]], p, s[at + 1..]);
    case Substitute(at, c) =>
      assert Init(p + [s[at]]) == p && Init(p + [c]) == p;
      assert s == p + [s[at]] + s[at + 1..];
      CommonSuffix(p + [s[at]], p + [c], s[at + 1..]);
  }

  /** No list of edits is shorter than the distance. */
  lemma {:induction false} NoShorterScript(edits: seq<Edit>, s: string, t: string)
    requires Turns(edits, s, t)
    ensures Distance(s, t) <= |edits|
  {
    if edits == [] {
      DistanceZero(s, t);
    } else {
      var m :| Applies(edits[0], s, m) && Turns(edits[1..], m, t);
      OneEditIsOne(edits[0], s, m);
      NoShorterScript(edits[1..], m, t);
      Triangle(s, m, t);
    }
  }

  // ----- Upper bound: some list of edits is as short as the distance -----

  lemma {:induction false} TurnsThen(first: seq<Edit>, second: seq<Edit>, s: string, m: string, t: string)
    requires Turns(first, s, m) && Turns(second, m, t)
    ensures Turns(first + second, s, t)
  {
    if first == [] {
      assert first + second == second;
    } else {
      var n :| Applies(first[0], s, n) && Turns(first[1..], n, m);
      TurnsThen(first[1..], second, n, m, t);
      assert (first + second)[1..] == first[1..] + second;
    }
  }

  /** Edits work the same with a character appended to both ends of the change. */
  lemma {:induction false} TurnsWithSuffix(edits: seq<Edit>, s: string, t: string, x: char)
    requires Turns(edits, s, t)
    ensures Turns(edits, s + [x], t + [x])
  {
    if edits != [] {
      var m :| Applies(edits[0], s, m) && Turns(edits[1..], m, t);
      var at := edits[0].at;
      if edits[0].Insert? {
        assert m + [x] == (s + [x])[..at] + [edits[0].c] + (s + [x])[at..];
      } else if edits[0].Delete? {
        assert m + [x] == (s + [x])[..at] + (s + [x])[at + 1..];
      } else {
        assert m + [x] == (s + [x])[..at] + [edits[0].c] + (s + [x])[at + 1..];
      }
      assert Applies(edits[0], s + [x], m + [x]);
      TurnsWithSuffix(edits[1..], m, t, x);
    }
  }

  lemma OneEditTurns(e: Edit, s: string, t: string)
    requires Applies(e, s, t)
    ensures Turns([e], s, t)
  {
    assert Turns([e][1..], t, t);
  }

  lemma {:induction false} ShortestScript(a: string, b: string) returns (edits: seq<Edit>)
    ensures Turns(edits, a, b) && |edits| == Distance(a, b)
    decreases |a| + |b|
  {
    if a == b {
      DistanceZero(a, b);
      edits := [];
    } else if a == [] {
      var first := ShortestScript(a, Init(b));
      edits := ThenInsert(first, a, b);
    } else if b == [] {
      var rest := ShortestScript(Init(a), b);
      edits := DeleteThen(rest, a, b);
    } else if Distance(a, b) == Distance(Init(a), b) + 1 {
      var rest := ShortestScript(Init(a), b);
      edits := DeleteThen(rest, a, b);
    } else if Distance(a, b) == Distance(a, Init(b)) + 1 {
      var first := ShortestScript(a, Init(b));
      edits := ThenInsert(first, a, b);
    } else {
      var first := ShortestScript(Init(a), Init(b));
      edits := ThenSubstitute(first, a, b);
    }
  }

  lemma DeleteThen(rest: seq<Edit>, a: string, b: string) returns (edits: seq<Edit>)
    requires a != [] && Turns(rest, Init(a), b)
    ensures Turns(edits, a, b) && |edits| == |rest| + 1
  {
    var e := Delete(|a| - 1);
    assert Init(a) == a[..|a| - 1] + a[|a|..];
    OneEditTurns(e, a, Init(a));
    TurnsThen([e], rest, a, Init(a), b);
    edits := [e] + rest;
  }

  lemma ThenInsert(first: seq<Edit>, a: string, b: string) returns (edits: seq<Edit>)
    requires b != [] && Turns(first, a, Init(b))
    ensures Turns(edits, a, b) && |edits| == |first| + 1
  {
    var e := Insert(|b| - 1, Last(b));
    assert b == Init(b)[..|b| - 1] + [Last(b)] + Init(b)[|b| - 1..];
    OneEditTurns(e, Init(b), b);
    TurnsThen(first, [e], a, Init(b), b);
    edits := first + [e];
  }

  lemma ThenSubstitute(first: seq<Edit>, a: string, b: string) returns (edits: seq<Edit>)
    requires a != [] && b != [] && Turns(first, Init(a), Init(b))
    ensures Turns(edits, a, b) && |edits| == |first| + Cost(Last(a), Last(b))
  {
    TurnsWithSuffix(first, Init(a), Init(b), Last(a));
    assert a == Init(a) + [Last(a)] && b == Init(b) + [Last(b)];
    edits := first;
    if Last(a) != Last(b) {
      var m := Init(b) + [Last(a)];
      var e := Substitute(|b| - 1, Last(b));
      assert b == m[..|b| - 1] + [Last(b)] + m[|b|..];
      OneEditTurns(e, m, b);
      TurnsThen(first, [e], a, m, b);
      edits := first + [e];
    }
  }

  // ----- The algorithm: one row, overwritten in place -----

  /** Entry `k` of the row for the prefix `..i` of `a`. */
  ghost function Cell(a: string, b: string, i: nat, k: nat): nat
    requires i <= |a| && k <= |b|
  {
    Distance(a[..i], b[..k])
  }

  lemma CellStep(a: string, b: string, i: nat, j: nat)
    requires i < |a| && j < |b|
    ensures Cell(a, b, i + 1, j + 1)
         == Min3(Cell(a, b, i, j + 1) + 1, Cell(a, b, i + 1, j) + 1, Cell(a, b, i, j) + Cost(a[i], b[j]))
  {
    assert Init(a[..i + 1]) == a[..i] && Init(b[..j + 1]) == b[..j];
  }

  /** Overwrite the row for `..i` with the row for `..i + 1`, left to right. */
  method NextRow(row: array<nat>, a: string, b: string, i: nat)
    requires i < |a| && row.Length == |b| + 1
    requires forall k :: 0 <= k <= |b| ==> row[k] == Cell(a, b, i, k)
    modifies row
    ensures forall k :: 0 <= k <= |b| ==> row[k] == Cell(a, b, i + 1, k)
  {
    var previous := row[0];
    row[0] := i + 1;
    for j := 0 to |b|
      invariant previous == Cell(a, b, i, j)
      invariant forall k :: 0 <= k <= j ==> row[k] == Cell(a, b, i + 1, k)
      invariant forall k :: j < k <= |b| ==> row[k] == Cell(a, b, i, k)
    {
      CellStep(a, b, i, j);
      var was := row[j + 1];
      row[j + 1] := Min3(row[j + 1] + 1, row[j] + 1, previous + Cost(a[i], b[j]));
      previous := was;
    }
  }

  /** The distance, and with it the least number of edits: some list of that many edits turns `a` into `b`, and
      no shorter one does. */
  method Levenshtein(a: string, b: string) returns (d: nat)
    ensures d == Distance(a, b)
    ensures exists edits :: Turns(edits, a, b) && |edits| == d
    ensures forall edits :: Turns(edits, a, b) ==> d <= |edits|
  {
    var row := new nat[|b| + 1](k => k);
    for i := 0 to |a|
      invariant forall k :: 0 <= k <= |b| ==> row[k] == Cell(a, b, i, k)
    {
      NextRow(row, a, b, i);
    }
    assert a[..|a|] == a && b[..|b|] == b;
    d := row[|b|];
    var script := ShortestScript(a, b);
    forall edits | Turns(edits, a, b) ensures d <= |edits| {
      NoShorterScript(edits, a, b);
    }
  }

  // ----- Typosquats -----

  /** Bytes a character takes in UTF-8; the length test counts bytes, the distance counts characters. */
  function Width(c: char): nat {
    if c < 0x80 as char then 1 else if c < 0x800 as char then 2 else if c as int < 0x10000 then 3 else 4
  }

  function ByteLength(s: string): nat {
    if s == [] then 0 else Width(s[0]) + ByteLength(s[1..])
  }

  function CodePoints(s: string): seq<int> {
    seq(|s|, i requires 0 <= i < |s| => s[i] as int)
  }

  /** The length that is tested is that of the name's UTF-8 form. */
  lemma {:induction false} ByteLengthMeaning(s: string)
    ensures Unicode.IsText(CodePoints(s)) && ByteLength(s) == |Unicode.Utf8(CodePoints(s))|
  {
    if s != [] {
      ByteLengthMeaning(s[1..]);
      assert CodePoints(s) == [s[0] as int] + CodePoints(s[1..]);
      assert CodePoints(s)[1..] == CodePoints(s[1..]);
    }
  }

  /** The first imitated name, with its distance; both names are already normalised. */
  method TyposquatTarget(candidate: string, popular: seq<string>) returns (index: int, distance: nat)
    ensures -1 <= index < |popular|
    ensures Unicode.IsText(CodePoints(candidate))
    ensures index >= 0 ==> candidate != popular[index] && distance == Distance(candidate, popular[index]) <= 2
                           && |Unicode.Utf8(CodePoints(candidate))| >= 6
    ensures forall k :: 0 <= k < (if index < 0 then |popular| else index) ==>
              candidate == popular[k] || Distance(candidate, popular[k]) > 2 || |Unicode.Utf8(CodePoints(candidate))| < 6
  {
    hide Distance, ByteLength, Unicode.Utf8, CodePoints;
    ByteLengthMeaning(candidate);
    for n := 0 to |popular|
      invariant forall k :: 0 <= k < n ==> candidate == popular[k] || Distance(candidate, popular[k]) > 2 || ByteLength(candidate) < 6
    {
      if candidate != popular[n] {
        var d := Levenshtein(candidate, popular[n]);
        if d <= 2 && ByteLength(candidate) >= 6 {
          return n, d;
        }
      }
    }
    return -1, 0;
  }
}
