/**
 * The edit distance used for suggestions, computed with three rolling rows,
 * against the least cost over all alignments of the two strings.
 */
module StringDistance {

  function Min(x: nat, y: nat): nat { if x < y then x else y }
  function Max(x: nat, y: nat): nat { if x < y then y else x }

  // ------------------------------------------------------------- alignments

  /** A step from one string to the other, left to right. */
  datatype Edit =
    | Keep(c: char)
    | Substitute(from: char, to: char)
    | Delete(deleted: char)
    | Insert(inserted: char)
    | Swap(first: char, second: char)
  {
    function Consumes(): string {
      match this
      case Keep(c) => [c]
      case Substitute(from, _) => [from]
      case Delete(c) => [c]
      case Insert(_) => ""
      case Swap(first, second) => [first, second]
    }

    function Produces(): string {
      match this
      case Keep(c) => [c]
      case Substitute(_, to) => [to]
      case Delete(_) => ""
      case Insert(c) => [c]
      case Swap(first, second) => [second, first]
    }

    function Cost(): nat {
      if Keep? then 0 else 1
    }
  }

  type Alignment = seq<Edit>

  function Source(edits: Alignment): string {
    if edits == [] then "" else Source(edits[..|edits| - 1]) + edits[|edits| - 1].Consumes()
  }

  function Target(edits: Alignment): string {
    if edits == [] then "" else Target(edits[..|edits| - 1]) + edits[|edits| - 1].Produces()
  }

  function TotalCost(edits: Alignment): nat {
    if edits == [] then 0 else TotalCost(edits[..|edits| - 1]) + edits[|edits| - 1].Cost()
  }

  ghost predicate Aligns(edits: Alignment, a: string, b: string) {
    Source(edits) == a && Target(edits) == b
  }

  ghost predicate IsLeastCost(d: nat, a: string, b: string) {
    && (exists edits :: Aligns(edits, a, b) && TotalCost(edits) == d)
    && (forall edits :: Aligns(edits, a, b) ==> d <= TotalCost(edits))
  }

  // ------------------------------------------------- the recursive distance

  /** The full, unbounded table: distance of the prefixes of length i and j. */
  function Distance(a: string, b: string, i: nat, j: nat): nat
    requires i <= |a| && j <= |b|
    decreases i + j
  {
    if i == 0 || j == 0 then Max(i, j) else
      var edited := Min(Distance(a, b, i - 1, j) + 1, Distance(a, b, i, j - 1) + 1);
      var kept := Min(edited, Distance(a, b, i - 1, j - 1) + if a[i - 1] == b[j - 1] then 0 else 1);
      if CanSwap(a, b, i, j) then Min(kept, Distance(a, b, i - 2, j - 2) + 1) else kept
  }

  predicate CanSwap(a: string, b: string, i: nat, j: nat)
    requires i <= |a| && j <= |b|
  {
    i > 1 && j > 1 && a[i - 1] == b[j - 2] && a[i - 2] == b[j - 1]
  }

  predicate SwapPays(a: string, b: string, i: nat, j: nat)
    requires i <= |a| && j <= |b|
  {
    i >= 2 && j >= 2 && Distance(a, b, i, j) == Distance(a, b, i - 2, j - 2) + 1
  }

  /** The distance is the least of what the last edits leave, plus their cost. */
  lemma DistanceStep(a: string, b: string, i: nat, j: nat)
    requires i <= |a| && j <= |b|
    ensures var d := Distance(a, b, i, j);
            && (i == 0 && j == 0 ==> d == 0)
            && (i > 0 ==> d <= Distance(a, b, i - 1, j) + 1)
            && (j > 0 ==> d <= Distance(a, b, i, j - 1) + 1)
            && (i > 0 && j > 0 ==> d <= Distance(a, b, i - 1, j - 1) + if a[i - 1] == b[j - 1] then 0 else 1)
            && (CanSwap(a, b, i, j) ==> d <= Distance(a, b, i - 2, j - 2) + 1)
            && (i + j > 0 ==>
                 || (i > 0 && d == Distance(a, b, i - 1, j) + 1)
                 || (j > 0 && d == Distance(a, b, i, j - 1) + 1)
                 || (i > 0 && j > 0 && d == Distance(a, b, i - 1, j - 1) + if a[i - 1] == b[j - 1] then 0 else 1)
                 || (CanSwap(a, b, i, j) && SwapPays(a, b, i, j)))
  {
    if i == 0 && j > 0 {
      assert Distance(a, b, 0, j - 1) == j - 1;
    }
    if j == 0 && i > 0 {
      assert Distance(a, b, i - 1, 0) == i - 1;
    }
  }

  lemma Snoc(edits: Alignment, e: Edit)
    ensures Source(edits + [e]) == Source(edits) + e.Consumes()
    ensures Target(edits + [e]) == Target(edits) + e.Produces()
    ensures TotalCost(edits + [e]) == TotalCost(edits) + e.Cost()
  {
    assert (edits + [e])[..|edits|] == edits;
  }

  lemma LastLetters(s: string, i: nat)
    requires i <= |s|
    ensures i >= 1 ==> s[i - 1..i] == [s[i - 1]]
    ensures i >= 2 ==> s[i - 2..i] == [s[i - 2], s[i - 1]]
  {
    if i >= 1 {
      var one := s[i - 1..i];
      assert |one| == 1 && one[0] == s[i - 1];
    }
    if i >= 2 {
      var two := s[i - 2..i];
      assert |two| == 2 && two[0] == s[i - 2] && two[1] == s[i - 1];
    }
  }

  lemma PrefixSplits(s: string, m: nat, i: nat)
    requires m <= i <= |s|
    ensures s[..i] == s[..m] + s[m..i]
  {
  }

  /** What the last edit of an alignment of two prefixes accounts for. */
  lemma LastOfAlignment(s: string, i: nat, t: string, u: string)
    requires i <= |s| && s[..i] == t + u
    ensures |u| <= i && s[..i - |u|] == t && s[i - |u|..i] == u
  {
    assert s[..i][..|t|] == t && s[..i][|t|..] == u;
  }

  /** `e` turns a[m..i] into b[n..j]. */
  predicate Turns(e: Edit, a: string, m: nat, i: nat, b: string, n: nat, j: nat) {
    m <= i <= |a| && n <= j <= |b| && e.Consumes() == a[m..i] && e.Produces() == b[n..j]
  }

  /** Which letters an edit is about. */
  lemma TurnsLetters(e: Edit, a: string, m: nat, i: nat, b: string, n: nat, j: nat)
    requires Turns(e, a, m, i, b, n, j)
    ensures match e
            case Keep(_) => m == i - 1 && n == j - 1 && a[i - 1] == b[j - 1]
            case Substitute(_, _) => m == i - 1 && n == j - 1
            case Delete(_) => m == i - 1 && n == j
            case Insert(_) => m == i && n == j - 1
            case Swap(_, _) => m == i - 2 && n == j - 2 && CanSwap(a, b, i, j)
  {
    var u, v := a[m..i], b[n..j];
    match e
    case Keep(c) =>
      assert u[0] == a[m] && v[0] == b[n];
    case Swap(first, second) =>
      assert u[0] == a[m] && u[1] == a[m + 1] && v[0] == b[n] && v[1] == b[n + 1];
    case _ =>
  }

  /** Taking back one edit takes back no more than its cost. */
  lemma EditIsPaid(a: string, b: string, i: nat, j: nat, e: Edit, m: nat, n: nat)
    requires Turns(e, a, m, i, b, n, j)
    ensures Distance(a, b, i, j) <= Distance(a, b, m, n) + e.Cost()
  {
    TurnsLetters(e, a, m, i, b, n, j);
    hide Distance, Turns, CanSwap;
    DistanceStep(a, b, i, j);
  }

  /** No alignment is cheaper than the distance. */
  lemma {:induction false} DistanceIsLowerBound(a: string, b: string, edits: Alignment, i: nat, j: nat)
    requires i <= |a| && j <= |b| && Aligns(edits, a[..i], b[..j])
    ensures Distance(a, b, i, j) <= TotalCost(edits)
    decreases |edits|
  {
    if edits == [] {
      DistanceStep(a, b, i, j);
    } else {
      var k := |edits| - 1;
      var e, front := edits[k], edits[..k];
      LastOfAlignment(a, i, Source(front), e.Consumes());
      LastOfAlignment(b, j, Target(front), e.Produces());
      hide Distance, Edit.Consumes, Edit.Produces, Edit.Cost;
      DistanceIsLowerBound(a, b, front, i - |e.Consumes()|, j - |e.Produces()|);
      EditIsPaid(a, b, i, j, e, i - |e.Consumes()|, j - |e.Produces()|);
    }
  }

  /** Some alignment costs exactly the distance. */
  lemma {:induction false} DistanceIsAttained(a: string, b: string, i: nat, j: nat) returns (edits: Alignment)
    requires i <= |a| && j <= |b|
    ensures Aligns(edits, a[..i], b[..j]) && TotalCost(edits) == Distance(a, b, i, j)
    decreases i + j
  {
    if i == 0 && j == 0 {
      return [];
    }
    hide Distance, Edit.Consumes, Edit.Produces, Edit.Cost, CanSwap;
    var e, m, n := LastEdit(a, b, i, j);
    var front := DistanceIsAttained(a, b, m, n);
    edits := front + [e];
    Snoc(front, e);
    PrefixSplits(a, m, i);
    PrefixSplits(b, n, j);
  }

  lemma DeleteTurns(a: string, b: string, i: nat, j: nat)
    requires 0 < i <= |a| && j <= |b|
    ensures Turns(Delete(a[i - 1]), a, i - 1, i, b, j, j)
  {
    LastLetters(a, i);
  }

  lemma InsertTurns(a: string, b: string, i: nat, j: nat)
    requires i <= |a| && 0 < j <= |b|
    ensures Turns(Insert(b[j - 1]), a, i, i, b, j - 1, j)
  {
    LastLetters(b, j);
  }

  lemma ReplaceTurns(a: string, b: string, i: nat, j: nat)
    requires 0 < i <= |a| && 0 < j <= |b|
    ensures Turns(Substitute(a[i - 1], b[j - 1]), a, i - 1, i, b, j - 1, j)
    ensures a[i - 1] == b[j - 1] ==> Turns(Keep(a[i - 1]), a, i - 1, i, b, j - 1, j)
  {
    LastLetters(a, i);
    LastLetters(b, j);
  }

  lemma SwapTurns(a: string, b: string, i: nat, j: nat)
    requires i <= |a| && j <= |b| && CanSwap(a, b, i, j)
    ensures Turns(Swap(a[i - 2], a[i - 1]), a, i - 2, i, b, j - 2, j)
  {
    LastLetters(a, i);
    LastLetters(b, j);
  }

  /** An edit after which the distance is attained, if it is attained before. */
  lemma LastEdit(a: string, b: string, i: nat, j: nat) returns (e: Edit, m: nat, n: nat)
    requires i <= |a| && j <= |b| && i + j > 0
    ensures m + n < i + j && Turns(e, a, m, i, b, n, j)
    ensures Distance(a, b, i, j) == Distance(a, b, m, n) + e.Cost()
  {
    hide Distance, CanSwap, Turns, SwapPays, Edit.Consumes, Edit.Produces;
    DistanceStep(a, b, i, j);
    if i > 0 && Distance(a, b, i, j) == Distance(a, b, i - 1, j) + 1 {
      e, m, n := Delete(a[i - 1]), i - 1, j;
      DeleteTurns(a, b, i, j);
    } else if j > 0 && Distance(a, b, i, j) == Distance(a, b, i, j - 1) + 1 {
      e, m, n := Insert(b[j - 1]), i, j - 1;
      InsertTurns(a, b, i, j);
    } else if CanSwap(a, b, i, j) && SwapPays(a, b, i, j) {
      SwapNeedsTwo(a, b, i, j);
      e, m, n := Swap(a[i - 2], a[i - 1]), i - 2, j - 2;
      SwapTurns(a, b, i, j);
    } else {
      e, m, n := if a[i - 1] == b[j - 1] then Keep(a[i - 1]) else Substitute(a[i - 1], b[j - 1]), i - 1, j - 1;
      ReplaceTurns(a, b, i, j);
    }
  }

  lemma SwapNeedsTwo(a: string, b: string, i: nat, j: nat)
    requires i <= |a| && j <= |b| && CanSwap(a, b, i, j) && SwapPays(a, b, i, j)
    ensures i >= 2 && j >= 2 && Distance(a, b, i, j) == Distance(a, b, i - 2, j - 2) + 1
  {
    hide Distance;
  }

  lemma DistanceIsLeastCost(a: string, b: string)
    ensures IsLeastCost(Distance(a, b, |a|, |b|), a, b)
  {
    hide Distance, Source, Target, TotalCost;
    assert a[..|a|] == a && b[..|b|] == b;
    var best := DistanceIsAttained(a, b, |a|, |b|);
    forall edits | Aligns(edits, a, b) ensures Distance(a, b, |a|, |b|) <= TotalCost(edits) {
      DistanceIsLowerBound(a, b, edits, |a|, |b|);
    }
  }

  lemma {:induction false} FreeAlignmentsKeep(edits: Alignment)
    requires TotalCost(edits) == 0
    ensures Source(edits) == Target(edits)
    decreases |edits|
  {
    if edits != [] {
      FreeAlignmentsKeep(edits[..|edits| - 1]);
    }
  }

  function KeepAll(s: string): (edits: Alignment)
    decreases |s|
  {
    if s == "" then [] else KeepAll(s[..|s| - 1]) + [Keep(s[|s| - 1])]
  }

  lemma {:induction false} KeepAllKeeps(s: string)
    ensures Aligns(KeepAll(s), s, s) && TotalCost(KeepAll(s)) == 0
    decreases |s|
  {
    if s != "" {
      hide Source, Target, TotalCost;
      var front := s[..|s| - 1];
      KeepAllKeeps(front);
      Snoc(KeepAll(front), Keep(s[|s| - 1]));
      assert s == front + [s[|s| - 1]];
    }
  }

  /** Only equal strings are at distance zero. */
  lemma ZeroMeansEqual(a: string, b: string)
    ensures Distance(a, b, |a|, |b|) == 0 <==> a == b
  {
    DistanceIsLeastCost(a, b);
    if a == b {
      KeepAllKeeps(a);
    } else {
      var edits :| Aligns(edits, a, b) && TotalCost(edits) == Distance(a, b, |a|, |b|);
      if TotalCost(edits) == 0 {
        FreeAlignmentsKeep(edits);
      }
    }
  }

  // ------------------------------------------------------------ rolling rows

  /** Row `i` of the table is in its third of the array, up to column `count`. */
  ghost predicate RowHolds(dp: seq<nat>, a: string, b: string, i: int, count: nat)
    requires |dp| == 3 * (|b| + 1) && i <= |a| && count <= |b| + 1
  {
    i >= 0 ==> forall j {:trigger Distance(a, b, i, j)} :: 0 <= j < count ==> dp[i % 3 + j * 3] == Distance(a, b, i, j)
  }

  lemma RowAt(dp: seq<nat>, a: string, b: string, i: nat, count: nat, j: nat)
    requires |dp| == 3 * (|b| + 1) && i <= |a| && j < count <= |b| + 1 && RowHolds(dp, a, b, i, count)
    ensures i % 3 + j * 3 < |dp| && dp[i % 3 + j * 3] == Distance(a, b, i, j)
  {
    hide Distance;
  }

  /** A new cell only overwrites the row before the last two. */
  lemma RowKept(dp: seq<nat>, a: string, b: string, i: int, j: nat, x: nat, row: int)
    requires |dp| == 3 * (|b| + 1) && 0 <= i <= |a| && j <= |b| && (row == i - 1 || row == i - 2)
    requires RowHolds(dp, a, b, row, |b| + 1)
    ensures RowHolds(dp[i % 3 + j * 3 := x], a, b, row, |b| + 1)
  {
    hide Distance;
  }

  lemma RowExtended(dp: seq<nat>, a: string, b: string, i: nat, j: nat, x: nat)
    requires |dp| == 3 * (|b| + 1) && i <= |a| && j <= |b|
    requires RowHolds(dp, a, b, i, j) && x == Distance(a, b, i, j)
    ensures RowHolds(dp[i % 3 + j * 3 := x], a, b, i, j + 1)
  {
    hide Distance;
  }

  method StringDistance(str1: string, str2: string) returns (distance: nat)
    ensures distance == Distance(str1, str2, |str1|, |str2|)
    ensures IsLeastCost(distance, str1, str2)
  {
    hide Distance, RowHolds, IsLeastCost;
    var n1, n2 := |str1|, |str2|;
    var dp := new nat[3 * (n2 + 1)](_ => 0);
    NoRows(dp[..], str1, str2);
    for i1 := 0 to n1 + 1
      invariant RowHolds(dp[..], str1, str2, i1 - 1, n2 + 1)
      invariant RowHolds(dp[..], str1, str2, i1 - 2, n2 + 1)
    {
      EmptyRow(dp[..], str1, str2, i1);
      for i2 := 0 to n2 + 1
        invariant RowHolds(dp[..], str1, str2, i1 - 1, n2 + 1)
        invariant RowHolds(dp[..], str1, str2, i1 - 2, n2 + 1)
        invariant RowHolds(dp[..], str1, str2, i1, i2)
      {
        var x := Cell(dp, str1, str2, i1, i2);
        RowKept(dp[..], str1, str2, i1, i2, x, i1 - 1);
        RowKept(dp[..], str1, str2, i1, i2, x, i1 - 2);
        RowExtended(dp[..], str1, str2, i1, i2, x);
        ghost var was := dp[..];
        dp[i1 % 3 + i2 * 3] := x;
        assert dp[..] == was[i1 % 3 + i2 * 3 := x];
      }
    }
    RowAt(dp[..], str1, str2, n1, n2 + 1, n2);
    distance := dp[n1 % 3 + n2 * 3];
    DistanceIsLeastCost(str1, str2);
  }

  lemma NoRows(dp: seq<nat>, a: string, b: string)
    requires |dp| == 3 * (|b| + 1)
    ensures RowHolds(dp, a, b, -1, |b| + 1) && RowHolds(dp, a, b, -2, |b| + 1)
  {
  }

  lemma EmptyRow(dp: seq<nat>, a: string, b: string, i: nat)
    requires |dp| == 3 * (|b| + 1) && i <= |a|
    ensures RowHolds(dp, a, b, i, 0)
  {
  }

  /** A cell of the table in terms of its neighbours. */
  lemma CellIs(a: string, b: string, i: nat, j: nat, x: nat)
    requires 0 < i <= |a| && 0 < j <= |b|
    requires var edited := Min(Distance(a, b, i - 1, j) + 1, Distance(a, b, i, j - 1) + 1);
             var kept := Min(edited, Distance(a, b, i - 1, j - 1) + if a[i - 1] == b[j - 1] then 0 else 1);
             x == if CanSwap(a, b, i, j) then Min(kept, Distance(a, b, i - 2, j - 2) + 1) else kept
    ensures x == Distance(a, b, i, j)
  {
    hide Min;
  }

  lemma BorderIs(a: string, b: string, i: nat, j: nat)
    requires i <= |a| && j <= |b| && (i == 0 || j == 0)
    ensures Max(i, j) == Distance(a, b, i, j)
  {
  }

  /** The body of the inner loop, up to the store. */
  method Cell(dp: array<nat>, str1: string, str2: string, i1: nat, i2: nat) returns (x: nat)
    requires dp.Length == 3 * (|str2| + 1) && i1 <= |str1| && i2 <= |str2|
    requires RowHolds(dp[..], str1, str2, i1 - 1, |str2| + 1) && RowHolds(dp[..], str1, str2, i1 - 2, |str2| + 1)
    requires RowHolds(dp[..], str1, str2, i1, i2)
    ensures x == Distance(str1, str2, i1, i2)
  {
    hide RowHolds, Distance;
    x := 0;
    if Min(i1, i2) == 0 {
      BorderIs(str1, str2, i1, i2);
      x := Max(i1, i2);
    } else {
      RowAt(dp[..], str1, str2, i1 - 1, |str2| + 1, i2);
      var left := dp[(i1 - 1) % 3 + i2 * 3];
      RowAt(dp[..], str1, str2, i1, i2, i2 - 1);
      var up := dp[i1 % 3 + (i2 - 1) * 3];
      RowAt(dp[..], str1, str2, i1 - 1, |str2| + 1, i2 - 1);
      var upleft := dp[(i1 - 1) % 3 + (i2 - 1) * 3];
      x := Min(left + 1, up + 1);
      if str1[i1 - 1] == str2[i2 - 1] {
        x := Min(x, upleft);
      } else {
        x := Min(x, upleft + 1);
      }
      if i1 > 1 && i2 > 1 && str1[i1 - 1] == str2[i2 - 2] && str1[i1 - 2] == str2[i2 - 1] {
        RowAt(dp[..], str1, str2, i1 - 2, |str2| + 1, i2 - 2);
        x := Min(x, dp[(i1 - 2) % 3 + (i2 - 2) * 3] + 1);
      }
      CellIs(str1, str2, i1, i2, x);
    }
  }
}
