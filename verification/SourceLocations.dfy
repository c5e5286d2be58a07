/**
 * Source ranges: their order, sorted sets of them, and the merging of
 * overlapping ones.
 */
module SourceLocations {
  import opened Util
  import opened ControlFlowGraph

  // ---------------------------------------------------------------- the order

  predicate StringLess(a: string, b: string) {
    b != "" && (a == "" || a[0] < b[0] || (a[0] == b[0] && StringLess(a[1..], b[1..])))
  }

  predicate RangeLess(a: SourceLocation, b: SourceLocation) {
    a.start < b.start || (a.start == b.start && a.end < b.end)
  }

  /** No source comes before every source. */
  predicate SourceLess(a: Option<string>, b: Option<string>) {
    if a.None? || b.None? then a.None? && b.Some? else StringLess(a.value, b.value)
  }

  predicate Less(a: SourceLocation, b: SourceLocation) {
    SourceLess(a.sourceName, b.sourceName) || (a.sourceName == b.sourceName && RangeLess(a, b))
  }

  lemma {:induction false} StringLessTotal(a: string, b: string)
    ensures a == b <==> !StringLess(a, b) && !StringLess(b, a)
    ensures !(StringLess(a, b) && StringLess(b, a))
  {
    if a != "" && b != "" {
      StringLessTotal(a[1..], b[1..]);
      assert a == [a[0]] + a[1..] && b == [b[0]] + b[1..];
    }
  }

  lemma {:induction false} StringLessTransitive(a: string, b: string, c: string)
    requires StringLess(a, b) && StringLess(b, c)
    ensures StringLess(a, c)
  {
    if a != "" && a[0] == b[0] == c[0] {
      StringLessTransitive(a[1..], b[1..], c[1..]);
    }
  }

  lemma LessTotal(a: SourceLocation, b: SourceLocation)
    ensures a == b <==> !Less(a, b) && !Less(b, a)
    ensures !(Less(a, b) && Less(b, a))
  {
    if a.sourceName.Some? && b.sourceName.Some? {
      StringLessTotal(a.sourceName.value, b.sourceName.value);
    }
  }

  lemma LessTransitive(a: SourceLocation, b: SourceLocation, c: SourceLocation)
    requires Less(a, b) && Less(b, c)
    ensures Less(a, c)
  {
    hide StringLess;
    if a.sourceName.Some? && b.sourceName.Some? && c.sourceName.Some? {
      if SourceLess(a.sourceName, b.sourceName) && SourceLess(b.sourceName, c.sourceName) {
        StringLessTransitive(a.sourceName.value, b.sourceName.value, c.sourceName.value);
      }
    }
  }

  // ------------------------------------------------------------- sorted sets

  ghost predicate Sorted(s: seq<SourceLocation>) {
    forall i, j :: 0 <= i < j < |s| ==> Less(s[i], s[j])
  }

  /** Insertion into a set kept in order. */
  function Insert(s: seq<SourceLocation>, x: SourceLocation): seq<SourceLocation> {
    if s == [] then [x]
    else if Less(s[0], x) then [s[0]] + Insert(s[1..], x)
    else if Less(x, s[0]) then [x] + s
    else s
  }

  lemma {:induction false} InsertMeaning(s: seq<SourceLocation>, x: SourceLocation)
    requires Sorted(s)
    ensures Sorted(Insert(s, x))
    ensures forall y :: y in Insert(s, x) <==> y == x || y in s
  {
    hide Less;
    if s != [] {
      LessTotal(s[0], x);
      var tail := s[1..];
      assert s == [s[0]] + tail;
      if Less(s[0], x) {
        InsertMeaning(tail, x);
        var r := Insert(tail, x);
        forall j | 0 <= j < |r| ensures Less(s[0], r[j]) {
          assert r[j] in r;
          if r[j] in tail {
            var k :| 0 <= k < |tail| && tail[k] == r[j];
            assert s[k + 1] == r[j];
          }
        }
      } else if Less(x, s[0]) {
        forall j | 0 <= j < |s| ensures Less(x, s[j]) {
          if j > 0 {
            LessTransitive(x, s[0], s[j]);
          }
        }
      }
    }
  }

  lemma LeastIsFirst(s: seq<SourceLocation>, x: SourceLocation)
    requires Sorted(s) && x in s
    ensures x == s[0] || (Less(s[0], x) && x in s[1..])
  {
    var k :| 0 <= k < |s| && s[k] == x;
    if k > 0 {
      assert s[1..][k - 1] == x;
    }
  }

  lemma FirstOnlyOnce(s: seq<SourceLocation>)
    requires Sorted(s) && s != []
    ensures s[0] !in s[1..]
  {
    if s[0] in s[1..] {
      var k :| 0 <= k < |s| - 1 && s[1..][k] == s[0];
      assert Less(s[0], s[k + 1]);
      LessTotal(s[0], s[0]);
    }
  }

  /** There is one sorted list of the elements of a set. */
  lemma {:induction false} SortedIsUnique(a: seq<SourceLocation>, b: seq<SourceLocation>)
    requires Sorted(a) && Sorted(b) && forall l :: l in a <==> l in b
    ensures a == b
  {
    hide Less;
    if a != [] || b != [] {
      assert a != [] ==> a[0] in a;
      assert b != [] ==> b[0] in b;
      LeastIsFirst(a, b[0]);
      LeastIsFirst(b, a[0]);
      LessTotal(a[0], b[0]);
      FirstOnlyOnce(a);
      FirstOnlyOnce(b);
      assert a == [a[0]] + a[1..] && b == [b[0]] + b[1..];
      forall l ensures l in a[1..] <==> l in b[1..] {
        assert l in a <==> l == a[0] || l in a[1..];
        assert l in b <==> l == b[0] || l in b[1..];
      }
      SortedIsUnique(a[1..], b[1..]);
    }
  }

  // ------------------------------------------------------------------ merging

  /** Extends each range as long as the next one starts no later than it ends. */
  function Merge(s: seq<SourceLocation>): seq<SourceLocation>
    decreases |s|, 1
  {
    if s == [] then [] else Absorb(s[0], s[1..])
  }

  function Absorb(location: SourceLocation, rest: seq<SourceLocation>): seq<SourceLocation>
    decreases |rest|, 2
  {
    if rest != [] && rest[0].start <= location.end
    then Absorb(Extended(location, rest[0]), rest[1..])
    else [location] + Merge(rest)
  }

  function Extended(location: SourceLocation, next: SourceLocation): SourceLocation {
    location.(end := if location.end < next.end then next.end else location.end)
  }

  method MergeRanges(unreachable: seq<SourceLocation>) returns (merged: seq<SourceLocation>)
    ensures merged == Merge(unreachable)
  {
    merged := [];
    var it := 0;
    while it < |unreachable|
      invariant 0 <= it <= |unreachable|
      invariant merged + Merge(unreachable[it..]) == Merge(unreachable)
    {
      var location := unreachable[it];
      it := it + 1;
      assert unreachable[it - 1..][1..] == unreachable[it..];
      while it < |unreachable| && unreachable[it].start <= location.end
        invariant 0 <= it <= |unreachable|
        invariant merged + Absorb(location, unreachable[it..]) == Merge(unreachable)
      {
        assert unreachable[it..][1..] == unreachable[it + 1..];
        location := Extended(location, unreachable[it]);
        it := it + 1;
      }
      merged := merged + [location];
    }
  }

  ghost predicate Covers(s: seq<SourceLocation>, source: Option<string>, offset: int) {
    exists i :: 0 <= i < |s| && s[i].sourceName == source && s[i].start <= offset < s[i].end
  }

  /** Sorted by source and start; ranges are not reversed. */
  ghost predicate Ordered(s: seq<SourceLocation>) {
    && (forall i, j :: 0 <= i < j < |s| ==>
         SourceLess(s[i].sourceName, s[j].sourceName)
             || (s[i].sourceName == s[j].sourceName && s[i].start <= s[j].start))
    && (forall i :: 0 <= i < |s| ==> s[i].start <= s[i].end)
  }

  /** A range that is not empty starts no later than a range of an earlier source ends. */
  ghost predicate Bridged(s: seq<SourceLocation>) {
    exists i, j :: BridgedAt(s, i, j)
  }

  ghost predicate BridgedAt(s: seq<SourceLocation>, i: int, j: int) {
    && 0 <= i < j < |s|
    && s[i].sourceName != s[j].sourceName
    && s[j].start < s[j].end && s[j].start <= s[i].end
  }

  /** Ranges of the same source are apart, and in order. */
  ghost predicate Separated(s: seq<SourceLocation>) {
    && (forall i, j :: 0 <= i < j < |s| ==>
         SourceLess(s[i].sourceName, s[j].sourceName) || (s[i].sourceName == s[j].sourceName && s[i].end < s[j].start))
    && (forall i :: 0 <= i < |s| ==> s[i].start <= s[i].end)
  }

  ghost predicate SameCover(s: seq<SourceLocation>, t: seq<SourceLocation>) {
    forall source, offset :: Covers(s, source, offset) <==> Covers(t, source, offset)
  }

  lemma SourcesDiffer(a: Option<string>, b: Option<string>)
    requires SourceLess(a, b)
    ensures a != b && !SourceLess(b, a)
  {
    if a.Some? {
      StringLessTotal(a.value, b.value);
    }
  }

  lemma OrderedTail(s: seq<SourceLocation>)
    requires s != [] && Ordered(s)
    ensures Ordered(s[1..])
  {
    hide SourceLess;
  }

  lemma CoversSplit(location: SourceLocation, rest: seq<SourceLocation>, source: Option<string>, offset: int)
    ensures Covers([location] + rest, source, offset) <==>
              (location.sourceName == source && location.start <= offset < location.end) || Covers(rest, source, offset)
  {
    var all := [location] + rest;
    if Covers(rest, source, offset) {
      var i :| 0 <= i < |rest| && rest[i].sourceName == source && rest[i].start <= offset < rest[i].end;
      assert all[i + 1] == rest[i];
    }
    if location.sourceName == source && location.start <= offset < location.end {
      assert all[0] == location;
    }
  }

  lemma FirstStartsFirst(location: SourceLocation, rest: seq<SourceLocation>)
    requires Ordered([location] + rest) && rest != [] && rest[0].sourceName == location.sourceName
    ensures location.start <= rest[0].start <= rest[0].end && location.start <= location.end
  {
    hide SourceLess;
    var s := [location] + rest;
    assert s[0] == location && s[1] == rest[0];
    if SourceLess(location.sourceName, rest[0].sourceName) {
      SourcesDiffer(location.sourceName, rest[0].sourceName);
    }
  }

  /** Replacing the first two ranges of a list by their union. */
  lemma AbsorbStep(location: SourceLocation, rest: seq<SourceLocation>)
    requires rest != [] && rest[0].start <= location.end && Ordered([location] + rest)
    requires rest[0].sourceName == location.sourceName
    ensures Ordered([Extended(location, rest[0])] + rest[1..])
    ensures Bridged([location] + rest) <==> Bridged([Extended(location, rest[0])] + rest[1..])
    ensures SameCover([location] + rest, [Extended(location, rest[0])] + rest[1..])
  {
    hide SourceLess;
    FirstStartsFirst(location, rest);
    AbsorbKeepsOrder(location, rest);
    AbsorbKeepsBridges(location, rest);
    hide Ordered, Bridged, Covers;
    var s, t := [location] + rest, [Extended(location, rest[0])] + rest[1..];
    assert rest == [rest[0]] + rest[1..];
    forall source, offset ensures Covers(s, source, offset) <==> Covers(t, source, offset) {
      CoversSplit(location, rest, source, offset);
      CoversSplit(rest[0], rest[1..], source, offset);
      CoversSplit(Extended(location, rest[0]), rest[1..], source, offset);
    }
  }

  lemma AbsorbKeepsOrder(location: SourceLocation, rest: seq<SourceLocation>)
    requires rest != [] && Ordered([location] + rest)
    requires rest[0].sourceName == location.sourceName && location.start <= rest[0].start
    ensures Ordered([Extended(location, rest[0])] + rest[1..])
  {
    hide SourceLess;
    var s, t := [location] + rest, [Extended(location, rest[0])] + rest[1..];
    assert s[0] == location && s[1] == rest[0] && t[0] == Extended(location, rest[0]);
    assert forall i :: 1 <= i < |t| ==> t[i] == s[i + 1];
  }

  lemma AbsorbKeepsBridges(location: SourceLocation, rest: seq<SourceLocation>)
    requires rest != [] && rest[0].sourceName == location.sourceName
    ensures Bridged([location] + rest) <==> Bridged([Extended(location, rest[0])] + rest[1..])
  {
    var s, t := [location] + rest, [Extended(location, rest[0])] + rest[1..];
    assert s[0] == location && s[1] == rest[0] && t[0] == Extended(location, rest[0]);
    assert forall i :: 1 <= i < |t| ==> t[i] == s[i + 1];
    if Bridged(s) {
      var i, j :| BridgedAt(s, i, j);
      if i <= 1 {
        assert BridgedAt(t, 0, j - 1);
      } else {
        assert BridgedAt(t, i - 1, j - 1);
      }
    }
    if Bridged(t) {
      var i, j :| BridgedAt(t, i, j);
      if i == 0 {
        assert BridgedAt(s, 0, j + 1) || BridgedAt(s, 1, j + 1);
      } else {
        assert BridgedAt(s, i + 1, j + 1);
      }
    }
  }

  /** An empty range of another source that is run over makes no difference. */
  lemma DropEmpty(location: SourceLocation, rest: seq<SourceLocation>)
    requires rest != [] && Ordered([location] + rest)
    requires rest[0].sourceName != location.sourceName && rest[0].start == rest[0].end <= location.end
    ensures Extended(location, rest[0]) == location && Ordered([location] + rest[1..])
    ensures Bridged([location] + rest) <==> Bridged([location] + rest[1..])
    ensures SameCover([location] + rest, [location] + rest[1..])
  {
    hide SourceLess;
    var s, t := [location] + rest, [location] + rest[1..];
    assert s[0] == location && s[1] == rest[0] && t[0] == location;
    assert forall i :: 1 <= i < |t| ==> t[i] == s[i + 1];
    DropKeepsBridges(location, rest);
    hide Ordered, Bridged, Covers;
    assert rest == [rest[0]] + rest[1..];
    forall source, offset ensures Covers(s, source, offset) <==> Covers(t, source, offset) {
      CoversSplit(location, rest, source, offset);
      CoversSplit(rest[0], rest[1..], source, offset);
      CoversSplit(location, rest[1..], source, offset);
    }
  }

  lemma DropKeepsBridges(location: SourceLocation, rest: seq<SourceLocation>)
    requires rest != [] && Ordered([location] + rest)
    requires rest[0].sourceName != location.sourceName && rest[0].start == rest[0].end <= location.end
    ensures Bridged([location] + rest) <==> Bridged([location] + rest[1..])
  {
    hide SourceLess;
    var s, t := [location] + rest, [location] + rest[1..];
    assert s[0] == location && s[1] == rest[0] && t[0] == location;
    assert forall i :: 1 <= i < |t| ==> t[i] == s[i + 1];
    if Bridged(s) {
      var i, j :| BridgedAt(s, i, j);
      if i <= 1 {
        if s[j].sourceName == location.sourceName {
          SourcesBetween(s, 0, 1, j);
        }
        assert BridgedAt(t, 0, j - 1);
      } else {
        assert BridgedAt(t, i - 1, j - 1);
      }
    }
    if Bridged(t) {
      var i, j :| BridgedAt(t, i, j);
      assert BridgedAt(s, if i == 0 then 0 else i + 1, j + 1);
    }
  }

  lemma NotBridgedTail(location: SourceLocation, rest: seq<SourceLocation>)
    requires !Bridged([location] + rest)
    ensures !Bridged(rest)
  {
    if Bridged(rest) {
      var i, j :| BridgedAt(rest, i, j);
      assert BridgedAt([location] + rest, i + 1, j + 1);
    }
  }

  /** Where sources are not bridged, merging loses nothing, adds nothing and leaves gaps. */
  lemma {:induction false} MergeExact(s: seq<SourceLocation>)
    requires Ordered(s) && !Bridged(s)
    ensures Separated(Merge(s)) && SameCover(s, Merge(s))
    ensures s != [] ==> Merge(s) != [] && Merge(s)[0].sourceName == s[0].sourceName && Merge(s)[0].start == s[0].start
    decreases |s|, 1
  {
    if s != [] {
      assert s == [s[0]] + s[1..];
      AbsorbExact(s[0], s[1..]);
    }
  }

  lemma {:induction false} AbsorbExact(location: SourceLocation, rest: seq<SourceLocation>)
    requires Ordered([location] + rest) && !Bridged([location] + rest)
    ensures Separated(Absorb(location, rest)) && SameCover([location] + rest, Absorb(location, rest))
    ensures var r := Absorb(location, rest);
            r != [] && r[0].sourceName == location.sourceName && r[0].start == location.start
    decreases |rest|, 2
  {
    hide SourceLess, Ordered, Separated, Bridged, Covers;
    if rest != [] && rest[0].start <= location.end {
      if rest[0].sourceName == location.sourceName {
        AbsorbStep(location, rest);
      } else {
        OthersAreEmpty(location, rest);
        DropEmpty(location, rest);
      }
      AbsorbExact(Extended(location, rest[0]), rest[1..]);
    } else {
      assert ([location] + rest)[1..] == rest;
      OrderedTail([location] + rest);
      NotBridgedTail(location, rest);
      MergeExact(rest);
      SeparatedFront(location, rest, Merge(rest));
      forall source, offset
          ensures Covers([location] + rest, source, offset) <==> Covers([location] + Merge(rest), source, offset) {
        CoversSplit(location, rest, source, offset);
        CoversSplit(location, Merge(rest), source, offset);
      }
    }
  }

  lemma OthersAreEmpty(location: SourceLocation, rest: seq<SourceLocation>)
    requires Ordered([location] + rest) && !Bridged([location] + rest)
    requires rest != [] && rest[0].start <= location.end && rest[0].sourceName != location.sourceName
    ensures rest[0].start == rest[0].end
  {
    var s := [location] + rest;
    assert s[0] == location && s[1] == rest[0];
    if rest[0].start < rest[0].end {
      assert BridgedAt(s, 0, 1);
    }
  }

  lemma SeparatedFront(location: SourceLocation, rest: seq<SourceLocation>, merged: seq<SourceLocation>)
    requires Ordered([location] + rest) && (rest == [] || location.end < rest[0].start) && Separated(merged)
    requires if rest == [] then merged == []
             else merged != [] && merged[0].sourceName == rest[0].sourceName && merged[0].start == rest[0].start
    ensures Separated([location] + merged)
  {
    var s, r := [location] + rest, [location] + merged;
    assert s[0] == location;
    if rest != [] {
      assert s[1] == rest[0];
      forall j | 1 <= j < |r|
        ensures SourceLess(r[0].sourceName, r[j].sourceName)
                || (r[0].sourceName == r[j].sourceName && r[0].end < r[j].start)
      {
        assert r[j] == merged[j - 1];
        if j > 1 && location.sourceName != merged[0].sourceName {
          SourceLessTransitive(location.sourceName, merged[0].sourceName, merged[j - 1].sourceName);
        }
      }
    }
  }

  lemma SourceLessTransitive(a: Option<string>, b: Option<string>, c: Option<string>)
    requires SourceLess(a, b) && (b == c || SourceLess(b, c))
    ensures SourceLess(a, c)
  {
    if a.Some? && b != c {
      StringLessTransitive(a.value, b.value, c.value);
    }
  }

  /** Every merged range starts where a range of the same source starts. */
  lemma {:induction false} MergeStarts(s: seq<SourceLocation>, i: int)
    requires 0 <= i < |Merge(s)|
    ensures exists j :: 0 <= j < |s| && s[j].sourceName == Merge(s)[i].sourceName && s[j].start == Merge(s)[i].start
    decreases |s|, 1
  {
    AbsorbStarts(s[0], s[1..], i);
    if i > 0 {
      var j :| 0 <= j < |s[1..]| && s[1..][j].sourceName == Merge(s)[i].sourceName
          && s[1..][j].start == Merge(s)[i].start;
      assert s[j + 1] == s[1..][j];
    }
  }

  lemma {:induction false} AbsorbStarts(location: SourceLocation, rest: seq<SourceLocation>, i: int)
    requires 0 <= i < |Absorb(location, rest)|
    ensures var r := Absorb(location, rest)[i];
            if i == 0 then r.sourceName == location.sourceName && r.start == location.start
            else exists j :: 0 <= j < |rest| && rest[j].sourceName == r.sourceName && rest[j].start == r.start
    decreases |rest|, 2
  {
    if rest != [] && rest[0].start <= location.end {
      AbsorbStarts(Extended(location, rest[0]), rest[1..], i);
      if i > 0 {
        var r := Absorb(location, rest)[i];
        var j :| 0 <= j < |rest[1..]| && rest[1..][j].sourceName == r.sourceName && rest[1..][j].start == r.start;
        assert rest[j + 1] == rest[1..][j];
      }
    } else if i > 0 {
      MergeStarts(rest, i - 1);
    }
  }

  /** Nothing of a source that has been run over starts before the end of what ran over it. */
  lemma {:induction false} AbsorbSkips(location: SourceLocation, rest: seq<SourceLocation>, source: Option<string>,
                                       offset: int)
    requires Ordered(rest) && location.sourceName != source && offset <= location.end
    requires rest != [] && rest[0].sourceName != source ==> forall j :: 0 <= j < |rest| ==> rest[j].sourceName != source
    ensures !Covers(Absorb(location, rest), source, offset)
    decreases |rest|
  {
    if rest != [] && rest[0].start <= location.end {
      OrderedTail(rest);
      if rest[0].sourceName == source && |rest| > 1 && rest[1].sourceName != source {
        forall j | 1 <= j < |rest| ensures rest[j].sourceName != source {
          if rest[j].sourceName == source {
            SourcesBetween(rest, 0, 1, j);
          }
        }
      }
      AbsorbSkips(Extended(location, rest[0]), rest[1..], source, offset);
    } else {
      var r := Absorb(location, rest);
      forall i | 0 <= i < |r| && r[i].sourceName == source ensures r[i].start > offset {
        AbsorbStarts(location, rest, i);
        var j :| 0 <= j < |rest| && rest[j].sourceName == source && rest[j].start == r[i].start;
        if j > 0 && SourceLess(rest[0].sourceName, source) {
          SourcesDiffer(rest[0].sourceName, source);
        }
      }
    }
  }

  /** Where sources are bridged, merging loses a range of the later source. */
  lemma {:induction false} MergeLoses(s: seq<SourceLocation>) returns (source: Option<string>, offset: int)
    requires Ordered(s) && Bridged(s)
    ensures Covers(s, source, offset) && !Covers(Merge(s), source, offset)
    decreases |s|, 1
  {
    assert s == [s[0]] + s[1..];
    source, offset := AbsorbLoses(s[0], s[1..]);
  }

  lemma {:induction false} AbsorbLoses(location: SourceLocation, rest: seq<SourceLocation>)
      returns (source: Option<string>, offset: int)
    requires Ordered([location] + rest) && Bridged([location] + rest)
    ensures Covers([location] + rest, source, offset) && !Covers(Absorb(location, rest), source, offset)
    decreases |rest|, 2
  {
    hide SourceLess, Covers, Ordered, Merge;
    var s := [location] + rest;
    assert s[1..] == rest;
    OrderedTail(s);
    assert rest != [] && s[1] == rest[0] && s[0] == location;
    if location.end < rest[0].start {
      BridgedTail(location, rest);
      source, offset := MergeLoses(rest);
      CoversSplit(location, rest, source, offset);
      CoversSplit(location, Merge(rest), source, offset);
      FrontIsElsewhere(location, rest, source, offset);
    } else if rest[0].sourceName != location.sourceName && rest[0].start < rest[0].end {
      source, offset := rest[0].sourceName, rest[0].start;
      AbsorbSkips(location, rest, source, offset);
      CoversSplit(location, rest, source, offset);
      CoversAt(rest, 0);
    } else {
      if rest[0].sourceName == location.sourceName {
        AbsorbStep(location, rest);
      } else {
        NotReversed(s, 1);
        DropEmpty(location, rest);
      }
      source, offset := AbsorbLoses(Extended(location, rest[0]), rest[1..]);
    }
  }

  lemma NotReversed(s: seq<SourceLocation>, i: int)
    requires Ordered(s) && 0 <= i < |s|
    ensures s[i].start <= s[i].end
  {
  }

  lemma CoversAt(s: seq<SourceLocation>, i: int)
    requires 0 <= i < |s| && s[i].start < s[i].end
    ensures Covers(s, s[i].sourceName, s[i].start)
  {
  }

  lemma BridgedTail(location: SourceLocation, rest: seq<SourceLocation>)
    requires Ordered([location] + rest) && Bridged([location] + rest)
    requires rest != [] && location.end < rest[0].start
    ensures Bridged(rest)
  {
    hide SourceLess;
    var s := [location] + rest;
    assert s[0] == location && s[1] == rest[0];
    assert forall k :: 1 <= k < |s| ==> s[k] == rest[k - 1];
    var i, j :| BridgedAt(s, i, j);
    if i > 0 {
      assert BridgedAt(rest, i - 1, j - 1);
    } else {
      assert j > 1;
      if s[1].sourceName == s[j].sourceName && SourceLess(s[1].sourceName, s[j].sourceName) {
        SourcesDiffer(s[1].sourceName, s[j].sourceName);
      }
      assert BridgedAt(rest, 0, j - 1);
    }
  }

  lemma SourcesBetween(s: seq<SourceLocation>, i: int, j: int, k: int)
    requires Ordered(s) && 0 <= i <= j <= k < |s| && s[i].sourceName == s[k].sourceName
    ensures s[j].sourceName == s[i].sourceName
  {
    if s[j].sourceName != s[i].sourceName {
      SourcesDiffer(s[i].sourceName, s[j].sourceName);
    }
  }

  lemma FrontIsElsewhere(location: SourceLocation, rest: seq<SourceLocation>, source: Option<string>, offset: int)
    requires Ordered([location] + rest) && rest != [] && location.end < rest[0].start && Covers(rest, source, offset)
    ensures !(location.sourceName == source && location.start <= offset < location.end)
  {
    var s := [location] + rest;
    var i :| 0 <= i < |rest| && rest[i].sourceName == source && rest[i].start <= offset < rest[i].end;
    assert s[0] == location && s[1] == rest[0] && s[i + 1] == rest[i];
    if location.sourceName == source {
      SourcesBetween(s, 0, 1, i + 1);
      if i > 0 && SourceLess(s[1].sourceName, s[i + 1].sourceName) {
        SourcesDiffer(s[1].sourceName, s[i + 1].sourceName);
      }
    }
  }
}
