/** The list of added sub-ranges that DisjointSequence::insert_i can return. */
module RangeGaps {
  import opened SequenceRanges
  import opened RangeInsertion
  import opened RangeQueries

  function Min(a: int, b: int): int { if a < b then a else b }

  /** The gaps collected from range i of the window on, the range before it ending at `last`. */
  function RestGaps(s: seq<SequenceRange>, i: nat, above: nat, last: nat, second: nat): seq<SequenceRange>
    requires 1 <= i <= above <= |s| && forall j :: i <= j < above ==> 1 <= s[j].first
    decreases above - i
  {
    if i == above then
      if last < second then [SequenceRange(Next(last), second)] else []
    else
      [SequenceRange(Next(last), Min(Previous(s[i].first), second))]
      + RestGaps(s, i + 1, above, s[i].second, second)
  }

  /** The first gap ends below the end of the first range of the window, not below its start. */
  function FirstGap(s: seq<SequenceRange>, r: SequenceRange, below: nat): seq<SequenceRange>
    requires below < |s|
  {
    if r.first < s[below].second then [SequenceRange(r.first, Previous(s[below].second))] else []
  }

  /** Everything reported as added when the window [below, above) is not empty. */
  function Gaps(s: seq<SequenceRange>, r: SequenceRange, below: nat, above: nat): seq<SequenceRange>
    requires below < above <= |s| && forall j :: below < j < above ==> 1 <= s[j].first
  {
    FirstGap(s, r, below) + RestGaps(s, below + 1, above, s[below].second, r.second)
  }

  ghost predicate IsNew(s: seq<SequenceRange>, r: SequenceRange, x: int) {
    r.first <= x <= r.second && !Has(s, x)
  }

  /** What r absorbs first ends at or before its start, or is a single number other than 1. */
  ghost predicate FirstGapRight(s: seq<SequenceRange>, r: SequenceRange, below: nat)
    requires below < |s|
  {
    s[below].second <= r.first || s[below].first == s[below].second != 1
  }

  lemma PositiveStarts(s: seq<SequenceRange>, below: nat)
    requires Separated(s)
    ensures forall j :: below < j < |s| ==> 1 <= s[j].first
  {
    forall j | below < j < |s| ensures 1 <= s[j].first { assert Apart(s[below], s[j]); }
  }

  lemma HasConcat(s: seq<SequenceRange>, t: seq<SequenceRange>, x: int)
    ensures Has(s + t, x) <==> Has(s, x) || Has(t, x)
  {
    var u := s + t;
    assert forall i :: 0 <= i < |s| ==> u[i] == s[i];
    assert forall i :: 0 <= i < |t| ==> u[|s| + i] == t[i];
  }

  lemma GapBefore(s: seq<SequenceRange>, i: nat)
    requires Separated(s) && 1 <= i < |s| && (Normal(s) || 2 <= i)
    ensures s[i - 1].second + 1 < s[i].first <= s[i].second
  {
    assert Apart(s[i - 1], s[i]);
    if 2 <= i { assert Apart(s[0], s[i - 1]); }
  }

  /** The later gaps are exactly what is missing above the range before them. */
  lemma {:induction false} RestExact(s: seq<SequenceRange>, i: nat, above: nat, second: nat, x: int)
    requires Separated(s) && 1 <= i <= above <= |s| && (Normal(s) || 2 <= i)
    requires forall j :: i <= j < above ==> 1 <= s[j].first <= second + 1
    requires above < |s| ==> second < s[above].first
    requires second <= MAX_VALUE
    ensures Has(RestGaps(s, i, above, s[i - 1].second, second), x) <==> s[i - 1].second < x <= second && !Has(s, x)
    decreases above - i
  {
    var rest := RestGaps(s, i, above, s[i - 1].second, second);
    if i == above {
      NothingBetween(s, i, second, x);
      if rest != [] { HasCons(rest, x); }
    } else {
      GapBefore(s, i);
      RestExact(s, i + 1, above, second, x);
      var gap := SequenceRange(s[i - 1].second + 1, s[i].first - 1);
      assert rest == [gap] + RestGaps(s, i + 1, above, s[i].second, second);
      HasCons(rest, x);
      NothingBetween(s, i, s[i].first - 1, x);
      hide RestGaps, Separated, Normal;
      assert s[i].first <= x <= s[i].second ==> Has(s, x);
    }
  }

  /** Between range i - 1 and range i there are no members. */
  lemma NothingBetween(s: seq<SequenceRange>, i: nat, to: int, x: int)
    requires Separated(s) && 1 <= i <= |s| && (i < |s| ==> to < s[i].first)
    ensures s[i - 1].second < x <= to ==> !Has(s, x)
  {
    if s[i - 1].second < x <= to {
      forall j | 0 <= j < |s| ensures !(s[j].first <= x <= s[j].second) {
        if j < i - 1 { assert Apart(s[j], s[i - 1]); }
        if i < j { assert Apart(s[i], s[j]); }
      }
    }
  }

  /** What the window of a searched insertion tells about its neighbourhood. */
  lemma WindowNeighbours(s: seq<SequenceRange>, r: SequenceRange, a: nat, below: nat, above: nat, n: SequenceRange)
    requires Separated(s) && r.first <= r.second && MergeWindow(s, r, a, below, above, n) && below < above <= |s|
    ensures r.first <= s[below].second + 1
    ensures forall j :: below <= j < above ==> s[j].first <= r.second + 1
    ensures above < |s| ==> r.second < s[above].first
    ensures 0 < below ==> s[below - 1].second < r.first
  {
    MergeWindowShape(s, r, a, below, above, n);
    if above < |s| { assert Apart(n, s[above]); }
    forall j | below <= j < above ensures s[j].first <= r.second + 1 {
      if j < a < |s| { assert Apart(s[j], s[a]); }
    }
  }

  /** Up to the end of the first absorbed range, the first gap is right iff FirstGapRight. */
  lemma FirstExactIff(s: seq<SequenceRange>, r: SequenceRange, below: nat)
    requires Separated(s) && r.first <= r.second && below < |s| && r.second <= MAX_VALUE
    requires r.first <= s[below].second + 1 && s[below].first <= r.second + 1
    requires 0 < below ==> s[below - 1].second < r.first
    ensures (forall x :: Has(FirstGap(s, r, below), x) <==> IsNew(s, r, x) && x <= s[below].second)
            <==> FirstGapRight(s, r, below)
    ensures !FirstGapRight(s, r, below) ==> exists x :: Has(FirstGap(s, r, below), x) && !IsNew(s, r, x)
  {
    var gap, b := FirstGap(s, r, below), s[below];
    if b.second <= r.first {
      forall x ensures !(IsNew(s, r, x) && x <= b.second) {
        assert b.first <= x <= b.second ==> Has(s, x);
      }
    } else {
      var wrong := if b.second == 1 then 1 else b.second - 1;
      HasCons(gap, wrong);
      if b.first < b.second && b.second != 1 {
        assert Has(gap, wrong) && Has(s, wrong) by { assert b.first <= wrong <= b.second; }
      } else if b.second == 1 {
        assert Has(gap, wrong) && Has(s, wrong) by { assert b.first <= wrong <= b.second; }
      } else {
        forall x ensures Has(gap, x) <==> IsNew(s, r, x) && x <= b.second {
          HasCons(gap, x);
          if 0 < below { NothingBetween(s, below, b.first - 1, x); } else { LowIsLeast(s); }
          assert x == b.second ==> Has(s, x);
        }
      }
    }
  }

  /** The sub-ranges reported as added are exactly what is new iff the first gap is right and 0 and 1 are not among
      the ranges absorbed without having been merged. */
  lemma GapsExactIff(s: seq<SequenceRange>, r: SequenceRange, a: nat, below: nat, above: nat, n: SequenceRange)
    requires Separated(s) && r.first <= r.second <= MAX_VALUE
    requires MergeWindow(s, r, a, below, above, n) && below < above <= |s|
    requires forall j :: below < j < above ==> 1 <= s[j].first
    ensures (forall x :: Has(Gaps(s, r, below, above), x) <==> IsNew(s, r, x))
            <==> FirstGapRight(s, r, below) && (Normal(s) || 2 <= r.first)
  {
    WindowNeighbours(s, r, a, below, above, n);
    FirstExactIff(s, r, below);
    var first, rest := FirstGap(s, r, below), RestGaps(s, below + 1, above, s[below].second, r.second);
    forall x ensures Has(Gaps(s, r, below, above), x) <==> Has(first, x) || Has(rest, x) { HasConcat(first, rest, x); }
    if Normal(s) || 2 <= r.first {
      NormalIffZeroMerged(s);
      assert Normal(s) || 1 <= below;
      forall x ensures Has(rest, x) <==> IsNew(s, r, x) && s[below].second < x {
        RestExact(s, below + 1, above, r.second, x);
      }
      hide Has, FirstGapRight, FirstGap, RestGaps, Gaps, MergeWindow;
    } else {
      UnmergedGap(s, r, a, below, above, n);
    }
  }

  /** With 0 and 1 unmerged, the gap between them is reported to reach to the end of r. */
  lemma UnmergedGap(s: seq<SequenceRange>, r: SequenceRange, a: nat, below: nat, above: nat, n: SequenceRange)
    requires Separated(s) && !Normal(s) && r.first <= 1 && r.first <= r.second <= MAX_VALUE
    requires MergeWindow(s, r, a, below, above, n) && below < above <= |s|
    requires forall j :: below < j < above ==> 1 <= s[j].first
    ensures Has(Gaps(s, r, below, above), 1) && Has(s, 1)
  {
    NormalIffZeroMerged(s);
    assert below == 0 && 2 <= above;
    var rest := RestGaps(s, 1, above, 0, r.second);
    assert rest[0] == SequenceRange(1, r.second);
    HasCons(rest, 1);
    HasConcat(FirstGap(s, r, 0), rest, 1);
    assert s[1].first <= 1 <= s[1].second;
  }

  // ---- In terms of the set ----

  /** Nothing in or next to r is a member, but something above it is. */
  ghost predicate Overruns(s: seq<SequenceRange>, r: SequenceRange) {
    (exists x :: r.second + 1 < x && Has(s, x)) && forall x :: r.first - 1 <= x <= r.second + 1 ==> !Has(s, x)
  }

  ghost predicate Spanned(s: seq<SequenceRange>, r: SequenceRange) {
    exists i :: 0 <= i < |s| && s[i].first <= r.first && r.second <= s[i].second
  }

  /** r is present, or it touches a range and the first one it touches makes the first gap right. */
  ghost predicate ReportsAll(s: seq<SequenceRange>, r: SequenceRange) {
    || Spanned(s, r)
    || exists k: nat :: k < |s| && IsLowerBound(s, r.first - 1, k) && s[k].first <= r.second + 1
                        && FirstGapRight(s, r, k) && (Normal(s) || 2 <= r.first)
  }

  ghost predicate ReportsExactly(s: seq<SequenceRange>, r: SequenceRange, gaps: seq<SequenceRange>) {
    forall x :: Has(gaps, x) <==> IsNew(s, r, x)
  }

  lemma SpannedReports(s: seq<SequenceRange>, r: SequenceRange, a: nat)
    requires a < |s| && s[a].first <= r.first <= r.second <= s[a].second
    ensures ReportsExactly(s, r, []) && ReportsAll(s, r) && !Overruns(s, r)
  {
    forall x ensures !IsNew(s, r, x) { assert s[a].first <= x <= s[a].second ==> Has(s, x); }
    assert Has(s, r.first);
  }

  /** The list is walked past its end iff the window is empty and not at the end of the list. */
  lemma OverrunsIff(s: seq<SequenceRange>, r: SequenceRange, a: nat, below: nat, above: nat, n: SequenceRange)
    requires Separated(s) && r.first <= r.second && MergeWindow(s, r, a, below, above, n) && below <= above <= |s|
    ensures below == above < |s| <==> Overruns(s, r)
  {
    if below < above {
      WindowNeighbours(s, r, a, below, above, n);
      var b := s[below];
      var x := if b.first < r.first then r.first - 1 else b.first;
      assert b.first <= x <= b.second && Has(s, x);
    } else {
      MergeWindowShape(s, r, a, below, above, n);
      forall x | r.first - 1 <= x <= r.second + 1 ensures !Has(s, x) { NotNear(s, r, below, x); }
      if below < |s| {
        assert s[below].first <= s[below].second && Has(s, s[below].second);
      } else {
        forall x | Has(s, x) ensures x <= r.second + 1 {}
      }
    }
  }

  lemma NotNear(s: seq<SequenceRange>, r: SequenceRange, below: nat, x: int)
    requires Separated(s) && below <= |s| && r.first - 1 <= x <= r.second + 1
    requires forall i :: 0 <= i < below ==> s[i].second < r.first - 1
    requires below < |s| ==> r.second + 1 < s[below].first
    ensures !Has(s, x)
  {
    forall i | 0 <= i < |s| ensures !(s[i].first <= x <= s[i].second) {
      if below < i { assert Apart(s[below], s[i]); }
    }
  }

  /** At the end of the list nothing is reported although everything is new. */
  lemma EndReports(s: seq<SequenceRange>, r: SequenceRange, a: nat, below: nat, above: nat, n: SequenceRange)
    requires Separated(s) && r.first <= r.second && MergeWindow(s, r, a, below, above, n) && below == |s|
    ensures !ReportsExactly(s, r, []) && !ReportsAll(s, r)
  {
    assert !Has(s, r.second);
    assert IsNew(s, r, r.second) && !Has([], r.second);
  }

  lemma WindowReports(s: seq<SequenceRange>, r: SequenceRange, a: nat, below: nat, above: nat, n: SequenceRange)
    requires Separated(s) && r.first <= r.second <= MAX_VALUE
    requires MergeWindow(s, r, a, below, above, n) && below < above <= |s|
    requires forall j :: below < j < above ==> 1 <= s[j].first
    ensures ReportsExactly(s, r, Gaps(s, r, below, above)) <==> ReportsAll(s, r)
  {
    GapsExactIff(s, r, a, below, above, n);
    WindowNeighbours(s, r, a, below, above, n);
    NotSpanned(s, r, a);
    OnlyLowerBound(s, r.first - 1, below);
    hide Gaps, FirstGapRight, Separated, Normal, Has, IsNew, Spanned, IsLowerBound;
  }

  lemma NotSpanned(s: seq<SequenceRange>, r: SequenceRange, a: nat)
    requires Separated(s) && IsLowerBound(s, r.second, a) && !(a < |s| && s[a].first <= r.first) && r.first <= r.second
    ensures !Spanned(s, r)
  {
    forall i | 0 <= i < |s| ensures !(s[i].first <= r.first && r.second <= s[i].second) {
      if a < i { assert Apart(s[a], s[i]); }
    }
  }

  lemma OnlyLowerBound(s: seq<SequenceRange>, x: int, k: nat)
    requires IsLowerBound(s, x, k)
    ensures forall j: nat :: IsLowerBound(s, x, j) ==> j == k
  {
  }

  /** Everything a searched insertion that is past its early return does. */
  lemma WindowDone(s: seq<SequenceRange>, r: SequenceRange, a: nat, below: nat, above: nat, n: SequenceRange)
    requires Separated(s) && r.first <= r.second <= MAX_VALUE && MergeWindow(s, r, a, below, above, n)
    ensures below <= above <= |s| && (below == |s| ==> above == |s|)
    ensures forall i :: 0 <= i < below ==> s[i].second < n.second
    ensures forall i :: above <= i < |s| ==> n.second < s[i].second
    ensures Inserts(s, r, Splice(s, below, above, n), true)
    ensures below == above < |s| <==> Overruns(s, r)
    ensures below == |s| ==> !ReportsExactly(s, r, []) && !ReportsAll(s, r)
    ensures below < above ==>
              && (forall j :: below < j < above ==> 1 <= s[j].first)
              && (ReportsExactly(s, r, Gaps(s, r, below, above)) <==> ReportsAll(s, r))
  {
    hide Inserts, Overruns, ReportsExactly, ReportsAll, MergeWindow, Separated, Gaps;
    WindowInserts(s, r, a, below, above, n);
    OverrunsIff(s, r, a, below, above, n);
    PositiveStarts(s, below);
    if below == |s| { EndReports(s, r, a, below, above, n); }
    if below < above { WindowReports(s, r, a, below, above, n); }
  }
}
