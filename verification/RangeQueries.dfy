/** What the queries of DisjointSequence answer, on every list its operations can leave behind. */
module RangeQueries {
  import opened SequenceRanges
  import opened RangeInsertion

  lemma LowIsLeast(s: seq<SequenceRange>)
    requires Separated(s) && s != []
    ensures Has(s, s[0].first) && forall y :: Has(s, y) ==> s[0].first <= y
  {
  }

  lemma HighIsGreatest(s: seq<SequenceRange>)
    requires Separated(s) && s != []
    ensures Has(s, s[|s| - 1].second) && forall y :: Has(s, y) ==> y <= s[|s| - 1].second
  {
    assert s[|s| - 1].first <= s[|s| - 1].second;
  }

  /** The number after the lowest range is missing iff 0 and 1 are merged. */
  lemma HoleAfterLowest(s: seq<SequenceRange>)
    requires Separated(s) && s != []
    ensures !Has(s, s[0].second + 1) <==> Normal(s)
  {
    NormalIffZeroMerged(s);
    if !Normal(s) { assert s[1].first <= s[0].second + 1 <= s[1].second; }
  }

  /** The number before the highest range is missing unless that range is the one 0 was not merged with. */
  lemma HoleBeforeHighest(s: seq<SequenceRange>)
    requires Separated(s) && s != []
    ensures !Has(s, s[|s| - 1].first - 1) <==> Normal(s) || |s| > 2
  {
    NormalIffZeroMerged(s);
    var n := |s| - 1;
    if Normal(s) || |s| > 2 {
      forall i | 0 <= i < |s| ensures !(s[i].first <= s[n].first - 1 <= s[i].second) {
        if i < n {
          assert Apart(s[i], s[n]);
          if i == 0 && 1 < n { assert Apart(s[0], s[1]) && Apart(s[1], s[n]); }
        }
      }
    } else {
      assert s[0].first <= s[n].first - 1 <= s[0].second;
    }
  }

  /** More than one range means a gap, except on a list of two that only the missing merge keeps apart. */
  lemma GapIffManyRanges(s: seq<SequenceRange>)
    requires Separated(s)
    ensures (|s| > 1 <==> s != [] && exists x :: s[0].first < x < s[|s| - 1].second && !Has(s, x))
            <==> Normal(s) || |s| > 2
  {
    if |s| > 1 {
      HoleBeforeHighest(s);
      var hole := s[|s| - 1].first - 1;
      NormalIffZeroMerged(s);
      if Normal(s) || |s| > 2 {
        assert Apart(s[0], s[|s| - 1]);
        if |s| > 2 { assert Apart(s[0], s[1]) && Apart(s[1], s[|s| - 1]); }
        assert s[0].first < hole < s[|s| - 1].second && !Has(s, hole);
      } else {
        forall x | s[0].first < x < s[|s| - 1].second ensures Has(s, x) {
          assert s[1].first <= x <= s[1].second;
        }
      }
    }
  }

  // ---- Missing ranges ----

  /** SequenceNumber::previous, which wraps below 1. */
  function Previous(x: nat): int { if x == 1 then MAX_VALUE else x - 1 }

  /** What missing_sequence_ranges has collected after looking at the first n ranges. */
  function Missed(s: seq<SequenceRange>, n: nat): seq<SequenceRange>
    requires n <= |s|
  {
    if n <= 1 then []
    else
      var low, high := Next(s[n - 2].second), Previous(s[n - 1].first);
      Missed(s, n - 1) + if low <= high then [SequenceRange(low, high)] else []
  }

  /** `missing` is the normal list of the gaps below range n. */
  ghost predicate GapsBelow(s: seq<SequenceRange>, n: nat, missing: seq<SequenceRange>)
    requires 1 <= n <= |s|
  {
    && Normal(missing)
    && (missing != [] ==> missing[|missing| - 1].second < s[n - 1].first)
    && (forall x :: Has(missing, x) <==> s[0].first <= x <= s[n - 1].second && !Has(s, x))
  }

  lemma NextGap(s: seq<SequenceRange>, n: nat, missing: seq<SequenceRange>)
    requires Normal(s) && 1 <= n < |s| && GapsBelow(s, n, missing)
    ensures var gap := SequenceRange(s[n - 1].second + 1, s[n].first - 1);
            gap.first <= gap.second && GapsBelow(s, n + 1, missing + [gap])
  {
    var gap := SequenceRange(s[n - 1].second + 1, s[n].first - 1);
    var next := missing + [gap];
    assert forall i :: 0 <= i < |missing| ==> next[i] == missing[i];
    assert forall i :: 0 <= i < |missing| ==> missing[i].second <= missing[|missing| - 1].second;
    forall x ensures Has(next, x) <==> s[0].first <= x <= s[n].second && !Has(s, x) {
      assert next == Splice(missing, |missing|, |missing|, gap);
      HasSplice(missing, |missing|, |missing|, gap, x);
      if s[n - 1].second < x < s[n].first { assert !Has(s, x); }
      if s[n].first <= x <= s[n].second { assert Has(s, x); }
    }
  }

  lemma NoGapsYet(s: seq<SequenceRange>)
    requires Normal(s) && s != []
    ensures GapsBelow(s, 1, [])
  {
  }

  /** With all gaps collected, present and missing ranges partition the numbers from the lowest member to the
      highest. */
  lemma AllGaps(s: seq<SequenceRange>, missing: seq<SequenceRange>)
    requires Normal(s)
    requires if |s| <= 1 then missing == [] else GapsBelow(s, |s|, missing)
    ensures Normal(missing)
    ensures forall x :: Has(missing, x) <==> s != [] && s[0].first <= x <= s[|s| - 1].second && !Has(s, x)
  {
    if |s| == 1 {
      forall x | s[0].first <= x <= s[0].second ensures Has(s, x) { }
    }
  }

  /** On a normal list the ranges collected are the gaps. */
  lemma {:induction false} MissedGaps(s: seq<SequenceRange>, n: nat)
    requires Normal(s) && 1 <= n <= |s| && s[|s| - 1].second <= MAX_VALUE
    ensures GapsBelow(s, n, Missed(s, n))
  {
    hide GapsBelow;
    if n == 1 {
      NoGapsYet(s);
    } else {
      MissedGaps(s, n - 1);
      NextGap(s, n - 1, Missed(s, n - 1));
    }
  }

  /** On any other list the wrapped range [1 .. MAX_VALUE] comes first. */
  lemma {:induction false} MissedShift(s: seq<SequenceRange>, n: nat)
    requires Separated(s) && !Normal(s) && 2 <= n <= |s|
    ensures Missed(s, n) == [SequenceRange(1, MAX_VALUE)] + Missed(s[1..], n - 1)
  {
    NormalIffZeroMerged(s);
    if n > 2 { MissedShift(s, n - 1); }
  }

  ghost predicate IsGap(s: seq<SequenceRange>, x: int) {
    s != [] && s[0].first <= x <= s[|s| - 1].second && !Has(s, x)
  }

  /** The missing ranges are exactly the gaps iff the list is in normal form; otherwise everything from 1 on is
      reported missing, ahead of the gaps. */
  lemma MissedExactIff(s: seq<SequenceRange>)
    requires Separated(s) && (s != [] ==> s[|s| - 1].second <= MAX_VALUE)
    ensures var missing := Missed(s, |s|);
            && (Normal(s) ==> Normal(missing))
            && ((forall x :: Has(missing, x) <==> IsGap(s, x)) <==> Normal(s))
            && (!Normal(s) ==>
                  && missing != [] && missing[0] == SequenceRange(1, MAX_VALUE)
                  && Normal(missing[1..]) && forall x :: Has(missing[1..], x) <==> IsGap(s, x))
  {
    hide GapsBelow, Missed;
    if Normal(s) {
      NormalMissed(s);
    } else {
      NormalIffZeroMerged(s);
      var t, missing := s[1..], Missed(s, |s|);
      TailNormal(s);
      MissedShift(s, |s|);
      NormalMissed(t);
      assert missing[1..] == Missed(t, |t|);
      forall x ensures IsGap(s, x) <==> IsGap(t, x) { HasTail(s, x); }
      assert Has(missing, 1) && Has(s, 1);
    }
  }

  lemma NormalMissed(s: seq<SequenceRange>)
    requires Normal(s) && (s != [] ==> s[|s| - 1].second <= MAX_VALUE)
    ensures Normal(Missed(s, |s|)) && forall x :: Has(Missed(s, |s|), x) <==> IsGap(s, x)
  {
    if s != [] { MissedGaps(s, |s|); }
    AllGaps(s, Missed(s, |s|));
  }
}
