/** What replacing a window of ranges does to a list: the two ways DisjointSequence inserts a range. */
module RangeInsertion {
  import opened SequenceRanges

  /** The lowest range is exactly [0..0] and the new range starts at 1: insert_bitmap_range computes
      first - 1 == 0, which the SequenceNumber constructor clamps to 1, so it does not see the neighbour. */
  predicate ClampMiss(s: seq<SequenceRange>, first: nat) {
    first == 1 && s != [] && s[0].second == 0
  }

  /** Conversion of a raw value to SequenceNumber: values below 1 become 1. */
  function Clamp(x: int): nat { if x < 1 then 1 else x }

  /** Pre-increment of a SequenceNumber. */
  function Next(x: nat): nat { if x == MAX_VALUE then 1 else x + 1 }

  /** lower_bound on the high end decides coverage: r is in the set iff that one range spans it. */
  lemma CoveredByLowerBound(s: seq<SequenceRange>, r: SequenceRange, k: nat)
    requires Separated(s) && r.first <= r.second && (Normal(s) || 1 <= r.first)
    requires IsLowerBound(s, r.second, k)
    ensures (k < |s| && s[k].first <= r.first) <==> forall x :: r.first <= x <= r.second ==> Has(s, x)
  {
    if !(k < |s| && s[k].first <= r.first) {
      // the number just below range k, or r.second itself, is a hole
      var hole := if k < |s| && s[k].first <= r.second then s[k].first - 1 else r.second;
      assert !Has(s, hole);
    }
  }

  /** The window [below, above) of ranges that a searched insertion of r replaces by n. */
  ghost predicate MergeWindow(s: seq<SequenceRange>, r: SequenceRange, a: nat, below: nat, above: nat,
                              n: SequenceRange)
  {
    && IsLowerBound(s, r.second, a)
    && IsLowerBound(s, r.first - 1, below)
    && !(a < |s| && s[a].first <= r.first)
    && var merges := a < |s| && s[a].first <= r.second + 1;
    && above == (if merges then a + 1 else a)
    && n.second == (if merges then s[a].second else r.second)
    && n.first == (if below < |s| && s[below].first < r.first then s[below].first else r.first)
  }

  /** What lies below, inside and above the window. */
  lemma MergeWindowShape(s: seq<SequenceRange>, r: SequenceRange, a: nat, below: nat, above: nat, n: SequenceRange)
    requires Separated(s) && r.first <= r.second
    requires MergeWindow(s, r, a, below, above, n)
    ensures below <= above <= |s| && (below == |s| ==> above == |s|)
    ensures n.first <= r.first && r.second <= n.second
    ensures forall i :: 0 <= i < below ==> Apart(s[i], n)
    ensures forall i :: above <= i < |s| ==> Apart(n, s[i])
    ensures forall i :: below <= i < above ==> n.first <= s[i].first && s[i].second <= n.second
  {
  }

  /** Replacing the window inserts exactly r and keeps the form of the list. */
  lemma MergeWindowInserts(s: seq<SequenceRange>, r: SequenceRange, a: nat, below: nat, above: nat, n: SequenceRange)
    requires Separated(s) && r.first <= r.second
    requires MergeWindow(s, r, a, below, above, n)
    ensures below <= above <= |s| && (below == |s| ==> above == |s|)
    ensures forall i :: 0 <= i < below ==> s[i].second < n.second
    ensures forall i :: above <= i < |s| ==> n.second < s[i].second
    ensures Separated(Splice(s, below, above, n))
    ensures Adds(s, r, Splice(s, below, above, n))
    ensures Normal(Splice(s, below, above, n)) <==> Normal(s) || r.first <= 1
  {
    MergeWindowShape(s, r, a, below, above, n);
    forall i | above <= i < |s| ensures n.second < s[i].second { assert Apart(n, s[i]); }
    forall i | 0 <= i < below ensures s[i].second < n.second { assert Apart(s[i], n); }
    SpliceSeparated(s, below, above, n);
    SpliceUnion(s, below, above, n, r);
    MergeWindowNormal(s, r, a, below, above, n);
  }

  /** A searched insertion that reaches down to 1 merges 0 with 1; any other leaves them as they were. */
  lemma MergeWindowNormal(s: seq<SequenceRange>, r: SequenceRange, a: nat, below: nat, above: nat, n: SequenceRange)
    requires Separated(s) && r.first <= r.second && below <= above <= |s|
    requires MergeWindow(s, r, a, below, above, n) && Separated(Splice(s, below, above, n))
    ensures Normal(Splice(s, below, above, n)) <==> Normal(s) || r.first <= 1
  {
    var t := Splice(s, below, above, n);
    NormalIffZeroMerged(s);
    NormalIffZeroMerged(t);
    if below == 0 {
      assert t[0] == n;
    } else {
      assert t[0] == s[0] && (below == 1 ==> t[1] == n) && (below > 1 ==> t[1] == s[1]);
    }
  }

  /** t holds exactly the members of s and the numbers of r. */
  ghost predicate Adds(s: seq<SequenceRange>, r: SequenceRange, t: seq<SequenceRange>) {
    forall x :: Has(t, x) <==> Has(s, x) || r.first <= x <= r.second
  }

  /** A normal list with the right members is the reference insertion. */
  lemma InsertedIsUnique(s: seq<SequenceRange>, r: SequenceRange, t: seq<SequenceRange>)
    requires Normal(s) && r.first <= r.second && Normal(t) && Adds(s, r, t)
    ensures t == Inserted(s, r)
  {
    InsertedNormal(s, r);
    forall x { InsertedUnion(s, r, x); }
    NormalUnique(t, Inserted(s, r));
  }

  /** With the right members, being the reference insertion is the same as being normal. */
  lemma MatchesReference(s: seq<SequenceRange>, r: SequenceRange, t: seq<SequenceRange>)
    requires r.first <= r.second && Adds(s, r, t)
    ensures Normal(s) ==> (t == Inserted(s, r) <==> Normal(t))
  {
    if Normal(s) {
      InsertedNormal(s, r);
      if Normal(t) { InsertedIsUnique(s, r, t); }
    }
  }

  /** [lo, hi) are the ranges that r touches when the search starts at max(first - 1, 1); n is what replaces them. */
  ghost predicate IterWindow(s: seq<SequenceRange>, r: SequenceRange, lo: nat, hi: nat, n: SequenceRange) {
    && IsLowerBound(s, Clamp(r.first - 1), lo)
    && lo <= hi <= |s|
    && (forall i :: lo <= i < hi ==> s[i].first <= r.second + 1)
    && (hi < |s| ==> r.second + 1 < s[hi].first)
    && n.first == (if lo < hi && s[lo].first < r.first then s[lo].first else r.first)
    && n.second == (if lo < hi && r.second < s[hi - 1].second then s[hi - 1].second else r.second)
  }

  lemma IterWindowShape(s: seq<SequenceRange>, r: SequenceRange, lo: nat, hi: nat, n: SequenceRange)
    requires Separated(s) && 1 <= r.first <= r.second && IterWindow(s, r, lo, hi, n)
    ensures n.first <= r.first && r.second <= n.second
    ensures forall i :: 0 <= i < lo ==> Apart(s[i], n)
    ensures forall i :: hi <= i < |s| ==> Apart(n, s[i])
    ensures forall i :: lo <= i < hi ==> n.first <= s[i].first && s[i].second <= n.second
  {
    forall i | 0 <= i < lo ensures Apart(s[i], n) {
      assert s[i].second < Clamp(r.first - 1);
      if lo < hi { assert Apart(s[i], s[lo]); }
    }
    forall i | hi <= i < |s| ensures Apart(n, s[i]) {
      if lo < hi { assert Apart(s[hi - 1], s[i]); }
      if hi < i { assert Apart(s[hi], s[i]); }
    }
    forall i | lo <= i < hi ensures n.first <= s[i].first && s[i].second <= n.second {
      if lo < i { assert Apart(s[lo], s[i]); }
      if i < hi - 1 { assert Apart(s[i], s[hi - 1]); }
    }
  }

  /** Replacing that window inserts exactly r; normal form is lost exactly when the clamp hides the neighbour 0. */
  lemma IterWindowInserts(s: seq<SequenceRange>, r: SequenceRange, lo: nat, hi: nat, n: SequenceRange)
    requires Separated(s) && 1 <= r.first <= r.second && IterWindow(s, r, lo, hi, n)
    ensures forall i :: 0 <= i < lo ==> s[i].second < n.second
    ensures forall i :: hi <= i < |s| ==> n.second < s[i].second
    ensures n.first <= r.first && r.second <= n.second && lo < |Splice(s, lo, hi, n)| && Splice(s, lo, hi, n)[lo] == n
    ensures Separated(Splice(s, lo, hi, n)) && Adds(s, r, Splice(s, lo, hi, n))
    ensures Normal(Splice(s, lo, hi, n)) <==> Normal(s) && !ClampMiss(s, r.first)
  {
    IterWindowShape(s, r, lo, hi, n);
    forall i | hi <= i < |s| ensures n.second < s[i].second { assert Apart(n, s[i]); }
    forall i | 0 <= i < lo ensures s[i].second < n.second { assert Apart(s[i], n); }
    SpliceSeparated(s, lo, hi, n);
    SpliceUnion(s, lo, hi, n, r);
    IterWindowNormal(s, r, lo, hi, n);
  }

  lemma IterWindowNormal(s: seq<SequenceRange>, r: SequenceRange, lo: nat, hi: nat, n: SequenceRange)
    requires Separated(s) && 1 <= r.first <= r.second && IterWindow(s, r, lo, hi, n)
    requires Separated(Splice(s, lo, hi, n)) && r.second <= n.second
    ensures Normal(Splice(s, lo, hi, n)) <==> Normal(s) && !ClampMiss(s, r.first)
  {
    var t := Splice(s, lo, hi, n);
    NormalIffZeroMerged(s);
    NormalIffZeroMerged(t);
    if s != [] && s[0].second == 0 {
      assert lo >= 1 && t[0] == s[0];
      if lo == 1 { assert t[1] == n; } else { assert t[1] == s[1]; }
    } else if lo >= 1 {
      assert t[0] == s[0];
    } else {
      assert t[0] == n;
    }
  }

  /** A range that is already covered is not next to a hidden 0. */
  lemma IterCovered(s: seq<SequenceRange>, r: SequenceRange, lo: nat)
    requires Separated(s) && 1 <= r.first <= r.second && lo < |s| && s[lo].first <= r.first && r.second <= s[lo].second
    ensures Adds(s, r, s) && (Normal(s) ==> !ClampMiss(s, r.first))
  {
  }

  /** Unless the range at the iterator spans r, some number of r is missing from the set. */
  lemma IterFindsHole(s: seq<SequenceRange>, r: SequenceRange, lo: nat)
    requires Separated(s) && 1 <= r.first <= r.second && IsLowerBound(s, Clamp(r.first - 1), lo)
    ensures (lo < |s| && s[lo].first <= r.first && r.second <= s[lo].second)
            <==> forall x :: r.first <= x <= r.second ==> Has(s, x)
  {
    if !(lo < |s| && s[lo].first <= r.first && r.second <= s[lo].second) {
      var hole := if lo < |s| && s[lo].first <= r.first && r.first <= s[lo].second then s[lo].second + 1 else r.first;
      assert !Has(s, hole);
    }
  }

  // ---- What insert_i promises ----

  /** Inserting r turned s into t: exactly r is added; the answer is whether the list changed, which it also does
      when only 0 and 1 are merged; and normal form is kept, or restored by reaching down to 1. */
  ghost predicate Inserts(s: seq<SequenceRange>, r: SequenceRange, t: seq<SequenceRange>, changed: bool) {
    && Separated(t) && Adds(s, r, t)
    && (changed <==> t != s)
    && (changed <==> (exists x :: r.first <= x <= r.second && !Has(s, x)) || (!Normal(s) && r.first == 0 < r.second))
    && (Normal(t) <==> Normal(s) || (changed && r.first <= 1))
    && (Normal(s) ==> t == Inserted(s, r))
  }

  lemma AlreadyThere(s: seq<SequenceRange>, r: SequenceRange, a: nat)
    requires Separated(s) && r.first <= r.second && IsLowerBound(s, r.second, a)
    requires a < |s| && s[a].first <= r.first
    ensures Inserts(s, r, s, false)
  {
    assert forall x :: r.first <= x <= r.second ==> Has(s, x);
    if Normal(s) {
      InsertedIsUnique(s, r, s);
    } else {
      NormalIffZeroMerged(s);
    }
  }

  lemma WindowInserts(s: seq<SequenceRange>, r: SequenceRange, a: nat, below: nat, above: nat, n: SequenceRange)
    requires Separated(s) && r.first <= r.second
    requires MergeWindow(s, r, a, below, above, n)
    ensures below <= above <= |s| && (below == |s| ==> above == |s|)
    ensures forall i :: 0 <= i < below ==> s[i].second < n.second
    ensures forall i :: above <= i < |s| ==> n.second < s[i].second
    ensures Inserts(s, r, Splice(s, below, above, n), true)
  {
    MergeWindowInserts(s, r, a, below, above, n);
    var t := Splice(s, below, above, n);
    SomethingNew(s, r, a);
    hide MergeWindow, Splice, Separated, Apart;
    if Normal(s) { InsertedIsUnique(s, r, t); }
    if x :| r.first <= x <= r.second && !Has(s, x) { assert Has(t, x); }
  }

  /** Past the early return something is new, or 0 and 1 are about to be merged. */
  lemma SomethingNew(s: seq<SequenceRange>, r: SequenceRange, a: nat)
    requires Separated(s) && r.first <= r.second && IsLowerBound(s, r.second, a)
    requires !(a < |s| && s[a].first <= r.first)
    ensures (exists x :: r.first <= x <= r.second && !Has(s, x)) || (!Normal(s) && r.first == 0 < r.second)
  {
    if Normal(s) || 1 <= r.first {
      CoveredByLowerBound(s, r, a);
    } else {
      NormalIffZeroMerged(s);
    }
  }

  // ---- At the largest sequence number ----

  /** r and the highest range both end at the largest number, where incrementing wraps, so that r is not merged with it;
      and since both end alike, r is not inserted beside it. */
  predicate Suppressed(s: seq<SequenceRange>, r: SequenceRange) {
    && r.second == MAX_VALUE && s != [] && s[|s| - 1].second == MAX_VALUE
    && r.first < s[|s| - 1].first && !(r.first == 0 && s[|s| - 1].first == 1)
  }

  /** Only the highest range can end at the largest number. */
  lemma AtTheEnd(s: seq<SequenceRange>, r: SequenceRange, a: nat)
    requires Separated(s) && r.first <= r.second && IsLowerBound(s, r.second, a)
    requires s != [] ==> s[|s| - 1].second <= MAX_VALUE
    ensures r.second == MAX_VALUE && a < |s| ==> a == |s| - 1 && s[a].second == MAX_VALUE
  {
  }

  lemma SpannedNotSuppressed(s: seq<SequenceRange>, r: SequenceRange, a: nat)
    requires Separated(s) && r.first <= r.second && IsLowerBound(s, r.second, a) && a < |s| && s[a].first <= r.first
    ensures !Suppressed(s, r)
  {
    if a < |s| - 1 { assert Apart(s[a], s[|s| - 1]); }
  }

  /** What r would have absorbed is erased, and nothing is added. */
  ghost predicate Erases(s: seq<SequenceRange>, r: SequenceRange, t: seq<SequenceRange>)
    requires s != []
  {
    exists k: nat :: k < |s| && IsLowerBound(s, r.first - 1, k) && t == s[..k] + [s[|s| - 1]]
  }

  /** The window of a suppressed insertion ends before the highest range. */
  lemma SuppressedWindow(s: seq<SequenceRange>, r: SequenceRange, a: nat, below: nat)
    requires Separated(s) && r.first <= r.second && Suppressed(s, r)
    requires IsLowerBound(s, r.second, a) && IsLowerBound(s, r.first - 1, below)
    ensures a == |s| - 1 && below <= a && Next(r.second) < s[a].first
    ensures forall j :: below < j < a ==> 1 <= s[j].first
  {
    assert forall i :: 0 <= i < |s| - 1 ==> Apart(s[i], s[|s| - 1]);
    forall j | below < j < a ensures 1 <= s[j].first { assert Apart(s[below], s[j]); }
  }

  lemma SuppressedErases(s: seq<SequenceRange>, r: SequenceRange, a: nat, below: nat, n: SequenceRange, at: nat)
    requires Separated(s) && r.first <= r.second && Suppressed(s, r)
    requires IsLowerBound(s, r.second, a) && IsLowerBound(s, r.first - 1, below) && n.second == MAX_VALUE
    requires below <= a && IsLowerBound(Erase(s, below, a), n.second, at)
    ensures a == |s| - 1 && at < |Erase(s, below, a)| && Erase(s, below, a)[at].second == n.second
    ensures Separated(Erase(s, below, a)) && Erases(s, r, Erase(s, below, a))
  {
    assert forall i :: 0 <= i < |s| - 1 ==> Apart(s[i], s[|s| - 1]);
    var e := Erase(s, below, a);
    assert s[a..] == [s[a]];
    assert e == s[..below] + [s[|s| - 1]];
    assert forall i :: 0 <= i < below ==> e[i] == s[i];
    assert e[below] == s[a];
  }

  /** Nothing is added and everything between the lower part and the highest range is lost. */
  lemma ErasesLoses(s: seq<SequenceRange>, r: SequenceRange, t: seq<SequenceRange>, x: int)
    requires Separated(s) && s != [] && r.first <= r.second && Suppressed(s, r) && Erases(s, r, t)
    ensures Has(t, x) ==> Has(s, x)
    ensures r.first <= x < s[|s| - 1].first ==> !Has(t, x)
  {
    var k: nat :| k < |s| && IsLowerBound(s, r.first - 1, k) && t == s[..k] + [s[|s| - 1]];
    if Has(t, x) {
      var i :| 0 <= i < |t| && t[i].first <= x <= t[i].second;
      assert t[i] == if i < k then s[i] else s[|s| - 1];
    }
  }
}
