/** Sorted lists of inclusive sequence-number ranges and the sets of numbers they stand for.
    This is the vocabulary in which DisjointSequence is specified. */
module SequenceRanges {

  /** Largest SequenceNumber; incrementing it wraps to 1. */
  const MAX_VALUE: nat := 0x7FFF_FFFF_FFFF_FFFF

  /** High half -1, low half 0. */
  const SEQUENCENUMBER_UNKNOWN: int := -0x1_0000_0000

  datatype SequenceRange = SequenceRange(first: nat, second: nat)

  /** x belongs to the set described by the list. */
  ghost predicate Has(s: seq<SequenceRange>, x: int) {
    exists i :: 0 <= i < |s| && s[i].first <= x <= s[i].second
  }

  ghost predicate Ascending(s: seq<SequenceRange>) {
    forall i :: 0 <= i < |s| ==> s[i].first <= s[i].second
  }

  /** Adjacent ranges are always merged, except that a range ending in 0 may sit next to one starting at 1. */
  ghost predicate Apart(a: SequenceRange, b: SequenceRange) {
    a.second < b.first && (1 <= a.second ==> a.second + 1 < b.first)
  }

  /** What every operation keeps: sorted, disjoint, and merged above zero. */
  ghost predicate Separated(s: seq<SequenceRange>) {
    Ascending(s) && forall i, j :: 0 <= i < j < |s| ==> Apart(s[i], s[j])
  }

  /** Normal form: sorted, disjoint and nowhere adjacent, so the ranges are the maximal ones. */
  ghost predicate Normal(s: seq<SequenceRange>) {
    Ascending(s) && forall i, j :: 0 <= i < j < |s| ==> s[i].second + 1 < s[j].first
  }

  /** The one way a Separated list can fail to be Normal. */
  lemma NormalIffZeroMerged(s: seq<SequenceRange>)
    requires Separated(s)
    ensures Normal(s) <==> !(|s| > 1 && s[0].second == 0 && s[1].first == 1)
  {
    if !(|s| > 1 && s[0].second == 0 && s[1].first == 1) {
      forall i, j | 0 <= i < j < |s| ensures s[i].second + 1 < s[j].first {
        assert Apart(s[i], s[j]);
        if 0 < i { assert Apart(s[0], s[i]); }
        if 1 < j { assert Apart(s[1], s[j]); }
      }
    }
  }

  /** k is where std::set::lower_bound stops under the comparator on `second`: the first range ending at or after x. */
  ghost predicate IsLowerBound(s: seq<SequenceRange>, x: int, k: nat) {
    k <= |s| && (forall i :: 0 <= i < k ==> s[i].second < x) && (k < |s| ==> x <= s[k].second)
  }

  /** std::set::lower_bound. */
  method LowerBound(s: seq<SequenceRange>, x: int) returns (k: nat)
    ensures IsLowerBound(s, x, k)
  {
    k := 0;
    while k < |s| && s[k].second < x
      invariant k <= |s| && forall i :: 0 <= i < k ==> s[i].second < x
    {
      k := k + 1;
    }
  }

  /** std::set::insert: a range with an equal `second` suppresses the insertion; k is the resulting iterator. */
  method SetInsert(s: seq<SequenceRange>, r: SequenceRange) returns (t: seq<SequenceRange>, k: nat)
    ensures IsLowerBound(s, r.second, k)
    ensures t == if k < |s| && s[k].second == r.second then s else Splice(s, k, k, r)
  {
    k := LowerBound(s, r.second);
    t := if k < |s| && s[k].second == r.second then s else Splice(s, k, k, r);
  }

  /** std::set::erase of the half-open iterator range [lo, hi). */
  function Erase(s: seq<SequenceRange>, lo: nat, hi: nat): seq<SequenceRange>
    requires lo <= hi <= |s|
  {
    s[..lo] + s[hi..]
  }

  /** Ranges lo..hi of the list are replaced by the single range n. */
  function Splice(s: seq<SequenceRange>, lo: nat, hi: nat, n: SequenceRange): seq<SequenceRange>
    requires lo <= hi <= |s|
  {
    s[..lo] + [n] + s[hi..]
  }

  /** Membership after a splice, part by part. */
  lemma HasSplice(s: seq<SequenceRange>, lo: nat, hi: nat, n: SequenceRange, x: int)
    requires lo <= hi <= |s|
    ensures Has(Splice(s, lo, hi, n), x) <==> Has(s[..lo], x) || n.first <= x <= n.second || Has(s[hi..], x)
    ensures Has(s, x) <==> Has(s[..lo], x) || Has(s[lo..hi], x) || Has(s[hi..], x)
  {
    var t := Splice(s, lo, hi, n);
    if Has(t, x) {
      var i :| 0 <= i < |t| && t[i].first <= x <= t[i].second;
      if i > lo { assert t[i] == s[hi..][i - lo - 1]; }
    }
    if Has(s[hi..], x) {
      var i :| 0 <= i < |s[hi..]| && s[hi..][i].first <= x <= s[hi..][i].second;
      assert t[lo + 1 + i] == s[hi..][i] == s[hi + i];
    }
    if Has(s[lo..hi], x) {
      var i :| 0 <= i < hi - lo && s[lo..hi][i].first <= x <= s[lo..hi][i].second;
      assert s[lo + i] == s[lo..hi][i];
    }
    if n.first <= x <= n.second { assert t[lo] == n; }
    if Has(s[..lo], x) {
      var i :| 0 <= i < lo && s[..lo][i].first <= x <= s[..lo][i].second;
      assert t[i] == s[i] == s[..lo][i];
    }
    if Has(s, x) {
      var i :| 0 <= i < |s| && s[i].first <= x <= s[i].second;
      if i < lo { assert s[..lo][i] == s[i]; }
      else if i < hi { assert s[lo..hi][i - lo] == s[i]; }
      else { assert s[hi..][i - hi] == s[i]; }
    }
  }

  /** A splice that absorbs exactly the ranges n reaches keeps the list separated. */
  lemma SpliceSeparated(s: seq<SequenceRange>, lo: nat, hi: nat, n: SequenceRange)
    requires Separated(s) && lo <= hi <= |s| && n.first <= n.second
    requires forall i :: 0 <= i < lo ==> Apart(s[i], n)
    requires forall i :: hi <= i < |s| ==> Apart(n, s[i])
    ensures Separated(Splice(s, lo, hi, n))
  {
    var t := Splice(s, lo, hi, n);
    assert forall i :: lo < i < |t| ==> t[i] == s[i - lo - 1 + hi];
  }

  /** If n stretches r only over ranges it absorbs, the splice adds exactly the numbers of r. */
  lemma SpliceUnion(s: seq<SequenceRange>, lo: nat, hi: nat, n: SequenceRange, r: SequenceRange)
    requires lo <= hi <= |s|
    requires n.first <= r.first <= r.second <= n.second
    requires n.first == r.first || (lo < hi && n.first == s[lo].first && r.first <= s[lo].second + 1)
    requires n.second == r.second || (lo < hi && n.second == s[hi - 1].second && s[hi - 1].first <= r.second + 1)
    requires forall i :: lo <= i < hi ==> n.first <= s[i].first && s[i].second <= n.second
    ensures forall x :: Has(Splice(s, lo, hi, n), x) <==> Has(s, x) || r.first <= x <= r.second
  {
    forall x ensures Has(Splice(s, lo, hi, n), x) <==> Has(s, x) || r.first <= x <= r.second {
      HasSplice(s, lo, hi, n, x);
      if Has(s[lo..hi], x) {
        var i :| 0 <= i < hi - lo && s[lo..hi][i].first <= x <= s[lo..hi][i].second;
        assert s[lo + i] == s[lo..hi][i];
      }
      if n.first <= x < r.first { assert s[lo].first <= x <= s[lo].second; }
      if r.second < x <= n.second { assert s[hi - 1].first <= x <= s[hi - 1].second; }
    }
  }

  /** After erasing [lo, hi), inserting n through the comparator lands at lo and completes the splice. */
  lemma EraseThenInsert(s: seq<SequenceRange>, lo: nat, hi: nat, n: SequenceRange, k: nat)
    requires lo <= hi <= |s|
    requires forall i :: 0 <= i < lo ==> s[i].second < n.second
    requires forall i :: hi <= i < |s| ==> n.second < s[i].second
    requires IsLowerBound(Erase(s, lo, hi), n.second, k)
    ensures k == lo && (k < |Erase(s, lo, hi)| ==> Erase(s, lo, hi)[k].second != n.second)
    ensures Splice(Erase(s, lo, hi), k, k, n) == Splice(s, lo, hi, n)
  {
    var e := Erase(s, lo, hi);
    assert forall i :: lo <= i < |e| ==> e[i] == s[i - lo + hi];
    assert forall i :: 0 <= i < lo ==> e[i] == s[i];
    assert lo < |e| ==> n.second < e[lo].second;
    assert e[..lo] == s[..lo] && e[lo..] == s[hi..];
  }

  /** Normal lists are canonical: the set of numbers determines the list. */
  lemma {:induction false} NormalUnique(s: seq<SequenceRange>, t: seq<SequenceRange>)
    requires Normal(s) && Normal(t)
    requires forall x :: Has(s, x) <==> Has(t, x)
    ensures s == t
  {
    if s == [] || t == [] {
      if s != [] { assert Has(s, s[0].first); }
      if t != [] { assert Has(t, t[0].first); }
    } else {
      FirstRangeLeast(s, t);
      FirstRangeLeast(t, s);
      TailsAgree(s, t);
      NormalUnique(s[1..], t[1..]);
      assert s == [s[0]] + s[1..] && t == [t[0]] + t[1..];
    }
  }

  /** Only the first range can be left unmerged. */
  lemma TailNormal(s: seq<SequenceRange>)
    requires Separated(s) && s != []
    ensures Normal(s[1..])
  {
    var t := s[1..];
    forall i, j | 0 <= i < j < |t| ensures t[i].second + 1 < t[j].first {
      assert t[i] == s[i + 1] && t[j] == s[j + 1] && Apart(s[0], s[i + 1]) && Apart(s[i + 1], s[j + 1]);
    }
  }

  /** Separated lists are determined by their numbers and by whether 0 is merged with 1. */
  lemma SeparatedUnique(s: seq<SequenceRange>, t: seq<SequenceRange>)
    requires Separated(s) && Separated(t) && (Normal(s) <==> Normal(t))
    requires forall x :: Has(s, x) <==> Has(t, x)
    ensures s == t
  {
    hide Has;
    if Normal(s) {
      NormalUnique(s, t);
    } else {
      NormalIffZeroMerged(s);
      NormalIffZeroMerged(t);
      TailsAgree(s, t);
      NormalUnique(s[1..], t[1..]);
      assert s == [s[0]] + s[1..] && t == [t[0]] + t[1..];
    }
  }

  lemma TailsAgree(s: seq<SequenceRange>, t: seq<SequenceRange>)
    requires Separated(s) && Separated(t) && s != [] && t != [] && s[0] == t[0]
    requires forall x :: Has(s, x) <==> Has(t, x)
    ensures Normal(s[1..]) && Normal(t[1..])
    ensures forall x :: Has(s[1..], x) <==> Has(t[1..], x)
  {
    hide Has;
    TailNormal(s);
    TailNormal(t);
    forall x ensures Has(s[1..], x) <==> Has(t[1..], x) {
      HasTail(s, x);
      HasTail(t, x);
    }
  }

  /** The tail of a separated list holds the members above its first range. */
  lemma HasTail(s: seq<SequenceRange>, x: int)
    requires Separated(s) && s != []
    ensures Has(s[1..], x) <==> Has(s, x) && s[0].second < x
  {
    if Has(s[1..], x) {
      var i :| 0 <= i < |s[1..]| && s[1..][i].first <= x <= s[1..][i].second;
      assert s[i + 1] == s[1..][i];
    }
    if Has(s, x) && s[0].second < x {
      var i :| 0 <= i < |s| && s[i].first <= x <= s[i].second;
      assert s[1..][i - 1] == s[i];
    }
  }

  /** With equal members, the first range of s starts no later and ends no later than that of t. */
  lemma FirstRangeLeast(s: seq<SequenceRange>, t: seq<SequenceRange>)
    requires Normal(s) && Normal(t) && s != [] && t != []
    requires forall x :: Has(s, x) <==> Has(t, x)
    ensures s[0].first <= t[0].first
    ensures s[0].first == t[0].first ==> s[0].second <= t[0].second
  {
    assert Has(t, t[0].first);
    var i :| 0 <= i < |s| && s[i].first <= t[0].first <= s[i].second;
    if 0 < i { assert s[0].second + 1 < s[i].first; }
    assert !Has(t, t[0].second + 1);
    assert !Has(s, t[0].second + 1);
  }

  /** Reference insertion, written without searching: walk the list, swallow every range r touches. */
  function Inserted(s: seq<SequenceRange>, r: SequenceRange): (t: seq<SequenceRange>)
    ensures t != []
  {
    if s == [] then [r]
    else if s[0].second + 1 < r.first then [s[0]] + Inserted(s[1..], r)
    else if r.second + 1 < s[0].first then [r] + s
    else Inserted(s[1..], Hull(s[0], r))
  }

  function Hull(a: SequenceRange, b: SequenceRange): SequenceRange {
    SequenceRange(if a.first < b.first then a.first else b.first,
                  if a.second > b.second then a.second else b.second)
  }

  /** The reference insertion adds exactly the numbers of r. */
  lemma {:induction false} InsertedUnion(s: seq<SequenceRange>, r: SequenceRange, x: int)
    requires Ascending(s) && r.first <= r.second
    ensures Has(Inserted(s, r), x) <==> Has(s, x) || r.first <= x <= r.second
  {
    HasCons(Inserted(s, r), x);
    if s != [] {
      HasCons(s, x);
      if s[0].second + 1 < r.first {
        InsertedUnion(s[1..], r, x);
        assert Inserted(s, r)[1..] == Inserted(s[1..], r);
      } else if r.second + 1 < s[0].first {
        assert Inserted(s, r)[1..] == s;
      } else {
        InsertedUnion(s[1..], Hull(s[0], r), x);
      }
    }
  }

  /** The reference insertion keeps normal form, and starts no lower than s and r do. */
  lemma {:induction false} InsertedNormal(s: seq<SequenceRange>, r: SequenceRange)
    requires Normal(s) && r.first <= r.second
    ensures Normal(Inserted(s, r))
    ensures Inserted(s, r)[0].first >= if s == [] then r.first else Hull(s[0], r).first
  {
    if s != [] {
      if s[0].second + 1 < r.first {
        InsertedNormal(s[1..], r);
        NormalCons(s[0], Inserted(s[1..], r));
      } else if r.second + 1 < s[0].first {
        NormalCons(r, s);
      } else {
        InsertedNormal(s[1..], Hull(s[0], r));
      }
    }
  }

  lemma NormalCons(r: SequenceRange, s: seq<SequenceRange>)
    requires Normal(s) && r.first <= r.second
    requires s != [] ==> r.second + 1 < s[0].first
    ensures Normal([r] + s)
  {
    var t := [r] + s;
    forall i, j | 0 <= i < j < |t| ensures t[i].second + 1 < t[j].first {
      assert t[j] == s[j - 1];
      if 0 < i { assert t[i] == s[i - 1]; }
      else if 1 < j { assert s[0].second + 1 < s[j - 1].first; }
    }
  }

  lemma HasCons(s: seq<SequenceRange>, x: int)
    requires s != []
    ensures Has(s, x) <==> s[0].first <= x <= s[0].second || Has(s[1..], x)
  {
    if Has(s[1..], x) {
      var i :| 0 <= i < |s[1..]| && s[1..][i].first <= x <= s[1..][i].second;
      assert s[i + 1] == s[1..][i];
    }
    if Has(s, x) {
      var i :| 0 <= i < |s| && s[i].first <= x <= s[i].second;
      if 0 < i { assert s[1..][i - 1] == s[i]; }
    }
  }

  /** Consecutive members above zero share a range. */
  lemma {:induction false} SameRange(s: seq<SequenceRange>, x: nat, y: nat) returns (i: nat)
    requires Separated(s) && 1 <= x <= y
    requires forall z :: x <= z <= y ==> Has(s, z)
    ensures i < |s| && s[i].first <= x && y <= s[i].second
    decreases y
  {
    assert Has(s, y);
    var j :| 0 <= j < |s| && s[j].first <= y <= s[j].second;
    i := j;
    if x < y {
      i := SameRange(s, x, y - 1);
    }
  }

  /** Above zero, the number after a range is not a member. */
  lemma HoleAfter(s: seq<SequenceRange>, i: nat)
    requires Separated(s) && i < |s| && 1 <= s[i].second
    ensures !Has(s, s[i].second + 1)
  {
  }
}
