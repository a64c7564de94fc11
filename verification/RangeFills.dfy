/** The positions that DisjointSequence::to_bitmap marks for a list of ranges. */
module RangeFills {
  import opened Basics
  import opened SequenceRanges
  import opened Bits
  import opened BitmapEncode

  /** The number that bit 0 stands for: one past the lowest range. */
  function Base(s: seq<SequenceRange>): nat
    requires s != []
  {
    s[0].second + 1
  }

  /** Position k above the base is to be marked: a member, or, inverted, a gap below the highest member. */
  ghost predicate Wanted(s: seq<SequenceRange>, invert: bool, k: nat)
    requires s != []
  {
    var x := Base(s) + k;
    if invert then !Has(s, x) && x < s[|s| - 1].second else Has(s, x)
  }

  /** Every position is computed without wrapping: inverted, a gap of -1 numbers between 0 and 1 wraps. */
  ghost predicate Fillable(s: seq<SequenceRange>, invert: bool) {
    s != [] && Separated(s) && (invert ==> Normal(s))
  }

  /** The j-th range of positions handed to fill_bitmap_range, before conversion to 32 bits. */
  ghost function FillOf(s: seq<SequenceRange>, j: nat, invert: bool): Fill
    requires Fillable(s, invert) && 1 <= j < |s|
  {
    assert Apart(s[0], s[j]);
    if invert then Fill(s[j - 1].second + 1 - Base(s), s[j].first - 1 - Base(s))
    else Fill(s[j].first - Base(s), s[j].second - Base(s))
  }

  ghost function Fills(s: seq<SequenceRange>, invert: bool): (fills: seq<Fill>)
    requires Fillable(s, invert)
    ensures |fills| == |s| - 1
    ensures forall i :: 0 <= i < |fills| ==> fills[i] == FillOf(s, i + 1, invert)
  {
    seq(|s| - 1, i requires 0 <= i < |s| - 1 => FillOf(s, i + 1, invert))
  }

  lemma FillsIncreasing(s: seq<SequenceRange>, invert: bool)
    requires Fillable(s, invert)
    ensures Increasing(Fills(s, invert))
  {
    var fills := Fills(s, invert);
    forall i, j | 0 <= i < j < |fills| ensures fills[i].high < fills[j].low {
      assert Apart(s[i + 1], s[j + 1]) && s[j].first <= s[j].second;
      if i + 1 < j { assert Apart(s[i + 1], s[j]); }
    }
  }

  /** The positions marked are exactly the wanted ones. */
  lemma FillsCoverWanted(s: seq<SequenceRange>, invert: bool, k: nat)
    requires Fillable(s, invert)
    ensures Covered(Fills(s, invert), k) <==> Wanted(s, invert, k)
  {
    hide Fills, Wanted, Fillable;
    if Covered(Fills(s, invert), k) { CoveredIsWanted(s, invert, k); }
    if Wanted(s, invert, k) { WantedIsCovered(s, invert, k); }
  }

  lemma CoveredIsWanted(s: seq<SequenceRange>, invert: bool, k: nat)
    requires Fillable(s, invert) && Covered(Fills(s, invert), k)
    ensures Wanted(s, invert, k)
  {
    hide Fills, Wanted, FillOf, Separated, Normal;
    var fills := Fills(s, invert);
    var j :| 0 <= j < |fills| && fills[j].low <= k <= fills[j].high;
    FillIsWanted(s, invert, j + 1, k);
  }

  lemma WantedIsCovered(s: seq<SequenceRange>, invert: bool, k: nat)
    requires Fillable(s, invert) && Wanted(s, invert, k)
    ensures Covered(Fills(s, invert), k)
  {
    hide Fills;
    var fills, x := Fills(s, invert), Base(s) + k;
    var j: nat;
    if invert { j := GapOf(s, x); } else { j :| 0 <= j < |s| && s[j].first <= x <= s[j].second; }
    assert fills[j - 1] == FillOf(s, j, invert);
    CoveredAt(fills, j - 1, k);
  }

  lemma FillIsWanted(s: seq<SequenceRange>, invert: bool, j: nat, k: nat)
    requires Fillable(s, invert) && 1 <= j < |s|
    requires FillOf(s, j, invert).low <= k <= FillOf(s, j, invert).high
    ensures Wanted(s, invert, k)
  {
    if invert {
      assert s[j - 1].second < Base(s) + k < s[j].first;
    } else {
      assert s[j].first <= Base(s) + k <= s[j].second;
    }
  }

  /** A number between the lowest and the highest member that is missing lies in one of the gaps. */
  lemma GapOf(s: seq<SequenceRange>, x: nat) returns (j: nat)
    requires Normal(s) && s != [] && s[0].second < x < s[|s| - 1].second && !Has(s, x)
    ensures 1 <= j < |s| && s[j - 1].second < x < s[j].first
  {
    j := 1;
    while s[j].second < x
      invariant 1 <= j < |s| && s[j - 1].second < x
    {
      assert j != |s| - 1;
      j := j + 1;
    }
    assert forall i :: 0 <= i < |s| ==> !(s[i].first <= x <= s[i].second);
  }

  /** Whether anything wanted lies beyond the bitmap shows in the high end of a fill. */
  lemma WantedBeyond(s: seq<SequenceRange>, invert: bool, words: nat, j: nat)
    requires Fillable(s, invert) && 0 <= j < |s| - 1
    ensures 32 * words <= Fills(s, invert)[j].high ==> exists k :: 32 * words <= k && Wanted(s, invert, k)
    ensures j == |s| - 2 && Fills(s, invert)[j].high < 32 * words ==>
              forall k :: 32 * words <= k ==> !Wanted(s, invert, k)
  {
    hide Fills, Wanted, Fillable;
    var fills := Fills(s, invert);
    FillsIncreasing(s, invert);
    if 32 * words <= fills[j].high {
      FillsCoverWanted(s, invert, fills[j].high);
      CoveredAt(fills, j, fills[j].high);
      assert Wanted(s, invert, fills[j].high);
    }
    if j == |s| - 2 && fills[j].high < 32 * words {
      forall k | 32 * words <= k ensures !Wanted(s, invert, k) {
        FillsCoverWanted(s, invert, k);
        EndBounds(fills, k);
      }
    }
  }

  // ---- What to_bitmap leaves in the buffer ----

  /** The bitmap says which positions are wanted, as far as it reaches, and ok says whether it reaches far enough. */
  ghost predicate Tells(s: seq<SequenceRange>, invert: bool, cur: seq<bv32>, numBits: nat, ok: bool)
    requires s != []
  {
    && numBits <= 32 * |cur|
    && (forall k :: 0 <= k < numBits ==> (BitAt(cur, k) <==> Wanted(s, invert, k)))
    && (forall k :: numBits <= k < 32 * |cur| ==> !Wanted(s, invert, k))
    && (ok <==> forall k :: 32 * |cur| <= k ==> !Wanted(s, invert, k))
  }

  /** The outcome of to_bitmap on a list of more than one range: an encoding of the wanted positions, except that on a
      list that is not in normal form the inverted bitmap is all ones and does not fit. */
  ghost predicate Outcome(s: seq<SequenceRange>, invert: bool, orig: seq<bv32>, cur: seq<bv32>, numBits: nat, ok: bool)
    requires s != [] && Separated(s)
  {
    |cur| == |orig| &&
    if Fillable(s, invert) then
      && Encodes(Fills(s, invert), orig, cur, numBits)
      && (ok <==> forall k :: 32 * |cur| <= k ==> !Wanted(s, invert, k))
    else
      !ok && numBits == 32 * |cur| && forall k :: 0 <= k < numBits ==> BitAt(cur, k)
  }

  /** From a zeroed buffer the bitmap is right iff it is not inverted or the list is in normal form. */
  lemma TellsIff(s: seq<SequenceRange>, invert: bool, orig: seq<bv32>, cur: seq<bv32>, numBits: nat, ok: bool)
    requires Separated(s) && |s| > 1 && |orig| > 0 && forall w :: 0 <= w < |orig| ==> orig[w] == 0
    requires Outcome(s, invert, orig, cur, numBits, ok)
    ensures Tells(s, invert, cur, numBits, ok) <==> !invert || Normal(s)
  {
    hide Has, Encodes, Fills;
    if Fillable(s, invert) {
      FilledTells(s, invert, orig, cur, numBits, ok);
    } else {
      NormalIffZeroMerged(s);
      OneIsMember(s);
      assert BitAt(cur, 0) && !Wanted(s, invert, 0);
    }
  }

  lemma OneIsMember(s: seq<SequenceRange>)
    requires |s| > 1 && s[0].second == 0 && s[1].first == 1 <= s[1].second
    ensures Has(s, Base(s) + 0)
  {
  }

  lemma FilledTells(s: seq<SequenceRange>, invert: bool, orig: seq<bv32>, cur: seq<bv32>, numBits: nat, ok: bool)
    requires Fillable(s, invert) && |orig| == |cur| && forall w :: 0 <= w < |orig| ==> orig[w] == 0
    requires Encodes(Fills(s, invert), orig, cur, numBits)
    requires ok <==> forall k :: 32 * |cur| <= k ==> !Wanted(s, invert, k)
    ensures Tells(s, invert, cur, numBits, ok) && (0 < numBits ==> Wanted(s, invert, numBits - 1))
  {
    hide Fills, Wanted, Fillable, Covered, Stale;
    ExactIffStaleBitsZero(Fills(s, invert), orig, cur, numBits);
    forall k: nat ensures Covered(Fills(s, invert), k) <==> Wanted(s, invert, k) { FillsCoverWanted(s, invert, k); }
  }

  /** Digit k of the bitmap says whether s[0].second + 1 + k is a member or, inverted, a gap below the highest. */
  ghost predicate DigitsTell(s: seq<SequenceRange>, invert: bool, cur: seq<bv32>, numBits: nat)
    requires s != []
  {
    numBits <= 32 * |cur| && forall k :: 0 <= k < numBits ==>
      (Number(cur[k / 32]) / Power2(31 - k % 32) % 2 == 1 <==>
         var x := s[0].second + 1 + k; if invert then x < s[|s| - 1].second && !Has(s, x) else Has(s, x))
  }

  /** The bitmap by value, as written into a zeroed buffer; what is not in it, and what the answer says. */
  lemma EncodedByValue(s: seq<SequenceRange>, invert: bool, orig: seq<bv32>, cur: seq<bv32>, numBits: nat, ok: bool)
    requires Separated(s) && |s| > 1 && (invert ==> Normal(s)) && Zeroed(orig)
    requires Outcome(s, invert, orig, cur, numBits, ok)
    ensures DigitsTell(s, invert, cur, numBits)
    ensures var end := if invert then s[|s| - 1].second else s[|s| - 1].second + 1;
            && (forall x :: s[0].second + 1 + numBits <= x < s[0].second + 1 + 32 * |cur| && x < end ==>
                              (Has(s, x) <==> invert))
            && (ok <==> forall x :: s[0].second + 1 + 32 * |cur| <= x < end ==> (Has(s, x) <==> invert))
  {
    hide Row, Number, Encodes, Fills;
    FilledTells(s, invert, orig, cur, numBits, ok);
    forall k | 0 <= k < numBits
      ensures BitAt(cur, k) <==> Number(cur[k / 32]) / Power2(31 - k % 32) % 2 == 1
    {
      BitAtByValue(cur, k);
    }
    hide BitAt;
    forall x: int | s[0].second + 1 <= x && (invert ==> x < s[|s| - 1].second)
      ensures Wanted(s, invert, x - Base(s)) <==> (Has(s, x) <==> !invert)
    {
    }
  }
}
