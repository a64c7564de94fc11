/** DisjointSequence: a set of sequence numbers kept as a sorted list of ranges and updated in place.
    A std::set iterator is modelled by its index; |sequences| is end(). */
module DisjointSequences {
  import opened SequenceRanges
  import opened RangeInsertion
  import opened RangeQueries
  import opened RangeGaps
  import opened Bits
  import opened BitmapScan
  import opened BitmapValues
  import opened BitmapDecode
  import opened BitmapFill
  import opened BitmapEncode
  import opened RangeFills

  datatype InsertResult =
    | InvalidRange            // validate() throws
    | Accepted(grew: bool)
    | Overrun                 // collecting the gaps reads past the end of the list

  class DisjointSequence {
    var sequences: seq<SequenceRange>

    constructor ()
      ensures sequences == []
    {
      sequences := [];
    }

    /** Erases [lo, hi) and inserts n; returns the iterator to it, or to a range that ends alike and suppresses it. */
    method Replace(lo: nat, hi: nat, n: SequenceRange) returns (at: nat)
      requires lo <= hi <= |sequences|
      modifies this
      ensures var e := Erase(old(sequences), lo, hi);
              && IsLowerBound(e, n.second, at)
              && sequences == if at < |e| && e[at].second == n.second then e else Splice(e, at, at, n)
    {
      sequences := Erase(sequences, lo, hi);
      sequences, at := SetInsert(sequences, n);
    }

    /** Searched insertion of an inclusive range. Asked for the gaps, it should report the sub-ranges that are new: it
        does iff ReportsAll, and when nothing near the range is present but something above is, it runs off the list. */
    method InsertI(range: SequenceRange, wantGaps: bool) returns (result: InsertResult, gaps: seq<SequenceRange>)
      requires Separated(sequences) && range.second <= MAX_VALUE && (sequences != [] ==> High() <= MAX_VALUE)
      modifies this
      ensures result.InvalidRange? <==> range.first > range.second
      ensures !result.Accepted? ==> sequences == old(sequences)
      ensures !Suppressed(old(sequences), range) ==>
                && (result.Overrun? <==> range.first <= range.second && wantGaps && Overruns(old(sequences), range))
                && (result.Accepted? ==> Inserts(old(sequences), range, sequences, result.grew))
                && (result.Accepted? && wantGaps ==>
                      (ReportsExactly(old(sequences), range, gaps) <==> ReportsAll(old(sequences), range)))
      ensures Suppressed(old(sequences), range) && range.first <= range.second && !wantGaps ==> result == Accepted(true)
      ensures Suppressed(old(sequences), range) && result.Accepted? ==>
                Separated(sequences) && Erases(old(sequences), range, sequences)
    {
      hide Inserts, Overruns, ReportsExactly, ReportsAll, Gaps, Erases, MergeWindow, Suppressed, Erase, Splice;
      gaps := [];
      if range.first > range.second { return InvalidRange, gaps; }
      ghost var was := sequences;
      var above := LowerBound(sequences, range.second);
      if above < |sequences| && sequences[above].first <= range.first {
        AlreadyThere(was, range, above);
        SpannedNotSuppressed(was, range, above);
        SpannedReports(was, range, above);
        return Accepted(false), gaps; // already have this range
      }
      ghost var a := above;
      var below, newRange;
      below, above, newRange := FindWindow(range, above);
      if Suppressed(was, range) {
        SuppressedWindow(was, range, a, below);
      } else {
        WindowDone(was, range, a, below, above, newRange);
      }
      if below != |sequences| && wantGaps {
        if below == above { return Overrun, gaps; }
        gaps := CollectGaps(range, below, above);
      }
      var at := Replace(below, above, newRange); // nothing to erase when below is end()
      if Suppressed(was, range) {
        SuppressedErases(was, range, a, below, newRange, at);
      } else {
        EraseThenInsert(was, below, above, newRange, at);
      }
      return Accepted(true), gaps;
    }

    /** The window [below, above) that range absorbs, and what replaces it; a is where ranges end at or after it. */
    method FindWindow(range: SequenceRange, a: nat) returns (below: nat, above: nat, newRange: SequenceRange)
      requires Separated(sequences) && range.first <= range.second <= MAX_VALUE
      requires sequences != [] ==> High() <= MAX_VALUE
      requires IsLowerBound(sequences, range.second, a) && !(a < |sequences| && sequences[a].first <= range.first)
      ensures IsLowerBound(sequences, range.first - 1, below)
      ensures !Suppressed(sequences, range) ==> MergeWindow(sequences, range, a, below, above, newRange)
      ensures Suppressed(sequences, range) ==> above == a && newRange.second == MAX_VALUE
    {
      above := a;
      newRange := range;
      if above < |sequences| && Next(newRange.second) >= sequences[above].first {
        newRange := newRange.(second := sequences[above].second);
        above := above + 1;
      }
      var previous := range.first - 1;
      below := LowerBound(sequences, if previous > 0 then previous else 0);
      if below != |sequences| && newRange.first > sequences[below].first {
        newRange := newRange.(first := sequences[below].first);
      }
      AtTheEnd(sequences, range, a);
    }

    /** The gaps of the window [below, above). */
    method CollectGaps(range: SequenceRange, below: nat, above: nat) returns (gaps: seq<SequenceRange>)
      requires below < above <= |sequences| && forall j :: below < j < above ==> 1 <= sequences[j].first
      ensures gaps == Gaps(sequences, range, below, above)
    {
      gaps := [];
      var gapIter := below;
      if range.first < sequences[gapIter].second {
        gaps := gaps + [SequenceRange(range.first, Previous(sequences[gapIter].second))];
      }
      var lastGap: nat := sequences[gapIter].second;
      gapIter := gapIter + 1;
      while gapIter != above
        invariant below < gapIter <= above
        invariant Gaps(sequences, range, below, above)
                  == gaps + RestGaps(sequences, gapIter, above, lastGap, range.second)
        decreases above - gapIter
      {
        var inRange := Min(Previous(sequences[gapIter].first), range.second);
        gaps := gaps + [SequenceRange(Next(lastGap), inRange)];
        lastGap := sequences[gapIter].second;
        gapIter := gapIter + 1;
      }
      if lastGap < range.second {
        gaps := gaps + [SequenceRange(Next(lastGap), range.second)];
      }
    }

    /** The iterator for lower_bound(x): searched from end(), otherwise walked forward from where it was left. */
    method Seek(start: nat, x: nat) returns (iter: nat)
      requires start <= |sequences|
      requires start < |sequences| ==> forall i :: 0 <= i < start ==> sequences[i].second < x
      ensures IsLowerBound(sequences, x, iter)
    {
      iter := start;
      if sequences != [] {
        if iter == |sequences| {
          iter := LowerBound(sequences, x);
        } else {
          while iter < |sequences| && sequences[iter].second < x
            invariant iter <= |sequences|
            invariant forall i :: 0 <= i < iter ==> sequences[i].second < x
          {
            iter := iter + 1;
          }
        }
      }
    }

    /** The right edge of the window that range absorbs from iter on, and the high end it reaches. */
    method RightEdge(iter: nat, range: SequenceRange) returns (right: nat, high: nat)
      requires Separated(sequences) && 1 <= range.first <= range.second && iter < |sequences|
      requires IsLowerBound(sequences, Clamp(range.first - 1), iter) && sequences[iter].first <= range.second + 1
      requires !(sequences[iter].first <= range.first && range.second <= sequences[iter].second)
      ensures iter < right <= |sequences|
      ensures IterWindow(sequences, range, iter, right, SequenceRange(
                           if sequences[iter].first < range.first then sequences[iter].first else range.first, high))
    {
      right := iter;
      var next := range.second + 1;
      while right < |sequences| && sequences[right].second < next
        invariant iter <= right <= |sequences|
        invariant forall i :: iter <= i < right ==> sequences[i].second < next
      {
        right := right + 1;
      }
      high := range.second;
      if right < |sequences| && sequences[right].first <= next && sequences[right].first > range.first {
        high := sequences[right].second;
        right := right + 1;
      }
    }

    /** Insertion that starts from an iterator instead of searching, and leaves it on the range that now holds r. */
    method InsertBitmapRange(start: nat, range: SequenceRange) returns (iter: nat, grew: bool)
      requires Separated(sequences) && 1 <= range.first <= range.second < MAX_VALUE
      requires start <= |sequences|
      requires start < |sequences| ==> forall i :: 0 <= i < start ==> sequences[i].second < Clamp(range.first - 1)
      modifies this
      ensures Separated(sequences) && Adds(old(sequences), range, sequences)
      ensures grew <==> exists x :: range.first <= x <= range.second && !Has(old(sequences), x)
      ensures !grew ==> sequences == old(sequences)
      ensures iter < |sequences| && sequences[iter].first <= range.first && range.second <= sequences[iter].second
      ensures Normal(sequences) <==> Normal(old(sequences)) && !ClampMiss(old(sequences), range.first)
      ensures Normal(old(sequences)) ==>
                (sequences == Inserted(old(sequences), range) <==> !ClampMiss(old(sequences), range.first))
    {
      hide Splice, Normal, Inserted, Separated;
      iter := Seek(start, Clamp(range.first - 1));
      ghost var was := sequences;
      IterFindsHole(was, range, iter);
      if iter == |sequences| || sequences[iter].first > range.second + 1 {
        IterWindowInserts(was, range, iter, iter, range);
        ghost var lo := iter;
        iter := Replace(iter, iter, range); // can't combine on either side
        EraseThenInsert(was, lo, lo, range, iter);
        grew := true;
      } else if sequences[iter].first <= range.first && sequences[iter].second >= range.second {
        grew := false; // already covered
        IterCovered(was, range, iter);
      } else {
        var right, high := RightEdge(iter, range);
        var low := if sequences[iter].first < range.first then sequences[iter].first else range.first;
        IterWindowInserts(was, range, iter, right, SequenceRange(low, high));
        ghost var lo := iter;
        iter := Replace(iter, right, SequenceRange(low, high));
        EraseThenInsert(was, lo, right, SequenceRange(low, high), iter);
        grew := true;
      }
      MatchesReference(was, range, sequences);
    }

    /** Inserts the set described by an RTPS bitmap: bit k stands for value + k. `past` says that the skip-ahead read
        a word past the end of the bitmap; the loop ends there, so the word is not used. */
    method InsertBitmap(value: nat, numBits: nat, bits: seq<bv32>) returns (inserted: bool, past: bool)
      requires Separated(sequences)
      requires numBits <= 32 * |bits| && numBits <= 0x7FFF_FFFF && value + numBits <= MAX_VALUE
      requires IndexFits32(sequences, value, numBits)
      modifies this
      ensures Separated(sequences)
      ensures forall x :: Has(sequences, x) <==> Decoded(old(sequences), value, bits, numBits, x)
      ensures 0 < value && EvenBeforeZero(bits) ==> AddsDigits(old(sequences), sequences, value, bits, numBits)
      ensures inserted <==> exists x :: Has(sequences, x) && !Has(old(sequences), x)
      ensures Normal(sequences) <==>
              Normal(old(sequences)) && !(1 < value + numBits && HiddenZero(old(sequences), value, bits))
      ensures past <==> ReadsPast(old(sequences), value, bits, numBits)
    {
      hide Holds, Decoding, Decoded, ScanAt, Separated, Normal, Has, HiddenZero, IndexFits32, Row, InStep;
      hide ReadsPast, Closes, AddsDigits, EvenBeforeZero;
      ghost var was := sequences;
      inserted, past := false, false;
      StartDecoding(was, value, bits);
      NothingRead(was, value, bits);
      var iter: nat, rangeStart: nat := |sequences|, 0;
      var i: nat, bit: nat, x: bv32 := 0, 0, 0;
      if 0 < numBits { StartInStep(bits); }
      while i < numBits
        invariant Decoding(was, value, bits, Until(i, numBits), rangeStart, sequences, iter, inserted)
        invariant i < numBits ==> !ScanAt(was, value, bits, i).skipping && InStep(bits, i, bit, x, rangeStart != 0)
        invariant past <==> ReadsPast(was, value, bits, Until(i, numBits))
        invariant past ==> numBits <= i
        decreases numBits - i
      {
        EnterInStep(bits, i, bit, x, rangeStart != 0);
        if bit == 32 { bit := 0; }
        if bit == 0 { x := bits[i / 32]; }
        var one := TestBit(x, bit);
        if bit == 0 && x == 0 {
          // skip an entire word if it is all zeroes
          DecodeZeroWord(was, value, bits, i, Until(i + 32, numBits), rangeStart, sequences, iter, inserted);
          ZeroWordClosesNothing(was, value, bits, i, Until(i + 32, numBits));
          i, bit := i + 31, 31;
        } else if one {
          DecodeSetBit(was, value, bits, i, rangeStart, sequences, iter, inserted);
          StillOpen(was, value, bits, i, rangeStart, sequences, iter, inserted);
          if rangeStart == 0 { rangeStart := value + i; }
        } else if rangeStart != 0 {
          // a zero after ones: insert the run
          iter, inserted, past, i, bit, x := CloseRun(was, value, numBits, bits, i, bit, x, rangeStart, iter, inserted);
          rangeStart := 0;
        } else {
          DecodeIdleBit(was, value, bits, i, sequences, iter, inserted);
          StillOpen(was, value, bits, i, rangeStart, sequences, iter, inserted);
        }
        NextInStep(bits, numBits, i, bit, x, rangeStart != 0);
        i, bit := i + 1, bit + 1;
      }
      if rangeStart != 0 {
        iter, inserted := InsertRun(was, value, bits, numBits, rangeStart, iter, inserted);
      }
      DecodingDone(was, value, bits, numBits, sequences, iter, inserted);
      if 0 < value && EvenBeforeZero(bits) { DecodedDigits(was, sequences, value, bits, numBits); }
    }

    /** Inserts the open run that ends before the zero bit i, then skips to the end of the range it is now part of. */
    method CloseRun(ghost was: seq<SequenceRange>, value: nat, numBits: nat, bits: seq<bv32>, i: nat, bit: nat, x: bv32,
                    rangeStart: nat, start: nat, inserted: bool)
      returns (iter: nat, inserted': bool, past: bool, i': nat, bit': nat, x': bv32)
      requires i < numBits <= 32 * |bits| && rangeStart != 0 && value + numBits <= MAX_VALUE
      requires Separated(was) && IndexFits32(was, value, numBits)
      requires Decoding(was, value, bits, i, rangeStart, sequences, start, inserted)
      requires bit == i % 32 && x == bits[i / 32] && x != 0 && !BitAt(bits, i)
      requires !ReadsPast(was, value, bits, i)
      modifies this
      ensures i <= i' && bit' == i' % 32 && (i' < numBits ==> x' == bits[i' / 32])
      ensures Decoding(was, value, bits, Until(i' + 1, numBits), 0, sequences, iter, inserted')
      ensures i' + 1 < numBits ==> !ScanAt(was, value, bits, i' + 1).skipping
      ensures past <==> ReadsPast(was, value, bits, Until(i' + 1, numBits))
      ensures past ==> numBits <= i'
    {
      hide Holds, Decoded, ScanAt, Separated, Normal, Has, HiddenZero, IndexFits32, ReadsPast;
      OpenAboveOne(was, value, bits, i);
      iter, inserted' := InsertRun(was, value, bits, i, rangeStart, start, inserted);
      DecodeSkipAhead(was, value, bits, i, numBits, sequences, iter, inserted');
      SkipReads(was, value, bits, i, numBits, sequences, iter, inserted');
      hide Decoding, Closes, One, ZeroWord, Row;
      i', bit', x', past := SkipAhead(value, bits, i, bit, x, sequences[iter].second);
    }

    /** The index, bit number and word with which the loop goes on (before its increment) after a run that ended at i
        in a range that ends at `second`. */
    static method SkipAhead(value: nat, bits: seq<bv32>, i: nat, bit: nat, x: bv32, second: nat)
      returns (i': nat, bit': nat, x': bv32, past: bool)
      requires i < 32 * |bits| && bit == i % 32 && x == bits[i / 32] && value + i <= second + 1
      requires value + i <= second ==> second < value + 0xFFFF_FFFF
      ensures i' == (if second == value + i - 1 then i else second - value) && bit' == i' % 32
      ensures past <==> value + 32 * |bits| <= second
      ensures !past ==> i' < 32 * |bits| && x' == bits[i' / 32]
    {
      i', bit', x', past := i, bit, x, false;
      if second != value + i - 1 {
        // skip ahead: the next gap must be past this range
        var nextI := (second - value) % 0x1_0000_0000;
        bit' := nextI % 32;
        if nextI / 32 != i / 32 {
          if nextI / 32 < |bits| { x' := bits[nextI / 32]; } else { past := true; }
        }
        i' := nextI;
      }
    }

    /** Inserts the open run [rangeStart .. value + m - 1]. */
    method InsertRun(ghost was: seq<SequenceRange>, value: nat, ghost bits: seq<bv32>, m: nat, rangeStart: nat,
                     start: nat, inserted: bool) returns (iter: nat, inserted': bool)
      requires m <= 32 * |bits| && rangeStart != 0 && value + m <= MAX_VALUE
      requires Decoding(was, value, bits, m, rangeStart, sequences, start, inserted)
      modifies this
      ensures Holds(was, value, bits, m, sequences, inserted')
      ensures iter < |sequences|
      ensures sequences[iter].first <= rangeStart && value + m <= sequences[iter].second + 1
    {
      ghost var cur := sequences;
      if start < |sequences| {
        forall j | 0 <= j < start ensures sequences[j].second < Clamp(rangeStart - 1) {
          assert Apart(sequences[j], sequences[start]);
        }
      }
      var grew;
      iter, grew := InsertBitmapRange(start, SequenceRange(rangeStart, value + m - 1));
      SettleRun(was, value, bits, m, rangeStart, cur, start, inserted, sequences, grew);
      inserted' := inserted || grew;
    }

    /** The positions of sequences[iter], or of the gap before it, converted to 32 bits: inverted, the gap of -1
        numbers between 0 and 1 becomes everything. */
    method FillBounds(invert: bool, iter: nat) returns (low: nat, high: nat)
      requires Separated(sequences) && 1 <= iter < |sequences|
      requires sequences[|sequences| - 1].second - Base(sequences) < 0x1_0000_0000
      ensures Fillable(sequences, invert) ==> Fill(low, high) == Fills(sequences, invert)[iter - 1]
      ensures !Fillable(sequences, invert) && iter == 1 ==> low == 0 && high == 0xFFFF_FFFF
    {
      BoundsFit(sequences, invert, iter);
      hide Separated, Normal, Fills, Fillable;
      var base, prev := sequences[0].second + 1, iter - 1;
      if invert {
        low := (sequences[prev].second + 1 - base) % 0x1_0000_0000;
        high := (sequences[iter].first - 1 - base) % 0x1_0000_0000;
      } else {
        low := (sequences[iter].first - base) % 0x1_0000_0000;
        high := (sequences[iter].second - base) % 0x1_0000_0000;
      }
    }

    /** Marks the range of positions for sequences[iter] (or the gap before it). */
    method MarkNth(bitmap: array<bv32>, invert: bool, iter: nat, ghost orig: seq<bv32>, numBits: nat)
      returns (fit: bool, numBits': nat)
      requires Separated(sequences) && 1 <= iter < |sequences| && bitmap.Length <= MAX_WORDS
      requires sequences[|sequences| - 1].second - Base(sequences) < 0x1_0000_0000
      requires |orig| == bitmap.Length && Marking(sequences, invert, iter, orig, bitmap[..], numBits)
      modifies bitmap
      ensures fit ==> iter + 1 <= |sequences| && Marking(sequences, invert, iter + 1, orig, bitmap[..], numBits')
      ensures Fillable(sequences, invert) ==> (fit <==> Fills(sequences, invert)[iter - 1].high < 32 * bitmap.Length)
      ensures Fillable(sequences, invert) && !fit ==> Encodes(Fills(sequences, invert), orig, bitmap[..], numBits')
      ensures !Fillable(sequences, invert) ==>
                !fit && numBits' == 32 * bitmap.Length && forall k :: 0 <= k < numBits' ==> BitAt(bitmap[..], k)
    {
      hide Encoded, Encodes, Filled, Normal, Fillable, Fills;
      var low, high := FillBounds(invert, iter);
      ghost var before := bitmap[..];
      if Fillable(sequences, invert) {
        MarkingParts(sequences, invert, iter, orig, before, numBits);
      }
      fit, numBits' := FillBitmapRange(low, high, bitmap, numBits);
      if Fillable(sequences, invert) {
        FillsIncreasing(sequences, invert);
        FillEncodes(Fills(sequences, invert), iter, orig, before, bitmap[..], fit, numBits');
      } else if 0 < bitmap.Length {
        AllFilled(before, bitmap[..]);
      }
    }

    /** Writes the members above cumulative_ack(), or the gaps between them, as an RTPS bitmap. */
    method ToBitmap(bitmap: array<bv32>, invert: bool) returns (ok: bool, numBits: nat)
      requires Separated(sequences) && bitmap.Length <= MAX_WORDS
      requires sequences != [] ==> sequences[|sequences| - 1].second - Base(sequences) < 0x1_0000_0000
      modifies bitmap
      ensures |sequences| <= 1 ==> ok && numBits == 0 && bitmap[..] == old(bitmap[..])
      ensures |sequences| > 1 ==> Outcome(sequences, invert, old(bitmap[..]), bitmap[..], numBits, ok)
      ensures |sequences| > 1 && (invert ==> Normal(sequences)) && Zeroed(old(bitmap[..])) ==>
                DigitsTell(sequences, invert, bitmap[..], numBits)
    {
      hide Has, Normal, Separated, Outcome, DigitsTell;
      ghost var orig := bitmap[..];
      ok, numBits := MarkAll(bitmap, invert);
      if |sequences| > 1 && (invert ==> Normal(sequences)) && Zeroed(orig) {
        EncodedByValue(sequences, invert, orig, bitmap[..], numBits, ok);
      }
    }

    /** The loop over the ranges. */
    method MarkAll(bitmap: array<bv32>, invert: bool) returns (ok: bool, numBits: nat)
      requires Separated(sequences) && bitmap.Length <= MAX_WORDS
      requires sequences != [] ==> sequences[|sequences| - 1].second - Base(sequences) < 0x1_0000_0000
      modifies bitmap
      ensures |sequences| <= 1 ==> ok && numBits == 0 && bitmap[..] == old(bitmap[..])
      ensures |sequences| > 1 ==> Outcome(sequences, invert, old(bitmap[..]), bitmap[..], numBits, ok)
    {
      hide Encoded, Encodes, Wanted, Normal, Increasing, Fills, Has, Fillable;
      numBits := 0;
      if |sequences| <= 1 {
        return true, 0;
      }
      ghost var orig := bitmap[..];
      StartMarking(sequences, invert, orig);
      var iter := 1;
      while iter < |sequences|
        invariant 1 <= iter <= |sequences| && Marking(sequences, invert, iter, orig, bitmap[..], numBits)
        invariant Fillable(sequences, invert) && 1 < iter ==>
                    Fills(sequences, invert)[iter - 2].high < 32 * bitmap.Length
      {
        var fit;
        fit, numBits := MarkNth(bitmap, invert, iter, orig, numBits);
        if !fit {
          if Fillable(sequences, invert) { WantedBeyond(sequences, invert, bitmap.Length, iter - 1); }
          return false, numBits;
        }
        iter := iter + 1;
      }
      MarkingDone(sequences, invert, orig, bitmap[..], numBits);
      return true, numBits;
    }

    /** Lowest member. */
    function Low(): (x: nat)
      requires Separated(sequences) && sequences != []
      reads this
      ensures Has(sequences, x) && forall y :: Has(sequences, y) ==> x <= y
    {
      LowIsLeast(sequences);
      sequences[0].first
    }

    /** Highest member. */
    function High(): (x: nat)
      requires Separated(sequences) && sequences != []
      reads this
      ensures Has(sequences, x) && forall y :: Has(sequences, y) ==> y <= x
    {
      HighIsGreatest(sequences);
      sequences[|sequences| - 1].second
    }

    /** High end of the lowest range. Everything from Low() to it is present; the next number is missing, as an
        acknowledgement needs, iff the list is in normal form. */
    function CumulativeAck(): (x: int)
      requires Separated(sequences)
      reads this
      ensures sequences == [] ==> x == -0x1_0000_0000
      ensures sequences != [] ==>
                (forall y :: Low() <= y <= x ==> Has(sequences, y)) && (!Has(sequences, x + 1) <==> Normal(sequences))
    {
      if sequences == [] then SEQUENCENUMBER_UNKNOWN
      else
        HoleAfterLowest(sequences);
        sequences[0].second
    }

    /** Low end of the highest range: everything from it to High() is present, and the number before it is missing
        unless the whole list is [0..0] next to a range from 1. */
    function LastAck(): (x: int)
      requires Separated(sequences)
      reads this
      ensures sequences == [] ==> x == -0x1_0000_0000
      ensures sequences != [] ==>
                && (forall y :: x <= y <= High() ==> Has(sequences, y))
                && (!Has(sequences, x - 1) <==> Normal(sequences) || |sequences| > 2)
    {
      if sequences == [] then SEQUENCENUMBER_UNKNOWN
      else
        HoleBeforeHighest(sequences);
        sequences[|sequences| - 1].first
    }

    /** Claims that there is an internal gap, rightly unless the whole list is [0..0] next to a range from 1. */
    predicate Disjoint()
      requires Separated(sequences)
      reads this
      ensures (Disjoint() <==> sequences != [] && exists x :: Low() < x < High() && !Has(sequences, x))
              <==> Normal(sequences) || |sequences| > 2
    {
      GapIffManyRanges(sequences);
      |sequences| > 1
    }

    method Contains(value: nat) returns (found: bool)
      requires Separated(sequences)
      ensures found <==> Has(sequences, value)
    {
      var iter := LowerBound(sequences, value);
      found := iter < |sequences| && sequences[iter].first <= value;
    }

    /** The internal gaps as ranges: with the present ranges they partition [Low() .. High()] iff the list is in normal
        form. Otherwise the number before 1 wraps, and all numbers from 1 on are reported missing ahead of the gaps. */
    method MissingSequenceRanges() returns (missing: seq<SequenceRange>)
      requires Separated(sequences) && (sequences != [] ==> High() <= MAX_VALUE)
      ensures Normal(sequences) ==> Normal(missing)
      ensures (forall x :: Has(missing, x) <==> IsGap(sequences, x)) <==> Normal(sequences)
      ensures !Normal(sequences) ==>
                && missing != [] && missing[0] == SequenceRange(1, MAX_VALUE)
                && Normal(missing[1..]) && forall x :: Has(missing[1..], x) <==> IsGap(sequences, x)
    {
      MissedExactIff(sequences);
      missing := CollectMissing();
    }

    method CollectMissing() returns (missing: seq<SequenceRange>)
      ensures missing == Missed(sequences, |sequences|)
    {
      missing := [];
      if |sequences| > 1 {
        var first, second := 0, 1;
        while second < |sequences|
          invariant 1 <= second <= |sequences| && first == second - 1
          invariant missing == Missed(sequences, second)
        {
          var missingLow, missingHigh := Next(sequences[first].second), Previous(sequences[second].first);
          if missingLow <= missingHigh {
            missing := missing + [SequenceRange(missingLow, missingHigh)];
          }
          first, second := first + 1, second + 1;
        }
      }
    }

    method PresentSequenceRanges() returns (present: seq<SequenceRange>)
      ensures present == sequences
    {
      present := sequences;
    }
  }

  function Low32(s: seq<SequenceRange>, invert: bool, iter: nat): nat
    requires 1 <= iter < |s|
  {
    (if invert then s[iter - 1].second + 1 - Base(s) else s[iter].first - Base(s)) % 0x1_0000_0000
  }

  function High32(s: seq<SequenceRange>, invert: bool, iter: nat): nat
    requires 1 <= iter < |s|
  {
    (if invert then s[iter].first - 1 - Base(s) else s[iter].second - Base(s)) % 0x1_0000_0000
  }

  lemma DifferencesFit(s: seq<SequenceRange>, iter: nat)
    requires Separated(s) && 1 <= iter < |s| && s[|s| - 1].second - Base(s) < 0x1_0000_0000
    ensures 0 <= s[iter - 1].second + 1 - Base(s) <= s[iter].first - Base(s)
    ensures s[iter].first <= s[iter].second && s[iter].second - Base(s) < 0x1_0000_0000
    ensures Normal(s) ==> 0 <= s[iter].first - 1 - Base(s)
    ensures !Normal(s) ==> s[0].second + 1 == s[1].first
  {
    assert Apart(s[0], s[iter]) && Apart(s[iter - 1], s[iter]);
    if iter < |s| - 1 { assert Apart(s[iter], s[|s| - 1]); }
    if 1 < iter { assert Apart(s[0], s[iter - 1]); }
    NormalIffZeroMerged(s);
  }

  /** Conversion to 32 bits loses nothing, except that the difference of -1 between 0 and 1 becomes the largest one. */
  lemma BoundsFit(s: seq<SequenceRange>, invert: bool, iter: nat)
    requires Separated(s) && 1 <= iter < |s| && s[|s| - 1].second - Base(s) < 0x1_0000_0000
    ensures Fillable(s, invert) ==> Fill(Low32(s, invert, iter), High32(s, invert, iter)) == Fills(s, invert)[iter - 1]
    ensures !Fillable(s, invert) && iter == 1 ==> Low32(s, invert, iter) == 0 && High32(s, invert, iter) == 0xFFFF_FFFF
  {
    hide Fills, Separated, Normal;
    DifferencesFit(s, iter);
    if Fillable(s, invert) { assert Fills(s, invert)[iter - 1] == FillOf(s, iter, invert); }
  }

  /** The first iter - 1 ranges of positions have been marked; if the first does not wrap. */
  ghost predicate Marking(s: seq<SequenceRange>, invert: bool, iter: nat, orig: seq<bv32>, cur: seq<bv32>, numBits: nat)
    requires 1 <= iter <= |s| && Separated(s)
  {
    if Fillable(s, invert) then
      var done := Fills(s, invert)[..iter - 1];
      Encoded(done, orig, cur) && numBits == End(done) <= 32 * |cur|
    else
      iter == 1 && numBits == 0
  }

  lemma StartMarking(s: seq<SequenceRange>, invert: bool, orig: seq<bv32>)
    requires s != [] && Separated(s)
    ensures Marking(s, invert, 1, orig, orig, 0)
  {
    NothingEncoded(orig);
    if Fillable(s, invert) { assert Fills(s, invert)[..0] == []; }
  }

  lemma MarkingParts(s: seq<SequenceRange>, invert: bool, iter: nat, orig: seq<bv32>, cur: seq<bv32>, numBits: nat)
    requires 1 <= iter < |s| && Fillable(s, invert) && Marking(s, invert, iter, orig, cur, numBits)
    ensures var f := Fills(s, invert)[iter - 1]; numBits <= f.low <= f.high
  {
    hide Encoded, Fills, Fillable, Increasing;
    var fills := Fills(s, invert);
    FillsIncreasing(s, invert);
    assert fills[..iter] == fills[..iter - 1] + [fills[iter - 1]];
    IncreasingPrefix(fills, iter);
    IncreasingParts(fills[..iter - 1], fills[iter - 1]);
  }

  lemma MarkingDone(s: seq<SequenceRange>, invert: bool, orig: seq<bv32>, cur: seq<bv32>, numBits: nat)
    requires |s| > 1 && Separated(s) && Marking(s, invert, |s|, orig, cur, numBits) && |cur| == |orig|
    requires Fillable(s, invert) ==> Fills(s, invert)[|s| - 2].high < 32 * |cur|
    ensures Outcome(s, invert, orig, cur, numBits, true)
  {
    hide Encoded, Encodes, Fills, Fillable, Increasing, Wanted;
    var fills := Fills(s, invert);
    FillsIncreasing(s, invert);
    assert fills[..|fills|] == fills;
    FillsStartInside(fills, 32 * |cur|);
    EncodingDone(fills, |fills|, orig, cur, numBits);
    WantedBeyond(s, invert, |cur|, |fills| - 1);
  }
}
